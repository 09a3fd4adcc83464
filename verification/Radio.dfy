/** The message object of the radio link. */
module RadioMessageObjects {
  import opened Bytes
  import opened Buffers
  import opened RadioMessages
  import opened RadioNodes
  import opened RingBuffer
  import Fifo

  class PfodRadioMsg {
    const maxMsgLen: nat
    const msgBuf: array<Byte>
    var msgLen: nat
    var addressedTo: Byte
    var receivedFrom: Byte
    var ackedMsgSeqNo: Byte
    var msgSeqNo: Byte

    ghost predicate Valid()
      reads this
    {
      msgBuf.Length == BUFFER_SIZE && maxMsgLen < BUFFER_SIZE && msgLen <= maxMsgLen
    }

    ghost function View(): Msg
      requires Valid()
      reads this, msgBuf
    {
      Msg(addressedTo, receivedFrom, msgSeqNo, ackedMsgSeqNo, msgBuf[..msgLen])
    }

    constructor (driverMaxLen: nat)
      ensures Valid() && fresh(msgBuf) && View() == Msg(0, 0, 0, 0, [])
      ensures maxMsgLen == if driverMaxLen >= BUFFER_SIZE then BUFFER_SIZE - 1 else driverMaxLen
    {
      maxMsgLen := if driverMaxLen >= BUFFER_SIZE then BUFFER_SIZE - 1 else driverMaxLen;
      msgBuf := new Byte[BUFFER_SIZE];
      msgLen, addressedTo, receivedFrom, ackedMsgSeqNo, msgSeqNo := 0, 0, 0, 0, 0;
    }

    /** As much of the bytes as a message holds. */
    method SaveMsg(bytes: seq<Byte>, to: Byte, from: Byte, seqNo: Byte, acked: Byte)
      requires Valid()
      modifies this, msgBuf
      ensures Valid() && View() == Msg(to, from, seqNo, acked, bytes[..Least(|bytes|, maxMsgLen)])
    {
      addressedTo, receivedFrom, msgSeqNo, ackedMsgSeqNo := to, from, seqNo, acked;
      msgLen := |bytes|;
      if msgLen > maxMsgLen {
        msgLen := maxMsgLen;
      }
      forall i | 0 <= i < msgLen {
        msgBuf[i] := bytes[i];
      }
    }

    /** Takes the bytes out of a buffer. */
    method SaveMsgFrom(source: PfodRingBuffer, to: Byte, from: Byte, seqNo: Byte, acked: Byte)
      requires Valid() && source.Valid() && source.buf != msgBuf
      modifies this, msgBuf, source
      ensures Valid() && source.Valid()
      ensures var len := Least(old(|source.Contents()|), maxMsgLen);
              View() == Msg(to, from, seqNo, acked, old(source.Contents())[..len]) && source.Contents() == old(source.Contents())[len..]
    {
      addressedTo, receivedFrom, msgSeqNo, ackedMsgSeqNo := to, from, seqNo, acked;
      msgLen := source.Available();
      if msgLen > maxMsgLen {
        msgLen := maxMsgLen;
      }
      hide PfodRingBuffer.Valid, PfodRingBuffer.Contents, PfodRingBuffer.View, Fifo.Step;
      ghost var all := source.Contents();
      for i := 0 to msgLen
        modifies source, msgBuf
        invariant source.Valid() && source.Contents() == all[i..]
        invariant forall k :: 0 <= k < i ==> msgBuf[k] == all[k]
      {
        var b := source.Read();
        msgBuf[i] := b;
      }
    }

    method SetAckedMsgSeqNo(acked: Byte)
      requires Valid()
      modifies this`ackedMsgSeqNo
      ensures Valid() && View() == old(View()).(ackedMsgSeqNo := acked)
    {
      ackedMsgSeqNo := acked;
    }

    predicate IsPureAck()
      requires Valid()
      reads this, msgBuf
      ensures IsPureAck() == View().IsPureAck()
    {
      msgSeqNo == 0 && msgLen == 1 && msgBuf[0] == 0
    }

    predicate IsPureAckFor(seqNo: Byte)
      requires Valid()
      reads this, msgBuf
      ensures IsPureAckFor(seqNo) == View().IsPureAckFor(seqNo)
    {
      seqNo == ackedMsgSeqNo && msgSeqNo == 0 && msgLen == 1 && msgBuf[0] == 0
    }

    predicate IsAckFor(last: PfodRadioMsg)
      requires Valid() && last.Valid()
      reads this, msgBuf, last, last.msgBuf
      ensures IsAckFor(last) == View().IsAckFor(last.View())
    {
      if receivedFrom != last.addressedTo || addressedTo != last.receivedFrom then false
      else if IsPureAckFor(last.msgSeqNo) then true
      else last.msgSeqNo == ackedMsgSeqNo && msgSeqNo != 0
    }

    predicate IsNewMsg(thisAddress: Byte, targetAddress: Byte, expected: Byte, isServer: bool)
      requires Valid()
      reads this, msgBuf
      ensures IsNewMsg(thisAddress, targetAddress, expected, isServer)
          == View().IsNewMsg(thisAddress, targetAddress, expected, isServer)
    {
      if targetAddress == 0 then false
      else if receivedFrom != targetAddress || addressedTo != thisAddress then false
      else if IsPureAck() then false
      else if !isServer && msgSeqNo == 0 then false
      else msgSeqNo == expected
    }

    predicate IsNewConnectionRequest(ourAddress: Byte)
      requires Valid()
      reads this, msgBuf
      ensures IsNewConnectionRequest(ourAddress) == View().IsNewConnectionRequest(ourAddress)
    {
      if addressedTo != ourAddress then false
      else if msgSeqNo != 0 then false
      else !(msgLen == 0 || msgBuf[0] == 0)
    }
  }
}

/** The radio node object; what it does is what RadioNodes says. */
module Radio {
  import opened Bytes
  import opened Buffers
  import opened RadioMessages
  import opened RadioNodes
  import opened RingBuffer
  import opened RadioMessageObjects
  import opened RadioLink
  import opened RadioInvariant
  import opened RadioGuarantees
  import Fifo

  /** The buffer of a client for what it sends and of a server for what it receives, and the other way round. */
  const BUFFER_SIZE_256: nat := 255 + 8 + 2
  const BUFFER_SIZE_1024: nat := 1023 + 8 + 2

  lemma AckSeenKeepsReceived(n: Node)
    ensures AckSeen(n).receivedMsg == n.receivedMsg
  {
  }

  lemma NoNewConnectionAtClient(n: Node)
    ensures !n.isServer ==> CheckForNewConnection(n) == n
    ensures CheckForNewConnection(n).receivedMsg == n.receivedMsg
  {
  }

  function NewServer(address: Byte, retries: nat, maxMsgLen: nat): Node {
    Node(true, address, NOT_SET, 1, 0, false, 0, retries, true, false, false, Msg(0, 0, 0, 0, []), Msg(0, address, 0, 0, []),
         Buffer([], BUFFER_SIZE_1024), Buffer([], BUFFER_SIZE_256), Buffer([], BUFFER_SIZE_1024), maxMsgLen)
  }

  function NewClient(address: Byte, to: Byte, retries: nat, maxMsgLen: nat): Node {
    Node(false, address, to, 0, 0, false, 0, retries, true, false, false, Msg(0, 0, 0, 0, []), Msg(to, address, 0, 0, []),
         Buffer([], BUFFER_SIZE_256), Buffer([], BUFFER_SIZE_1024), Buffer([], 0), maxMsgLen)
  }

  /** A client and a server as they are set up, and nothing in flight. */
  function NewNet(client: Node, server: Node): Net {
    Net(client, server, [], [], [], [], [], [], [], [], [], [])
  }

  /** The guarantees of a connection hold for a node set up to listen and a client of it, from their construction on. */
  lemma NewNodesDeliver(client: Byte, server: Byte, clientRetries: nat, serverRetries: nat, maxMsgLen: nat, events: seq<Event>)
    requires 0 < client < NOT_SET && 0 < server < NOT_SET && serverRetries > 0 && 0 < maxMsgLen < BUFFER_SIZE
    requires AllowedRun(NewNet(NewClient(client, server, clientRetries, maxMsgLen), NewServer(server, serverRetries, maxMsgLen)), events)
    ensures var start := NewNet(NewClient(client, server, clientRetries, maxMsgLen), NewServer(server, serverRetries, maxMsgLen));
            var net := Run(start, events);
            net.readByServer + net.server.rxBuf.bytes <= [CONNECTION_MARKER] + net.writtenByClient &&
            MergesPrefixes(net.readByClient + net.client.rxBuf.bytes, net.writtenByServer, net.rawByServer)
  {
    var start := NewNet(NewClient(client, server, clientRetries, maxMsgLen), NewServer(server, serverRetries, maxMsgLen));
    ExactlyOnceInOrder(start, events);
    ExactlyOnceFromServer(start, events);
    var net := Run(start, events);
    assert [] <= [CONNECTION_MARKER] + net.writtenByClient;
    InitInv(start);
    RunKeeps(start, events);
  }

  /** Empty parts that share no storage. */
  ghost predicate Usable(received: PfodRadioMsg, last: PfodRadioMsg, tx: PfodRingBuffer, rx: PfodRingBuffer, raw: PfodRingBuffer)
    reads received, received.msgBuf, last, tx, tx.buf, rx, rx.buf, raw, raw.buf
  {
    received != last && tx != rx && tx != raw && rx != raw && received.msgBuf != last.msgBuf &&
    tx.buf != rx.buf && tx.buf != raw.buf && rx.buf != raw.buf &&
    received.msgBuf !in {tx.buf, rx.buf, raw.buf} && last.msgBuf !in {tx.buf, rx.buf, raw.buf} &&
    received.Valid() && last.Valid() && received.maxMsgLen == last.maxMsgLen && received.View() == Msg(0, 0, 0, 0, []) &&
    tx.Valid() && rx.Valid() && raw.Valid() && tx.Contents() == rx.Contents() == raw.Contents() == []
  }

  class PfodRadio {
    const thisAddress: Byte
    const maxMsgLen: nat
    const receivedMsg: PfodRadioMsg
    const lastMsgSent: PfodRadioMsg
    const txBuf: PfodRingBuffer
    const rxBuf: PfodRingBuffer
    const rawDataBuf: PfodRingBuffer
    const isServerNode: bool
    var targetAddress: Byte
    var outGoingSeqNo: Byte
    var inComingSeqNo: Byte
    var waitingForAckOfLastMsgSent: bool
    var retriesCount: nat
    var noOfRetries: nat
    var connectionClosed: bool
    var newConnection: bool
    var linkTimerRunning: bool

    /** The parts of the node and their storage. */
    ghost function Parts(): set<object> {
      {receivedMsg, receivedMsg.msgBuf, lastMsgSent, lastMsgSent.msgBuf,
       txBuf, txBuf.buf, rxBuf, rxBuf.buf, rawDataBuf, rawDataBuf.buf}
    }

    /** No two parts share storage. */
    ghost predicate Apart() {
      receivedMsg != lastMsgSent && txBuf != rxBuf && txBuf != rawDataBuf && rxBuf != rawDataBuf &&
      receivedMsg.msgBuf != lastMsgSent.msgBuf && txBuf.buf != rxBuf.buf && txBuf.buf != rawDataBuf.buf && rxBuf.buf != rawDataBuf.buf &&
      receivedMsg.msgBuf !in {txBuf.buf, rxBuf.buf, rawDataBuf.buf} && lastMsgSent.msgBuf !in {txBuf.buf, rxBuf.buf, rawDataBuf.buf}
    }

    ghost predicate Valid()
      reads this, Parts()
    {
      Apart() && maxMsgLen < BUFFER_SIZE && receivedMsg.maxMsgLen == maxMsgLen == lastMsgSent.maxMsgLen &&
      receivedMsg.Valid() && lastMsgSent.Valid() && txBuf.Valid() && rxBuf.Valid() && rawDataBuf.Valid()
    }

    ghost function View(): (n: Node)
      requires Valid()
      reads this, Parts()
      ensures n.isServer == isServerNode && n.thisAddress == thisAddress && n.maxMsgLen == maxMsgLen
    {
      Node(isServerNode, thisAddress, targetAddress, outGoingSeqNo, inComingSeqNo, waitingForAckOfLastMsgSent,
           retriesCount, noOfRetries, connectionClosed, newConnection, linkTimerRunning,
           receivedMsg.View(), lastMsgSent.View(), BufferOf(txBuf), BufferOf(rxBuf), BufferOf(rawDataBuf), maxMsgLen)
    }

    /** What the fields and the parts say about the state. */
    lemma Fields()
      requires Valid()
      ensures Apart() && receivedMsg.Valid() && lastMsgSent.Valid() && txBuf.Valid() && rxBuf.Valid() && rawDataBuf.Valid()
      ensures var n := View();
              n.targetAddress == targetAddress && n.outGoingSeqNo == outGoingSeqNo && n.inComingSeqNo == inComingSeqNo &&
              n.waitingForAck == waitingForAckOfLastMsgSent && n.retriesCount == retriesCount && n.noOfRetries == noOfRetries &&
              n.connectionClosed == connectionClosed && n.newConnection == newConnection && n.linkTimerRunning == linkTimerRunning &&
              n.receivedMsg == receivedMsg.View() && n.lastMsgSent == lastMsgSent.View() &&
              n.txBuf == BufferOf(txBuf) && n.rxBuf == BufferOf(rxBuf) && n.rawDataBuf == BufferOf(rawDataBuf)
    {
      hide PfodRingBuffer.Valid, PfodRingBuffer.Contents, PfodRadioMsg.View, Apart;
    }

    /** Puts one byte into the receive buffer. */
    method PutReceived(b: Byte)
      requires Valid()
      modifies rxBuf, rxBuf.buf
      ensures Valid() && View() == old(View()).(rxBuf := old(View()).rxBuf.Put(b))
    {
      hide PfodRingBuffer.Valid, PfodRingBuffer.Contents, PfodRingBuffer.View, Fifo.Step;
      var written := rxBuf.Write(b);
    }

    /** A node set up to listen; its parts are given to it and nothing else uses them. */
    constructor Listen(address: Byte, retries: nat, received: PfodRadioMsg, last: PfodRadioMsg,
                       tx: PfodRingBuffer, rx: PfodRingBuffer, raw: PfodRingBuffer)
      requires Usable(received, last, tx, rx, raw)
      requires rx.bufSize == BUFFER_SIZE_256 && tx.bufSize == raw.bufSize == BUFFER_SIZE_1024
      modifies last, last.msgBuf
      ensures Valid() && Parts() == {received, received.msgBuf, last, last.msgBuf, tx, tx.buf, rx, rx.buf, raw, raw.buf}
      ensures View() == NewServer(address, retries, received.maxMsgLen)
    {
      hide PfodRingBuffer.Valid, PfodRingBuffer.Contents;
      thisAddress, maxMsgLen, noOfRetries, isServerNode := address, received.maxMsgLen, retries, true;
      waitingForAckOfLastMsgSent, retriesCount, connectionClosed, newConnection, linkTimerRunning := false, 0, true, false, false;
      receivedMsg, lastMsgSent, txBuf, rxBuf, rawDataBuf := received, last, tx, rx, raw;
      outGoingSeqNo := 1;
      inComingSeqNo := 0;
      targetAddress := NOT_SET;
      new;
      lastMsgSent.SaveMsg([], 0, thisAddress, 0, 0);
    }

    /** A node set up as the client of a server; it has no buffer for raw data. */
    constructor ConnectTo(address: Byte, to: Byte, retries: nat, received: PfodRadioMsg, last: PfodRadioMsg,
                          tx: PfodRingBuffer, rx: PfodRingBuffer, raw: PfodRingBuffer)
      requires Usable(received, last, tx, rx, raw)
      requires rx.bufSize == BUFFER_SIZE_1024 && tx.bufSize == BUFFER_SIZE_256 && raw.bufSize == 0
      modifies last, last.msgBuf
      ensures Valid() && Parts() == {received, received.msgBuf, last, last.msgBuf, tx, tx.buf, rx, rx.buf, raw, raw.buf}
      ensures View() == NewClient(address, to, retries, received.maxMsgLen)
    {
      hide PfodRingBuffer.Valid, PfodRingBuffer.Contents;
      thisAddress, maxMsgLen, noOfRetries, isServerNode := address, received.maxMsgLen, retries, false;
      waitingForAckOfLastMsgSent, retriesCount, connectionClosed, newConnection, linkTimerRunning := false, 0, true, false, false;
      receivedMsg, lastMsgSent, txBuf, rxBuf, rawDataBuf := received, last, tx, rx, raw;
      outGoingSeqNo := 0;
      inComingSeqNo := 0;
      targetAddress := to;
      new;
      lastMsgSent.SaveMsg([], to, thisAddress, 0, 0);
    }

    method ResetTargetAndSeqNos()
      modifies this
      requires Valid()
      ensures Valid()
      ensures View() == old(View()).(waitingForAck := false, outGoingSeqNo := 0, inComingSeqNo := 1, retriesCount := 0)
    {
      hide PfodRingBuffer.Valid, PfodRingBuffer.Contents, PfodRingBuffer.View, Fifo.Step;
      waitingForAckOfLastMsgSent := false;
      outGoingSeqNo := 0;
      inComingSeqNo := 1;
      retriesCount := 0;
    }

    method ClearTxRxBuffers()
      requires Valid()
      modifies txBuf, rxBuf, rawDataBuf
      ensures Valid()
      ensures var n := old(View());
              View() == n.(txBuf := n.txBuf.Cleared(), rxBuf := n.rxBuf.Cleared(), rawDataBuf := n.rawDataBuf.Cleared())
    {
      hide PfodRingBuffer.Valid, PfodRingBuffer.Contents, PfodRingBuffer.View, Fifo.Step;
      txBuf.Clear();
      rxBuf.Clear();
      rawDataBuf.Clear();
    }

    method CloseConnection()
      requires Valid()
      modifies this, Parts()
      ensures Valid() && View() == Close(old(View()))
    {
      hide PfodRingBuffer.Valid, PfodRingBuffer.Contents, PfodRingBuffer.View, Fifo.Step;
      ResetTargetAndSeqNos();
      if isServerNode {
        targetAddress := NOT_SET;
      }
      connectionClosed := true;
      linkTimerRunning := false;
      ClearTxRxBuffers();
      PutReceived(CONNECTION_MARKER);
    }

    method CloseTheCurrentConnection()
      requires Valid()
      modifies this, Parts()
      ensures Valid() && View() == CloseCurrentConnection(old(View()))
    {
      hide PfodRingBuffer.Valid, PfodRingBuffer.Contents, PfodRingBuffer.View, Fifo.Step;
      if newConnection {
        newConnection := false;
        txBuf.Clear();
        rawDataBuf.Clear();
        connectionClosed := false;
        return;
      }
      CloseConnection();
      ClearTxRxBuffers();
    }

    method CheckIfConnectionNeeded()
      requires Valid()
      modifies this
      ensures Valid() && View() == CheckIfNeedToConnect(old(View()))
    {
      hide PfodRingBuffer.Valid, PfodRingBuffer.Contents, PfodRingBuffer.View, Fifo.Step;
      if isServerNode {
        return;
      }
      if !connectionClosed {
        return;
      }
      ResetTargetAndSeqNos();
      connectionClosed := false;
    }

    method IsAckForLastMsgSent() returns (acked: bool)
      requires Valid()
      modifies this
      ensures Valid() && View() == AckSeen(old(View()))
      ensures acked == (old(View()).waitingForAck && !View().waitingForAck)
    {
      hide PfodRingBuffer.Valid, PfodRingBuffer.Contents, PfodRingBuffer.View, Fifo.Step;
      if !waitingForAckOfLastMsgSent {
        return false;
      }
      acked := receivedMsg.IsAckFor(lastMsgSent);
      if !acked {
        return false;
      }
      waitingForAckOfLastMsgSent := false;
      retriesCount := 0;
      return true;
    }

    /** The state of a connection just made. */
    method StartConnection()
      requires Valid()
      modifies this
      ensures Valid()
      ensures var n := old(View());
              View() == n.(newConnection := true, targetAddress := n.receivedMsg.receivedFrom,
                connectionClosed := false, outGoingSeqNo := 1, inComingSeqNo := 0, linkTimerRunning := n.noOfRetries > 0)
    {
      hide PfodRingBuffer.Valid, PfodRingBuffer.Contents, PfodRingBuffer.View, PfodRadioMsg.Valid, Apart, BufferOf;
      newConnection := true;
      targetAddress := receivedMsg.receivedFrom;
      connectionClosed := false;
      outGoingSeqNo := 1;
      inComingSeqNo := 0;
      linkTimerRunning := noOfRetries > 0;
    }

    method CheckForAllowableNewConnection()
      requires Valid()
      modifies this, rxBuf, rxBuf.buf
      ensures Valid() && View() == CheckForNewConnection(old(View()))
    {
      hide Valid, View, PfodRingBuffer.Valid, PfodRingBuffer.Contents, BufferOf;
      Fields();
      if !isServerNode {
        return;
      }
      var request := receivedMsg.IsNewConnectionRequest(thisAddress);
      if !request {
        return;
      }
      if targetAddress != NOT_SET && targetAddress == receivedMsg.receivedFrom {
        if inComingSeqNo == 1 && receivedMsg.msgSeqNo == 0 && linkTimerRunning {
          return;
        }
      } else {
        if !connectionClosed {
          return;
        }
      }
      if receivedMsg.receivedFrom == 0xff {
        return;
      }
      PutReceived(CONNECTION_MARKER);
      StartConnection();
    }

    /** What the driver is handed for the last message: nothing if its address is not set. */
    function SendLastMsg(): (sent: seq<Msg>)
      requires Valid()
      reads this, Parts()
      ensures sent == Transmit(View().lastMsgSent)
    {
      if lastMsgSent.addressedTo == NOT_SET then []
      else
        [Msg(lastMsgSent.addressedTo, lastMsgSent.receivedFrom, lastMsgSent.msgSeqNo, lastMsgSent.ackedMsgSeqNo,
             lastMsgSent.msgBuf[..lastMsgSent.msgLen])]
    }

    method SendAck() returns (sent: seq<Msg>)
      requires Valid() && maxMsgLen > 0
      modifies lastMsgSent, lastMsgSent.msgBuf
      ensures Valid()
      ensures var m := old(View()).receivedMsg;
              var ack := PureAck(m.receivedFrom, m.addressedTo, m.msgSeqNo);
              View() == old(View()).(lastMsgSent := ack) && sent == Transmit(ack)
    {
      hide PfodRingBuffer.Valid, PfodRingBuffer.Contents, PfodRingBuffer.View, Fifo.Step;
      lastMsgSent.SaveMsg([0], receivedMsg.receivedFrom, receivedMsg.addressedTo, 0, receivedMsg.msgSeqNo);
      sent := SendLastMsg();
    }

    /** Copies the received message into the receive buffer. */
    method CopyReceived()
      requires Valid() && BufferOf(rxBuf).Room() >= receivedMsg.msgLen
      modifies rxBuf, rxBuf.buf
      ensures Valid()
      ensures var n := old(View()); View() == n.(rxBuf := Buffer(n.rxBuf.bytes + n.receivedMsg.body, n.rxBuf.capacity))
    {
      hide PfodRingBuffer.Valid, PfodRingBuffer.Contents, PfodRingBuffer.View, Fifo.Step;
      for i := 0 to receivedMsg.msgLen
        invariant Valid()
        invariant var n := old(View()); View() == n.(rxBuf := Buffer(n.rxBuf.bytes + n.receivedMsg.body[..i], n.rxBuf.capacity))
      {
        PutReceived(receivedMsg.msgBuf[i]);
      }
    }

    /** Acknowledges the stored message, on the resend of the message still unacknowledged or at once. */
    method AckReceived() returns (sent: seq<Msg>)
      requires Valid() && maxMsgLen > 0
      modifies lastMsgSent, lastMsgSent.msgBuf
      ensures Valid()
      ensures var n, m := old(View()), old(View()).receivedMsg;
              var ack := PureAck(m.receivedFrom, m.addressedTo, m.msgSeqNo);
              if n.waitingForAck then View() == n.(lastMsgSent := n.lastMsgSent.(ackedMsgSeqNo := m.msgSeqNo)) && sent == []
              else View() == n.(lastMsgSent := ack) && sent == Transmit(ack)
    {
      hide PfodRingBuffer.Valid, PfodRingBuffer.Contents;
      sent := [];
      if waitingForAckOfLastMsgSent {
        lastMsgSent.SetAckedMsgSeqNo(receivedMsg.msgSeqNo);
      } else {
        sent := SendAck();
      }
    }

    /** The next number counts from 255 to 0. */
    method CountReceived()
      requires Valid()
      modifies this`inComingSeqNo
      ensures Valid() && View() == old(View()).(inComingSeqNo := Increment(old(View()).inComingSeqNo))
    {
      hide PfodRingBuffer.Valid, PfodRingBuffer.Contents, PfodRadioMsg.View, Apart;
      inComingSeqNo := (inComingSeqNo + 1) % 256;
    }

    /** A new message: store it and acknowledge it. */
    method StoreReceived() returns (sent: seq<Msg>)
      requires Valid() && maxMsgLen > 0
      modifies this, Parts()
      ensures Valid() && Action(View(), sent) == Store(old(View()))
    {
      hide Valid, View, PfodRingBuffer.Valid, PfodRingBuffer.Contents, Apart;
      sent := [];
      Fields();
      CheckLinkTimer(inComingSeqNo == 1 && receivedMsg.msgSeqNo == 1);
      Fields();
      var room := rxBuf.AvailableForWrite();
      if room >= receivedMsg.msgLen {
        CopyReceived();
        sent := AckReceived();
        CountReceived();
      }
    }

    /** What a poll does with the message just received. */
    method DeliverReceived() returns (sent: seq<Msg>)
      requires Valid() && maxMsgLen > 0
      modifies this, Parts()
      ensures Valid() && Action(View(), sent) == Deliver(old(View()))
    {
      hide PfodRingBuffer.Valid, PfodRingBuffer.Contents, PfodRingBuffer.View, AckSeen, CheckForNewConnection, Store;
      sent := [];
      ghost var before := View();
      var acked := IsAckForLastMsgSent();
      AckSeenKeepsReceived(before);
      var pureAck := receivedMsg.IsPureAck();
      if !pureAck {
        ghost var seen := View();
        NoNewConnectionAtClient(seen);
        if isServerNode {
          CheckForAllowableNewConnection();
        }
        ghost var n := View();
        assert n == CheckForNewConnection(seen);
        var isNew := receivedMsg.IsNewMsg(thisAddress, targetAddress, inComingSeqNo, isServerNode);
        if isNew {
          sent := StoreReceived();
        } else {
          var seqNoPlus1 := (receivedMsg.msgSeqNo + 1) % 256;
          if seqNoPlus1 == 0 {
            seqNoPlus1 := 0xff;
          }
          if seqNoPlus1 == inComingSeqNo {
            sent := SendLastMsg();
          }
        }
      }
    }

    /** Makes the next message out of raw data. */
    method TakeRawData(acked: Byte)
      requires Valid()
      modifies lastMsgSent, lastMsgSent.msgBuf, rawDataBuf
      ensures Valid()
      ensures var n := old(View());
              var len := Least(|n.rawDataBuf.bytes|, n.maxMsgLen);
              View() == n.(lastMsgSent := Msg(n.targetAddress, n.thisAddress, n.outGoingSeqNo, acked, n.rawDataBuf.bytes[..len]),
                           rawDataBuf := Buffer(n.rawDataBuf.bytes[len..], n.rawDataBuf.capacity))
    {
      hide PfodRingBuffer.Valid, PfodRingBuffer.Contents, PfodRadioMsg.Valid, Least;
      lastMsgSent.SaveMsgFrom(rawDataBuf, targetAddress, thisAddress, outGoingSeqNo, acked);
    }

    /** Makes the next message out of what was written. */
    method TakeWritten(acked: Byte)
      requires Valid()
      modifies lastMsgSent, lastMsgSent.msgBuf, txBuf
      ensures Valid()
      ensures var n := old(View());
              var len := Least(|n.txBuf.bytes|, n.maxMsgLen);
              View() == n.(lastMsgSent := Msg(n.targetAddress, n.thisAddress, n.outGoingSeqNo, acked, n.txBuf.bytes[..len]),
                           txBuf := Buffer(n.txBuf.bytes[len..], n.txBuf.capacity))
    {
      hide PfodRingBuffer.Valid, PfodRingBuffer.Contents, PfodRadioMsg.Valid, Least;
      lastMsgSent.SaveMsgFrom(txBuf, targetAddress, thisAddress, outGoingSeqNo, acked);
    }

    /** The number after 255 is 1. */
    method CountSent()
      requires Valid()
      modifies this`outGoingSeqNo
      ensures Valid() && View() == old(View()).(outGoingSeqNo := NextOutGoing(old(View()).outGoingSeqNo))
    {
      hide PfodRingBuffer.Valid, PfodRingBuffer.Contents, PfodRadioMsg.View, Apart;
      outGoingSeqNo := (outGoingSeqNo + 1) % 256;
      if outGoingSeqNo == 0 {
        outGoingSeqNo := 1;
      }
    }

    /** Makes the next message out of raw data, if there is any, or else out of what was written. */
    method TakeNextMsg(acked: Byte)
      requires Valid()
      modifies this, Parts()
      ensures Valid()
      ensures var n := old(View());
              var raw := n.rawDataBuf.bytes != [];
              var source := if raw then n.rawDataBuf else n.txBuf;
              var len := Least(|source.bytes|, n.maxMsgLen);
              var rest := Buffer(source.bytes[len..], source.capacity);
              View() == n.(lastMsgSent := Msg(n.targetAddress, n.thisAddress, n.outGoingSeqNo, acked, source.bytes[..len]),
                           outGoingSeqNo := NextOutGoing(n.outGoingSeqNo),
                           rawDataBuf := if raw then rest else n.rawDataBuf, txBuf := if raw then n.txBuf else rest)
    {
      hide Valid, View, PfodRingBuffer.Valid, PfodRingBuffer.Contents, PfodRadioMsg.View, PfodRadioMsg.Valid;
      Fields();
      var raw := rawDataBuf.Available();
      if raw > 0 {
        TakeRawData(acked);
      } else {
        TakeWritten(acked);
      }
      CountSent();
    }

    method StartWaiting()
      requires Valid()
      modifies this`waitingForAckOfLastMsgSent, this`retriesCount
      ensures Valid() && View() == old(View()).(waitingForAck := true, retriesCount := 0)
    {
      hide PfodRingBuffer.Valid, PfodRingBuffer.Contents, PfodRadioMsg.View, Apart;
      waitingForAckOfLastMsgSent := true;
      retriesCount := 0;
    }

    method ClearRawData()
      requires Valid()
      modifies rawDataBuf
      ensures Valid() && View() == old(View()).(rawDataBuf := old(View()).rawDataBuf.Cleared())
    {
      hide PfodRingBuffer.Valid, PfodRingBuffer.Contents, PfodRingBuffer.View, Fifo.Step;
      rawDataBuf.Clear();
    }

    method SendMsg(writeDelayPassed: bool) returns (sent: seq<Msg>)
      requires Valid()
      modifies this, Parts()
      ensures Valid()
      ensures if old(View()).waitingForAck && !(isServerNode && old(View()).connectionClosed) then View() == old(View()) && sent == []
              else Action(View(), sent) == SendNext(old(View()), writeDelayPassed)
    {
      hide Valid, View, PfodRingBuffer.Valid, PfodRingBuffer.Contents, Apart, PfodRadioMsg.View, PfodRadioMsg.Valid;
      Fields();
      if isServerNode && connectionClosed {
        ClearRawData();
        return [];
      }
      if waitingForAckOfLastMsgSent {
        return [];
      }
      var tx := txBuf.Available();
      var raw := rawDataBuf.Available();
      if tx == 0 && raw == 0 {
        return [];
      }
      if !(raw >= maxMsgLen || tx >= maxMsgLen || writeDelayPassed) {
        return [];
      }
      CheckIfConnectionNeeded();
      StartWaiting();
      var acked := PiggybackedAck();
      TakeNextMsg(acked);
      sent := SendLastMsg();
    }

    /** A message sent right after a pure acknowledgement repeats it. */
    function PiggybackedAck(): (acked: Byte)
      requires Valid()
      reads this, Parts()
      ensures acked == if View().lastMsgSent.IsPureAck() then View().receivedMsg.msgSeqNo else 0
    {
      if lastMsgSent.IsPureAck() then receivedMsg.msgSeqNo else 0
    }

    /** The end of a poll: resend or give up while waiting, send otherwise. */
    method TimeOutOrSendMsg(i: PollInput) returns (sent: seq<Msg>)
      requires Valid()
      modifies this, Parts()
      ensures Valid() && Action(View(), sent) == TimeOutOrSend(old(View()), i)
    {
      hide PfodRingBuffer.Valid, PfodRingBuffer.Contents, PfodRingBuffer.View, Fifo.Step;
      sent := [];
      if waitingForAckOfLastMsgSent {
        if !i.transmitting && i.ackTimedOut {
          if retriesCount < noOfRetries {
            retriesCount := retriesCount + 1;
            sent := SendLastMsg();
          } else {
            CloseConnection();
          }
        }
      } else {
        if !i.transmitting {
          sent := SendMsg(i.writeDelayPassed);
        }
      }
    }

    /** Stops the link timer once its time is over. */
    method CheckLinkTimer(expired: bool)
      requires Valid()
      modifies this`linkTimerRunning
      ensures Valid() && View() == old(View()).(linkTimerRunning := old(View()).linkTimerRunning && !expired)
    {
      hide PfodRingBuffer.Valid, PfodRingBuffer.Contents, PfodRadioMsg.View, Apart;
      if linkTimerRunning && expired {
        linkTimerRunning := false;
      }
    }

    /** Takes a message from the driver. */
    method RecvMsg(m: Msg)
      requires Valid()
      modifies receivedMsg, receivedMsg.msgBuf
      ensures Valid() && View() == Receive(old(View()), m)
    {
      hide PfodRingBuffer.Valid, PfodRingBuffer.Contents;
      receivedMsg.SaveMsg(m.body, m.addressedTo, m.receivedFrom, m.msgSeqNo, m.ackedMsgSeqNo);
    }

    method PollRadio(i: PollInput) returns (sent: seq<Msg>)
      requires Valid() && maxMsgLen > 0
      modifies this, Parts()
      ensures Valid() && Action(View(), sent) == Poll(old(View()), i)
    {
      hide View, Valid, Apart, Deliver, TimeOutOrSend, Receive;
      CheckLinkTimer(i.linkExpired);
      if thisAddress == NOT_SET {
        return [];
      }
      sent := [];
      if i.packet.Some? {
        RecvMsg(i.packet.value);
        sent := DeliverReceived();
      }
      var more := TimeOutOrSendMsg(i);
      sent := sent + more;
    }

    /** The upper layer reads one byte. */
    method Read(i: PollInput) returns (b: int, sent: seq<Msg>)
      requires Valid() && maxMsgLen > 0
      modifies this, Parts()
      ensures Valid()
      ensures var a := Poll(old(View()), i);
              var rx := a.node.rxBuf;
              sent == a.sent && b == (if rx.bytes == [] then NOTHING else rx.bytes[0]) &&
              View() == a.node.(rxBuf := Taken(rx))
    {
      hide PfodRingBuffer.Valid, PfodRingBuffer.Contents, PfodRingBuffer.View, Fifo.Step;
      sent := PollRadio(i);
      b := rxBuf.Read();
    }

    /** The upper layer writes one byte; a byte that does not fit is dropped. */
    method Write(b: Byte, i: PollInput) returns (sent: seq<Msg>)
      requires Valid() && maxMsgLen > 0
      modifies this, Parts()
      ensures Valid()
      ensures var a := Poll(old(View()), i); sent == a.sent && View() == a.node.(txBuf := a.node.txBuf.Put(b))
    {
      hide PfodRingBuffer.Valid, PfodRingBuffer.Contents, PfodRingBuffer.View, Fifo.Step;
      sent := PollRadio(i);
      var written := txBuf.Write(b);
    }
  }
}
