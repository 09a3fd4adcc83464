/** Radio messages and the questions a node asks about the one it received. */
module RadioMessages {
  import opened Bytes

  /** The largest number of data bytes a message object can hold. */
  const BUFFER_SIZE: nat := 255

  datatype Msg = Msg(addressedTo: Byte, receivedFrom: Byte, msgSeqNo: Byte, ackedMsgSeqNo: Byte, body: seq<Byte>) {

    /** A single null byte numbered 0; a connection request is numbered 0 too but never starts with a null. */
    predicate IsPureAck() {
      msgSeqNo == 0 && body == [0]
    }

    predicate IsPureAckFor(seqNo: Byte) {
      seqNo == ackedMsgSeqNo && IsPureAck()
    }

    predicate IsAckFor(last: Msg) {
      receivedFrom == last.addressedTo && addressedTo == last.receivedFrom &&
      (IsPureAckFor(last.msgSeqNo) || (last.msgSeqNo == ackedMsgSeqNo && msgSeqNo != 0))
    }

    predicate IsNewMsg(thisAddress: Byte, targetAddress: Byte, expected: Byte, isServer: bool) {
      targetAddress != 0 && receivedFrom == targetAddress && addressedTo == thisAddress &&
      !IsPureAck() && (isServer || msgSeqNo != 0) && msgSeqNo == expected
    }

    predicate IsNewConnectionRequest(ourAddress: Byte) {
      addressedTo == ourAddress && msgSeqNo == 0 && body != [] && body[0] != 0
    }
  }

  function PureAck(to: Byte, from: Byte, acked: Byte): Msg {
    Msg(to, from, 0, acked, [0])
  }
}

/** What one node of the radio link does: its state and every state change as functions. */
module RadioNodes {
  import opened Bytes
  import opened Buffers
  import opened RadioMessages

  /** Not an address: no target is set, or the node must not listen. */
  const NOT_SET: Byte := 0xff

  /** Put into the receive buffer in front of a new connection, and alone when a connection is closed. */
  const CONNECTION_MARKER: Byte := 0xff

  datatype Node = Node(
    isServer: bool, thisAddress: Byte, targetAddress: Byte,
    outGoingSeqNo: Byte, inComingSeqNo: Byte,
    waitingForAck: bool, retriesCount: nat, noOfRetries: nat,
    connectionClosed: bool, newConnection: bool,
    // Whether the timer that treats message 0 as a resend is running.
    linkTimerRunning: bool,
    receivedMsg: Msg, lastMsgSent: Msg,
    txBuf: Buffer, rxBuf: Buffer, rawDataBuf: Buffer,
    maxMsgLen: nat)

  /** What the outside decides in one poll: an arriving message, the radio mode and the timers. */
  datatype PollInput = PollInput(packet: Option<Msg>, linkExpired: bool, transmitting: bool, ackTimedOut: bool, writeDelayPassed: bool)

  /** A node and the messages it hands to the radio driver. */
  datatype Action = Action(node: Node, sent: seq<Msg>)

  function Increment(seqNo: Byte): Byte {
    (seqNo + 1) % 256
  }

  /** The driver is given nothing for an address that is not set. */
  function Transmit(m: Msg): seq<Msg> {
    if m.addressedTo == NOT_SET then [] else [m]
  }

  function AckSeen(n: Node): Node {
    if n.waitingForAck && n.receivedMsg.IsAckFor(n.lastMsgSent) then n.(waitingForAck := false, retriesCount := 0) else n
  }

  /** A request from the present client while message 1 is expected is a resend, unless the link timer has stopped. */
  predicate IsConnectionResend(n: Node) {
    n.targetAddress != NOT_SET && n.targetAddress == n.receivedMsg.receivedFrom &&
    n.inComingSeqNo == 1 && n.receivedMsg.msgSeqNo == 0 && n.linkTimerRunning
  }

  predicate AcceptsConnection(n: Node) {
    n.isServer && n.receivedMsg.IsNewConnectionRequest(n.thisAddress) &&
    (if n.targetAddress != NOT_SET && n.targetAddress == n.receivedMsg.receivedFrom then !IsConnectionResend(n)
     else n.connectionClosed) &&
    n.receivedMsg.receivedFrom != 0xff
  }

  function CheckForNewConnection(n: Node): Node {
    if AcceptsConnection(n) then
      n.(rxBuf := n.rxBuf.Put(CONNECTION_MARKER), newConnection := true, targetAddress := n.receivedMsg.receivedFrom,
         connectionClosed := false, outGoingSeqNo := 1, inComingSeqNo := 0, linkTimerRunning := n.noOfRetries > 0)
    else n
  }

  predicate NewMsg(n: Node) {
    n.receivedMsg.IsNewMsg(n.thisAddress, n.targetAddress, n.inComingSeqNo, n.isServer)
  }

  /** The message before the expected one; the number after 255 counts as 255. */
  predicate PreviousMsg(n: Node) {
    (if n.receivedMsg.msgSeqNo == 255 then 255 else n.receivedMsg.msgSeqNo + 1) == n.inComingSeqNo
  }

  /** Storing a new message acknowledges it, at once or with the resend of the message still unacknowledged. */
  function Store(n: Node): Action {
    var m := n.receivedMsg;
    var n := n.(linkTimerRunning := n.linkTimerRunning && !(n.inComingSeqNo == 1 && m.msgSeqNo == 1));
    if n.rxBuf.Room() < |m.body| then Action(n, [])
    else
      var n := n.(rxBuf := Buffer(n.rxBuf.bytes + m.body, n.rxBuf.capacity), inComingSeqNo := Increment(n.inComingSeqNo));
      if n.waitingForAck then Action(n.(lastMsgSent := n.lastMsgSent.(ackedMsgSeqNo := m.msgSeqNo)), [])
      else
        var ack := PureAck(m.receivedFrom, m.addressedTo, m.msgSeqNo);
        Action(n.(lastMsgSent := ack), Transmit(ack))
  }

  function Deliver(n: Node): Action {
    var n := AckSeen(n);
    if n.receivedMsg.IsPureAck() then Action(n, [])
    else
      var n := CheckForNewConnection(n);
      if NewMsg(n) then Store(n)
      else Action(n, if PreviousMsg(n) then Transmit(n.lastMsgSent) else [])
  }

  function Close(n: Node): Node {
    n.(waitingForAck := false, outGoingSeqNo := 0, inComingSeqNo := 1, retriesCount := 0,
       targetAddress := if n.isServer then NOT_SET else n.targetAddress,
       connectionClosed := true, linkTimerRunning := false,
       txBuf := n.txBuf.Cleared(), rawDataBuf := n.rawDataBuf.Cleared(), rxBuf := n.rxBuf.Cleared().Put(CONNECTION_MARKER))
  }

  /** What the upper layer asks for when it meets a connection marker or wants the connection closed. */
  function CloseCurrentConnection(n: Node): Node {
    if n.newConnection then
      n.(newConnection := false, txBuf := n.txBuf.Cleared(), rawDataBuf := n.rawDataBuf.Cleared(), connectionClosed := false)
    else
      var n := Close(n);
      n.(rxBuf := n.rxBuf.Cleared())
  }

  function Least(a: nat, b: nat): nat {
    if a < b then a else b
  }

  /** A client starts a connection with the first message it sends. */
  function CheckIfNeedToConnect(n: Node): Node {
    if !n.isServer && n.connectionClosed then
      n.(waitingForAck := false, outGoingSeqNo := 0, inComingSeqNo := 1, retriesCount := 0, connectionClosed := false)
    else n
  }

  /** The number after 255 is 1: 0 is only for connection requests. */
  function NextOutGoing(seqNo: Byte): Byte {
    if Increment(seqNo) == 0 then 1 else Increment(seqNo)
  }

  predicate ReadyToSend(n: Node, writeDelayPassed: bool) {
    !n.waitingForAck && (n.txBuf.bytes != [] || n.rawDataBuf.bytes != []) &&
    (|n.rawDataBuf.bytes| >= n.maxMsgLen || |n.txBuf.bytes| >= n.maxMsgLen || writeDelayPassed)
  }

  function SendNext(n: Node, writeDelayPassed: bool): Action {
    if n.isServer && n.connectionClosed then Action(n.(rawDataBuf := n.rawDataBuf.Cleared()), [])
    else if !ReadyToSend(n, writeDelayPassed) then Action(n, [])
    else
      var n := CheckIfNeedToConnect(n);
      var acked := if n.lastMsgSent.IsPureAck() then n.receivedMsg.msgSeqNo else 0;
      var raw := n.rawDataBuf.bytes != [];
      var source := if raw then n.rawDataBuf else n.txBuf;
      var len := Least(|source.bytes|, n.maxMsgLen);
      var m := Msg(n.targetAddress, n.thisAddress, n.outGoingSeqNo, acked, source.bytes[..len]);
      var rest := Buffer(source.bytes[len..], source.capacity);
      Action(n.(waitingForAck := true, retriesCount := 0, lastMsgSent := m, outGoingSeqNo := NextOutGoing(n.outGoingSeqNo),
                rawDataBuf := if raw then rest else n.rawDataBuf, txBuf := if raw then n.txBuf else rest),
             Transmit(m))
  }

  function TimeOutOrSend(n: Node, i: PollInput): Action {
    if n.waitingForAck then
      if i.transmitting || !i.ackTimedOut then Action(n, [])
      else if n.retriesCount < n.noOfRetries then Action(n.(retriesCount := n.retriesCount + 1), Transmit(n.lastMsgSent))
      else Action(Close(n), [])
    else if i.transmitting then Action(n, [])
    else SendNext(n, i.writeDelayPassed)
  }

  function Receive(n: Node, m: Msg): Node {
    n.(receivedMsg := m.(body := m.body[..Least(|m.body|, n.maxMsgLen)]))
  }

  /** The link timer at the start of a poll. */
  function Ticked(n: Node, i: PollInput): Node {
    n.(linkTimerRunning := n.linkTimerRunning && !i.linkExpired)
  }

  function Poll(n: Node, i: PollInput): Action {
    var n := Ticked(n, i);
    if n.thisAddress == NOT_SET then Action(n, [])
    else
      var first := if i.packet.Some? then Deliver(Receive(n, i.packet.value)) else Action(n, []);
      var second := TimeOutOrSend(first.node, i);
      Action(second.node, first.sent + second.sent)
  }

  // ---- acknowledging what is not stored ----

  /** The message received last is the one still expected: it has not been stored. */
  predicate Unstored(n: Node) {
    NewMsg(n) && !(n.isServer && n.connectionClosed)
  }

  /** What a poll leaves unstored: the expected message, arriving without room for it or received before. */
  predicate LeavesUnstored(n: Node, packet: Option<Msg>) {
    if packet.None? then Unstored(n)
    else
      var r := CheckForNewConnection(Receive(n, packet.value));
      Unstored(r) && r.rxBuf.Room() < |r.receivedMsg.body|
  }

  /** Whether a poll goes on waiting for an acknowledgement. */
  predicate KeepsWaiting(n: Node, packet: Option<Msg>) {
    n.waitingForAck && !(packet.Some? && Receive(n, packet.value).receivedMsg.IsAckFor(n.lastMsgSent))
  }

  function Latest(n: Node, packet: Option<Msg>): Msg {
    if packet.Some? then packet.value else n.receivedMsg
  }

  /** A poll sends its next message as an acknowledgement of a message it has not stored: the number of the message
      received last is copied after a pure acknowledgement, and is 0 otherwise. */
  predicate FalselyAcks(n: Node, i: PollInput) {
    LeavesUnstored(n, i.packet) && !KeepsWaiting(n, i.packet) && !i.transmitting &&
    ReadyToSend(n.(waitingForAck := false), i.writeDelayPassed) &&
    (n.lastMsgSent.IsPureAck() || Latest(n, i.packet).msgSeqNo == 0)
  }
}
