/** How connections of a radio node begin, end and begin again. */
module RadioConnections {
  import opened Bytes
  import opened Buffers
  import opened RadioMessages
  import opened RadioNodes

  /** A message arrives while the radio transmits, and nothing else happens. */
  function Gets(n: Node, m: Msg): Action {
    Poll(n, PollInput(Some(m), false, true, false, false))
  }

  // ---- requests ----

  /** A request to this node: number 0 and a first byte that is not null, from an address. */
  predicate IsRequestTo(n: Node, m: Msg) {
    m.addressedTo == n.thisAddress && m.msgSeqNo == 0 && m.body != [] && m.body[0] != 0 && m.receivedFrom != NOT_SET
  }

  /** A new connection: numbers begin again, and the marker is put behind what has not been read. Address 0 counts as no
      connection when it comes to storing the message. */
  predicate Connects(n: Node, r: Node, m: Msg) {
    r.newConnection && !r.connectionClosed && r.targetAddress == m.receivedFrom && r.outGoingSeqNo == 1 &&
    r.linkTimerRunning == (n.noOfRetries > 0) && r.waitingForAck == n.waitingForAck && r.txBuf == n.txBuf && r.rawDataBuf == n.rawDataBuf &&
    var marked := n.rxBuf.Put(CONNECTION_MARKER);
    if marked.Room() < |m.body| || m.receivedFrom == 0 then r.rxBuf == marked && r.inComingSeqNo == 0
    else r.rxBuf.bytes == marked.bytes + m.body && r.inComingSeqNo == 1
  }

  /** The connection stays what it is, and nothing is stored. */
  predicate StaysConnected(n: Node, r: Node) {
    r == n.(receivedMsg := r.receivedMsg, waitingForAck := r.waitingForAck, retriesCount := r.retriesCount)
  }

  lemma RequestDelivered(n: Node, m: Msg)
    requires n.isServer && IsRequestTo(n, m) && AcceptsConnection(n.(receivedMsg := m))
    ensures var d := Deliver(n.(receivedMsg := m)); Connects(n, d.node, m)
  {
    var r := CheckForNewConnection(n.(receivedMsg := m));
    assert AckSeen(n.(receivedMsg := m)) == n.(receivedMsg := m);
    assert r.targetAddress == m.receivedFrom && r.inComingSeqNo == 0 && r.rxBuf == n.rxBuf.Put(CONNECTION_MARKER) && r.receivedMsg == m;
    assert NewMsg(r) <==> m.receivedFrom != 0;
    hide AcceptsConnection, NewMsg;
  }

  lemma RequestAccepted(n: Node, m: Msg)
    requires n.isServer && n.thisAddress != NOT_SET && IsRequestTo(n, m) && |m.body| <= n.maxMsgLen
    requires AcceptsConnection(n.(receivedMsg := m))
    ensures Connects(n, Gets(n, m).node, m)
  {
    assert m.body[..|m.body|] == m.body;
    assert Ticked(n, PollInput(Some(m), false, true, false, false)) == n;
    RequestDelivered(n, m);
    hide AcceptsConnection, NewMsg, Deliver, Connects;
  }

  lemma RequestRefused(n: Node, m: Msg)
    requires n.isServer && n.thisAddress != NOT_SET && IsRequestTo(n, m) && |m.body| <= n.maxMsgLen
    requires !AcceptsConnection(n.(receivedMsg := m)) && !NewMsg(n.(receivedMsg := m))
    ensures StaysConnected(n, Gets(n, m).node)
  {
    assert m.body[..|m.body|] == m.body;
    assert Ticked(n, PollInput(Some(m), false, true, false, false)) == n;
    hide AcceptsConnection, NewMsg;
  }

  /** Exactly: a request makes a new connection if the node is a server that nobody is connected to, or is from its present
      client and cannot be a resend of the request that made the connection; every other request changes nothing. */
  lemma ConnectsExactly(n: Node, m: Msg)
    requires n.isServer && n.thisAddress != NOT_SET && IsRequestTo(n, m) && |m.body| <= n.maxMsgLen
    ensures var r := Gets(n, m).node;
            var again := n.targetAddress == m.receivedFrom;
            if (if again then !(n.inComingSeqNo == 1 && n.linkTimerRunning) else n.connectionClosed) then Connects(n, r, m)
            else StaysConnected(n, r)
  {
    var c := n.(receivedMsg := m);
    assert AcceptsConnection(c) <==> (if n.targetAddress == m.receivedFrom then !(n.inComingSeqNo == 1 && n.linkTimerRunning) else n.connectionClosed);
    if AcceptsConnection(c) {
      hide Gets, Connects, StaysConnected, AcceptsConnection, NewMsg;
      RequestAccepted(n, m);
    } else {
      assert !NewMsg(c);
      hide Gets, Connects, StaysConnected, AcceptsConnection, NewMsg;
      RequestRefused(n, m);
    }
  }

  // ---- the end of a connection, and the next one ----

  /** A server that has been closed is open to everybody: the next request is stored behind the marker alone and acknowledged,
      and nothing of the old connection is sent. */
  lemma ClosedServerConnects(n: Node, m: Msg)
    requires n.isServer && !n.newConnection && n.thisAddress != NOT_SET && IsRequestTo(n, m) && |m.body| <= n.maxMsgLen
    requires n.rxBuf.capacity > |m.body| && m.receivedFrom != 0
    ensures var closed := CloseCurrentConnection(n);
            var a := Gets(closed, m);
            Connects(closed, a.node, m) && a.node.rxBuf.bytes == [CONNECTION_MARKER] + m.body && a.sent == [PureAck(m.receivedFrom, n.thisAddress, 0)] &&
            a.node.txBuf.bytes == [] && a.node.rawDataBuf.bytes == [] && !a.node.waitingForAck
  {
  }

  /** A closed server stores no message from any address that is not a request. */
  lemma ClosedServerStoresNothing(n: Node, m: Msg)
    requires n.isServer && !n.newConnection && n.thisAddress != NOT_SET && |m.body| <= n.maxMsgLen
    requires !(m.msgSeqNo == 0 && m.body != [] && m.body[0] != 0) && m.receivedFrom != NOT_SET
    ensures var closed := CloseCurrentConnection(n); StaysConnected(closed, Gets(closed, m).node)
  {
  }

  /** A client that has been closed, and to which something is written, sends it as a request with number 0. */
  lemma ClosedClientStarts(n: Node, bytes: seq<Byte>)
    requires !n.isServer && !n.newConnection && n.thisAddress != NOT_SET && n.targetAddress != NOT_SET
    requires 0 < |bytes| <= n.maxMsgLen
    ensures var closed := CloseCurrentConnection(n);
            var a := Poll(closed.(txBuf := Buffer(bytes, n.txBuf.capacity)), PollInput(None, false, false, false, true));
            |a.sent| == 1 && a.node.lastMsgSent == a.sent[0] && a.sent[0] == Msg(n.targetAddress, n.thisAddress, 0, a.sent[0].ackedMsgSeqNo, bytes) &&
            a.node.waitingForAck && a.node.retriesCount == 0 && a.node.outGoingSeqNo == 1 && a.node.inComingSeqNo == 1 && !a.node.connectionClosed &&
            a.node.txBuf.bytes == [] && a.node.rxBuf.bytes == []
  {
  }

  /** A connection that is new when the upper layer meets its marker is kept: what has arrived for it can still be read. */
  lemma NewConnectionKept(n: Node)
    requires n.newConnection
    ensures var r := CloseCurrentConnection(n);
            r == n.(newConnection := false, connectionClosed := false, txBuf := Buffer([], n.txBuf.capacity), rawDataBuf := Buffer([], n.rawDataBuf.capacity))
  {
  }

  // ---- giving up ----

  const TIMES_OUT: PollInput := PollInput(None, false, false, true, true)

  /** Several timeouts one after the other, and what they send. */
  function TimedOut(n: Node, times: nat): Action {
    if times == 0 then Action(n, [])
    else
      var before := TimedOut(n, times - 1);
      var a := Poll(before.node, TIMES_OUT);
      Action(a.node, before.sent + a.sent)
  }

  function Copies(m: Msg, times: nat): seq<Msg> {
    if times == 0 then [] else Copies(m, times - 1) + Transmit(m)
  }

  lemma OneTimeOut(n: Node)
    requires n.waitingForAck && n.thisAddress != NOT_SET
    ensures Poll(n, TIMES_OUT) == if n.retriesCount < n.noOfRetries then Action(n.(retriesCount := n.retriesCount + 1), Transmit(n.lastMsgSent))
                                  else Action(Close(n), [])
  {
    assert Ticked(n, TIMES_OUT) == n;
    hide Close;
    assert [] + Transmit(n.lastMsgSent) == Transmit(n.lastMsgSent);
  }

  lemma {:induction false} RetriesAreCopies(n: Node, times: nat)
    requires n.waitingForAck && n.thisAddress != NOT_SET && n.retriesCount + times <= n.noOfRetries
    ensures TimedOut(n, times) == Action(n.(retriesCount := n.retriesCount + times), Copies(n.lastMsgSent, times))
    decreases times
  {
    hide Poll, Transmit;
    if times > 0 {
      RetriesAreCopies(n, times - 1);
      OneTimeOut(n.(retriesCount := n.retriesCount + (times - 1)));
    }
  }

  /** A node that gets no acknowledgement sends its message again exactly as often as it has retries left, unchanged; with
      the next timeout the connection is closed, the marker alone can be read, and nothing waits to be sent. */
  lemma {:induction false} GivesUpExactly(n: Node)
    requires n.waitingForAck && n.thisAddress != NOT_SET && n.retriesCount <= n.noOfRetries && n.rxBuf.capacity > 0
    ensures var left := n.noOfRetries - n.retriesCount;
            var a, last := TimedOut(n, left + 1), TimedOut(n, left);
            last.node.waitingForAck && last.node.connectionClosed == n.connectionClosed && last.sent == a.sent == Copies(n.lastMsgSent, left) &&
            a.node.connectionClosed && !a.node.waitingForAck && a.node.rxBuf.bytes == [CONNECTION_MARKER] &&
            a.node.txBuf.bytes == [] && a.node.rawDataBuf.bytes == [] && a.node.retriesCount == 0 &&
            a.node.targetAddress == (if n.isServer then NOT_SET else n.targetAddress) && a.node.outGoingSeqNo == 0 && a.node.inComingSeqNo == 1 &&
            !a.node.linkTimerRunning
  {
    var left := n.noOfRetries - n.retriesCount;
    RetriesAreCopies(n, left);
    var last := TimedOut(n, left);
    OneTimeOut(last.node);
    hide Poll, Copies, Transmit;
    assert last.sent + [] == last.sent;
    assert [] + [CONNECTION_MARKER] == [CONNECTION_MARKER];
  }

  // ---- messages that are not new ----

  /** Exactly: a message that is neither new nor a request is answered with the last message of the node if it is the one
      before the expected one, and 255 counts as the one before 255; in any case nothing is stored. */
  lemma AnsweredAgainExactly(n: Node, m: Msg)
    requires n.thisAddress != NOT_SET && !m.IsPureAck() && |m.body| <= n.maxMsgLen
    requires !AcceptsConnection(n.(receivedMsg := m)) && !NewMsg(n.(receivedMsg := m)) && n.lastMsgSent.addressedTo != NOT_SET
    ensures var a := Gets(n, m);
            StaysConnected(n, a.node) &&
            a.sent == if m.msgSeqNo + 1 == n.inComingSeqNo as int || (m.msgSeqNo == 255 && n.inComingSeqNo == 255) then [n.lastMsgSent] else []
  {
    assert m.body[..|m.body|] == m.body;
    assert Ticked(n, PollInput(Some(m), false, true, false, false)) == n;
    var r := AckSeen(n.(receivedMsg := m));
    assert CheckForNewConnection(r) == r && !NewMsg(r) && r.lastMsgSent == n.lastMsgSent && r.inComingSeqNo == n.inComingSeqNo;
    assert [n.lastMsgSent] + [] == [n.lastMsgSent];
    hide AcceptsConnection, NewMsg, Store;
  }

  /** Without a target nothing is handed to the radio. */
  lemma SilentWithoutTarget(n: Node, i: PollInput)
    requires n.targetAddress == NOT_SET && n.lastMsgSent.addressedTo == NOT_SET && i.packet.None?
    ensures Poll(n, i).sent == []
  {
  }

  /** Once the link timer has expired, even the request that made the connection makes a new one. */
  lemma ExpiredConnects(n: Node, m: Msg)
    requires n.isServer && n.thisAddress != NOT_SET && IsRequestTo(n, m) && |m.body| <= n.maxMsgLen && n.targetAddress == m.receivedFrom
    ensures Connects(n, Poll(n, PollInput(Some(m), true, true, false, false)).node, m)
  {
  }

  // ---- what is sent ----

  /** The number of the message that is sent as the given one after a request. */
  function NumberOf(k: nat): Byte {
    if k == 0 then 0 else NextOutGoing(NumberOf(k - 1))
  }

  lemma NextRemainder(a: nat)
    ensures (a + 1) % 255 == if a % 255 == 254 then 0 else a % 255 + 1
  {
  }

  lemma NextNumber(s: Byte)
    ensures NextOutGoing(s) == if s == 255 then 1 else s + 1
  {
  }

  /** After the request, with number 0, they are 1 to 255 and 1 to 255 again: 0 is never used again. */
  lemma {:induction false} NumbersSkipZero(k: nat)
    requires k > 0
    ensures NumberOf(k) as int == (k - 1) % 255 + 1
    decreases k
  {
    hide NextOutGoing;
    NextNumber(NumberOf(k - 1));
    if k > 1 {
      NumbersSkipZero(k - 1);
      NextRemainder(k - 2);
    }
  }

  predicate Sends(n: Node, delayed: bool) {
    (n.txBuf.bytes != [] || n.rawDataBuf.bytes != []) &&
    (delayed || |n.txBuf.bytes| >= n.maxMsgLen || |n.rawDataBuf.bytes| >= n.maxMsgLen)
  }

  /** Raw data goes first, as much as one message holds. */
  function Next(n: Node): seq<Byte> {
    var waiting := if n.rawDataBuf.bytes != [] then n.rawDataBuf.bytes else n.txBuf.bytes;
    if |waiting| <= n.maxMsgLen then waiting else waiting[..n.maxMsgLen]
  }

  /** Exactly: a connected node that waits for nothing sends its next message when there is something to send and either
      enough for a whole message or nothing has been written for a while; its acknowledgement is that of the message received
      last if a pure acknowledgement was the last thing sent, and 0 otherwise. */
  lemma {:induction false} SendsExactly(n: Node, delayed: bool)
    requires !n.connectionClosed && !n.waitingForAck && n.thisAddress != NOT_SET && n.targetAddress != NOT_SET
    ensures var a := Poll(n, PollInput(None, false, false, false, delayed));
            if !Sends(n, delayed) then a == Action(n, [])
            else
              a.sent == [Msg(n.targetAddress, n.thisAddress, n.outGoingSeqNo, if n.lastMsgSent.IsPureAck() then n.receivedMsg.msgSeqNo else 0, Next(n))] &&
              a.node.lastMsgSent == a.sent[0] && a.node.waitingForAck && a.node.retriesCount == 0 &&
              a.node.outGoingSeqNo == NextOutGoing(n.outGoingSeqNo) && a.node.inComingSeqNo == n.inComingSeqNo && a.node.rxBuf == n.rxBuf &&
              (if n.rawDataBuf.bytes != [] then a.node.rawDataBuf.bytes == n.rawDataBuf.bytes[|Next(n)|..] && a.node.txBuf == n.txBuf
               else a.node.txBuf.bytes == n.txBuf.bytes[|Next(n)|..] && a.node.rawDataBuf == n.rawDataBuf)
  {
    var i := PollInput(None, false, false, false, delayed);
    assert Ticked(n, i) == n;
    var bytes := if n.rawDataBuf.bytes != [] then n.rawDataBuf.bytes else n.txBuf.bytes;
    assert bytes[..|bytes|] == bytes;
    var none: seq<Msg> := [];
    assert none + TimeOutOrSend(n, i).sent == TimeOutOrSend(n, i).sent;
    hide NextOutGoing;
  }

  /** A server that nobody is connected to sends nothing and drops its raw data. */
  lemma ClosedServerIsSilent(n: Node, delayed: bool)
    requires n.isServer && n.connectionClosed && !n.waitingForAck && n.thisAddress != NOT_SET
    ensures var a := Poll(n, PollInput(None, false, false, false, delayed));
            a.sent == [] && a.node == n.(rawDataBuf := Buffer([], n.rawDataBuf.capacity))
  {
  }

  /** Of a message that is longer than the driver's limit the front alone arrives. */
  lemma LongIsCut(n: Node, m: Msg, i: PollInput)
    requires |m.body| > n.maxMsgLen && i.packet == Some(m)
    ensures Poll(n, i) == Poll(n, i.(packet := Some(m.(body := m.body[..n.maxMsgLen]))))
  {
    var cut := m.(body := m.body[..n.maxMsgLen]);
    assert cut.body[..n.maxMsgLen] == cut.body;
    assert Receive(Ticked(n, i), m) == Receive(Ticked(n, i), cut);
    hide Deliver, TimeOutOrSend, Receive;
  }
}
