/** What the two applications do, with nothing on the channels, keeps the invariant. */
module RadioApplicationProof {
  import opened Bytes
  import opened Buffers
  import opened RadioMessages
  import opened RadioNodes
  import opened RadioLink
  import opened RadioInvariant

  /** Everything but the channels and the histories is a matter of the two applications. */
  lemma ApplicationKeeps(net: Net, after: Net)
    requires Inv(net) && Delivered(after)
    requires after.client == net.client.(txBuf := after.client.txBuf, rxBuf := after.client.rxBuf)
    requires after.server == net.server.(txBuf := after.server.txBuf, rxBuf := after.server.rxBuf,
                                         rawDataBuf := after.server.rawDataBuf, newConnection := after.server.newConnection)
    requires after == net.(client := after.client, server := after.server, writtenByClient := after.writtenByClient,
                           writtenByServer := after.writtenByServer, rawByServer := after.rawByServer,
                           readByClient := after.readByClient, readByServer := after.readByServer)
    requires net.client.connectionClosed ==> after.client.rxBuf.bytes == []
    requires after.server.rxBuf.capacity == net.server.rxBuf.capacity
    requires net.server.connectionClosed ==> !after.server.newConnection && after.server.rxBuf.bytes == [] && after.readByServer == []
    ensures Inv(after)
  {
    hide ToServerOk, ToClientOk, Delivered, Ascending;
    forall m ensures ToServerOk(net, m) ==> ToServerOk(after, m) {
      OkGrows(net, after, m);
    }
    forall m ensures ToClientOk(net, m) ==> ToClientOk(after, m) {
      OkGrows(net, after, m);
    }
  }

  lemma TakenSplits(b: Buffer)
    ensures b.bytes[..|b.bytes| - |Taken(b).bytes|] + Taken(b).bytes == b.bytes
  {
  }

  predicate OfApplication(ev: Event) {
    ev.ClientWrites? || ev.ServerWrites? || ev.ServerWritesRaw? || ev.ClientReads? || ev.ServerReads? || ev.ServerTakesConnection?
  }

  lemma ClientReadsDelivers(net: Net)
    requires Delivered(net)
    ensures Delivered(Step(net, ClientReads))
  {
    hide DeliveredToServer, DeliveredToClient, CutUp, Pieces;
    TakenSplits(net.client.rxBuf);
    var rx := net.client.rxBuf;
    var got := rx.bytes[..|rx.bytes| - |Taken(rx).bytes|];
    assert net.readByClient + got + Taken(rx).bytes == net.readByClient + (got + Taken(rx).bytes);
  }

  lemma ServerReadsDelivers(net: Net)
    requires Delivered(net)
    ensures Delivered(Step(net, ServerReads))
  {
    hide DeliveredToServer, DeliveredToClient, CutUp, Pieces;
    TakenSplits(net.server.rxBuf);
    var rx := net.server.rxBuf;
    var got := rx.bytes[..|rx.bytes| - |Taken(rx).bytes|];
    assert net.readByServer + got + Taken(rx).bytes == net.readByServer + (got + Taken(rx).bytes);
  }

  lemma ClientWritesDelivers(net: Net, b: Byte)
    requires Delivered(net) && Allowed(net, ClientWrites(b))
    ensures Delivered(Step(net, ClientWrites(b)))
  {
    hide DeliveredToServer, DeliveredToClient, Flatten, Pieces;
    assert Flatten(net.sentByClient) + (net.client.txBuf.bytes + [b]) == Flatten(net.sentByClient) + net.client.txBuf.bytes + [b];
  }

  lemma ServerApplicationDelivers(net: Net, ev: Event)
    requires Delivered(net) && Possible(net, ev) && (net.server.newConnection ==> !net.server.connectionClosed)
    requires ev.ServerWrites? || ev.ServerWritesRaw? || ev.ServerTakesConnection?
    ensures Delivered(Step(net, ev))
  {
    hide DeliveredToServer, DeliveredToClient, CutUp;
    ServerApplicationCuts(net, ev);
    hide ServerCutUp;
  }

  /** What the server's buffers accept is written, and what they throw away has not been. */
  lemma ServerApplicationCuts(net: Net, ev: Event)
    requires ServerCutUp(net) && Possible(net, ev) && (net.server.newConnection ==> !net.server.connectionClosed)
    requires ev.ServerWrites? || ev.ServerWritesRaw? || ev.ServerTakesConnection?
    ensures ServerCutUp(Step(net, ev))
  {
    hide Pieces;
    var s, written, raw := net.server, Pieces(net.sentByServer, net.fromRaw, false), Pieces(net.sentByServer, net.fromRaw, true);
    match ev
    case ServerWrites(b) => assert written + (s.txBuf.bytes + [b]) == written + s.txBuf.bytes + [b];
    case ServerWritesRaw(b) => assert raw + (s.rawDataBuf.bytes + [b]) == raw + s.rawDataBuf.bytes + [b];
    case _ =>
      WithoutLast(written, s.txBuf.bytes);
      WithoutLast(raw, s.rawDataBuf.bytes);
  }

  lemma WithoutLast(a: seq<Byte>, b: seq<Byte>)
    ensures Without(a + b, |b|) == a + []
  {
  }

  lemma {:induction false} ApplicationDelivers(net: Net, ev: Event)
    requires Delivered(net) && OfApplication(ev) && Allowed(net, ev)
    requires net.server.newConnection ==> !net.server.connectionClosed
    ensures Delivered(Step(net, ev))
  {
    hide Delivered;
    match ev
    case ClientWrites(b) => ClientWritesDelivers(net, b);
    case ClientReads => ClientReadsDelivers(net);
    case ServerReads => ServerReadsDelivers(net);
    case _ => ServerApplicationDelivers(net, ev);
  }

  lemma {:induction false} ApplicationStepKeeps(net: Net, ev: Event)
    requires Inv(net) && OfApplication(ev) && Allowed(net, ev)
    ensures Inv(Step(net, ev))
  {
    ApplicationDelivers(net, ev);
    hide Delivered;
    ApplicationKeeps(net, Step(net, ev));
  }
}

/** The guarantees of one connection. */
module RadioGuarantees {
  import opened Bytes
  import opened Buffers
  import opened RadioMessages
  import opened RadioNodes
  import opened RadioLink
  import opened RadioInvariant
  import opened RadioServerProof
  import opened RadioApplicationProof

  lemma {:induction false} StepKeeps(net: Net, ev: Event)
    requires Inv(net) && Allowed(net, ev)
    ensures Inv(Step(net, ev))
  {
    match ev
    case ClientPoll(_, _, _, _) => ClientPollKeeps(net, ev);
    case ServerPoll(_, _, _, _) => ServerPollKeeps(net, ev);
    case LoseToServer => ServerChannelDropped(net);
    case LoseToClient => ClientChannelDropped(net);
    case _ => ApplicationStepKeeps(net, ev);
  }

  lemma {:induction false} RunKeeps(net: Net, events: seq<Event>)
    requires Inv(net) && AllowedRun(net, events)
    ensures Inv(Run(net, events))
    decreases |events|
  {
    if events != [] {
      StepKeeps(net, events[0]);
      RunKeeps(Step(net, events[0]), events[1..]);
    }
  }

  /** Exactly once and in order, from client to server: what the server's application has read or can still read is the
      connection marker and then the payloads of the client's messages numbered below the one it expects, and these are
      a prefix of the bytes the client's application wrote; at most one message is on its way. */
  lemma {:induction false} ExactlyOnceInOrder(start: Net, events: seq<Event>)
    requires Init(start) && AllowedRun(start, events)
    ensures var net := Run(start, events);
            var toServer := net.server.inComingSeqNo;
            0 <= |net.sentByClient| - toServer <= 1 &&
            net.readByServer + net.server.rxBuf.bytes
            == (if net.server.connectionClosed then [] else [CONNECTION_MARKER]) + Flatten(net.sentByClient[..toServer]) &&
            Flatten(net.sentByClient[..toServer]) <= net.writtenByClient
  {
    InitInv(start);
    RunKeeps(start, events);
    var net := Run(start, events);
    FlattenPrefix(net.sentByClient, net.server.inComingSeqNo);
  }

  /** A string that consists of a prefix of one string and a prefix of another, interleaved. */
  ghost predicate MergesPrefixes(s: seq<Byte>, a: seq<Byte>, b: seq<Byte>) {
    exists i: nat, j: nat :: i <= |a| && j <= |b| && Interleaves(s, a[..i], b[..j])
  }

  /** And from server to client: what the client's application has read or can still read is the payloads of the server's
      messages numbered below the one it expects; these are consecutive pieces of what was written and of the raw data,
      each string in order, so the client gets prefixes of the two, interleaved. */
  lemma {:induction false} ExactlyOnceFromServer(start: Net, events: seq<Event>)
    requires Init(start) && AllowedRun(start, events)
    ensures var net := Run(start, events);
            var got := net.readByClient + net.client.rxBuf.bytes;
            (net.client.connectionClosed ==> got == []) &&
            (!net.client.connectionClosed ==>
              1 <= net.client.inComingSeqNo && 0 <= |net.sentByServer| - (net.client.inComingSeqNo - 1) <= 1 &&
              got == Flatten(net.sentByServer[..net.client.inComingSeqNo - 1])) &&
            MergesPrefixes(got, net.writtenByServer, net.rawByServer)
  {
    InitInv(start);
    RunKeeps(start, events);
    var net := Run(start, events);
    var n := if net.client.connectionClosed then 0 else net.client.inComingSeqNo - 1;
    var sent, fromRaw := net.sentByServer[..n], net.fromRaw[..n];
    assert net.client.connectionClosed ==> Flatten(sent) == [];
    PiecesInterleave(sent, fromRaw);
    PiecesPrefix(net.sentByServer, net.fromRaw, n, false);
    PiecesPrefix(net.sentByServer, net.fromRaw, n, true);
    var i, j := |Pieces(sent, fromRaw, false)|, |Pieces(sent, fromRaw, true)|;
    assert net.writtenByServer[..i] == Pieces(sent, fromRaw, false) && net.rawByServer[..j] == Pieces(sent, fromRaw, true);
  }

  lemma {:induction false} PiecesPrefix(payloads: seq<seq<Byte>>, fromRaw: seq<bool>, n: nat, raw: bool)
    requires n <= |payloads| == |fromRaw|
    ensures Pieces(payloads[..n], fromRaw[..n], raw) <= Pieces(payloads, fromRaw, raw)
    decreases |payloads|
  {
    if n < |payloads| {
      var last := |payloads| - 1;
      PiecesPrefix(payloads[..last], fromRaw[..last], n, raw);
      assert payloads[..last][..n] == payloads[..n] && fromRaw[..last][..n] == fromRaw[..n];
    } else {
      assert payloads[..n] == payloads && fromRaw[..n] == fromRaw;
    }
  }

  lemma {:induction false} InterleavesAppend(s: seq<Byte>, a: seq<Byte>, b: seq<Byte>, p: seq<Byte>)
    requires Interleaves(s, a, b)
    ensures Interleaves(s + p, a + p, b) && Interleaves(s + p, a, b + p)
    decreases |p|
  {
    if p == [] {
      assert s + p == s && a + p == a && b + p == b;
    } else {
      var front, last := p[..|p| - 1], |p| - 1;
      InterleavesAppend(s, a, b, front);
      assert (s + p)[..|s| + last] == s + front && (a + p)[..|a| + last] == a + front && (b + p)[..|b| + last] == b + front;
    }
  }

  lemma {:induction false} PiecesInterleave(payloads: seq<seq<Byte>>, fromRaw: seq<bool>)
    requires |payloads| == |fromRaw|
    ensures Interleaves(Flatten(payloads), Pieces(payloads, fromRaw, false), Pieces(payloads, fromRaw, true))
    decreases |payloads|
  {
    if payloads != [] {
      var last := |payloads| - 1;
      var front, flags := payloads[..last], fromRaw[..last];
      PiecesInterleave(front, flags);
      InterleavesAppend(Flatten(front), Pieces(front, flags, false), Pieces(front, flags, true), payloads[last]);
      assert Pieces(front, flags, false) + [] == Pieces(front, flags, false) && Pieces(front, flags, true) + [] == Pieces(front, flags, true);
    }
  }

  lemma {:induction false} FlattenPrefix(payloads: seq<seq<Byte>>, n: nat)
    requires n <= |payloads|
    ensures Flatten(payloads[..n]) <= Flatten(payloads)
    decreases |payloads|
  {
    if n < |payloads| {
      var front := payloads[..|payloads| - 1];
      FlattenPrefix(front, n);
      assert front[..n] == payloads[..n];
    } else {
      assert payloads[..n] == payloads;
    }
  }

  /** A node that is not waiting has had every message it sent stored by its peer; a waiting one all but perhaps the last. */
  lemma {:induction false} AcknowledgedIsStored(start: Net, events: seq<Event>)
    requires Init(start) && AllowedRun(start, events)
    ensures var net := Run(start, events);
            (!net.client.connectionClosed ==>
              net.client.outGoingSeqNo - net.server.inComingSeqNo in (if net.client.waitingForAck then {0, 1} else {0})) &&
            (!net.server.connectionClosed && !net.client.connectionClosed ==>
              net.server.outGoingSeqNo - net.client.inComingSeqNo in (if net.server.waitingForAck then {0, 1} else {0}))
  {
    InitInv(start);
    RunKeeps(start, events);
  }
}

/** When a node acknowledges what it has not stored: the exact condition, and what follows if it does. */
module RadioAcknowledgements {
  import opened Bytes
  import opened Buffers
  import opened RadioMessages
  import opened RadioNodes
  import opened RadioLink
  import opened RadioInvariant
  import opened RadioServerProof
  import opened RadioGuarantees

  ghost predicate Acknowledges(sent: seq<Msg>, m: Msg) {
    exists p :: p in sent && p.IsAckFor(m)
  }

  /** A server, or a client with an open connection; an open connection has a peer and a number to send. */
  predicate Working(n: Node) {
    n.thisAddress != NOT_SET && (n.isServer || !n.connectionClosed) &&
    (!n.connectionClosed ==> n.targetAddress != NOT_SET && n.outGoingSeqNo != 0)
  }

  /** A poll sends its last message again, which acknowledges the unstored message already. */
  predicate RepeatsFalseAck(n: Node, i: PollInput) {
    LeavesUnstored(n, i.packet) && KeepsWaiting(n, i.packet) && !i.transmitting && i.ackTimedOut &&
    n.retriesCount < n.noOfRetries && n.lastMsgSent.addressedTo != NOT_SET &&
    n.lastMsgSent.IsAckFor(if i.packet.Some? then Receive(n, i.packet.value).receivedMsg else n.receivedMsg)
  }

  /** The last part of a poll. */
  lemma SendingAcknowledgesExactly(d: Node, i: PollInput)
    requires Working(d) && i.packet == None
    ensures var a := TimeOutOrSend(d, i);
            Unstored(d) && Acknowledges(a.sent, d.receivedMsg) <==> FalselyAcks(d, i) || RepeatsFalseAck(d, i)
    ensures var a := TimeOutOrSend(d, i);
            a.node.receivedMsg == d.receivedMsg &&
            (a.sent != [] && !(d.connectionClosed && !d.isServer) ==> Unstored(a.node) == Unstored(d) && a.node.rxBuf == d.rxBuf)
  {
    var a := TimeOutOrSend(d, i);
    if a.sent != [] {
      assert a.sent[0] in a.sent && |a.sent| == 1;
    }
  }

  lemma WorksOn(n: Node, m: Msg)
    requires Working(n) && LeavesUnstored(n, Some(m))
    ensures Working(Deliver(Receive(n, m)).node)
  {
    DeliverUnstored(n, m);
    hide Deliver;
  }

  lemma SendingIgnoresPacket(n: Node, i: PollInput)
    ensures TimeOutOrSend(n, i) == TimeOutOrSend(n, i.(packet := None))
  {
  }

  /** Exactly when a poll acknowledges a message that is not stored: the message is the expected one, it has arrived
      now without room for it or earlier, nothing is awaited any more, something is sent, and the last message was a
      pure acknowledgement or the unstored one is a connection request. (Or the same message is only sent again.) */
  lemma AcknowledgesUnstoredExactly(n: Node, i: PollInput)
    requires Working(n)
    ensures var a, t := Poll(n, i), Ticked(n, i);
            LeavesUnstored(t, i.packet) && Acknowledges(a.sent, a.node.receivedMsg) <==> FalselyAcks(t, i) || RepeatsFalseAck(t, i)
  {
    hide Deliver, CheckForNewConnection, TimeOutOrSend;
    var t := Ticked(n, i);
    var d := if i.packet.Some? then Deliver(Receive(t, i.packet.value)) else Action(t, []);
    SendingIgnoresPacket(d.node, i);
    if LeavesUnstored(t, i.packet) {
      if i.packet.Some? {
        WorksOn(t, i.packet.value);
        DeliverUnstored(t, i.packet.value);
        DeliverParts(t, i.packet.value);
        FalselyAcksLater(t, i.packet.value, i);
      }
      SendingAcknowledgesExactly(d.node, i.(packet := None));
      assert [] + TimeOutOrSend(d.node, i).sent == TimeOutOrSend(d.node, i).sent;
    }
  }

  /** A false acknowledgement, and the node that sends it: it still expects the message it acknowledges. */
  lemma FalseAckSent(n: Node, i: PollInput)
    requires Working(n) && FalselyAcks(n, i) && !i.linkExpired
    ensures var a := Poll(n, i);
            a.sent != [] && Unstored(a.node) &&
            var p := a.sent[|a.sent| - 1];
            p.IsAckFor(a.node.receivedMsg) && p.ackedMsgSeqNo == a.node.inComingSeqNo && p.msgSeqNo != 0
  {
    PollParts(n, i);
    hide Deliver, CheckForNewConnection, Poll;
    if i.packet.Some? {
      WorksOn(n, i.packet.value);
      DeliverUnstored(n, i.packet.value);
      DeliverParts(n, i.packet.value);
    }
    var d := if i.packet.Some? then Deliver(Receive(n, i.packet.value)) else Action(n, []);
    assert [] + TimeOutOrSend(d.node, i).sent == TimeOutOrSend(d.node, i).sent;
  }

  lemma AckArrives(n: Node, p: Msg)
    requires n.waitingForAck && p.IsAckFor(n.lastMsgSent) && p.msgSeqNo != 0
    ensures var after := Deliver(Receive(n, p)).node; !after.waitingForAck && after.outGoingSeqNo == n.outGoingSeqNo
  {
    var seen := AckSeen(Receive(n, p));
    assert !AcceptsConnection(seen);
    StoringWaitsFor(seen);
    hide Store;
  }

  lemma StoringWaitsFor(n: Node)
    ensures var after := Store(n).node; after.waitingForAck == n.waitingForAck && after.outGoingSeqNo == n.outGoingSeqNo
  {
  }

  /** What it does: the peer that waits for the acknowledgement of that message stops waiting when it arrives, and goes
      on with a number that the node does not expect. */
  lemma FalselyAckedIsLost(n: Node, i: PollInput, peer: Node)
    requires Working(n) && FalselyAcks(n, i) && !i.linkExpired && peer.waitingForAck
    requires var m, last := Poll(n, i).node.receivedMsg, peer.lastMsgSent;
             last == m.(ackedMsgSeqNo := last.ackedMsgSeqNo, body := last.body) && peer.outGoingSeqNo == NextOutGoing(m.msgSeqNo)
    ensures var a := Poll(n, i);
            a.sent != [] &&
            var after := Deliver(Receive(peer, a.sent[|a.sent| - 1])).node;
            !after.waitingForAck && after.outGoingSeqNo != a.node.inComingSeqNo
  {
    FalseAckSent(n, i);
    hide Poll, FalselyAcks, Deliver, Receive, Unstored;
    AckArrives(peer, Poll(n, i).sent[|Poll(n, i).sent| - 1]);
  }

  // ---- in a connection ----

  /** Messages in flight acknowledge nothing that their receiver's peer has yet to store. */
  predicate AcksSound(net: Net) {
    (forall m :: m in net.toClient ==> m.ackedMsgSeqNo < net.server.inComingSeqNo) &&
    (forall m :: m in net.toServer ==> m.ackedMsgSeqNo == 0 || m.ackedMsgSeqNo < net.client.inComingSeqNo)
  }

  lemma InvAcksSound(net: Net)
    requires Inv(net)
    ensures AcksSound(net)
  {
  }

  lemma BothWork(net: Net, ev: Event)
    requires Inv(net) && Possible(net, ev)
    ensures Working(net.server)
    ensures ev.ClientPoll? && FalselyAcks(net.client, Input(ev, net.toClient)) ==> Working(net.client) && net.client.inComingSeqNo >= 1
  {
    hide Delivered, Ascending;
    if ev.ClientPoll? && ev.arrives {
      ClientChannelDropped(net);
    }
  }

  lemma UnsoundAfter(net: Net, ev: Event)
    requires Inv(net) && Possible(net, ev) && AcksUnstored(net, ev)
    ensures !AcksSound(Step(net, ev))
  {
    BothWork(net, ev);
    hide Inv, Poll, FalselyAcks, Unstored;
    var after := Step(net, ev);
    if ev.ClientPoll? {
      FalseAckSent(net.client, Input(ev, net.toClient));
      assert after.toServer[|after.toServer| - 1] in after.toServer;
    } else {
      FalseAckSent(net.server, Input(ev, net.toServer));
      assert after.toClient[|after.toClient| - 1] in after.toClient;
    }
  }

  /** Acknowledgements stay sound at an event exactly if it does not acknowledge falsely. */
  lemma SoundExactly(net: Net, ev: Event)
    requires Inv(net) && WithinLimits(net, ev)
    ensures AcksSound(Step(net, ev)) <==> !AcksUnstored(net, ev)
  {
    hide Inv, AcksSound, Step, AcksUnstored;
    if AcksUnstored(net, ev) {
      UnsoundAfter(net, ev);
    } else {
      StepKeeps(net, ev);
      InvAcksSound(Step(net, ev));
    }
  }

  // ---- connection requests ----

  /** A server nobody is connected to. */
  predicate Listening(s: Node) {
    s.isServer && s.connectionClosed && !s.waitingForAck && s.targetAddress == NOT_SET && 0 < s.thisAddress < NOT_SET
  }

  /** A request to a listening server is acknowledged and not stored exactly when it does not fit, with the marker in
      front of it, and something waits to be sent. */
  lemma RequestLostExactlyWhenFull(s: Node, m: Msg, i: PollInput)
    requires Listening(s) && 0 < m.receivedFrom < NOT_SET && m.IsNewConnectionRequest(s.thisAddress)
    requires |m.body| <= s.maxMsgLen && i.packet == Some(m) && !i.transmitting && i.writeDelayPassed
    ensures var a, marked := Poll(s, i), s.rxBuf.Put(CONNECTION_MARKER);
            LeavesUnstored(Ticked(s, i), i.packet) && Acknowledges(a.sent, a.node.receivedMsg)
            <==> marked.Room() < |m.body| && (s.txBuf.bytes != [] || s.rawDataBuf.bytes != [])
  {
    AcknowledgesUnstoredExactly(s, i);
    hide Poll;
    var t := Ticked(s, i);
    assert m.body[..|m.body|] == m.body;
    assert Receive(t, m) == t.(receivedMsg := m) && AcceptsConnection(t.(receivedMsg := m));
  }

  /** But that does not happen to the first request: the server nobody has connected to has room for any. */
  lemma RequestFits(net: Net, m: Msg)
    requires Inv(net) && net.server.connectionClosed && |m.body| <= net.server.maxMsgLen
    ensures net.server.rxBuf.Put(CONNECTION_MARKER).Room() >= |m.body|
  {
  }
}

/** Why the guarantees assume fewer than 255 messages each way. */
module RadioLimits {
  import opened Bytes
  import opened Buffers
  import opened RadioMessages
  import opened RadioNodes

  /** The sender skips 0 when its number wraps, the receiver does not: the next message is recognised exactly below 255. */
  lemma NextIsRecognisedBelow255(receiver: Node, m: Msg, stored: Byte)
    requires receiver.targetAddress != 0 && m.receivedFrom == receiver.targetAddress && m.addressedTo == receiver.thisAddress
    requires receiver.receivedMsg == m && m.msgSeqNo == NextOutGoing(stored) && receiver.inComingSeqNo == Increment(stored)
    ensures NewMsg(receiver) <==> stored < 255
  {
  }

  // ---- what a client does once its number has wrapped ----

  /** A client polls, or its application reads a byte. */
  datatype Event = Polls(i: PollInput) | Reads

  function Step(n: Node, ev: Event): Node {
    match ev
    case Polls(i) => Poll(n, i).node
    case Reads => n.(rxBuf := if n.rxBuf.bytes == [] then n.rxBuf else Buffer(n.rxBuf.bytes[1..], n.rxBuf.capacity))
  }

  function Run(n: Node, events: seq<Event>): Node
    decreases |events|
  {
    if events == [] then n else Run(Step(n, events[0]), events[1..])
  }

  /** The bytes the application gets. */
  function ReadBy(n: Node, events: seq<Event>): seq<Byte>
    decreases |events|
  {
    if events == [] then []
    else (if events[0].Reads? && n.rxBuf.bytes != [] then [n.rxBuf.bytes[0]] else []) + ReadBy(Step(n, events[0]), events[1..])
  }

  predicate StaysOpen(n: Node, events: seq<Event>)
    decreases |events|
  {
    !n.connectionClosed && (events != [] ==> StaysOpen(Step(n, events[0]), events[1..]))
  }

  lemma WrappedClientIgnores(n: Node, m: Msg)
    requires !n.isServer && n.inComingSeqNo == 0
    ensures var after := Deliver(Receive(n, m)).node;
            !after.isServer && after.inComingSeqNo == 0 && after.rxBuf == n.rxBuf && after.connectionClosed == n.connectionClosed
  {
  }

  lemma SendingKeepsReceiving(n: Node, i: PollInput)
    requires !n.isServer && !n.connectionClosed
    ensures var after := TimeOutOrSend(n, i).node;
            !after.isServer && (after.connectionClosed || (after.inComingSeqNo == n.inComingSeqNo && after.rxBuf == n.rxBuf))
  {
  }

  lemma WrappedPoll(n: Node, i: PollInput)
    requires !n.isServer && !n.connectionClosed && n.inComingSeqNo == 0
    ensures var after := Poll(n, i).node;
            !after.isServer && (after.connectionClosed || (after.inComingSeqNo == 0 && after.rxBuf == n.rxBuf))
  {
    hide Deliver, TimeOutOrSend, Receive;
    var n := Ticked(n, i);
    if n.thisAddress != NOT_SET {
      if i.packet.Some? {
        WrappedClientIgnores(n, i.packet.value);
      }
      SendingKeepsReceiving(if i.packet.Some? then Deliver(Receive(n, i.packet.value)).node else n, i);
    }
  }

  /** A client whose number has wrapped stores nothing more, whatever arrives, as long as its connection stays open:
      what its application gets and can still get is what was in its buffer. */
  lemma {:induction false} WrappedClientIsStuck(n: Node, events: seq<Event>)
    requires !n.isServer && n.inComingSeqNo == 0 && StaysOpen(n, events)
    ensures Run(n, events).inComingSeqNo == 0 && ReadBy(n, events) + Run(n, events).rxBuf.bytes == n.rxBuf.bytes
    decreases |events|
  {
    hide Poll;
    if events != [] {
      if events[0].Polls? {
        WrappedPoll(n, events[0].i);
      }
      var next := Step(n, events[0]);
      WrappedClientIsStuck(next, events[1..]);
      var read, rest := ReadBy(next, events[1..]), Run(n, events).rxBuf.bytes;
      if events[0].Reads? && n.rxBuf.bytes != [] {
        assert [n.rxBuf.bytes[0]] + read + rest == [n.rxBuf.bytes[0]] + (read + rest);
      } else {
        assert [] + read + rest == read + rest;
      }
    }
  }

  // ---- and how it gets there ----

  /** The messages of its server, one byte each, from number k to 255, each read when it has arrived. */
  function Feeding(n: Node, k: nat, b: Byte): seq<Event>
    decreases 256 - k
  {
    if k > 255 then []
    else [Polls(PollInput(Some(Msg(n.thisAddress, n.targetAddress, k, 0, [b])), false, true, false, false)), Reads] + Feeding(n, k + 1, b)
  }

  predicate Expects(n: Node, k: nat) {
    !n.isServer && !n.connectionClosed && 0 < n.thisAddress < NOT_SET && 0 < n.targetAddress < NOT_SET && n.maxMsgLen > 0 &&
    n.inComingSeqNo == k % 256 && n.rxBuf.bytes == [] && n.rxBuf.capacity > 0 && !n.waitingForAck
  }

  lemma FedOnce(n: Node, k: nat, b: Byte)
    requires Expects(n, k) && 1 <= k <= 255
    ensures var ev := Feeding(n, k, b);
            var read := Step(Step(n, ev[0]), ev[1]);
            Expects(read, k + 1) && !Step(n, ev[0]).connectionClosed && Step(n, ev[0]).rxBuf.bytes == [b] &&
            read.thisAddress == n.thisAddress && read.targetAddress == n.targetAddress
  {
    assert [b][..1] == [b];
  }

  lemma FeedingDependsOnAddresses(n: Node, m: Node, k: nat, b: Byte)
    requires n.thisAddress == m.thisAddress && n.targetAddress == m.targetAddress
    ensures Feeding(n, k, b) == Feeding(m, k, b)
    decreases 256 - k
  {
  }

  /** A client that has everything stored which its server sent, message by message, is stuck after number 255. */
  lemma {:induction false} WrapIsReached(n: Node, k: nat, b: Byte)
    requires Expects(n, k) && 1 <= k <= 256
    ensures StaysOpen(n, Feeding(n, k, b)) && Run(n, Feeding(n, k, b)).inComingSeqNo == 0
    ensures |ReadBy(n, Feeding(n, k, b))| == 256 - k
    decreases 256 - k
  {
    if k < 256 {
      var ev := Feeding(n, k, b);
      FedOnce(n, k, b);
      hide Step, Expects;
      var got := Step(n, ev[0]);
      var read := Step(got, ev[1]);
      FeedingDependsOnAddresses(n, read, k + 1, b);
      WrapIsReached(read, k + 1, b);
      assert ev[1..][1..] == Feeding(read, k + 1, b) && ev[1..][0] == ev[1];
    }
  }
}
