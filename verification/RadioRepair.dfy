/** How a lost message or acknowledgement is made good, and the one case in which it is not. */
module RadioRepair {
  import opened Bytes
  import opened Buffers
  import opened RadioMessages
  import opened RadioNodes
  import opened RadioLink
  import opened RadioInvariant
  import opened RadioServerProof
  import opened RadioGuarantees

  // ---- an acknowledgement that never comes ----

  /** No acknowledgement of message k is on its way or will be sent again. */
  predicate NoneComes(sender: Msg, channel: seq<Msg>, k: nat) {
    !sender.IsPureAck() && sender.ackedMsgSeqNo != k && forall m :: m in channel ==> m.ackedMsgSeqNo != k
  }

  /** The client waits for an acknowledgement of a message that the server has stored and acknowledges no more. */
  predicate ClientStuck(net: Net) {
    var c, k := net.client, |net.sentByClient| - 1;
    Inv(net) && c.waitingForAck && k >= 1 && net.server.inComingSeqNo == k + 1 && NoneComes(net.server.lastMsgSent, net.toClient, k)
  }

  /** And the server for one from the client. */
  predicate ServerStuck(net: Net) {
    var s, k := net.server, |net.sentByServer|;
    Inv(net) && s.waitingForAck && k >= 1 && net.client.inComingSeqNo == k + 1 && NoneComes(net.client.lastMsgSent, net.toServer, k)
  }

  // A waiting node that gets no acknowledgement and does not give up goes on waiting for the same message.

  predicate SameWaiting(n: Node, a: Action) {
    a.node.waitingForAck && a.node.lastMsgSent == n.lastMsgSent.(ackedMsgSeqNo := a.node.lastMsgSent.ackedMsgSeqNo) &&
    a.node.retriesCount >= n.retriesCount && a.node.noOfRetries == n.noOfRetries &&
    forall m :: m in a.sent ==> m == n.lastMsgSent.(ackedMsgSeqNo := m.ackedMsgSeqNo)
  }

  lemma DeliverWaitsOn(n: Node, m: Msg)
    requires n.waitingForAck && !n.lastMsgSent.IsPureAck() && !m.IsAckFor(n.lastMsgSent) && |m.body| <= n.maxMsgLen
    requires !AcceptsConnection(n.(receivedMsg := m))
    ensures var a := Deliver(Receive(n, m)); SameWaiting(n, a) && a.node.retriesCount == n.retriesCount
  {
    assert m.body[..|m.body|] == m.body;
    var r := n.(receivedMsg := m);
    assert CheckForNewConnection(r) == r && AckSeen(r) == r;
    hide AcceptsConnection, NewMsg;
  }

  lemma TimeOutWaitsOn(n: Node, i: PollInput)
    requires n.waitingForAck && (i.ackTimedOut ==> n.retriesCount < n.noOfRetries)
    ensures SameWaiting(n, TimeOutOrSend(n, i))
  {
  }

  lemma WaitsOn(n: Node, i: PollInput)
    requires n.waitingForAck && !n.lastMsgSent.IsPureAck() && n.thisAddress != NOT_SET && !i.linkExpired
    requires i.packet.Some? ==> !i.packet.value.IsAckFor(n.lastMsgSent) && |i.packet.value.body| <= n.maxMsgLen
    requires i.packet.Some? ==> !AcceptsConnection(n.(receivedMsg := i.packet.value))
    requires i.ackTimedOut ==> n.retriesCount < n.noOfRetries
    ensures SameWaiting(n, Poll(n, i))
  {
    assert Ticked(n, i) == n;
    hide Deliver, TimeOutOrSend, Receive, AcceptsConnection;
    if i.packet.Some? {
      DeliverWaitsOn(n, i.packet.value);
      TimeOutWaitsOn(Deliver(Receive(n, i.packet.value)).node, i);
    } else {
      TimeOutWaitsOn(n, i);
    }
  }

  // A node that has stored message k, and whose last message does not acknowledge it, never does.

  predicate NoAck(n: Node, a: Action, k: nat) {
    !a.node.lastMsgSent.IsPureAck() && a.node.lastMsgSent.ackedMsgSeqNo != k && a.node.inComingSeqNo == n.inComingSeqNo &&
    forall m :: m in a.sent ==> m.ackedMsgSeqNo != k
  }

  lemma DeliverNeverAcks(n: Node, m: Msg, k: nat)
    requires !n.lastMsgSent.IsPureAck() && n.lastMsgSent.ackedMsgSeqNo != k && |m.body| <= n.maxMsgLen
    requires !AcceptsConnection(n.(receivedMsg := m)) && !NewMsg(n.(receivedMsg := m))
    ensures var a := Deliver(Receive(n, m));
            NoAck(n, a, k) && a.node == n.(receivedMsg := m, waitingForAck := a.node.waitingForAck, retriesCount := a.node.retriesCount) &&
            (a.node.waitingForAck ==> n.waitingForAck && a.node.retriesCount == n.retriesCount)
  {
    assert m.body[..|m.body|] == m.body;
    var r := n.(receivedMsg := m);
    assert CheckForNewConnection(AckSeen(r)) == AckSeen(r);
    hide AcceptsConnection;
  }

  lemma SendNeverAcks(n: Node, i: PollInput, k: nat)
    requires !n.lastMsgSent.IsPureAck() && n.lastMsgSent.ackedMsgSeqNo != k && k >= 1
    requires n.outGoingSeqNo != 0 && !(n.connectionClosed && !n.isServer)
    requires i.ackTimedOut && n.waitingForAck ==> n.retriesCount < n.noOfRetries
    ensures NoAck(n, TimeOutOrSend(n, i), k)
  {
  }

  lemma NeverAcks(n: Node, i: PollInput, k: nat)
    requires !n.lastMsgSent.IsPureAck() && n.lastMsgSent.ackedMsgSeqNo != k && k >= 1 && n.thisAddress != NOT_SET && !i.linkExpired
    requires n.outGoingSeqNo != 0 && !(n.connectionClosed && !n.isServer)
    requires i.packet.Some? ==> |i.packet.value.body| <= n.maxMsgLen
    requires i.packet.Some? ==> !AcceptsConnection(n.(receivedMsg := i.packet.value)) && !NewMsg(n.(receivedMsg := i.packet.value))
    requires i.ackTimedOut && n.waitingForAck ==> n.retriesCount < n.noOfRetries
    ensures NoAck(n, Poll(n, i), k)
  {
    assert Ticked(n, i) == n;
    hide Deliver, TimeOutOrSend, Receive, AcceptsConnection, NewMsg;
    if i.packet.Some? {
      DeliverNeverAcks(n, i.packet.value, k);
      SendNeverAcks(Deliver(Receive(n, i.packet.value)).node, i, k);
    } else {
      SendNeverAcks(n, i, k);
    }
  }

  // ---- which messages can still arrive ----

  /** What arrives at a server that has stored the client's last message is no new message and no new request. */
  lemma NothingNewForServer(net: Net)
    requires Inv(net) && net.toServer != [] && !net.server.connectionClosed && net.server.inComingSeqNo == |net.sentByClient| >= 2
    ensures var m, s := net.toServer[0], net.server;
            |m.body| <= s.maxMsgLen && !AcceptsConnection(s.(receivedMsg := m)) && !NewMsg(s.(receivedMsg := m))
  {
    assert net.toServer[0] in net.toServer;
    hide Delivered;
  }

  lemma NothingNewForClient(net: Net)
    requires Inv(net) && net.toClient != [] && !net.client.connectionClosed && net.client.inComingSeqNo == |net.sentByServer| + 1
    ensures var m, c := net.toClient[0], net.client;
            |m.body| <= c.maxMsgLen && !AcceptsConnection(c.(receivedMsg := m)) && !NewMsg(c.(receivedMsg := m))
  {
    assert net.toClient[0] in net.toClient;
    hide Delivered, Ascending;
  }

  /** A server that waits for an acknowledgement is connected, and no late request disconnects it. */
  lemma NoRequestForServer(net: Net)
    requires Inv(net) && net.toServer != [] && net.server.waitingForAck
    ensures var m, s := net.toServer[0], net.server; |m.body| <= s.maxMsgLen && !AcceptsConnection(s.(receivedMsg := m))
  {
    assert net.toServer[0] in net.toServer;
    hide Delivered;
  }

  // ---- stuck for ever ----

  lemma DroppedFirst(channel: seq<Msg>)
    ensures forall m :: m in channel[if channel == [] then 0 else 1..] ==> m in channel
  {
  }

  lemma ClientPollStaysStuck(net: Net, ev: Event)
    requires ClientStuck(net) && Allowed(net, ev) && ev.ClientPoll?
    ensures ClientStuck(Step(net, ev)) && Step(net, ev).sentByClient == net.sentByClient
  {
    StepKeeps(net, ev);
    var c, i, k := net.client, Input(ev, net.toClient), |net.sentByClient| - 1;
    if ev.arrives {
      assert net.toClient[0] in net.toClient;
    }
    assert c.lastMsgSent.msgSeqNo == k && !c.lastMsgSent.IsPureAck() && c.thisAddress != NOT_SET;
    assert i.packet.Some? ==> |i.packet.value.body| <= c.maxMsgLen;
    hide Inv, Poll, Deliver, TimeOutOrSend, AcksUnstored;
    WaitsOn(c, i);
    DroppedFirst(net.toClient);
    var a := Poll(c, i);
    if a.sent != [] {
      assert a.sent[|a.sent| - 1] in a.sent;
    }
    assert Observed(net.sentByClient, 0, a.sent) == net.sentByClient;
  }

  lemma ServerPollStaysStuck(net: Net, ev: Event)
    requires ClientStuck(net) && Allowed(net, ev) && ev.ServerPoll?
    ensures ClientStuck(Step(net, ev)) && Step(net, ev).sentByClient == net.sentByClient
  {
    StepKeeps(net, ev);
    var s, i, k := net.server, Input(ev, net.toServer), |net.sentByClient| - 1;
    assert !s.connectionClosed && s.outGoingSeqNo != 0 && s.thisAddress != NOT_SET;
    if ev.arrives {
      NothingNewForServer(net);
    }
    hide Inv, Poll, Deliver, TimeOutOrSend, AcksUnstored;
    NeverAcks(s, i, k);
  }

  lemma ApplicationStaysStuck(net: Net, ev: Event)
    requires ClientStuck(net) && Allowed(net, ev) && !ev.ClientPoll? && !ev.ServerPoll?
    ensures ClientStuck(Step(net, ev)) && Step(net, ev).sentByClient == net.sentByClient
  {
    StepKeeps(net, ev);
    hide Inv, AcksUnstored;
  }

  lemma StepStaysStuck(net: Net, ev: Event)
    requires ClientStuck(net) && Allowed(net, ev)
    ensures ClientStuck(Step(net, ev)) && Step(net, ev).sentByClient == net.sentByClient
  {
    hide ClientStuck, Step, Allowed;
    if ev.ClientPoll? {
      ClientPollStaysStuck(net, ev);
    } else if ev.ServerPoll? {
      ServerPollStaysStuck(net, ev);
    } else {
      ApplicationStaysStuck(net, ev);
    }
  }

  /** Once stuck the client waits in every run, for the same message, until it gives up. */
  lemma {:induction false} StaysStuck(net: Net, events: seq<Event>)
    requires ClientStuck(net) && AllowedRun(net, events)
    ensures var r := Run(net, events); ClientStuck(r) && r.client.waitingForAck && r.sentByClient == net.sentByClient
    decreases |events|
  {
    if events != [] {
      assert Possible(net, events[0]);
      hide ClientStuck, Step;
      StepStaysStuck(net, events[0]);
      StaysStuck(Step(net, events[0]), events[1..]);
    }
  }

  lemma ServerPollStaysWaiting(net: Net, ev: Event)
    requires ServerStuck(net) && Allowed(net, ev) && ev.ServerPoll?
    ensures ServerStuck(Step(net, ev)) && Step(net, ev).sentByServer == net.sentByServer
  {
    StepKeeps(net, ev);
    var s, i, k := net.server, Input(ev, net.toServer), |net.sentByServer|;
    if ev.arrives {
      assert net.toServer[0] in net.toServer;
      NoRequestForServer(net);
    }
    assert s.lastMsgSent.msgSeqNo == k && !s.lastMsgSent.IsPureAck() && s.thisAddress != NOT_SET;
    hide Inv, Poll, Deliver, TimeOutOrSend, AcksUnstored, AcceptsConnection;
    WaitsOn(s, i);
    DroppedFirst(net.toServer);
    var a := Poll(s, i);
    if a.sent != [] {
      assert a.sent[|a.sent| - 1] in a.sent;
    }
    assert Observed(net.sentByServer, 1, a.sent) == net.sentByServer;
  }

  lemma ClientPollStaysWaiting(net: Net, ev: Event)
    requires ServerStuck(net) && Allowed(net, ev) && ev.ClientPoll?
    ensures ServerStuck(Step(net, ev)) && Step(net, ev).sentByServer == net.sentByServer
  {
    StepKeeps(net, ev);
    var c, i, k := net.client, Input(ev, net.toClient), |net.sentByServer|;
    assert !c.connectionClosed && c.outGoingSeqNo != 0 && c.thisAddress != NOT_SET;
    if ev.arrives {
      NothingNewForClient(net);
    }
    hide Inv, Poll, Deliver, TimeOutOrSend, AcksUnstored;
    NeverAcks(c, i, k);
  }

  lemma ServerStepStaysStuck(net: Net, ev: Event)
    requires ServerStuck(net) && Allowed(net, ev)
    ensures ServerStuck(Step(net, ev)) && Step(net, ev).sentByServer == net.sentByServer
  {
    if ev.ClientPoll? {
      hide ServerStuck, Step, Allowed;
      ClientPollStaysWaiting(net, ev);
    } else if ev.ServerPoll? {
      hide ServerStuck, Step, Allowed;
      ServerPollStaysWaiting(net, ev);
    } else {
      StepKeeps(net, ev);
      hide Inv, AcksUnstored;
    }
  }

  lemma {:induction false} ServerStaysStuck(net: Net, events: seq<Event>)
    requires ServerStuck(net) && AllowedRun(net, events)
    ensures var r := Run(net, events); ServerStuck(r) && r.server.waitingForAck && r.sentByServer == net.sentByServer
    decreases |events|
  {
    if events != [] {
      assert Possible(net, events[0]);
      hide ServerStuck, Step;
      ServerStepStaysStuck(net, events[0]);
      ServerStaysStuck(Step(net, events[0]), events[1..]);
    }
  }

  // ---- a lost acknowledgement that is made good ----

  const RESENDS_CLIENT: Event := ClientPoll(false, false, true, false)
  const RESENDS_SERVER: Event := ServerPoll(false, false, true, false)
  const CLIENT_GETS: Event := ClientPoll(true, true, false, false)
  const SERVER_GETS: Event := ServerPoll(true, true, false, false)

  /** The client waits, with a retry left, and nothing is in flight. */
  predicate ClientWaits(net: Net) {
    Inv(net) && net.client.waitingForAck && net.client.retriesCount < net.client.noOfRetries && net.toServer == net.toClient == []
  }

  predicate ServerWaits(net: Net) {
    Inv(net) && net.server.waitingForAck && net.server.retriesCount < net.server.noOfRetries && net.toServer == net.toClient == []
  }

  lemma ClientResent(net: Net)
    requires ClientWaits(net)
    ensures Allowed(net, RESENDS_CLIENT)
    ensures Step(net, RESENDS_CLIENT) == net.(client := net.client.(retriesCount := net.client.retriesCount + 1, linkTimerRunning := net.client.linkTimerRunning),
                                              toServer := [net.client.lastMsgSent])
  {
    hide Delivered;
    assert [] + [net.client.lastMsgSent] == [net.client.lastMsgSent];
  }

  /** A node that gets the message before the expected one sends its last message again and stores nothing. */
  lemma AnswersAgain(n: Node, m: Msg)
    requires !m.IsPureAck() && |m.body| <= n.maxMsgLen && m.msgSeqNo < 255 && m.msgSeqNo + 1 == n.inComingSeqNo
    requires !AcceptsConnection(n.(receivedMsg := m)) && n.lastMsgSent.addressedTo != NOT_SET && n.thisAddress != NOT_SET
    ensures var a := Poll(n, PollInput(Some(m), false, true, false, false));
            a.sent == [n.lastMsgSent] &&
            a.node == n.(receivedMsg := m, waitingForAck := a.node.waitingForAck, retriesCount := a.node.retriesCount)
  {
    assert m.body[..|m.body|] == m.body;
    var r := n.(receivedMsg := m);
    assert CheckForNewConnection(AckSeen(r)) == AckSeen(r) && !NewMsg(AckSeen(r));
    assert [n.lastMsgSent] + [] == [n.lastMsgSent];
    hide AcceptsConnection, NewMsg;
  }

  /** At a server that has stored the client's last message, which arrives again. */
  lemma AgainAtServer(net: Net)
    requires Inv(net) && net.client.waitingForAck && net.toServer == [net.client.lastMsgSent] && net.server.inComingSeqNo == |net.sentByClient|
    ensures var m, s := net.client.lastMsgSent, net.server;
            !m.IsPureAck() && |m.body| <= s.maxMsgLen && m.msgSeqNo < 255 && m.msgSeqNo + 1 == s.inComingSeqNo &&
            !AcceptsConnection(s.(receivedMsg := m)) && s.lastMsgSent.addressedTo == net.client.thisAddress != NOT_SET && s.thisAddress != NOT_SET &&
            (s.lastMsgSent.IsPureAck() || s.lastMsgSent.msgSeqNo != |net.sentByServer| + 1)
  {
    assert net.toServer[0] in net.toServer;
    hide Delivered;
  }

  /** The server, which has stored the message already, sends its last message again. */
  lemma ServerAnswers(net: Net)
    requires Inv(net) && net.client.waitingForAck && net.toServer == [net.client.lastMsgSent] && net.toClient == []
    requires net.server.inComingSeqNo == |net.sentByClient|
    ensures Allowed(net, SERVER_GETS)
    ensures var r := Step(net, SERVER_GETS);
            r.client == net.client && r.toServer == [] && r.toClient == [net.server.lastMsgSent] && r.server.rxBuf == net.server.rxBuf &&
            r.server.inComingSeqNo == net.server.inComingSeqNo && r.server.lastMsgSent == net.server.lastMsgSent && r.sentByClient == net.sentByClient
  {
    AgainAtServer(net);
    hide Inv, Poll, AcceptsConnection;
    AnswersAgain(net.server, net.client.lastMsgSent);
    assert [] + [net.server.lastMsgSent] == [net.server.lastMsgSent];
  }

  /** The three events: the client times out, the message arrives at the server, the answer arrives at the client. */
  const CLIENT_REPAIR: seq<Event> := [RESENDS_CLIENT, SERVER_GETS, CLIENT_GETS]

  lemma {:induction false} RunsThree(net: Net, a: Event, b: Event, c: Event)
    requires Allowed(net, a) && Allowed(Step(net, a), b) && Allowed(Step(Step(net, a), b), c)
    ensures AllowedRun(net, [a, b, c]) && Run(net, [a, b, c]) == Step(Step(Step(net, a), b), c)
  {
    hide Step, AcksUnstored;
    var one, two := Step(net, a), Step(Step(net, a), b);
    RunsFirst(two, c, []);
    RunsFirst(one, b, [c]);
    RunsFirst(net, a, [b, c]);
    assert [b] + [c] == [b, c] && [a] + [b, c] == [a, b, c] && [c] + [] == [c];
  }

  lemma RunsFirst(net: Net, ev: Event, rest: seq<Event>)
    requires Allowed(net, ev) && AllowedRun(Step(net, ev), rest)
    ensures AllowedRun(net, [ev] + rest) && Run(net, [ev] + rest) == Run(Step(net, ev), rest)
  {
    hide Step, AcksUnstored;
    assert ([ev] + rest)[1..] == rest && ([ev] + rest)[0] == ev;
  }

  /** The server's answer to a message it has stored already ends the client's waiting if it acknowledges that message;
      nothing is stored twice. */
  lemma ClientRepaired(net: Net)
    requires ClientWaits(net) && net.server.inComingSeqNo == |net.sentByClient|
    requires net.server.lastMsgSent.IsAckFor(net.client.lastMsgSent)
    ensures AllowedRun(net, CLIENT_REPAIR)
    ensures var r := Run(net, CLIENT_REPAIR);
            !r.client.waitingForAck && r.server.rxBuf == net.server.rxBuf && r.server.inComingSeqNo == net.server.inComingSeqNo &&
            r.sentByClient == net.sentByClient
  {
    ClientResent(net);
    var sent := Step(net, RESENDS_CLIENT);
    StepKeeps(net, RESENDS_CLIENT);
    hide Inv, Step, Allowed;
    ServerAnswers(sent);
    StepKeeps(sent, SERVER_GETS);
    var answered := Step(sent, SERVER_GETS);
    ClientTakes(answered);
    RunsThree(net, RESENDS_CLIENT, SERVER_GETS, CLIENT_GETS);
  }

  /** What a node's own last acknowledgement says. */
  predicate OwnAck(n: Node) {
    n.lastMsgSent.IsPureAck() ==> !n.connectionClosed && n.lastMsgSent.ackedMsgSeqNo + 1 == n.inComingSeqNo
  }

  lemma DeliverOwnAck(n: Node, m: Msg)
    requires OwnAck(n) && |m.body| <= n.maxMsgLen && (n.waitingForAck ==> !n.lastMsgSent.IsPureAck())
    requires NewMsg(n.(receivedMsg := m)) ==> n.inComingSeqNo < 255
    requires AcceptsConnection(n.(receivedMsg := m)) ==> n.connectionClosed
    requires n.connectionClosed && !AcceptsConnection(n.(receivedMsg := m)) ==> !NewMsg(n.(receivedMsg := m))
    ensures var r := Deliver(Receive(n, m)).node; OwnAck(r) && (r.waitingForAck ==> !r.lastMsgSent.IsPureAck())
  {
    assert m.body[..|m.body|] == m.body;
  }

  /** A node that makes no message which looks like an acknowledgement: not a request with a null. */
  predicate SendsNoAck(n: Node) {
    if n.connectionClosed then n.isServer || (n.rawDataBuf.bytes == [] && (n.txBuf.bytes != [] ==> n.txBuf.bytes[0] != 0))
    else n.outGoingSeqNo != 0
  }

  lemma SendOwnAck(n: Node, i: PollInput)
    requires OwnAck(n) && (n.waitingForAck ==> !n.lastMsgSent.IsPureAck()) && (i.ackTimedOut && n.waitingForAck ==> n.retriesCount < n.noOfRetries)
    requires SendsNoAck(n)
    ensures OwnAck(TimeOutOrSend(n, i).node)
  {
  }

  lemma StoreForSending(n: Node)
    ensures var r := Store(n).node;
            r.outGoingSeqNo == n.outGoingSeqNo && r.isServer == n.isServer && r.connectionClosed == n.connectionClosed &&
            r.waitingForAck == n.waitingForAck && r.retriesCount == n.retriesCount && r.noOfRetries == n.noOfRetries
  {
  }

  lemma DeliverForSending(n: Node, m: Msg)
    requires n.connectionClosed ==> n.isServer
    requires SendsNoAck(n)
    ensures var r := Deliver(Receive(n, m)).node;
            SendsNoAck(r) && (r.waitingForAck ==> n.waitingForAck && r.retriesCount == n.retriesCount && r.noOfRetries == n.noOfRetries)
  {
    var seen := AckSeen(Receive(n, m));
    StoreForSending(CheckForNewConnection(seen));
    hide AcceptsConnection, NewMsg, Store;
  }

  /** What may arrive at a node whose last acknowledgement is of the message it stored last. */
  predicate MayArrive(n: Node, m: Msg) {
    |m.body| <= n.maxMsgLen && (NewMsg(n.(receivedMsg := m)) ==> n.inComingSeqNo < 255) &&
    (AcceptsConnection(n.(receivedMsg := m)) ==> n.connectionClosed) &&
    (n.connectionClosed && !AcceptsConnection(n.(receivedMsg := m)) ==> !NewMsg(n.(receivedMsg := m)))
  }

  lemma PollOwnAck(n: Node, i: PollInput)
    requires OwnAck(n) && n.thisAddress != NOT_SET && !i.linkExpired && (n.waitingForAck ==> !n.lastMsgSent.IsPureAck())
    requires (i.ackTimedOut && n.waitingForAck ==> n.retriesCount < n.noOfRetries) && SendsNoAck(n)
    requires i.packet.Some? ==> MayArrive(n, i.packet.value) && (n.connectionClosed ==> n.isServer)
    ensures OwnAck(Poll(n, i).node)
  {
    assert Ticked(n, i) == n;
    hide Deliver, TimeOutOrSend, Receive, AcceptsConnection, NewMsg, OwnAck, SendsNoAck;
    if i.packet.Some? {
      DeliverOwnAck(n, i.packet.value);
      DeliverForSending(n, i.packet.value);
      SendOwnAck(Deliver(Receive(n, i.packet.value)).node, i);
    } else {
      SendOwnAck(n, i);
    }
  }

  lemma ArrivesAtServer(net: Net)
    requires Inv(net)
    ensures net.toServer != [] ==> MayArrive(net.server, net.toServer[0])
    ensures SendsNoAck(net.server) && net.server.thisAddress != NOT_SET && (net.server.waitingForAck ==> !net.server.lastMsgSent.IsPureAck())
  {
    if net.toServer != [] {
      assert net.toServer[0] in net.toServer;
    }
    hide Delivered;
  }

  lemma ArrivesAtClient(net: Net)
    requires Inv(net)
    ensures net.toClient != [] ==> MayArrive(net.client, net.toClient[0]) && !net.client.connectionClosed
    ensures SendsNoAck(net.client) && net.client.thisAddress != NOT_SET && (net.client.waitingForAck ==> !net.client.lastMsgSent.IsPureAck())
  {
    if net.toClient != [] {
      assert net.toClient[0] in net.toClient;
    }
    hide Ascending, ServerCutUp, DeliveredToServer, DeliveredToClient;
  }

  /** The request of a client acknowledges nothing. */
  predicate RequestAcksNothing(n: Node) {
    !n.connectionClosed && n.lastMsgSent.msgSeqNo == 0 && !n.lastMsgSent.IsPureAck() ==> n.lastMsgSent.ackedMsgSeqNo == 0
  }

  /** The last message of either node is no acknowledgement, or one of the message it stored last. */
  predicate OwnAcks(net: Net) {
    OwnAck(net.client) && OwnAck(net.server) && RequestAcksNothing(net.client)
  }

  lemma DeliverRequest(n: Node, m: Msg)
    requires RequestAcksNothing(n) && !n.isServer && |m.body| <= n.maxMsgLen
    requires n.waitingForAck && n.lastMsgSent.msgSeqNo == 0 && !m.IsPureAck() ==> m.IsAckFor(n.lastMsgSent)
    ensures var r := Deliver(Receive(n, m)).node; RequestAcksNothing(r) && !r.isServer && r.outGoingSeqNo == n.outGoingSeqNo && r.connectionClosed == n.connectionClosed
  {
    assert m.body[..|m.body|] == m.body;
    hide NewMsg;
  }

  lemma SendRequest(n: Node, i: PollInput)
    requires RequestAcksNothing(n) && !n.isServer && (n.connectionClosed ==> !n.lastMsgSent.IsPureAck()) && (!n.connectionClosed ==> n.outGoingSeqNo != 0)
    ensures RequestAcksNothing(TimeOutOrSend(n, i).node)
  {
  }

  lemma PollRequest(n: Node, i: PollInput)
    requires RequestAcksNothing(n) && !n.isServer && (n.connectionClosed ==> !n.lastMsgSent.IsPureAck()) && (!n.connectionClosed ==> n.outGoingSeqNo != 0)
    requires n.thisAddress != NOT_SET && !i.linkExpired
    requires i.packet.Some? ==>
               !n.connectionClosed && |i.packet.value.body| <= n.maxMsgLen &&
               (n.waitingForAck && n.lastMsgSent.msgSeqNo == 0 && !i.packet.value.IsPureAck() ==> i.packet.value.IsAckFor(n.lastMsgSent))
    ensures RequestAcksNothing(Poll(n, i).node)
  {
    assert Ticked(n, i) == n;
    hide Deliver, TimeOutOrSend, Receive, RequestAcksNothing;
    if i.packet.Some? {
      DeliverRequest(n, i.packet.value);
      SendRequest(Deliver(Receive(n, i.packet.value)).node, i);
    } else {
      SendRequest(n, i);
    }
  }

  /** Every message of the server acknowledges a request that the client waits for. */
  lemma RequestAnswered(net: Net)
    requires Inv(net)
    ensures var c := net.client;
            !c.isServer && (c.connectionClosed ==> !c.lastMsgSent.IsPureAck()) && (!c.connectionClosed ==> c.outGoingSeqNo != 0) &&
            (net.toClient != [] ==>
              !c.connectionClosed && |net.toClient[0].body| <= c.maxMsgLen &&
              (c.waitingForAck && c.lastMsgSent.msgSeqNo == 0 && !net.toClient[0].IsPureAck() ==> net.toClient[0].IsAckFor(c.lastMsgSent)))
  {
    if net.toClient != [] {
      assert net.toClient[0] in net.toClient;
    }
    hide Delivered, Ascending;
  }

  lemma {:induction false} StepOwnAcks(net: Net, ev: Event)
    requires Inv(net) && OwnAcks(net) && Allowed(net, ev)
    ensures OwnAcks(Step(net, ev))
  {
    if ev.ClientPoll? {
      ArrivesAtClient(net);
      RequestAnswered(net);
      hide Poll, Inv, OwnAck, AcksUnstored, SendsNoAck, MayArrive, RequestAcksNothing;
      PollOwnAck(net.client, Input(ev, net.toClient));
      PollRequest(net.client, Input(ev, net.toClient));
    } else if ev.ServerPoll? {
      ArrivesAtServer(net);
      hide Poll, Inv, OwnAck, AcksUnstored, SendsNoAck, MayArrive;
      PollOwnAck(net.server, Input(ev, net.toServer));
    } else {
      hide Inv, AcksUnstored;
    }
  }

  lemma {:induction false} RunOwnAcks(net: Net, events: seq<Event>)
    requires Inv(net) && OwnAcks(net) && AllowedRun(net, events)
    ensures var r := Run(net, events); Inv(r) && OwnAcks(r)
    decreases |events|
  {
    if events != [] {
      assert Possible(net, events[0]);
      hide Inv, OwnAcks, Step;
      StepKeeps(net, events[0]);
      StepOwnAcks(net, events[0]);
      RunOwnAcks(Step(net, events[0]), events[1..]);
    }
  }

  /** A server that has stored the client's message acknowledges it with its last message, or it never will. */
  lemma AcksOrStuck(net: Net)
    requires Inv(net) && OwnAcks(net) && net.client.waitingForAck && net.toClient == [] && net.server.inComingSeqNo == |net.sentByClient|
    ensures !net.server.lastMsgSent.IsAckFor(net.client.lastMsgSent) ==> ClientStuck(net)
  {
    hide Delivered, Ascending;
  }

  /** A reachable state. */
  ghost predicate Reached(net: Net) {
    exists start, events :: IsRun(start, events, net)
  }

  ghost predicate IsRun(start: Net, events: seq<Event>, net: Net) {
    Init(start) && AllowedRun(start, events) && Run(start, events) == net
  }

  lemma ReachedIs(net: Net)
    requires Reached(net)
    ensures Inv(net) && OwnAcks(net)
  {
    var start, events :| IsRun(start, events, net);
    InitInv(start);
    hide Inv;
    RunOwnAcks(start, events);
  }

  ghost predicate ClientCanGoOn(net: Net) {
    exists events :: AllowedRun(net, events) && !Run(net, events).client.waitingForAck
  }

  ghost predicate ServerCanGoOn(net: Net) {
    exists events :: AllowedRun(net, events) && !Run(net, events).server.waitingForAck
  }

  /** In every reachable state in which the client waits with a retry left, nothing is in flight and the server has stored the
      message: the waiting can end if and only if the last message of the server acknowledges that message, and then one
      resend is enough and stores nothing twice. */
  lemma {:induction false} ClientRepairedExactly(net: Net)
    requires Reached(net) && net.client.waitingForAck && net.client.retriesCount < net.client.noOfRetries
    requires net.toServer == net.toClient == [] && net.server.inComingSeqNo == |net.sentByClient|
    ensures ClientCanGoOn(net) <==> net.server.lastMsgSent.IsAckFor(net.client.lastMsgSent)
    ensures net.server.lastMsgSent.IsAckFor(net.client.lastMsgSent) ==>
              AllowedRun(net, CLIENT_REPAIR) &&
              var r := Run(net, CLIENT_REPAIR);
              !r.client.waitingForAck && r.server.rxBuf == net.server.rxBuf && r.server.inComingSeqNo == net.server.inComingSeqNo
  {
    ReachedIs(net);
    AcksOrStuck(net);
    hide Inv, OwnAcks, Reached, ClientStuck;
    if net.server.lastMsgSent.IsAckFor(net.client.lastMsgSent) {
      ClientRepaired(net);
    } else {
      forall events | AllowedRun(net, events) ensures Run(net, events).client.waitingForAck {
        StaysStuck(net, events);
      }
    }
  }

  // ---- the same for the server ----

  lemma ServerResent(net: Net)
    requires ServerWaits(net)
    ensures Allowed(net, RESENDS_SERVER)
    ensures Step(net, RESENDS_SERVER) == net.(server := net.server.(retriesCount := net.server.retriesCount + 1), toClient := [net.server.lastMsgSent])
  {
    hide Delivered;
    assert [] + [net.server.lastMsgSent] == [net.server.lastMsgSent];
  }

  /** At a client that has stored the server's last message, which arrives again. */
  lemma AgainAtClient(net: Net)
    requires Inv(net) && net.server.waitingForAck && net.toClient == [net.server.lastMsgSent] && net.client.inComingSeqNo == |net.sentByServer| + 1
    ensures var m, c := net.server.lastMsgSent, net.client;
            !m.IsPureAck() && |m.body| <= c.maxMsgLen && m.msgSeqNo < 255 && m.msgSeqNo + 1 == c.inComingSeqNo &&
            !AcceptsConnection(c.(receivedMsg := m)) && c.lastMsgSent.addressedTo == net.server.thisAddress != NOT_SET && c.thisAddress != NOT_SET &&
            (c.lastMsgSent.IsPureAck() || c.lastMsgSent.msgSeqNo != |net.sentByClient|)
  {
    assert net.toClient[0] in net.toClient;
    hide Delivered;
  }

  lemma ClientAnswers(net: Net)
    requires Inv(net) && net.server.waitingForAck && net.toClient == [net.server.lastMsgSent] && net.toServer == []
    requires net.client.inComingSeqNo == |net.sentByServer| + 1
    ensures Allowed(net, CLIENT_GETS)
    ensures var r := Step(net, CLIENT_GETS);
            r.server == net.server && r.toClient == [] && r.toServer == [net.client.lastMsgSent] && r.client.rxBuf == net.client.rxBuf &&
            r.client.inComingSeqNo == net.client.inComingSeqNo && r.client.lastMsgSent == net.client.lastMsgSent && r.sentByServer == net.sentByServer
  {
    AgainAtClient(net);
    hide Inv, Poll, AcceptsConnection;
    AnswersAgain(net.client, net.server.lastMsgSent);
    assert [] + [net.client.lastMsgSent] == [net.client.lastMsgSent];
  }

  lemma ServerNumber(net: Net)
    requires Inv(net) && net.server.waitingForAck
    ensures net.server.lastMsgSent.msgSeqNo == |net.sentByServer| <= MAX_MESSAGES && net.server.thisAddress != NOT_SET
  {
  }

  lemma StoreSends(n: Node)
    ensures var a := Store(n); |a.sent| <= 1 && (a.sent != [] ==> a.sent[0].IsPureAck()) && a.node.waitingForAck == n.waitingForAck
  {
  }

  lemma DeliverQuietly(n: Node, m: Msg)
    requires |m.body| <= n.maxMsgLen && !AcceptsConnection(n.(receivedMsg := m))
    ensures var a := Deliver(Receive(n, m));
            |a.sent| <= 1 && (a.sent != [] ==> a.sent[0].IsPureAck() || a.sent[0].msgSeqNo == n.lastMsgSent.msgSeqNo) &&
            (m.IsAckFor(n.lastMsgSent) ==> !a.node.waitingForAck)
  {
    assert m.body[..|m.body|] == m.body;
    var r := n.(receivedMsg := m);
    assert CheckForNewConnection(AckSeen(r)) == AckSeen(r);
    StoreSends(AckSeen(r));
    hide AcceptsConnection, NewMsg, Store;
  }

  /** A poll in which the radio is transmitting makes no new message, and ends the waiting if the acknowledgement arrives. */
  lemma GetsQuietly(n: Node, m: Msg)
    requires |m.body| <= n.maxMsgLen && !AcceptsConnection(n.(receivedMsg := m)) && n.thisAddress != NOT_SET
    ensures var a := Poll(n, PollInput(Some(m), false, true, false, false));
            |a.sent| <= 1 && (a.sent != [] ==> a.sent[0].IsPureAck() || a.sent[0].msgSeqNo == n.lastMsgSent.msgSeqNo) &&
            (m.IsAckFor(n.lastMsgSent) ==> !a.node.waitingForAck)
  {
    DeliverQuietly(n, m);
    hide AcceptsConnection, Deliver, Receive;
    var d := Deliver(Receive(n, m));
    assert Ticked(n, PollInput(Some(m), false, true, false, false)) == n;
    assert d.sent + [] == d.sent;
  }

  const SERVER_REPAIR: seq<Event> := [RESENDS_SERVER, CLIENT_GETS, SERVER_GETS]

  lemma ServerRepaired(net: Net)
    requires ServerWaits(net) && net.client.inComingSeqNo == |net.sentByServer| + 1
    requires net.client.lastMsgSent.IsAckFor(net.server.lastMsgSent)
    ensures AllowedRun(net, SERVER_REPAIR)
    ensures var r := Run(net, SERVER_REPAIR);
            !r.server.waitingForAck && r.client.rxBuf == net.client.rxBuf && r.client.inComingSeqNo == net.client.inComingSeqNo &&
            r.sentByServer == net.sentByServer
  {
    ServerResent(net);
    var sent := Step(net, RESENDS_SERVER);
    StepKeeps(net, RESENDS_SERVER);
    hide Inv, Step, Allowed;
    ClientAnswers(sent);
    StepKeeps(sent, CLIENT_GETS);
    var answered := Step(sent, CLIENT_GETS);
    ServerTakes(answered);
    RunsThree(net, RESENDS_SERVER, CLIENT_GETS, SERVER_GETS);
  }

  lemma ServerAcksOrStuck(net: Net)
    requires Inv(net) && OwnAcks(net) && net.server.waitingForAck && net.toServer == [] && net.client.inComingSeqNo == |net.sentByServer| + 1
    ensures !net.client.lastMsgSent.IsAckFor(net.server.lastMsgSent) ==> ServerStuck(net)
  {
    hide Delivered, Ascending;
  }

  /** And with the sides exchanged. */
  lemma {:induction false} ServerRepairedExactly(net: Net)
    requires Reached(net) && net.server.waitingForAck && net.server.retriesCount < net.server.noOfRetries
    requires net.toServer == net.toClient == [] && net.client.inComingSeqNo == |net.sentByServer| + 1
    ensures ServerCanGoOn(net) <==> net.client.lastMsgSent.IsAckFor(net.server.lastMsgSent)
    ensures net.client.lastMsgSent.IsAckFor(net.server.lastMsgSent) ==>
              AllowedRun(net, SERVER_REPAIR) &&
              var r := Run(net, SERVER_REPAIR);
              !r.server.waitingForAck && r.client.rxBuf == net.client.rxBuf && r.client.inComingSeqNo == net.client.inComingSeqNo
  {
    ReachedIs(net);
    ServerAcksOrStuck(net);
    hide Inv, OwnAcks, Reached, ServerStuck;
    if net.client.lastMsgSent.IsAckFor(net.server.lastMsgSent) {
      ServerRepaired(net);
    } else {
      forall events | AllowedRun(net, events) ensures Run(net, events).server.waitingForAck {
        ServerStaysStuck(net, events);
      }
    }
  }

  // ---- a lost message ----

  /** The node once it has seen what the message acknowledges and whether it is a request. */
  function Seen(n: Node, m: Msg): Node {
    CheckForNewConnection(AckSeen(n.(receivedMsg := m)))
  }

  lemma StoredAndAcked(r: Node)
    requires NewMsg(r) && r.rxBuf.Room() >= |r.receivedMsg.body|
    ensures var a, m := Store(r), r.receivedMsg;
            a.node.rxBuf == Buffer(r.rxBuf.bytes + m.body, r.rxBuf.capacity) && a.node.inComingSeqNo == Increment(r.inComingSeqNo) &&
            a.node.waitingForAck == r.waitingForAck && a.node.retriesCount == r.retriesCount && a.node.noOfRetries == r.noOfRetries &&
            if r.waitingForAck then a.sent == [] && a.node.lastMsgSent == r.lastMsgSent.(ackedMsgSeqNo := m.msgSeqNo)
            else a.sent == Transmit(PureAck(m.receivedFrom, m.addressedTo, m.msgSeqNo))
  {
  }

  /** A node stores a new message for which there is room, and acknowledges it at once or with the resend of its own. */
  lemma NewIsAcked(n: Node, m: Msg, t: bool)
    requires var r := Seen(n, m); NewMsg(r) && r.rxBuf.Room() >= |m.body| && (t <==> !r.waitingForAck)
    requires |m.body| <= n.maxMsgLen && m.receivedFrom != NOT_SET && n.thisAddress != NOT_SET
    requires !t ==> n.retriesCount < n.noOfRetries && n.lastMsgSent.addressedTo == m.receivedFrom &&
                    n.lastMsgSent.receivedFrom == m.addressedTo && n.lastMsgSent.msgSeqNo != 0
    ensures var a, r := Poll(n, PollInput(Some(m), false, t, !t, false)), Seen(n, m);
            |a.sent| == 1 && a.sent[0].IsAckFor(m) && (a.sent[0].IsPureAck() || a.sent[0].msgSeqNo == n.lastMsgSent.msgSeqNo) &&
            a.node.rxBuf == Buffer(r.rxBuf.bytes + m.body, r.rxBuf.capacity) && a.node.inComingSeqNo == Increment(r.inComingSeqNo)
  {
    var i, r := PollInput(Some(m), false, t, !t, false), Seen(n, m);
    DeliverIsStore(n, m);
    SeenKeeps(n, m);
    assert Ticked(n, i) == n;
    hide Store, AcceptsConnection, NewMsg, Deliver, Receive, Seen;
    StoredAndAcked(r);
    var d := Store(r);
    assert d.sent + [] == d.sent && [] + TimeOutOrSend(d.node, i).sent == TimeOutOrSend(d.node, i).sent;
  }

  lemma DeliverIsStore(n: Node, m: Msg)
    requires NewMsg(Seen(n, m)) && |m.body| <= n.maxMsgLen
    ensures Deliver(Receive(n, m)) == Store(Seen(n, m)) && Seen(n, m).receivedMsg == m
  {
    assert m.body[..|m.body|] == m.body;
    hide Store, AcceptsConnection;
  }

  lemma SeenKeeps(n: Node, m: Msg)
    ensures var r := Seen(n, m);
            r.retriesCount <= n.retriesCount && r.noOfRetries == n.noOfRetries && r.lastMsgSent == n.lastMsgSent && r.thisAddress == n.thisAddress &&
            (r.waitingForAck <==> n.waitingForAck && !m.IsAckFor(n.lastMsgSent))
  {
    hide AcceptsConnection;
  }

  /** At the server: the client's message is new there. */
  lemma NewAtServer(net: Net)
    requires Inv(net) && net.client.waitingForAck && net.toServer == [net.client.lastMsgSent] && net.server.inComingSeqNo + 1 == |net.sentByClient|
    ensures var m, s := net.client.lastMsgSent, net.server;
            var r := Seen(s, m);
            NewMsg(r) && |m.body| <= s.maxMsgLen && m.receivedFrom != NOT_SET && s.thisAddress != NOT_SET && r.inComingSeqNo == s.inComingSeqNo < 254 &&
            r.rxBuf == (if s.connectionClosed then s.rxBuf.Put(CONNECTION_MARKER) else s.rxBuf) &&
            (r.waitingForAck ==> s.lastMsgSent.addressedTo == m.receivedFrom && s.lastMsgSent.receivedFrom == m.addressedTo &&
                                 s.lastMsgSent.msgSeqNo == |net.sentByServer| != 0)
  {
    assert net.toServer[0] in net.toServer;
    hide Delivered;
  }

  /** The poll in which the server gets the message: it is still transmitting its acknowledgement, or its own message has
      timed out as well. */
  function ServerStores(net: Net): Event {
    var alsoWaits := net.server.waitingForAck && !net.client.lastMsgSent.IsAckFor(net.server.lastMsgSent);
    ServerPoll(true, !alsoWaits, alsoWaits, false)
  }

  /** The client's message arrives at a server that expects it and has room for it. */
  ghost predicate IsNewAtServer(net: Net) {
    Inv(net) && net.client.waitingForAck && net.toServer == [net.client.lastMsgSent] && net.toClient == [] &&
    net.server.inComingSeqNo + 1 == |net.sentByClient| && Seen(net.server, net.client.lastMsgSent).rxBuf.Room() >= |net.client.lastMsgSent.body| &&
    (net.server.waitingForAck ==> net.server.retriesCount < net.server.noOfRetries)
  }

  lemma ServerPollsNew(net: Net)
    requires IsNewAtServer(net)
    ensures var i, m := Input(ServerStores(net), net.toServer), net.client.lastMsgSent;
            var a := Poll(net.server, i);
            !FalselyAcks(net.server, i) && |a.sent| == 1 && a.sent[0].IsAckFor(m) && Observed(net.sentByServer, 1, a.sent) == net.sentByServer &&
            a.node.rxBuf.bytes == Seen(net.server, m).rxBuf.bytes + m.body && a.node.inComingSeqNo == net.server.inComingSeqNo + 1 &&
            |net.sentByServer| <= MAX_MESSAGES
  {
    NewAtServer(net);
    var ev, m := ServerStores(net), net.client.lastMsgSent;
    NumberedBelow(net);
    hide Inv, Poll, NewMsg, FalselyAcks, Seen;
    RoomMeansSound(net.server, m, ev.transmitting);
    SeenKeeps(net.server, m);
    NewIsAcked(net.server, m, ev.transmitting);
  }

  lemma ServerGetsNew(net: Net)
    requires IsNewAtServer(net)
    ensures Allowed(net, ServerStores(net))
    ensures var r, m := Step(net, ServerStores(net)), net.client.lastMsgSent;
            r.client == net.client && r.toServer == [] && |r.toClient| == 1 && r.toClient[0].IsAckFor(m) &&
            r.server.rxBuf.bytes == Seen(net.server, m).rxBuf.bytes + m.body && r.server.inComingSeqNo == net.server.inComingSeqNo + 1 &&
            r.sentByClient == net.sentByClient
  {
    ServerPollsNew(net);
    hide Inv, Poll, FalselyAcks, Seen, Observed;
    var a := Poll(net.server, Input(ServerStores(net), net.toServer));
    assert [] + a.sent == a.sent;
  }

  lemma NumberedBelow(net: Net)
    requires Inv(net)
    ensures net.server.lastMsgSent.IsPureAck() || net.server.connectionClosed || net.server.lastMsgSent.msgSeqNo <= |net.sentByServer| <= MAX_MESSAGES
    ensures |net.sentByServer| <= MAX_MESSAGES
  {
  }

  /** What fits is not acknowledged falsely. */
  lemma RoomMeansSound(n: Node, m: Msg, t: bool)
    requires Seen(n, m).rxBuf.Room() >= |m.body| && |m.body| <= n.maxMsgLen
    ensures !FalselyAcks(n, PollInput(Some(m), false, t, !t, false))
  {
    assert m.body[..|m.body|] == m.body;
    hide NewMsg, AcceptsConnection;
    SameAccepted(n, m);
  }

  lemma SameAccepted(n: Node, m: Msg)
    ensures CheckForNewConnection(n.(receivedMsg := m)).rxBuf == Seen(n, m).rxBuf
  {
  }

  /** An acknowledgement arrives at the client. */
  lemma ClientTakes(net: Net)
    requires Inv(net) && net.client.waitingForAck && |net.toClient| == 1 && net.toClient[0].IsAckFor(net.client.lastMsgSent)
    ensures Allowed(net, CLIENT_GETS)
    ensures var r := Step(net, CLIENT_GETS); !r.client.waitingForAck && r.server == net.server && r.sentByClient == net.sentByClient
  {
    var c, p := net.client, net.toClient[0];
    assert p in net.toClient;
    assert |p.body| <= c.maxMsgLen && c.thisAddress != NOT_SET && c.lastMsgSent.msgSeqNo == |net.sentByClient| - 1 && !c.isServer;
    hide Inv, Poll;
    GetsQuietly(c, p);
    var a := Poll(c, Input(CLIENT_GETS, net.toClient));
    assert Observed(net.sentByClient, 0, a.sent) == net.sentByClient;
  }

  /** The same at the server. */
  lemma ServerTakes(net: Net)
    requires Inv(net) && net.server.waitingForAck && |net.toServer| == 1 && net.toServer[0].IsAckFor(net.server.lastMsgSent)
    ensures Allowed(net, SERVER_GETS)
    ensures var r := Step(net, SERVER_GETS); !r.server.waitingForAck && r.client == net.client && r.sentByServer == net.sentByServer
  {
    hide Inv, Poll, AcceptsConnection, FalselyAcks;
    NoRequestForServer(net);
    ServerNumber(net);
    var i := Input(SERVER_GETS, net.toServer);
    GetsQuietly(net.server, net.toServer[0]);
    var a := Poll(net.server, i);
    assert Observed(net.sentByServer, 1, a.sent) == net.sentByServer;
    QuietIsSound(net.server, i);
    hide Observed;
  }

  lemma QuietIsSound(n: Node, i: PollInput)
    requires i.transmitting
    ensures !FalselyAcks(n, i)
  {
  }

  /** A lost message is always made good: if the server has room for it, and a retry left in case it waits as well, the message
      is stored once and the client goes on. */
  lemma {:induction false} ClientMessageRepaired(net: Net)
    requires ClientWaits(net) && net.server.inComingSeqNo + 1 == |net.sentByClient|
    requires Seen(net.server, net.client.lastMsgSent).rxBuf.Room() >= |net.client.lastMsgSent.body|
    requires net.server.waitingForAck ==> net.server.retriesCount < net.server.noOfRetries
    ensures var events, m := [RESENDS_CLIENT, ServerStores(net), CLIENT_GETS], net.client.lastMsgSent;
            AllowedRun(net, events) &&
            var r := Run(net, events);
            !r.client.waitingForAck && r.server.inComingSeqNo == net.server.inComingSeqNo + 1 && r.sentByClient == net.sentByClient &&
            r.server.rxBuf.bytes == Seen(net.server, m).rxBuf.bytes + m.body
  {
    ClientResent(net);
    var sent := Step(net, RESENDS_CLIENT);
    StepKeeps(net, RESENDS_CLIENT);
    hide Inv, Step, Allowed, Seen;
    assert ServerStores(sent) == ServerStores(net);
    ServerGetsNew(sent);
    StepKeeps(sent, ServerStores(sent));
    var stored := Step(sent, ServerStores(sent));
    ClientTakes(stored);
    RunsThree(net, RESENDS_CLIENT, ServerStores(net), CLIENT_GETS);
  }

  /** At the client: the server's message is new there. */
  lemma NewAtClient(net: Net)
    requires Inv(net) && net.server.waitingForAck && net.toClient == [net.server.lastMsgSent] && net.client.inComingSeqNo == |net.sentByServer|
    ensures var m, c := net.server.lastMsgSent, net.client;
            var r := Seen(c, m);
            NewMsg(r) && |m.body| <= c.maxMsgLen && m.receivedFrom != NOT_SET && c.thisAddress != NOT_SET && r.inComingSeqNo == c.inComingSeqNo < 255 &&
            r.rxBuf == c.rxBuf &&
            (r.waitingForAck ==> c.lastMsgSent.addressedTo == m.receivedFrom && c.lastMsgSent.receivedFrom == m.addressedTo &&
                                 c.lastMsgSent.msgSeqNo == |net.sentByClient| - 1 != 0)
  {
    assert net.toClient[0] in net.toClient;
    hide Delivered, Ascending;
  }

  function ClientStores(net: Net): Event {
    var alsoWaits := net.client.waitingForAck && !net.server.lastMsgSent.IsAckFor(net.client.lastMsgSent);
    ClientPoll(true, !alsoWaits, alsoWaits, false)
  }

  ghost predicate IsNewAtClient(net: Net) {
    Inv(net) && net.server.waitingForAck && net.toClient == [net.server.lastMsgSent] && net.toServer == [] &&
    net.client.inComingSeqNo == |net.sentByServer| && net.client.rxBuf.Room() >= |net.server.lastMsgSent.body| &&
    (net.client.waitingForAck ==> net.client.retriesCount < net.client.noOfRetries)
  }

  lemma ClientPollsNew(net: Net)
    requires IsNewAtClient(net)
    ensures var i, m := Input(ClientStores(net), net.toClient), net.server.lastMsgSent;
            var a := Poll(net.client, i);
            !FalselyAcks(net.client, i) && |a.sent| == 1 && a.sent[0].IsAckFor(m) && Observed(net.sentByClient, 0, a.sent) == net.sentByClient &&
            a.node.rxBuf.bytes == net.client.rxBuf.bytes + m.body && a.node.inComingSeqNo == net.client.inComingSeqNo + 1 &&
            |net.sentByClient| <= MAX_MESSAGES
  {
    NewAtClient(net);
    var ev, m, c := ClientStores(net), net.server.lastMsgSent, net.client;
    assert |net.sentByClient| <= MAX_MESSAGES && (c.lastMsgSent.IsPureAck() || c.lastMsgSent.msgSeqNo != |net.sentByClient|);
    hide Inv, Poll, NewMsg, FalselyAcks, Seen;
    RoomMeansSound(c, m, ev.transmitting);
    SeenKeeps(c, m);
    NewIsAcked(c, m, ev.transmitting);
  }

  lemma ClientGetsNew(net: Net)
    requires IsNewAtClient(net)
    ensures Allowed(net, ClientStores(net))
    ensures var r, m := Step(net, ClientStores(net)), net.server.lastMsgSent;
            r.server == net.server && r.toClient == [] && |r.toServer| == 1 && r.toServer[0].IsAckFor(m) &&
            r.client.rxBuf.bytes == net.client.rxBuf.bytes + m.body && r.client.inComingSeqNo == net.client.inComingSeqNo + 1 &&
            r.sentByServer == net.sentByServer
  {
    ClientPollsNew(net);
    hide Inv, Poll, FalselyAcks, Observed;
    var a := Poll(net.client, Input(ClientStores(net), net.toClient));
    assert [] + a.sent == a.sent;
  }

  /** And with the sides exchanged. */
  lemma {:induction false} ServerMessageRepaired(net: Net)
    requires ServerWaits(net) && net.client.inComingSeqNo == |net.sentByServer|
    requires net.client.rxBuf.Room() >= |net.server.lastMsgSent.body|
    requires net.client.waitingForAck ==> net.client.retriesCount < net.client.noOfRetries
    ensures var events, m := [RESENDS_SERVER, ClientStores(net), SERVER_GETS], net.server.lastMsgSent;
            AllowedRun(net, events) &&
            var r := Run(net, events);
            !r.server.waitingForAck && r.client.inComingSeqNo == net.client.inComingSeqNo + 1 && r.sentByServer == net.sentByServer &&
            r.client.rxBuf.bytes == net.client.rxBuf.bytes + m.body
  {
    ServerResent(net);
    var sent := Step(net, RESENDS_SERVER);
    StepKeeps(net, RESENDS_SERVER);
    hide Inv, Step, Allowed;
    assert ClientStores(sent) == ClientStores(net);
    ClientGetsNew(sent);
    StepKeeps(sent, ClientStores(sent));
    var stored := Step(sent, ClientStores(sent));
    ServerTakes(stored);
    RunsThree(net, RESENDS_SERVER, ClientStores(net), SERVER_GETS);
  }
}
