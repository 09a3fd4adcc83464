/** A run in which a message is acknowledged and lost. */
module RadioExample {
  import opened Bytes
  import opened Buffers
  import opened RadioMessages
  import opened RadioNodes
  import opened RadioLink
  import opened RadioInvariant
  import opened RadioGuarantees
  import opened RadioRepair
  import opened Radio

  const CLIENT: Byte := 2
  const SERVER: Byte := 1
  const RETRIES: nat := 5

  /** The longest messages of a usual driver. */
  const MAX_LEN: nat := 251

  function Start(): Net {
    NewNet(NewClient(CLIENT, SERVER, RETRIES, MAX_LEN), NewServer(SERVER, RETRIES, MAX_LEN))
  }

  lemma {:induction false} RunJoins(net: Net, a: seq<Event>, b: seq<Event>)
    requires AllowedRun(net, a) && AllowedRun(Run(net, a), b)
    ensures AllowedRun(net, a + b) && Run(net, a + b) == Run(Run(net, a), b)
    decreases |a|
  {
    hide Step, AcksUnstored;
    if a == [] {
      assert a + b == b;
    } else {
      assert (a + b)[1..] == a[1..] + b && (a + b)[0] == a[0];
      RunJoins(Step(net, a[0]), a[1..], b);
    }
  }

  lemma RunsOne(net: Net, ev: Event)
    requires Allowed(net, ev)
    ensures AllowedRun(net, [ev]) && Run(net, [ev]) == Step(net, ev)
  {
    hide Step, AcksUnstored;
    assert [ev][1..] == [];
  }

  function Writing(bytes: seq<Byte>): seq<Event> {
    seq(|bytes|, i requires 0 <= i < |bytes| => ClientWrites(bytes[i]))
  }

  function Written(net: Net, bytes: seq<Byte>): Net {
    net.(client := net.client.(txBuf := Buffer(net.client.txBuf.bytes + bytes, net.client.txBuf.capacity)),
         writtenByClient := net.writtenByClient + bytes)
  }

  lemma {:induction false} ClientWritesAll(net: Net, bytes: seq<Byte>)
    requires |bytes| <= net.client.txBuf.Room() && (net.writtenByClient == [] && bytes != [] ==> bytes[0] != 0)
    ensures AllowedRun(net, Writing(bytes)) && Run(net, Writing(bytes)) == Written(net, bytes)
    decreases |bytes|
  {
    if bytes == [] {
      assert Written(net, bytes) == net;
    } else {
      ClientWritesOne(net, bytes[0]);
      WrittenTogether(net, bytes);
      hide Step, AcksUnstored, Written;
      ClientWritesAll(Written(net, [bytes[0]]), bytes[1..]);
      assert Writing(bytes)[1..] == Writing(bytes[1..]);
    }
  }

  lemma ClientWritesOne(net: Net, b: Byte)
    requires net.client.txBuf.Room() > 0 && (net.writtenByClient == [] ==> b != 0)
    ensures var next := Written(net, [b]);
            Allowed(net, ClientWrites(b)) && Step(net, ClientWrites(b)) == next &&
            next.client.txBuf.Room() == net.client.txBuf.Room() - 1 && next.writtenByClient != []
  {
  }

  lemma WrittenTogether(net: Net, bytes: seq<Byte>)
    requires bytes != []
    ensures Written(Written(net, [bytes[0]]), bytes[1..]) == Written(net, bytes)
  {
    assert net.client.txBuf.bytes + [bytes[0]] + bytes[1..] == net.client.txBuf.bytes + bytes;
    assert net.writtenByClient + [bytes[0]] + bytes[1..] == net.writtenByClient + bytes;
  }

  /** Two messages of a client that do not fit into the server's receive buffer together, behind the marker. */
  predicate TooLong(first: seq<Byte>, second: seq<Byte>) {
    0 < |first| <= MAX_LEN && 0 < |second| <= MAX_LEN && first[0] != 0 && 1 + |first| + |second| > BUFFER_SIZE_256
  }

  // ---- the steps of the run ----

  /** A client that has sent its first message. */
  function Requested(first: seq<Byte>): Net {
    var m, s := Msg(SERVER, CLIENT, 0, 0, first), Start();
    s.(client := s.client.(waitingForAck := true, outGoingSeqNo := 1, inComingSeqNo := 1, connectionClosed := false, lastMsgSent := m),
       toServer := [m], sentByClient := [first], writtenByClient := first)
  }

  /** The server has stored it and acknowledged it. */
  function Connected(first: seq<Byte>): Net {
    var s, ack := Requested(first), PureAck(CLIENT, SERVER, 0);
    s.(server := s.server.(targetAddress := CLIENT, inComingSeqNo := 1, connectionClosed := false, newConnection := true,
                           linkTimerRunning := true, receivedMsg := Msg(SERVER, CLIENT, 0, 0, first), lastMsgSent := ack,
                           rxBuf := Buffer([CONNECTION_MARKER] + first, BUFFER_SIZE_256)),
       toServer := [], toClient := [ack])
  }

  /** The client has got the acknowledgement. */
  function Acknowledged(first: seq<Byte>): Net {
    var s := Connected(first);
    s.(client := s.client.(waitingForAck := false, receivedMsg := PureAck(CLIENT, SERVER, 0)), toClient := [])
  }

  /** The client has sent its second message. */
  function Sent(first: seq<Byte>, second: seq<Byte>): Net {
    var m, s := Msg(SERVER, CLIENT, 1, 0, second), Acknowledged(first);
    s.(client := s.client.(waitingForAck := true, outGoingSeqNo := 2, lastMsgSent := m),
       toServer := [m], sentByClient := [first, second], writtenByClient := first + second)
  }

  /** The server's program has written a byte. */
  function Waiting(first: seq<Byte>, second: seq<Byte>, b: Byte): Net {
    var s := Sent(first, second);
    s.(server := s.server.(txBuf := Buffer([b], BUFFER_SIZE_1024)), writtenByServer := [b])
  }

  const POLLS: Event := ClientPoll(false, false, false, true)
  const CLIENT_GETS: Event := ClientPoll(true, false, false, false)
  const SERVER_GETS: Event := ServerPoll(true, false, false, false)

  lemma RequestSent(first: seq<Byte>)
    requires 0 < |first| <= MAX_LEN && first[0] != 0
    ensures Allowed(Written(Start(), first), POLLS) && Step(Written(Start(), first), POLLS) == Requested(first)
  {
    assert first[..|first|] == first && first[|first|..] == [] && [] + first == first;
  }

  lemma RequestStored(first: seq<Byte>)
    requires 0 < |first| <= MAX_LEN && first[0] != 0
    ensures Allowed(Requested(first), SERVER_GETS) && Step(Requested(first), SERVER_GETS) == Connected(first)
  {
    assert first[..|first|] == first;
  }

  lemma AckReceived(first: seq<Byte>)
    requires 0 < |first| <= MAX_LEN && first[0] != 0
    ensures Allowed(Connected(first), CLIENT_GETS) && Step(Connected(first), CLIENT_GETS) == Acknowledged(first)
  {
    assert [0 as Byte][..1] == [0];
  }

  lemma SecondSent(first: seq<Byte>, second: seq<Byte>)
    requires 0 < |first| <= MAX_LEN && 0 < |second| <= MAX_LEN && first[0] != 0
    ensures var s := Written(Acknowledged(first), second);
            Allowed(s, POLLS) && Step(s, POLLS) == Sent(first, second)
  {
    assert second[..|second|] == second && second[|second|..] == [] && [] + second == second;
  }

  lemma ByteWritten(first: seq<Byte>, second: seq<Byte>, b: Byte)
    ensures var s := Sent(first, second);
            Allowed(s, ServerWrites(b)) && Step(s, ServerWrites(b)) == Waiting(first, second, b)
  {
    assert [] + [b] == [b];
  }

  // ---- the run ----

  /** The client's first message and its acknowledgement, its second message, and one byte from the server's program. */
  function Events(first: seq<Byte>, second: seq<Byte>, b: Byte): seq<Event> {
    Writing(first) + [POLLS] + [SERVER_GETS] + [CLIENT_GETS] + (Writing(second) + [POLLS] + [ServerWrites(b)])
  }

  lemma RunJoinsOne(net: Net, a: seq<Event>, ev: Event)
    requires AllowedRun(net, a) && Allowed(Run(net, a), ev)
    ensures AllowedRun(net, a + [ev]) && Run(net, a + [ev]) == Step(Run(net, a), ev)
  {
    RunsOne(Run(net, a), ev);
    RunJoins(net, a, [ev]);
  }

  lemma FirstPart(first: seq<Byte>)
    requires 0 < |first| <= MAX_LEN && first[0] != 0
    ensures var events := Writing(first) + [POLLS] + [SERVER_GETS] + [CLIENT_GETS];
            AllowedRun(Start(), events) && Run(Start(), events) == Acknowledged(first)
  {
    ClientWritesAll(Start(), first);
    RequestSent(first);
    RequestStored(first);
    AckReceived(first);
    hide Step, Allowed, Run, AllowedRun, Requested, Connected, Acknowledged, Written, Start, Writing;
    RunJoinsOne(Start(), Writing(first), POLLS);
    RunJoinsOne(Start(), Writing(first) + [POLLS], SERVER_GETS);
    RunJoinsOne(Start(), Writing(first) + [POLLS] + [SERVER_GETS], CLIENT_GETS);
  }

  lemma SecondPart(first: seq<Byte>, second: seq<Byte>, b: Byte)
    requires 0 < |first| <= MAX_LEN && 0 < |second| <= MAX_LEN && first[0] != 0
    ensures var events := Writing(second) + [POLLS] + [ServerWrites(b)];
            AllowedRun(Acknowledged(first), events) && Run(Acknowledged(first), events) == Waiting(first, second, b)
  {
    ClientWritesAll(Acknowledged(first), second);
    SecondSent(first, second);
    ByteWritten(first, second, b);
    hide Step, Allowed, Run, AllowedRun, Acknowledged, Sent, Waiting, Written, Writing;
    RunJoinsOne(Acknowledged(first), Writing(second), POLLS);
    RunJoinsOne(Acknowledged(first), Writing(second) + [POLLS], ServerWrites(b));
  }

  /** What the next poll of the server leaves: its message acknowledges message 1, and nothing has been stored. */
  function Lost(first: seq<Byte>, second: seq<Byte>, b: Byte): Net {
    var m, s := Msg(CLIENT, SERVER, 1, 1, [b]), Waiting(first, second, b);
    s.(server := s.server.(waitingForAck := true, outGoingSeqNo := 2, lastMsgSent := m, txBuf := Buffer([], BUFFER_SIZE_1024),
                           receivedMsg := Msg(SERVER, CLIENT, 1, 0, second), linkTimerRunning := false),
       toServer := [], toClient := [m], sentByServer := [[b]], fromRaw := [false])
  }

  const SERVER_GETS_AND_SENDS: Event := ServerPoll(true, false, false, true)

  lemma SecondLost(first: seq<Byte>, second: seq<Byte>, b: Byte)
    requires TooLong(first, second)
    ensures var s := Waiting(first, second, b);
            WithinLimits(s, SERVER_GETS_AND_SENDS) && AcksUnstored(s, SERVER_GETS_AND_SENDS) &&
            Step(s, SERVER_GETS_AND_SENDS) == Lost(first, second, b)
  {
    assert second[..|second|] == second && [b][..1] == [b] && [b][1..] == [];
  }

  /** The client takes the acknowledgement: it goes on with number 2, and the server expects number 1. */
  lemma ClientGoesOn(first: seq<Byte>, second: seq<Byte>, b: Byte)
    requires TooLong(first, second)
    ensures var s := Step(Lost(first, second, b), CLIENT_GETS);
            !s.client.waitingForAck && s.client.outGoingSeqNo == 2 && s.server.inComingSeqNo == 1
  {
    assert [b][..1] == [b];
  }

  /** From two nodes as they are set up, with buffers as they are in the source: any two messages that do not fit into the
      server's receive buffer together, and a byte the server writes. All that happens is allowed, and the next poll of the
      server acknowledges the second message and stores nothing; the client does not send that message again. */
  lemma FalseAckReached(first: seq<Byte>, second: seq<Byte>, b: Byte)
    requires TooLong(first, second)
    ensures AllowedRun(Start(), Events(first, second, b))
    ensures var s := Run(Start(), Events(first, second, b));
            WithinLimits(s, SERVER_GETS_AND_SENDS) && AcksUnstored(s, SERVER_GETS_AND_SENDS) &&
            var lost := Step(s, SERVER_GETS_AND_SENDS);
            lost.toClient == [Msg(CLIENT, SERVER, 1, 1, [b])] && lost.server.rxBuf == s.server.rxBuf && lost.server.inComingSeqNo == 1 &&
            var after := Step(lost, CLIENT_GETS);
            !after.client.waitingForAck && after.client.outGoingSeqNo == 2 && after.server.inComingSeqNo == 1
  {
    FirstPart(first);
    SecondPart(first, second, b);
    RunJoins(Start(), Writing(first) + [POLLS] + [SERVER_GETS] + [CLIENT_GETS], Writing(second) + [POLLS] + [ServerWrites(b)]);
    SecondLost(first, second, b);
    ClientGoesOn(first, second, b);
    hide Step, Run, AllowedRun, WithinLimits, AcksUnstored, Writing;
  }

  // ---- one lost message that is not made good ----

  /** Both sides have written a byte. */
  function BothWrite(first: seq<Byte>, x: Byte, y: Byte): Net {
    var s := Acknowledged(first);
    s.(client := s.client.(txBuf := Buffer([x], BUFFER_SIZE_256)), writtenByClient := first + [x],
       server := s.server.(txBuf := Buffer([y], BUFFER_SIZE_1024)), writtenByServer := [y])
  }

  function ClientMsg(x: Byte, acked: Byte): Msg {
    Msg(SERVER, CLIENT, 1, acked, [x])
  }

  function ServerMsg(n: Byte, y: Byte, acked: Byte): Msg {
    Msg(CLIENT, SERVER, n, acked, [y])
  }

  /** Both have sent it, and the messages cross. */
  function Crossing(first: seq<Byte>, x: Byte, y: Byte): Net {
    var s := BothWrite(first, x, y);
    s.(client := s.client.(waitingForAck := true, outGoingSeqNo := 2, lastMsgSent := ClientMsg(x, 0), txBuf := Buffer([], BUFFER_SIZE_256)),
       server := s.server.(waitingForAck := true, outGoingSeqNo := 2, lastMsgSent := ServerMsg(1, y, 0), txBuf := Buffer([], BUFFER_SIZE_1024)),
       toServer := [ClientMsg(x, 0)], toClient := [ServerMsg(1, y, 0)], sentByClient := [first, [x]], sentByServer := [[y]], fromRaw := [false])
  }

  /** Both have stored what arrived, and wait. */
  function BothWait(first: seq<Byte>, x: Byte, y: Byte): Net {
    var s := Crossing(first, x, y);
    s.(server := s.server.(receivedMsg := ClientMsg(x, 0), linkTimerRunning := false, inComingSeqNo := 2, lastMsgSent := ServerMsg(1, y, 1),
                           rxBuf := Buffer([CONNECTION_MARKER] + first + [x], BUFFER_SIZE_256)),
       client := s.client.(receivedMsg := ServerMsg(1, y, 0), inComingSeqNo := 2, lastMsgSent := ClientMsg(x, 1), rxBuf := Buffer([y], BUFFER_SIZE_1024)),
       toServer := [], toClient := [])
  }

  /** The client has timed out; the server has got its message again and sent its own last message in return. */
  function Answered(first: seq<Byte>, x: Byte, y: Byte, z: Byte): Net {
    var s := BothWait(first, x, y);
    s.(client := s.client.(retriesCount := 1),
       server := s.server.(receivedMsg := ClientMsg(x, 1), waitingForAck := false, txBuf := Buffer([z], BUFFER_SIZE_1024)),
       writtenByServer := [y, z], toClient := [ServerMsg(1, y, 1)])
  }

  /** The server has sent its next message, and the one before it is lost. */
  function Sticking(first: seq<Byte>, x: Byte, y: Byte, z: Byte): Net {
    var s := Answered(first, x, y, z);
    s.(server := s.server.(waitingForAck := true, outGoingSeqNo := 3, lastMsgSent := ServerMsg(2, z, 0), txBuf := Buffer([], BUFFER_SIZE_1024)),
       toClient := [ServerMsg(2, z, 0)], sentByServer := [[y], [z]], fromRaw := [false, false])
  }

  const SERVER_POLLS: Event := ServerPoll(false, false, false, true)
  const CLIENT_RESENDS: Event := ClientPoll(false, false, true, false)
  const SERVER_GETS_AND_TRANSMITS: Event := ServerPoll(true, true, false, false)

  predicate Leads(net: Net, ev: Event, next: Net) {
    Allowed(net, ev) && Step(net, ev) == next
  }

  /** The client has sent its message, the server not yet. */
  function ClientFirst(first: seq<Byte>, x: Byte, y: Byte): Net {
    var s, n := BothWrite(first, x, y), Crossing(first, x, y);
    s.(client := n.client, toServer := n.toServer, sentByClient := n.sentByClient)
  }

  /** The server has got the client's message, the client not yet the server's. */
  function ServerFirst(first: seq<Byte>, x: Byte, y: Byte): Net {
    Crossing(first, x, y).(server := BothWait(first, x, y).server, toServer := [])
  }

  function Resent(first: seq<Byte>, x: Byte, y: Byte): Net {
    var s := BothWait(first, x, y);
    s.(client := s.client.(retriesCount := 1), toServer := [ClientMsg(x, 1)])
  }

  /** The two last messages of the server are on their way. */
  function TwoSent(first: seq<Byte>, x: Byte, y: Byte, z: Byte): Net {
    Sticking(first, x, y, z).(toClient := [ServerMsg(1, y, 1), ServerMsg(2, z, 0)])
  }

  lemma BothWritten(first: seq<Byte>, x: Byte, y: Byte)
    ensures var s := Acknowledged(first);
            var next := s.(client := s.client.(txBuf := Buffer([x], BUFFER_SIZE_256)), writtenByClient := first + [x]);
            (first != [] ==> Leads(s, ClientWrites(x), next)) && Leads(next, ServerWrites(y), BothWrite(first, x, y))
  {
    assert [] + [x] == [x] && [] + [y] == [y];
  }

  lemma ClientSent(first: seq<Byte>, x: Byte, y: Byte)
    ensures Leads(BothWrite(first, x, y), POLLS, ClientFirst(first, x, y))
  {
    assert [x][..1] == [x] && [x][1..] == [] && [first] + [[x]] == [first, [x]];
  }

  lemma ServerSent(first: seq<Byte>, x: Byte, y: Byte)
    ensures Leads(ClientFirst(first, x, y), SERVER_POLLS, Crossing(first, x, y))
  {
    assert [y][..1] == [y] && [y][1..] == [];
  }

  lemma ServerStored(first: seq<Byte>, x: Byte, y: Byte)
    requires |first| <= MAX_LEN
    ensures Leads(Crossing(first, x, y), SERVER_GETS, ServerFirst(first, x, y))
  {
    assert [x][..1] == [x];
  }

  lemma ClientStored(first: seq<Byte>, x: Byte, y: Byte)
    ensures Leads(ServerFirst(first, x, y), CLIENT_GETS, BothWait(first, x, y))
  {
    assert [y][..1] == [y] && [] + [y] == [y];
  }

  lemma ClientTimesOut(first: seq<Byte>, x: Byte, y: Byte)
    ensures Leads(BothWait(first, x, y), CLIENT_RESENDS, Resent(first, x, y))
  {
  }

  /** The server's program has written its next byte. */
  function NextWritten(first: seq<Byte>, x: Byte, y: Byte, z: Byte): Net {
    var s := Resent(first, x, y);
    s.(server := s.server.(txBuf := Buffer([z], BUFFER_SIZE_1024)), writtenByServer := [y, z])
  }

  lemma NextByte(first: seq<Byte>, x: Byte, y: Byte, z: Byte)
    ensures Leads(Resent(first, x, y), ServerWrites(z), NextWritten(first, x, y, z))
  {
    assert [] + [z] == [z] && [y] + [z] == [y, z];
  }

  lemma ServerGoesOn(first: seq<Byte>, x: Byte, y: Byte, z: Byte)
    ensures Leads(NextWritten(first, x, y, z), SERVER_GETS_AND_TRANSMITS, Answered(first, x, y, z))
  {
    assert [x][..1] == [x];
  }

  lemma NextSent(first: seq<Byte>, x: Byte, y: Byte, z: Byte)
    ensures Leads(Answered(first, x, y, z), SERVER_POLLS, TwoSent(first, x, y, z))
  {
    assert [z][..1] == [z] && [z][1..] == [] && [[y]] + [[z]] == [[y], [z]];
  }

  lemma AnswerLost(first: seq<Byte>, x: Byte, y: Byte, z: Byte)
    ensures Leads(TwoSent(first, x, y, z), LoseToClient, Sticking(first, x, y, z))
  {
    var both := [ServerMsg(1, y, 1), ServerMsg(2, z, 0)];
    assert both[1..] == [ServerMsg(2, z, 0)];
  }

  lemma LeadsOn(events: seq<Event>, net: Net, ev: Event, next: Net)
    requires AllowedRun(Start(), events) && Run(Start(), events) == net && Leads(net, ev, next)
    ensures AllowedRun(Start(), events + [ev]) && Run(Start(), events + [ev]) == next
  {
    hide Step, AcksUnstored, Run, AllowedRun, Start;
    RunJoinsOne(Start(), events, ev);
  }

  /** A connection, a byte from either side, and the messages with them cross. */
  function CrossingEvents(first: seq<Byte>, x: Byte, y: Byte): seq<Event> {
    Writing(first) + [POLLS] + [SERVER_GETS] + [CLIENT_GETS] + [ClientWrites(x)] + [ServerWrites(y)] + [POLLS] + [SERVER_POLLS] +
    [SERVER_GETS] + [CLIENT_GETS]
  }

  /** The client resends; the server answers, goes on with its next byte, and the answer is lost. */
  function LosingEvents(first: seq<Byte>, x: Byte, y: Byte, z: Byte): seq<Event> {
    CrossingEvents(first, x, y) + [CLIENT_RESENDS] + [ServerWrites(z)] + [SERVER_GETS_AND_TRANSMITS] + [SERVER_POLLS] + [LoseToClient]
  }

  lemma MessagesCross(first: seq<Byte>, x: Byte, y: Byte)
    requires 0 < |first| <= MAX_LEN && first[0] != 0
    ensures AllowedRun(Start(), CrossingEvents(first, x, y)) && Run(Start(), CrossingEvents(first, x, y)) == BothWait(first, x, y)
  {
    hide Leads, Run, AllowedRun, Start, Acknowledged, BothWrite, ClientFirst, Crossing, ServerFirst, BothWait, Writing;
    FirstPart(first);
    BothWritten(first, x, y);
    var s := Acknowledged(first);
    var next := s.(client := s.client.(txBuf := Buffer([x], BUFFER_SIZE_256)), writtenByClient := first + [x]);
    var e0 := Writing(first) + [POLLS] + [SERVER_GETS] + [CLIENT_GETS];
    var e1 := e0 + [ClientWrites(x)];
    var e2 := e1 + [ServerWrites(y)];
    LeadsOn(e0, s, ClientWrites(x), next);
    LeadsOn(e1, next, ServerWrites(y), BothWrite(first, x, y));
    ClientSent(first, x, y);
    LeadsOn(e2, BothWrite(first, x, y), POLLS, ClientFirst(first, x, y));
    ServerSent(first, x, y);
    LeadsOn(e2 + [POLLS], ClientFirst(first, x, y), SERVER_POLLS, Crossing(first, x, y));
    ServerStored(first, x, y);
    LeadsOn(e2 + [POLLS] + [SERVER_POLLS], Crossing(first, x, y), SERVER_GETS, ServerFirst(first, x, y));
    ClientStored(first, x, y);
    LeadsOn(e2 + [POLLS] + [SERVER_POLLS] + [SERVER_GETS], ServerFirst(first, x, y), CLIENT_GETS, BothWait(first, x, y));
  }

  /** One lost message in a whole run, and the client waits for ever: whatever else happens, it gets no acknowledgement of
      its second message, which the server has stored. */
  lemma OneLossSticks(first: seq<Byte>, x: Byte, y: Byte, z: Byte)
    requires 0 < |first| <= MAX_LEN && first[0] != 0
    ensures AllowedRun(Start(), LosingEvents(first, x, y, z))
    ensures var net := Run(Start(), LosingEvents(first, x, y, z));
            ClientStuck(net) && net.server.rxBuf.bytes == [CONNECTION_MARKER] + first + [x] && !ClientCanGoOn(net)
  {
    MessagesCross(first, x, y);
    Loses(first, x, y, z);
    var net := Run(Start(), LosingEvents(first, x, y, z));
    assert Init(Start());
    InitInv(Start());
    RunKeeps(Start(), LosingEvents(first, x, y, z));
    assert ClientStuck(net) by {
      hide Inv, Run, AllowedRun, LosingEvents;
    }
    hide Run, ClientStuck, Inv, LosingEvents;
    forall events | AllowedRun(net, events) ensures Run(net, events).client.waitingForAck {
      StaysStuck(net, events);
    }
  }

  lemma Loses(first: seq<Byte>, x: Byte, y: Byte, z: Byte)
    requires AllowedRun(Start(), CrossingEvents(first, x, y)) && Run(Start(), CrossingEvents(first, x, y)) == BothWait(first, x, y)
    ensures AllowedRun(Start(), LosingEvents(first, x, y, z)) && Run(Start(), LosingEvents(first, x, y, z)) == Sticking(first, x, y, z)
  {
    hide Leads, Run, AllowedRun, Start, BothWait, Resent, NextWritten, Answered, TwoSent, Sticking, CrossingEvents;
    var e0 := CrossingEvents(first, x, y);
    var e1 := e0 + [CLIENT_RESENDS];
    var e2 := e1 + [ServerWrites(z)];
    var e3 := e2 + [SERVER_GETS_AND_TRANSMITS];
    ClientTimesOut(first, x, y);
    LeadsOn(e0, BothWait(first, x, y), CLIENT_RESENDS, Resent(first, x, y));
    NextByte(first, x, y, z);
    LeadsOn(e1, Resent(first, x, y), ServerWrites(z), NextWritten(first, x, y, z));
    ServerGoesOn(first, x, y, z);
    LeadsOn(e2, NextWritten(first, x, y, z), SERVER_GETS_AND_TRANSMITS, Answered(first, x, y, z));
    NextSent(first, x, y, z);
    LeadsOn(e3, Answered(first, x, y, z), SERVER_POLLS, TwoSent(first, x, y, z));
    AnswerLost(first, x, y, z);
    LeadsOn(e3 + [SERVER_POLLS], TwoSent(first, x, y, z), LoseToClient, Sticking(first, x, y, z));
  }
}
