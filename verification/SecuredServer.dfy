/** The gate and the challenges together: who is authorised, and that nothing is accepted twice. */
module SecuredServer {
  import opened Bytes
  import opened Buffers
  import opened CommandParser
  import opened CommandGate
  import opened CommandGateProof
  import M = Challenges
  import Hex
  import F = Framing

  datatype Server = Server(gate: Gate, mac: M.Mac)

  /** The power comes on and the program connects; it connects again; a byte is read, in a call that would make a challenge
      at this time; the connection has been idle too long; the program writes a byte. */
  datatype Happening = PowerOn | Connects | Reads(b: Byte, elapsed: M.LongWord, random: Byte) | Waits | Puts(b: Byte)

  function Connect(g: Gate): (r: Gate)
    requires g.Valid()
    ensures r.Valid()
  {
    SetAuthorizeState(InitGate(g.(failedHash := false)), AuthorizingStart)
  }

  function NewGate(p: Parser): (g: Gate)
    requires p.Valid() && p.ignoreSeqNum
    ensures g.Valid()
  {
    Gate(false, AuthorizingStart, Init(p), [], false, [], [], 0, 0, false, false, F.Waiting)
  }

  /** Whether a byte completes a request for a challenge. */
  predicate Asks(show: Shown, g: Gate, b: Byte)
    requires g.Valid()
  {
    var read := ReadByte(show, g, b);
    read.1 == AUTHORIZING_CMD && read.0.authorizing.AuthorizingStart? && IsBareCommand(read.0.parser)
  }

  /** What a call that reads a byte does to the gate. A hash object without power cycles left ends the connection. */
  function Meets(show: Shown, s: Server, b: Byte, elapsed: M.LongWord, random: Byte): (ev: Event)
    requires s.gate.Valid()
    ensures ev.Arrives? <==> s.mac.IsValid()
  {
    if !s.mac.IsValid() then MacInvalid
    else if Asks(show, s.gate, b) && M.Count(s.mac, 0).1 then Arrives(b, Some(M.ChallengeOf(M.Count(s.mac, 0).0, elapsed, random)))
    else Arrives(b, None)
  }

  function Next(show: Shown, s: Server, ev: Happening): (r: Server)
    requires s.gate.Valid()
    ensures r.gate.Valid()
  {
    match ev
    case PowerOn => Server(NewGate(s.gate.parser), M.PowerUp(s.mac, true, 0))
    case Connects => s.(gate := Connect(s.gate))
    case Waits => s.(gate := Step(show, s.gate, IdleTimeout).0)
    case Puts(b) => s.(gate := Step(show, s.gate, Writes(b)).0)
    case Reads(b, elapsed, random) =>
      Server(Step(show, s.gate, Meets(show, s, b, elapsed, random)).0,
             if s.mac.IsValid() && Asks(show, s.gate, b) then M.Count(s.mac, 0).0 else s.mac)
  }

  function RunServer(show: Shown, s: Server, events: seq<Happening>): (r: Server)
    requires s.gate.Valid()
    ensures r.gate.Valid()
    decreases |events|
  {
    if events == [] then s else RunServer(show, Next(show, s, events[0]), events[1..])
  }

  // ---- what keeps ----

  /** The challenge of the gate is the last one the hash object has made. */
  predicate IsCurrent(s: Server) {
    |s.gate.challenge| == M.CHALLENGE_BYTE_SIZE && M.Power(s.gate.challenge) == s.mac.powerCycles > s.mac.stored &&
    M.Counter(s.gate.challenge) == s.mac.connectionCounter
  }

  /** While an answer is awaited the hash object shows the hash of the challenge. Without power cycles none is awaited. */
  predicate Ready(s: Server) {
    Counting(s.gate) && M.InUse(s.mac) && (s.gate.authorizing.Success? ==> IsCurrent(s)) &&
    (s.gate.authorizing.SentChallenge? && s.mac.IsValid() ==> IsCurrent(s) && s.gate.log == Finished(s.gate.challenge))
  }

  /** The message that the byte completes is a challenge's answer with the right hash. */
  predicate Answers(show: Shown, g: Gate, b: Byte)
    requires g.Valid()
  {
    g.authorizing.SentChallenge? && Parse(g.parser, b).1 == AUTHORIZING_CMD && Parsed(g, b).Valid() && AnswersChallenge(show, Parsed(g, b))
  }

  /** What a byte does to the authorisation. */
  predicate Authorises(show: Shown, g: Gate, b: Byte, made: Option<seq<Byte>>, r: Gate)
    requires g.Valid()
  {
    if Asks(show, g, b) then
      r.authorizing.SentChallenge? &&
      (made.Some? ==> r.challenge == made.value && r.log == Finished(made.value))
    else
      r.challenge == g.challenge && (r.authorizing.SentChallenge? ==> g.authorizing.SentChallenge? && r.log == g.log) &&
      (r.authorizing.Success? ==> g.authorizing.Success? || Answers(show, g, b))
  }

  lemma FinishAuthorises(show: Shown, g: Gate, cmd: Byte, made: Option<seq<Byte>>)
    requires g.Valid() && !g.noPassword
    ensures var r := Finish(show, g, cmd, made).0;
            if cmd == AUTHORIZING_CMD && g.authorizing.AuthorizingStart? && IsBareCommand(g.parser) then
              r.authorizing.SentChallenge? && (made.Some? ==> r.challenge == made.value && r.log == Finished(made.value))
            else
              r.challenge == g.challenge && (r.authorizing.SentChallenge? ==> g.authorizing.SentChallenge? && r.log == g.log) &&
              (r.authorizing.Success? ==> g.authorizing.Success? || (g.authorizing.SentChallenge? && cmd == AUTHORIZING_CMD && AnswersChallenge(show, g)))
  {
    hide IsBareCommand, AnswersChallenge, UpToNull, SetCmd, Init, Finished;
  }

  lemma ReadAuthorises(show: Shown, g: Gate, b: Byte)
    requires Counting(g)
    ensures var r := ReadByte(show, g, b).0;
            !r.noPassword && r.challenge == g.challenge && (r.authorizing.SentChallenge? ==> g.authorizing.SentChallenge? && r.log == g.log) &&
            (r.authorizing.Success? ==> g.authorizing.Success?) &&
            (r.authorizing.SentChallenge? ==> (b != END_OF_FILE ==> ReadByte(show, g, b) == (Parsed(g, b), Parse(g.parser, b).1)) &&
                                              (b == END_OF_FILE ==> ReadByte(show, g, b).1 == DISCONNECT_NOW))
  {
    if g.authorizing.Success? {
      ReadStaysAuthorised(show, g, b);
    } else {
      ParseKeepsIgnoring(g.parser, b);
      hide Parse, HashByte, CollectDigit;
    }
  }

  lemma ReadStaysAuthorised(show: Shown, g: Gate, b: Byte)
    requires Counting(g) && g.authorizing.Success?
    ensures var r := ReadByte(show, g, b).0; !r.noPassword && r.challenge == g.challenge && !r.authorizing.SentChallenge?
  {
    if b != END_OF_FILE && !g.collecting {
      ParseKeepsIgnoring(g.parser, b);
      HashStaysAuthorised(Parsed(g, b), b, Parse(g.parser, b).1);
      ReadsMessageByte(show, g, b);
      hide ReadByte, Parse, HashByte;
    } else {
      hide Parse, HashByte, Hex.HexBytes, F.FirstFour;
    }
  }

  lemma HashStaysAuthorised(g: Gate, b: Byte, cmd: Byte)
    requires g.Valid() && !g.noPassword && g.authorizing.Success?
    ensures var r := HashByte(g, b, cmd).0; !r.noPassword && r.challenge == g.challenge && !r.authorizing.SentChallenge?
  {
    hide IsBareCommand, SetCmd, Init, Finished, Fed, F.Long;
  }

  lemma ByteAuthorises(show: Shown, g: Gate, b: Byte, made: Option<seq<Byte>>)
    requires Counting(g)
    ensures Authorises(show, g, b, made, Step(show, g, Arrives(b, made)).0)
  {
    ReadAuthorises(show, g, b);
    var read := ReadByte(show, g, b);
    hide ReadByte, Finish, Parse, AnswersChallenge, IsBareCommand, Counting;
    FinishAuthorises(show, read.0, read.1, made);
  }

  /** The other events never authorise. */
  lemma OthersAuthorise(show: Shown, g: Gate, ev: Event)
    requires Counting(g) && !ev.Arrives?
    ensures var r := Step(show, g, ev).0;
            r.challenge == g.challenge && (r.authorizing.SentChallenge? ==> g.authorizing.SentChallenge? && r.log == g.log) &&
            (r.authorizing.Success? ==> g.authorizing.Success?)
  {
    if ev.Writes? {
      WriteIs(show, g, ev.b);
      hide Write, LogAfter;
    } else {
      hide SetCmd, Init;
    }
  }

  lemma NewIsCounting(g: Gate)
    requires g.Valid() && !g.noPassword
    ensures Counting(Connect(g)) && Connect(g).authorizing.AuthorizingStart? && Connect(g).inMsgCount == 0
    ensures Counting(NewGate(g.parser)) && NewGate(g.parser).authorizing.AuthorizingStart?
  {
    hide Init;
  }

  lemma MadeIsCurrent(m: M.Mac, elapsed: M.LongWord, random: Byte)
    requires M.InUse(m) && m.IsValid()
    ensures var c := M.Count(m, 0);
            M.InUse(c.0) && c.0.IsValid() == c.1 && c.0.stored <= m.stored &&
            (c.0.powerCycles <= m.stored || (c.0.powerCycles == m.powerCycles && c.0.connectionCounter > m.connectionCounter) || !c.1) &&
            (c.1 ==> M.Power(M.ChallengeOf(c.0, elapsed, random)) == c.0.powerCycles > c.0.stored &&
                     M.Counter(M.ChallengeOf(c.0, elapsed, random)) == c.0.connectionCounter)
  {
    M.PowerAndCounter(M.Count(m, 0).0, elapsed, random);
    hide M.ChallengeOf, M.Power, M.Counter;
  }

  /** Every happening keeps the invariant, and the gate becomes authorised only by the right answer to its challenge. */
  lemma {:induction false} NextKeeps(show: Shown, s: Server, ev: Happening)
    requires Ready(s)
    ensures Ready(Next(show, s, ev))
    ensures Next(show, s, ev).gate.authorizing.Success? && !s.gate.authorizing.Success? ==>
              ev.Reads? && IsCurrent(s) && s.gate.log == Finished(s.gate.challenge) && Answers(show, s.gate, ev.b)
  {
    match ev
    case PowerOn =>
      NewIsCounting(s.gate);
      hide NewGate, Counting;
    case Connects =>
      NewIsCounting(s.gate);
      hide Connect, Counting;
    case Waits =>
      StepCounts(show, s.gate, IdleTimeout);
      OthersAuthorise(show, s.gate, IdleTimeout);
      hide Step, Counting, Accepts, Finished, M.Power, M.Counter;
    case Puts(b) =>
      StepCounts(show, s.gate, Writes(b));
      OthersAuthorise(show, s.gate, Writes(b));
      hide Step, Counting, Accepts, Finished, M.Power, M.Counter;
    case Reads(b, elapsed, random) =>
      ReadKeeps(show, s, b, elapsed, random);
  }

  lemma ReadKeeps(show: Shown, s: Server, b: Byte, elapsed: M.LongWord, random: Byte)
    requires Ready(s)
    ensures Ready(Next(show, s, Reads(b, elapsed, random)))
    ensures Next(show, s, Reads(b, elapsed, random)).gate.authorizing.Success? && !s.gate.authorizing.Success? ==>
              s.mac.IsValid() && Answers(show, s.gate, b)
  {
    var gev := Meets(show, s, b, elapsed, random);
    StepCounts(show, s.gate, gev);
    if s.mac.IsValid() {
      ByteAuthorises(show, s.gate, b, gev.made);
      MadeIsCurrent(s.mac, elapsed, random);
    } else {
      OthersAuthorise(show, s.gate, gev);
    }
    hide Step, Counting, Accepts, Asks, Answers, Finished, M.Count, M.Power, M.Counter, M.ChallengeOf;
  }

  // ---- nothing is accepted twice ----

  /** The challenge and the count with which an event accepts a message. */
  function Accepted(show: Shown, s: Server, ev: Happening): seq<(seq<Byte>, nat)> {
    if ev.Reads? && s.mac.IsValid() && Accepts(show, s.gate, Arrives(ev.b, None)) then [(s.gate.challenge, s.gate.inMsgCount)] else []
  }

  function AllAccepted(show: Shown, s: Server, events: seq<Happening>): seq<(seq<Byte>, nat)>
    requires s.gate.Valid()
    decreases |events|
  {
    if events == [] then [] else Accepted(show, s, events[0]) + AllAccepted(show, Next(show, s, events[0]), events[1..])
  }

  /** No connection accepts more messages than can be counted. */
  predicate NeverWraps(show: Shown, s: Server, events: seq<Happening>)
    requires s.gate.Valid()
    decreases |events|
  {
    events != [] ==>
      (Accepted(show, s, events[0]) != [] ==> s.gate.inMsgCount + 1 < F.COUNTS) && NeverWraps(show, Next(show, s, events[0]), events[1..])
  }

  /** What may still be accepted: under a challenge to come, or under the present one with a count that has not been used. */
  predicate Ahead(s: Server, p: (seq<Byte>, nat)) {
    |p.0| == M.CHALLENGE_BYTE_SIZE &&
    (M.Later(s.mac, p.0) ||
     (M.Power(p.0) == s.mac.powerCycles > s.mac.stored && M.Counter(p.0) == s.mac.connectionCounter &&
      (s.gate.authorizing.SentChallenge? || (s.gate.authorizing.Success? && p.1 >= s.gate.inMsgCount))))
  }

  /** What is accepted after an event could have been accepted before it. */
  lemma {:induction false} AheadBefore(show: Shown, s: Server, ev: Happening, p: (seq<Byte>, nat))
    requires Ready(s) && Ahead(Next(show, s, ev), p) && (Accepted(show, s, ev) != [] ==> s.gate.inMsgCount + 1 < F.COUNTS)
    ensures Ahead(s, p)
  {
    match ev
    case PowerOn =>
      NewIsCounting(s.gate);
      hide NewGate, Counting, M.Power, M.Counter;
    case Connects =>
      NewIsCounting(s.gate);
      hide Connect, Counting, M.Power, M.Counter;
    case Waits =>
      GateAhead(show, s, IdleTimeout, p);
    case Puts(b) =>
      GateAhead(show, s, Writes(b), p);
    case Reads(b, elapsed, random) =>
      var gev := Meets(show, s, b, elapsed, random);
      if !s.mac.IsValid() {
        GateAhead(show, s, MacInvalid, p);
      } else if Asks(show, s.gate, b) {
        AskingAhead(s.mac, p.0);
        ByteAuthorises(show, s.gate, b, gev.made);
        hide Step, Counting, Asks, M.Count, M.Power, M.Counter, M.ChallengeOf;
      } else {
        ReadingAhead(show, s, b, p);
      }
  }

  lemma AskingAhead(m: M.Mac, c: seq<Byte>)
    requires M.InUse(m) && m.IsValid() && |c| == M.CHALLENGE_BYTE_SIZE
    ensures var n := M.Count(m, 0).0;
            M.Later(n, c) || (M.Power(c) == n.powerCycles > n.stored && M.Counter(c) == n.connectionCounter) ==> M.Later(m, c)
  {
    hide M.Power, M.Counter;
  }

  lemma GateAhead(show: Shown, s: Server, gev: Event, p: (seq<Byte>, nat))
    requires Ready(s) && !gev.Arrives? && Ahead(s.(gate := Step(show, s.gate, gev).0), p)
    ensures Ahead(s, p)
  {
    StepCounts(show, s.gate, gev);
    OthersAuthorise(show, s.gate, gev);
    NotCollecting(show, s.gate, gev);
    DisconnectedIsClosed(show, s.gate, gev);
    hide Step, Counting, Accepts, M.Power, M.Counter, M.Later;
  }

  lemma DisconnectedIsClosed(show: Shown, g: Gate, ev: Event)
    requires Counting(g) && !ev.Arrives?
    ensures var r := Step(show, g, ev); r.1 == DISCONNECT_NOW ==> r.0.authorizing.NotAuthorizing?
  {
    if ev.Writes? {
      hide Write;
    } else {
      hide SetCmd, Init;
    }
  }

  lemma ReadingAhead(show: Shown, s: Server, b: Byte, p: (seq<Byte>, nat))
    requires Ready(s) && !Asks(show, s.gate, b) && Ahead(s.(gate := Step(show, s.gate, Arrives(b, None)).0), p)
    requires Accepts(show, s.gate, Arrives(b, None)) ==> s.gate.inMsgCount + 1 < F.COUNTS
    ensures Ahead(s, p)
    ensures Accepts(show, s.gate, Arrives(b, None)) ==> M.Later(s.mac, p.0) || p.1 > s.gate.inMsgCount
  {
    var ev := Arrives(b, None);
    StepCounts(show, s.gate, ev);
    ByteAuthorises(show, s.gate, b, None);
    EndedIsClosed(show, s.gate, b);
    AcceptingIsOpen(show, s.gate, ev);
    hide Step, Counting, Accepts, Asks, Answers, Finished, M.Power, M.Counter, M.Later;
  }

  lemma EndedIsClosed(show: Shown, g: Gate, b: Byte)
    requires Counting(g)
    ensures var r := Step(show, g, Arrives(b, None)); r.1 == DISCONNECT_NOW ==> r.0.authorizing.NotAuthorizing?
  {
    ReadAuthorises(show, g, b);
    hide ReadByte, Finish, Parsed, Parse;
    var read := ReadByte(show, g, b);
    FinishCloses(show, read.0, read.1);
  }

  lemma FinishCloses(show: Shown, g: Gate, cmd: Byte)
    requires g.Valid() && !g.noPassword
    ensures var r := Finish(show, g, cmd, None); r.1 == DISCONNECT_NOW ==> r.0.authorizing.NotAuthorizing?
  {
    hide SetCmd, Init, IsBareCommand, AnswersChallenge, UpToNull;
  }

  lemma AcceptingIsOpen(show: Shown, g: Gate, ev: Event)
    requires Counting(g)
    ensures Accepts(show, g, ev) ==> g.authorizing.Success?
  {
    hide Hex.HexBytes, F.FirstFour;
  }

  predicate Differ(p: (seq<Byte>, nat), q: (seq<Byte>, nat)) {
    M.Front(p.0) != M.Front(q.0) || p.1 != q.1
  }

  predicate AllDiffer(ps: seq<(seq<Byte>, nat)>) {
    forall i, j :: 0 <= i < j < |ps| ==> Differ(ps[i], ps[j])
  }

  lemma LaterDiffers(s: Server, p: (seq<Byte>, nat))
    requires Ready(s) && IsCurrent(s) && |p.0| == M.CHALLENGE_BYTE_SIZE && M.Later(s.mac, p.0)
    ensures M.Front(s.gate.challenge) != M.Front(p.0)
  {
    M.FrontsDiffer(s.gate.challenge, p.0);
    hide M.Power, M.Counter, Counting;
  }

  /** What is accepted was ahead, and is so no longer. */
  lemma AcceptedIsUsed(show: Shown, s: Server, ev: Happening, p: (seq<Byte>, nat))
    requires Ready(s) && Accepted(show, s, ev) != [] && s.gate.inMsgCount + 1 < F.COUNTS
    ensures Ahead(s, Accepted(show, s, ev)[0])
    ensures Ahead(Next(show, s, ev), p) ==> Differ(Accepted(show, s, ev)[0], p)
  {
    AcceptingIsOpen(show, s.gate, Arrives(ev.b, None));
    AcceptingAsksNothing(show, s.gate, ev.b);
    if Ahead(Next(show, s, ev), p) {
      ReadingAhead(show, s, ev.b, p);
      hide Step, Counting, Accepts, Asks, M.Power, M.Counter, M.Later;
      if M.Later(s.mac, p.0) {
        LaterDiffers(s, p);
      }
    }
  }

  lemma AcceptingAsksNothing(show: Shown, g: Gate, b: Byte)
    requires g.Valid() && Accepts(show, g, Arrives(b, None)) && g.authorizing.Success?
    ensures !Asks(show, g, b)
  {
    hide Hex.HexBytes, F.FirstFour, IsBareCommand;
  }

  lemma {:induction false} AllAcceptedAhead(show: Shown, s: Server, events: seq<Happening>)
    requires Ready(s) && NeverWraps(show, s, events)
    ensures forall p :: p in AllAccepted(show, s, events) ==> Ahead(s, p)
    decreases |events|
  {
    assert s.gate.Valid();
    hide Next, Ready, Ahead, Accepted;
    if events != [] {
      var ev, next := events[0], Next(show, s, events[0]);
      NextKeeps(show, s, ev);
      AllAcceptedAhead(show, next, events[1..]);
      var first, rest := Accepted(show, s, ev), AllAccepted(show, next, events[1..]);
      AtMostOneAccepted(show, s, ev);
      forall p | p in first + rest ensures Ahead(s, p) {
        if p in rest {
          AheadBefore(show, s, ev, p);
        } else {
          AcceptedIsUsed(show, s, ev, p);
        }
      }
    }
  }

  lemma AtMostOneAccepted(show: Shown, s: Server, ev: Happening)
    ensures |Accepted(show, s, ev)| <= 1
  {
    hide Accepts;
  }

  /** Over any sequence of power-ups, connections and bytes in both directions, with EEPROM and a key, no two messages are
      accepted under challenges that agree in their first four bytes and with the same count. */
  lemma {:induction false} NeverAcceptedTwice(show: Shown, s: Server, events: seq<Happening>)
    requires Ready(s) && NeverWraps(show, s, events)
    ensures AllDiffer(AllAccepted(show, s, events))
    decreases |events|
  {
    assert s.gate.Valid();
    hide Next, Ready, Ahead, Accepted, Differ;
    if events != [] {
      var ev, next := events[0], Next(show, s, events[0]);
      NextKeeps(show, s, ev);
      NeverAcceptedTwice(show, next, events[1..]);
      AllAcceptedAhead(show, next, events[1..]);
      AtMostOneAccepted(show, s, ev);
      var first, rest := Accepted(show, s, ev), AllAccepted(show, next, events[1..]);
      if first != [] {
        forall p | p in rest ensures Differ(first[0], p) {
          AcceptedIsUsed(show, s, ev, p);
        }
        assert first == [first[0]];
        OneMoreDiffers(first[0], rest);
      } else {
        assert first + rest == rest;
      }
    }
  }

  lemma OneMoreDiffers(p: (seq<Byte>, nat), rest: seq<(seq<Byte>, nat)>)
    requires AllDiffer(rest) && forall q :: q in rest ==> Differ(p, q)
    ensures AllDiffer([p] + rest)
  {
    hide Differ;
  }

  // ---- from the first power-up ----

  /** The server once the power is on, whatever the EEPROM holds. */
  function Started(p: Parser, stored: M.Word): (s: Server)
    requires p.Valid() && p.ignoreSeqNum
    ensures s.gate.Valid()
  {
    Server(NewGate(p), M.PowerUp(M.Mac(stored, 0, 0, false, false, false), true, 0))
  }

  lemma StartedIsReady(p: Parser, stored: M.Word)
    requires p.Valid() && p.ignoreSeqNum
    ensures Ready(Started(p, stored))
  {
    hide Init;
  }

  lemma {:induction false} RunIsReady(show: Shown, s: Server, events: seq<Happening>)
    requires Ready(s)
    ensures Ready(RunServer(show, s, events))
    decreases |events|
  {
    assert s.gate.Valid();
    hide Next, Ready;
    if events != [] {
      NextKeeps(show, s, events[0]);
      RunIsReady(show, Next(show, s, events[0]), events[1..]);
    }
  }

  /** In every run from the first power-up the server is authorised only by a byte that completes an answer with the hash
      of the challenge which it has made last. */
  lemma AuthorisedByAnswer(show: Shown, p: Parser, stored: M.Word, events: seq<Happening>, ev: Happening)
    requires p.Valid() && p.ignoreSeqNum
    ensures var s := RunServer(show, Started(p, stored), events);
            Next(show, s, ev).gate.authorizing.Success? && !s.gate.authorizing.Success? ==>
              ev.Reads? && IsCurrent(s) && s.gate.log == Finished(s.gate.challenge) && Answers(show, s.gate, ev.b)
  {
    hide Ready, Next, IsCurrent, Answers, RunServer, Started;
    StartedIsReady(p, stored);
    RunIsReady(show, Started(p, stored), events);
    NextKeeps(show, RunServer(show, Started(p, stored), events), ev);
  }
}
