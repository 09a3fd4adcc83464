/** What the gate makes of a whole message: exactly when it authorises, returns a command or ends the connection. */
module GateMessages {
  import opened Bytes
  import opened Buffers
  import opened CommandParser
  import opened CommandGate
  import opened CommandGateProof
  import opened CommandGateLimits
  import E = CommandGateExample
  import PR = ParserRecovery
  import Hex
  import F = Framing

  /** Bytes arrive; what the last of them returns. */
  function After(show: Shown, g: Gate, bytes: seq<Byte>, made: Option<seq<Byte>>): (r: (Gate, Byte))
    requires g.Valid() && bytes != []
    ensures r.0.Valid()
  {
    Step(show, Run(show, g, Reading(bytes[..|bytes| - 1], made)), Arrives(bytes[|bytes| - 1], made))
  }

  /** Nothing is returned on the way. */
  predicate Quiet(show: Shown, g: Gate, events: seq<Event>)
    requires g.Valid()
    decreases |events|
  {
    events != [] ==> Step(show, g, events[0]).1 == 0 && Quiet(show, Step(show, g, events[0]).0, events[1..])
  }

  lemma {:induction false} QuietAppend(show: Shown, g: Gate, a: seq<Event>, b: seq<Event>)
    requires g.Valid() && Quiet(show, g, a) && Quiet(show, Run(show, g, a), b)
    ensures Quiet(show, g, a + b)
    decreases |a|
  {
    hide Step;
    if a == [] {
      assert a + b == b;
    } else {
      assert (a + b)[1..] == a[1..] + b;
      QuietAppend(show, Step(show, g, a[0]).0, a[1..], b);
    }
  }

  lemma AfterOne(show: Shown, g: Gate, front: seq<Byte>, b: Byte, made: Option<seq<Byte>>)
    requires g.Valid()
    ensures After(show, g, front + [b], made) == Step(show, Run(show, g, Reading(front, made)), Arrives(b, made))
  {
    hide Step, Run;
    assert (front + [b])[..|front + [b]| - 1] == front;
  }

  // ---- the end of a connection ----

  /** The connection has ended: the gate is as a new one, and the parser shows the command that ended it. */
  predicate Ended(g: Gate, r: Gate) {
    r.Valid() && r.authorizing == (if g.noPassword then Success else NotAuthorizing) && !r.collecting && r.digits == [] &&
    r.inMsgCount == r.outMsgCount == 0 && !r.rawEnabled && r.place == F.Waiting && !InMessage(r.parser.state) &&
    UpToNull(r.parser.args[r.parser.cmdStart..]) == [DISCONNECT_NOW] && r.parser.argsCount == 0 &&
    r.noPassword == g.noPassword && r.challenge == g.challenge
  }

  lemma SetCmdHolds(p: Parser, cmd: Byte)
    requires p.Valid() && cmd != 0
    ensures var r := SetCmd(p, cmd); r.state.WaitingForStart? && UpToNull(r.args[r.cmdStart..]) == [cmd] && r.argsCount == 0 && r.ignoreSeqNum == p.ignoreSeqNum
  {
    var r := SetCmd(p, cmd);
    var s := r.args[r.cmdStart..];
    assert s[0] == cmd && s[1] == 0;
    assert UpToNull(s[1..]) == [];
    assert UpToNull(s) == [cmd] + UpToNull(s[1..]);
  }

  lemma DisconnectEnds(g: Gate)
    requires g.Valid()
    ensures Ended(g, Disconnect(g)) && Disconnect(g).failedHash == g.failedHash
  {
    SetCmdHolds(InitGate(g).parser, DISCONNECT_NOW);
    hide SetCmd, UpToNull;
  }

  lemma FinishEnds(show: Shown, g: Gate, made: Option<seq<Byte>>)
    requires g.Valid()
    ensures var r := Finish(show, g, DISCONNECT_NOW, made); r.1 == DISCONNECT_NOW && Ended(g, r.0) && r.0.failedHash == g.failedHash
  {
    DisconnectEnds(SetAuthorizeState(g, NotAuthorizing));
    hide Disconnect, UpToNull;
  }

  /** Whatever was under way, an idle connection, an invalid hash object and the byte that ends a connection leave the gate
      of a new one. */
  lemma EndsAfresh(show: Shown, g: Gate, ev: Event)
    requires g.Valid() && (ev.IdleTimeout? || ev.MacInvalid? || (ev.Arrives? && ev.b == END_OF_FILE))
    ensures var r := Step(show, g, ev); r.1 == DISCONNECT_NOW && Ended(g, r.0) && r.0.failedHash == g.failedHash
  {
    FinishEnds(show, g, if ev.Arrives? then ev.made else None);
    hide Finish, Ended;
  }

  // ---- the bytes of a message ----

  lemma {:induction false} StaysIn(p: Parser, bytes: seq<Byte>)
    requires p.Valid() && InMessage(p.state) && END !in bytes && END_OF_FILE !in bytes && p.idx + |bytes| <= PFOD_MAX_MSG_LEN - 2
    ensures var q := ParseAll(p, bytes); InMessage(q.state) && q.idx <= p.idx + |bytes|
    decreases |bytes|
  {
    if bytes != [] {
      assert bytes[0] in bytes && forall b :: b in bytes[1..] ==> b in bytes;
      ByteStaysIn(p, bytes[0]);
      hide Parse;
      StaysIn(Parse(p, bytes[0]).0, bytes[1..]);
    }
  }

  lemma ByteStaysIn(p: Parser, b: Byte)
    requires p.Valid() && InMessage(p.state) && b != END && b != END_OF_FILE && p.idx < PFOD_MAX_MSG_LEN - 2
    ensures var q := Parse(p, b); InMessage(q.0.state) && q.0.idx <= p.idx + 1 && q.1 == 0
  {
  }

  lemma {:induction false} InsideBytes(show: Shown, g: Gate, bytes: seq<Byte>)
    requires Reads(g) && END !in bytes && END_OF_FILE !in bytes && g.parser.idx + |bytes| <= PFOD_MAX_MSG_LEN - 2
    ensures var r, events := g.(parser := ParseAll(g.parser, bytes), log := g.log + Fed(bytes)), Reading(bytes, None);
            Reads(r) && Run(show, g, events) == r && Quiet(show, g, events)
    decreases |bytes|
  {
    ParseNothing(g.parser);
    hide Step, Parse, Fed, ParseAll;
    if bytes == [] {
      assert Fed([]) == [] && g.log + [] == g.log;
    } else {
      assert bytes[0] in bytes && forall b :: b in bytes[1..] ==> b in bytes;
      ByteStaysIn(g.parser, bytes[0]);
      BodyArrives(show, g, bytes[0]);
      var next := Parsed(g, bytes[0]).(log := g.log + Fed([bytes[0]]));
      InsideBytes(show, next, bytes[1..]);
      FedTogether(g.log, bytes);
      ParseFirst(g.parser, bytes);
      assert Reading(bytes, None)[1..] == Reading(bytes[1..], None);
    }
  }

  lemma ParseFirst(p: Parser, bytes: seq<Byte>)
    requires p.Valid() && bytes != []
    ensures ParseAll(p, bytes) == ParseAll(Parse(p, bytes[0]).0, bytes[1..])
  {
    hide Parse;
  }

  lemma FedTogether(log: Log, bytes: seq<Byte>)
    requires bytes != []
    ensures log + Fed([bytes[0]]) + Fed(bytes[1..]) == log + Fed(bytes)
  {
  }

  lemma FrontIsPlain(o: PR.Opening, fields: seq<seq<Byte>>, separators: seq<Byte>)
    requires PR.Proper(o, fields, separators)
    ensures var front := PR.Message(o, fields, separators);
            front != [] && front[0] == START && front[1..] == o.Bytes() + PR.Joined(fields, separators) && END !in front && END_OF_FILE !in front &&
            END !in o.Bytes() && END_OF_FILE !in o.Bytes() &&
            END !in PR.Joined(fields, separators) && END_OF_FILE !in PR.Joined(fields, separators)
  {
    JoinedIsPlain(fields, separators);
    var joined := PR.Joined(fields, separators);
    assert [START] + o.Bytes() + joined == [START] + (o.Bytes() + joined);
    hide PR.Joined;
  }

  lemma {:induction false} JoinedIsPlain(fields: seq<seq<Byte>>, separators: seq<Byte>)
    requires fields != [] && |separators| == |fields| - 1
    requires (forall f :: f in fields ==> PR.IsField(f)) && (forall b :: b in separators ==> IsSeparator(b))
    ensures END !in PR.Joined(fields, separators) && END_OF_FILE !in PR.Joined(fields, separators)
    decreases |fields|
  {
    assert fields[0] in fields;
    if |fields| > 1 {
      assert separators[0] in separators;
      assert forall f :: f in fields[1..] ==> f in fields;
      assert forall b :: b in separators[1..] ==> b in separators;
      JoinedIsPlain(fields[1..], separators[1..]);
    }
  }

  /** The parser at the start of a message and behind its opening. */
  lemma OpeningStaysIn(p: Parser, o: PR.Opening, fields: seq<seq<Byte>>, separators: seq<Byte>)
    requires p.Valid() && !InMessage(p.state) && PR.Proper(o, fields, separators)
    ensures var started := Parse(p, START).0;
            started.state.MsgStarted? && started.idx == 0 && |o.Bytes()| <= PFOD_MAX_MSG_LEN - 2 &&
            ParseAll(started, o.Bytes()).idx + |PR.Joined(fields, separators)| <= PFOD_MAX_MSG_LEN - 2
  {
    PR.FewFields(fields, separators);
    PR.OpeningRead(p, o);
    PR.StartRead(p);
    PR.ParseAllOne(p, START, o.Bytes());
    hide Parse, ParseAll, PR.Joined;
  }

  lemma TwoPartsInside(show: Shown, g: Gate, a: seq<Byte>, b: seq<Byte>)
    requires Reads(g) && END !in a && END_OF_FILE !in a && g.parser.idx + |a| <= PFOD_MAX_MSG_LEN - 2
    requires END !in b && END_OF_FILE !in b && ParseAll(g.parser, a).idx + |b| <= PFOD_MAX_MSG_LEN - 2
    ensures var r := g.(parser := ParseAll(g.parser, a + b), log := g.log + Fed(a) + Fed(b));
            Reads(r) && Run(show, g, Reading(a + b, None)) == r && Quiet(show, g, Reading(a + b, None))
  {
    hide Step, Run, ParseAll, Fed;
    InsideBytes(show, g, a);
    InsideBytes(show, g.(parser := ParseAll(g.parser, a), log := g.log + Fed(a)), b);
    PR.ParseAllAppend(g.parser, a, b);
    ReadingAppend(a, b, None);
    RunAppend(show, g, Reading(a, None), Reading(b, None));
    QuietAppend(show, g, Reading(a, None), Reading(b, None));
  }

  lemma StartsWith(show: Shown, g: Gate, started: Gate, bytes: seq<Byte>)
    requires g.Valid() && started.Valid() && Step(show, g, Arrives(START, None)) == (started, 0)
    requires bytes != [] && bytes[0] == START && Quiet(show, started, Reading(bytes[1..], None))
    ensures Run(show, g, Reading(bytes, None)) == Run(show, started, Reading(bytes[1..], None)) && Quiet(show, g, Reading(bytes, None))
  {
    hide Step;
    assert Reading(bytes, None)[1..] == Reading(bytes[1..], None);
  }

  /** The bytes of a message but the last one. */
  lemma {:induction false} FrontArrives(show: Shown, g: Gate, o: PR.Opening, fields: seq<seq<Byte>>, separators: seq<Byte>)
    requires E.Idle(g, Success) && PR.Proper(o, fields, separators)
    ensures var front := PR.Message(o, fields, separators);
            var r := g.(parser := ParseAll(g.parser, front), log := Fed(front));
            Reads(r) && Run(show, g, Reading(front, None)) == r && Quiet(show, g, Reading(front, None))
  {
    var front, opening, joined := PR.Message(o, fields, separators), o.Bytes(), PR.Joined(fields, separators);
    FrontIsPlain(o, fields, separators);
    OpeningStaysIn(g.parser, o, fields, separators);
    E.StartArrives(show, g);
    var started := Parsed(g, START).(log := Fed([START]));
    hide Step, Run, Quiet, Parse, ParseAll, Fed, PR.Message, PR.Joined, PR.Proper, E.Idle;
    TwoPartsInside(show, started, opening, joined);
    StartsWith(show, g, started, front);
    ParseFirst(g.parser, front);
    FedThree(front, opening, joined);
  }

  lemma FedThree(front: seq<Byte>, a: seq<Byte>, b: seq<Byte>)
    requires front != [] && front[1..] == a + b
    ensures Fed([front[0]]) + Fed(a) + Fed(b) == Fed(front)
  {
  }

  /** What the parser holds at the end of a message. */
  lemma {:induction false} MessageYields(p: Parser, o: PR.Opening, fields: seq<seq<Byte>>, separators: seq<Byte>)
    requires p.Valid() && p.ignoreSeqNum && !InMessage(p.state) && PR.Proper(o, fields, separators)
    ensures var front := PR.Message(o, fields, separators);
            var q := Parse(ParseAll(p, front), END);
            q.0 == ParseAll(p, front + [END]) && fields[0] != [] && q.1 == fields[0][0] == q.0.args[q.0.cmdStart] && q.0.ignoreSeqNum &&
            PR.Yields(q.0, fields) && UpToNull(q.0.args[q.0.cmdStart..]) == fields[0] && q.0.argsCount == |fields| - 1
  {
    var front := PR.Message(o, fields, separators);
    hide Parse, ParseAll, PR.Message, PR.Proper;
    PR.Recovery(p, o, fields, separators);
    var q := Parse(ParseAll(p, front), END);
    assert PR.NotRepeated(p);
    ParseOneMore(p, front, END);
    E.UpToNullIs(q.0.args, q.0.cmdStart);
    hide UpToNull;
    assert q.0.args[q.0.cmdStart..NullFrom(q.0.args, q.0.cmdStart)] == fields[0];
  }

  // ---- with a password, once authorised ----

  /** The request for a challenge. */
  predicate IsRequest(fields: seq<seq<Byte>>) {
    fields == [[AUTHORIZING_CMD]]
  }

  lemma BareIsRequest(q: Parser, fields: seq<seq<Byte>>)
    requires q.Valid() && fields != [] && UpToNull(q.args[q.cmdStart..]) == fields[0] && q.argsCount == |fields| - 1
    requires fields[0] != [] && fields[0][0] == AUTHORIZING_CMD
    ensures IsBareCommand(q) <==> IsRequest(fields)
  {
    hide UpToNull;
    if |fields[0]| == 1 && |fields| == 1 {
      assert fields[0] == [AUTHORIZING_CMD] && fields == [fields[0]];
    }
  }

  lemma CanEnd(p: Parser, fields: seq<seq<Byte>>)
    requires p.Valid() && InMessage(p.state) && fields != [] && fields[0] != []
    requires var q := Parse(p, END); UpToNull(q.0.args[q.0.cmdStart..]) == fields[0] && q.0.argsCount == |fields| - 1 && q.1 == fields[0][0]
    ensures EndsAccepted(p) <==> fields[0][0] != DISCONNECT_NOW && !IsRequest(fields)
  {
    var q := Parse(p, END);
    hide Parse, UpToNull, IsBareCommand, IsRequest;
    if q.1 == AUTHORIZING_CMD {
      BareIsRequest(q.0, fields);
    } else {
      OtherIsNoRequest(fields);
    }
  }

  lemma OtherIsNoRequest(fields: seq<seq<Byte>>)
    requires fields != [] && fields[0] != [] && fields[0][0] != AUTHORIZING_CMD
    ensures !IsRequest(fields)
  {
  }

  /** The gate behind a message whose digits are awaited. */
  function Awaiting(g: Gate, msg: seq<Byte>): Gate
    requires g.Valid()
  {
    g.(parser := ParseAll(g.parser, msg), collecting := true, digits := [], log := Finished(msg + F.Long(g.inMsgCount) + g.challenge))
  }

  lemma {:induction false} MessageWaits(show: Shown, g: Gate, o: PR.Opening, fields: seq<seq<Byte>>, separators: seq<Byte>)
    requires E.Idle(g, Success) && PR.Proper(o, fields, separators)
    requires fields[0] != [] ==> fields[0][0] != DISCONNECT_NOW && !IsRequest(fields)
    ensures var msg := PR.Message(o, fields, separators) + [END];
            var r := Awaiting(g, msg);
            fields[0] != [] && Collects(r) && CommandOf(r) == fields[0][0] && PR.Yields(r.parser, fields) &&
            (IsBareCommand(r.parser) && CommandOf(r) == AUTHORIZING_CMD ==> IsRequest(fields)) &&
            Run(show, g, Reading(msg, None)) == r && Quiet(show, g, Reading(msg, None))
  {
    var front := PR.Message(o, fields, separators);
    FrontArrives(show, g, o, fields, separators);
    MessageYields(g.parser, o, fields, separators);
    var read := g.(parser := ParseAll(g.parser, front), log := Fed(front));
    hide Step, Parse, ParseAll, Run, Quiet, Fed, Finished, F.Long, PR.Message, PR.Proper, PR.Yields, UpToNull, IsRequest, IsBareCommand;
    CanEnd(read.parser, fields);
    EndArrives(show, read);
    E.RunThenOne(show, g, front, END, None);
    QuietThenOne(show, g, front, END, None);
    FedToEnd(front, F.Long(g.inMsgCount) + g.challenge);
    assert front + [END] + F.Long(g.inMsgCount) + g.challenge == front + [END] + (F.Long(g.inMsgCount) + g.challenge);
    var q := Parse(ParseAll(g.parser, front), END).0;
    if fields[0][0] == AUTHORIZING_CMD {
      BareIsRequest(q, fields);
    }
  }

  lemma QuietThenOne(show: Shown, g: Gate, bytes: seq<Byte>, b: Byte, made: Option<seq<Byte>>)
    requires g.Valid() && Quiet(show, g, Reading(bytes, made)) && Step(show, Run(show, g, Reading(bytes, made)), Arrives(b, made)).1 == 0
    ensures Quiet(show, g, Reading(bytes + [b], made))
  {
    hide Step;
    ReadingAppend(bytes, [b], made);
    assert Reading([b], made) == [Arrives(b, made)] && [Arrives(b, made)][1..] == [];
    QuietAppend(show, g, Reading(bytes, made), Reading([b], made));
  }

  lemma FedToEnd(front: seq<Byte>, rest: seq<Byte>)
    ensures Fed(front) + Fed([END]) + Finished(rest) == Finished(front + [END] + rest)
  {
  }

  /** The last of eight digits. */
  lemma DigitMatches(show: Shown, g: Gate, b: Byte)
    requires Collects(g) && |g.digits| + 1 == F.MSG_HASH_SIZE && b != END_OF_FILE
    requires CommandOf(g) != 0 && CommandOf(g) != DISCONNECT_NOW && !(CommandOf(g) == AUTHORIZING_CMD && IsBareCommand(g.parser))
    requires Hex.HexBytes(g.digits + [b], F.MSG_HASH_BYTE_SIZE) == F.FirstFour(show(g.log))
    ensures var r := Step(show, g, Arrives(b, None));
            if CommandOf(g) != AUTHORIZING_CMD then
              r == (g.(digits := [], collecting := false, inMsgCount := F.NextCount(g.inMsgCount), rawEnabled := true), CommandOf(g))
            else r.1 == DISCONNECT_NOW && Ended(g, r.0) && r.0.failedHash == g.failedHash
  {
    DisconnectEnds(SetAuthorizeState(g.(digits := [], collecting := false, inMsgCount := F.NextCount(g.inMsgCount)), NotAuthorizing));
    hide Disconnect, UpToNull, AnswersChallenge, IsBareCommand, Hex.HexBytes, F.FirstFour;
  }

  lemma DigitFails(show: Shown, g: Gate, b: Byte)
    requires Collects(g) && |g.digits| + 1 == F.MSG_HASH_SIZE && b != END_OF_FILE
    requires Hex.HexBytes(g.digits + [b], F.MSG_HASH_BYTE_SIZE) != F.FirstFour(show(g.log))
    ensures var r := Step(show, g, Arrives(b, None)); r.1 == DISCONNECT_NOW && Ended(g, r.0) && r.0.failedHash
  {
    FinishEnds(show, g.(digits := [], collecting := false, failedHash := true), None);
    hide Finish, UpToNull, Hex.HexBytes, F.FirstFour;
  }

  /** The message and all its digits but the last. */
  lemma DigitsBehind(show: Shown, g: Gate, msg: seq<Byte>, front: seq<Byte>, last: Byte)
    requires g.Valid() && Collects(Awaiting(g, msg)) && |front| < F.MSG_HASH_SIZE && END_OF_FILE !in front
    requires Run(show, g, Reading(msg, None)) == Awaiting(g, msg) && Quiet(show, g, Reading(msg, None))
    ensures var almost := Awaiting(g, msg).(digits := front);
            Collects(almost) && After(show, g, msg + front + [last], None) == Step(show, almost, Arrives(last, None)) &&
            Quiet(show, g, Reading(msg + front, None))
  {
    hide Step, Run, Quiet, ParseAll, Finished, F.Long, After;
    var waiting := Awaiting(g, msg);
    assert waiting.digits + front == front;
    DigitsArrive(show, waiting, front);
    DigitsQuiet(show, waiting, front);
    ReadingAppend(msg, front, None);
    RunAppend(show, g, Reading(msg, None), Reading(front, None));
    QuietAppend(show, g, Reading(msg, None), Reading(front, None));
    AfterOne(show, g, msg + front, last, None);
  }

  /** Eight bytes give the hash of the message, its count and the challenge. */
  predicate Matches(show: Shown, g: Gate, msg: seq<Byte>, d: seq<Byte>) {
    Hex.HexBytes(d, F.MSG_HASH_BYTE_SIZE) == Tag(show, msg, g.inMsgCount, g.challenge)
  }

  /** Either the command is returned, the count goes on and raw data is allowed, or the connection ends; a wrong hash is
      remembered. A command that starts like a request is never returned. */
  predicate Decides(g: Gate, r: (Gate, Byte), cmd: Byte, matches: bool) {
    if matches && cmd != AUTHORIZING_CMD then
      r.1 == cmd &&
      r.0 == g.(parser := r.0.parser, log := r.0.log, digits := [], inMsgCount := (g.inMsgCount + 1) % F.COUNTS, rawEnabled := true)
    else r.1 == DISCONNECT_NOW && Ended(g, r.0) && r.0.failedHash == (g.failedHash || !matches)
  }

  lemma LastDecides(show: Shown, g: Gate, msg: seq<Byte>, front: seq<Byte>, last: Byte)
    requires g.Valid() && !g.collecting && Collects(Awaiting(g, msg)) && |front| + 1 == F.MSG_HASH_SIZE && last != END_OF_FILE
    requires var cmd := CommandOf(Awaiting(g, msg));
             cmd != 0 && cmd != DISCONNECT_NOW && !(cmd == AUTHORIZING_CMD && IsBareCommand(Awaiting(g, msg).parser))
    ensures var r := Step(show, Awaiting(g, msg).(digits := front), Arrives(last, None));
            Decides(g, r, CommandOf(Awaiting(g, msg)), Matches(show, g, msg, front + [last])) &&
            (r.1 != DISCONNECT_NOW ==> r.0.parser == Awaiting(g, msg).parser)
  {
    var almost := Awaiting(g, msg).(digits := front);
    hide Step, ParseAll, Finished, F.Long, IsBareCommand, Ended, Hex.HexBytes, F.FirstFour;
    AlikeEnds(g, almost, Step(show, almost, Arrives(last, None)).0);
    if Matches(show, g, msg, front + [last]) {
      DigitMatches(show, almost, last);
    } else {
      DigitFails(show, almost, last);
    }
  }

  lemma DigitsDecide(show: Shown, g: Gate, msg: seq<Byte>, d: seq<Byte>)
    requires g.Valid() && Collects(Awaiting(g, msg)) && |d| == F.MSG_HASH_SIZE && END_OF_FILE !in d
    requires Run(show, g, Reading(msg, None)) == Awaiting(g, msg) && Quiet(show, g, Reading(msg, None))
    requires var cmd := CommandOf(Awaiting(g, msg));
             cmd != 0 && cmd != DISCONNECT_NOW && !(cmd == AUTHORIZING_CMD && IsBareCommand(Awaiting(g, msg).parser))
    requires !g.collecting
    ensures var r := After(show, g, msg + d, None);
            Quiet(show, g, Reading((msg + d)[..|msg + d| - 1], None)) &&
            Decides(g, r, CommandOf(Awaiting(g, msg)), Matches(show, g, msg, d)) && (r.1 != DISCONNECT_NOW ==> r.0.parser == Awaiting(g, msg).parser)
  {
    var front, last := d[..|d| - 1], d[|d| - 1];
    LastOfTwo(msg, d);
    hide *;
    DigitsBehind(show, g, msg, front, last);
    LastDecides(show, g, msg, front, last);
  }

  lemma LastOfTwo(msg: seq<Byte>, d: seq<Byte>)
    requires d != []
    ensures var front, last := d[..|d| - 1], d[|d| - 1];
            d == front + [last] && msg + d == msg + front + [last] && (msg + d)[..|msg + d| - 1] == msg + front
  {
  }

  lemma AlikeEnds(g: Gate, h: Gate, r: Gate)
    requires g.noPassword == h.noPassword && g.challenge == h.challenge
    ensures Ended(h, r) ==> Ended(g, r)
  {
    hide UpToNull;
  }

  /** Exactly: behind a message of an authorised connection, any eight bytes. If they give the hash of the message, its count
      and the challenge, and only then, the command is returned with the last of them and the getters give the fields of the
      message; otherwise the connection ends. Nothing is returned before. */
  lemma {:induction false} CommandExactly(show: Shown, g: Gate, o: PR.Opening, fields: seq<seq<Byte>>, separators: seq<Byte>, d: seq<Byte>)
    requires E.Idle(g, Success) && PR.Proper(o, fields, separators)
    requires fields[0] != [] ==> fields[0][0] != DISCONNECT_NOW && !IsRequest(fields)
    requires |d| == F.MSG_HASH_SIZE && END_OF_FILE !in d
    ensures fields[0] != []
    ensures var msg := PR.Message(o, fields, separators) + [END];
            var r := After(show, g, msg + d, None);
            Quiet(show, g, Reading((msg + d)[..|msg + d| - 1], None)) &&
            Decides(g, r, fields[0][0], Matches(show, g, msg, d)) && (r.1 != DISCONNECT_NOW ==> PR.Yields(r.0.parser, fields))
  {
    var msg := PR.Message(o, fields, separators) + [END];
    MessageWaits(show, g, o, fields, separators);
    CommandIsNotNull(o, fields, separators);
    hide *;
    DigitsDecide(show, g, msg, d);
  }

  lemma CommandIsNotNull(o: PR.Opening, fields: seq<seq<Byte>>, separators: seq<Byte>)
    requires PR.Proper(o, fields, separators)
    ensures fields[0] != [] && fields[0][0] != 0
  {
    assert fields[0] in fields && fields[0][0] in fields[0];
  }

  lemma {:induction false} DigitsQuiet(show: Shown, g: Gate, rest: seq<Byte>)
    requires Collects(g) && |g.digits + rest| < F.MSG_HASH_SIZE && END_OF_FILE !in rest
    ensures Quiet(show, g, Reading(rest, None))
    decreases |rest|
  {
    hide Step;
    if rest != [] {
      DigitArrives(show, g, rest[0]);
      var next := g.(digits := g.digits + [rest[0]]);
      assert next.digits + rest[1..] == g.digits + rest;
      assert Reading(rest, None)[1..] == Reading(rest[1..], None);
      DigitsQuiet(show, next, rest[1..]);
    }
  }

  /** The command that ends a connection needs no hash. */
  lemma {:induction false} DisconnectsAtOnce(show: Shown, g: Gate, o: PR.Opening, fields: seq<seq<Byte>>, separators: seq<Byte>)
    requires E.Idle(g, Success) && PR.Proper(o, fields, separators) && fields[0] != [] && fields[0][0] == DISCONNECT_NOW
    ensures var front := PR.Message(o, fields, separators);
            var r := After(show, g, front + [END], None);
            Quiet(show, g, Reading(front, None)) && r.1 == DISCONNECT_NOW && Ended(g, r.0) && r.0.failedHash == g.failedHash
  {
    var front := PR.Message(o, fields, separators);
    FrontArrives(show, g, o, fields, separators);
    MessageYields(g.parser, o, fields, separators);
    var read := g.(parser := ParseAll(g.parser, front), log := Fed(front));
    hide Step, Run, Quiet, ParseAll, Fed, PR.Message, PR.Proper, PR.Yields, Ended, After, UpToNull;
    AfterOne(show, g, front, END, None);
    DisconnectStep(show, read);
    AlikeEnds(g, read, Step(show, read, Arrives(END, None)).0);
  }

  lemma DisconnectStep(show: Shown, g: Gate)
    requires Reads(g) && Parse(g.parser, END).1 == DISCONNECT_NOW
    ensures var r := Step(show, g, Arrives(END, None)); r.1 == DISCONNECT_NOW && Ended(g, r.0) && r.0.failedHash == g.failedHash
  {
    ParseKeepsIgnoring(g.parser, END);
    FinishEnds(show, Parsed(g, END), None);
    hide Parse, Finish, HashByte, Ended;
    AlikeEnds(g, Parsed(g, END), Finish(show, Parsed(g, END), DISCONNECT_NOW, None).0);
  }

  /** A gate that has sent a challenge and otherwise is a new one. */
  predicate Challenged(g: Gate, r: Gate, made: Option<seq<Byte>>) {
    r.Valid() && r.authorizing.SentChallenge? && !r.collecting && r.digits == [] && r.inMsgCount == r.outMsgCount == 0 && !r.rawEnabled &&
    r.place == F.Waiting && !InMessage(r.parser.state) && !r.failedHash && !r.noPassword &&
    r.challenge == (if made.Some? then made.value else g.challenge) && (made.Some? ==> r.log == Finished(made.value))
  }

  /** A request from an authorised connection starts again: a new challenge is sent at once, and counts and output begin
      afresh. */
  lemma {:induction false} RequestsAgain(show: Shown, g: Gate, made: Option<seq<Byte>>)
    requires E.Idle(g, Success)
    ensures var read := Run(show, g, Reading([START, AUTHORIZING_CMD], None));
            var r := Step(show, read, Arrives(END, made)); r.1 == 0 && Challenged(g, r.0, made)
  {
    var fields := [[AUTHORIZING_CMD]];
    assert PR.Joined(fields, []) == [AUTHORIZING_CMD] && [START] + PR.Opening.Plain.Bytes() + [AUTHORIZING_CMD] == [START, AUTHORIZING_CMD];
    assert PR.Proper(PR.Opening.Plain, fields, []);
    FrontArrives(show, g, PR.Opening.Plain, fields, []);
    MessageYields(g.parser, PR.Opening.Plain, fields, []);
    var front := [START, AUTHORIZING_CMD];
    var read := g.(parser := ParseAll(g.parser, front), log := Fed(front));
    hide Step, Run, Quiet, ParseAll, Fed, PR.Proper, PR.Yields, PR.Joined, UpToNull, Finished, Parse, Challenged;
    RequestStep(show, read, made);
    assert Run(show, g, Reading(front, None)) == read;
    SameChallenged(g, read, Step(show, read, Arrives(END, made)).0, made);
  }

  lemma SameChallenged(g: Gate, h: Gate, r: Gate, made: Option<seq<Byte>>)
    requires g.challenge == h.challenge && Challenged(h, r, made)
    ensures Challenged(g, r, made)
  {
  }

  lemma RequestStep(show: Shown, g: Gate, made: Option<seq<Byte>>)
    requires Reads(g)
    requires var q := Parse(g.parser, END); q.1 == AUTHORIZING_CMD && UpToNull(q.0.args[q.0.cmdStart..]) == [AUTHORIZING_CMD] && q.0.argsCount == 0
    ensures var r := Step(show, g, Arrives(END, made)); r.1 == 0 && Challenged(g, r.0, made)
  {
    ParseMoves(g.parser, END);
    ParseKeepsIgnoring(g.parser, END);
    var parsed := Parsed(g, END);
    ReadsMessageByte(show, g, END);
    hide Parse, UpToNull, Finished, Challenged, Reconnect, Finish, ReadByte;
    assert IsBareCommand(parsed.parser);
    assert HashByte(parsed, END, AUTHORIZING_CMD) == (Reconnect(parsed), AUTHORIZING_CMD);
    ReconnectedAsks(show, parsed, made);
    SameChallenged(g, parsed, Finish(show, Reconnect(parsed), AUTHORIZING_CMD, made).0, made);
  }

  lemma ReconnectedAsks(show: Shown, g: Gate, made: Option<seq<Byte>>)
    requires g.Valid() && !g.noPassword
    ensures var r := Finish(show, Reconnect(g), AUTHORIZING_CMD, made); r.1 == 0 && Challenged(g, r.0, made)
  {
    SetCmdHolds(InitGate(g.(failedHash := false)).parser, 1);
    hide SetCmd, UpToNull, AnswersChallenge, Finished;
  }

  // ---- before authorisation ----

  lemma {:induction false} AuthorisingQuiet(show: Shown, g: Gate, bytes: seq<Byte>, made: Option<seq<Byte>>)
    requires g.Valid() && !g.noPassword && !g.collecting && (g.authorizing.AuthorizingStart? || g.authorizing.SentChallenge?)
    requires END !in bytes && END_OF_FILE !in bytes
    ensures Quiet(show, g, Reading(bytes, made))
    decreases |bytes|
  {
    hide Step, Parse;
    if bytes != [] {
      assert bytes[0] in bytes && forall b :: b in bytes[1..] ==> b in bytes;
      E.AuthorisingByte(show, g, bytes[0], made);
      AuthorisingQuiet(show, Parsed(g, bytes[0]), bytes[1..], made);
      assert Reading(bytes, made)[1..] == Reading(bytes[1..], made);
    }
  }

  /** A message that the parser has just taken apart. */
  predicate TakenApart(g: Gate, fields: seq<seq<Byte>>) {
    g.Valid() && fields != [] && fields[0] != [] && fields[0][0] != 0 && PR.Yields(g.parser, fields) &&
    UpToNull(g.parser.args[g.parser.cmdStart..]) == fields[0] && g.parser.argsCount == |fields| - 1
  }

  /** Without a challenge: only the request for one is answered. */
  lemma JudgedAtStart(show: Shown, g: Gate, fields: seq<seq<Byte>>, made: Option<seq<Byte>>)
    requires TakenApart(g, fields) && !g.noPassword && g.authorizing.AuthorizingStart?
    ensures var r := Finish(show, g, fields[0][0], made);
            if IsRequest(fields) then r == (SendChallenge(g, made), 0)
            else r.1 == DISCONNECT_NOW && Ended(g, r.0) && r.0.failedHash == (g.failedHash || fields[0][0] != DISCONNECT_NOW)
  {
    if fields[0][0] == AUTHORIZING_CMD {
      BareIsRequest(g.parser, fields);
    }
    FinishEnds(show, g, made);
    DisconnectEnds(SetAuthorizeState(g.(failedHash := true), NotAuthorizing));
    hide Disconnect, UpToNull, AnswersChallenge, IsBareCommand, PR.Yields;
  }

  /** The answer to a challenge: the request's character and one argument. */
  predicate IsAnswer(fields: seq<seq<Byte>>) {
    |fields| == 2 && fields[0] == [AUTHORIZING_CMD]
  }

  /** With a challenge: only its hash authorises. */
  lemma JudgedAnswer(show: Shown, g: Gate, fields: seq<seq<Byte>>, made: Option<seq<Byte>>)
    requires TakenApart(g, fields) && !g.noPassword && g.authorizing.SentChallenge? && (IsAnswer(fields) ==> 0 !in fields[1])
    ensures var r := Finish(show, g, fields[0][0], made);
            var right := IsAnswer(fields) && Hex.HexBytes(fields[1], CHALLENGE_HASH_BYTE_SIZE) == show(g.log);
            if right then r == (g.(authorizing := Success), 0)
            else r.1 == DISCONNECT_NOW && Ended(g, r.0) && r.0.failedHash == (g.failedHash || IsAnswer(fields))
  {
    if IsAnswer(fields) {
      AnswerIsRead(show, g, fields);
    } else {
      NoAnswer(fields);
    }
    FinishEnds(show, g, made);
    DisconnectEnds(SetAuthorizeState(g, NotAuthorizing));
    DisconnectEnds(SetAuthorizeState(g.(failedHash := true), NotAuthorizing));
    hide Disconnect, UpToNull, AnswersChallenge, IsBareCommand, PR.Yields, Hex.HexBytes;
  }

  lemma NoAnswer(fields: seq<seq<Byte>>)
    requires fields != [] && fields[0] != [] && !IsAnswer(fields)
    ensures !(fields[0][0] == AUTHORIZING_CMD && |fields[0]| == 1 && |fields| - 1 == 1)
  {
    if fields[0][0] == AUTHORIZING_CMD && |fields[0]| == 1 {
      assert fields[0] == [AUTHORIZING_CMD];
    }
  }

  /** Digits end at a null. */
  lemma {:induction false} HexUpToNull(chars: seq<Byte>, rest: seq<Byte>, max: int)
    requires 0 !in chars
    ensures Hex.HexBytes(chars + [0] + rest, max) == Hex.HexBytes(chars, max)
    decreases |chars|
  {
    hide Hex.Pair, Hex.High;
    var all := chars + [0] + rest;
    if |chars| >= 2 {
      assert chars[0] in chars && chars[1] in chars && forall b :: b in chars[2..] ==> b in chars;
      HexUpToNull(chars[2..], rest, max - 1);
      assert all[2..] == chars[2..] + [0] + rest;
    } else if |chars| == 1 {
      assert chars[0] in chars && all[1] == 0;
    }
  }

  lemma AnswerIsRead(show: Shown, g: Gate, fields: seq<seq<Byte>>)
    requires TakenApart(g, fields) && IsAnswer(fields) && 0 !in fields[1]
    ensures AnswersChallenge(show, g) <==> Hex.HexBytes(fields[1], CHALLENGE_HASH_BYTE_SIZE) == show(g.log)
  {
    var q := g.parser;
    var at := GetFirstArg(q);
    var n := NullFrom(q.args, at);
    assert ArgsFrom(q, at)[0] == fields[1..][0] == fields[1];
    assert q.args[at..n] == fields[1] && n < ARGS_SIZE && q.args[n] == 0;
    assert q.args[at..] == fields[1] + [0] + q.args[n + 1..];
    hide Hex.HexBytes, UpToNull, ArgsFrom, GetFirstArg;
    HexUpToNull(fields[1], q.args[n + 1..], CHALLENGE_HASH_BYTE_SIZE);
  }

  /** The gate once the first byte of a connection has arrived. */
  function Begun(g: Gate): Gate {
    if g.authorizing.NotAuthorizing? then g.(authorizing := AuthorizingStart) else g
  }

  lemma FirstByteBegins(show: Shown, g: Gate, b: Byte, made: Option<seq<Byte>>)
    requires g.Valid() && !g.noPassword && !g.collecting && b != END_OF_FILE
    ensures Step(show, g, Arrives(b, made)) == Step(show, Begun(g), Arrives(b, made))
  {
    hide Parse, Finish;
  }

  lemma BytesBegin(show: Shown, g: Gate, bytes: seq<Byte>, made: Option<seq<Byte>>)
    requires g.Valid() && !g.noPassword && !g.collecting && bytes != [] && bytes[0] != END_OF_FILE
    ensures Begun(g).Valid() && Run(show, g, Reading(bytes, made)) == Run(show, Begun(g), Reading(bytes, made))
    ensures Quiet(show, g, Reading(bytes, made)) <==> Quiet(show, Begun(g), Reading(bytes, made))
  {
    hide Step;
    FirstByteBegins(show, g, bytes[0], made);
    assert Reading(bytes, made)[0] == Arrives(bytes[0], made);
  }

  /** What a message before authorisation leads to. */
  predicate Authorises(show: Shown, g: Gate, r: (Gate, Byte), fields: seq<seq<Byte>>, made: Option<seq<Byte>>) {
    if !g.authorizing.SentChallenge? then
      if IsRequest(fields) then
        r.1 == 0 && r.0 == g.(authorizing := SentChallenge, parser := r.0.parser, failedHash := false, challenge := r.0.challenge, log := r.0.log) &&
        (if made.Some? then r.0.challenge == made.value && r.0.log == Finished(made.value) else r.0.challenge == g.challenge && r.0.log == g.log)
      else r.1 == DISCONNECT_NOW && Ended(g, r.0) && (r.0.failedHash <==> g.failedHash || (fields != [] && fields[0] != [] && fields[0][0] != DISCONNECT_NOW))
    else if IsAnswer(fields) && Hex.HexBytes(fields[1], CHALLENGE_HASH_BYTE_SIZE) == show(g.log) then
      r.1 == 0 && r.0 == g.(authorizing := Success, parser := r.0.parser)
    else r.1 == DISCONNECT_NOW && Ended(g, r.0) && r.0.failedHash == (g.failedHash || IsAnswer(fields))
  }

  /** Exactly: any message that fits, before authorisation. Without a challenge the request is answered with one, and with a
      challenge an argument that gives its hash authorises; everything else ends the connection. No command is returned. */
  lemma {:induction false} AuthorisingExactly(show: Shown, g: Gate, o: PR.Opening, fields: seq<seq<Byte>>, separators: seq<Byte>, made: Option<seq<Byte>>)
    requires g.Valid() && !g.noPassword && !g.collecting && !InMessage(g.parser.state) && !g.authorizing.Success?
    requires PR.Proper(o, fields, separators)
    ensures var front := PR.Message(o, fields, separators);
            var r := After(show, g, front + [END], made);
            Quiet(show, g, Reading(front, made)) && Authorises(show, g, r, fields, made) && !InMessage(r.0.parser.state)
  {
    var front, begun := PR.Message(o, fields, separators), Begun(g);
    FrontIsPlain(o, fields, separators);
    MessageYields(g.parser, o, fields, separators);
    CommandIsNotNull(o, fields, separators);
    ArgumentsHaveNoNull(o, fields, separators);
    hide Step, Run, Quiet, Parse, ParseAll, PR.Message, PR.Proper, PR.Yields, PR.Joined, After, UpToNull, Authorises, Finish;
    BytesBegin(show, g, front, made);
    AfterOne(show, g, front, END, made);
    E.AuthorisingBytes(show, begun, front, made);
    AuthorisingQuiet(show, begun, front, made);
    var read := begun.(parser := ParseAll(g.parser, front));
    E.AuthorisingEnd(show, read, made);
    var q := Parse(read.parser, END);
    MessageJudged(show, g, begun.(parser := q.0), fields, made);
  }

  lemma ArgumentsHaveNoNull(o: PR.Opening, fields: seq<seq<Byte>>, separators: seq<Byte>)
    requires PR.Proper(o, fields, separators)
    ensures IsAnswer(fields) ==> 0 !in fields[1]
  {
    if IsAnswer(fields) {
      assert fields[1] in fields;
    }
  }

  lemma MessageJudged(show: Shown, g: Gate, q: Gate, fields: seq<seq<Byte>>, made: Option<seq<Byte>>)
    requires TakenApart(q, fields) && !g.noPassword && !g.authorizing.Success? && q == Begun(g).(parser := q.parser)
    requires IsAnswer(fields) ==> 0 !in fields[1]
    ensures var r := Finish(show, q, fields[0][0], made); Authorises(show, g, r, fields, made) && !InMessage(r.0.parser.state)
  {
    var r := Finish(show, q, fields[0][0], made);
    AlikeEnds(g, q, r.0);
    hide Finish, UpToNull, PR.Yields, Hex.HexBytes;
    EndsTakenApart(q, fields);
    if q.authorizing.AuthorizingStart? {
      JudgedAtStart(show, q, fields, made);
    } else {
      JudgedAnswer(show, q, fields, made);
    }
  }

  lemma EndsTakenApart(g: Gate, fields: seq<seq<Byte>>)
    requires TakenApart(g, fields)
    ensures g.parser.state.MsgEnd?
  {
    hide UpToNull, ArgsFrom, GetFirstArg;
  }

  // ---- without a password ----

  predicate Free(g: Gate) {
    g.Valid() && g.noPassword && g.authorizing.Success?
  }

  lemma FreeByte(show: Shown, g: Gate, b: Byte, made: Option<seq<Byte>>)
    requires Free(g) && b != END_OF_FILE
    ensures Parsed(g, b).Valid() && Step(show, g, Arrives(b, made)) == Finish(show, Parsed(g, b), Parse(g.parser, b).1, made)
    ensures b != END ==> Step(show, g, Arrives(b, made)) == (Parsed(g, b), 0)
  {
    ParseMoves(g.parser, b);
    ParseKeepsIgnoring(g.parser, b);
    NothingFinished(show, Parsed(g, b), made);
    hide Parse, Finish;
  }

  lemma {:induction false} FreeBytes(show: Shown, g: Gate, bytes: seq<Byte>, made: Option<seq<Byte>>)
    requires Free(g) && END !in bytes && END_OF_FILE !in bytes
    ensures var r := g.(parser := ParseAll(g.parser, bytes));
            Free(r) && Run(show, g, Reading(bytes, made)) == r && Quiet(show, g, Reading(bytes, made))
    decreases |bytes|
  {
    hide Step, Parse;
    if bytes != [] {
      assert bytes[0] in bytes && forall b :: b in bytes[1..] ==> b in bytes;
      FreeByte(show, g, bytes[0], made);
      FreeBytes(show, Parsed(g, bytes[0]), bytes[1..], made);
      assert Reading(bytes, made)[1..] == Reading(bytes[1..], made);
    }
  }

  lemma JudgedFree(show: Shown, g: Gate, fields: seq<seq<Byte>>, made: Option<seq<Byte>>)
    requires Free(g) && TakenApart(g, fields)
    ensures FreelyTaken(g, Finish(show, g, fields[0][0], made), fields)
  {
    if fields[0][0] == AUTHORIZING_CMD {
      BareIsRequest(g.parser, fields);
      JudgedFreeRequest(show, g, made);
      hide Finish, UpToNull, PR.Yields, IsBareCommand, Ended;
    } else {
      OtherIsNoRequest(fields);
      FinishEnds(show, g, made);
      if fields[0][0] != DISCONNECT_NOW {
        JudgedFreeCommand(show, g, fields[0][0], made);
      }
      hide Finish, UpToNull, PR.Yields, IsBareCommand, Ended, IsRequest;
    }
  }

  lemma JudgedFreeCommand(show: Shown, g: Gate, cmd: Byte, made: Option<seq<Byte>>)
    requires Free(g) && cmd != 0 && cmd != DISCONNECT_NOW && cmd != AUTHORIZING_CMD
    ensures Finish(show, g, cmd, made) == (g.(rawEnabled := true), cmd)
  {
    hide Disconnect, UpToNull, AnswersChallenge, IsBareCommand;
  }

  lemma JudgedFreeRequest(show: Shown, g: Gate, made: Option<seq<Byte>>)
    requires Free(g)
    ensures var r := Finish(show, g, AUTHORIZING_CMD, made);
            if IsBareCommand(g.parser) then r == (g.(parser := Init(g.parser)), 0)
            else r.1 == DISCONNECT_NOW && Ended(g, r.0) && r.0.failedHash == g.failedHash
  {
    DisconnectEnds(SetAuthorizeState(g, NotAuthorizing));
    hide Disconnect, UpToNull, AnswersChallenge, IsBareCommand;
  }

  /** What a message leads to without a password: a request is answered, the two commands that end a connection do, and every
      other one is returned. */
  predicate FreelyTaken(g: Gate, r: (Gate, Byte), fields: seq<seq<Byte>>)
    requires fields != [] && fields[0] != []
  {
    if IsRequest(fields) then r.1 == 0 && r.0 == g.(parser := r.0.parser) && r.0.parser.state.WaitingForStart?
    else if fields[0][0] == DISCONNECT_NOW || fields[0][0] == AUTHORIZING_CMD then
      r.1 == DISCONNECT_NOW && Ended(g, r.0) && r.0.failedHash == g.failedHash
    else r.1 == fields[0][0] && r.0 == g.(parser := r.0.parser, rawEnabled := true) && PR.Yields(r.0.parser, fields)
  }

  lemma {:induction false} FreeExactly(show: Shown, g: Gate, o: PR.Opening, fields: seq<seq<Byte>>, separators: seq<Byte>, made: Option<seq<Byte>>)
    requires Free(g) && !InMessage(g.parser.state) && PR.Proper(o, fields, separators)
    ensures fields[0] != []
    ensures var front := PR.Message(o, fields, separators);
            Quiet(show, g, Reading(front, made)) && FreelyTaken(g, After(show, g, front + [END], made), fields)
  {
    var front := PR.Message(o, fields, separators);
    FrontIsPlain(o, fields, separators);
    MessageYields(g.parser, o, fields, separators);
    CommandIsNotNull(o, fields, separators);
    hide Step, Run, Quiet, Parse, ParseAll, PR.Message, PR.Proper, PR.Yields, PR.Joined, After, UpToNull, FreelyTaken, Finish, Ended;
    FreeBytes(show, g, front, made);
    AfterOne(show, g, front, END, made);
    var read := g.(parser := ParseAll(g.parser, front));
    FreeByte(show, read, END, made);
    var q := Parsed(read, END);
    JudgedFree(show, q, fields, made);
    SameFreely(g, q, Finish(show, q, fields[0][0], made), fields);
  }

  lemma SameFreely(g: Gate, q: Gate, r: (Gate, Byte), fields: seq<seq<Byte>>)
    requires fields != [] && fields[0] != [] && q == g.(parser := q.parser) && FreelyTaken(q, r, fields)
    ensures FreelyTaken(g, r, fields)
  {
    AlikeEnds(g, q, r.0);
    hide Ended, PR.Yields;
  }

  // ---- what is written ----

  /** The output of the gate is that of the framing. */
  predicate InStep(g: Gate, s: F.Sender) {
    s.authorized == g.authorizing.Success? && s.noPassword == g.noPassword && s.place == g.place && s.outMsgCount == g.outMsgCount &&
    s.challenge == g.challenge
  }

  lemma MsgByteInStep(show: Shown, h: F.Hash, g: Gate, s: F.Sender, b: Byte)
    requires g.Valid() && InStep(g, s)
    ensures InStep(WriteMsgByte(show, g, b), F.WriteInMsg(h, s, b).0)
  {
    hide F.StartsMessage, Hex.HexChars, F.FirstFour, F.Tag, F.Long;
  }

  /** Every byte that is written moves the gate as the framing's server moves: silent before authorisation, in the same place
      of a message, with the same count. */
  lemma WritesInStep(show: Shown, h: F.Hash, g: Gate, s: F.Sender, b: Byte)
    requires g.Valid() && InStep(g, s)
    ensures InStep(Write(show, g, b), F.WriteByte(h, s, b).0)
  {
    if g.place.Started? {
      var hashed := if g.noPassword then g else g.(log := Fed([START]));
      MsgByteInStep(show, h, hashed, s.(hashed := if s.noPassword then s.hashed else [F.OPEN]), b);
    } else if g.place.InMsg? {
      MsgByteInStep(show, h, g, s, b);
    }
    hide F.StartsMessage, WriteMsgByte, F.WriteInMsg, Fed;
  }

  function Writing(bytes: seq<Byte>): (events: seq<Event>)
    ensures |events| == |bytes|
  {
    seq(|bytes|, i requires 0 <= i < |bytes| => Writes(bytes[i]))
  }

  predicate SendsHashed(g: Gate) {
    g.Valid() && g.authorizing.Success? && !g.noPassword
  }

  /** A message has been written whole. */
  predicate Sent(g: Gate, r: Gate, msg: seq<Byte>) {
    r.log == Finished(msg + F.Long(g.outMsgCount) + g.challenge) &&
    r == g.(place := F.Waiting, log := r.log, outMsgCount := F.NextCount(g.outMsgCount), digits := r.digits) && |r.digits| == |g.digits|
  }

  lemma EndSent(show: Shown, g: Gate, text: seq<Byte>)
    requires SendsHashed(g) && g.place.InMsg? && g.log == Fed(text)
    ensures Sent(g, Write(show, g, END), text + [END])
  {
    FedToEnd(text, F.Long(g.outMsgCount) + g.challenge);
    assert text + [END] + F.Long(g.outMsgCount) + g.challenge == text + [END] + (F.Long(g.outMsgCount) + g.challenge);
    hide F.Long, Fed, Finished, Hex.HexChars, F.FirstFour;
  }

  lemma {:induction false} RestSent(show: Shown, g: Gate, text: seq<Byte>, rest: seq<Byte>)
    requires SendsHashed(g) && g.place.InMsg? && g.log == Fed(text) && END !in rest
    ensures Sent(g, Run(show, g, Writing(rest + [END])), text + rest + [END])
    decreases |rest|
  {
    hide Write, Sent;
    var events := Writing(rest + [END]);
    if rest == [] {
      assert events[1..] == [] && text + [] + [END] == text + [END];
      EndSent(show, g, text);
    } else {
      assert rest[0] in rest && forall b :: b in rest[1..] ==> b in rest;
      BodySent(show, g, text, rest[0]);
      var next := Write(show, g, rest[0]);
      assert events[1..] == Writing(rest[1..] + [END]);
      RestSent(show, next, text + [rest[0]], rest[1..]);
      assert text + [rest[0]] + rest[1..] + [END] == text + rest + [END];
      SentAlike(g, next, Run(show, g, events), text + rest + [END]);
    }
  }

  lemma BodySent(show: Shown, g: Gate, text: seq<Byte>, b: Byte)
    requires SendsHashed(g) && g.place.InMsg? && g.log == Fed(text) && b != END
    ensures Write(show, g, b) == g.(log := Fed(text + [b]))
  {
    FedOneMore(text, b);
    hide F.Long, Fed, Finished, Hex.HexChars, F.FirstFour;
  }

  lemma SentAlike(g: Gate, h: Gate, r: Gate, msg: seq<Byte>)
    requires h == g.(place := h.place, log := h.log) && Sent(h, r, msg)
    ensures Sent(g, r, msg)
  {
    hide F.Long, Finished;
  }

  lemma RunWriting(show: Shown, g: Gate, bytes: seq<Byte>)
    requires g.Valid() && bytes != []
    ensures Run(show, g, Writing(bytes)) == Run(show, Write(show, g, bytes[0]), Writing(bytes[1..]))
  {
    hide Write;
    assert Writing(bytes)[0] == Writes(bytes[0]) && Writing(bytes)[1..] == Writing(bytes[1..]);
  }

  /** A message that is written while nothing arrives is hashed with its count and the challenge, and nothing else changes but
      the digit buffer. */
  lemma {:induction false} WrittenIsHashed(show: Shown, g: Gate, msg: seq<Byte>)
    requires SendsHashed(g) && !g.place.InMsg? && IsWhole(msg) && F.StartsMessage(msg[1])
    ensures Sent(g, Run(show, g, Writing(msg)), msg)
  {
    var started := g.(place := F.Started);
    StartWrites(show, g);
    StartedWrites(show, started, msg[1]);
    var next := Write(show, started, msg[1]);
    assert msg[1..][1..] == msg[2..];
    RunWriting(show, g, msg);
    RunWriting(show, started, msg[1..]);
    if |msg| == 2 {
      assert msg == [START, END] && Writing(msg[2..]) == [];
      hide Write, Sent, F.StartsMessage, Fed;
      assert Run(show, g, Writing(msg)) == next;
      SentAlike(g, started, next, msg);
    } else {
      var front, inner := msg[..|msg| - 1], msg[2..|msg| - 1];
      assert front[1] == msg[1] && forall b :: b in inner ==> b in front;
      assert msg[2..] == inner + [END] && [START, msg[1]] + inner + [END] == msg;
      hide Write, Sent, F.StartsMessage, Fed, Run, IsWhole;
      RestSent(show, next, [START, msg[1]], inner);
      SentAlike(g, next, Run(show, g, Writing(msg)), msg);
    }
  }

  lemma StartWrites(show: Shown, g: Gate)
    requires SendsHashed(g) && !g.place.InMsg?
    ensures Write(show, g, START) == g.(place := F.Started)
  {
    assert !F.StartsMessage(START);
  }

  lemma StartedWrites(show: Shown, g: Gate, b: Byte)
    requires SendsHashed(g) && g.place.Started? && F.StartsMessage(b)
    ensures b != END ==> Write(show, g, b) == g.(place := F.InMsg, log := Fed([START, b]))
    ensures b == END ==> Sent(g, Write(show, g, b), [START, END])
  {
    FedOneMore([START], b);
    assert [START] + [b] == [START, b];
    if b == END {
      FedToEnd([START], F.Long(g.outMsgCount) + g.challenge);
      assert [START, END] + F.Long(g.outMsgCount) + g.challenge == [START, END] + (F.Long(g.outMsgCount) + g.challenge);
    }
    hide F.Long, Fed, Finished, Hex.HexChars, F.FirstFour, F.StartsMessage;
  }
}
