/** With a password, every returned command comes from a message whose hash matched. */
module CommandGateProof {
  import opened Bytes
  import opened Buffers
  import opened CommandParser
  import opened CommandGate
  import PR = ParserRecovery
  import Hex
  import F = Framing

  predicate EndsWith(seen: seq<Byte>, s: seq<Byte>) {
    |s| <= |seen| && seen[|seen| - |s|..] == s
  }

  lemma EndsWithOneMore(seen: seq<Byte>, s: seq<Byte>, b: Byte)
    requires EndsWith(seen, s)
    ensures EndsWith(seen + [b], s + [b])
  {
  }

  /** A parser outside a message. */
  predicate Outside(q: Parser) {
    q.Valid() && !InMessage(q.state) && q.ignoreSeqNum
  }

  /** A message ends at its first closing brace. */
  predicate IsWhole(msg: seq<Byte>) {
    |msg| >= 2 && msg[0] == START && msg[|msg| - 1] == END && END !in msg[..|msg| - 1]
  }

  /** The parser takes the bytes for one message: it stays inside from the first to the last but one. */
  ghost predicate InOneGo(q: Parser, msg: seq<Byte>) {
    Outside(q) && forall k :: 0 < k < |msg| ==> InMessage(ParseAll(q, msg[..k]).state)
  }

  /** The bytes that arrived last are a message so far, and the parser has read exactly these. They have been hashed, as
      long as that matters. */
  ghost predicate ReadFrom(g: Gate, seen: seq<Byte>, q: Parser, msg: seq<Byte>)
    requires g.Valid()
  {
    InOneGo(q, msg) && msg != [] && msg[0] == START && END !in msg && EndsWith(seen, msg) &&
    g.parser == ParseAll(q, msg) && InMessage(g.parser.state) && (CanBeAccepted(g.parser) ==> g.log == Fed(msg))
  }

  /** A whole message has arrived and its hash has been made, then some digits. */
  ghost predicate AwaitsFrom(g: Gate, seen: seq<Byte>, q: Parser, msg: seq<Byte>) {
    InOneGo(q, msg) && IsWhole(msg) && |g.digits| < F.MSG_HASH_SIZE && EndsWith(seen, msg + g.digits) &&
    g.parser == ParseAll(q, msg) && g.parser.state.MsgEnd? && (0 !in g.digits ==> g.log == Finished(Hashed(g, msg)))
  }

  /** A message is hashed with its count and the challenge. */
  function Hashed(g: Gate, msg: seq<Byte>): seq<Byte> {
    msg + F.Long(g.inMsgCount) + g.challenge
  }

  ghost predicate Inv(g: Gate, seen: seq<Byte>) {
    g.Valid() &&
    (!g.noPassword ==>
      (g.authorizing.Success? && !g.collecting && InMessage(g.parser.state) ==> exists q, msg :: ReadFrom(g, seen, q, msg)) &&
      (g.collecting ==> g.authorizing.Success? && exists q, msg :: AwaitsFrom(g, seen, q, msg)))
  }

  /** The parser holds a message that arrived last but for eight digits, and these give the hash of it, the count and the
      challenge. */
  ghost predicate ComesFrom(show: Shown, g: Gate, seen: seq<Byte>, q: Parser, msg: seq<Byte>, digits: seq<Byte>) {
    InOneGo(q, msg) && IsWhole(msg) && g.parser == ParseAll(q, msg) && g.parser.state.MsgEnd? &&
    |digits| == F.MSG_HASH_SIZE && EndsWith(seen, msg + digits) &&
    Hex.HexBytes(digits, F.MSG_HASH_BYTE_SIZE) == Tag(show, msg, g.inMsgCount, g.challenge)
  }

  ghost predicate Genuine(show: Shown, g: Gate, seen: seq<Byte>) {
    exists q, msg, digits :: ComesFrom(show, g, seen, q, msg, digits)
  }

  /** How the parser's state moves. */
  lemma ParseMoves(p: Parser, b: Byte)
    requires p.Valid() && b != END_OF_FILE
    ensures var r := Parse(p, b);
            r.0.ignoreSeqNum == p.ignoreSeqNum && (r.1 != 0 ==> r.0.state.MsgEnd?) &&
            (if InMessage(p.state) then !r.0.state.MsgStarted? && (r.0.state.MsgEnd? <==> b == END)
             else r.0.state == (if b == START then MsgStarted else WaitingForStart))
  {
  }

  lemma ParseOneMore(q: Parser, text: seq<Byte>, b: Byte)
    requires q.Valid()
    ensures ParseAll(q, text + [b]) == Parse(ParseAll(q, text), b).0
  {
    hide Parse;
    PR.ParseAllAppend(q, text, [b]);
    PR.ParseAllOne(ParseAll(q, text), b, []);
    assert [b] + [] == [b];
  }

  /** A digit: it is put away, or accepts a genuine message, or ends the connection. */
  lemma CollectKeeps(show: Shown, g: Gate, seen: seq<Byte>, b: Byte, made: Option<seq<Byte>>)
    requires Inv(g, seen) && !g.noPassword && g.collecting && b != END_OF_FILE
    ensures var r := CollectDigit(show, g, b);
            r.0.authorizing.Success? && r.0.noPassword == g.noPassword && r.0.challenge == g.challenge &&
            (!r.0.collecting ==> r.0.parser.state.MsgEnd?) &&
            if Accepts(show, g, Arrives(b, made)) then
              !r.0.collecting && Genuine(show, g, seen + [b]) && r.1 == CommandOf(g) && r.0.inMsgCount == F.NextCount(g.inMsgCount)
            else if r.0.collecting then r.1 == 0 && r.0.inMsgCount == g.inMsgCount && Inv(r.0, seen + [b])
            else r.1 == DISCONNECT_NOW
  {
    hide ParseAll, F.Long, Hex.HexBytes, IsWhole, InOneGo, Finished;
    var q, msg :| AwaitsFrom(g, seen, q, msg);
    var r := CollectDigit(show, g, b);
    EndsWithOneMore(seen, msg + g.digits, b);
    assert msg + g.digits + [b] == msg + (g.digits + [b]);
    if r.0.collecting {
      assert AwaitsFrom(r.0, seen + [b], q, msg);
    } else if Hex.HexBytes(g.digits + [b], F.MSG_HASH_BYTE_SIZE) == F.FirstFour(show(g.log)) {
      assert (g.digits + [b])[..|g.digits|] == g.digits;
      Hex.HexBytesLen(g.digits + [b], F.MSG_HASH_BYTE_SIZE);
      assert ComesFrom(show, g, seen + [b], q, msg, g.digits + [b]);
    }
  }

  /** The gate once the parser has taken the byte. */
  function Parsed(g: Gate, b: Byte): Gate
    requires g.Valid()
  {
    g.(parser := Parse(g.parser, b).0)
  }

  /** A message starts. */
  lemma StartKeeps(g: Gate, seen: seq<Byte>, b: Byte)
    requires g.Valid() && !InMessage(g.parser.state) && Parse(g.parser, b).0.state.MsgStarted? && b == START
    requires Parsed(g, b).Valid()
    ensures ReadFrom(Parsed(g, b).(log := Fed([START])), seen + [b], g.parser, [START])
  {
    hide Parse, ParseAll, CanBeAccepted, EndsWith;
    ParseOneMore(g.parser, [], b);
    ParseNothing(g.parser);
    EndsWithLast(seen, b);
    assert [] + [b] == [START];
  }

  lemma EndsWithLast(seen: seq<Byte>, b: Byte)
    ensures EndsWith(seen + [b], [b])
  {
  }

  lemma FedOneMore(bytes: seq<Byte>, b: Byte)
    ensures Fed(bytes) + Fed([b]) == Fed(bytes + [b])
  {
  }

  lemma StaysInside(q: Parser, msg: seq<Byte>, b: Byte)
    requires InOneGo(q, msg) && (msg != [] ==> InMessage(ParseAll(q, msg).state))
    ensures InOneGo(q, msg + [b])
  {
    hide ParseAll;
    forall k | 0 < k < |msg + [b]| ensures InMessage(ParseAll(q, (msg + [b])[..k]).state) {
      assert (msg + [b])[..k] == msg[..k];
      if k == |msg| {
        assert msg[..k] == msg;
      }
    }
  }

  /** A message goes on. */
  lemma BodyKeeps(g: Gate, seen: seq<Byte>, b: Byte, q: Parser, msg: seq<Byte>)
    requires g.Valid() && ReadFrom(g, seen, q, msg) && Parsed(g, b).Valid() && b != END_OF_FILE
    ensures b != END && InMessage(Parse(g.parser, b).0.state) ==> ReadFrom(Parsed(g, b).(log := g.log + Fed([b])), seen + [b], q, msg + [b])
    ensures EndsWith(seen + [b], msg + [b]) && Parse(g.parser, b).0 == ParseAll(q, msg + [b]) && InOneGo(q, msg + [b])
  {
    assert Outside(q);
    hide Parse, ParseAll, CanBeAccepted, InOneGo;
    PlacesTaken(q, msg);
    StaysClosed(g.parser, b);
    EndsWithOneMore(seen, msg, b);
    ParseOneMore(q, msg, b);
    StaysInside(q, msg, b);
    FedOneMore(msg, b);
  }

  /** A message ends and its hash is awaited. */
  lemma EndKeeps(g: Gate, seen: seq<Byte>, b: Byte, q: Parser, msg: seq<Byte>)
    requires g.Valid() && ReadFrom(g, seen, q, msg) && b == END && Parse(g.parser, b).0.state.MsgEnd? && EndsAccepted(g.parser)
    requires Parsed(g, b).Valid()
    ensures AwaitsFrom(Parsed(g, b).(collecting := true, digits := [], log := g.log + Fed([b]) + Finished(F.Long(g.inMsgCount) + g.challenge)),
                       seen + [b], q, msg + [b])
  {
    BodyKeeps(g, seen, b, q, msg);
    hide Parse, ParseAll, F.Long, InOneGo, EndsAccepted;
    assert msg + [b] + [] == msg + [b] && (msg + [b])[..|msg|] == msg;
    assert CanBeAccepted(g.parser);
    FedAll(g, msg, b);
  }

  lemma FedAll(g: Gate, msg: seq<Byte>, b: Byte)
    ensures Fed(msg) + Fed([b]) + Finished(F.Long(g.inMsgCount) + g.challenge) == Finished(Hashed(g, msg + [b]))
  {
    hide F.Long;
    assert msg + [b] + (F.Long(g.inMsgCount) + g.challenge) == msg + [b] + F.Long(g.inMsgCount) + g.challenge;
  }

  // ---- what a parser has taken of a message ----

  function Skipped(msg: seq<Byte>): nat {
    if |msg| > 1 && msg[1] == REFRESH then 1 else 0
  }

  lemma ParseCounts(p: Parser, b: Byte)
    requires p.Valid()
    ensures var r := Parse(p, b).0;
            r.ignoreSeqNum == p.ignoreSeqNum &&
            (!InMessage(p.state) && b == START ==> r.state.MsgStarted? && r.idx == 0) &&
            (InMessage(p.state) && InMessage(r.state) ==>
              !r.state.MsgStarted? && r.idx == p.idx + (if p.state.MsgStarted? && b == REFRESH then 0 else 1)) &&
            (InMessage(p.state) && b == END ==> r.idx == p.idx + 2)
  {
  }

  /** Every byte behind the opening brace takes a place, but for a colon right behind it. */
  lemma {:induction false} PlacesTaken(q: Parser, msg: seq<Byte>)
    requires InOneGo(q, msg) && msg != [] && msg[0] == START && InMessage(ParseAll(q, msg).state)
    ensures var p := ParseAll(q, msg);
            p.idx == |msg| - 1 - Skipped(msg) && (p.state.MsgStarted? <==> |msg| == 1) && p.ignoreSeqNum
    decreases |msg|
  {
    hide ParseAll, Parse;
    var front, b := msg[..|msg| - 1], msg[|msg| - 1];
    assert msg == front + [b] && b in msg;
    ParseOneMore(q, front, b);
    if front == [] {
      ParseNothing(q);
      ParseCounts(q, b);
    } else {
      forall k | 0 < k < |front| ensures InMessage(ParseAll(q, front[..k]).state) {
        assert msg[..k] == front[..k];
      }
      PlacesTaken(q, front);
      ParseCounts(ParseAll(q, front), b);
    }
  }

  // ---- which messages cannot be accepted any more ----

  /** The command is '!' and nothing can change that. */
  predicate Shut(p: Parser)
    requires p.Valid()
  {
    InMessage(p.state) && p.ignoreSeqNum && p.versionSeen && p.cmdStart < p.idx && p.args[p.cmdStart] == DISCONNECT_NOW
  }

  lemma EndGives(p: Parser)
    requires p.Valid() && InMessage(p.state) && p.ignoreSeqNum
    ensures var r := Parse(p, END);
            r.1 == (if p.cmdStart < p.idx then p.args[p.cmdStart] else 0) &&
            r.0.argsCount == (if p.state.ArgStarted? then (p.argsCount + 1) % 256 else p.argsCount)
  {
  }

  lemma VersionEnds(p: Parser)
    requires p.Valid() && InMessage(p.state) && p.ignoreSeqNum && (p.state.MsgStarted? ==> p.idx == 0)
    requires !p.versionSeen && p.idx < PFOD_MAX_MSG_LEN - 2
    ensures CanBeAccepted(p)
  {
    EndGives(p);
    if !p.state.MsgStarted? {
      EndGives(Parse(p, REFRESH).0);
    }
  }

  lemma BarEnds(p: Parser)
    requires p.Valid() && InMessage(p.state) && p.ignoreSeqNum && p.versionSeen && p.idx < PFOD_MAX_MSG_LEN - 2
    requires p.cmdStart < p.idx && p.args[p.cmdStart] == AUTHORIZING_CMD
    ensures CanBeAccepted(p)
  {
    EndGives(p);
    var next := Parse(p, BAR).0;
    assert InMessage(next.state) && next.state.ArgStarted? && next.cmdStart == p.cmdStart && next.args[p.cmdStart] == AUTHORIZING_CMD;
    assert next.argsCount == Parse(p, END).0.argsCount;
    EndGives(next);
    hide Parse, UpToNull;
    assert IsBareCommand(Parse(p, END).0) ==> !IsBareCommand(Parse(next, END).0);
  }

  /** A message that cannot be accepted has '!' for its command or has no room for anything but its end. */
  lemma ClosedIs(p: Parser)
    requires p.Valid() && InMessage(p.state) && p.ignoreSeqNum && (p.state.MsgStarted? ==> p.idx == 0) && !CanBeAccepted(p)
    ensures Shut(p) || p.idx == PFOD_MAX_MSG_LEN - 2
  {
    EndGives(p);
    hide Parse, UpToNull;
    if p.idx < PFOD_MAX_MSG_LEN - 2 {
      if !p.versionSeen {
        VersionEnds(p);
      } else if p.cmdStart < p.idx && p.args[p.cmdStart] == AUTHORIZING_CMD {
        BarEnds(p);
      }
    }
  }

  lemma ShutStays(p: Parser, b: Byte)
    requires p.Valid() && Shut(p)
    ensures var r := Parse(p, b).0; r.Valid() && (InMessage(r.state) ==> Shut(r)) && !EndsAccepted(p)
  {
    EndGives(p);
  }

  lemma ShutIsClosed(p: Parser)
    requires p.Valid() && Shut(p)
    ensures !CanBeAccepted(p)
  {
    hide Parse, Shut;
    ShutStays(p, REFRESH);
    ShutStays(p, BAR);
    NotAcceptedIf(Parse(p, REFRESH).0);
    NotAcceptedIf(Parse(p, BAR).0);
  }

  lemma NotAcceptedIf(p: Parser)
    requires p.Valid() && (InMessage(p.state) ==> Shut(p))
    ensures !EndsAccepted(p)
  {
    if InMessage(p.state) {
      ShutStays(p, END);
    }
  }

  lemma FullEnds(p: Parser, b: Byte)
    requires p.Valid() && InMessage(p.state) && p.idx == PFOD_MAX_MSG_LEN - 2
    ensures !InMessage(Parse(p, b).0.state)
  {
  }

  /** Once a message cannot be accepted, no byte makes it acceptable again. */
  lemma StaysClosed(p: Parser, b: Byte)
    requires p.Valid() && InMessage(p.state) && p.ignoreSeqNum && (p.state.MsgStarted? ==> p.idx == 0)
    ensures InMessage(Parse(p, b).0.state) && CanBeAccepted(Parse(p, b).0) ==> CanBeAccepted(p)
  {
    hide Parse, CanBeAccepted;
    if InMessage(Parse(p, b).0.state) && !CanBeAccepted(p) {
      ClosedIs(p);
      if Shut(p) {
        ShutStays(p, b);
        ShutIsClosed(Parse(p, b).0);
      } else {
        FullEnds(p, b);
      }
    }
  }

  lemma ReconnectIs(g: Gate)
    requires g.Valid() && !g.noPassword
    ensures var r := Reconnect(g);
            !r.noPassword && r.authorizing.AuthorizingStart? && !r.collecting && r.inMsgCount == 0 && !InMessage(r.parser.state)
  {
    hide SetCmd;
    SetCmdIs(InitGate(g).parser, 1);
  }

  lemma SetCmdIs(p: Parser, cmd: Byte)
    requires p.Valid()
    ensures !InMessage(SetCmd(p, cmd).state)
  {
  }

  lemma EndAccepts(p: Parser, b: Byte)
    requires p.Valid() && Parse(p, b).0.state.MsgEnd? && InMessage(p.state) && Parse(p, b).1 != DISCONNECT_NOW
    ensures !(Parse(p, b).1 == AUTHORIZING_CMD && IsBareCommand(Parse(p, b).0)) ==> EndsAccepted(p)
  {
    ParseMoves(p, b);
    hide Parse;
  }

  /** A byte of a message, once authorised. */
  lemma HashKeeps(g: Gate, seen: seq<Byte>, b: Byte)
    requires Inv(g, seen) && !g.noPassword && !g.collecting && g.authorizing.Success? && b != END_OF_FILE && Parsed(g, b).Valid()
    requires Parse(g.parser, b).1 != DISCONNECT_NOW
    ensures var r := HashByte(Parsed(g, b), b, Parse(g.parser, b).1);
            r.1 == 0 ==> r.0.authorizing.Success? && Inv(r.0, seen + [b]) && r.0.inMsgCount == g.inMsgCount
  {
    ParseMoves(g.parser, b);
    var p := Parse(g.parser, b).0;
    if p.state.MsgEnd? && InMessage(g.parser.state) {
      EndAccepts(g.parser, b);
    }
    hide Parse, ParseAll, IsBareCommand, F.Long, ReadFrom, AwaitsFrom, EndsAccepted, Reconnect, Fed, Finished;
    ReconnectIs(Parsed(g, b));
    var r := HashByte(Parsed(g, b), b, Parse(g.parser, b).1).0;
    if p.state.MsgStarted? {
      StartKeeps(g, seen, b);
      assert ReadFrom(r, seen + [b], g.parser, [START]);
    } else if !p.state.WaitingForStart? {
      var q, msg :| ReadFrom(g, seen, q, msg);
      if !p.state.MsgEnd? {
        BodyKeeps(g, seen, b, q, msg);
        assert ReadFrom(r, seen + [b], q, msg + [b]);
      } else if EndsAccepted(g.parser) {
        EndKeeps(g, seen, b, q, msg);
        assert AwaitsFrom(r, seen + [b], q, msg + [b]);
      }
    }
  }

  /** A request for the challenge starts the connection again. */
  lemma HashReconnects(g: Gate, b: Byte, cmd: Byte)
    requires g.Valid() && !g.noPassword && !g.collecting && (cmd != 0 ==> g.parser.state.MsgEnd?)
    ensures var r := HashByte(g, b, cmd);
            !r.0.noPassword &&
            (r.1 != 0 ==> r.0.authorizing.AuthorizingStart? && !r.0.collecting && !InMessage(r.0.parser.state) && r.0.inMsgCount == 0)
  {
    hide Reconnect, IsBareCommand, F.Long, Fed, Finished;
    ReconnectIs(g);
  }

  lemma ParseNothing(p: Parser)
    requires p.Valid()
    ensures ParseAll(p, []) == p
  {
  }

  /** A call that ends the connection. */
  lemma EndsConnection(show: Shown, g: Gate, made: Option<seq<Byte>>, seen: seq<Byte>)
    requires g.Valid()
    ensures var r := Finish(show, g, DISCONNECT_NOW, made);
            r.1 == DISCONNECT_NOW && Inv(r.0, seen) && r.0.noPassword == g.noPassword && r.0.inMsgCount == 0
  {
    hide SetCmd, Init;
  }

  /** Nothing has been completed. */
  lemma NothingFinished(show: Shown, g: Gate, made: Option<seq<Byte>>)
    requires g.Valid()
    ensures Finish(show, g, 0, made) == (g, 0)
  {
  }

  /** Until authorisation has succeeded no command is returned. */
  lemma AuthorisingReturnsNothing(show: Shown, g: Gate, cmd: Byte, made: Option<seq<Byte>>, seen: seq<Byte>)
    requires g.Valid() && !g.noPassword && !g.collecting && (g.authorizing.AuthorizingStart? || g.authorizing.SentChallenge?)
    requires cmd != 0 ==> !InMessage(g.parser.state)
    ensures var r := Finish(show, g, cmd, made);
            (r.1 == 0 || r.1 == DISCONNECT_NOW) && Inv(r.0, seen) && r.0.noPassword == g.noPassword &&
            r.0.inMsgCount == (if r.1 == 0 then g.inMsgCount else 0) && !r.0.collecting
  {
    hide SetCmd, Init, IsBareCommand, AnswersChallenge, UpToNull;
  }

  /** An accepted command is returned as it is, unless it is one of those that end the connection. */
  lemma AcceptedIsReturned(show: Shown, g: Gate, cmd: Byte, made: Option<seq<Byte>>, seen: seq<Byte>)
    requires g.Valid() && !g.noPassword && !g.collecting && g.authorizing.Success? && g.parser.state.MsgEnd?
    ensures var r := Finish(show, g, cmd, made);
            (r.1 == cmd || r.1 == DISCONNECT_NOW) && Inv(r.0, seen) && r.0.noPassword == g.noPassword &&
            r.0.inMsgCount == (if r.1 == DISCONNECT_NOW then 0 else g.inMsgCount) && !r.0.collecting
  {
    hide SetCmd, Init, IsBareCommand, AnswersChallenge, UpToNull;
  }

  /** Whether a byte is the last digit of a matching hash. */
  predicate Accepts(show: Shown, g: Gate, ev: Event) {
    ev.Arrives? && ev.b != END_OF_FILE && !g.noPassword && g.collecting && |g.digits| + 1 == F.MSG_HASH_SIZE &&
    Hex.HexBytes(g.digits + [ev.b], F.MSG_HASH_BYTE_SIZE) == F.FirstFour(show(g.log))
  }

  /** The connection ends, or the other side starts it again: the counts start again too. */
  predicate Resets(g: Gate, r: (Gate, Byte)) {
    r.1 == DISCONNECT_NOW || (g.authorizing.Success? && !r.0.authorizing.Success?)
  }

  /** The first byte of the command that the parser holds. */
  function CommandOf(g: Gate): Byte
    requires g.Valid()
  {
    g.parser.args[g.parser.cmdStart]
  }

  /** What is accepted is genuine, and nothing else but '!' is returned. */
  ghost predicate Fair(show: Shown, g: Gate, ev: Event, seen: seq<Byte>, returned: Byte)
    requires g.Valid()
  {
    (Accepts(show, g, ev) ==> Genuine(show, g, seen)) &&
    (returned != 0 && returned != DISCONNECT_NOW ==> Accepts(show, g, ev) && returned == CommandOf(g))
  }

  /** What an event does with a password set. */
  ghost predicate Gated(show: Shown, g: Gate, ev: Event, seen: seq<Byte>, r: (Gate, Byte))
    requires g.Valid()
  {
    Inv(r.0, seen) && !r.0.noPassword && Fair(show, g, ev, seen, r.1) &&
    r.0.inMsgCount == (if Resets(g, r) then 0 else if Accepts(show, g, ev) then F.NextCount(g.inMsgCount) else g.inMsgCount)
  }

  /** A digit of a hash. */
  lemma DigitGated(show: Shown, g: Gate, seen: seq<Byte>, b: Byte, made: Option<seq<Byte>>)
    requires Inv(g, seen) && !g.noPassword && g.collecting && b != END_OF_FILE
    ensures Gated(show, g, Arrives(b, made), seen + [b], Arrive(show, g, b, made))
  {
    CollectKeeps(show, g, seen, b, made);
    var r := CollectDigit(show, g, b);
    assert ReadByte(show, g, b) == r;
    assert g.authorizing.Success?;
    hide Inv, Genuine, Finish, ReadByte, CollectDigit, Accepts;
    if r.0.collecting {
      NothingFinished(show, r.0, made);
    } else if r.1 == DISCONNECT_NOW {
      EndsConnection(show, r.0, made, seen + [b]);
    } else {
      AcceptedIsReturned(show, r.0, r.1, made, seen + [b]);
    }
  }

  /** A byte of a message or between messages, once authorised. */
  lemma MessageGated(show: Shown, g: Gate, seen: seq<Byte>, b: Byte, made: Option<seq<Byte>>)
    requires Inv(g, seen) && !g.noPassword && !g.collecting && g.authorizing.Success? && b != END_OF_FILE
    ensures Gated(show, g, Arrives(b, made), seen + [b], Arrive(show, g, b, made))
  {
    ParseMoves(g.parser, b);
    var cmd := Parse(g.parser, b).1;
    if cmd != DISCONNECT_NOW {
      HashKeeps(g, seen, b);
    }
    ReadsMessageByte(show, g, b);
    HashReconnects(Parsed(g, b), b, cmd);
    hide Inv, Fair, Finish, ReadByte, HashByte, Parse, Accepts;
    ReadGated(show, g, seen, b, made);
  }

  lemma ReadGated(show: Shown, g: Gate, seen: seq<Byte>, b: Byte, made: Option<seq<Byte>>)
    requires g.Valid() && !g.noPassword && !g.collecting && g.authorizing.Success?
    requires var r := ReadByte(show, g, b);
             !r.0.noPassword && (r.1 == 0 ==> r.0.authorizing.Success? && Inv(r.0, seen + [b]) && r.0.inMsgCount == g.inMsgCount) &&
             (r.1 != 0 && r.1 != DISCONNECT_NOW ==>
               r.0.authorizing.AuthorizingStart? && !r.0.collecting && !InMessage(r.0.parser.state) && r.0.inMsgCount == 0)
    ensures Gated(show, g, Arrives(b, made), seen + [b], Arrive(show, g, b, made))
  {
    NotCollecting(show, g, Arrives(b, made));
    hide Inv, Genuine, Finish, ReadByte, Accepts;
    var r := ReadByte(show, g, b);
    if r.1 == DISCONNECT_NOW {
      EndsConnection(show, r.0, made, seen + [b]);
    } else if r.1 == 0 {
      NothingFinished(show, r.0, made);
    } else {
      AuthorisingReturnsNothing(show, r.0, r.1, made, seen + [b]);
    }
  }

  lemma ReadsMessageByte(show: Shown, g: Gate, b: Byte)
    requires g.Valid() && !g.noPassword && !g.collecting && g.authorizing.Success? && b != END_OF_FILE && Parsed(g, b).Valid()
    ensures var cmd := Parse(g.parser, b).1;
            ReadByte(show, g, b) == if cmd == DISCONNECT_NOW then (Parsed(g, b), cmd) else HashByte(Parsed(g, b), b, cmd)
  {
    hide Parse, HashByte;
  }

  lemma NotCollecting(show: Shown, g: Gate, ev: Event)
    requires !g.collecting || !ev.Arrives?
    ensures !Accepts(show, g, ev)
  {
  }

  /** A byte before authorisation has succeeded. */
  lemma AuthorisingGated(show: Shown, g: Gate, seen: seq<Byte>, b: Byte, made: Option<seq<Byte>>)
    requires Inv(g, seen) && !g.noPassword && !g.collecting && !g.authorizing.Success? && b != END_OF_FILE && g.inMsgCount == 0
    ensures Gated(show, g, Arrives(b, made), seen + [b], Arrive(show, g, b, made))
  {
    ParseMoves(g.parser, b);
    var r := ReadByte(show, g, b);
    hide Finish, Parse;
    AuthorisingReturnsNothing(show, r.0, r.1, made, seen + [b]);
  }

  /** Until authorisation has succeeded nothing has been counted. */
  predicate CountsNothing(g: Gate) {
    !g.authorizing.Success? ==> g.inMsgCount == 0
  }

  /** A byte is written that spoils the hash which a message being received needs, or the digits behind it. */
  predicate Disturbs(g: Gate, ev: Event)
    requires g.Valid()
  {
    ev.Writes? && TouchesHash(g, ev.b) &&
    ((Open(g) && LogAfter(g, ev.b) != g.log) || (g.collecting && ev.b == END && g.digits != []))
  }

  lemma WriteIs(show: Shown, g: Gate, b: Byte)
    requires g.Valid() && !g.noPassword
    ensures var r := Write(show, g, b);
            r.Valid() && r == g.(log := r.log, place := r.place, outMsgCount := r.outMsgCount, digits := r.digits) && |r.digits| == |g.digits| &&
            r.log == (if TouchesHash(g, b) then LogAfter(g, b) else g.log) &&
            r.digits == if TouchesHash(g, b) && b == END then Overwritten(g.digits, Hex.HexChars(F.FirstFour(show(r.log)))) else g.digits
  {
    hide F.Long, F.FirstFour, Hex.HexChars, Overwritten, F.StartsMessage, Fed, Finished;
  }

  /** Output that does not disturb. */
  lemma WriteGated(show: Shown, g: Gate, seen: seq<Byte>, ev: Event)
    requires Inv(g, seen) && !g.noPassword && ev.Writes? && !Disturbs(g, ev)
    ensures Gated(show, g, ev, seen, Step(show, g, ev))
  {
    WriteIs(show, g, ev.b);
    hide Write, LogAfter, ParseAll, F.Long, F.FirstFour, Hex.HexChars, Overwritten, IsWhole, EndsWith, InOneGo, CanBeAccepted, Finished, TouchesHash;
    var r := Write(show, g, ev.b);
    if g.collecting {
      var q, msg :| AwaitsFrom(g, seen, q, msg);
      assert r.digits == g.digits;
      assert AwaitsFrom(r, seen, q, msg);
    } else if g.authorizing.Success? && InMessage(g.parser.state) {
      var q, msg :| ReadFrom(g, seen, q, msg);
      assert ReadFrom(r, seen, q, msg);
    }
  }

  lemma {:induction false} StepGated(show: Shown, g: Gate, ev: Event, seen: seq<Byte>)
    requires Inv(g, seen) && !g.noPassword && CountsNothing(g) && !Disturbs(g, ev)
    ensures var r := Step(show, g, ev); Gated(show, g, ev, seen + Arrived([ev]), r) && CountsNothing(r.0)
  {
    hide Inv, Genuine, Disturbs;
    assert [ev][1..] == [];
    InvCounts(g, seen);
    StepCounts(show, g, ev);
    if ev.Arrives? {
      assert Arrived([ev]) == [ev.b];
      hide Finish, ReadByte;
      if ev.b == END_OF_FILE {
        assert ReadByte(show, g, ev.b) == (g, DISCONNECT_NOW) by {
          ReadsEnd(show, g);
        }
        EndsConnection(show, g, ev.made, seen + [ev.b]);
      } else if g.collecting {
        DigitGated(show, g, seen, ev.b, ev.made);
      } else if g.authorizing.Success? {
        MessageGated(show, g, seen, ev.b, ev.made);
      } else {
        AuthorisingGated(show, g, seen, ev.b, ev.made);
      }
    } else {
      assert Arrived([ev]) == [] && seen + [] == seen;
      if ev.Writes? {
        WriteGated(show, g, seen, ev);
      } else {
        EndsConnection(show, g, None, seen);
      }
    }
  }

  lemma ReadsEnd(show: Shown, g: Gate)
    requires g.Valid()
    ensures ReadByte(show, g, END_OF_FILE) == (g, DISCONNECT_NOW)
  {
  }

  // ---- counts, whatever is written ----

  /** A gate with a password; digits are collected only once authorised. */
  predicate Counting(g: Gate) {
    g.Valid() && !g.noPassword && CountsNothing(g) && (g.collecting ==> g.authorizing.Success? && |g.digits| < F.MSG_HASH_SIZE)
  }

  lemma FinishCounts(show: Shown, g: Gate, cmd: Byte, made: Option<seq<Byte>>)
    requires Counting(g) && (cmd != 0 && cmd != DISCONNECT_NOW ==> !g.collecting)
    ensures var r := Finish(show, g, cmd, made);
            Counting(r.0) && (cmd == 0 ==> r == (g, 0)) && (cmd == DISCONNECT_NOW ==> r.1 == DISCONNECT_NOW) &&
            (g.authorizing.Success? && r.1 != DISCONNECT_NOW ==> r.0.authorizing.Success?) &&
            (g.authorizing.AuthorizingStart? ==> !r.0.authorizing.Success?) &&
            r.0.inMsgCount == (if r.1 == DISCONNECT_NOW then 0 else g.inMsgCount)
  {
    JudgedCounts(show, g, cmd, made);
    var judged := Judge(show, g, cmd, made);
    DisconnectedCounts(SetAuthorizeState(judged.0, NotAuthorizing));
    hide Judge, Disconnect;
  }

  lemma DisconnectedCounts(g: Gate)
    requires g.Valid() && !g.noPassword
    ensures var r := Disconnect(g); Counting(r) && !r.authorizing.Success? && r.inMsgCount == 0
  {
    hide SetCmd, Init;
  }

  lemma JudgedCounts(show: Shown, g: Gate, cmd: Byte, made: Option<seq<Byte>>)
    requires Counting(g) && (cmd != 0 && cmd != DISCONNECT_NOW ==> !g.collecting)
    ensures var r := Judge(show, g, cmd, made);
            r.0.Valid() && !r.0.noPassword && (r.1 != DISCONNECT_NOW ==> Counting(r.0)) && r.0.inMsgCount == g.inMsgCount &&
            (cmd == 0 ==> r == (g, 0)) && (cmd == DISCONNECT_NOW ==> r.1 == DISCONNECT_NOW) &&
            (g.authorizing.Success? && r.1 != DISCONNECT_NOW ==> r.0.authorizing.Success?) &&
            (g.authorizing.AuthorizingStart? ==> !r.0.authorizing.Success?)
  {
    hide IsBareCommand, AnswersChallenge, UpToNull, Init;
  }

  /** What a byte that is read does to the count. */
  predicate CountsAs(show: Shown, g: Gate, ev: Event, r: (Gate, Byte)) {
    Counting(r.0) && (r.1 != 0 && r.1 != DISCONNECT_NOW ==> !r.0.collecting) &&
    if Accepts(show, g, ev) then r.0.authorizing.Success? && r.0.inMsgCount == F.NextCount(g.inMsgCount)
    else
      r.1 == DISCONNECT_NOW || (g.authorizing.Success? && r.0.authorizing.AuthorizingStart? && r.0.inMsgCount == 0) ||
      (r.0.authorizing.Success? == g.authorizing.Success? && r.0.inMsgCount == g.inMsgCount)
  }

  lemma DigitCounts(show: Shown, g: Gate, b: Byte, made: Option<seq<Byte>>)
    requires Counting(g) && g.collecting && b != END_OF_FILE
    ensures CountsAs(show, g, Arrives(b, made), CollectDigit(show, g, b))
  {
    hide F.NextCount, F.FirstFour, Hex.HexBytes;
  }

  lemma HashCounts(show: Shown, g: Gate, b: Byte, cmd: Byte, ev: Event)
    requires Counting(g) && !g.collecting && g.authorizing.Success? && (cmd != 0 ==> g.parser.state.MsgEnd?) && !Accepts(show, g, ev)
    ensures CountsAs(show, g, ev, HashByte(g, b, cmd))
  {
    hide Init, SetCmd, IsBareCommand, F.NextCount, F.Long, Accepts;
  }

  lemma ReadCounts(show: Shown, g: Gate, b: Byte, made: Option<seq<Byte>>)
    requires Counting(g) && b != END_OF_FILE
    ensures CountsAs(show, g, Arrives(b, made), ReadByte(show, g, b))
  {
    if g.collecting {
      DigitCounts(show, g, b, made);
    } else {
      ParseMoves(g.parser, b);
      hide Parse, HashByte;
      if g.authorizing.Success? {
        HashCounts(show, Parsed(g, b), b, Parse(g.parser, b).1, Arrives(b, made));
      }
      hide F.NextCount, F.FirstFour, Hex.HexBytes;
    }
  }

  lemma StepCounts(show: Shown, g: Gate, ev: Event)
    requires Counting(g)
    ensures var r := Step(show, g, ev);
            Counting(r.0) &&
            r.0.inMsgCount == (if Resets(g, r) then 0 else if Accepts(show, g, ev) then F.NextCount(g.inMsgCount) else g.inMsgCount)
  {
    hide Finish, ReadByte, F.NextCount, Accepts;
    if ev.Arrives? && ev.b != END_OF_FILE {
      ReadCounts(show, g, ev.b, ev.made);
      var read := ReadByte(show, g, ev.b);
      FinishCounts(show, read.0, read.1, ev.made);
    } else if ev.Writes? {
      hide F.Long, F.FirstFour, Hex.HexChars, Overwritten;
      assert !Accepts(show, g, ev) by {
        NotCollecting(show, g, ev);
      }
    } else {
      if ev.Arrives? {
        ReadsEnd(show, g);
      }
      FinishCounts(show, g, DISCONNECT_NOW, if ev.Arrives? then ev.made else None);
    }
  }

  /** A gate that has just been connected with a password. */
  predicate Connected(g: Gate) {
    g.Valid() && !g.noPassword && g.authorizing.AuthorizingStart? && !g.collecting && g.inMsgCount == 0
  }

  lemma InvCounts(g: Gate, seen: seq<Byte>)
    requires Inv(g, seen) && !g.noPassword && CountsNothing(g)
    ensures Counting(g)
  {
    if g.collecting {
      var q, msg :| AwaitsFrom(g, seen, q, msg);
    }
  }

  /** A run in which nothing that is written disturbs. */
  predicate Undisturbed(show: Shown, g: Gate, events: seq<Event>)
    requires g.Valid()
    decreases |events|
  {
    events != [] ==> !Disturbs(g, events[0]) && Undisturbed(show, Step(show, g, events[0]).0, events[1..])
  }

  /** In a run everything that is accepted is genuine when it is accepted, and nothing else but '!' is returned. */
  ghost predicate StaysFair(show: Shown, g: Gate, events: seq<Event>, seen: seq<Byte>)
    requires g.Valid()
    decreases |events|
  {
    events != [] ==>
      var r, now := Step(show, g, events[0]), seen + Arrived([events[0]]);
      Fair(show, g, events[0], now, r.1) && StaysFair(show, r.0, events[1..], now)
  }

  lemma {:induction false} RunStaysFair(show: Shown, g: Gate, events: seq<Event>, seen: seq<Byte>)
    requires Inv(g, seen) && !g.noPassword && CountsNothing(g) && Undisturbed(show, g, events)
    ensures StaysFair(show, g, events, seen)
    decreases |events|
  {
    assert g.Valid();
    hide Step, Inv, CountsNothing, Fair, Disturbs;
    if events != [] {
      StepGated(show, g, events[0], seen);
      var next := Step(show, g, events[0]).0;
      RunStaysFair(show, next, events[1..], seen + Arrived([events[0]]));
    }
  }

  /** An undisturbed run keeps the invariant. */
  lemma {:induction false} RunKeepsInv(show: Shown, g: Gate, events: seq<Event>, seen: seq<Byte>)
    requires Inv(g, seen) && !g.noPassword && CountsNothing(g) && Undisturbed(show, g, events)
    ensures var r := Run(show, g, events); Inv(r, seen + Arrived(events)) && !r.noPassword && CountsNothing(r)
    decreases |events|
  {
    assert g.Valid();
    hide Step, Inv, CountsNothing, Fair, Disturbs, Accepts;
    if events == [] {
      assert seen + [] == seen;
    } else {
      StepGated(show, g, events[0], seen);
      var first, next := Arrived([events[0]]), Step(show, g, events[0]).0;
      RunKeepsInv(show, next, events[1..], seen + first);
      assert [events[0]][1..] == [] && first == if events[0].Arrives? then [events[0].b] else [];
      assert seen + first + Arrived(events[1..]) == seen + (first + Arrived(events[1..]));
    }
  }

  /** The gate: in every run of a connection with a password in which nothing that is written disturbs, a message is
      accepted only if the last bytes to arrive are that message and eight digits that give the hash of it with the
      present count and challenge; and a returned command other than '!' is that of an accepted message. */
  lemma {:induction false} OnlyGenuineCommands(show: Shown, start: Gate, events: seq<Event>)
    requires Connected(start) && Undisturbed(show, start, events)
    ensures StaysFair(show, start, events, [])
  {
    hide StaysFair, Undisturbed;
    RunStaysFair(show, start, events, []);
  }

  /** The counts with which messages are accepted in a run. */
  function AcceptedCounts(show: Shown, g: Gate, events: seq<Event>): seq<nat>
    requires g.Valid()
    decreases |events|
  {
    if events == [] then []
    else (if Accepts(show, g, events[0]) then [g.inMsgCount] else []) + AcceptedCounts(show, Step(show, g, events[0]).0, events[1..])
  }

  /** A run in which the counts do not start again. */
  predicate StaysConnected(show: Shown, g: Gate, events: seq<Event>)
    requires g.Valid()
    decreases |events|
  {
    events != [] ==> !Resets(g, Step(show, g, events[0])) && StaysConnected(show, Step(show, g, events[0]).0, events[1..])
  }

  /** Within a connection messages are accepted with consecutive counts, whatever is written. */
  lemma {:induction false} ConsecutiveCounts(show: Shown, g: Gate, events: seq<Event>)
    requires Counting(g) && StaysConnected(show, g, events) && g.inMsgCount < F.COUNTS
    ensures Consecutive(AcceptedCounts(show, g, events), g.inMsgCount)
    decreases |events|
  {
    hide Step, Accepts, F.NextCount;
    if events != [] {
      hide Consecutive;
      StepCounts(show, g, events[0]);
      var r := Step(show, g, events[0]);
      ConsecutiveCounts(show, r.0, events[1..]);
      var rest := AcceptedCounts(show, r.0, events[1..]);
      assert r.0.inMsgCount == if Accepts(show, g, events[0]) then F.NextCount(g.inMsgCount) else g.inMsgCount;
      if Accepts(show, g, events[0]) {
        Shifted(g.inMsgCount, rest);
        assert AcceptedCounts(show, g, events) == [g.inMsgCount] + rest;
      } else {
        assert AcceptedCounts(show, g, events) == [] + rest == rest;
      }
    }
  }

  predicate Consecutive(counts: seq<nat>, n: nat) {
    forall i :: 0 <= i < |counts| ==> counts[i] == (n + i) % F.COUNTS
  }

  lemma Shifted(n: nat, rest: seq<nat>)
    requires n < F.COUNTS && Consecutive(rest, F.NextCount(n))
    ensures Consecutive([n] + rest, n)
  {
    var counts := [n] + rest;
    forall i | 0 <= i < |counts| ensures counts[i] == (n + i) % F.COUNTS {
      if i > 0 {
        CountsOn(n, i - 1);
        assert counts[i] == rest[i - 1];
      }
    }
  }

  lemma CountsOn(n: nat, i: nat)
    ensures (F.NextCount(n) + i) % F.COUNTS == (n + (i + 1)) % F.COUNTS
  {
  }

  /** Counts 0, 1, 2, ... since the connection was made. */
  lemma {:induction false} CountsFromZero(show: Shown, start: Gate, events: seq<Event>)
    requires Connected(start) && StaysConnected(show, start, events)
    ensures Consecutive(AcceptedCounts(show, start, events), 0)
  {
    hide StaysConnected, AcceptedCounts;
    ConsecutiveCounts(show, start, events);
  }

  /** The events of a call that reads these bytes. */
  function Reading(io: seq<Byte>, made: Option<seq<Byte>>): (events: seq<Event>)
    ensures |events| == |io|
  {
    seq(|io|, i requires 0 <= i < |io| => Arrives(io[i], made))
  }

  /** A call does what its bytes do one after the other: it returns what the last of them returns. */
  lemma {:induction false} CallIsSteps(show: Shown, g: Gate, io: seq<Byte>, made: Option<seq<Byte>>)
    requires g.Valid()
    ensures var c := Call(show, g, io, made);
            var read := Reading(io[..c.2], made);
            c.0 == Run(show, g, read) &&
            (c.2 == 0 ==> io == [] && c.1 == 0) &&
            (c.2 > 0 ==> c.1 == Step(show, Run(show, g, read[..c.2 - 1]), read[c.2 - 1]).1)
    decreases |io|
  {
    hide Arrive, ReadByte;
    if io != [] {
      var first := Arrive(show, g, io[0], made);
      var c := Call(show, g, io, made);
      var read := Reading(io[..c.2], made);
      assert read[0] == Arrives(io[0], made);
      if ReadByte(show, g, io[0]).1 != 0 {
        assert read == [Arrives(io[0], made)] && read[1..] == [] && read[..0] == [];
      } else {
        CallIsSteps(show, first.0, io[1..], made);
        var rest := Call(show, first.0, io[1..], made);
        var later := Reading(io[1..][..rest.2], made);
        assert read[1..] == later;
        if rest.2 > 0 {
          assert read[..c.2 - 1][1..] == later[..rest.2 - 1];
        } else {
          assert read[..0] == [];
          NothingRead(show, g, io[0], made);
        }
      }
    } else {
      assert Reading(io[..0], made) == [];
    }
  }

  lemma NothingRead(show: Shown, g: Gate, b: Byte, made: Option<seq<Byte>>)
    requires g.Valid() && ReadByte(show, g, b).1 == 0
    ensures Arrive(show, g, b, made).1 == 0
  {
    hide ReadByte;
    NothingFinished(show, ReadByte(show, g, b).0, made);
  }
}
