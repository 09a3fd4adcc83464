/** Exactly which output keeps the gate from accepting anything that is not genuine. */
module CommandGateLimits {
  import opened Bytes
  import opened Buffers
  import opened CommandParser
  import opened CommandGate
  import opened CommandGateProof
  import PR = ParserRecovery
  import Hex
  import F = Framing

  /** An event after which, for every hash, nothing is accepted that is not genuine as long as nothing disturbs any more. */
  ghost predicate KeepsFair(g: Gate, seen: seq<Byte>, ev: Event)
    requires g.Valid()
  {
    forall show: Shown, events: seq<Event> ::
      Undisturbed(show, Step(show, g, ev).0, events) ==> StaysFair(show, g, [ev] + events, seen)
  }

  // ---- runs in two parts ----

  lemma {:induction false} RunAppend(show: Shown, g: Gate, a: seq<Event>, b: seq<Event>)
    requires g.Valid()
    ensures Run(show, g, a + b) == Run(show, Run(show, g, a), b)
    decreases |a|
  {
    hide Step;
    if a == [] {
      assert a + b == b;
    } else {
      assert (a + b)[1..] == a[1..] + b;
      RunAppend(show, Step(show, g, a[0]).0, a[1..], b);
    }
  }

  lemma {:induction false} FairAppend(show: Shown, g: Gate, a: seq<Event>, b: seq<Event>, seen: seq<Byte>)
    requires g.Valid()
    ensures StaysFair(show, g, a + b, seen) ==> StaysFair(show, Run(show, g, a), b, seen + Arrived(a))
    decreases |a|
  {
    hide Step, Fair;
    if a == [] {
      assert a + b == b && seen + [] == seen;
    } else {
      assert (a + b)[1..] == a[1..] + b;
      FairAppend(show, Step(show, g, a[0]).0, a[1..], b, seen + Arrived([a[0]]));
      ArrivedAppend([a[0]], a[1..]);
      assert [a[0]] + a[1..] == a;
      assert seen + Arrived([a[0]]) + Arrived(a[1..]) == seen + (Arrived([a[0]]) + Arrived(a[1..]));
    }
  }

  lemma {:induction false} ArrivedAppend(a: seq<Event>, b: seq<Event>)
    ensures Arrived(a + b) == Arrived(a) + Arrived(b)
  {
    if a == [] {
      assert a + b == b;
    } else {
      assert (a + b)[1..] == a[1..] + b && (a + b)[0] == a[0];
      ArrivedAppend(a[1..], b);
      var first := if a[0].Arrives? then [a[0].b] else [];
      assert Arrived(a + b) == first + Arrived(a[1..] + b);
      assert first + Arrived(a[1..]) + Arrived(b) == first + (Arrived(a[1..]) + Arrived(b));
    }
  }

  lemma {:induction false} ArrivedReading(bytes: seq<Byte>, made: Option<seq<Byte>>)
    ensures Arrived(Reading(bytes, made)) == bytes
  {
    if bytes != [] {
      ArrivedReading(bytes[1..], made);
      assert Reading(bytes, made)[1..] == Reading(bytes[1..], made);
    }
  }

  lemma ReadingAppend(a: seq<Byte>, b: seq<Byte>, made: Option<seq<Byte>>)
    ensures Reading(a + b, made) == Reading(a, made) + Reading(b, made)
  {
  }

  lemma {:induction false} ReadingIsUndisturbed(show: Shown, g: Gate, bytes: seq<Byte>, made: Option<seq<Byte>>)
    requires g.Valid()
    ensures Undisturbed(show, g, Reading(bytes, made))
    decreases |bytes|
  {
    hide Step;
    if bytes != [] {
      ReadingIsUndisturbed(show, Step(show, g, Arrives(bytes[0], made)).0, bytes[1..], made);
      assert Reading(bytes, made)[1..] == Reading(bytes[1..], made);
    }
  }

  // ---- only one message can have arrived last ----

  lemma PlacesAtEnd(q: Parser, msg: seq<Byte>)
    requires InOneGo(q, msg) && IsWhole(msg)
    ensures ParseAll(q, msg).idx == |msg| - Skipped(msg)
  {
    var front := msg[..|msg| - 1];
    assert msg == front + [END];
    forall k | 0 < k < |front| ensures InMessage(ParseAll(q, front[..k]).state) {
      assert msg[..k] == front[..k];
    }
    hide Parse, ParseAll;
    ParseOneMore(q, front, END);
    PlacesTaken(q, front);
    ParseCounts(ParseAll(q, front), END);
  }

  /** Two messages that end some bytes and leave the parser in the same state are the same. */
  lemma SameMessage(q: Parser, m: seq<Byte>, q': Parser, m': seq<Byte>, seen: seq<Byte>)
    requires InOneGo(q, m) && IsWhole(m) && InOneGo(q', m') && IsWhole(m') && ParseAll(q, m) == ParseAll(q', m')
    requires EndsWith(seen, m) && EndsWith(seen, m')
    ensures m == m'
  {
    PlacesAtEnd(q, m);
    PlacesAtEnd(q', m');
    hide ParseAll, InOneGo;
    if |m| == |m'| + 1 {
      OneLonger(seen, m, m');
    } else if |m'| == |m| + 1 {
      OneLonger(seen, m', m);
    }
  }

  lemma OneLonger(seen: seq<Byte>, m: seq<Byte>, m': seq<Byte>)
    requires EndsWith(seen, m) && EndsWith(seen, m') && |m| == |m'| + 1 && m' != []
    ensures m[1] == m'[0]
  {
    assert m[1] == seen[|seen| - |m| + 1];
  }

  lemma SameDigits(seen: seq<Byte>, msg: seq<Byte>, digits: seq<Byte>, msg': seq<Byte>, digits': seq<Byte>)
    requires EndsWith(seen, msg + digits) && EndsWith(seen, msg' + digits') && |digits| == |digits'|
    ensures digits == digits'
    ensures var front := seen[..|seen| - |digits|]; EndsWith(front, msg) && EndsWith(front, msg')
  {
    EndsInTwo(seen, msg, digits);
    EndsInTwo(seen, msg', digits');
  }

  lemma EndsInTwo(seen: seq<Byte>, a: seq<Byte>, b: seq<Byte>)
    requires EndsWith(seen, a + b)
    ensures EndsWith(seen, b) && EndsWith(seen[..|seen| - |b|], a)
  {
    var all := seen[|seen| - |a + b|..];
    assert all == a + b;
    assert seen[|seen| - |b|..] == all[|a|..] == b;
    assert seen[..|seen| - |b|][|seen| - |b| - |a|..] == all[..|a|] == a;
  }

  lemma NotGenuine(show: Shown, g: Gate, seen: seq<Byte>, q: Parser, msg: seq<Byte>, digits: seq<Byte>)
    requires InOneGo(q, msg) && IsWhole(msg) && g.parser == ParseAll(q, msg)
    requires |digits| == F.MSG_HASH_SIZE && EndsWith(seen, msg + digits)
    requires Hex.HexBytes(digits, F.MSG_HASH_BYTE_SIZE) != Tag(show, msg, g.inMsgCount, g.challenge)
    ensures !Genuine(show, g, seen)
  {
    assert |digits| <= |seen|;
    hide InOneGo, IsWhole, ParseAll, Hex.HexBytes, Tag, EndsWith;
    forall q', msg', digits' ensures !ComesFrom(show, g, seen, q', msg', digits') {
      if ComesFrom(show, g, seen, q', msg', digits') {
        SameDigits(seen, msg, digits, msg', digits');
        SameMessage(q, msg, q', msg', seen[..|seen| - |digits|]);
      }
    }
  }

  // ---- digits arrive ----

  /** A gate with a password that collects the digits behind a message. */
  predicate Collects(g: Gate) {
    g.Valid() && !g.noPassword && g.authorizing.Success? && g.collecting && g.parser.state.MsgEnd?
  }

  lemma DigitArrives(show: Shown, g: Gate, b: Byte)
    requires Collects(g) && |g.digits| + 1 < F.MSG_HASH_SIZE && b != END_OF_FILE
    ensures Step(show, g, Arrives(b, None)) == (g.(digits := g.digits + [b]), 0)
  {
    hide Judge;
    NothingFinished(show, g.(digits := g.digits + [b]), None);
  }

  lemma {:induction false} DigitsArrive(show: Shown, g: Gate, rest: seq<Byte>)
    requires Collects(g) && |g.digits + rest| < F.MSG_HASH_SIZE && END_OF_FILE !in rest
    ensures Run(show, g, Reading(rest, None)) == g.(digits := g.digits + rest)
    decreases |rest|
  {
    hide Step;
    if rest == [] {
      assert g.digits + [] == g.digits;
    } else {
      DigitArrives(show, g, rest[0]);
      var next := g.(digits := g.digits + [rest[0]]);
      assert next.digits + rest[1..] == g.digits + rest;
      assert Reading(rest, None)[1..] == Reading(rest[1..], None);
      DigitsArrive(show, next, rest[1..]);
    }
  }

  lemma LastDigit(show: Shown, g: Gate, b: Byte)
    requires Collects(g) && |g.digits| + 1 == F.MSG_HASH_SIZE && b != END_OF_FILE
    requires Hex.HexBytes(g.digits + [b], F.MSG_HASH_BYTE_SIZE) == F.FirstFour(show(g.log))
    ensures Accepts(show, g, Arrives(b, None))
    ensures CommandOf(g) !in {0, DISCONNECT_NOW, AUTHORIZING_CMD} ==> Step(show, g, Arrives(b, None)).1 == CommandOf(g)
  {
    hide Hex.HexBytes, F.FirstFour, UpToNull, AnswersChallenge, IsBareCommand;
  }

  /** The gate when all digits but the last have arrived. */
  function BeforeLast(g: Gate, rest: seq<Byte>): Gate
    requires rest != []
  {
    g.(digits := g.digits + rest[..|rest| - 1])
  }

  lemma AllButLast(show: Shown, g: Gate, rest: seq<Byte>)
    requires Collects(g) && |g.digits + rest| == F.MSG_HASH_SIZE && rest != [] && END_OF_FILE !in rest
    ensures Reading(rest, None) == Reading(rest[..|rest| - 1], None) + [Arrives(rest[|rest| - 1], None)]
    ensures Run(show, g, Reading(rest[..|rest| - 1], None)) == BeforeLast(g, rest)
  {
    hide Run, Step;
    DigitsArrive(show, g, rest[..|rest| - 1]);
  }

  /** Bytes arrive, and with the last of them a message is accepted that is not genuine, and its command returned. */
  ghost predicate AcceptsFalsely(show: Shown, g: Gate, seen: seq<Byte>, bytes: seq<Byte>)
    requires g.Valid()
  {
    bytes != [] && FalseAtEnd(show, Run(show, g, Reading(bytes[..|bytes| - 1], None)), seen + bytes, bytes[|bytes| - 1])
  }

  ghost predicate FalseAtEnd(show: Shown, g: Gate, seen: seq<Byte>, b: Byte)
    requires g.Valid()
  {
    var last := Arrives(b, None);
    Accepts(show, g, last) && !Genuine(show, g, seen) &&
    (CommandOf(g) !in {0, DISCONNECT_NOW, AUTHORIZING_CMD} ==> Step(show, g, last).1 == CommandOf(g))
  }

  lemma FalseIsUnfair(show: Shown, g: Gate, seen: seq<Byte>, bytes: seq<Byte>)
    requires g.Valid() && AcceptsFalsely(show, g, seen, bytes)
    ensures !StaysFair(show, g, Reading(bytes, None), seen)
  {
    hide Step, Run, Genuine, Accepts;
    var front, b := bytes[..|bytes| - 1], bytes[|bytes| - 1];
    assert bytes == front + [b] && seen + front + [b] == seen + bytes;
    ReadingAppend(front, [b], None);
    assert Reading([b], None) == [Arrives(b, None)] && Arrived([Arrives(b, None)]) == [b];
    FairAppend(show, g, Reading(front, None), [Arrives(b, None)], seen);
    ArrivedReading(front, None);
  }

  lemma FalseLater(show: Shown, g: Gate, seen: seq<Byte>, a: seq<Byte>, b: seq<Byte>)
    requires g.Valid() && AcceptsFalsely(show, Run(show, g, Reading(a, None)), seen + a, b)
    ensures AcceptsFalsely(show, g, seen, a + b)
  {
    hide FalseAtEnd, Run, Reading;
    RunInParts(show, g, a, b[..|b| - 1]);
    LastOf(seen, a, b);
  }

  lemma LastOf(seen: seq<Byte>, a: seq<Byte>, b: seq<Byte>)
    requires b != []
    ensures (a + b)[..|a + b| - 1] == a + b[..|b| - 1] && (a + b)[|a + b| - 1] == b[|b| - 1] && seen + a + b == seen + (a + b)
  {
  }

  lemma RunInParts(show: Shown, g: Gate, a: seq<Byte>, b: seq<Byte>)
    requires g.Valid()
    ensures Run(show, g, Reading(a + b, None)) == Run(show, Run(show, g, Reading(a, None)), Reading(b, None))
  {
    ReadingAppend(a, b, None);
    RunAppend(show, g, Reading(a, None), Reading(b, None));
  }

  /** Digits that give what the hash object shows are accepted, whether or not those that arrived give the hash of the message. */
  lemma FalselyAccepted(show: Shown, g: Gate, seen: seq<Byte>, q: Parser, msg: seq<Byte>, heard: seq<Byte>, rest: seq<Byte>)
    requires Collects(g) && InOneGo(q, msg) && IsWhole(msg) && g.parser == ParseAll(q, msg)
    requires |heard| == |g.digits| && |heard + rest| == F.MSG_HASH_SIZE && rest != [] && END_OF_FILE !in rest && EndsWith(seen, msg + heard)
    requires Hex.HexBytes(g.digits + rest, F.MSG_HASH_BYTE_SIZE) == F.FirstFour(show(g.log))
    requires Hex.HexBytes(heard + rest, F.MSG_HASH_BYTE_SIZE) != Tag(show, msg, g.inMsgCount, g.challenge)
    ensures AcceptsFalsely(show, g, seen, rest)
  {
    hide InOneGo, IsWhole, ParseAll, Hex.HexBytes, Tag, F.FirstFour, Step, Run, Genuine, Accepts, EndsWith;
    var last, b := BeforeLast(g, rest), rest[|rest| - 1];
    assert b in rest && last.digits + [b] == g.digits + rest;
    AllButLast(show, g, rest);
    LastDigit(show, last, b);
    EndsAgain(seen, msg + heard, rest);
    assert msg + heard + rest == msg + (heard + rest);
    NotGenuine(show, last, seen + rest, q, msg, heard + rest);
  }

  lemma EndsAgain(seen: seq<Byte>, s: seq<Byte>, rest: seq<Byte>)
    requires EndsWith(seen, s)
    ensures EndsWith(seen + rest, s + rest)
  {
  }

  // ---- hashes that show what is wanted in one place ----

  function Showing(show: Shown, at: Log, tag: seq<Byte>): Shown
    requires |tag| == F.MSG_HASH_BYTE_SIZE
  {
    (log: Log) => if log == at then tag + [0, 0, 0, 0] else show(log)
  }

  lemma ShowingIs(show: Shown, at: Log, tag: seq<Byte>, log: Log)
    requires |tag| == F.MSG_HASH_BYTE_SIZE
    ensures F.FirstFour(Showing(show, at, tag)(log)) == if log == at then tag else F.FirstFour(show(log))
  {
    assert Showing(show, at, tag)(log) == if log == at then tag + [0, 0, 0, 0] else show(log);
    assert (tag + [0, 0, 0, 0])[..F.MSG_HASH_BYTE_SIZE] == tag;
  }

  /** Zeros, the last one perhaps a one. */
  function Tail(n: nat, last: nat): (digits: seq<Byte>)
    requires n > 0 && last < 2
    ensures |digits| == n && END_OF_FILE !in digits && 0 !in digits && digits[n - 1] == 0x30 + last
  {
    seq(n - 1, i => 0x30) + [0x30 + last]
  }

  lemma EightDigits(d: seq<Byte>)
    requires |d| == F.MSG_HASH_SIZE && 0 !in d
    ensures Hex.HexBytes(d, F.MSG_HASH_BYTE_SIZE) == [Hex.Pair(d[0], d[1]), Hex.Pair(d[2], d[3]), Hex.Pair(d[4], d[5]), Hex.Pair(d[6], d[7])]
  {
    hide Hex.Pair, Hex.HexBytes;
    Hex.PairStep(d, 4);
    Hex.PairStep(d[2..], 3);
    Hex.PairStep(d[4..], 2);
    Hex.PairStep(d[6..], 1);
    assert d[2..][2..] == d[4..] && d[4..][2..] == d[6..];
  }

  /** The last digit makes a difference. */
  lemma TailsDiffer(digits: seq<Byte>)
    requires |digits| < F.MSG_HASH_SIZE && 0 !in digits
    ensures var n := F.MSG_HASH_SIZE - |digits|;
            |Hex.HexBytes(digits + Tail(n, 0), F.MSG_HASH_BYTE_SIZE)| == |Hex.HexBytes(digits + Tail(n, 1), F.MSG_HASH_BYTE_SIZE)| == F.MSG_HASH_BYTE_SIZE &&
            Hex.HexBytes(digits + Tail(n, 0), F.MSG_HASH_BYTE_SIZE) != Hex.HexBytes(digits + Tail(n, 1), F.MSG_HASH_BYTE_SIZE)
  {
    var n := F.MSG_HASH_SIZE - |digits|;
    var a, b := digits + Tail(n, 0), digits + Tail(n, 1);
    EightDigits(a);
    EightDigits(b);
    hide Hex.HexBytes;
    assert a[6] == b[6] && a[7] == 0x30 && b[7] == 0x31;
  }

  lemma ShortHex(digits: seq<Byte>, rest: seq<Byte>)
    requires 0 in digits && |digits + rest| == F.MSG_HASH_SIZE && rest != []
    ensures |Hex.HexBytes(digits + rest, F.MSG_HASH_BYTE_SIZE)| < F.MSG_HASH_BYTE_SIZE
  {
    var all := digits + rest;
    assert all[..|all| - 1] == digits + rest[..|rest| - 1];
    Hex.HexBytesLen(all, F.MSG_HASH_BYTE_SIZE);
  }

  // ---- a byte is written while digits are collected ----

  /** A hash and bytes with which what is written spoils a message. The hash shows something else in one place only. */
  ghost predicate Fails(other: Shown, g: Gate, seen: seq<Byte>, b: Byte, show: Shown, at: Log, bytes: seq<Byte>)
    requires g.Valid()
  {
    (forall log: Log :: log != at ==> show(log) == other(log)) && AcceptsFalsely(show, Write(show, g, b), seen, bytes)
  }

  /** The hash is being made again: the digits that arrived are compared with what it shows meanwhile. */
  lemma WritingFails(other: Shown, g: Gate, seen: seq<Byte>, b: Byte, q: Parser, msg: seq<Byte>)
      returns (show: Shown, at: Log, bytes: seq<Byte>)
    requires g.Valid() && !g.noPassword && g.authorizing.Success? && g.collecting && AwaitsFrom(g, seen, q, msg)
    requires b != END && TouchesHash(g, b) && Open(g) && LogAfter(g, b) != g.log
    ensures Fails(other, g, seen, b, show, at, bytes)
  {
    hide InOneGo, IsWhole, ParseAll, Hex.HexBytes, EndsWith, LogAfter, TouchesHash, Finished, F.FirstFour, F.Long, Write, AcceptsFalsely;
    at := LogAfter(g, b);
    var n := F.MSG_HASH_SIZE - |g.digits|;
    TailsDiffer(g.digits);
    var tag := F.FirstFour(other(g.log));
    bytes := if Hex.HexBytes(g.digits + Tail(n, 0), F.MSG_HASH_BYTE_SIZE) != tag then Tail(n, 0) else Tail(n, 1);
    var given := Hex.HexBytes(g.digits + bytes, F.MSG_HASH_BYTE_SIZE);
    show := Showing(other, at, given);
    WriteIs(show, g, b);
    ShowingIs(other, at, given, at);
    ShowingIs(other, at, given, g.log);
    assert Tag(show, msg, g.inMsgCount, g.challenge) == F.FirstFour(show(Finished(Hashed(g, msg))));
    FalselyAccepted(show, Write(show, g, b), seen, q, msg, g.digits, bytes);
  }

  /** A written message ends: its digits take the place of those that arrived. */
  lemma EndingFails(other: Shown, g: Gate, seen: seq<Byte>, q: Parser, msg: seq<Byte>)
      returns (show: Shown, at: Log, bytes: seq<Byte>)
    requires g.Valid() && !g.noPassword && g.authorizing.Success? && g.collecting && AwaitsFrom(g, seen, q, msg)
    requires TouchesHash(g, END) && (if g.digits == [] then LogAfter(g, END) != g.log else true)
    ensures Fails(other, g, seen, END, show, at, bytes)
  {
    hide InOneGo, IsWhole, ParseAll, Hex.HexBytes, Hex.HexChars, EndsWith, LogAfter, TouchesHash, Finished, F.FirstFour, F.Long, Write, AcceptsFalsely;
    at := LogAfter(g, END);
    var k := |g.digits|;
    var tag: seq<Byte>;
    tag, bytes := ChosenTag(g.digits, at == g.log, F.FirstFour(other(g.log)));
    show := Showing(other, at, tag);
    WriteIs(show, g, END);
    ShowingIs(other, at, tag, at);
    ShowingIs(other, at, tag, g.log);
    assert Tag(show, msg, g.inMsgCount, g.challenge) == F.FirstFour(show(Finished(Hashed(g, msg))));
    if 0 in g.digits {
      ShortHex(g.digits, bytes);
    }
    var r := Write(show, g, END);
    assert r.digits == Hex.HexChars(tag)[..k] && r.digits + bytes == Hex.HexChars(tag);
    Hex.HexRoundTrip(tag);
    FalselyAccepted(show, r, seen, q, msg, g.digits, bytes);
  }

  /** A tag for the written message: its last digits behind those that arrived do not give the tag expected, which may
      be the same one. */
  lemma ChosenTag(digits: seq<Byte>, same: bool, expected: seq<Byte>) returns (tag: seq<Byte>, rest: seq<Byte>)
    requires |digits| < F.MSG_HASH_SIZE && (same ==> digits != [])
    ensures |tag| == F.MSG_HASH_BYTE_SIZE && rest == Hex.HexChars(tag)[|digits|..] && rest != [] && END_OF_FILE !in rest
    ensures 0 !in digits ==> Hex.HexBytes(digits + rest, F.MSG_HASH_BYTE_SIZE) != if same then tag else expected
  {
    hide Hex.HexBytes, Hex.HexChars, Tail;
    var n := F.MSG_HASH_SIZE - |digits|;
    var given := Hex.HexBytes(digits + Tail(n, 0), F.MSG_HASH_BYTE_SIZE);
    var first, last := 0, 0;
    if same {
      first := if given != [0, 0, 0, 0] then 0 else 1;
    } else {
      if 0 !in digits {
        TailsDiffer(digits);
      }
      last := if given != expected then 0 else 1;
    }
    tag, rest := [0x10 * first, 0, 0, last], Tail(n, last);
    TailOfTail(first, n, last);
  }

  lemma CharsOf(first: nat, last: nat)
    requires first < 2 && last < 2
    ensures Hex.HexChars([0x10 * first, 0, 0, last]) == [0x30 + first] + Tail(F.MSG_HASH_SIZE - 1, last)
  {
    var tag: seq<Byte> := [0x10 * first, 0, 0, last];
    assert tag[1..] == [0, 0, last] && tag[1..][1..] == [0, last] && tag[1..][1..][1..] == [last] && [last][1..] == [];
    Hex.HexCharsStep(tag);
    Hex.HexCharsStep([0, 0, last]);
    Hex.HexCharsStep([0, last]);
    Hex.HexCharsStep([last]);
    hide Hex.HexChars;
  }

  lemma TailOfTail(first: nat, n: nat, last: nat)
    requires first < 2 && last < 2 && 0 < n <= F.MSG_HASH_SIZE && (n == F.MSG_HASH_SIZE ==> first == 0)
    ensures Hex.HexChars([0x10 * first, 0, 0, last])[F.MSG_HASH_SIZE - n..] == Tail(n, last)
  {
    CharsOf(first, last);
    hide Hex.HexChars;
  }

  // ---- a byte is written while a message is read ----

  /** A gate with a password that reads a message. */
  predicate Reads(g: Gate) {
    g.Valid() && !g.noPassword && g.authorizing.Success? && !g.collecting && InMessage(g.parser.state)
  }

  lemma BodyArrives(show: Shown, g: Gate, b: Byte)
    requires Reads(g) && InMessage(Parse(g.parser, b).0.state) && b != END_OF_FILE
    ensures Parsed(g, b).Valid() && Step(show, g, Arrives(b, None)) == (Parsed(g, b).(log := g.log + Fed([b])), 0)
  {
    ParseMoves(g.parser, b);
    ParseKeepsIgnoring(g.parser, b);
    var after := Parsed(g, b).(log := g.log + Fed([b]));
    hide Parse, Judge, Fed;
    NothingFinished(show, after, None);
    ReadsMessageByte(show, g, b);
  }

  lemma EndArrives(show: Shown, g: Gate)
    requires Reads(g) && EndsAccepted(g.parser)
    ensures Step(show, g, Arrives(END, None))
         == (Parsed(g, END).(collecting := true, digits := [], log := g.log + Fed([END]) + Finished(F.Long(g.inMsgCount) + g.challenge)), 0)
    ensures Parsed(g, END).Valid() && Parsed(g, END).parser.state.MsgEnd?
  {
    ParseMoves(g.parser, END);
    ParseKeepsIgnoring(g.parser, END);
    var after := Parsed(g, END).(collecting := true, digits := [], log := g.log + Fed([END]) + Finished(F.Long(g.inMsgCount) + g.challenge));
    hide Parse, Judge, Fed, Finished, F.Long, IsBareCommand;
    NothingFinished(show, after, None);
    ReadsMessageByte(show, g, END);
  }

  /** What makes a message that can be accepted end acceptably. */
  function Completion(p: Parser): (more: seq<Byte>)
    requires p.Valid() && CanBeAccepted(p)
    ensures |more| <= 1 && END !in more && END_OF_FILE !in more && EndsAccepted(ParseAll(p, more))
  {
    if EndsAccepted(p) then []
    else if EndsAccepted(Parse(p, REFRESH).0) then [REFRESH]
    else [BAR]
  }

  /** The gate when the rest of the message has arrived. */
  function Completed(g: Gate, more: seq<Byte>): Gate
    requires g.Valid()
  {
    g.(parser := ParseAll(g.parser, more + [END]), collecting := true, digits := [],
       log := g.log + Fed(more) + Fed([END]) + Finished(F.Long(g.inMsgCount) + g.challenge))
  }

  lemma CompletionArrives(show: Shown, g: Gate, more: seq<Byte>)
    requires Reads(g) && |more| <= 1 && END_OF_FILE !in more && EndsAccepted(ParseAll(g.parser, more))
    ensures Run(show, g, Reading(more + [END], None)) == Completed(g, more) && Collects(Completed(g, more))
  {
    ParseNothing(g.parser);
    assert more == [] ==> ParseAll(g.parser, more) == g.parser;
    hide Step, Parse, ParseAll, Fed, Finished, F.Long, EndsAccepted;
    if more == [] {
      ParseOneMore(g.parser, [], END);
      assert more + [END] == [END] == [] + [END] && Fed([]) == [] && g.log + [] == g.log;
      EndArrives(show, g);
      assert Reading([END], None) == [Arrives(END, None)];
    } else {
      OneByteAndEnd(show, g, more[0]);
      assert more == [more[0]];
    }
  }

  lemma OneByteAndEnd(show: Shown, g: Gate, b: Byte)
    requires Reads(g) && b != END_OF_FILE && EndsAccepted(ParseAll(g.parser, [b]))
    ensures Run(show, g, Reading([b] + [END], None)) == Completed(g, [b]) && Collects(Completed(g, [b]))
  {
    TwoParsed(g.parser, b);
    hide Parse, ParseAll, Step, Fed, Finished, F.Long, EndsAccepted;
    BodyArrives(show, g, b);
    var next := Parsed(g, b).(log := g.log + Fed([b]));
    EndArrives(show, next);
    var after := Step(show, next, Arrives(END, None)).0;
    assert after == Completed(g, [b]);
    RunsTwo(show, g, Arrives(b, None), Arrives(END, None));
    assert Reading([b] + [END], None) == [Arrives(b, None), Arrives(END, None)];
  }

  lemma TwoParsed(p: Parser, b: Byte)
    requires p.Valid() && EndsAccepted(ParseAll(p, [b]))
    ensures ParseAll(p, [b]) == Parse(p, b).0 && InMessage(Parse(p, b).0.state) && ParseAll(p, [b] + [END]) == Parse(Parse(p, b).0, END).0
  {
    hide Parse, ParseAll, IsBareCommand;
    ParseNothing(p);
    ParseOneMore(p, [], b);
    ParseOneMore(p, [b], END);
    assert [] + [b] == [b];
  }

  lemma RunsTwo(show: Shown, g: Gate, a: Event, b: Event)
    requires g.Valid()
    ensures Run(show, g, [a, b]) == Step(show, Step(show, g, a).0, b).0
  {
    hide Step;
    var next := Step(show, g, a).0;
    assert [a, b][1..] == [b] && [b][1..] == [];
    assert Run(show, next, [b]) == Run(show, Step(show, next, b).0, []);
  }

  lemma CompletedIs(seen: seq<Byte>, g: Gate, q: Parser, msg: seq<Byte>, more: seq<Byte>)
    requires g.Valid() && ReadFrom(g, seen, q, msg) && |more| <= 1 && END !in more && EndsAccepted(ParseAll(g.parser, more))
    ensures var all := msg + more + [END];
            InOneGo(q, all) && IsWhole(all) && EndsWith(seen + more + [END], all) && ParseAll(g.parser, more + [END]) == ParseAll(q, all)
  {
    hide Parse, InOneGo, CanBeAccepted;
    assert Outside(q) by {
      GoesOutside(q, msg);
    }
    PR.ParseAllAppend(q, msg, more);
    PR.ParseAllAppend(q, msg, more + [END]);
    hide ParseAll;
    if more != [] {
      StaysInside(q, msg, more[0]);
      assert more == [more[0]];
    } else {
      assert msg + more == msg;
    }
    StaysInside(q, msg + more, END);
    EndsAgain(seen, msg, more + [END]);
    assert seen + more + [END] == seen + (more + [END]) && msg + more + [END] == msg + (more + [END]);
    assert (msg + more + [END])[..|msg + more|] == msg + more;
  }

  lemma GoesOutside(q: Parser, msg: seq<Byte>)
    requires InOneGo(q, msg)
    ensures Outside(q)
  {
  }

  lemma ReadingFails(other: Shown, g: Gate, seen: seq<Byte>, b: Byte, q: Parser, msg: seq<Byte>)
      returns (show: Shown, at: Log, bytes: seq<Byte>)
    requires Reads(g) && ReadFrom(g, seen, q, msg) && TouchesHash(g, b) && CanBeAccepted(g.parser) && LogAfter(g, b) != g.log
    ensures Fails(other, g, seen, b, show, at, bytes)
  {
    hide InOneGo, LogAfter, TouchesHash, Finished, Fed, F.Long, Write, AcceptsFalsely, EndsAccepted, CanBeAccepted;
    var more := Completion(g.parser);
    var wrong := g.(log := LogAfter(g, b));
    at := Completed(wrong, more).log;
    OtherLog(g, wrong, msg, more);
    var tag, rest := ChosenTag([], false, F.FirstFour(other(Finished(Hashed(g, msg + more + [END])))));
    assert [] + rest == rest;
    show := Showing(other, at, tag);
    WriteIs(show, g, b);
    bytes := more + [END] + rest;
    FalseWithHash(other, g, seen, q, msg, more, Write(show, g, b), at, tag, rest);
  }

  /** The rest of a message arrives after its hash has been spoilt, and the digits of what the hash object shows then. */
  lemma FalseWithHash(other: Shown, g: Gate, seen: seq<Byte>, q: Parser, msg: seq<Byte>, more: seq<Byte>, written: Gate,
                      at: Log, tag: seq<Byte>, rest: seq<Byte>)
    requires Reads(g) && ReadFrom(g, seen, q, msg) && |more| <= 1 && END !in more && END_OF_FILE !in more && EndsAccepted(ParseAll(g.parser, more))
    requires written.Valid() && written == g.(log := written.log, place := written.place, outMsgCount := written.outMsgCount, digits := written.digits)
    requires at == Completed(written, more).log != Finished(Hashed(g, msg + more + [END]))
    requires |tag| == F.MSG_HASH_BYTE_SIZE && rest == Hex.HexChars(tag) && END_OF_FILE !in rest
    requires Hex.HexBytes(rest, F.MSG_HASH_BYTE_SIZE) != F.FirstFour(other(Finished(Hashed(g, msg + more + [END]))))
    ensures AcceptsFalsely(Showing(other, at, tag), written, seen, more + [END] + rest)
  {
    CompletedIs(seen, g, q, msg, more);
    hide InOneGo, IsWhole, ParseAll, Parse, Hex.HexBytes, Hex.HexChars, EndsWith, Finished, Fed, F.FirstFour, F.Long, AcceptsFalsely, EndsAccepted, Run, Reading;
    var show, all := Showing(other, at, tag), msg + more + [END];
    ShowingIs(other, at, tag, at);
    ShowingIs(other, at, tag, Finished(Hashed(g, all)));
    CompletionArrives(show, written, more);
    assert Tag(show, all, g.inMsgCount, g.challenge) == F.FirstFour(show(Finished(Hashed(g, all))));
    Hex.HexRoundTrip(tag);
    assert [] + rest == rest && all + [] == all && seen + (more + [END]) == seen + more + [END];
    FalselyAccepted(show, Completed(written, more), seen + more + [END], q, all, [], rest);
    FalseLater(show, written, seen, more + [END], rest);
  }

  /** Logs that differ still differ when the rest of the message has been hashed. */
  lemma OtherLog(g: Gate, wrong: Gate, msg: seq<Byte>, more: seq<Byte>)
    requires g.Valid() && wrong.Valid() && g.log == Fed(msg) && wrong == g.(log := wrong.log) && wrong.log != g.log
    ensures Completed(wrong, more).log != Finished(Hashed(g, msg + more + [END]))
  {
    var end := Fed(more) + Fed([END]) + Finished(F.Long(g.inMsgCount) + g.challenge);
    assert Completed(wrong, more).log == wrong.log + end;
    assert Finished(Hashed(g, msg + more + [END])) == g.log + end;
    if wrong.log + end == g.log + end {
      SameBefore(wrong.log, g.log, end);
    }
  }

  lemma SameBefore(a: Log, b: Log, end: Log)
    requires a + end == b + end
    ensures a == b
  {
    assert a == (a + end)[..|a|] && b == (b + end)[..|b|];
  }

  // ---- the exact condition ----

  /** A byte that disturbs: for every hash there is one that differs from it in a single place, and bytes that arrive, with
      which a message is accepted that is not genuine. */
  lemma DisturbedFails(other: Shown, g: Gate, seen: seq<Byte>, ev: Event) returns (show: Shown, at: Log, bytes: seq<Byte>)
    requires Inv(g, seen) && !g.noPassword && Disturbs(g, ev)
    ensures Fails(other, g, seen, ev.b, show, at, bytes)
  {
    hide ReadFrom, AwaitsFrom, LogAfter, CanBeAccepted, Fails;
    if g.collecting {
      var q, msg :| AwaitsFrom(g, seen, q, msg);
      if ev.b == END {
        show, at, bytes := EndingFails(other, g, seen, q, msg);
      } else {
        show, at, bytes := WritingFails(other, g, seen, ev.b, q, msg);
      }
    } else {
      var q, msg :| ReadFrom(g, seen, q, msg);
      show, at, bytes := ReadingFails(other, g, seen, ev.b, q, msg);
    }
  }

  /** Exactly: an event keeps what is accepted genuine, for every hash and whatever happens without disturbing, if and
      only if it does not disturb. */
  lemma FairExactly(g: Gate, seen: seq<Byte>, ev: Event)
    requires Inv(g, seen) && !g.noPassword && CountsNothing(g)
    ensures KeepsFair(g, seen, ev) <==> !Disturbs(g, ev)
  {
    hide Inv, CountsNothing, Disturbs, Undisturbed, StaysFair, Step;
    assert g.Valid() by {
      GateIsValid(g, seen);
    }
    if Disturbs(g, ev) {
      FailsAfter(g, seen, ev);
    } else {
      forall show: Shown, events: seq<Event> | Undisturbed(show, Step(show, g, ev).0, events)
        ensures StaysFair(show, g, [ev] + events, seen)
      {
        FairFrom(show, g, seen, ev, events);
      }
    }
  }

  lemma GateIsValid(g: Gate, seen: seq<Byte>)
    requires Inv(g, seen)
    ensures g.Valid()
  {
  }

  lemma FairFrom(show: Shown, g: Gate, seen: seq<Byte>, ev: Event, events: seq<Event>)
    requires Inv(g, seen) && !g.noPassword && CountsNothing(g) && !Disturbs(g, ev) && Undisturbed(show, Step(show, g, ev).0, events)
    ensures StaysFair(show, g, [ev] + events, seen)
  {
    hide Inv, CountsNothing, Disturbs, StaysFair, Step;
    assert ([ev] + events)[1..] == events;
    RunStaysFair(show, g, [ev] + events, seen);
  }

  function AnyHash(log: Log): Result {
    [0, 0, 0, 0, 0, 0, 0, 0]
  }

  lemma FailsAfter(g: Gate, seen: seq<Byte>, ev: Event)
    requires g.Valid() && Inv(g, seen) && !g.noPassword && Disturbs(g, ev)
    ensures !KeepsFair(g, seen, ev)
  {
    hide Inv, AcceptsFalsely, Write, StaysFair;
    var show, at, bytes := DisturbedFails(AnyHash, g, seen, ev);
    var events := Reading(bytes, None);
    var written := Write(show, g, ev.b);
    assert [ev][1..] == [] && Arrived([ev]) == [] && seen + [] == seen;
    assert Run(show, g, [ev]) == written == Step(show, g, ev).0;
    ReadingIsUndisturbed(show, written, bytes, None);
    FalseIsUnfair(show, written, seen, bytes);
    hide Disturbs, Step, Reading;
    FairAppend(show, g, [ev], events, seen);
  }

  /** So in every undisturbed run from a new connection: an event may come next exactly if it does not disturb. */
  lemma FairExactlyInRuns(show: Shown, start: Gate, events: seq<Event>, ev: Event)
    requires Connected(start) && Undisturbed(show, start, events)
    ensures KeepsFair(Run(show, start, events), Arrived(events), ev) <==> !Disturbs(Run(show, start, events), ev)
  {
    hide KeepsFair, Disturbs, Run, Undisturbed;
    RunKeepsInv(show, start, events, []);
    assert [] + Arrived(events) == Arrived(events);
    FairExactly(Run(show, start, events), Arrived(events), ev);
  }
}

/** A connection from its first byte: it is authorised, and what is written lets a command in. */
module CommandGateExample {
  import opened Bytes
  import opened Buffers
  import opened CommandParser
  import opened CommandGate
  import opened CommandGateProof
  import opened CommandGateLimits
  import PR = ParserRecovery
  import Hex
  import F = Framing

  // ---- what the parser makes of a message ----

  lemma {:induction false} UpToNullIs(args: seq<Byte>, i: nat)
    requires i <= |args|
    ensures UpToNull(args[i..]) == args[i..NullFrom(args, i)]
    decreases |args| - i
  {
    if i < |args| && args[i] != 0 {
      UpToNullIs(args, i + 1);
      assert args[i..][1..] == args[i + 1..];
    }
  }

  /** A message with a command of one character and perhaps an argument. */
  predicate Holds(q: Parser, cmd: Byte, args: seq<seq<Byte>>)
    requires q.Valid()
  {
    q.state.MsgEnd? && q.args[q.cmdStart] == cmd && UpToNull(q.args[q.cmdStart..]) == [cmd] && q.argsCount == |args| &&
    GetFirstArg(q) <= ARGS_SIZE && ArgsFrom(q, GetFirstArg(q)) == args
  }

  lemma {:induction false} MessageHolds(p: Parser, fields: seq<seq<Byte>>, separators: seq<Byte>)
    requires Outside(p) && fields != [] && |fields[0]| == 1 && |separators| == |fields| - 1
    requires (forall f :: f in fields ==> PR.IsField(f)) && (forall b :: b in separators ==> IsSeparator(b))
    requires |PR.Joined(fields, separators)| <= PFOD_MAX_MSG_LEN - 2
    ensures var q := Parse(ParseAll(p, [START] + PR.Joined(fields, separators)), END);
            q.1 == fields[0][0] && q.0.Valid() && Holds(q.0, fields[0][0], fields[1..])
  {
    hide Parse, ParseAll;
    assert [START] + PR.Opening.Plain.Bytes() + PR.Joined(fields, separators) == [START] + PR.Joined(fields, separators);
    PR.Recovery(p, PR.Opening.Plain, fields, separators);
    var q := Parse(ParseAll(p, [START] + PR.Joined(fields, separators)), END).0;
    UpToNullIs(q.args, q.cmdStart);
    assert q.args[q.cmdStart..NullFrom(q.args, q.cmdStart)] == [fields[0][0]];
  }

  // ---- before authorisation ----

  /** A gate with a password that has no message under way. */
  predicate Idle(g: Gate, a: Authorizing) {
    g.Valid() && !g.noPassword && g.authorizing == a && !g.collecting && !InMessage(g.parser.state)
  }

  lemma AuthorisingByte(show: Shown, g: Gate, b: Byte, made: Option<seq<Byte>>)
    requires g.Valid() && !g.noPassword && !g.collecting && (g.authorizing.AuthorizingStart? || g.authorizing.SentChallenge?)
    requires b != END && b != END_OF_FILE
    ensures Parsed(g, b).Valid() && Step(show, g, Arrives(b, made)) == (Parsed(g, b), 0)
  {
    ParseMoves(g.parser, b);
    ParseKeepsIgnoring(g.parser, b);
    hide Parse, Judge;
    NothingFinished(show, Parsed(g, b), made);
  }

  lemma {:induction false} AuthorisingBytes(show: Shown, g: Gate, bytes: seq<Byte>, made: Option<seq<Byte>>)
    requires g.Valid() && !g.noPassword && !g.collecting && (g.authorizing.AuthorizingStart? || g.authorizing.SentChallenge?)
    requires END !in bytes && END_OF_FILE !in bytes
    ensures var r := Run(show, g, Reading(bytes, made)); r == g.(parser := ParseAll(g.parser, bytes))
    decreases |bytes|
  {
    hide Step, Parse;
    if bytes != [] {
      assert bytes[0] in bytes && forall b :: b in bytes[1..] ==> b in bytes;
      AuthorisingByte(show, g, bytes[0], made);
      AuthorisingBytes(show, Parsed(g, bytes[0]), bytes[1..], made);
      assert Reading(bytes, made)[1..] == Reading(bytes[1..], made);
    }
  }

  /** The closing brace of a message before authorisation. */
  lemma AuthorisingEnd(show: Shown, g: Gate, made: Option<seq<Byte>>)
    requires g.Valid() && !g.noPassword && !g.collecting && (g.authorizing.AuthorizingStart? || g.authorizing.SentChallenge?)
    ensures Parsed(g, END).Valid() && Step(show, g, Arrives(END, made)) == Finish(show, Parsed(g, END), Parse(g.parser, END).1, made)
  {
    ParseKeepsIgnoring(g.parser, END);
    hide Parse, Finish;
  }

  lemma RunThenOne(show: Shown, g: Gate, bytes: seq<Byte>, b: Byte, made: Option<seq<Byte>>)
    requires g.Valid()
    ensures Run(show, g, Reading(bytes + [b], made)) == Step(show, Run(show, g, Reading(bytes, made)), Arrives(b, made)).0
  {
    hide Step;
    ReadingAppend(bytes, [b], made);
    RunAppend(show, g, Reading(bytes, made), Reading([b], made));
    var end := Run(show, g, Reading(bytes, made));
    assert Reading([b], made) == [Arrives(b, made)];
    assert Run(show, end, [Arrives(b, made)]) == Run(show, Step(show, end, Arrives(b, made)).0, []);
  }

  /** A message before authorisation: its bytes are parsed, and its end is judged. */
  lemma AuthorisingMessage(show: Shown, g: Gate, front: seq<Byte>, made: Option<seq<Byte>>)
    requires g.Valid() && !g.noPassword && !g.collecting && (g.authorizing.AuthorizingStart? || g.authorizing.SentChallenge?)
    requires END !in front && END_OF_FILE !in front
    ensures var last := Parse(ParseAll(g.parser, front), END);
            last.0.Valid() && last.0.ignoreSeqNum &&
            Run(show, g, Reading(front + [END], made)) == Finish(show, g.(parser := last.0), last.1, made).0
  {
    hide Step, Parse, ParseAll, Finish, Run, Reading;
    AuthorisingBytes(show, g, front, made);
    RunThenOne(show, g, front, END, made);
    AuthorisingEnd(show, g.(parser := ParseAll(g.parser, front)), made);
  }

  /** The request for a challenge is answered with one. */
  lemma RequestArrives(show: Shown, g: Gate, challenge: seq<Byte>)
    requires Idle(g, AuthorizingStart)
    ensures var r := Run(show, g, Reading([START, AUTHORIZING_CMD, END], Some(challenge)));
            Idle(r, SentChallenge) && r == g.(authorizing := SentChallenge, parser := r.parser, challenge := challenge,
                                              failedHash := false, log := Finished(challenge))
  {
    var made := Some(challenge);
    assert [START, AUTHORIZING_CMD, END] == [START, AUTHORIZING_CMD] + [END];
    RequestParsed(g.parser);
    assert !InMessage(Parse(ParseAll(g.parser, [START, AUTHORIZING_CMD]), END).0.state);
    hide Parse, ParseAll, Finish, Finished, Run, Reading, Holds;
    AuthorisingMessage(show, g, [START, AUTHORIZING_CMD], made);
    RequestJudged(show, g.(parser := Parse(ParseAll(g.parser, [START, AUTHORIZING_CMD]), END).0), made);
  }

  lemma RequestParsed(p: Parser)
    requires Outside(p)
    ensures var q := Parse(ParseAll(p, [START, AUTHORIZING_CMD]), END);
            q.1 == AUTHORIZING_CMD && q.0.Valid() && Holds(q.0, AUTHORIZING_CMD, [])
  {
    var fields := [[AUTHORIZING_CMD]];
    assert PR.Joined(fields, []) == [AUTHORIZING_CMD] && [START] + [AUTHORIZING_CMD] == [START, AUTHORIZING_CMD];
    hide Parse, ParseAll, Holds, PR.Joined;
    MessageHolds(p, fields, []);
  }

  lemma RequestJudged(show: Shown, g: Gate, made: Option<seq<Byte>>)
    requires g.Valid() && !g.noPassword && g.authorizing.AuthorizingStart? && Holds(g.parser, AUTHORIZING_CMD, [])
    ensures Finish(show, g, AUTHORIZING_CMD, made) == (SendChallenge(g, made), 0)
  {
    hide UpToNull, ArgsFrom, GetFirstArg, AnswersChallenge;
  }

  // ---- the answer ----

  lemma {:induction false} HexOfFront(chars: seq<Byte>, rest: seq<Byte>, max: nat)
    requires |chars| == 2 * max && max > 0
    ensures Hex.HexBytes(chars + rest, max) == Hex.HexBytes(chars, max)
  {
    hide Hex.Pair, Hex.High;
    var all := chars + rest;
    if max > 1 {
      HexOfFront(chars[2..], rest, max - 1);
      assert all[2..] == chars[2..] + rest;
    }
  }

  /** The digits of what the hash object shows. */
  function AnswerTo(show: Shown, challenge: seq<Byte>): (digits: seq<Byte>)
    ensures |digits| == 2 * RESULT_SIZE
  {
    Hex.HexChars(show(Finished(challenge)))
  }

  /** The message that answers. */
  function Answer(show: Shown, challenge: seq<Byte>): seq<Byte> {
    [START, AUTHORIZING_CMD, BAR] + AnswerTo(show, challenge)
  }

  lemma AnswerMatches(show: Shown, g: Gate, challenge: seq<Byte>)
    requires g.Valid() && Holds(g.parser, AUTHORIZING_CMD, [AnswerTo(show, challenge)]) && g.log == Finished(challenge)
    ensures AnswersChallenge(show, g)
  {
    hide Finished, Hex.HexBytes, Hex.HexChars;
    var at, digits := GetFirstArg(g.parser), AnswerTo(show, challenge);
    var n := NullFrom(g.parser.args, at);
    assert ArgsFrom(g.parser, at)[0] == g.parser.args[at..n] == digits;
    assert g.parser.args[at..] == digits + g.parser.args[n..];
    HexOfFront(digits, g.parser.args[n..], RESULT_SIZE);
    Hex.HexRoundTrip(show(g.log));
  }

  lemma AnswerIsField(show: Shown, challenge: seq<Byte>)
    ensures PR.IsField(AnswerTo(show, challenge))
  {
    hide Finished, Hex.HexChars;
    Hex.HexCharsAreDigits(show(Finished(challenge)));
  }

  lemma AnswerJudged(show: Shown, g: Gate, challenge: seq<Byte>)
    requires g.Valid() && !g.noPassword && g.authorizing.SentChallenge? && Holds(g.parser, AUTHORIZING_CMD, [AnswerTo(show, challenge)])
    requires g.log == Finished(challenge)
    ensures Finish(show, g, AUTHORIZING_CMD, None) == (g.(authorizing := Success), 0)
  {
    AnswerMatches(show, g, challenge);
    hide UpToNull, ArgsFrom, GetFirstArg, AnswersChallenge, AnswerTo;
  }

  /** The right answer authorises. */
  lemma AnswerArrives(show: Shown, g: Gate, challenge: seq<Byte>)
    requires Idle(g, SentChallenge) && g.log == Finished(challenge)
    ensures var r := Run(show, g, Reading(Answer(show, challenge) + [END], None));
            Idle(r, Success) && r == g.(authorizing := Success, parser := r.parser)
  {
    AnswerParsed(show, g.parser, challenge);
    NoBraceInAnswer(show, challenge);
    var front := Answer(show, challenge);
    assert !InMessage(Parse(ParseAll(g.parser, front), END).0.state);
    hide Parse, ParseAll, Finish, Finished, Run, Reading, Answer, AnswerTo, Holds;
    AuthorisingMessage(show, g, front, None);
    AnswerJudged(show, g.(parser := Parse(ParseAll(g.parser, front), END).0), challenge);
  }

  lemma AnswerParsed(show: Shown, p: Parser, challenge: seq<Byte>)
    requires Outside(p)
    ensures var q := Parse(ParseAll(p, Answer(show, challenge)), END);
            q.1 == AUTHORIZING_CMD && q.0.Valid() && Holds(q.0, AUTHORIZING_CMD, [AnswerTo(show, challenge)])
  {
    var digits := AnswerTo(show, challenge);
    var fields := [[AUTHORIZING_CMD], digits];
    AnswerIsField(show, challenge);
    assert fields[1..] == [digits] && [BAR][1..] == [] && PR.Joined([digits], []) == digits;
    assert PR.Joined(fields, [BAR]) == [AUTHORIZING_CMD] + [BAR] + digits;
    assert [START] + PR.Joined(fields, [BAR]) == Answer(show, challenge);
    hide Parse, ParseAll, Holds, PR.Joined, AnswerTo;
    MessageHolds(p, fields, [BAR]);
  }

  lemma NoBraceInAnswer(show: Shown, challenge: seq<Byte>)
    ensures END !in Answer(show, challenge) && END_OF_FILE !in Answer(show, challenge)
  {
    AnswerIsField(show, challenge);
    hide AnswerTo;
  }

  /** The request for a challenge and the right answer. */
  function Handshake(show: Shown, challenge: seq<Byte>): seq<Event> {
    Reading([START, AUTHORIZING_CMD, END], Some(challenge)) + Reading(Answer(show, challenge) + [END], None)
  }

  /** For every hash and challenge, the handshake authorises. */
  lemma HandshakeAuthorises(show: Shown, g: Gate, challenge: seq<Byte>)
    requires Idle(g, AuthorizingStart)
    ensures var r := Run(show, g, Handshake(show, challenge));
            Idle(r, Success) && r == g.(authorizing := Success, parser := r.parser, challenge := challenge,
                                        failedHash := false, log := Finished(challenge))
  {
    hide Run, Reading, Answer, Finished;
    RequestArrives(show, g, challenge);
    var sent := Run(show, g, Reading([START, AUTHORIZING_CMD, END], Some(challenge)));
    AnswerArrives(show, sent, challenge);
    RunAppend(show, g, Reading([START, AUTHORIZING_CMD, END], Some(challenge)), Reading(Answer(show, challenge) + [END], None));
  }

  // ---- a message, and one that is written before its digits arrive ----

  const CMD: Byte := 0x41
  const MESSAGE: seq<Byte> := [START, CMD, END]

  lemma StartArrives(show: Shown, g: Gate)
    requires Idle(g, Success)
    ensures var r := Parsed(g, START).(log := Fed([START]));
            r.Valid() && Step(show, g, Arrives(START, None)) == (r, 0) && r.parser.state.MsgStarted?
  {
    ParseMoves(g.parser, START);
    ParseKeepsIgnoring(g.parser, START);
    var after := Parsed(g, START).(log := Fed([START]));
    hide Parse, Judge, Fed;
    NothingFinished(show, after, None);
    ReadsMessageByte(show, g, START);
  }

  lemma MessageParsed(p: Parser)
    requires Outside(p)
    ensures var p1 := Parse(p, START).0;
            var p2 := Parse(p1, CMD).0;
            InMessage(p1.state) && InMessage(p2.state) && EndsAccepted(p2) &&
            var p3 := Parse(p2, END).0;
            p3 == ParseAll(p, MESSAGE) && p3.args[p3.cmdStart] == CMD && InOneGo(p, MESSAGE)
  {
    var fields := [[CMD]];
    assert PR.Joined(fields, []) == [CMD] && [START] + [CMD] == [START, CMD] && [] + [START] == [START] && [START, CMD] + [END] == MESSAGE;
    MessageHolds(p, fields, []);
    PR.StartRead(p);
    PR.ReadPlain(Parse(p, START).0, Parse(p, START).0, [], 0, MsgStarted, CMD);
    ParseMoves(Parse(Parse(p, START).0, CMD).0, END);
    hide Parse, ParseAll, UpToNull, ArgsFrom;
    ParseNothing(p);
    ParseOneMore(p, [], START);
    ParseOneMore(p, [START], CMD);
    ParseOneMore(p, [START, CMD], END);
    StaysInside(p, [], START);
    StaysInside(p, [START], CMD);
    StaysInside(p, [START, CMD], END);
  }

  /** The message arrives, and its digits are awaited. */
  lemma MessageArrives(show: Shown, g: Gate)
    requires Idle(g, Success)
    ensures InOneGo(g.parser, MESSAGE) && IsWhole(MESSAGE)
    ensures var r := Run(show, g, Reading(MESSAGE, None));
            Collects(r) && CommandOf(r) == CMD &&
            r == g.(parser := ParseAll(g.parser, MESSAGE), collecting := true, digits := [], log := r.log)
  {
    MessageParsed(g.parser);
    assert MESSAGE[..2] == [START, CMD];
    hide Parse, ParseAll, Step, Fed, Finished, F.Long, InOneGo, EndsAccepted, Run, Reading;
    StartArrives(show, g);
    var started := Parsed(g, START).(log := Fed([START]));
    BodyArrives(show, started, CMD);
    var read := Parsed(started, CMD).(log := started.log + Fed([CMD]));
    EndArrives(show, read);
    RunsMessage(show, g, started, read, Step(show, read, Arrives(END, None)).0);
  }

  lemma RunsMessage(show: Shown, g: Gate, a: Gate, b: Gate, c: Gate)
    requires g.Valid() && a.Valid() && b.Valid() && Step(show, g, Arrives(START, None)).0 == a
    requires Step(show, a, Arrives(CMD, None)).0 == b && Step(show, b, Arrives(END, None)).0 == c
    ensures Run(show, g, Reading(MESSAGE, None)) == c
  {
    hide Step, Run, Reading;
    assert [START] + [CMD] == [START, CMD] && [START, CMD] + [END] == MESSAGE && [] + [START] == [START];
    RunsNothing(show, g);
    RunThenOne(show, g, [], START, None);
    RunThenOne(show, g, [START], CMD, None);
    RunThenOne(show, g, [START, CMD], END, None);
  }

  lemma RunsNothing(show: Shown, g: Gate)
    requires g.Valid()
    ensures Run(show, g, Reading([], None)) == g
  {
  }

  /** A hash that tells what begins like an empty message from everything else. */
  function Telltale(log: Log): Result {
    if |log| >= 2 && log[1] == Some(END) then [0, 0, 0, 0, 0, 0, 0, 0] else [1, 1, 1, 1, 1, 1, 1, 1]
  }

  const ZEROS: seq<Byte> := [0x30, 0x30, 0x30, 0x30, 0x30, 0x30, 0x30, 0x30]

  lemma EmptyWritten(g: Gate)
    requires Collects(g) && g.digits == [] && g.place.Waiting?
    ensures var r := Run(Telltale, g, [Writes(START), Writes(END)]);
            Collects(r) && r.parser == g.parser && r.digits == [] && r.inMsgCount == g.inMsgCount && r.challenge == g.challenge &&
            F.FirstFour(Telltale(r.log)) == [0, 0, 0, 0]
  {
    RunsTwo(Telltale, g, Writes(START), Writes(END));
    var started := g.(place := F.Started);
    assert Step(Telltale, g, Writes(START)).0 == started;
    WriteIs(Telltale, started, END);
    hide Run, Write, F.Long, Finished, Hex.HexChars;
    var log := LogAfter(started, END);
    assert log[1] == Some(END);
    assert Write(Telltale, started, END) == Step(Telltale, started, Writes(END)).0;
  }

  lemma ZerosGiven()
    ensures Hex.HexBytes(ZEROS, F.MSG_HASH_BYTE_SIZE) == [0, 0, 0, 0]
  {
    EightDigits(ZEROS);
    hide Hex.HexBytes;
  }

  lemma MessageTagIsOnes(count: nat, challenge: seq<Byte>)
    ensures Tag(Telltale, MESSAGE, count, challenge) == [1, 1, 1, 1]
  {
    hide F.Long;
    var log := Finished(MESSAGE + F.Long(count) + challenge);
    assert log[1] == Some(CMD);
  }

  /** The handshake, {A}, and the program writes an empty message. */
  function FailingStart(challenge: seq<Byte>): seq<Event> {
    Handshake(Telltale, challenge) + Reading(MESSAGE, None) + [Writes(START), Writes(END)]
  }

  /** From any new connection, with any challenge: the digits of the empty message make the gate return A, whose hash has
      not arrived. */
  lemma FailingRun(g: Gate, challenge: seq<Byte>)
    requires Idle(g, AuthorizingStart) && g.place.Waiting?
    ensures !StaysFair(Telltale, g, FailingStart(challenge) + Reading(ZEROS, None), [])
    ensures var before := Run(Telltale, g, FailingStart(challenge) + Reading(ZEROS[..7], None));
            Step(Telltale, before, Arrives(0x30, None)).1 == CMD && !Genuine(Telltale, before, Arrived(FailingStart(challenge)) + ZEROS)
  {
    hide Handshake, Reading, MESSAGE, Genuine, Step, Telltale, Finished, IsWhole, InOneGo, Run, ParseAll, StaysFair, ZEROS;
    var hand := Handshake(Telltale, challenge);
    HandshakeAuthorises(Telltale, g, challenge);
    var open := Run(Telltale, g, hand);
    MessageArrives(Telltale, open);
    RunAppend(Telltale, g, hand, Reading(MESSAGE, None));
    var waiting := Run(Telltale, open, Reading(MESSAGE, None));
    EmptyWritten(waiting);
    RunAppend(Telltale, g, hand + Reading(MESSAGE, None), [Writes(START), Writes(END)]);
    var written := Run(Telltale, waiting, [Writes(START), Writes(END)]);
    var seen := Arrived(FailingStart(challenge));
    SeenInFailingStart(challenge);
    ZerosAccepted(written, seen, open.parser);
    FailsFrom(g, FailingStart(challenge), written, seen);
  }

  lemma SeenInFailingStart(challenge: seq<Byte>)
    ensures EndsWith(Arrived(FailingStart(challenge)), MESSAGE)
  {
    var hand, written := Handshake(Telltale, challenge), [Writes(START), Writes(END)];
    hide Handshake, MESSAGE;
    ArrivedAppend(hand + Reading(MESSAGE, None), written);
    ArrivedAppend(hand, Reading(MESSAGE, None));
    ArrivedReading(MESSAGE, None);
    assert written[1..] == [Writes(END)] && Arrived([Writes(END)]) == [] && Arrived(written) == [];
    assert Arrived(FailingStart(challenge)) == Arrived(hand) + MESSAGE;
  }

  lemma ZerosAccepted(g: Gate, seen: seq<Byte>, q: Parser)
    requires Collects(g) && g.digits == [] && F.FirstFour(Telltale(g.log)) == [0, 0, 0, 0] && CommandOf(g) == CMD
    requires InOneGo(q, MESSAGE) && IsWhole(MESSAGE) && g.parser == ParseAll(q, MESSAGE) && EndsWith(seen, MESSAGE)
    ensures AcceptsFalsely(Telltale, g, seen, ZEROS)
    ensures CommandOf(Run(Telltale, g, Reading(ZEROS[..7], None))) == CMD
  {
    assert 0x30 in ZEROS && |ZEROS| == 8 && END_OF_FILE !in ZEROS && [] + ZEROS == ZEROS && MESSAGE + [] == MESSAGE;
    hide InOneGo, IsWhole, ParseAll, EndsWith, Telltale, AcceptsFalsely, Tag, F.FirstFour, MESSAGE, ZEROS, Run, Hex.HexBytes;
    ZerosGiven();
    MessageTagIsOnes(g.inMsgCount, g.challenge);
    FalselyAccepted(Telltale, g, seen, q, MESSAGE, [], ZEROS);
    AllButLast(Telltale, g, ZEROS);
  }

  lemma FailsFrom(g: Gate, events: seq<Event>, end: Gate, seen: seq<Byte>)
    requires g.Valid() && Run(Telltale, g, events) == end && Arrived(events) == seen
    requires end.Valid() && AcceptsFalsely(Telltale, end, seen, ZEROS) && CommandOf(Run(Telltale, end, Reading(ZEROS[..7], None))) == CMD
    ensures !StaysFair(Telltale, g, events + Reading(ZEROS, None), [])
    ensures var before := Run(Telltale, g, events + Reading(ZEROS[..7], None));
            Step(Telltale, before, Arrives(0x30, None)).1 == CMD && !Genuine(Telltale, before, seen + ZEROS)
  {
    hide Run, StaysFair, Step, Genuine, Accepts, Telltale, Reading, Fair;
    FalseIsUnfair(Telltale, end, seen, ZEROS);
    FairAppend(Telltale, g, events, Reading(ZEROS, None), []);
    assert [] + seen == seen;
    RunAppend(Telltale, g, events, Reading(ZEROS[..7], None));
  }
}
