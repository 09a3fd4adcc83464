/** The two parsers run in step. */
module ParserLockstep {
  import opened Bytes
  import opened CommandParser

  predicate Nulled(body: seq<Byte>, b: Byte) {
    b == END || IsSeparator(b) || (b == REFRESH && REFRESH !in body)
  }

  /** A message body with its separators, its first colon and its closing brace replaced by nulls. */
  function Cooked(body: seq<Byte>): (c: seq<Byte>)
    ensures |c| == |body|
  {
    if body == [] then []
    else
      var front, b := body[..|body| - 1], body[|body| - 1];
      Cooked(front) + [if Nulled(front, b) then 0 else b]
  }

  lemma CookedOneMore(body: seq<Byte>, b: Byte)
    ensures Cooked(body + [b]) == Cooked(body) + [if Nulled(body, b) then 0 else b]
  {
    assert (body + [b])[..|body|] == body;
  }

  /** The body of the message the raw parser has collected so far. */
  function RawBody(r: RawParser): seq<Byte>
    requires r.Valid() && r.idx >= 1
  {
    r.args[1..r.idx]
  }

  /** Both at the same point of the same message; the one buffer is the other without its opening brace, cooked. */
  predicate InStep(p: Parser, r: RawParser)
    requires p.Valid() && r.Valid()
  {
    p.state == r.state && (p.state.MsgStarted? ==> p.idx == 0) &&
    (InMessage(p.state) ==>
      r.idx == p.idx + 1 && r.args[0] == START && p.args[..p.idx] == Cooked(RawBody(r)) && p.versionSeen == (REFRESH in RawBody(r))) &&
    (p.state.MsgEnd? ==>
      r.idx == p.idx >= 2 && r.args[0] == START && p.args[..p.idx - 1] == Cooked(RawBody(r)) && p.args[p.idx - 1] == 0 &&
      r.args[r.idx - 1] == END && r.args[r.idx] == 0)
  }

  lemma FrontAfterPut(args: seq<Byte>, i: nat, b: Byte)
    requires i < |args|
    ensures args[i := b][..i + 1] == args[..i] + [b]
  {
  }

  lemma PutInStep(p: Parser, r: RawParser, b: Byte, q: Parser, s: RawParser)
    requires p.Valid() && r.Valid() && InMessage(p.state) && InStep(p, r) && p.idx < PFOD_MAX_MSG_LEN - 2
    requires q.Valid() && s.Valid() && q.idx == p.idx + 1 && s.idx == r.idx + 1
    requires q.args == p.args[p.idx := if Nulled(RawBody(r), b) then 0 else b] && s.args == r.args[r.idx := b]
    ensures s.args[0] == START && q.args[..q.idx] == Cooked(RawBody(s)) && RawBody(s) == RawBody(r) + [b]
  {
    hide Cooked, Nulled;
    CookedOneMore(RawBody(r), b);
    assert RawBody(s) == RawBody(r) + [b];
    FrontAfterPut(p.args, p.idx, if Nulled(RawBody(r), b) then 0 else b);
  }

  /** What a byte of a message does to either parser while there is room. */
  lemma InsideIs(p: Parser, body: seq<Byte>, b: Byte)
    requires p.Valid() && InMessage(p.state) && p.idx < PFOD_MAX_MSG_LEN - 2 && p.versionSeen == (REFRESH in body)
    requires b != END && b != END_OF_FILE && !(p.state.MsgStarted? && b == REFRESH)
    ensures var q := Parse(p, b).0;
            q.idx == p.idx + 1 && q.args == p.args[p.idx := if Nulled(body, b) then 0 else b] &&
            q.versionSeen == (p.versionSeen || b == REFRESH) &&
            q.state == if IsSeparator(b) || p.state.ArgStarted? then ArgStarted else ReadingCmd
  {
  }

  lemma RawInsideIs(r: RawParser, b: Byte)
    requires r.Valid() && InMessage(r.state) && r.idx < PFOD_MAX_MSG_LEN - 1
    requires b != END && b != END_OF_FILE && !(r.state.MsgStarted? && b == REFRESH)
    ensures var s := RawParse(r, b).0;
            s.idx == r.idx + 1 && s.args == r.args[r.idx := b] &&
            s.state == if IsSeparator(b) || r.state.ArgStarted? then ArgStarted else ReadingCmd
  {
  }

  lemma InsideInStep(p: Parser, r: RawParser, b: Byte)
    requires p.Valid() && r.Valid() && InMessage(p.state) && InStep(p, r) && b != END && b != END_OF_FILE
    requires !(p.state.MsgStarted? && b == REFRESH)
    ensures InStep(Parse(p, b).0, RawParse(r, b).0)
  {
    hide Cooked;
    if p.idx < PFOD_MAX_MSG_LEN - 2 {
      hide Parse, RawParse, Nulled;
      InsideIs(p, RawBody(r), b);
      RawInsideIs(r, b);
      PutInStep(p, r, b, Parse(p, b).0, RawParse(r, b).0);
    }
  }

  lemma EndIs(p: Parser)
    requires p.Valid() && InMessage(p.state)
    ensures var q := Parse(p, END).0;
            q.idx == p.idx + 2 && q.args == p.args[p.idx := 0][p.idx + 1 := 0] && q.state.MsgEnd?
  {
  }

  lemma RawEndIs(r: RawParser)
    requires r.Valid() && InMessage(r.state)
    ensures var s := RawParse(r, END).0;
            s.idx == r.idx + 1 && s.args == r.args[r.idx := END][r.idx + 1 := 0] && s.state.MsgEnd?
  {
  }

  lemma EndInStep(p: Parser, r: RawParser)
    requires p.Valid() && r.Valid() && InMessage(p.state) && InStep(p, r)
    ensures InStep(Parse(p, END).0, RawParse(r, END).0)
  {
    hide Cooked, Parse, RawParse, Nulled;
    EndIs(p);
    RawEndIs(r);
    var q, s := Parse(p, END).0, RawParse(r, END).0;
    CookedOneMore(RawBody(r), END);
    EndNulled(RawBody(r));
    assert RawBody(s) == RawBody(r) + [END];
    assert q.args[..q.idx - 1] == p.args[..p.idx] + [0];
  }

  lemma EndNulled(body: seq<Byte>)
    ensures Nulled(body, END)
  {
  }

  lemma OutsideInStep(p: Parser, r: RawParser, b: Byte)
    requires p.Valid() && r.Valid() && InStep(p, r) && (!InMessage(p.state) || b == END_OF_FILE)
    ensures InStep(Parse(p, b).0, RawParse(r, b).0)
  {
    if b == START && !InMessage(p.state) {
      var q, s := Parse(p, b).0, RawParse(r, b).0;
      assert q.args[..0] == [] && RawBody(s) == [];
    }
  }

  /** The parsers stay in step on every byte but a colon right after the opening brace, which only the raw parser stores. */
  lemma {:induction false} StepInStep(p: Parser, r: RawParser, b: Byte)
    requires p.Valid() && r.Valid() && InStep(p, r)
    ensures InStep(Parse(p, b).0, RawParse(r, b).0) <==> !(p.state.MsgStarted? && b == REFRESH)
  {
    if !InMessage(p.state) || b == END_OF_FILE {
      OutsideInStep(p, r, b);
    } else if b == END {
      EndInStep(p, r);
    } else if !(p.state.MsgStarted? && b == REFRESH) {
      InsideInStep(p, r, b);
    }
  }

  /** No message of the run opens with a brace and a colon. */
  predicate NoRefresh(p: Parser, bytes: seq<Byte>)
    requires p.Valid()
    decreases |bytes|
  {
    bytes != [] ==> !(p.state.MsgStarted? && bytes[0] == REFRESH) && NoRefresh(Parse(p, bytes[0]).0, bytes[1..])
  }

  /** On any bytes without such a message the parsers start, reset and finish on the same byte. */
  lemma {:induction false} Lockstep(p: Parser, r: RawParser, bytes: seq<Byte>)
    requires p.Valid() && r.Valid() && InStep(p, r) && NoRefresh(p, bytes)
    ensures InStep(ParseAll(p, bytes), RawParseAll(r, bytes))
    decreases |bytes|
  {
    hide Parse, RawParse, InStep;
    if bytes != [] {
      StepInStep(p, r, bytes[0]);
      Lockstep(Parse(p, bytes[0]).0, RawParse(r, bytes[0]).0, bytes[1..]);
    }
  }
}

/** What a message means comes back out of the buffer. */
module ParserRecovery {
  import opened Bytes
  import opened CommandParser

  /** A field of a message: not empty, and without nulls and the bytes that have a meaning. */
  predicate IsField(f: seq<Byte>) {
    f != [] && forall b :: b in f ==> b != 0 && b != END && b != REFRESH && b != END_OF_FILE && !IsSeparator(b)
  }

  /** Fields joined by separators of any kind. */
  function Joined(fields: seq<seq<Byte>>, separators: seq<Byte>): seq<Byte>
    requires fields != [] && |separators| == |fields| - 1
  {
    if |fields| == 1 then fields[0] else fields[0] + [separators[0]] + Joined(fields[1..], separators[1..])
  }

  /** Fields each followed by a null. */
  function Terminated(fields: seq<seq<Byte>>): seq<Byte> {
    if fields == [] then [] else fields[0] + [0] + Terminated(fields[1..])
  }

  /** The separators as nulls. */
  function Split(fields: seq<seq<Byte>>): seq<Byte>
    requires fields != []
  {
    if |fields| == 1 then fields[0] else fields[0] + [0] + Split(fields[1..])
  }

  lemma {:induction false} SplitTerminated(fields: seq<seq<Byte>>)
    requires fields != []
    ensures Split(fields) + [0] == Terminated(fields)
  {
    if |fields| > 1 {
      SplitTerminated(fields[1..]);
      assert fields[0] + [0] + Split(fields[1..]) + [0] == fields[0] + [0] + (Split(fields[1..]) + [0]);
    } else {
      assert Terminated(fields[1..]) == [];
      assert fields[0] + [0] + [] == fields[0] + [0];
    }
  }

  lemma {:induction false} SplitLen(fields: seq<seq<Byte>>, separators: seq<Byte>)
    requires fields != [] && |separators| == |fields| - 1
    ensures |Split(fields)| == |Joined(fields, separators)|
  {
    if |fields| > 1 {
      SplitLen(fields[1..], separators[1..]);
    }
  }

  /** From where the command begins the parser has read the given text, and nothing else has changed. */
  predicate HasRead(base: Parser, p: Parser, text: seq<Byte>, count: nat, state: State) {
    base.Valid() && p.Valid() && p.state == state && base.idx + |text| == p.idx <= PFOD_MAX_MSG_LEN - 2 &&
    p.args[..base.idx] == base.args[..base.idx] && p.args[base.idx..p.idx] == text && p.argsCount == count &&
    p == base.(state := p.state, args := p.args, idx := p.idx, argsCount := p.argsCount)
  }

  lemma StartRead(p: Parser)
    requires p.Valid() && !InMessage(p.state)
    ensures var base := Parse(p, START).0;
            base == Init(p).(state := MsgStarted) && base.Valid() && HasRead(base, base, [], 0, MsgStarted)
  {
  }

  lemma ReadPlain(base: Parser, p: Parser, text: seq<Byte>, count: nat, state: State, b: Byte)
    requires HasRead(base, p, text, count, state) && InMessage(state) && base.idx + |text| < PFOD_MAX_MSG_LEN - 2
    requires b != 0 && b != END && b != REFRESH && b != END_OF_FILE && !IsSeparator(b)
    ensures HasRead(base, Parse(p, b).0, text + [b], count, if state.ArgStarted? then ArgStarted else ReadingCmd)
  {
    PutAtEnd(p.args, base.idx, p.idx, b);
  }

  lemma PutAtEnd(args: seq<Byte>, from: nat, i: nat, b: Byte)
    requires from <= i < |args|
    ensures args[i := b][..from] == args[..from] && args[i := b][from..i + 1] == args[from..i] + [b]
  {
  }

  lemma ReadSeparator(base: Parser, p: Parser, text: seq<Byte>, count: nat, state: State, b: Byte)
    requires HasRead(base, p, text, count, state) && (state.ReadingCmd? || state.ArgStarted?) && base.idx + |text| < PFOD_MAX_MSG_LEN - 2
    requires IsSeparator(b) && count < 255
    ensures HasRead(base, Parse(p, b).0, text + [0], if state.ArgStarted? then count + 1 else count, ArgStarted)
  {
    PutAtEnd(p.args, base.idx, p.idx, 0);
  }

  lemma {:induction false} ReadField(base: Parser, p: Parser, text: seq<Byte>, count: nat, state: State, f: seq<Byte>)
    requires HasRead(base, p, text, count, state) && InMessage(state) && base.idx + |text| + |f| <= PFOD_MAX_MSG_LEN - 2 && IsField(f)
    ensures HasRead(base, ParseAll(p, f), text + f, count, if state.ArgStarted? then ArgStarted else ReadingCmd)
    decreases |f|
  {
    hide Parse;
    var next := if state.ArgStarted? then ArgStarted else ReadingCmd;
    assert f[0] in f;
    ReadPlain(base, p, text, count, state, f[0]);
    if |f| > 1 {
      assert forall b :: b in f[1..] ==> b in f;
      ReadField(base, Parse(p, f[0]).0, text + [f[0]], count, next, f[1..]);
      assert text + [f[0]] + f[1..] == text + f;
    } else {
      assert f == [f[0]] && f[1..] == [];
    }
  }

  lemma {:induction false} ParseAllAppend(p: Parser, a: seq<Byte>, b: seq<Byte>)
    requires p.Valid()
    ensures ParseAll(p, a + b) == ParseAll(ParseAll(p, a), b)
    decreases |a|
  {
    hide Parse;
    if a == [] {
      assert a + b == b;
    } else {
      assert (a + b)[1..] == a[1..] + b;
      ParseAllAppend(Parse(p, a[0]).0, a[1..], b);
    }
  }

  function StateAfter(state: State, more: bool): State {
    if state.ArgStarted? || more then ArgStarted else ReadingCmd
  }

  lemma {:induction false} ReadJoined(base: Parser, p: Parser, text: seq<Byte>, count: nat, state: State,
                                      fields: seq<seq<Byte>>, separators: seq<Byte>)
    requires HasRead(base, p, text, count, state) && InMessage(state) && fields != [] && |separators| == |fields| - 1
    requires (forall f :: f in fields ==> IsField(f)) && (forall b :: b in separators ==> IsSeparator(b))
    requires base.idx + |text| + |Joined(fields, separators)| <= PFOD_MAX_MSG_LEN - 2 && count + |fields| < 256
    ensures HasRead(base, ParseAll(p, Joined(fields, separators)), text + Split(fields),
                    count + |fields| - 1 - (if state.ArgStarted? || |fields| == 1 then 0 else 1), StateAfter(state, |fields| > 1))
    decreases |fields|
  {
    hide Parse, HasRead, ParseAll;
    var f := fields[0];
    assert f in fields && p.Valid() by {
      ReadIsValid(base, p, text, count, state);
    }
    ReadField(base, p, text, count, state, f);
    if |fields| > 1 {
      var b, rest, seps := separators[0], fields[1..], separators[1..];
      var mid := ParseAll(p, f);
      ReadIsValid(base, mid, text + f, count, StateAfter(state, false));
      ReadSeparator(base, mid, text + f, count, StateAfter(state, false), b);
      var count' := if state.ArgStarted? then count + 1 else count;
      ReadJoined(base, Parse(mid, b).0, text + f + [0], count', ArgStarted, rest, seps);
      var joined := Joined(rest, seps);
      assert text + f + [0] + Split(rest) == text + Split(fields);
      ParseAllAppend(p, f, [b] + joined);
      ParseAllOne(mid, b, joined);
      assert f + [b] + joined == f + ([b] + joined);
    }
  }

  lemma ReadIsValid(base: Parser, p: Parser, text: seq<Byte>, count: nat, state: State)
    requires HasRead(base, p, text, count, state)
    ensures p.Valid()
  {
  }

  lemma ParseAllOne(p: Parser, b: Byte, rest: seq<Byte>)
    requires p.Valid()
    ensures ParseAll(p, [b] + rest) == ParseAll(Parse(p, b).0, rest)
  {
    hide Parse;
    assert ([b] + rest)[1..] == rest;
  }

  /** Fields from a place in the buffer on, each terminated, and a null after the last. */
  predicate FieldsAt(args: seq<Byte>, at: nat, fields: seq<seq<Byte>>) {
    var t := Terminated(fields);
    at + |t| < |args| && args[at..at + |t|] == t && args[at + |t|] == 0
  }

  lemma NullFromIs(args: seq<Byte>, i: nat, n: nat)
    requires i <= n < |args| && args[n] == 0 && 0 !in args[i..n]
    ensures NullFrom(args, i) == n
  {
    forall k | i <= k < n ensures args[k] != 0 {
      assert args[k] == args[i..n][k - i] && args[k] in args[i..n];
    }
  }

  lemma FirstFieldAt(args: seq<Byte>, at: nat, fields: seq<seq<Byte>>)
    requires FieldsAt(args, at, fields) && fields != [] && IsField(fields[0])
    ensures var n := at + |fields[0]|;
            NullFrom(args, at) == n && at < n && args[at..n] == fields[0] && FieldsAt(args, n + 1, fields[1..])
  {
    var f, rest := fields[0], Terminated(fields[1..]);
    var t := f + [0] + rest;
    var n := at + |f|;
    var all := args[at..at + |t|];
    assert all == t;
    assert args[at..n] == all[..|f|] == f;
    assert args[n] == all[|f|] == 0;
    assert args[n + 1..n + 1 + |rest|] == all[|f| + 1..] == rest;
    NullFromIs(args, at, n);
  }

  lemma {:induction false} ArgsAre(p: Parser, at: nat, fields: seq<seq<Byte>>)
    requires p.Valid() && FieldsAt(p.args, at, fields) && (forall f :: f in fields ==> IsField(f))
    ensures ArgsFrom(p, at) == fields
    decreases |fields|
  {
    hide FieldsAt, IsField;
    assert at <= ARGS_SIZE by {
      AtIsInside(p, at, fields);
    }
    if fields == [] {
      NothingAt(p, at);
    } else {
      assert fields[0] in fields;
      FirstFieldAt(p.args, at, fields);
      AtIsInside(p, at + |fields[0]| + 1, fields[1..]);
      ArgsAre(p, at + |fields[0]| + 1, fields[1..]);
    }
  }

  lemma AtIsInside(p: Parser, at: nat, fields: seq<seq<Byte>>)
    requires p.Valid() && FieldsAt(p.args, at, fields)
    ensures at < ARGS_SIZE
  {
  }

  lemma NothingAt(p: Parser, at: nat)
    requires p.Valid() && FieldsAt(p.args, at, [])
    ensures at < ARGS_SIZE && NullFrom(p.args, at) == at
  {
  }

  /** The message is not a repeat of the last one's sequence character. */
  predicate NotRepeated(p: Parser) {
    p.ignoreSeqNum || p.seqNum <= 32 || p.seqNum != p.lastSeqNum
  }

  /** The command and the arguments that the getters give. */
  predicate Yields(q: Parser, fields: seq<seq<Byte>>)
    requires fields != []
  {
    q.Valid() && q.state.MsgEnd? && q.argsCount == |fields| - 1 &&
    q.args[q.cmdStart..NullFrom(q.args, q.cmdStart)] == fields[0] &&
    GetFirstArg(q) <= ARGS_SIZE && ArgsFrom(q, GetFirstArg(q)) == fields[1..]
  }

  lemma EndRead(base: Parser, p: Parser, text: seq<Byte>, count: nat, state: State)
    requires HasRead(base, p, text, count, state) && (state.ReadingCmd? || state.ArgStarted?) && count < 255
    requires text != [] && text[0] != 0 && base.cmdStart == base.idx
    ensures var q := Parse(p, END);
            q.1 == (if NotRepeated(base) then text[0] else 0) && q.0.Valid() && q.0.state.MsgEnd? && Taken(base, q.0) &&
            base.idx + |text| + 2 <= |q.0.args| && q.0.argsCount == (if state.ArgStarted? then count + 1 else count) &&
            q.0.args[base.idx..base.idx + |text| + 2] == text + [0] + [0]
  {
    var q := Parse(p, END).0;
    assert q.args[base.idx] == p.args[base.idx..p.idx][0];
    assert q.args[base.idx..p.idx] == p.args[base.idx..p.idx];
  }

  /** What a finished message leaves besides its buffer: its sequence character is used up, and remembered as the last one. */
  predicate Taken(base: Parser, q: Parser) {
    q.cmdStart == base.cmdStart && q.versionSeen == base.versionSeen && q.refresh == base.refresh && q.version == base.version &&
    q.ignoreSeqNum == base.ignoreSeqNum && (!base.ignoreSeqNum ==> q.seqNum == 0 && q.lastSeqNum == base.seqNum)
  }

  lemma FieldsFrom(args: seq<Byte>, at: nat, fields: seq<seq<Byte>>)
    requires fields != [] && at + |Split(fields)| + 2 <= |args| && args[at..at + |Split(fields)| + 2] == Split(fields) + [0] + [0]
    ensures FieldsAt(args, at, fields)
  {
    var t := Terminated(fields);
    SplitTerminated(fields);
    var all := args[at..at + |t| + 1];
    assert all == t + [0];
    assert args[at..at + |t|] == all[..|t|];
    assert args[at + |t|] == all[|t|];
  }

  lemma FieldsYield(q: Parser, fields: seq<seq<Byte>>)
    requires q.Valid() && q.state.MsgEnd? && fields != [] && q.argsCount == |fields| - 1
    requires FieldsAt(q.args, q.cmdStart, fields) && (forall f :: f in fields ==> IsField(f))
    ensures Yields(q, fields)
  {
    hide FieldsAt, IsField;
    assert fields[0] in fields;
    FirstFieldAt(q.args, q.cmdStart, fields);
    if |fields| > 1 {
      AtIsInside(q, q.cmdStart + |fields[0]| + 1, fields[1..]);
      ArgsAre(q, q.cmdStart + |fields[0]| + 1, fields[1..]);
    } else {
      NothingAfter(q, fields[0]);
    }
  }

  /** Without arguments the first argument is the empty string at the end of the command. */
  lemma NothingAfter(q: Parser, f: seq<Byte>)
    requires q.Valid() && q.argsCount == 0 && NullFrom(q.args, q.cmdStart) < ARGS_SIZE
    ensures ArgsFrom(q, GetFirstArg(q)) == []
  {
  }

  // ---- what stands in front of the command ----

  /** Nothing, a colon, or a version and a colon. */
  datatype Opening = Plain | Refresh | Version(v: seq<Byte>) {
    predicate Valid() {
      Version? ==> IsField(v)
    }

    function Bytes(): seq<Byte> {
      match this
      case Plain => []
      case Refresh => [REFRESH]
      case Version(v) => v + [REFRESH]
    }

    /** The places it takes in the buffer. */
    function Places(): nat {
      if Version? then |v| + 1 else 0
    }
  }

  /** The parser behind the opening of a message. */
  predicate Opened(base: Parser, p: Parser, o: Opening) {
    p.Valid() && p.state == (if o.Plain? then MsgStarted else ReadingCmd) && p.idx == p.cmdStart == o.Places() && p.argsCount == 0 &&
    p.versionSeen == o.Version? && p.refresh == (o.Refresh? || o == Version(p.version)) &&
    p.seqNum == base.seqNum && p.lastSeqNum == base.lastSeqNum && p.ignoreSeqNum == base.ignoreSeqNum && p.version == base.version
  }

  lemma {:induction false} UpToNullIs(args: seq<Byte>, s: seq<Byte>)
    requires |s| < |args| && args[..|s|] == s && 0 !in s && args[|s|] == 0
    ensures UpToNull(args) == s
    decreases |s|
  {
    if s != [] {
      assert args[0] == args[..|s|][0] == s[0];
      assert args[1..][..|s| - 1] == args[..|s|][1..] == s[1..];
      UpToNullIs(args[1..], s[1..]);
      assert s == [s[0]] + s[1..];
    }
  }

  lemma VersionRead(base: Parser, p: Parser, v: seq<Byte>)
    requires HasRead(base, p, v, 0, ReadingCmd) && base.idx == 0 == base.cmdStart && !base.versionSeen && IsField(v) && |v| < PFOD_MAX_MSG_LEN - 2
    ensures Opened(base, Parse(p, REFRESH).0, Version(v))
  {
    var args := p.args[p.idx := 0];
    assert args[..|v|] == p.args[base.idx..p.idx] == v;
    UpToNullIs(args, v);
    hide UpToNull;
    assert p.idx == |v| && !p.state.MsgStarted?;
    assert Parse(p, REFRESH).0 == ParseVersion(p);
  }

  lemma OpeningRead(p: Parser, o: Opening)
    requires p.Valid() && !InMessage(p.state) && o.Valid() && o.Places() < PFOD_MAX_MSG_LEN - 2
    ensures Opened(p, ParseAll(p, [START] + o.Bytes()), o)
  {
    StartRead(p);
    var base := Parse(p, START).0;
    ParseAllOne(p, START, o.Bytes());
    assert base.idx == base.cmdStart == 0 && !base.versionSeen && !base.refresh && base.argsCount == 0;
    match o
    case Plain =>
    case Refresh =>
      ParseAllOne(base, REFRESH, []);
      assert [REFRESH] + [] == [REFRESH];
    case Version(v) =>
      hide Parse, HasRead, Opened;
      ReadField(base, base, [], 0, MsgStarted, v);
      assert [] + v == v;
      var read := ParseAll(base, v);
      ReadIsValid(base, read, v, 0, ReadingCmd);
      VersionRead(base, read, v);
      OpenedAlike(base, p, Parse(read, REFRESH).0, o);
      ParseAllAppend(base, v, [REFRESH]);
      ParseAllOne(read, REFRESH, []);
      assert [REFRESH] + [] == [REFRESH];
  }

  lemma OpenedAlike(base: Parser, p: Parser, q: Parser, o: Opening)
    requires Opened(base, q, o) && base.seqNum == p.seqNum && base.lastSeqNum == p.lastSeqNum
    requires base.ignoreSeqNum == p.ignoreSeqNum && base.version == p.version
    ensures Opened(p, q, o)
  {
  }

  /** A message up to its closing brace. */
  function Message(o: Opening, fields: seq<seq<Byte>>, separators: seq<Byte>): seq<Byte>
    requires fields != [] && |separators| == |fields| - 1
  {
    [START] + o.Bytes() + Joined(fields, separators)
  }

  /** Fields and separators that make a message which fits into the buffer. */
  predicate Proper(o: Opening, fields: seq<seq<Byte>>, separators: seq<Byte>) {
    o.Valid() && fields != [] && |separators| == |fields| - 1 &&
    (forall f :: f in fields ==> IsField(f)) && (forall b :: b in separators ==> IsSeparator(b)) &&
    o.Places() + |Joined(fields, separators)| <= PFOD_MAX_MSG_LEN - 2
  }

  /** Recovery: for every message that fits into the buffer, the getters give exactly its fields at the closing brace, and
      parsing returns the first byte of the command unless the message is a repeat. A refresh is asked for by a colon in
      front, or by the version of this parser. */
  lemma {:induction false} Recovery(p: Parser, o: Opening, fields: seq<seq<Byte>>, separators: seq<Byte>)
    requires p.Valid() && !InMessage(p.state) && Proper(o, fields, separators)
    ensures var q := Parse(ParseAll(p, Message(o, fields, separators)), END);
            fields[0] != [] && q.1 == (if NotRepeated(p) then fields[0][0] else 0) && Yields(q.0, fields) &&
            q.0.refresh == (o.Refresh? || o == Version(p.version)) && q.0.versionSeen == o.Version? &&
            q.0.version == p.version && q.0.ignoreSeqNum == p.ignoreSeqNum &&
            (!p.ignoreSeqNum ==> q.0.seqNum == 0 && q.0.lastSeqNum == p.seqNum)
  {
    FewFields(fields, separators);
    OpeningRead(p, o);
    var behind, joined := ParseAll(p, [START] + o.Bytes()), Joined(fields, separators);
    ParseAllAppend(p, [START] + o.Bytes(), joined);
    FirstOfSplit(fields);
    hide Parse, ParseAll, Joined, Split, Yields;
    FieldsRead(behind, fields, separators);
  }

  /** The fields behind the opening. */
  lemma {:induction false} FieldsRead(base: Parser, fields: seq<seq<Byte>>, separators: seq<Byte>)
    requires base.Valid() && InMessage(base.state) && !base.state.ArgStarted? && base.idx == base.cmdStart && base.argsCount == 0
    requires fields != [] && |separators| == |fields| - 1
    requires (forall f :: f in fields ==> IsField(f)) && (forall b :: b in separators ==> IsSeparator(b))
    requires base.idx + |Joined(fields, separators)| <= PFOD_MAX_MSG_LEN - 2
    ensures var q := Parse(ParseAll(base, Joined(fields, separators)), END);
            fields[0] != [] && q.1 == (if NotRepeated(base) then fields[0][0] else 0) && Yields(q.0, fields) && Taken(base, q.0)
  {
    assert HasRead(base, base, [], 0, base.state);
    FewFields(fields, separators);
    hide Parse, ParseAll, HasRead, Joined, NotRepeated, Yields, Taken;
    ReadJoined(base, base, [], 0, base.state, fields, separators);
    assert [] + Split(fields) == Split(fields);
    FirstOfSplit(fields);
    var read := ParseAll(base, Joined(fields, separators));
    var count, state := if |fields| == 1 then 0 else |fields| - 2, StateAfter(base.state, |fields| > 1);
    ReadIsValid(base, read, Split(fields), count, state);
    EndRead(base, read, Split(fields), count, state);
    var q := Parse(read, END);
    TakenStarts(base, q.0);
    FieldsFrom(q.0.args, base.idx, fields);
    FieldsYield(q.0, fields);
  }

  lemma TakenStarts(base: Parser, q: Parser)
    requires Taken(base, q)
    ensures q.cmdStart == base.cmdStart
  {
  }

  lemma FirstOfSplit(fields: seq<seq<Byte>>)
    requires fields != [] && (forall f :: f in fields ==> IsField(f))
    ensures Split(fields) != [] && fields[0] != [] && Split(fields)[0] == fields[0][0] && fields[0][0] != 0
  {
    assert fields[0] in fields && fields[0][0] in fields[0];
  }

  /** Every field and every separator takes a byte. */
  lemma {:induction false} FewFields(fields: seq<seq<Byte>>, separators: seq<Byte>)
    requires fields != [] && |separators| == |fields| - 1 && (forall f :: f in fields ==> IsField(f))
    ensures 2 * |fields| - 1 <= |Joined(fields, separators)|
  {
    assert fields[0] in fields;
    if |fields| > 1 {
      FewFields(fields[1..], separators[1..]);
    }
  }
}

/** Which of several messages are returned: one that repeats the sequence character of the one before is not. */
module ParserRepeats {
  import opened Bytes
  import opened CommandParser
  import opened ParserRecovery

  /** A message with the bytes in front of it, of which the last is its sequence character. */
  datatype Sent = Sent(gap: seq<Byte>, opening: Opening, fields: seq<seq<Byte>>, separators: seq<Byte>) {
    predicate Valid() {
      START !in gap && END_OF_FILE !in gap && Proper(opening, fields, separators)
    }

    function Front(): seq<Byte>
      requires Valid()
    {
      gap + Message(opening, fields, separators)
    }

    /** The first byte of the command. */
    function Command(): Byte
      requires Valid()
    {
      FieldIsNotEmpty(fields);
      fields[0][0]
    }

    /** The sequence character, of which the parser knows one already or has used it up. */
    function Char(known: Byte): Byte {
      if gap == [] then known else gap[|gap| - 1]
    }
  }

  lemma FieldIsNotEmpty(fields: seq<seq<Byte>>)
    requires fields != [] && (forall f :: f in fields ==> IsField(f))
    ensures fields[0] != []
  {
    assert fields[0] in fields;
  }

  predicate AllValid(msgs: seq<Sent>) {
    forall m :: m in msgs ==> m.Valid()
  }

  /** What parsing returns at the closing brace of a message, and the parser behind it. */
  function Taken(p: Parser, m: Sent): (r: (Parser, Byte))
    requires p.Valid() && m.Valid()
    ensures r.0.Valid()
  {
    Parse(ParseAll(p, m.Front()), END)
  }

  /** What is returned at the closing braces of several messages. */
  function Returned(p: Parser, msgs: seq<Sent>): (r: seq<Byte>)
    requires p.Valid() && AllValid(msgs)
    ensures |r| == |msgs|
    decreases |msgs|
  {
    if msgs == [] then []
    else
      assert msgs[0] in msgs;
      [Taken(p, msgs[0]).1] + Returned(Taken(p, msgs[0]).0, msgs[1..])
  }

  lemma {:induction false} GapParsed(p: Parser, gap: seq<Byte>)
    requires p.Valid() && !InMessage(p.state) && START !in gap && END_OF_FILE !in gap
    ensures var q := ParseAll(p, gap);
            !InMessage(q.state) && q == p.(state := q.state, seqNum := if gap == [] then p.seqNum else gap[|gap| - 1])
    decreases |gap|
  {
    if gap != [] {
      assert gap[0] in gap && forall b :: b in gap[1..] ==> b in gap;
      GapParsed(Parse(p, gap[0]).0, gap[1..]);
    }
  }

  /** The character is remembered, and the command returned unless it is that of the message before. */
  lemma {:induction false} OneTaken(p: Parser, m: Sent)
    requires p.Valid() && !InMessage(p.state) && m.Valid()
    ensures var c, r := m.Char(p.seqNum), Taken(p, m);
            r.1 == (if p.ignoreSeqNum || c <= 32 || c != p.lastSeqNum then m.Command() else 0) &&
            !InMessage(r.0.state) && r.0.ignoreSeqNum == p.ignoreSeqNum && Yields(r.0, m.fields) &&
            (!p.ignoreSeqNum ==> r.0.seqNum == 0 && r.0.lastSeqNum == c)
  {
    HasFields(m);
    hide Parse, ParseAll, Message, Proper;
    GapParsed(p, m.gap);
    var q := ParseAll(p, m.gap);
    ParseAllAppend(p, m.gap, Message(m.opening, m.fields, m.separators));
    assert NotRepeated(q) <==> q.ignoreSeqNum || q.seqNum <= 32 || q.seqNum != q.lastSeqNum;
    hide NotRepeated, Yields;
    Recovery(q, m.opening, m.fields, m.separators);
    YieldsEnded(Taken(p, m).0, m.fields);
  }

  lemma HasFields(m: Sent)
    requires m.Valid()
    ensures m.fields != [] && |m.separators| == |m.fields| - 1
  {
  }

  lemma YieldsEnded(q: Parser, fields: seq<seq<Byte>>)
    requires fields != [] && Yields(q, fields)
    ensures !InMessage(q.state)
  {
  }

  /** The sequence characters of several messages; a message that follows directly has none. */
  function CharOf(msgs: seq<Sent>, i: nat, known: Byte): Byte
    requires i < |msgs|
  {
    msgs[i].Char(if i == 0 then known else 0)
  }

  /** For any messages that fit and any bytes between them: a message returns its command if and only if sequence
      characters are ignored, its own is not printable, or it differs from that of the message before. */
  lemma {:induction false} ReturnedExactly(p: Parser, msgs: seq<Sent>, i: nat)
    requires p.Valid() && !InMessage(p.state) && AllValid(msgs) && i < |msgs|
    ensures var c := CharOf(msgs, i, p.seqNum);
            var last := if i == 0 then p.lastSeqNum else CharOf(msgs, i - 1, p.seqNum);
            msgs[i] in msgs &&
            Returned(p, msgs)[i] == if p.ignoreSeqNum || c <= 32 || c != last then msgs[i].Command() else 0
    decreases |msgs|
  {
    hide Taken;
    var m := msgs[0];
    assert m in msgs && msgs[i] in msgs;
    OneTaken(p, m);
    if i > 0 {
      var next := Taken(p, m).0;
      assert msgs[1..][i - 1] == msgs[i];
      ReturnedExactly(next, msgs[1..], i - 1);
      if !p.ignoreSeqNum {
        CharLater(msgs, i, p.seqNum);
        if i > 1 {
          CharLater(msgs, i - 1, p.seqNum);
        }
      }
    }
  }

  lemma CharLater(msgs: seq<Sent>, i: nat, known: Byte)
    requires 0 < i < |msgs|
    ensures CharOf(msgs[1..], i - 1, 0) == CharOf(msgs, i, known)
  {
  }

  /** The same message sent again with the same printable character is not returned again; with another one it is. */
  lemma AgainExactly(p: Parser, m: Sent, again: Sent)
    requires p.Valid() && !InMessage(p.state) && !p.ignoreSeqNum && m.Valid() && again.Valid() && m.gap != [] && again.gap != []
    requires m.gap[|m.gap| - 1] > 32
    ensures var c, d := m.gap[|m.gap| - 1], again.gap[|again.gap| - 1];
            Taken(Taken(p, m).0, again).1 == if d == c then 0 else again.Command()
  {
    OneTaken(p, m);
    OneTaken(Taken(p, m).0, again);
    hide Taken;
  }

  // ---- any bytes at all ----

  /** What parsing returns for each of some bytes. */
  function Outputs(p: Parser, bytes: seq<Byte>): (r: seq<Byte>)
    requires p.Valid()
    ensures |r| == |bytes|
    decreases |bytes|
  {
    if bytes == [] then [] else [Parse(p, bytes[0]).1] + Outputs(Parse(p, bytes[0]).0, bytes[1..])
  }

  lemma OutputOfByte(p: Parser, b: Byte)
    requires p.Valid() && Parse(p, b).1 != 0
    ensures var q := Parse(p, b); b == END && InMessage(p.state) && q.0.state.MsgEnd? && q.1 == q.0.args[q.0.cmdStart]
  {
  }

  /** Whatever is parsed, a command is returned at the closing brace of a message and nowhere else, and it is the first
      byte of what the getters then give. */
  lemma {:induction false} OnlyEndsReturn(p: Parser, bytes: seq<Byte>, i: nat)
    requires p.Valid() && i < |bytes| && Outputs(p, bytes)[i] != 0
    ensures var before, after := ParseAll(p, bytes[..i]), ParseAll(p, bytes[..i + 1]);
            bytes[i] == END && InMessage(before.state) && after.state.MsgEnd? && Outputs(p, bytes)[i] == after.args[after.cmdStart]
    decreases |bytes|
  {
    var next := Parse(p, bytes[0]).0;
    if i == 0 {
      OutputOfByte(p, bytes[0]);
      assert bytes[..1][1..] == [];
    } else {
      OnlyEndsReturn(next, bytes[1..], i - 1);
      assert bytes[..i][1..] == bytes[1..][..i - 1] && bytes[..i + 1][1..] == bytes[1..][..i];
    }
    hide Parse;
  }

  /** After the byte that ends a connection there is neither a command nor an argument, whatever was parsed before. */
  lemma {:induction false} NothingAfterClose(p: Parser, bytes: seq<Byte>)
    requires p.Valid()
    ensures var q := ParseAll(p, bytes + [END_OF_FILE]);
            q.state.WaitingForStart? && q.args[q.cmdStart] == 0 && ArgsFrom(q, GetFirstArg(q)) == [] && !q.refresh && !q.versionSeen
  {
    ParseAllAppend(p, bytes, [END_OF_FILE]);
    var last := ParseAll(p, bytes);
    assert [END_OF_FILE][1..] == [];
    assert ParseAll(last, [END_OF_FILE]) == Init(last);
  }

  /** A caller that goes on asking once the arguments have ended is given the same place again. */
  lemma EndStays(p: Parser, i: nat)
    requires p.Valid() && i < ARGS_SIZE && ArgsFrom(p, i) == []
    ensures GetNextArg(p, i) == i && ArgsFrom(p, GetNextArg(p, i)) == []
  {
    NullIsInside(p.args, i);
  }
}

/** What the raw parser keeps: the message as it came. */
module RawRecovery {
  import opened Bytes
  import opened CommandParser

  predicate Holds(r: RawParser, text: seq<Byte>) {
    r.Valid() && InMessage(r.state) && r.idx == |text| && r.args[..r.idx] == text
  }

  lemma RawByte(r: RawParser, text: seq<Byte>, b: Byte)
    requires Holds(r, text) && b != END && b != END_OF_FILE && |text| < PFOD_MAX_MSG_LEN - 1
    ensures Holds(RawParse(r, b).0, text + [b]) && RawParse(r, b).1 == 0
  {
    assert r.args[r.idx := b][..r.idx + 1] == r.args[..r.idx] + [b];
  }

  lemma {:induction false} RawBody(r: RawParser, text: seq<Byte>, body: seq<Byte>)
    requires Holds(r, text) && END !in body && END_OF_FILE !in body && |text| + |body| <= PFOD_MAX_MSG_LEN - 1
    ensures Holds(RawParseAll(r, body), text + body)
    decreases |body|
  {
    hide RawParse;
    if body == [] {
      assert text + body == text;
    } else {
      assert body[0] in body && forall b :: b in body[1..] ==> b in body;
      RawByte(r, text, body[0]);
      RawBody(RawParse(r, body[0]).0, text + [body[0]], body[1..]);
      assert text + [body[0]] + body[1..] == text + body;
    }
  }

  lemma {:induction false} RawAppend(r: RawParser, a: seq<Byte>, b: seq<Byte>)
    requires r.Valid()
    ensures RawParseAll(r, a + b) == RawParseAll(RawParseAll(r, a), b)
    decreases |a|
  {
    hide RawParse;
    if a == [] {
      assert a + b == b;
    } else {
      assert (a + b)[1..] == a[1..] + b;
      RawAppend(RawParse(r, a[0]).0, a[1..], b);
    }
  }

  /** Every message of at most 253 bytes between its braces, whatever these bytes are, can be read out as it was sent, and
      ends with a null. */
  lemma {:induction false} RawMessage(r: RawParser, body: seq<Byte>)
    requires r.Valid() && !InMessage(r.state) && END !in body && END_OF_FILE !in body && |body| <= PFOD_MAX_MSG_LEN - 2
    ensures var q, msg := RawParseAll(r, [START] + body + [END]), [START] + body + [END];
            q.state.MsgEnd? && q.idx == |msg| < |q.args| && q.readIdx == 0 && q.args[..q.idx] == msg && q.args[q.idx] == 0
  {
    var started := RawParse(r, START).0;
    assert started.args[..1] == [START];
    RawBody(started, [START], body);
    RawAppend(r, [START] + body, [END]);
    RawAppend(r, [START], body);
    assert [START][1..] == [] && [END][1..] == [];
    var read := RawParseAll(started, body);
    assert RawParseAll(r, [START]) == started && RawParseAll(read, [END]) == RawParse(read, END).0;
    hide RawParseAll;
    RawEnd(read, [START] + body);
  }

  lemma RawEnd(r: RawParser, text: seq<Byte>)
    requires Holds(r, text) && text != []
    ensures var q := RawParse(r, END).0;
            q.state.MsgEnd? && q.idx == |text| + 1 < |q.args| && q.readIdx == 0 && q.args[..q.idx] == text + [END] && q.args[q.idx] == 0
  {
    assert r.args[r.idx := END][r.idx + 1 := 0][..r.idx + 1] == r.args[..r.idx] + [END];
  }

  // ---- what is returned at the closing brace ----

  /** A colon that is not the first byte: it ends a version. */
  predicate HasColon(body: seq<Byte>) {
    |body| > 1 && REFRESH in body[1..]
  }

  /** The place of the first such colon. */
  function ColonAt(body: seq<Byte>): (k: nat)
    requires HasColon(body)
    ensures 1 <= k < |body| && body[k] == REFRESH && REFRESH !in body[1..k]
  {
    var front := body[..|body| - 1];
    if HasColon(front) then
      assert front[1..ColonAt(front)] == body[1..ColonAt(front)];
      ColonAt(front)
    else
      assert front[1..] == body[1..|body| - 1] && body[1..] == body[1..|body| - 1] + [body[|body| - 1]];
      |body| - 1
  }

  /** What is known of a message of which some bytes have been read; a version is only looked for if none has been seen. */
  predicate Marked(r: RawParser, body: seq<Byte>, seen: bool) {
    (r.state.MsgStarted? <==> body == []) && r.versionSeen == (seen || HasColon(body)) &&
    r.cmdStart == (if seen || !HasColon(body) then 0 else ColonAt(body) + 2) &&
    r.refresh == ((body != [] && body[0] == REFRESH) || (!seen && HasColon(body)))
  }

  lemma OneMore(body: seq<Byte>, b: Byte)
    ensures HasColon(body + [b]) <==> HasColon(body) || (body != [] && b == REFRESH)
    ensures HasColon(body + [b]) ==> ColonAt(body + [b]) == if HasColon(body) then ColonAt(body) else |body|
  {
    assert (body + [b])[..|body|] == body;
    if body != [] {
      assert (body + [b])[1..] == body[1..] + [b];
    }
  }

  lemma ByteMarked(r: RawParser, body: seq<Byte>, b: Byte, seen: bool)
    requires Holds(r, [START] + body) && Marked(r, body, seen) && b != END && b != END_OF_FILE && |body| < PFOD_MAX_MSG_LEN - 2
    ensures Marked(RawParse(r, b).0, body + [b], seen)
  {
    OneMore(body, b);
    assert body != [] ==> (body + [b])[0] == body[0];
    assert body == [] ==> (body + [b])[0] == b;
    hide HasColon, ColonAt;
  }

  lemma {:induction false} BodyMarked(r: RawParser, body: seq<Byte>, more: seq<Byte>, seen: bool)
    requires Holds(r, [START] + body) && Marked(r, body, seen)
    requires END !in more && END_OF_FILE !in more && |body| + |more| <= PFOD_MAX_MSG_LEN - 2
    ensures Marked(RawParseAll(r, more), body + more, seen)
    decreases |more|
  {
    hide RawParse, Marked;
    if more == [] {
      assert body + more == body;
    } else {
      assert more[0] in more && forall b :: b in more[1..] ==> b in more;
      ByteMarked(r, body, more[0], seen);
      RawByte(r, [START] + body, more[0]);
      assert [START] + body + [more[0]] == [START] + (body + [more[0]]) && body + [more[0]] + more[1..] == body + more;
      BodyMarked(RawParse(r, more[0]).0, body + [more[0]], more[1..], seen);
    }
  }

  lemma EndMarked(r: RawParser, body: seq<Byte>, seen: bool)
    requires Holds(r, [START] + body) && Marked(r, body, seen)
    ensures var q, text := RawParse(r, END), [START] + body + [END];
            q.1 == (if seen || !HasColon(body) then START else text[ColonAt(body) + 2]) &&
            q.0.refresh == r.refresh && q.0.versionSeen == r.versionSeen
  {
    RawEnd(r, [START] + body);
    var q := RawParse(r, END).0;
    var text := [START] + body + [END];
    assert q.args[..q.idx] == text;
    assert forall k :: 0 <= k < |text| ==> q.args[k] == q.args[..q.idx][k];
    hide HasColon, ColonAt;
  }

  /** What the raw parser returns for a message: the byte behind the colon of the first version it has ever seen, if this is
      the message with it, and the opening brace for every other message. A refresh is asked for by a colon in front or by
      that version, and once a version has been seen no other one is looked for. */
  lemma {:induction false} RawReturnsExactly(r: RawParser, body: seq<Byte>)
    requires r.Valid() && !InMessage(r.state) && END !in body && END_OF_FILE !in body && |body| <= PFOD_MAX_MSG_LEN - 2
    ensures var q, text := RawParse(RawParseAll(r, [START] + body), END), [START] + body + [END];
            q.1 == (if r.versionSeen || !HasColon(body) then START else text[ColonAt(body) + 2]) &&
            q.0.refresh == ((body != [] && body[0] == REFRESH) || (!r.versionSeen && HasColon(body))) &&
            q.0.versionSeen == (r.versionSeen || HasColon(body))
  {
    var started := RawParse(r, START).0;
    assert started.args[..1] == [START] && [START] + [] == [START];
    assert Holds(started, [START]) && Marked(started, [], r.versionSeen);
    assert ([START] + body)[1..] == body;
    hide RawParse, Holds, Marked, HasColon, ColonAt;
    RawBody(started, [START], body);
    BodyMarked(started, [], body, r.versionSeen);
    assert [] + body == body;
    var read := RawParseAll(started, body);
    EndMarked(read, body, r.versionSeen);
    MarkedIs(read, body, r.versionSeen);
  }

  lemma MarkedIs(r: RawParser, body: seq<Byte>, seen: bool)
    requires Marked(r, body, seen)
    ensures r.versionSeen == (seen || HasColon(body)) && r.refresh == ((body != [] && body[0] == REFRESH) || (!seen && HasColon(body)))
  {
    hide HasColon, ColonAt;
  }

  /** What the raw parser returns for each of some bytes. */
  function RawOutputs(r: RawParser, bytes: seq<Byte>): (q: seq<Byte>)
    requires r.Valid()
    ensures |q| == |bytes|
    decreases |bytes|
  {
    if bytes == [] then [] else [RawParse(r, bytes[0]).1] + RawOutputs(RawParse(r, bytes[0]).0, bytes[1..])
  }

  lemma RawOutputOfByte(r: RawParser, b: Byte)
    requires r.Valid() && RawParse(r, b).1 != 0
    ensures b == END && InMessage(r.state) && RawParse(r, b).0.state.MsgEnd?
  {
  }

  /** Whatever is parsed, a command is returned at the closing brace of a message and nowhere else. */
  lemma {:induction false} OnlyRawEndsReturn(r: RawParser, bytes: seq<Byte>, i: nat)
    requires r.Valid() && i < |bytes| && RawOutputs(r, bytes)[i] != 0
    ensures bytes[i] == END && InMessage(RawParseAll(r, bytes[..i]).state) && RawParseAll(r, bytes[..i + 1]).state.MsgEnd?
    decreases |bytes|
  {
    if i == 0 {
      RawOutputOfByte(r, bytes[0]);
      assert bytes[..1][1..] == [];
    } else {
      OnlyRawEndsReturn(RawParse(r, bytes[0]).0, bytes[1..], i - 1);
      assert bytes[..i][1..] == bytes[1..][..i - 1] && bytes[..i + 1][1..] == bytes[1..][..i];
    }
    hide RawParse;
  }

  /** After the byte that ends a connection nothing can be read out. */
  lemma {:induction false} NothingRawAfterClose(r: RawParser, bytes: seq<Byte>)
    requires r.Valid()
    ensures var q := RawParseAll(r, bytes + [END_OF_FILE]); q.state.WaitingForStart? && q.idx == q.readIdx == 0 && q.args[q.cmdStart] == 0 && !q.refresh
  {
    RawAppend(r, bytes, [END_OF_FILE]);
    var last := RawParseAll(r, bytes);
    assert [END_OF_FILE][1..] == [];
    assert RawParseAll(last, [END_OF_FILE]) == RawInit(last);
  }

  // ---- the count of arguments ----

  function Separators(s: seq<Byte>): nat {
    if s == [] then 0 else Separators(s[..|s| - 1]) + if IsSeparator(s[|s| - 1]) then 1 else 0
  }

  /** Inside a message the last argument is not counted yet. */
  predicate Counted(r: RawParser, body: seq<Byte>, before: nat) {
    (r.state.ArgStarted? <==> Separators(body) > 0) &&
    r.argsCount == (before + if Separators(body) > 0 then Separators(body) - 1 else 0) % 256
  }

  lemma ByteCounted(r: RawParser, body: seq<Byte>, b: Byte, before: nat)
    requires Holds(r, [START] + body) && Counted(r, body, before) && b != END && b != END_OF_FILE && |body| < PFOD_MAX_MSG_LEN - 2
    ensures Counted(RawParse(r, b).0, body + [b], before)
  {
    assert (body + [b])[..|body|] == body;
    hide Holds;
  }

  lemma {:induction false} BodyCounted(r: RawParser, body: seq<Byte>, more: seq<Byte>, before: nat)
    requires Holds(r, [START] + body) && Counted(r, body, before)
    requires END !in more && END_OF_FILE !in more && |body| + |more| <= PFOD_MAX_MSG_LEN - 2
    ensures Counted(RawParseAll(r, more), body + more, before)
    decreases |more|
  {
    hide RawParse, Counted;
    if more == [] {
      assert body + more == body;
    } else {
      assert more[0] in more && forall b :: b in more[1..] ==> b in more;
      ByteCounted(r, body, more[0], before);
      RawByte(r, [START] + body, more[0]);
      assert [START] + body + [more[0]] == [START] + (body + [more[0]]) && body + [more[0]] + more[1..] == body + more;
      BodyCounted(RawParse(r, more[0]).0, body + [more[0]], more[1..], before);
    }
  }

  lemma EndCounted(r: RawParser, body: seq<Byte>, before: nat)
    requires Holds(r, [START] + body) && Counted(r, body, before)
    ensures RawParse(r, END).0.argsCount == (before + Separators(body)) % 256
  {
    hide Holds;
  }

  lemma StartCounted(r: RawParser)
    requires r.Valid() && !InMessage(r.state) && r.argsCount < 256
    ensures var started := RawParse(r, START).0; Holds(started, [START]) && Counted(started, [], r.argsCount)
  {
    assert RawParse(r, START).0.args[..1] == [START];
  }

  lemma RawStarts(r: RawParser, body: seq<Byte>)
    requires r.Valid()
    ensures RawParseAll(r, [START] + body) == RawParseAll(RawParse(r, START).0, body)
  {
    hide RawParse;
    assert ([START] + body)[1..] == body;
  }

  lemma RestCounted(started: RawParser, body: seq<Byte>, before: nat)
    requires Holds(started, [START]) && Counted(started, [], before)
    requires END !in body && END_OF_FILE !in body && |body| <= PFOD_MAX_MSG_LEN - 2
    ensures var read := RawParseAll(started, body);
            InMessage(read.state) && RawParse(read, END).0.argsCount == (before + Separators(body)) % 256
  {
    hide RawParse, Counted, Separators;
    assert [START] + [] == [START];
    assert [] + body == body;
    RawBody(started, [START], body);
    BodyCounted(started, [], body, before);
    EndCounted(RawParseAll(started, body), body, before);
  }

  /** The raw parser never sets its count of arguments back: every message adds its own. */
  lemma {:induction false} RawCounts(r: RawParser, body: seq<Byte>)
    requires r.Valid() && !InMessage(r.state) && END !in body && END_OF_FILE !in body && |body| <= PFOD_MAX_MSG_LEN - 2 && r.argsCount < 256
    ensures RawParse(RawParseAll(r, [START] + body), END).0.argsCount == (r.argsCount + Separators(body)) % 256
  {
    StartCounted(r);
    RawStarts(r, body);
    hide RawParse, RawParseAll, Holds, Counted, Separators;
    RestCounted(RawParse(r, START).0, body, r.argsCount);
  }
}
