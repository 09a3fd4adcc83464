/** The two command parsers: fed byte by byte, they collect one message in a fixed buffer. */
module CommandParser {
  import opened Bytes

  const PFOD_MAX_MSG_LEN: nat := 255
  const ARGS_SIZE: nat := PFOD_MAX_MSG_LEN + 1

  const START: Byte := 0x7b
  const END: Byte := 0x7d
  const BAR: Byte := 0x7c
  const TILDA: Byte := 0x7e
  const ACCENT: Byte := 0x60
  const REFRESH: Byte := 0x3a
  const END_OF_FILE: Byte := 0xff

  datatype State = WaitingForStart | MsgStarted | ReadingCmd | ArgStarted | MsgEnd

  predicate IsSeparator(b: Byte) {
    b == BAR || b == TILDA || b == ACCENT
  }

  predicate InMessage(s: State) {
    s.MsgStarted? || s.ReadingCmd? || s.ArgStarted?
  }

  /** The string that starts at the front. */
  function UpToNull(s: seq<Byte>): seq<Byte> {
    if s == [] || s[0] == 0 then [] else [s[0]] + UpToNull(s[1..])
  }

  datatype Parser = Parser(state: State, args: seq<Byte>, idx: nat, argsCount: nat, versionSeen: bool, cmdStart: nat, refresh: bool,
                           seqNum: Byte, lastSeqNum: Byte, ignoreSeqNum: bool, version: seq<Byte>)
  {
    /** Every place written to and read from lies inside the buffer, and a null at its end stops every search. */
    predicate Valid() {
      |args| == ARGS_SIZE && args[PFOD_MAX_MSG_LEN] == 0 && idx <= PFOD_MAX_MSG_LEN && cmdStart <= PFOD_MAX_MSG_LEN &&
      (InMessage(state) ==> idx <= PFOD_MAX_MSG_LEN - 2 && cmdStart <= idx)
    }
  }

  function Init(p: Parser): (r: Parser)
    requires p.Valid()
    ensures r.Valid() && r.ignoreSeqNum == p.ignoreSeqNum
  {
    p.(state := WaitingForStart, argsCount := 0, idx := 0, cmdStart := 0, versionSeen := false, refresh := false,
       args := p.args[0 := 0][1 := 0][PFOD_MAX_MSG_LEN := 0][PFOD_MAX_MSG_LEN - 1 := 0])
  }

  /** Outside a message everything but an opening brace is only remembered as a sequence character. */
  function ParseOutside(p: Parser, b: Byte): (r: Parser)
    requires p.Valid()
    ensures r.Valid()
  {
    if b == START then Init(p).(state := MsgStarted) else p.(state := WaitingForStart, seqNum := b)
  }

  /** The first colon ends the version that was asked for. */
  function ParseVersion(p: Parser): (r: Parser)
    requires p.Valid() && p.idx < PFOD_MAX_MSG_LEN - 2
    ensures r.Valid()
  {
    var args := p.args[p.idx := 0];
    p.(args := args, idx := p.idx + 1, versionSeen := true, cmdStart := p.idx + 1, refresh := UpToNull(args) == p.version)
  }

  /** A separator starts an argument; a closing brace ends the message and returns the first byte of the command, unless
      the message repeats the sequence character of the last one. */
  function ParseSpecial(p: Parser, b: Byte): (r: (Parser, Byte))
    requires p.Valid() && p.idx <= PFOD_MAX_MSG_LEN - 2 && (b != END ==> p.idx < PFOD_MAX_MSG_LEN - 2) && p.cmdStart <= p.idx
    ensures r.0.Valid()
  {
    var count := if p.state.ArgStarted? then (p.argsCount + 1) % 256 else p.argsCount;
    var args := p.args[p.idx := 0];
    if b != END then (p.(args := args, idx := p.idx + 1, argsCount := count, state := ArgStarted), 0)
    else
      var p := p.(args := args[p.idx + 1 := 0], idx := p.idx + 2, argsCount := count, state := MsgEnd);
      if p.ignoreSeqNum then (p, p.args[p.cmdStart])
      else if p.seqNum <= 32 || p.seqNum != p.lastSeqNum then (p.(lastSeqNum := p.seqNum, seqNum := 0), p.args[p.cmdStart])
      else (p.(seqNum := 0), 0)
  }

  function ParseInside(p: Parser, b: Byte): (r: (Parser, Byte))
    requires p.Valid() && InMessage(p.state)
    ensures r.0.Valid()
  {
    if p.idx >= PFOD_MAX_MSG_LEN - 2 && b != END then (Init(p), 0)
    else if p.state.MsgStarted? && b == REFRESH then (p.(state := ReadingCmd, refresh := true), 0)
    else
      var p := p.(state := if p.state.MsgStarted? then ReadingCmd else p.state);
      if b == REFRESH && !p.versionSeen then (ParseVersion(p), 0)
      else if b == END || IsSeparator(b) then ParseSpecial(p, b)
      else (p.(args := p.args[p.idx := b], idx := p.idx + 1), 0)
  }

  /** One byte: the new state and, at the end of a message, the first byte of its command. */
  function Parse(p: Parser, b: Byte): (r: (Parser, Byte))
    requires p.Valid()
    ensures r.0.Valid()
  {
    if b == END_OF_FILE then (Init(p), 0)
    else if !InMessage(p.state) then (ParseOutside(p, b), 0)
    else ParseInside(p, b)
  }

  function ParseAll(p: Parser, bytes: seq<Byte>): (r: Parser)
    requires p.Valid()
    ensures r.Valid()
    decreases |bytes|
  {
    if bytes == [] then p else ParseAll(Parse(p, bytes[0]).0, bytes[1..])
  }

  // ---- reading the message ----

  /** The place of the next null. */
  function NullFrom(args: seq<Byte>, i: nat): (n: nat)
    requires i <= |args|
    ensures i <= n <= |args| && (n < |args| ==> args[n] == 0) && forall k :: i <= k < n ==> args[k] != 0
    decreases |args| - i
  {
    if i == |args| || args[i] == 0 then i else NullFrom(args, i + 1)
  }

  lemma {:induction false} NullIsInside(args: seq<Byte>, i: nat)
    requires |args| == ARGS_SIZE && args[PFOD_MAX_MSG_LEN] == 0 && i < ARGS_SIZE
    ensures NullFrom(args, i) < ARGS_SIZE
    decreases |args| - i
  {
    if args[i] != 0 {
      NullIsInside(args, i + 1);
    }
  }

  function GetFirstArg(p: Parser): nat
    requires p.Valid()
  {
    NullFrom(p.args, p.cmdStart) + (if p.argsCount > 0 then 1 else 0)
  }

  function GetNextArg(p: Parser, start: nat): nat
    requires p.Valid() && start <= ARGS_SIZE
  {
    var n := NullFrom(p.args, start);
    if n != start then n + 1 else n
  }

  /** The arguments one gets by starting with the first and going on until one is empty. */
  function ArgsFrom(p: Parser, start: nat): seq<seq<Byte>>
    requires p.Valid() && start <= ARGS_SIZE
    decreases ARGS_SIZE + 1 - start
  {
    var n := NullFrom(p.args, start);
    if n == start || n >= ARGS_SIZE then [] else [p.args[start..n]] + ArgsFrom(p, GetNextArg(p, start))
  }

  // ---- the raw parser ----

  datatype RawParser = RawParser(state: State, args: seq<Byte>, idx: nat, readIdx: nat, argsCount: nat, versionSeen: bool, cmdStart: nat, refresh: bool) {
    predicate Valid() {
      |args| == ARGS_SIZE && idx <= PFOD_MAX_MSG_LEN && cmdStart <= PFOD_MAX_MSG_LEN &&
      (InMessage(state) ==> 1 <= idx <= PFOD_MAX_MSG_LEN - 1 && cmdStart <= idx)
    }
  }

  /** Unlike the other parser this one keeps its count of arguments and whether it has seen a version. */
  function RawInit(r: RawParser): (q: RawParser)
    requires r.Valid()
    ensures q.Valid()
  {
    r.(state := WaitingForStart, idx := 0, readIdx := 0, cmdStart := 0, refresh := false,
       args := r.args[0 := 0][1 := 0][PFOD_MAX_MSG_LEN := 0][PFOD_MAX_MSG_LEN - 1 := 0])
  }

  function RawPut(r: RawParser, b: Byte): RawParser
    requires |r.args| == ARGS_SIZE && r.idx < ARGS_SIZE
  {
    r.(args := r.args[r.idx := b], idx := r.idx + 1)
  }

  function RawOutside(r: RawParser, b: Byte): (q: RawParser)
    requires r.Valid()
    ensures q.Valid()
  {
    if b == START then RawPut(RawInit(r).(state := MsgStarted), START) else r.(state := WaitingForStart)
  }

  function RawSpecial(r: RawParser, b: Byte): (q: (RawParser, Byte))
    requires r.Valid() && r.idx <= PFOD_MAX_MSG_LEN - 1 && (b != END ==> r.idx < PFOD_MAX_MSG_LEN - 1) && 1 <= r.idx && r.cmdStart <= r.idx
    ensures q.0.Valid()
  {
    var count := if r.state.ArgStarted? then (r.argsCount + 1) % 256 else r.argsCount;
    var r := RawPut(r, b).(argsCount := count, state := if b == END then MsgEnd else ArgStarted);
    if b != END then (r, 0)
    else
      var r := r.(args := r.args[r.idx := 0], readIdx := 0);
      (r, r.args[r.cmdStart])
  }

  function RawInside(r: RawParser, b: Byte): (q: (RawParser, Byte))
    requires r.Valid() && InMessage(r.state)
    ensures q.0.Valid()
  {
    if r.idx >= PFOD_MAX_MSG_LEN - 1 && b != END then (RawInit(r), 0)
    else if r.state.MsgStarted? && b == REFRESH then (RawPut(r.(state := ReadingCmd, refresh := true), b), 0)
    else
      var r := r.(state := if r.state.MsgStarted? then ReadingCmd else r.state);
      if b == REFRESH && !r.versionSeen then (RawPut(r, b).(versionSeen := true, cmdStart := r.idx + 1, refresh := true), 0)
      else if b == END || IsSeparator(b) then RawSpecial(r, b)
      else (RawPut(r, b), 0)
  }

  function RawParse(r: RawParser, b: Byte): (q: (RawParser, Byte))
    requires r.Valid()
    ensures q.0.Valid()
  {
    if b == END_OF_FILE then (RawInit(r), 0)
    else if !InMessage(r.state) then (RawOutside(r, b), 0)
    else RawInside(r, b)
  }

  function RawParseAll(r: RawParser, bytes: seq<Byte>): (q: RawParser)
    requires r.Valid()
    ensures q.Valid()
    decreases |bytes|
  {
    if bytes == [] then r else RawParseAll(RawParse(r, bytes[0]).0, bytes[1..])
  }
}
