/** The secured command parser of the server: authorisation by challenge, then commands with a hash. */
module CommandGate {
  import opened Bytes
  import opened Buffers
  import opened CommandParser
  import Hex
  import F = Framing

  const AUTHORIZING_CMD: Byte := 0x5f
  const DISCONNECT_NOW: Byte := 0x21
  const CHALLENGE_HASH_BYTE_SIZE: nat := 8

  /** The identifier of the hash sent behind the challenge. */
  const HASH_TYPE: Byte := 2

  datatype Authorizing = NotAuthorizing | AuthorizingStart | SentChallenge | Success

  // ---- the hash object ----

  /** What the hash object has been given since it was last initialised: bytes, and None where it was finished. */
  type Log = seq<Option<Byte>>

  const RESULT_SIZE: nat := 8

  type Result = bytes: seq<Byte> | |bytes| == RESULT_SIZE witness [0, 0, 0, 0, 0, 0, 0, 0]

  /** What its result shows. The result is a part of its state, so it changes while bytes are being hashed. */
  type Shown = Log -> Result

  function Fed(bytes: seq<Byte>): (log: Log)
    ensures |log| == |bytes| && forall i :: 0 <= i < |bytes| ==> log[i] == Some(bytes[i])
  {
    seq(|bytes|, i requires 0 <= i < |bytes| => Some(bytes[i]))
  }

  function Finished(bytes: seq<Byte>): Log {
    Fed(bytes) + [None]
  }

  /** The part of the hash of a message that is sent with it. The message is hashed with its count and the challenge. */
  function Tag(show: Shown, msg: seq<Byte>, count: nat, challenge: seq<Byte>): (tag: seq<Byte>)
    ensures |tag| == F.MSG_HASH_BYTE_SIZE
  {
    F.FirstFour(show(Finished(msg + F.Long(count) + challenge)))
  }

  /** The server's state. One hash object serves what comes in and what goes out. */
  datatype Gate = Gate(
    noPassword: bool, authorizing: Authorizing, parser: Parser, log: Log, collecting: bool, digits: seq<Byte>,
    challenge: seq<Byte>, inMsgCount: nat, outMsgCount: nat, failedHash: bool, rawEnabled: bool, place: F.Place)
  {
    predicate Valid() {
      parser.Valid() && parser.ignoreSeqNum
    }
  }

  /** Without a password everybody is authorised. */
  function SetAuthorizeState(g: Gate, a: Authorizing): Gate {
    g.(authorizing := if g.noPassword then Success else a)
  }

  function InitGate(g: Gate): (r: Gate)
    requires g.Valid()
    ensures r.Valid()
  {
    SetAuthorizeState(g, NotAuthorizing).(rawEnabled := false, parser := Init(g.parser), inMsgCount := 0, outMsgCount := 0,
                                          collecting := false, digits := [], place := F.Waiting)
  }

  function SetCmd(p: Parser, cmd: Byte): (r: Parser)
    requires p.Valid()
    ensures r.Valid() && r.ignoreSeqNum == p.ignoreSeqNum
  {
    Init(p).(args := Init(p).args[0 := cmd][1 := 0])
  }

  /** The command alone, without arguments. */
  predicate IsBareCommand(p: Parser)
    requires p.Valid()
  {
    |UpToNull(p.args[p.cmdStart..])| == 1 && p.argsCount == 0
  }

  /** A connection with the same password starts again. */
  function Reconnect(g: Gate): (r: Gate)
    requires g.Valid()
    ensures r.Valid()
  {
    var g := SetAuthorizeState(InitGate(g.(failedHash := false)), AuthorizingStart);
    g.(parser := SetCmd(g.parser, 1))
  }

  /** The end of the connection; the parser shows the command that ended it. */
  function Disconnect(g: Gate): (r: Gate)
    requires g.Valid()
    ensures r.Valid()
  {
    var g := InitGate(g);
    g.(parser := SetCmd(g.parser, DISCONNECT_NOW))
  }

  /** One digit of the hash that follows a message. */
  function CollectDigit(show: Shown, g: Gate, b: Byte): (r: (Gate, Byte))
    requires g.Valid()
    ensures r.0.Valid()
  {
    var digits := g.digits + [b];
    if |digits| < F.MSG_HASH_SIZE then (g.(digits := digits), 0)
    else
      var g := g.(collecting := false, digits := []);
      if Hex.HexBytes(digits, F.MSG_HASH_BYTE_SIZE) == F.FirstFour(show(g.log)) then
        (g.(inMsgCount := F.NextCount(g.inMsgCount)), g.parser.args[g.parser.cmdStart])
      else (g.(failedHash := true), DISCONNECT_NOW)
  }

  /** What a byte of a message means once authorised with a password; the command waits for its hash. */
  function HashByte(g: Gate, b: Byte, cmd: Byte): (r: (Gate, Byte))
    requires g.Valid()
    ensures r.0.Valid()
  {
    match g.parser.state
    case WaitingForStart => (g, cmd)
    case MsgStarted => (g.(log := Fed([START])), cmd)
    case ReadingCmd => (g.(log := g.log + Fed([b])), cmd)
    case ArgStarted => (g.(log := g.log + Fed([b])), cmd)
    case MsgEnd =>
      if cmd == AUTHORIZING_CMD && IsBareCommand(g.parser) then (Reconnect(g), cmd)
      else
        (g.(collecting := true, digits := [], log := g.log + Fed([b]) + Finished(F.Long(g.inMsgCount) + g.challenge)), 0)
  }

  function ReadByte(show: Shown, g: Gate, b: Byte): (r: (Gate, Byte))
    requires g.Valid()
    ensures r.0.Valid()
  {
    if b == END_OF_FILE then (g, DISCONNECT_NOW)
    else if !g.noPassword && g.collecting then CollectDigit(show, g, b)
    else
      var g := if g.authorizing.NotAuthorizing? then SetAuthorizeState(g, AuthorizingStart) else g;
      var parsed := Parse(g.parser, b);
      ParseKeepsIgnoring(g.parser, b);
      var g := g.(parser := parsed.0);
      if parsed.1 != DISCONNECT_NOW && g.authorizing.Success? && !g.noPassword then HashByte(g, b, parsed.1) else (g, parsed.1)
  }

  lemma ParseKeepsIgnoring(p: Parser, b: Byte)
    requires p.Valid()
    ensures Parse(p, b).0.ignoreSeqNum == p.ignoreSeqNum
  {
  }

  /** The challenge goes out. A challenge that could not be made leaves the old one in place. */
  function SendChallenge(g: Gate, made: Option<seq<Byte>>): Gate {
    var challenge := if made.Some? then made.value else g.challenge;
    SetAuthorizeState(g, SentChallenge).(challenge := challenge, failedHash := false,
                                         log := if made.Some? then Finished(made.value) else g.log)
  }

  /** Whether the argument of the answer is the hash of the challenge. */
  predicate AnswersChallenge(show: Shown, g: Gate)
    requires g.Valid()
  {
    var at := GetFirstArg(g.parser);
    at <= ARGS_SIZE && Hex.HexBytes(g.parser.args[at..], CHALLENGE_HASH_BYTE_SIZE) == show(g.log)
  }

  /** What becomes of a command: the authorisation uses some up, and a wrong one ends the connection. */
  function Judge(show: Shown, g: Gate, cmd: Byte, made: Option<seq<Byte>>): (r: (Gate, Byte))
    requires g.Valid()
    ensures r.0.Valid()
  {
    if cmd == 0 || cmd == DISCONNECT_NOW then (g, cmd)
    else
      match g.authorizing
      case NotAuthorizing => (g, cmd)
      case AuthorizingStart =>
        if cmd == AUTHORIZING_CMD && IsBareCommand(g.parser) then (SendChallenge(g, made), 0)
        else (g.(failedHash := true), DISCONNECT_NOW)
      case SentChallenge =>
        if cmd == AUTHORIZING_CMD && |UpToNull(g.parser.args[g.parser.cmdStart..])| == 1 && g.parser.argsCount == 1 then
          if AnswersChallenge(show, g) then (SetAuthorizeState(g, Success), 0) else (g.(failedHash := true), DISCONNECT_NOW)
        else (g, DISCONNECT_NOW)
      case Success =>
        if cmd == AUTHORIZING_CMD && IsBareCommand(g.parser) then
          if g.noPassword then (g.(parser := Init(g.parser)), 0) else (g.(failedHash := true), DISCONNECT_NOW)
        else (g, cmd)
  }

  /** The end of one call: a returned command enables raw data, and everything else that is left ends the connection. */
  function Finish(show: Shown, g: Gate, cmd: Byte, made: Option<seq<Byte>>): (r: (Gate, Byte))
    requires g.Valid()
    ensures r.0.Valid()
  {
    var judged := Judge(show, g, cmd, made);
    var g := judged.0;
    if judged.1 == DISCONNECT_NOW || judged.1 == AUTHORIZING_CMD then (Disconnect(SetAuthorizeState(g, NotAuthorizing)), DISCONNECT_NOW)
    else if judged.1 != 0 && g.authorizing.Success? then (g.(rawEnabled := true), judged.1)
    else judged
  }

  /** One byte arrives; if it completes a command, the call ends. */
  function Arrive(show: Shown, g: Gate, b: Byte, made: Option<seq<Byte>>): (r: (Gate, Byte))
    requires g.Valid()
    ensures r.0.Valid()
  {
    hide ReadByte, Finish;
    var read := ReadByte(show, g, b);
    Finish(show, read.0, read.1, made)
  }

  // ---- output ----

  /** A byte of a message that goes out. The digits of its hash are written where those of a message that came in are
      collected. */
  function WriteMsgByte(show: Shown, g: Gate, b: Byte): (r: Gate)
    requires g.Valid()
    ensures r.Valid()
  {
    if g.noPassword then g.(place := if b == END then F.Waiting else F.InMsg)
    else if b != END then g.(place := F.InMsg, log := g.log + Fed([b]))
    else
      var log := g.log + Fed([b]) + Finished(F.Long(g.outMsgCount) + g.challenge);
      g.(place := F.Waiting, log := log, outMsgCount := F.NextCount(g.outMsgCount),
         digits := Overwritten(g.digits, Hex.HexChars(F.FirstFour(show(log)))))
  }

  /** As many characters as there were, from the front of the others. */
  function Overwritten(digits: seq<Byte>, chars: seq<Byte>): (r: seq<Byte>)
    ensures |r| == |digits|
  {
    if |digits| <= |chars| then chars[..|digits|] else chars + digits[|chars|..]
  }

  /** A byte that the program writes. Before authorisation it is dropped. */
  function Write(show: Shown, g: Gate, b: Byte): (r: Gate)
    requires g.Valid()
    ensures r.Valid()
  {
    if !g.authorizing.Success? then g
    else
      match g.place
      case Waiting => if b == START then g.(place := F.Started) else g
      case Started =>
        if F.StartsMessage(b) then
          WriteMsgByte(show, if g.noPassword then g else g.(log := Fed([START])), b)
        else if b == START then g
        else g.(place := F.Waiting)
      case InMsg => WriteMsgByte(show, g, b)
  }

  /** Whether the byte is fed to the hash object. */
  predicate TouchesHash(g: Gate, b: Byte) {
    g.authorizing.Success? && !g.noPassword && (g.place.InMsg? || (g.place.Started? && F.StartsMessage(b)))
  }

  /** What the hash object has been given once the byte has been fed to it. */
  function LogAfter(g: Gate, b: Byte): Log {
    var log := (if g.place.InMsg? then g.log else Fed([START])) + Fed([b]);
    if b == END then log + Finished(F.Long(g.outMsgCount) + g.challenge) else log
  }

  // ---- what is being received ----

  /** A closing brace would end a message that waits for its hash. */
  predicate EndsAccepted(p: Parser)
    requires p.Valid()
  {
    InMessage(p.state) &&
    var r := Parse(p, END); r.1 != DISCONNECT_NOW && !(r.1 == AUTHORIZING_CMD && IsBareCommand(r.0))
  }

  /** The message that is being read can still become one that waits for its hash. If it can, one more byte is enough. */
  predicate CanBeAccepted(p: Parser)
    requires p.Valid()
  {
    EndsAccepted(p) || EndsAccepted(Parse(p, REFRESH).0) || EndsAccepted(Parse(p, BAR).0)
  }

  /** A message, or the digits behind it, are being received and may yet be accepted. A null among the digits ends them. */
  predicate Open(g: Gate)
    requires g.Valid()
  {
    if g.collecting then 0 !in g.digits else InMessage(g.parser.state) && CanBeAccepted(g.parser)
  }

  // ---- runs ----

  /** What happens to the gate: a byte, with the challenge the hash object would make, or a call that ends the connection
      because it was idle too long or the hash object has run out of power cycles; or the program writes a byte between
      two calls. */
  datatype Event = Arrives(b: Byte, made: Option<seq<Byte>>) | IdleTimeout | MacInvalid | Writes(b: Byte)

  function Step(show: Shown, g: Gate, ev: Event): (r: (Gate, Byte))
    requires g.Valid()
    ensures r.0.Valid()
  {
    match ev
    case Arrives(b, made) => Arrive(show, g, b, made)
    case IdleTimeout => Finish(show, g, DISCONNECT_NOW, None)
    case MacInvalid => Finish(show, g, DISCONNECT_NOW, None)
    case Writes(b) => (Write(show, g, b), 0)
  }

  function Run(show: Shown, g: Gate, events: seq<Event>): (r: Gate)
    requires g.Valid()
    ensures r.Valid()
    decreases |events|
  {
    if events == [] then g else Run(show, Step(show, g, events[0]).0, events[1..])
  }

  /** The bytes that arrive in a run. */
  function Arrived(events: seq<Event>): seq<Byte> {
    if events == [] then [] else (if events[0].Arrives? then [events[0].b] else []) + Arrived(events[1..])
  }

  /** One call: bytes are read until one completes a command or there are none left. How many were read. */
  function Call(show: Shown, g: Gate, io: seq<Byte>, made: Option<seq<Byte>>): (r: (Gate, Byte, nat))
    requires g.Valid()
    ensures r.0.Valid() && r.2 <= |io|
    decreases |io|
  {
    hide Arrive;
    if io == [] then (g, 0, 0)
    else
      var first := Arrive(show, g, io[0], made);
      if ReadByte(show, g, io[0]).1 != 0 then (first.0, first.1, 1)
      else
        var rest := Call(show, first.0, io[1..], made);
        (rest.0, rest.1, rest.2 + 1)
  }
}
