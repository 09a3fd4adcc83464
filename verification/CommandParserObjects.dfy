/** The parser objects over their fixed arrays. */
module CommandParserObjects {
  import opened Bytes
  import opened CommandParser

  class PfodParser {
    const args: array<Byte>
    var argsIdx: nat
    var argsCount: nat
    var parserState: State
    var versionStart: bool
    var cmdStart: nat
    var refresh: bool
    var seqNum: Byte
    var lastSeqNum: Byte
    var ignoreCmdSeqNum: bool
    const version: seq<Byte>

    ghost function View(): Parser
      reads this, args
    {
      Parser(parserState, args[..], argsIdx, argsCount, versionStart, cmdStart, refresh, seqNum, lastSeqNum, ignoreCmdSeqNum, version)
    }

    ghost predicate Valid()
      reads this, args
    {
      View().Valid()
    }

    constructor (v: seq<Byte>)
      ensures Valid() && fresh(args) && parserState == WaitingForStart && version == v && !ignoreCmdSeqNum && seqNum == lastSeqNum == 0
    {
      args := new Byte[ARGS_SIZE](_ => 0);
      argsIdx, argsCount, parserState, versionStart, cmdStart, refresh := 0, 0, WaitingForStart, false, 0, false;
      seqNum, lastSeqNum, ignoreCmdSeqNum := 0, 0, false;
      version := v;
    }

    method InitParser()
      requires Valid()
      modifies this, args
      ensures Valid() && View() == Init(old(View()))
    {
      argsCount := 0;
      argsIdx := 0;
      args[0] := 0;
      args[1] := 0;
      args[PFOD_MAX_MSG_LEN] := 0;
      args[PFOD_MAX_MSG_LEN - 1] := 0;
      cmdStart := 0;
      versionStart := false;
      parserState := WaitingForStart;
      refresh := false;
    }

    /** Shows a command that was not parsed. */
    method SetCmd(cmd: Byte)
      requires Valid()
      modifies this, args
      ensures Valid() && View() == Init(old(View())).(args := Init(old(View())).args[0 := cmd][1 := 0])
    {
      InitParser();
      args[0] := cmd;
      args[1] := 0;
    }

    method Put(b: Byte)
      requires argsIdx < args.Length
      modifies this`argsIdx, args
      ensures argsIdx == old(argsIdx) + 1 && args[..] == old(args[..])[old(argsIdx) := b]
    {
      args[argsIdx] := b;
      argsIdx := argsIdx + 1;
    }

    /** A byte that ends the command or an argument. */
    method ParseSpecialByte(b: Byte) returns (cmd: Byte)
      requires Valid() && argsIdx <= PFOD_MAX_MSG_LEN - 2 && (b != END ==> argsIdx < PFOD_MAX_MSG_LEN - 2) && cmdStart <= argsIdx
      modifies this, args
      ensures Valid() && (View(), cmd) == ParseSpecial(old(View()), b)
    {
      Put(0);
      if parserState == ArgStarted {
        argsCount := (argsCount + 1) % 256;
      }
      if b == END {
        parserState := MsgEnd;
        Put(0);
        if ignoreCmdSeqNum {
          return args[cmdStart];
        } else if seqNum <= 32 || seqNum != lastSeqNum {
          lastSeqNum := seqNum;
          seqNum := 0;
          return args[cmdStart];
        } else {
          seqNum := 0;
          return 0;
        }
      } else {
        parserState := ArgStarted;
      }
      return 0;
    }

    /** The first colon ends the version asked for, which is compared with ours. */
    method ParseVersionByte()
      requires Valid() && argsIdx < PFOD_MAX_MSG_LEN - 2
      modifies this, args
      ensures Valid() && View() == ParseVersion(old(View()))
    {
      Put(0);
      versionStart := true;
      cmdStart := argsIdx;
      refresh := UpToNull(args[..]) == version;
    }

    /** Outside a message. */
    method ParseOutsideByte(b: Byte)
      requires Valid()
      modifies this, args
      ensures Valid() && View() == ParseOutside(old(View()), b)
    {
      hide Init;
      parserState := WaitingForStart;
      ghost var waiting := View();
      InitOutside(old(View()));
      if b == START {
        assert waiting == old(View()).(state := WaitingForStart);
        InitParser();
        parserState := MsgStarted;
      } else {
        seqNum := b;
      }
    }

    /** After an opening brace. */
    method ParseInsideByte(b: Byte) returns (cmd: Byte)
      requires Valid() && InMessage(parserState)
      modifies this, args
      ensures Valid() && (View(), cmd) == ParseInside(old(View()), b)
    {
      hide UpToNull, Init, ParseSpecial, ParseVersion;
      if argsIdx >= PFOD_MAX_MSG_LEN - 2 && b != END {
        InitParser();
        return 0;
      }
      if parserState == MsgStarted {
        parserState := ReadingCmd;
        if b == REFRESH {
          refresh := true;
          return 0;
        }
      }
      if b == REFRESH && !versionStart {
        ParseVersionByte();
        return 0;
      }
      if b == END || b == BAR || b == TILDA || b == ACCENT {
        cmd := ParseSpecialByte(b);
        return;
      }
      Put(b);
      return 0;
    }

    method ParseByte(b: Byte) returns (cmd: Byte)
      requires Valid()
      modifies this, args
      ensures Valid() && (View(), cmd) == Parse(old(View()), b)
    {
      hide Init, ParseOutside, ParseInside;
      if b == END_OF_FILE {
        InitParser();
        return 0;
      }
      if parserState == WaitingForStart || parserState == MsgEnd {
        ParseOutsideByte(b);
        return 0;
      }
      cmd := ParseInsideByte(b);
    }

    /** The place after the command, or of the first argument. */
    method FirstArg() returns (idx: nat)
      requires Valid()
      ensures idx == GetFirstArg(View())
    {
      NullIsInside(args[..], cmdStart);
      idx := cmdStart;
      while args[idx] != 0
        invariant idx < ARGS_SIZE && NullFrom(args[..], idx) == NullFrom(args[..], cmdStart)
        decreases ARGS_SIZE - idx
      {
        idx := idx + 1;
      }
      if argsCount > 0 {
        idx := idx + 1;
      }
    }

    /** The place of the next argument, or the same place if there is none. */
    method NextArg(start: nat) returns (idx: nat)
      requires Valid() && start < ARGS_SIZE
      ensures idx == GetNextArg(View(), start)
    {
      NullIsInside(args[..], start);
      idx := start;
      while args[idx] != 0
        invariant start <= idx < ARGS_SIZE && NullFrom(args[..], idx) == NullFrom(args[..], start)
        decreases ARGS_SIZE - idx
      {
        idx := idx + 1;
      }
      if idx != start {
        idx := idx + 1;
      }
    }
  }

  /** A finished message starts a new one just as no message does. */
  lemma InitOutside(p: Parser)
    requires p.Valid()
    ensures Init(p.(state := WaitingForStart)) == Init(p)
    ensures Init(p).idx == 0 && Init(p).cmdStart == 0 && |Init(p).args| == ARGS_SIZE
  {
  }

  class PfodRawCmdParser {
    const args: array<Byte>
    var argsIdx: nat
    var readIdx: nat
    var argsCount: nat
    var parserState: State
    var versionStart: bool
    var cmdStart: nat
    var refresh: bool

    ghost function View(): RawParser
      reads this, args
    {
      RawParser(parserState, args[..], argsIdx, readIdx, argsCount, versionStart, cmdStart, refresh)
    }

    ghost predicate Valid()
      reads this, args
    {
      View().Valid()
    }

    constructor ()
      ensures Valid() && fresh(args) && parserState == WaitingForStart
    {
      args := new Byte[ARGS_SIZE](_ => 0);
      argsIdx, readIdx, argsCount, parserState, versionStart, cmdStart, refresh := 0, 0, 0, WaitingForStart, false, 0, false;
    }

    method InitParser()
      requires Valid()
      modifies this, args
      ensures Valid() && View() == RawInit(old(View()))
    {
      argsIdx := 0;
      readIdx := 0;
      args[0] := 0;
      args[1] := 0;
      args[PFOD_MAX_MSG_LEN] := 0;
      args[PFOD_MAX_MSG_LEN - 1] := 0;
      cmdStart := 0;
      parserState := WaitingForStart;
      refresh := false;
    }

    method Put(b: Byte)
      requires args.Length == ARGS_SIZE && argsIdx < args.Length
      modifies this`argsIdx, args
      ensures View() == RawPut(old(View()), b)
    {
      args[argsIdx] := b;
      argsIdx := argsIdx + 1;
    }

    method ParseSpecialByte(b: Byte) returns (cmd: Byte)
      requires Valid() && 1 <= argsIdx <= PFOD_MAX_MSG_LEN - 1 && (b != END ==> argsIdx < PFOD_MAX_MSG_LEN - 1) && cmdStart <= argsIdx
      modifies this, args
      ensures Valid() && (View(), cmd) == RawSpecial(old(View()), b)
    {
      Put(b);
      if parserState == ArgStarted {
        argsCount := (argsCount + 1) % 256;
      }
      if b == END {
        parserState := MsgEnd;
        args[argsIdx] := 0;
        readIdx := 0;
        return args[cmdStart];
      } else {
        parserState := ArgStarted;
      }
      return 0;
    }

    /** Outside a message. */
    method ParseOutsideByte(b: Byte)
      requires Valid()
      modifies this, args
      ensures Valid() && View() == RawOutside(old(View()), b)
    {
      hide RawInit;
      parserState := WaitingForStart;
      ghost var waiting := View();
      RawInitOutside(old(View()));
      RawInitStarts(waiting);
      if b == START {
        assert waiting == old(View()).(state := WaitingForStart);
        InitParser();
        parserState := MsgStarted;
        Put(START);
      }
    }

    /** After an opening brace. */
    method ParseInsideByte(b: Byte) returns (cmd: Byte)
      requires Valid() && InMessage(parserState)
      modifies this, args
      ensures Valid() && (View(), cmd) == RawInside(old(View()), b)
    {
      hide RawInit, RawSpecial;
      if argsIdx >= PFOD_MAX_MSG_LEN - 1 && b != END {
        InitParser();
        return 0;
      }
      if parserState == MsgStarted {
        parserState := ReadingCmd;
        if b == REFRESH {
          refresh := true;
          Put(b);
          return 0;
        }
      }
      if b == REFRESH && !versionStart {
        Put(b);
        versionStart := true;
        cmdStart := argsIdx;
        refresh := true;
        return 0;
      }
      if b == END || b == BAR || b == TILDA || b == ACCENT {
        cmd := ParseSpecialByte(b);
        return;
      }
      Put(b);
      return 0;
    }

    method ParseByte(b: Byte) returns (cmd: Byte)
      requires Valid()
      modifies this, args
      ensures Valid() && (View(), cmd) == RawParse(old(View()), b)
    {
      hide RawInit, RawOutside, RawInside;
      if b == END_OF_FILE {
        InitParser();
        return 0;
      }
      if parserState == WaitingForStart || parserState == MsgEnd {
        ParseOutsideByte(b);
        return 0;
      }
      cmd := ParseInsideByte(b);
    }

    /** The bytes not read yet. */
    ghost function Unread(): seq<Byte>
      requires Valid()
      reads this, args
    {
      if readIdx <= argsIdx then args[readIdx..argsIdx] else []
    }

    function Available(): (n: int)
      requires Valid()
      reads this, args
      ensures readIdx <= argsIdx ==> n == |Unread()|
    {
      argsIdx - readIdx
    }

    function Peek(): (b: Byte)
      requires Valid()
      reads this, args
      ensures b == if Unread() == [] then 0 else Unread()[0]
    {
      if readIdx < argsIdx then args[readIdx] else 0
    }

    /** A null is never taken out. */
    method Read() returns (b: Byte)
      requires Valid()
      modifies this`readIdx
      ensures Valid() && b == if old(Unread()) == [] then 0 else old(Unread())[0]
      ensures Unread() == if b == 0 then old(Unread()) else old(Unread())[1..]
    {
      b := Peek();
      if b != 0 {
        readIdx := readIdx + 1;
      }
    }
  }

  lemma RawInitOutside(r: RawParser)
    requires r.Valid()
    ensures RawInit(r.(state := WaitingForStart)) == RawInit(r)
  {
  }

  lemma RawInitStarts(r: RawParser)
    requires r.Valid()
    ensures RawInit(r).idx == 0 && RawInit(r).cmdStart == 0 && |RawInit(r).args| == ARGS_SIZE
  {
  }
}
