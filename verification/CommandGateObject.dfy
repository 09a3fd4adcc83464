/** The server object: its input, and what its output does to the hash object both share. */
module CommandGateObject {
  import opened Bytes
  import opened Buffers
  import opened CommandParser
  import opened CommandParserObjects
  import opened CommandGate
  import Hex
  import F = Framing

  class PfodSecurityInput {
    const show: Shown
    const parser: PfodParser
    const msgHashBytes: array<Byte>
    var msgHashCount: int
    var noPassword: bool
    var authorizing: Authorizing
    var log: Log
    var challenge: seq<Byte>
    var inMsgCount: nat
    var outMsgCount: nat
    var failedHash: bool
    var rawEnabled: bool
    var outputParserState: F.Place

    ghost predicate Valid()
      reads this, parser, parser.args
    {
      parser.Valid() && parser.ignoreCmdSeqNum && msgHashBytes != parser.args &&
      msgHashBytes.Length == F.MSG_HASH_SIZE + 1 && -1 <= msgHashCount < F.MSG_HASH_SIZE
    }

    ghost function View(): (g: Gate)
      requires Valid()
      reads this, parser, parser.args, msgHashBytes
      ensures g.Valid()
    {
      Gate(noPassword, authorizing, parser.View(), log, msgHashCount >= 0,
           if msgHashCount >= 0 then msgHashBytes[..msgHashCount] else [],
           challenge, inMsgCount, outMsgCount, failedHash, rawEnabled, outputParserState)
    }

    /** Connected with or without a password, before anything has arrived. */
    constructor (s: Shown, p: PfodParser, open: bool)
      requires p.Valid() && p.ignoreCmdSeqNum
      modifies p, p.args
      ensures Valid() && show == s && parser == p && fresh(msgHashBytes)
      ensures View() == Gate(open, if open then Success else AuthorizingStart, Init(old(p.View())), [], false, [],
                             [], 0, 0, false, false, F.Waiting)
    {
      show, parser, noPassword := s, p, open;
      msgHashBytes := new Byte[F.MSG_HASH_SIZE + 1];
      msgHashCount, authorizing := -1, if open then Success else AuthorizingStart;
      log, challenge, inMsgCount, outMsgCount, failedHash, rawEnabled, outputParserState := [], [], 0, 0, false, false, F.Waiting;
      new;
      p.InitParser();
    }

    method SetAuthorizing(a: Authorizing)
      requires Valid()
      modifies this`authorizing
      ensures Valid() && View() == SetAuthorizeState(old(View()), a)
    {
      authorizing := if noPassword then Success else a;
    }

    /** Nothing counted, collected or being written. */
    method ClearCounts()
      requires Valid()
      modifies this
      ensures Valid()
      ensures View() == old(View()).(rawEnabled := false, inMsgCount := 0, outMsgCount := 0, collecting := false, digits := [], place := F.Waiting)
    {
      rawEnabled := false;
      inMsgCount := 0;
      outMsgCount := 0;
      msgHashCount := -1;
      outputParserState := F.Waiting;
    }

    method InitInput()
      requires Valid()
      modifies this, parser, parser.args
      ensures Valid() && View() == InitGate(old(View()))
    {
      hide Init;
      SetAuthorizing(NotAuthorizing);
      ClearCounts();
      ResetParser();
    }

    method ShowCmd(cmd: Byte)
      requires Valid()
      modifies parser, parser.args
      ensures Valid() && View() == old(View()).(parser := SetCmd(old(View()).parser, cmd))
    {
      hide Init;
      parser.SetCmd(cmd);
    }

    method CloseConnection()
      requires Valid()
      modifies this, parser, parser.args
      ensures Valid() && View() == Disconnect(old(View()))
    {
      hide InitGate, SetCmd;
      InitInput();
      ShowCmd(DISCONNECT_NOW);
    }

    /** The same connection starts again. */
    method ConnectAgain()
      requires Valid()
      modifies this, parser, parser.args
      ensures Valid() && View() == Reconnect(old(View()))
    {
      hide InitGate, SetCmd;
      failedHash := false;
      InitInput();
      SetAuthorizing(AuthorizingStart);
      ShowCmd(1);
    }

    /** Puts a digit away; with the last one, whether the hash matches. */
    method TakeDigit(b: Byte) returns (complete: bool, matches: bool)
      requires Valid() && msgHashCount >= 0
      modifies this`msgHashCount, msgHashBytes
      ensures Valid()
      ensures var g, digits := old(View()), old(View()).digits + [b];
              complete == (|digits| >= F.MSG_HASH_SIZE) &&
              View() == (if complete then g.(collecting := false, digits := []) else g.(digits := digits)) &&
              matches == (complete && Hex.HexBytes(digits, F.MSG_HASH_BYTE_SIZE) == F.FirstFour(show(g.log)))
    {
      hide Hex.HexBytes, F.FirstFour;
      matches := false;
      msgHashBytes[msgHashCount] := b;
      complete := msgHashCount + 1 == F.MSG_HASH_SIZE;
      if complete {
        msgHashBytes[F.MSG_HASH_SIZE] := 0;
        msgHashCount := -1;
        ghost var digits := msgHashBytes[..F.MSG_HASH_SIZE];
        assert digits == old(View()).digits + [b] && msgHashBytes[..] == digits + [0];
        Hex.NullEnds(digits, F.MSG_HASH_BYTE_SIZE);
        var len := Hex.AsciiToHex(msgHashBytes, F.MSG_HASH_BYTE_SIZE);
        matches := len == F.MSG_HASH_BYTE_SIZE && msgHashBytes[..F.MSG_HASH_BYTE_SIZE] == F.FirstFour(show(log));
      } else {
        msgHashCount := msgHashCount + 1;
      }
    }

    method CollectHashDigit(b: Byte) returns (cmd: Byte)
      requires Valid() && msgHashCount >= 0
      modifies this, msgHashBytes
      ensures Valid() && (View(), cmd) == CollectDigit(show, old(View()), b)
    {
      hide Hex.HexBytes, F.FirstFour;
      cmd := 0;
      var complete, matches := TakeDigit(b);
      if complete {
        if matches {
          cmd := parser.args[parser.cmdStart];
          inMsgCount := (inMsgCount + 1) % F.COUNTS;
        } else {
          failedHash := true;
          cmd := DISCONNECT_NOW;
        }
      }
    }

    /** Feeds the count and the challenge to the hash object and finishes it. */
    method FinishHash(count: nat)
      requires Valid()
      modifies this`log
      ensures Valid() && View() == old(View()).(log := old(log) + Finished(F.Long(count) + challenge))
    {
      hide F.Long, Finished;
      log := log + Finished(F.Long(count) + challenge);
    }

    /** Hashes a byte of a message; the closing brace starts the wait for the hash. */
    method HashMsgByte(b: Byte, cmd: Byte) returns (after: Byte)
      requires Valid()
      modifies this, parser, parser.args
      ensures Valid() && (View(), after) == HashByte(old(View()), b, cmd)
    {
      hide UpToNull, F.Long, Reconnect, Fed, Finished;
      after := cmd;
      if parser.parserState == MsgStarted {
        log := Fed([START]);
      } else if parser.parserState == ReadingCmd || parser.parserState == ArgStarted {
        log := log + Fed([b]);
      } else if parser.parserState == MsgEnd {
        if cmd == AUTHORIZING_CMD && |UpToNull(parser.args[parser.cmdStart..])| == 1 && parser.argsCount == 0 {
          ConnectAgain();
        } else {
          log := log + Fed([b]);
          after := 0;
          msgHashCount := 0;
          FinishHash(inMsgCount);
        }
      }
    }

    method ParserTakes(b: Byte) returns (cmd: Byte)
      requires Valid()
      modifies parser, parser.args
      ensures Valid()
      ensures var parsed := Parse(old(View()).parser, b); cmd == parsed.1 && View() == old(View()).(parser := parsed.0)
    {
      hide Parse;
      ParseKeepsIgnoring(parser.View(), b);
      cmd := parser.ParseByte(b);
    }

    method ReadInputByte(b: Byte) returns (cmd: Byte)
      requires Valid()
      modifies this, parser, parser.args, msgHashBytes
      ensures Valid() && (View(), cmd) == ReadByte(show, old(View()), b)
    {
      hide Parse, HashByte, CollectDigit;
      if b == END_OF_FILE {
        return DISCONNECT_NOW;
      }
      if !noPassword && msgHashCount >= 0 {
        cmd := CollectHashDigit(b);
        return;
      }
      if authorizing == NotAuthorizing {
        SetAuthorizing(AuthorizingStart);
      }
      cmd := ParserTakes(b);
      if cmd != DISCONNECT_NOW && authorizing == Success && !noPassword {
        cmd := HashMsgByte(b, cmd);
      }
    }

    /** The challenge of this connection, if the hash object could make one. */
    method TakeChallenge(made: Option<seq<Byte>>)
      requires Valid()
      modifies this
      ensures Valid() && View() == SendChallenge(old(View()), made)
    {
      SetAuthorizing(SentChallenge);
      if made.Some? {
        challenge := made.value;
        log := Finished(made.value);
      }
      failedHash := false;
    }

    /** Whether the first argument is the hash of the challenge in hex digits. */
    method AnswerMatches() returns (yes: bool)
      requires Valid()
      ensures yes == AnswersChallenge(show, View())
    {
      hide Hex.HexBytes;
      var at := NullFrom(parser.args[..], parser.cmdStart) + (if parser.argsCount > 0 then 1 else 0);
      yes := at <= ARGS_SIZE && Hex.HexBytes(parser.args[at..], CHALLENGE_HASH_BYTE_SIZE) == show(log);
    }

    method ResetParser()
      requires Valid()
      modifies parser, parser.args
      ensures Valid() && View() == old(View()).(parser := Init(old(View()).parser))
    {
      hide Init;
      parser.InitParser();
    }

    /** A connection must start by asking for the challenge. */
    method JudgeStart(cmd: Byte, made: Option<seq<Byte>>) returns (left: Byte)
      requires Valid() && authorizing == AuthorizingStart && cmd != 0 && cmd != DISCONNECT_NOW
      modifies this
      ensures Valid() && (View(), left) == Judge(show, old(View()), cmd, made)
    {
      hide UpToNull, Init, SendChallenge, AnswersChallenge;
      if cmd == AUTHORIZING_CMD && |UpToNull(parser.args[parser.cmdStart..])| == 1 && parser.argsCount == 0 {
        TakeChallenge(made);
        left := 0;
      } else {
        failedHash := true;
        left := DISCONNECT_NOW;
      }
    }

    /** The challenge must be answered next. */
    method JudgeAnswer(cmd: Byte, made: Option<seq<Byte>>) returns (left: Byte)
      requires Valid() && authorizing == SentChallenge && cmd != 0 && cmd != DISCONNECT_NOW
      modifies this
      ensures Valid() && (View(), left) == Judge(show, old(View()), cmd, made)
    {
      hide UpToNull, Init, SendChallenge, AnswersChallenge;
      left := DISCONNECT_NOW;
      if cmd == AUTHORIZING_CMD && |UpToNull(parser.args[parser.cmdStart..])| == 1 && parser.argsCount == 1 {
        var answered := AnswerMatches();
        if answered {
          left := 0;
          SetAuthorizing(Success);
        } else {
          failedHash := true;
        }
      }
    }

    /** Once authorised, only a request for the challenge is used up. */
    method JudgeAuthorised(cmd: Byte, made: Option<seq<Byte>>) returns (left: Byte)
      requires Valid() && authorizing == Success && cmd != 0 && cmd != DISCONNECT_NOW
      modifies this, parser, parser.args
      ensures Valid() && (View(), left) == Judge(show, old(View()), cmd, made)
    {
      hide UpToNull, Init, SendChallenge, AnswersChallenge;
      left := cmd;
      if cmd == AUTHORIZING_CMD && |UpToNull(parser.args[parser.cmdStart..])| == 1 && parser.argsCount == 0 {
        if noPassword {
          left := 0;
          ResetParser();
        } else {
          failedHash := true;
          left := DISCONNECT_NOW;
        }
      }
    }

    /** Authorisation uses some commands up; a wrong one ends the connection. */
    method JudgeCmd(cmd: Byte, made: Option<seq<Byte>>) returns (left: Byte)
      requires Valid()
      modifies this, parser, parser.args
      ensures Valid() && (View(), left) == Judge(show, old(View()), cmd, made)
    {
      left := cmd;
      if cmd == DISCONNECT_NOW || cmd == 0 {
        return;
      }
      if authorizing == AuthorizingStart {
        hide Judge;
        left := JudgeStart(cmd, made);
      } else if authorizing == SentChallenge {
        hide Judge;
        left := JudgeAnswer(cmd, made);
      } else if authorizing == Success {
        hide Judge;
        left := JudgeAuthorised(cmd, made);
      }
    }

    /** The digits of the hash of a message that goes out, where those of one that came in are collected. */
    method PutDigits()
      requires Valid()
      modifies msgHashBytes
      ensures Valid()
      ensures var g := old(View()); View() == g.(digits := Overwritten(g.digits, Hex.HexChars(F.FirstFour(show(g.log)))))
    {
      ghost var g := View();
      var tag := F.FirstFour(show(log));
      var bytes := new Byte[F.MSG_HASH_BYTE_SIZE](i requires 0 <= i < F.MSG_HASH_BYTE_SIZE => tag[i]);
      assert bytes[..F.MSG_HASH_BYTE_SIZE] == tag;
      var n := Hex.HexToAscii(bytes, F.MSG_HASH_BYTE_SIZE, msgHashBytes, F.MSG_HASH_SIZE + 1);
      ghost var chars := Hex.HexChars(tag);
      assert chars[..n] == chars && msgHashBytes[..n] == chars;
      if msgHashCount >= 0 {
        assert msgHashBytes[..msgHashCount] == msgHashBytes[..n][..msgHashCount];
      }
    }

    /** A byte of a message that goes out. */
    method WriteOutByte(b: Byte)
      requires Valid() && outputParserState == F.InMsg
      modifies this, msgHashBytes
      ensures Valid() && View() == WriteMsgByte(show, old(View()), b)
    {
      hide F.Long, F.FirstFour, Hex.HexChars, Overwritten, F.NextCount;
      if !noPassword {
        log := log + Fed([b]);
      }
      if b == END {
        outputParserState := F.Waiting;
        if !noPassword {
          FinishHash(outMsgCount);
          outMsgCount := F.NextCount(outMsgCount);
          PutDigits();
        }
      }
    }

    /** The byte behind an opening brace: whether a message has started. */
    method StartMessage(b: Byte) returns (started: bool)
      requires Valid() && authorizing == Success && outputParserState == F.Started
      modifies this
      ensures Valid() && started == F.StartsMessage(b)
      ensures var g := old(View());
              View() == if started then (if noPassword then g else g.(log := Fed([START]))).(place := F.InMsg)
                        else if b == START then g else g.(place := F.Waiting)
    {
      hide F.StartsMessage;
      started := F.StartsMessage(b);
      if !started {
        if b != START {
          outputParserState := F.Waiting;
        }
        return;
      }
      if !noPassword {
        log := Fed([START]);
      }
      outputParserState := F.InMsg;
    }

    /** The byte behind an opening brace, and the message it may start. */
    method WriteStarted(b: Byte)
      requires Valid() && authorizing == Success && outputParserState == F.Started
      modifies this, msgHashBytes
      ensures Valid() && View() == Write(show, old(View()), b)
    {
      hide WriteMsgByte, F.StartsMessage;
      ghost var g := View();
      var started := StartMessage(b);
      if started {
        PlaceIsSet(show, if noPassword then g else g.(log := Fed([START])), b);
        hide View;
        WriteOutByte(b);
      }
    }

    /** The program writes a byte. */
    method WriteToPfodApp(b: Byte)
      requires Valid()
      modifies this, msgHashBytes
      ensures Valid() && View() == Write(show, old(View()), b)
    {
      hide WriteMsgByte;
      if authorizing == Success {
        if outputParserState == F.Waiting {
          if b == START {
            outputParserState := F.Started;
          }
        } else if outputParserState == F.Started {
          hide Write;
          WriteStarted(b);
        } else {
          WriteOutByte(b);
        }
      }
    }

    /** The end of a call. */
    method FinishCall(cmd: Byte, made: Option<seq<Byte>>) returns (out: Byte)
      requires Valid()
      modifies this, parser, parser.args
      ensures Valid() && (View(), out) == Finish(show, old(View()), cmd, made)
    {
      hide Judge, Disconnect;
      out := JudgeCmd(cmd, made);
      if out == DISCONNECT_NOW || out == AUTHORIZING_CMD {
        out := DISCONNECT_NOW;
        SetAuthorizing(NotAuthorizing);
        CloseConnection();
      } else if out != 0 && authorizing == Success {
        rawEnabled := true;
      }
    }

    /** A call of parse: the command it returns and how many of the bytes it has read. */
    method ParseInput(io: seq<Byte>, ended: bool, made: Option<seq<Byte>>) returns (cmd: Byte, used: nat)
      requires Valid()
      modifies this, parser, parser.args, msgHashBytes
      ensures Valid() && used <= |io|
      ensures if ended then (View(), cmd) == Finish(show, old(View()), DISCONNECT_NOW, made) && used == 0
              else (View(), cmd, used) == Call(show, old(View()), io, made)
    {
      hide View, Valid, ReadByte, Finish;
      used, cmd := 0, 0;
      if ended {
        cmd := FinishCall(DISCONNECT_NOW, made);
        return;
      }
      ghost var start := View();
      while used < |io|
        invariant Valid() && used <= |io| && cmd == 0
        invariant var rest := Call(show, View(), io[used..], made); Call(show, start, io, made) == (rest.0, rest.1, rest.2 + used)
        decreases |io| - used
      {
        assert io[used..][1..] == io[used + 1..];
        ghost var before := View();
        cmd := ReadInputByte(io[used]);
        used := used + 1;
        if cmd != 0 {
          cmd := FinishCall(cmd, made);
          return;
        }
        NothingToFinish(show, View(), made);
      }
      assert io[used..] == [];
    }
  }

  lemma NothingToFinish(show: Shown, g: Gate, made: Option<seq<Byte>>)
    requires g.Valid()
    ensures Finish(show, g, 0, made) == (g, 0)
  {
  }

  lemma PlaceIsSet(show: Shown, g: Gate, b: Byte)
    requires g.Valid()
    ensures WriteMsgByte(show, g, b) == WriteMsgByte(show, g.(place := F.InMsg), b)
  {
    hide F.Long, F.FirstFour, Hex.HexChars, Overwritten, F.NextCount;
  }
}
