/** The output side of the server object and the input side of the client object. */
module FramingObjects {
  import opened Bytes
  import opened Buffers
  import opened RingBuffer
  import opened Hex
  import opened Framing
  import FP = FramingProof
  import Fifo

  /** The server's output parser. The hash is kept as the bytes put into it so far. */
  class PfodSecurity {
    const hash: Hash
    const msgHashBytes: array<Byte>
    var authorized: bool
    var noPassword: bool
    var rawOnLink: bool
    var challenge: seq<Byte>
    var outputParserState: Place
    var hashed: seq<Byte>
    var outMsgCount: nat

    ghost predicate Valid() {
      msgHashBytes.Length == MSG_HASH_SIZE + 1
    }

    ghost function View(): Sender
      reads this
    {
      Sender(authorized, noPassword, rawOnLink, challenge, outputParserState, hashed, outMsgCount)
    }

    constructor (h: Hash)
      ensures Valid() && hash == h && fresh(msgHashBytes)
      ensures View() == Sender(false, true, true, [], Waiting, [], 0)
    {
      hash := h;
      msgHashBytes := new Byte[MSG_HASH_SIZE + 1];
      authorized, noPassword, rawOnLink, challenge := false, true, true, [];
      outputParserState, hashed, outMsgCount := Waiting, [], 0;
    }

    /** The digits of the hash of the message just ended. */
    method HashDigits() returns (digits: seq<Byte>)
      requires Valid()
      modifies msgHashBytes
      ensures digits == HexChars(Tag(hash, hashed, outMsgCount, challenge))
    {
      var tag := Tag(hash, hashed, outMsgCount, challenge);
      var result := new Byte[MSG_HASH_BYTE_SIZE](i requires 0 <= i < MSG_HASH_BYTE_SIZE => tag[i]);
      assert result[..MSG_HASH_BYTE_SIZE] == tag;
      var n := HexToAscii(result, MSG_HASH_BYTE_SIZE, msgHashBytes, MSG_HASH_SIZE + 1);
      assert HexChars(tag)[..n] == HexChars(tag);
      digits := msgHashBytes[..n];
    }

    /** One byte of a message. */
    method WriteMsgByte(b: Byte) returns (out: seq<Byte>)
      requires Valid() && outputParserState == InMsg
      modifies this`outputParserState, this`hashed, this`outMsgCount, msgHashBytes
      ensures (View(), out) == WriteInMsg(hash, old(View()), b)
    {
      hide HexChars;
      out := [b];
      if !noPassword {
        hashed := hashed + [b];
      }
      if b == CLOSE {
        outputParserState := Waiting;
        if !noPassword {
          var digits := HashDigits();
          outMsgCount := (outMsgCount + 1) % COUNTS;
          out := out + digits;
        }
      }
    }

    /** One byte of output; what is sent for it. */
    method WriteToPfodApp(b: Byte) returns (out: seq<Byte>)
      requires Valid()
      modifies this`outputParserState, this`hashed, this`outMsgCount, msgHashBytes
      ensures (View(), out) == WriteByte(hash, old(View()), b)
    {
      hide StartsMessage, HexChars, Tag;
      out := [];
      if !authorized {
        return;
      }
      if outputParserState == Waiting {
        if b == OPEN {
          outputParserState := Started;
          return;
        }
      } else if outputParserState == Started {
        if StartsMessage(b) {
          if !noPassword {
            hashed := [OPEN];
          }
          out := [OPEN];
          outputParserState := InMsg;
        } else {
          if rawOnLink {
            out := [OPEN];
          }
          if b == OPEN {
            return;
          }
          outputParserState := Waiting;
        }
      }
      if outputParserState == InMsg {
        var more := WriteMsgByte(b);
        assert [] + more == more;
        out := out + more;
      } else {
        assert [] + [b] == [b];
        if rawOnLink {
          out := out + [b];
        }
      }
    }
  }

  /** The client's input separator, once authorised. */
  class PfodSecurityClient {
    const hash: Hash
    const rxTempBuf: PfodRingBuffer
    const rxBuf: PfodRingBuffer
    const rxRawDataBuf: PfodRingBuffer
    const msgHashBytes: array<Byte>
    var noPassword: bool
    var challenge: seq<Byte>
    var outputParserState: Place
    var hashed: seq<Byte>
    var hashResult: seq<Byte>
    var inMsgCount: nat
    var msgHashCount: int
    var closingConnectionIn: bool
    var closingConnectionOut: bool
    var connectionClosed: bool

    ghost function Parts(): set<object> {
      {rxTempBuf, rxTempBuf.buf, rxBuf, rxBuf.buf, rxRawDataBuf, rxRawDataBuf.buf, msgHashBytes}
    }

    ghost predicate Apart() {
      rxTempBuf != rxBuf && rxTempBuf != rxRawDataBuf && rxBuf != rxRawDataBuf &&
      rxTempBuf.buf != rxBuf.buf && rxTempBuf.buf != rxRawDataBuf.buf && rxBuf.buf != rxRawDataBuf.buf &&
      msgHashBytes !in {rxTempBuf.buf, rxBuf.buf, rxRawDataBuf.buf}
    }

    ghost predicate Valid()
      reads this, Parts()
    {
      Apart() && rxTempBuf.Valid() && rxBuf.Valid() && rxRawDataBuf.Valid() &&
      msgHashBytes.Length == MSG_HASH_SIZE + 1 && -1 <= msgHashCount < MSG_HASH_SIZE
    }

    ghost function View(): Receiver
      requires Valid()
      reads this, Parts()
    {
      Receiver(noPassword, challenge, outputParserState, hashed, inMsgCount, msgHashCount >= 0,
               if msgHashCount >= 0 then msgHashBytes[..msgHashCount] else [], FirstFour(hashResult),
               BufferOf(rxTempBuf), BufferOf(rxBuf), BufferOf(rxRawDataBuf), closingConnectionIn, closingConnectionOut, connectionClosed)
    }

    /** A connection without a password, its buffers empty; they share no storage. */
    constructor (h: Hash, temp: PfodRingBuffer, rx: PfodRingBuffer, raw: PfodRingBuffer)
      requires temp.Valid() && rx.Valid() && raw.Valid() && temp.Contents() == rx.Contents() == raw.Contents() == []
      requires temp != rx && temp != raw && rx != raw && temp.buf != rx.buf && temp.buf != raw.buf && rx.buf != raw.buf
      ensures Valid() && hash == h && rxTempBuf == temp && rxBuf == rx && rxRawDataBuf == raw && fresh(msgHashBytes)
      ensures View() == Receiver(true, [], Waiting, [], 0, false, [], FirstFour([]), Buffer([], temp.bufSize), Buffer([], rx.bufSize),
                                 Buffer([], raw.bufSize), false, false, false)
    {
      hide PfodRingBuffer.Valid, PfodRingBuffer.Contents;
      hash, rxTempBuf, rxBuf, rxRawDataBuf := h, temp, rx, raw;
      msgHashBytes := new Byte[MSG_HASH_SIZE + 1];
      noPassword, challenge, outputParserState, hashed, hashResult := true, [], Waiting, [], [];
      inMsgCount, msgHashCount := 0, -1;
      closingConnectionIn, closingConnectionOut, connectionClosed := false, false, false;
    }

    /** Raw data is copied at once. */
    method PutRaw(b: Byte)
      requires Valid()
      modifies rxRawDataBuf, rxRawDataBuf.buf
      ensures Valid() && View() == old(View()).(raw := old(View()).raw.Put(b))
    {
      hide PfodRingBuffer.Valid, PfodRingBuffer.Contents, PfodRingBuffer.View, Fifo.Step, FirstFour;
      var written := rxRawDataBuf.Write(b);
    }

    method PutTemp(b: Byte)
      requires Valid()
      modifies rxTempBuf, rxTempBuf.buf
      ensures Valid() && View() == old(View()).(temp := old(View()).temp.Put(b))
    {
      hide PfodRingBuffer.Valid, PfodRingBuffer.Contents, PfodRingBuffer.View, Fifo.Step, FirstFour;
      var written := rxTempBuf.Write(b);
    }

    method ClearTemp()
      requires Valid()
      modifies rxTempBuf
      ensures Valid() && View() == old(View()).(temp := old(View()).temp.Cleared())
    {
      hide PfodRingBuffer.Valid, PfodRingBuffer.Contents, PfodRingBuffer.View, Fifo.Step, FirstFour;
      rxTempBuf.Clear();
    }

    /** Moves a byte of the accepted message on. */
    method MoveByte()
      requires Valid() && View().temp.bytes != []
      modifies rxTempBuf, rxBuf, rxBuf.buf
      ensures Valid()
      ensures var c := old(View());
              View() == c.(rx := c.rx.Put(c.temp.bytes[0]), temp := Buffer(c.temp.bytes[1..], c.temp.capacity))
    {
      hide PfodRingBuffer.Valid, PfodRingBuffer.Contents, PfodRingBuffer.View, Fifo.Step, FirstFour;
      var b := rxTempBuf.Read();
      var written := rxBuf.Write(b);
    }

    /** The message becomes readable. */
    method AcceptMessage()
      requires Valid()
      modifies rxTempBuf, rxBuf, rxBuf.buf
      ensures Valid() && View() == Accept(old(View()))
    {
      hide View, PfodRingBuffer.Valid, PfodRingBuffer.Contents;
      Fields();
      ghost var c := View();
      while rxTempBuf.Available() > 0
        invariant Valid() && rxTempBuf.Valid()
        invariant View() == c.(rx := View().rx, temp := View().temp) && BufferOf(rxTempBuf) == View().temp
        invariant View().temp.capacity == c.temp.capacity && PutAll(View().rx, View().temp.bytes) == PutAll(c.rx, c.temp.bytes)
        decreases |View().temp.bytes|
      {
        MoveByte();
        Fields();
      }
    }

    lemma Fields()
      requires Valid()
      ensures rxTempBuf.Valid() && BufferOf(rxTempBuf) == View().temp
    {
    }

    method SetPlace(p: Place)
      requires Valid()
      modifies this`outputParserState
      ensures Valid() && View() == old(View()).(place := p)
    {
      hide PfodRingBuffer.Valid, PfodRingBuffer.Contents, Apart, FirstFour;
      outputParserState := p;
    }

    /** Clears the connection. */
    method CloseConnection()
      requires Valid()
      modifies this, Parts()
      ensures Valid() && View() == Closed(old(View()))
    {
      hide PfodRingBuffer.Valid, PfodRingBuffer.Contents, PfodRingBuffer.View, Fifo.Step, FirstFour;
      ClearBuffers();
      ClearState();
    }

    method ClearBuffers()
      requires Valid()
      modifies rxTempBuf, rxBuf, rxRawDataBuf
      ensures Valid()
      ensures var c := old(View());
              View() == c.(temp := c.temp.Cleared(), rx := c.rx.Cleared(), raw := c.raw.Cleared())
    {
      hide PfodRingBuffer.Valid, PfodRingBuffer.Contents, PfodRingBuffer.View, Fifo.Step, FirstFour;
      rxTempBuf.Clear();
      rxBuf.Clear();
      rxRawDataBuf.Clear();
    }

    method ClearState()
      requires Valid()
      modifies this
      ensures Valid()
      ensures View() == old(View()).(place := Waiting, inMsgCount := 0, collecting := false, digits := [],
                                     closingIn := false, closingOut := false, closed := true)
    {
      hide PfodRingBuffer.Valid, PfodRingBuffer.Contents, Apart, FirstFour, BufferOf;
      inMsgCount := 0;
      msgHashCount := -1;
      outputParserState := Waiting;
      closingConnectionOut := false;
      closingConnectionIn := false;
      connectionClosed := true;
    }

    method CloseConnectionAddEOF()
      requires Valid()
      modifies this, Parts()
      ensures Valid() && View() == ClosedWithEOF(old(View()))
    {
      CloseConnection();
      PutReceived(END_OF_FILE);
    }

    method PutReceived(b: Byte)
      requires Valid()
      modifies rxBuf, rxBuf.buf
      ensures Valid() && View() == old(View()).(rx := old(View()).rx.Put(b))
    {
      hide PfodRingBuffer.Valid, PfodRingBuffer.Contents, PfodRingBuffer.View, Fifo.Step, FirstFour;
      var written := rxBuf.Write(b);
    }

    /** The digits are read over themselves and compared with the hash. */
    method CheckMsgHash() returns (matches: bool)
      requires Valid() && msgHashBytes[MSG_HASH_SIZE] == 0 && msgHashCount == -1
      modifies msgHashBytes
      ensures Valid() && View() == old(View())
      ensures matches == (HexBytes(old(msgHashBytes[..MSG_HASH_SIZE]), MSG_HASH_BYTE_SIZE) == old(View()).expected)
    {
      hide PfodRingBuffer.Valid, PfodRingBuffer.Contents, FirstFour, HexBytes;
      ghost var digits := msgHashBytes[..MSG_HASH_SIZE];
      assert msgHashBytes[..] == digits + [0];
      NullEnds(digits, MSG_HASH_BYTE_SIZE);
      var len := AsciiToHex(msgHashBytes, MSG_HASH_BYTE_SIZE);
      matches := len == MSG_HASH_BYTE_SIZE && msgHashBytes[..MSG_HASH_BYTE_SIZE] == FirstFour(hashResult);
    }

    /** Puts a digit of the hash away; with the last one, tells whether the hash matches. */
    method TakeDigit(b: Byte) returns (complete: bool, matches: bool)
      requires Valid() && msgHashCount >= 0
      modifies this`msgHashCount, msgHashBytes
      ensures Valid() && complete == (|old(View()).digits| + 1 == MSG_HASH_SIZE)
      ensures var c, digits := old(View()), old(View()).digits + [b];
              if complete then
                View() == c.(digits := [], collecting := false) && matches == (HexBytes(digits, MSG_HASH_BYTE_SIZE) == c.expected)
              else View() == c.(digits := digits)
    {
      hide PfodRingBuffer.Valid, PfodRingBuffer.Contents, FirstFour, HexBytes;
      matches := false;
      msgHashBytes[msgHashCount] := b;
      complete := msgHashCount + 1 == MSG_HASH_SIZE;
      if complete {
        msgHashBytes[MSG_HASH_SIZE] := 0;
        msgHashCount := -1;
        assert msgHashBytes[..MSG_HASH_SIZE] == old(View()).digits + [b];
        matches := CheckMsgHash();
      } else {
        msgHashCount := msgHashCount + 1;
      }
    }

    method CountIn()
      requires Valid()
      modifies this`inMsgCount
      ensures Valid() && View() == old(View()).(inMsgCount := NextCount(old(View()).inMsgCount))
    {
      hide PfodRingBuffer.Valid, PfodRingBuffer.Contents, FirstFour;
      inMsgCount := (inMsgCount + 1) % COUNTS;
    }

    /** One digit of the hash that follows a message. */
    method CollectCheckHash(b: Byte)
      requires Valid() && msgHashCount >= 0 && !noPassword
      modifies this, Parts()
      ensures Valid() && View() == Collect(old(View()), b)
    {
      hide Valid, View, Accept, Closed, ClosedWithEOF, HexBytes;
      ghost var c := View();
      StateFields();
      var complete, matches := TakeDigit(b);
      if complete {
        if matches {
          AcceptMessage();
          CountIn();
          StateFields();
          ClosingOutKept(c);
          if closingConnectionOut {
            CloseConnection();
          }
        } else {
          NothingClosed(c);
          CloseConnectionAddEOF();
        }
      }
    }

    lemma ClosingOutKept(c: Receiver)
      ensures Accept(c.(digits := [], collecting := false)).closingOut == c.closingOut
      ensures Accept(c.(digits := [], collecting := false)).inMsgCount == c.inMsgCount
    {
    }

    lemma NothingClosed(c: Receiver)
      ensures ClosedWithEOF(c.(digits := [], collecting := false)) == ClosedWithEOF(c)
    {
    }

    lemma StateFields()
      requires Valid()
      ensures var c := View();
              c.noPassword == noPassword && c.challenge == challenge && c.place == outputParserState && c.hashed == hashed &&
              c.inMsgCount == inMsgCount && c.collecting == (msgHashCount >= 0) && |c.digits| < MSG_HASH_SIZE &&
              c.closingIn == closingConnectionIn && c.closingOut == closingConnectionOut && c.closed == connectionClosed
    {
    }

    /** Puts a byte into the hash, or starts it afresh. */
    method HashByte(b: Byte, first: bool)
      requires Valid()
      modifies this`hashed
      ensures Valid()
      ensures var c := old(View());
              View() == c.(hashed := if c.noPassword then c.hashed else (if first then [] else c.hashed) + [b])
    {
      hide PfodRingBuffer.Valid, PfodRingBuffer.Contents, FirstFour;
      if !noPassword {
        hashed := (if first then [] else hashed) + [b];
      }
    }

    /** The hash of the message just ended is computed and its digits are awaited. */
    method AwaitHash()
      requires Valid()
      modifies this`hashResult, this`msgHashCount
      ensures Valid()
      ensures var c := old(View());
              View() == c.(collecting := true, digits := [], expected := Tag(hash, c.hashed, c.inMsgCount, c.challenge))
    {
      hide PfodRingBuffer.Valid, PfodRingBuffer.Contents, FirstFour, Long;
      msgHashCount := 0;
      hashResult := hash(hashed + Long(inMsgCount) + challenge);
    }

    /** One byte of a message. */
    method MessageByte(b: Byte)
      requires Valid()
      modifies this, Parts()
      ensures Valid() && View() == ReadInMsg(hash, old(View()), b)
    {
      hide Valid, View, Accept, Tag;
      SetPlace(InMsg);
      PutTemp(b);
      HashByte(b, false);
      if b == CLOSE {
        SetPlace(Waiting);
        StateFields();
        if noPassword {
          AcceptMessage();
        } else {
          AwaitHash();
        }
      }
    }

    method SetClosingIn(close: bool)
      requires Valid()
      modifies this`closingConnectionIn
      ensures Valid() && View() == old(View()).(closingIn := old(View()).closingIn || close)
    {
      hide PfodRingBuffer.Valid, PfodRingBuffer.Contents, FirstFour, Apart;
      if close {
        closingConnectionIn := true;
      }
    }

    /** A byte outside the digits of a hash. */
    method SeparateByte(b: Byte)
      requires Valid() && !connectionClosed && b != END_OF_FILE && (msgHashCount < 0 || noPassword)
      modifies this, Parts()
      ensures Valid() && View() == ReadByte(hash, old(View()), b)
    {
      hide Valid, View, ReadInMsg, StartsMessage;
      StateFields();
      if outputParserState == Waiting {
        ClearTemp();
        if b == OPEN {
          SetPlace(Started);
        } else {
          PutRaw(b);
        }
      } else if outputParserState == Started {
        if StartsMessage(b) {
          SetClosingIn(b == CLOSE_COMMAND);
          HashByte(OPEN, true);
          assert [] + [OPEN] == [OPEN];
          PutTemp(OPEN);
          MessageByte(b);
        } else {
          PutRaw(OPEN);
          if b != OPEN {
            SetPlace(Waiting);
            PutRaw(b);
          }
        }
      } else {
        MessageByte(b);
      }
    }

    /** Reads what has arrived, up to the next digit of a hash or the end of the connection; how much was read. */
    method ReadFromIO(io: seq<Byte>) returns (used: nat)
      requires Valid() && !connectionClosed
      modifies this, Parts()
      ensures Valid() && used <= |io| && (io != [] ==> used > 0) && View() == ReadAll(hash, old(View()), io[..used])
    {
      hide Valid, View, ReadByte;
      used := 0;
      ghost var c := View();
      StateFields();
      while used < |io|
        invariant Valid() && used <= |io| && !connectionClosed && View() == ReadAll(hash, c, io[..used])
        decreases |io| - used
      {
        var b := io[used];
        used := used + 1;
        ReadOneMore(hash, c, io, used - 1);
        ghost var before := View();
        StateFields();
        if b == END_OF_FILE {
          ReadEOF(hash, before);
          CloseConnectionAddEOF();
          return;
        }
        if msgHashCount >= 0 && !noPassword {
          ReadDigit(hash, before, b);
          CollectCheckHash(b);
          return;
        }
        SeparateByte(b);
        NotClosedBy(hash, before, b);
        StateFields();
      }
    }
  }

  lemma ReadOneMore(h: Hash, c: Receiver, io: seq<Byte>, n: nat)
    requires n < |io|
    ensures ReadAll(h, c, io[..n + 1]) == ReadByte(h, ReadAll(h, c, io[..n]), io[n])
  {
    hide ReadByte;
    assert io[..n + 1] == io[..n] + [io[n]];
    FP.ReadAllAppend(h, c, io[..n], [io[n]]);
    assert [io[n]][1..] == [];
  }

  lemma ReadEOF(h: Hash, c: Receiver)
    requires !c.closed
    ensures ReadByte(h, c, END_OF_FILE) == ClosedWithEOF(c)
  {
  }

  lemma ReadDigit(h: Hash, c: Receiver, b: Byte)
    requires !c.closed && b != END_OF_FILE && c.collecting && !c.noPassword
    ensures ReadByte(h, c, b) == Collect(c, b)
  {
  }

  lemma NotClosedBy(h: Hash, c: Receiver, b: Byte)
    requires !c.closed && b != END_OF_FILE && !(c.collecting && !c.noPassword)
    ensures !ReadByte(h, c, b).closed
  {
  }
}
