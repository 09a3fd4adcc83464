/** With a password, the client takes a message if and only if the digits behind it give its hash. */
module FramingSafety {
  import opened Bytes
  import opened Buffers
  import opened Hex
  import opened Framing
  import opened FramingProof

  /** A client with a password between messages. */
  predicate Ready(c: Receiver) {
    !c.closed && !c.noPassword && !c.collecting && c.place.Waiting?
  }

  // ---- a whole message and its digits ----

  lemma {:induction false} BodyReads(h: Hash, c: Receiver, body: seq<Byte>)
    requires !c.closed && !c.noPassword && !c.collecting && c.place.InMsg? && CLOSE !in body && END_OF_FILE !in body
    ensures ReadAll(h, c, body) == c.(temp := PutAll(c.temp, body), hashed := c.hashed + body)
    decreases |body|
  {
    if body == [] {
      assert c.hashed + [] == c.hashed;
    } else {
      assert body[0] in body && forall b :: b in body[1..] ==> b in body;
      BodyReads(h, ReadByte(h, c, body[0]), body[1..]);
      assert c.hashed + [body[0]] + body[1..] == c.hashed + body;
    }
  }

  /** The client once a message has been read and its digits are awaited. */
  function Awaiting(h: Hash, c: Receiver, m: seq<Byte>): Receiver
    requires |m| >= 2
  {
    c.(temp := PutAll(c.temp.Cleared(), m), hashed := m, closingIn := c.closingIn || m[1] == CLOSE_COMMAND,
       collecting := true, digits := [], expected := Tag(h, m, c.inMsgCount, c.challenge))
  }

  lemma {:induction false} PutAllAppend(b: Buffer, x: seq<Byte>, y: seq<Byte>)
    ensures PutAll(b, x + y) == PutAll(PutAll(b, x), y)
    decreases |x|
  {
    if x == [] {
      assert x + y == y;
    } else {
      assert (x + y)[1..] == x[1..] + y;
      PutAllAppend(b.Put(x[0]), x[1..], y);
    }
  }

  /** The state in which the rest of a message is read. */
  function Inside(c: Receiver, b: Byte): Receiver {
    c.(place := InMsg, closingIn := c.closingIn || b == CLOSE_COMMAND, hashed := [OPEN], temp := c.temp.Cleared().Put(OPEN))
  }

  lemma StartReads(h: Hash, c: Receiver, b: Byte)
    requires Ready(c) && StartsMessage(b)
    ensures ReadByte(h, ReadByte(h, c, OPEN), b) == ReadByte(h, Inside(c, b), b)
  {
    assert b != END_OF_FILE;
    hide StartsMessage;
  }

  lemma {:induction false} MessageReads(h: Hash, c: Receiver, m: seq<Byte>)
    requires Ready(c) && IsMessage(m) && END_OF_FILE !in m
    ensures ReadAll(h, c, m) == Awaiting(h, c, m)
  {
    var rest, body := m[1..], m[1..|m| - 1];
    assert m == [OPEN] + rest && rest == body + [CLOSE] && rest[0] == m[1] && [OPEN] + body == m[..|m| - 1];
    StartReads(h, c, m[1]);
    assert ReadAll(h, c, m) == ReadAll(h, Inside(c, m[1]), rest);
    BodyReads(h, Inside(c, m[1]), body);
    ReadAllAppend(h, Inside(c, m[1]), body, [CLOSE]);
    var read := ReadAll(h, Inside(c, m[1]), body);
    assert [CLOSE][1..] == [];
    PutTogether(c.temp.Cleared(), body);
    hide ReadAll, PutAll, StartsMessage;
    assert [OPEN] + body + [CLOSE] == m;
  }

  lemma PutTogether(b: Buffer, body: seq<Byte>)
    ensures PutAll(b.Put(OPEN), body).Put(CLOSE) == PutAll(b, [OPEN] + body + [CLOSE])
  {
    PutAllAppend(b, [OPEN] + body, [CLOSE]);
    PutAllAppend(b, [OPEN], body);
    assert [OPEN][1..] == [] && [CLOSE][1..] == [];
  }

  /** Eight bytes where the digits are expected. */
  lemma {:induction false} DigitsRead(h: Hash, c: Receiver, d: seq<Byte>)
    requires !c.closed && c.collecting && !c.noPassword && c.digits == [] && |d| == MSG_HASH_SIZE && END_OF_FILE !in d
    ensures ReadAll(h, c, d)
         == if HexBytes(d, MSG_HASH_BYTE_SIZE) != c.expected then ClosedWithEOF(c)
            else if c.closingOut then Closed(Accepted(c))
            else Accepted(c)
  {
    hide HexBytes, PutAll;
    var front, last := d[..MSG_HASH_SIZE - 1], d[MSG_HASH_SIZE - 1];
    assert d == front + [last] && last in d && [last][1..] == [] && [] + front == front;
    CollectSome(h, c, front);
    ReadAllAppend(h, c, front, [last]);
    var almost := c.(digits := front);
    assert ReadAll(h, almost, [last]) == ReadByte(h, almost, last);
  }

  /** Exactly: after a message and any eight bytes the client has the message, has counted it and goes on, if the bytes give
      the hash of message, count and challenge; otherwise it has closed, and the end-of-file byte is all there is to read.
      A client that is closing takes the message as its last. */
  lemma {:induction false} AcceptedExactly(h: Hash, c: Receiver, m: seq<Byte>, d: seq<Byte>)
    requires Ready(c) && IsMessage(m) && |d| == MSG_HASH_SIZE && END_OF_FILE !in m && END_OF_FILE !in d
    requires |m| <= c.temp.capacity && |c.rx.bytes| + |m| <= c.rx.capacity
    ensures var r := ReadAll(h, c, m + d);
            if HexBytes(d, MSG_HASH_BYTE_SIZE) != Tag(h, m, c.inMsgCount, c.challenge) then
              r.closed && r.rx.bytes == [END_OF_FILE] && r.raw.bytes == [] && r.inMsgCount == 0
            else if c.closingOut then
              r.closed && r.rx.bytes == [] && r.inMsgCount == 0
            else
              Ready(r) && r.rx.bytes == c.rx.bytes + m && r.raw == c.raw && r.temp.bytes == [] && r.inMsgCount == (c.inMsgCount + 1) % COUNTS &&
              r.challenge == c.challenge && r.closingIn == (c.closingIn || m[1] == CLOSE_COMMAND)
  {
    assert |m| >= 2;
    hide ReadAll, PutAll, HexBytes, Tag, StartsMessage, IsMessage;
    MessageReads(h, c, m);
    ReadAllAppend(h, c, m, d);
    DigitsRead(h, Awaiting(h, c, m), d);
    AcceptedIs(h, c, m);
  }

  lemma AcceptedIs(h: Hash, c: Receiver, m: seq<Byte>)
    requires Ready(c) && |m| >= 2 && |m| <= c.temp.capacity && |c.rx.bytes| + |m| <= c.rx.capacity
    ensures var r := Accepted(Awaiting(h, c, m));
            Ready(r) && r.rx.bytes == c.rx.bytes + m && r.raw == c.raw && r.temp.bytes == [] && r.inMsgCount == (c.inMsgCount + 1) % COUNTS &&
            r.challenge == c.challenge && r.closingIn == (c.closingIn || m[1] == CLOSE_COMMAND)
  {
    PutAllFits(c.temp.Cleared(), m);
    PutAllFits(c.rx, m);
    assert [] + m == m;
    hide PutAll, Tag;
  }

  // ---- any bytes at all ----

  predicate EndsWith(seen: seq<Byte>, s: seq<Byte>) {
    |s| <= |seen| && seen[|seen| - |s|..] == s
  }

  /** A message without its closing brace. */
  predicate IsBody(m: seq<Byte>) {
    |m| >= 2 && m[0] == OPEN && StartsMessage(m[1]) && CLOSE !in m
  }

  /** What the client holds of a message. */
  function Kept(c: Receiver, m: seq<Byte>): seq<Byte> {
    if |m| <= c.temp.capacity then m else m[..c.temp.capacity]
  }

  predicate ReadsFrom(c: Receiver, seen: seq<Byte>, m: seq<Byte>) {
    IsBody(m) && EndsWith(seen, m) && c.hashed == m && c.temp.bytes == Kept(c, m)
  }

  predicate AwaitsFrom(h: Hash, c: Receiver, seen: seq<Byte>, m: seq<Byte>) {
    IsMessage(m) && |c.digits| < MSG_HASH_SIZE && EndsWith(seen, m + c.digits) && c.place.Waiting? &&
    c.expected == Tag(h, m, c.inMsgCount, c.challenge) && c.temp.bytes == Kept(c, m)
  }

  /** What the state of an open client has to do with the bytes it has got. */
  ghost predicate Heard(h: Hash, c: Receiver, seen: seq<Byte>) {
    !c.noPassword &&
    (!c.closed ==>
      (c.collecting ==> exists m :: AwaitsFrom(h, c, seen, m)) &&
      (!c.collecting && c.place.InMsg? ==> exists m :: ReadsFrom(c, seen, m)) &&
      (!c.collecting && c.place.Started? ==> EndsWith(seen, [OPEN]) && c.temp.bytes == []))
  }

  /** A byte adds a message that is followed by its digits. */
  predicate Adds(h: Hash, c: Receiver, seen: seq<Byte>, r: Receiver, m: seq<Byte>, d: seq<Byte>) {
    IsMessage(m) && |d| == MSG_HASH_SIZE && EndsWith(seen, m + d) &&
    HexBytes(d, MSG_HASH_BYTE_SIZE) == Tag(h, m, c.inMsgCount, c.challenge) &&
    r.rx == PutAll(c.rx, Kept(c, m)) && r.inMsgCount == NextCount(c.inMsgCount)
  }

  /** What a byte may do to what can be read: nothing, or the client closes, or a genuine message is added. */
  ghost predicate Fair(h: Hash, c: Receiver, seen: seq<Byte>, r: Receiver) {
    (r.rx == c.rx && (r.inMsgCount == c.inMsgCount || r.closed)) ||
    (r.closed && r.inMsgCount == 0 && (r.rx.bytes == [] || r.rx.bytes == [END_OF_FILE])) ||
    exists m, d :: Adds(h, c, seen, r, m, d)
  }

  lemma EndsOneMore(seen: seq<Byte>, s: seq<Byte>, b: Byte)
    ensures EndsWith(seen, s) ==> EndsWith(seen + [b], s + [b])
    ensures EndsWith(seen + [b], [b])
  {
  }

  lemma KeptOneMore(c: Receiver, m: seq<Byte>, b: Byte)
    requires c.temp.bytes == Kept(c, m)
    ensures c.temp.Put(b).bytes == Kept(c, m + [b]) && c.temp.Put(b).capacity == c.temp.capacity
  {
  }

  lemma DigitHeard(h: Hash, c: Receiver, seen: seq<Byte>, b: Byte)
    requires Heard(h, c, seen) && !c.closed && c.collecting && b != END_OF_FILE
    ensures var r := ReadByte(h, c, b); Heard(h, r, seen + [b]) && Fair(h, c, seen + [b], r)
  {
    hide HexBytes, Tag, PutAll, IsMessage, Kept, EndsWith;
    var m :| AwaitsFrom(h, c, seen, m);
    var r := ReadByte(h, c, b);
    EndsOneMore(seen, m + c.digits, b);
    assert m + c.digits + [b] == m + (c.digits + [b]);
    if !r.closed && r.collecting {
      KeptAlike(c, r, m);
      assert AwaitsFrom(h, r, seen + [b], m);
    } else if HexBytes(c.digits + [b], MSG_HASH_BYTE_SIZE) == c.expected && !c.closingOut {
      assert Adds(h, c, seen + [b], r, m, c.digits + [b]);
    }
  }

  lemma KeptAlike(c: Receiver, r: Receiver, m: seq<Byte>)
    requires c.temp.capacity == r.temp.capacity
    ensures Kept(c, m) == Kept(r, m)
  {
  }

  /** A byte of a message. */
  lemma BodyHeard(h: Hash, c: Receiver, seen: seq<Byte>, b: Byte, m: seq<Byte>)
    requires !c.closed && !c.noPassword && !c.collecting && b != END_OF_FILE
    requires m != [] && CLOSE !in m && m[0] == OPEN && (|m| == 1 ==> StartsMessage(b)) && (|m| > 1 ==> StartsMessage(m[1]))
    requires EndsWith(seen, m) && c.hashed == m && c.temp.bytes == Kept(c, m)
    ensures Heard(h, ReadInMsg(h, c, b), seen + [b])
  {
    hide Tag, Kept, StartsMessage;
    var r := ReadInMsg(h, c, b);
    EndsOneMore(seen, m, b);
    KeptOneMore(c, m, b);
    KeptAlike(c, r, m + [b]);
    if b == CLOSE {
      assert (m + [b])[..|m|] == m && m + [b] + [] == m + [b];
      assert AwaitsFrom(h, r, seen + [b], m + [b]);
    } else {
      assert ReadsFrom(r, seen + [b], m + [b]);
    }
  }

  lemma OpenKept(c: Receiver)
    ensures c.temp.Cleared().Put(OPEN).bytes == Kept(c, [OPEN])
  {
  }

  /** A byte that is part of no message, or an opening brace. */
  lemma OtherHeard(h: Hash, c: Receiver, seen: seq<Byte>, b: Byte)
    requires Heard(h, c, seen) && (c.closed || b == END_OF_FILE || (!c.collecting && !c.place.InMsg? && !(c.place.Started? && StartsMessage(b))))
    ensures var r := ReadByte(h, c, b); Heard(h, r, seen + [b]) && Fair(h, c, seen + [b], r)
  {
    EndsOneMore(seen, [], b);
    hide AwaitsFrom, ReadsFrom, EndsWith, Adds, StartsMessage;
  }

  lemma MessageByteHeard(h: Hash, c: Receiver, seen: seq<Byte>, b: Byte)
    requires Heard(h, c, seen) && !c.closed && b != END_OF_FILE && !c.collecting
    requires c.place.InMsg? || (c.place.Started? && StartsMessage(b))
    ensures var r := ReadByte(h, c, b); Heard(h, r, seen + [b]) && r.rx == c.rx && r.inMsgCount == c.inMsgCount
  {
    if c.place.InMsg? {
      var m :| ReadsFrom(c, seen, m);
      BodyHeard(h, c, seen, b, m);
    } else {
      var inside := c.(closingIn := c.closingIn || b == CLOSE_COMMAND, hashed := [OPEN], temp := c.temp.Put(OPEN));
      OpenKept(c);
      assert c.temp == c.temp.Cleared();
      KeptAlike(c, inside, [OPEN]);
      BodyHeard(h, inside, seen, b, [OPEN]);
    }
    hide Heard, ReadsFrom, AwaitsFrom, Tag, StartsMessage;
  }

  lemma {:induction false} ByteHeard(h: Hash, c: Receiver, seen: seq<Byte>, b: Byte)
    requires Heard(h, c, seen)
    ensures var r := ReadByte(h, c, b); Heard(h, r, seen + [b]) && Fair(h, c, seen + [b], r)
  {
    hide ReadByte, Heard, Adds, StartsMessage;
    if c.closed || b == END_OF_FILE {
      OtherHeard(h, c, seen, b);
    } else if c.collecting {
      DigitHeard(h, c, seen, b);
    } else if c.place.InMsg? || (c.place.Started? && StartsMessage(b)) {
      MessageByteHeard(h, c, seen, b);
    } else {
      OtherHeard(h, c, seen, b);
    }
  }

  /** Every byte of a run is fair. */
  ghost predicate StaysFair(h: Hash, c: Receiver, bytes: seq<Byte>, seen: seq<Byte>)
    decreases |bytes|
  {
    bytes != [] ==>
      var r, now := ReadByte(h, c, bytes[0]), seen + [bytes[0]];
      Fair(h, c, now, r) && StaysFair(h, r, bytes[1..], now)
  }

  lemma {:induction false} RunStaysFair(h: Hash, c: Receiver, bytes: seq<Byte>, seen: seq<Byte>)
    requires Heard(h, c, seen)
    ensures StaysFair(h, c, bytes, seen)
    decreases |bytes|
  {
    hide ReadByte, Heard, Fair;
    if bytes != [] {
      ByteHeard(h, c, seen, bytes[0]);
      RunStaysFair(h, ReadByte(h, c, bytes[0]), bytes[1..], seen + [bytes[0]]);
    }
  }

  /** Over any bytes at all: whatever becomes readable is a message that has just arrived, directly followed by eight digits
      that give its hash with the present count and challenge; or the client has closed. */
  lemma {:induction false} OnlyGenuineMessages(h: Hash, c: Receiver, bytes: seq<Byte>)
    requires Ready(c)
    ensures StaysFair(h, c, bytes, [])
  {
    hide StaysFair;
    RunStaysFair(h, c, bytes, []);
  }

  // ---- after a close ----

  /** The next connection of the same client, once its challenge has been answered. */
  function NextConnection(c: Receiver, challenge: seq<Byte>): Receiver {
    c.(closed := false, challenge := challenge)
  }

  /** Nothing of the old connection is left but the byte that ends it. */
  predicate IsAfresh(c: Receiver) {
    !c.noPassword && !c.collecting && c.place.Waiting? && c.inMsgCount == 0 && c.digits == [] && c.temp.bytes == [] && c.raw.bytes == [] &&
    !c.closingIn && !c.closingOut && (c.rx.bytes == [] || c.rx.bytes == [END_OF_FILE])
  }

  lemma ByteLeavesAfresh(h: Hash, c: Receiver, b: Byte)
    requires !c.noPassword && c.rx.capacity > 0 && (c.closed ==> IsAfresh(c))
    ensures var r := ReadByte(h, c, b); !r.noPassword && r.rx.capacity > 0 && (r.closed ==> IsAfresh(r))
  {
    hide HexBytes, Tag, StartsMessage;
    PutAllKeepsCapacity(c.rx, c.temp.bytes);
    hide PutAll;
  }

  lemma {:induction false} PutAllKeepsCapacity(b: Buffer, bytes: seq<Byte>)
    ensures PutAll(b, bytes).capacity == b.capacity
    decreases |bytes|
  {
    if bytes != [] {
      PutAllKeepsCapacity(b.Put(bytes[0]), bytes[1..]);
    }
  }

  lemma {:induction false} RunLeavesAfresh(h: Hash, c: Receiver, bytes: seq<Byte>)
    requires !c.noPassword && c.rx.capacity > 0 && (c.closed ==> IsAfresh(c))
    ensures var r := ReadAll(h, c, bytes); !r.noPassword && (r.closed ==> IsAfresh(r))
    decreases |bytes|
  {
    hide ReadByte, IsAfresh;
    if bytes != [] {
      ByteLeavesAfresh(h, c, bytes[0]);
      RunLeavesAfresh(h, ReadByte(h, c, bytes[0]), bytes[1..]);
    }
  }

  /** Whatever has made the client close, in the middle of a message or of its digits, the next connection starts between
      messages with count 0, and nothing of the old one can be read or closes it. */
  lemma {:induction false} ReopensAfresh(h: Hash, c: Receiver, bytes: seq<Byte>, challenge: seq<Byte>)
    requires Ready(c) && c.rx.capacity > 0 && ReadAll(h, c, bytes).closed
    ensures var r := NextConnection(ReadAll(h, c, bytes), challenge);
            Ready(r) && r.inMsgCount == 0 && r.digits == [] && r.temp.bytes == [] && r.raw.bytes == [] && !r.closingIn && !r.closingOut &&
            (r.rx.bytes == [] || r.rx.bytes == [END_OF_FILE]) && r.challenge == challenge
  {
    hide ReadAll;
    RunLeavesAfresh(h, c, bytes);
  }
}

/** What the server puts on the link. */
module FramingOutput {
  import opened Bytes
  import opened Hex
  import opened Framing
  import opened FramingProof

  /** Before the connection is authorised nothing is sent. */
  lemma {:induction false} SilentBeforeAuthorised(h: Hash, s: Sender, w: seq<Byte>)
    requires !s.authorized
    ensures WriteAll(h, s, w) == (s, [])
    decreases |w|
  {
    if w != [] {
      SilentBeforeAuthorised(h, s, w[1..]);
    }
  }

  /** The server inside a message of which m has been written. */
  function Within(s: Sender, m: seq<Byte>): Sender {
    s.(place := InMsg, hashed := if s.noPassword then s.hashed else m)
  }

  lemma BodyByteWritten(h: Hash, s: Sender, m: seq<Byte>, b: Byte)
    requires s.authorized && b != CLOSE
    ensures WriteByte(h, Within(s, m), b) == (Within(s, m + [b]), [b])
  {
    hide HexChars, Tag;
  }

  lemma {:induction false} BodyWritten(h: Hash, s: Sender, m: seq<Byte>, body: seq<Byte>)
    requires s.authorized && CLOSE !in body
    ensures WriteAll(h, Within(s, m), body) == (Within(s, m + body), body)
    decreases |body|
  {
    hide WriteByte, Within;
    if body == [] {
      assert m + body == m;
    } else {
      assert body[0] in body && forall b :: b in body[1..] ==> b in body;
      BodyByteWritten(h, s, m, body[0]);
      BodyWritten(h, s, m + [body[0]], body[1..]);
      assert m + [body[0]] + body[1..] == m + body && [body[0]] + body[1..] == body;
    }
  }

  /** The number in four bytes, the most significant first. */
  function Number(bytes: seq<Byte>): nat
    requires |bytes| == 4
  {
    var a: int, b: int, c: int, d: int := bytes[0], bytes[1], bytes[2], bytes[3];
    ((a * 256 + b) * 256 + c) * 256 + d
  }

  lemma OneFourBytes(n: nat, bytes: seq<Byte>)
    requires |bytes| == 4 && Number(bytes) == n
    ensures Long(n) == bytes
  {
    var a: int, b: int, c: int := bytes[0], bytes[1], bytes[2];
    assert n / 0x100 == (a * 256 + b) * 256 + c && n % 256 == bytes[3];
    assert n / 0x10000 == a * 256 + b && n / 0x100 % 256 == c;
    assert n / 0x1000000 == a && n / 0x10000 % 256 == b;
  }

  /** The server after a message, and what it sends behind the closing brace. */
  function Digits(h: Hash, s: Sender, m: seq<Byte>): seq<Byte> {
    if s.noPassword then [] else HexChars(Tag(h, m, s.outMsgCount, s.challenge))
  }

  predicate IsAfter(s: Sender, r: Sender) {
    r == s.(hashed := r.hashed, outMsgCount := if s.noPassword then s.outMsgCount else (s.outMsgCount + 1) % COUNTS)
  }

  lemma CloseWritten(h: Hash, s: Sender, front: seq<Byte>)
    requires s.authorized && s.place.Waiting?
    ensures var w := WriteAll(h, Within(s, front), [CLOSE]); w.1 == [CLOSE] + Digits(h, s, front + [CLOSE]) && IsAfter(s, w.0)
  {
    hide HexChars, Tag, WriteAll;
    WriteOne(h, Within(s, front), CLOSE);
    assert [CLOSE] + [] == [CLOSE];
    assert WriteByte(h, Within(s, front), CLOSE) == WriteInMsg(h, Within(s, front), CLOSE);
    assert s.(place := Waiting) == s;
  }

  lemma OpenWritten(h: Hash, s: Sender, b: Byte)
    requires s.authorized && s.place.Waiting? && StartsMessage(b) && b != CLOSE
    ensures WriteAll(h, s, [OPEN, b]) == (Within(s, [OPEN, b]), [OPEN, b])
  {
    hide StartsMessage, WriteAll;
    WriteOne(h, s, OPEN);
    WriteOne(h, s.(place := Started), b);
    WriteAllAppend(h, s, [OPEN], [b]);
    assert [OPEN] + [b] == [OPEN, b] && [] + [OPEN, b] == [OPEN, b];
  }

  lemma EmptyWritten(h: Hash, s: Sender)
    requires s.authorized && s.place.Waiting?
    ensures var m := [OPEN, CLOSE]; var w := WriteAll(h, s, m); w.1 == m + Digits(h, s, m) && IsAfter(s, w.0)
  {
    hide HexChars, Tag, WriteAll;
    WriteOne(h, s, OPEN);
    WriteOne(h, s.(place := Started), CLOSE);
    WriteAllAppend(h, s, [OPEN], [CLOSE]);
    assert [OPEN] + [CLOSE] == [OPEN, CLOSE];
    assert [OPEN] + ([CLOSE] + Digits(h, s, [OPEN, CLOSE])) == [OPEN, CLOSE] + Digits(h, s, [OPEN, CLOSE]) && [CLOSE] + [] == [CLOSE];
  }

  lemma FrontWritten(h: Hash, s: Sender, b: Byte, inner: seq<Byte>)
    requires s.authorized && s.place.Waiting? && StartsMessage(b) && b != CLOSE && CLOSE !in inner
    ensures WriteAll(h, s, [OPEN, b] + inner) == (Within(s, [OPEN, b] + inner), [OPEN, b] + inner)
  {
    OpenWritten(h, s, b);
    BodyWritten(h, s, [OPEN, b], inner);
    hide WriteAll, StartsMessage, Within;
    WriteAllAppend(h, s, [OPEN, b], inner);
  }

  lemma WholeWritten(h: Hash, s: Sender, b: Byte, inner: seq<Byte>)
    requires s.authorized && s.place.Waiting? && StartsMessage(b) && b != CLOSE && CLOSE !in inner
    ensures var front := [OPEN, b] + inner;
            var w := WriteAll(h, s, front + [CLOSE]);
            w.1 == front + ([CLOSE] + Digits(h, s, front + [CLOSE])) && IsAfter(s, w.0)
  {
    hide WriteAll, Digits, StartsMessage, Within, IsAfter;
    var front := [OPEN, b] + inner;
    FrontWritten(h, s, b, inner);
    CloseWritten(h, s, front);
    WriteAllAppend(h, s, front, [CLOSE]);
  }

  lemma LongerWritten(h: Hash, s: Sender, m: seq<Byte>)
    requires s.authorized && s.place.Waiting? && IsMessage(m) && |m| > 2
    ensures var w := WriteAll(h, s, m); w.1 == m + Digits(h, s, m) && IsAfter(s, w.0)
  {
    hide WriteAll, Digits, StartsMessage, IsAfter;
    var front, inner := m[..|m| - 1], m[2..|m| - 1];
    assert front[1] == m[1] && front[2..] == inner && forall b :: b in inner ==> b in front;
    assert front == [OPEN, m[1]] + inner && m == front + [CLOSE];
    WholeWritten(h, s, m[1], inner);
    var digits := Digits(h, s, m);
    assert front + ([CLOSE] + digits) == (front + [CLOSE]) + digits;
  }

  /** On the link a message is followed by the digits of the first four bytes of the hash of the message, its count and the
      challenge, and by nothing if there is no password; the server is then between messages and counts on. */
  lemma {:induction false} MessageOnLink(h: Hash, s: Sender, m: seq<Byte>, count: seq<Byte>)
    requires s.authorized && s.place.Waiting? && IsMessage(m) && |count| == 4 && Number(count) == s.outMsgCount
    requires |h(m + count + s.challenge)| >= MSG_HASH_BYTE_SIZE
    ensures var w := WriteAll(h, s, m);
            w.1 == m + (if s.noPassword then [] else HexChars(h(m + count + s.challenge)[..MSG_HASH_BYTE_SIZE])) &&
            w.0 == s.(hashed := w.0.hashed, outMsgCount := if s.noPassword then s.outMsgCount else (s.outMsgCount + 1) % COUNTS)
  {
    var digest := h(m + count + s.challenge);
    OneFourBytes(s.outMsgCount, count);
    assert Tag(h, m, s.outMsgCount, s.challenge) == digest[..MSG_HASH_BYTE_SIZE];
    hide WriteAll, HexChars, Tag;
    if |m| == 2 {
      assert m == [OPEN, CLOSE];
      EmptyWritten(h, s);
    } else {
      LongerWritten(h, s, m);
    }
  }

  /** A server whose raw data goes another way sends what it would send for the messages alone. */
  lemma {:induction false} OthersKeptOff(h: Hash, s: Sender, w: seq<Byte>)
    requires !s.rawOnLink && s.place.Waiting?
    ensures WriteAll(h, s, w) == WriteAll(h, s, Flatten(Cut(w).messages) + Cut(w).open)
    decreases |w|
  {
    if w == [] || Cut(w) == Parts([], [], w) {
      assert [] + w == w;
    } else if w[0] == OPEN && StartsMessage(w[1]) {
      MessageKept(h, s, w);
      var n := FindClose(w) + 1;
      var after := WriteAll(h, s, w[..n]).0;
      assert w == w[..n] + w[n..];
      hide Cut, WriteAll, FindClose, StartsMessage;
      OthersKeptOff(h, after, w[n..]);
      WriteAllAppend(h, s, w[..n], w[n..]);
      WriteAllAppend(h, s, w[..n], Flatten(Cut(w[n..]).messages) + Cut(w[n..]).open);
    } else {
      CutOther(w);
      hide Cut, WriteAll, StartsMessage;
      OtherKeptOff(h, s, w);
      OthersKeptOff(h, s, w[1..]);
    }
  }

  lemma WriteFirst(h: Hash, s: Sender, w: seq<Byte>)
    requires w != []
    ensures var first := WriteByte(h, s, w[0]); var rest := WriteAll(h, first.0, w[1..]); WriteAll(h, s, w) == (rest.0, first.1 + rest.1)
  {
    hide WriteByte;
  }

  lemma OtherKeptOff(h: Hash, s: Sender, w: seq<Byte>)
    requires !s.rawOnLink && s.place.Waiting? && w != [] && (w[0] != OPEN || (|w| > 1 && !StartsMessage(w[1])))
    ensures WriteAll(h, s, w) == WriteAll(h, s, w[1..])
  {
    hide StartsMessage, WriteAll;
    WriteFirst(h, s, w);
    assert [] + WriteAll(h, WriteByte(h, s, w[0]).0, w[1..]).1 == WriteAll(h, WriteByte(h, s, w[0]).0, w[1..]).1;
    if w[0] == OPEN {
      WriteFirst(h, s.(place := Started), w[1..]);
      WriteFirst(h, s, w[1..]);
      assert RawOut(s, OPEN) + RawOut(s, w[1]) == [] && s.(place := Waiting) == s;
    }
  }

  lemma MessageKept(h: Hash, s: Sender, w: seq<Byte>)
    requires s.place.Waiting? && |w| > 1 && w[0] == OPEN && StartsMessage(w[1]) && FindClose(w) < |w|
    ensures FindClose(w) >= 1
    ensures var n := FindClose(w) + 1;
            WriteAll(h, s, w[..n]).0.place.Waiting? && WriteAll(h, s, w[..n]).0.rawOnLink == s.rawOnLink &&
            Flatten(Cut(w).messages) + Cut(w).open == w[..n] + (Flatten(Cut(w[n..]).messages) + Cut(w[n..]).open)
  {
    CutMessage(w);
    var n := FindClose(w) + 1;
    var m, rest := w[..n], Cut(w[n..]);
    hide Cut, WriteAll, StartsMessage;
    FlattenCons(m, rest.messages);
    assert m + Flatten(rest.messages) + rest.open == m + (Flatten(rest.messages) + rest.open);
    if s.authorized {
      IsMessageUpToClose(w);
      if |m| == 2 {
        assert m == [OPEN, CLOSE];
        EmptyWritten(h, s);
      } else {
        LongerWritten(h, s, m);
      }
    } else {
      SilentBeforeAuthorised(h, s, m);
    }
  }

  lemma IsMessageUpToClose(w: seq<Byte>)
    requires |w| > 1 && w[0] == OPEN && StartsMessage(w[1]) && FindClose(w) < |w|
    ensures var m := w[..FindClose(w) + 1]; IsMessage(m)
  {
    hide FindClose, StartsMessage;
    assert w[0] != CLOSE;
  }
}
