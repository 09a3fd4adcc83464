/** What the server writes, the client takes apart again into exactly the messages and the other bytes. */
module FramingProof {
  import opened Bytes
  import opened Buffers
  import opened Hex
  import opened Framing

  // ---- both sides byte by byte ----

  lemma {:induction false} ReadAllAppend(h: Hash, c: Receiver, a: seq<Byte>, b: seq<Byte>)
    ensures ReadAll(h, c, a + b) == ReadAll(h, ReadAll(h, c, a), b)
    decreases |a|
  {
    hide ReadByte;
    if a == [] {
      assert a + b == b;
    } else {
      assert (a + b)[1..] == a[1..] + b;
      ReadAllAppend(h, ReadByte(h, c, a[0]), a[1..], b);
    }
  }

  lemma {:induction false} WriteAllAppend(h: Hash, s: Sender, a: seq<Byte>, b: seq<Byte>)
    ensures var first := WriteAll(h, s, a);
            WriteAll(h, s, a + b) == (WriteAll(h, first.0, b).0, first.1 + WriteAll(h, first.0, b).1)
    decreases |a|
  {
    hide WriteByte;
    if a == [] {
      assert a + b == b;
      assert [] + WriteAll(h, s, b).1 == WriteAll(h, s, b).1;
    } else {
      assert (a + b)[1..] == a[1..] + b;
      var first := WriteByte(h, s, a[0]);
      WriteAllAppend(h, first.0, a[1..], b);
      var x, y := WriteAll(h, first.0, a[1..]), WriteAll(h, WriteAll(h, first.0, a[1..]).0, b);
      assert first.1 + (x.1 + y.1) == first.1 + x.1 + y.1;
    }
  }

  lemma {:induction false} PutAllFits(b: Buffer, bytes: seq<Byte>)
    requires |b.bytes| + |bytes| <= b.capacity
    ensures PutAll(b, bytes) == Buffer(b.bytes + bytes, b.capacity)
    decreases |bytes|
  {
    if bytes == [] {
      assert b.bytes + bytes == b.bytes;
    } else {
      PutAllFits(b.Put(bytes[0]), bytes[1..]);
      assert b.bytes + [bytes[0]] + bytes[1..] == b.bytes + bytes;
    }
  }

  // ---- the hash ----

  lemma {:induction false} CollectSome(h: Hash, c: Receiver, d: seq<Byte>)
    requires !c.closed && c.collecting && !c.noPassword && |c.digits| + |d| < MSG_HASH_SIZE && END_OF_FILE !in d
    ensures ReadAll(h, c, d) == c.(digits := c.digits + d)
    decreases |d|
  {
    if d == [] {
      assert c.digits + d == c.digits;
    } else {
      CollectSome(h, c.(digits := c.digits + [d[0]]), d[1..]);
      assert c.digits + [d[0]] + d[1..] == c.digits + d;
    }
  }

  /** The state after a message whose hash matched. */
  function Accepted(c: Receiver): Receiver {
    Accept(c.(digits := [], collecting := false)).(inMsgCount := NextCount(c.inMsgCount))
  }

  /** The digits the server sends are the ones the client expects. */
  lemma CollectTag(h: Hash, c: Receiver, tag: seq<Byte>)
    requires !c.closed && c.collecting && !c.noPassword && c.digits == [] && !c.closingOut
    requires |tag| == MSG_HASH_BYTE_SIZE && c.expected == tag
    ensures ReadAll(h, c, HexChars(tag)) == Accepted(c)
  {
    HexRoundTrip(tag);
    assert END_OF_FILE !in HexChars(tag) by {
      HexCharsAreDigits(tag);
    }
    hide HexChars, HexBytes, Accept, Accepted;
    var digits := HexChars(tag);
    var last := digits[MSG_HASH_SIZE - 1];
    assert digits == digits[..MSG_HASH_SIZE - 1] + [last];
    CollectSome(h, c, digits[..MSG_HASH_SIZE - 1]);
    ReadAllAppend(h, c, digits[..MSG_HASH_SIZE - 1], [last]);
    var almost := c.(digits := [] + digits[..MSG_HASH_SIZE - 1]);
    assert almost.digits + [last] == digits;
    assert [last][1..] == [];
    assert ReadAll(h, almost, [last]) == ReadByte(h, almost, last);
  }

  // ---- the two sides in step ----

  /** Authorised with equal key, challenge and counts, and one link for everything. */
  predicate Linked(s: Sender, c: Receiver) {
    s.authorized && s.rawOnLink && s.noPassword == c.noPassword && s.challenge == c.challenge &&
    s.outMsgCount == c.inMsgCount && !c.closed && !c.collecting && !c.closingOut
  }

  /** Between messages. The client may still hold an opening brace that the server has already found to be none. */
  predicate Idle(s: Sender, c: Receiver) {
    Linked(s, c) && s.place.Waiting? && (c.place.Waiting? || (c.place.Started? && c.temp.bytes == []))
  }

  /** Inside a message of which m has been sent. */
  predicate Inside(s: Sender, c: Receiver, m: seq<Byte>) {
    Linked(s, c) && s.place.InMsg? && c.place.InMsg? && c.temp.bytes == m && (!s.noPassword ==> s.hashed == m == c.hashed)
  }

  /** Nothing but the message in hand has changed. */
  predicate SameOtherwise(c: Receiver, r: Receiver) {
    r.rx == c.rx && r.raw == c.raw && r.temp.capacity == c.temp.capacity && r.inMsgCount == c.inMsgCount && r.noPassword == c.noPassword
  }

  lemma BodyByte(h: Hash, s: Sender, c: Receiver, m: seq<Byte>, b: Byte)
    requires Inside(s, c, m) && b != CLOSE && b != END_OF_FILE && |m| < c.temp.capacity
    ensures var w, r := WriteByte(h, s, b), ReadByte(h, c, b);
            w.1 == [b] && Inside(w.0, r, m + [b]) && SameOtherwise(c, r)
  {
  }

  lemma {:induction false} Body(h: Hash, s: Sender, c: Receiver, m: seq<Byte>, body: seq<Byte>)
    requires Inside(s, c, m) && CLOSE !in body && END_OF_FILE !in body && |m| + |body| <= c.temp.capacity
    ensures var w, r := WriteAll(h, s, body), ReadAll(h, c, body);
            w.1 == body && Inside(w.0, r, m + body) && SameOtherwise(c, r)
    decreases |body|
  {
    hide WriteByte, ReadByte, Inside;
    if body == [] {
      assert m + body == m;
    } else {
      var b := body[0];
      BodyByte(h, s, c, m, b);
      Body(h, WriteByte(h, s, b).0, ReadByte(h, c, b), m + [b], body[1..]);
      assert m + [b] + body[1..] == m + body;
      assert [b] + body[1..] == body;
    }
  }

  /** The closing brace and the hash: the message becomes readable and both count it. */
  lemma {:induction false} End(h: Hash, s: Sender, c: Receiver, m: seq<Byte>)
    requires Inside(s, c, m) && |m| < c.temp.capacity && |c.rx.bytes| + |m| < c.rx.capacity
    ensures var w := WriteByte(h, s, CLOSE);
            var r := ReadAll(h, c, w.1);
            Linked(w.0, r) && w.0.place.Waiting? && r.place.Waiting? && r.rx == Buffer(c.rx.bytes + (m + [CLOSE]), c.rx.capacity) &&
            r.raw == c.raw && r.temp.capacity == c.temp.capacity && r.noPassword == c.noPassword &&
            r.inMsgCount == (if s.noPassword then c.inMsgCount else NextCount(c.inMsgCount))
  {
    hide HexChars, HexBytes;
    var tag := Tag(h, m + [CLOSE], s.outMsgCount, s.challenge);
    var w := WriteByte(h, s, CLOSE);
    var c1 := ReadByte(h, c, CLOSE);
    PutAllFits(c.rx, m + [CLOSE]);
    if s.noPassword {
      assert w.1[1..] == [];
    } else {
      assert w.1[1..] == HexChars(tag);
      CollectTag(h, c1, tag);
    }
  }

  // ---- the start of a message ----

  /** An opening brace the client holds although it belongs to the other bytes. */
  function Held(c: Receiver): seq<Byte> {
    if c.place.Started? then [OPEN] else []
  }

  /** The two sides after the opening brace of a message. */
  function Opened(s: Sender): Sender {
    s.(place := InMsg, hashed := if s.noPassword then s.hashed else [OPEN])
  }

  function OpenedAt(c: Receiver, b: Byte): Receiver {
    c.(place := InMsg, closingIn := c.closingIn || b == CLOSE_COMMAND, hashed := if c.noPassword then c.hashed else [OPEN],
       temp := Buffer([OPEN], c.temp.capacity), raw := Buffer(c.raw.bytes + Held(c), c.raw.capacity))
  }

  lemma {:induction false} StartWrites(h: Hash, s: Sender, x: seq<Byte>)
    requires s.authorized && s.place.Waiting? && x != [] && StartsMessage(x[0])
    ensures var w := WriteAll(h, Opened(s), x);
            WriteAll(h, s, [OPEN] + x) == (w.0, [OPEN] + w.1)
  {
    hide StartsMessage;
    assert ([OPEN] + x)[1..] == x;
    var held := WriteByte(h, s, OPEN).0;
    var inside := Opened(s);
    assert WriteByte(h, held, x[0]) == (WriteByte(h, inside, x[0]).0, [OPEN] + WriteByte(h, inside, x[0]).1);
    var rest := WriteAll(h, WriteByte(h, inside, x[0]).0, x[1..]);
    var out := WriteByte(h, inside, x[0]).1;
    assert [] + ([OPEN] + out + rest.1) == [OPEN] + (out + rest.1);
  }

  lemma OpenRead(h: Hash, s: Sender, c: Receiver)
    requires Idle(s, c) && |c.raw.bytes| + |Held(c)| <= c.raw.capacity
    ensures ReadByte(h, c, OPEN)
         == c.(place := Started, temp := Buffer([], c.temp.capacity), raw := Buffer(c.raw.bytes + Held(c), c.raw.capacity))
  {
    assert c.raw.bytes + [] == c.raw.bytes;
  }

  lemma StartRead(h: Hash, c: Receiver, b: Byte)
    requires !c.closed && !c.collecting && c.place.Started? && c.temp.bytes == [] && c.temp.capacity > 0 && StartsMessage(b)
    ensures ReadByte(h, c, b) == ReadByte(h, OpenedAt(c, b).(raw := c.raw), b)
  {
    assert b != END_OF_FILE;
    assert [] + [OPEN] == [OPEN];
    hide StartsMessage;
  }

  lemma {:induction false} StartReads(h: Hash, s: Sender, c: Receiver, y: seq<Byte>)
    requires Idle(s, c) && y != [] && StartsMessage(y[0]) && c.temp.capacity > 0 && |c.raw.bytes| + |Held(c)| <= c.raw.capacity
    ensures ReadAll(h, c, [OPEN] + y) == ReadAll(h, OpenedAt(c, y[0]), y)
  {
    hide ReadByte, StartsMessage;
    assert ([OPEN] + y)[1..] == y;
    OpenRead(h, s, c);
    StartRead(h, ReadByte(h, c, OPEN), y[0]);
  }

  lemma OpenedInside(s: Sender, c: Receiver, b: Byte)
    requires Idle(s, c) && c.temp.capacity > 0
    ensures Inside(Opened(s), OpenedAt(c, b), [OPEN])
  {
  }

  // ---- any string of bytes ----

  /** Room for all of the bytes in every buffer. */
  predicate Fits(c: Receiver, n: nat) {
    n <= c.temp.capacity && |c.rx.bytes| + n <= c.rx.capacity && |c.raw.bytes| + |Held(c)| + n <= c.raw.capacity
  }

  /** What the two sides are to be like after a string of bytes. */
  predicate Separated(c: Receiver, w: seq<Byte>, s: Sender, r: Receiver) {
    var p := Cut(w);
    Linked(s, r) && r.rx.bytes == c.rx.bytes + Flatten(p.messages) &&
    r.raw.bytes + Held(r) == c.raw.bytes + Held(c) + p.others &&
    r.inMsgCount == (if c.noPassword then c.inMsgCount else (c.inMsgCount + |p.messages|) % COUNTS) &&
    if p.open == [] then s.place.Waiting? && r.place.Waiting?
    else if p.open == [OPEN] then s.place.Started? && !r.place.InMsg?
    else Inside(s, r, p.open)
  }

  // A byte that belongs to the others.

  lemma OtherStep(h: Hash, s: Sender, c: Receiver, b: Byte, n: nat)
    requires Idle(s, c) && c.place.Waiting? && b != OPEN && b != END_OF_FILE && Fits(c, n + 1)
    ensures WriteByte(h, s, b) == (s, [b])
    ensures var c1 := ReadByte(h, c, b);
            Idle(s, c1) && c1.place.Waiting? && Fits(c1, n) && c1.rx == c.rx && c1.raw.bytes == c.raw.bytes + [b] &&
            c1.inMsgCount == c.inMsgCount && c1.noPassword == c.noPassword
  {
  }

  /** An opening brace is given up as soon as the next byte starts no message. */
  lemma GivenUpStep(h: Hash, s: Sender, c: Receiver, b: Byte, n: nat)
    requires Idle(s, c) && !StartsMessage(b) && b != END_OF_FILE && Fits(c, n + 2)
    ensures b == OPEN ==> WriteByte(h, s.(place := Started), b) == (s.(place := Started), [OPEN])
    ensures b != OPEN ==> WriteByte(h, s.(place := Started), b) == (s, [OPEN, b])
    ensures var c1 := ReadByte(h, c, OPEN);
            Idle(s, c1) && c1.place.Started? && Fits(c1, n + 1) && c1.rx == c.rx &&
            c1.raw.bytes + Held(c1) == c.raw.bytes + Held(c) + [OPEN] && c1.inMsgCount == c.inMsgCount && c1.noPassword == c.noPassword
    ensures var c2 := ReadByte(h, ReadByte(h, c, OPEN), b);
            b != OPEN ==>
              Idle(s, c2) && c2.place.Waiting? && Fits(c2, n) && c2.rx == c.rx && c2.raw.bytes == c.raw.bytes + Held(c) + [OPEN] + [b] &&
              c2.inMsgCount == c.inMsgCount && c2.noPassword == c.noPassword
  {
    hide StartsMessage;
    OpenRead(h, s, c);
    assert c.raw.bytes + [] == c.raw.bytes;
    assert [OPEN] + [b] == [OPEN, b];
  }

  /** What is separated after the bytes already sorted out is separated from the start. */
  lemma {:induction false} OthersFirst(c: Receiver, c1: Receiver, w: seq<Byte>, first: seq<Byte>, rest: seq<Byte>, s: Sender, r: Receiver)
    requires Separated(c1, rest, s, r)
    requires Cut(w) == Cut(rest).(others := first + Cut(rest).others)
    requires c1.rx == c.rx && c1.raw.bytes + Held(c1) == c.raw.bytes + Held(c) + first
    requires c1.inMsgCount == c.inMsgCount && c1.noPassword == c.noPassword
    ensures Separated(c, w, s, r)
  {
    hide Cut, Flatten, Linked, Inside, Held;
    assert c.raw.bytes + Held(c) + first + Cut(rest).others == c.raw.bytes + Held(c) + (first + Cut(rest).others);
  }

  /** A whole message goes first. */
  lemma MessageFirst(c: Receiver, c1: Receiver, w: seq<Byte>, m: seq<Byte>, rest: seq<Byte>, s: Sender, r: Receiver)
    requires Separated(c1, rest, s, r)
    requires Cut(w) == Cut(rest).(messages := [m] + Cut(rest).messages)
    requires c1.rx.bytes == c.rx.bytes + m && c1.raw.bytes + Held(c1) == c.raw.bytes + Held(c) && c1.noPassword == c.noPassword
    requires c1.inMsgCount == (if c.noPassword then c.inMsgCount else NextCount(c.inMsgCount))
    ensures Separated(c, w, s, r)
  {
    hide Cut, Linked, Inside, Held, Flatten, NextCount;
    var more := Cut(rest).messages;
    FlattenCons(m, more);
    assert c.rx.bytes + m + Flatten(more) == c.rx.bytes + (m + Flatten(more));
    CountTwice(c.inMsgCount, |more|);
  }

  lemma FlattenCons(m: seq<Byte>, more: seq<seq<Byte>>)
    ensures Flatten([m] + more) == m + Flatten(more)
  {
    assert ([m] + more)[1..] == more;
  }

  lemma CountTwice(n: nat, k: nat)
    ensures (NextCount(n) + k) % COUNTS == (n + (1 + k)) % COUNTS
  {
  }

  lemma CutOther(w: seq<Byte>)
    requires w != [] && (w[0] != OPEN || (|w| > 1 && !StartsMessage(w[1])))
    ensures Cut(w) == Cut(w[1..]).(others := [w[0]] + Cut(w[1..]).others)
  {
  }

  /** The rest of a message, with its closing brace. */
  lemma {:induction false} BodyAndEnd(h: Hash, s: Sender, c: Receiver, m: seq<Byte>, body: seq<Byte>)
    requires Inside(s, c, m) && CLOSE !in body && END_OF_FILE !in body
    requires |m| + |body| < c.temp.capacity && |c.rx.bytes| + |m| + |body| < c.rx.capacity
    ensures var w := WriteAll(h, s, body + [CLOSE]);
            var r := ReadAll(h, c, w.1);
            w.1 != [] && w.1[0] == (body + [CLOSE])[0] &&
            Linked(w.0, r) && w.0.place.Waiting? && r.place.Waiting? && r.rx == Buffer(c.rx.bytes + (m + body + [CLOSE]), c.rx.capacity) &&
            r.raw == c.raw && r.temp.capacity == c.temp.capacity && r.noPassword == c.noPassword &&
            r.inMsgCount == (if s.noPassword then c.inMsgCount else NextCount(c.inMsgCount))
  {
    assert s.authorized && s.place.InMsg?;
    hide WriteByte, ReadByte, WriteAll, ReadAll, Linked, Inside;
    Body(h, s, c, m, body);
    var s2, c2 := WriteAll(h, s, body).0, ReadAll(h, c, body);
    End(h, s2, c2, m + body);
    var e := WriteByte(h, s2, CLOSE);
    WriteOne(h, s2, CLOSE);
    WriteAllAppend(h, s, body, [CLOSE]);
    ReadAllAppend(h, c, body, e.1);
    EndStartsWithClose(h, s2);
  }

  /** Up to the closing brace of a message. */
  lemma {:induction false} MessageStep(h: Hash, s: Sender, c: Receiver, m: seq<Byte>)
    requires Idle(s, c) && |m| >= 2
    requires m[0] == OPEN && StartsMessage(m[1]) && FindClose(m) == |m| - 1 && END_OF_FILE !in m && Fits(c, |m|)
    ensures var w := WriteAll(h, s, m);
            var r := ReadAll(h, c, w.1);
            Idle(w.0, r) && r.place.Waiting? && r.rx == Buffer(c.rx.bytes + m, c.rx.capacity) &&
            r.raw.bytes == c.raw.bytes + Held(c) && r.raw.capacity == c.raw.capacity && r.temp.capacity == c.temp.capacity &&
            r.noPassword == c.noPassword && r.inMsgCount == (if s.noPassword then c.inMsgCount else NextCount(c.inMsgCount))
  {
    var body, x := m[1..|m| - 1], m[1..];
    assert s.authorized && x[0] == m[1];
    hide WriteByte, ReadByte, WriteAll, ReadAll, StartsMessage, Linked, Inside, FindClose;
    assert m == [OPEN] + x && x == body + [CLOSE];
    assert [OPEN] + body + [CLOSE] == m;
    OpenedInside(s, c, x[0]);
    BodyAndEnd(h, Opened(s), OpenedAt(c, x[0]), [OPEN], body);
    StartWrites(h, s, x);
    StartReads(h, s, c, WriteAll(h, Opened(s), x).1);
  }

  lemma WriteOne(h: Hash, s: Sender, b: Byte)
    ensures WriteAll(h, s, [b]) == WriteByte(h, s, b)
  {
    hide WriteByte;
    assert [b][1..] == [];
    assert WriteByte(h, s, b).1 + [] == WriteByte(h, s, b).1;
  }

  lemma EndStartsWithClose(h: Hash, s: Sender)
    requires s.authorized && s.place.InMsg?
    ensures WriteByte(h, s, CLOSE).1 != [] && WriteByte(h, s, CLOSE).1[0] == CLOSE
  {
  }

  lemma {:induction false} FindCloseInMessage(w: seq<Byte>)
    requires FindClose(w) < |w|
    ensures FindClose(w[..FindClose(w) + 1]) == FindClose(w)
  {
    var n := FindClose(w);
    var m := w[..n + 1];
    hide FindClose;
    assert m[n] == w[n] == CLOSE;
    assert forall i :: 0 <= i < n ==> m[i] == w[i];
  }

  lemma CutMessage(w: seq<Byte>)
    requires |w| > 1 && w[0] == OPEN && StartsMessage(w[1]) && FindClose(w) < |w|
    ensures FindClose(w) >= 1
    ensures var n := FindClose(w) + 1; var rest := Cut(w[n..]); Cut(w) == Parts([w[..n]] + rest.messages, rest.others, rest.open)
  {
    hide FindClose, StartsMessage;
    assert w[0] != CLOSE;
  }

  lemma OpenIsSeparated(c: Receiver, w: seq<Byte>, s: Sender, r: Receiver)
    requires Inside(s, r, w) && Cut(w) == Parts([], [], w) && |w| > 1
    requires r.rx == c.rx && r.raw.bytes == c.raw.bytes + Held(c) && r.inMsgCount == c.inMsgCount < COUNTS
    ensures Separated(c, w, s, r)
  {
    hide Cut;
    assert c.raw.bytes + Held(c) + [] == c.raw.bytes + Held(c);
    assert r.raw.bytes + [] == r.raw.bytes;
    assert c.rx.bytes + [] == c.rx.bytes;
  }

  /** A message without its closing brace. */
  lemma {:induction false} OpenStep(h: Hash, s: Sender, c: Receiver, w: seq<Byte>)
    requires Idle(s, c) && |w| > 1 && w[0] == OPEN && StartsMessage(w[1]) && FindClose(w) == |w|
    requires END_OF_FILE !in w && Fits(c, |w|) && c.inMsgCount < COUNTS
    ensures var sent := WriteAll(h, s, w); Separated(c, w, sent.0, ReadAll(h, c, sent.1))
  {
    var x := w[1..];
    assert s.authorized && w == [OPEN] + x && x[0] == w[1] && Cut(w) == Parts([], [], w);
    hide WriteByte, ReadByte, WriteAll, ReadAll, StartsMessage, Cut, Separated, Inside, Linked;
    assert CLOSE !in x by {
      forall i | 0 <= i < |x| ensures x[i] != CLOSE {
        assert x[i] == w[i + 1];
      }
    }
    OpenedInside(s, c, x[0]);
    Body(h, Opened(s), OpenedAt(c, x[0]), [OPEN], x);
    StartWrites(h, s, x);
    StartReads(h, s, c, x);
    OpenIsSeparated(c, w, WriteAll(h, s, w).0, ReadAll(h, c, w));
  }

  /** The opening brace at the very end is held back. */
  lemma HeldStep(h: Hash, s: Sender, c: Receiver)
    requires Idle(s, c) && c.inMsgCount < COUNTS
    ensures var sent := WriteAll(h, s, [OPEN]); Separated(c, [OPEN], sent.0, ReadAll(h, c, sent.1))
  {
    WriteOne(h, s, OPEN);
    assert c.rx.bytes + [] == c.rx.bytes;
    assert c.raw.bytes + Held(c) + [] == c.raw.bytes + Held(c);
  }

  lemma NothingStep(h: Hash, s: Sender, c: Receiver)
    requires Idle(s, c) && c.place.Waiting? && c.inMsgCount < COUNTS
    ensures var sent := WriteAll(h, s, []); Separated(c, [], sent.0, ReadAll(h, c, sent.1))
  {
    assert c.rx.bytes + [] == c.rx.bytes;
    assert c.raw.bytes + Held(c) + [] == c.raw.bytes + Held(c);
  }

  /** Two bytes given up at once: an opening brace and one that starts no message. */
  lemma GivenUpWrites(h: Hash, s: Sender, b: Byte, rest: seq<Byte>)
    requires s.authorized && s.rawOnLink && s.place.Waiting? && !StartsMessage(b)
    ensures var w := WriteAll(h, s, if b == OPEN then [b] + rest else rest);
            WriteAll(h, s, [OPEN, b] + rest) == (w.0, (if b == OPEN then [OPEN] else [OPEN, b]) + w.1)
  {
    var all := [OPEN, b] + rest;
    var started := s.(place := Started);
    assert all[1..] == [b] + rest && all[1..][1..] == rest && ([b] + rest)[1..] == rest;
    assert WriteAll(h, s, all) == (WriteAll(h, started, [b] + rest).0, [] + WriteAll(h, started, [b] + rest).1);
    if b == OPEN {
      var x := WriteAll(h, started, rest);
      assert WriteAll(h, s, [b] + rest) == (x.0, [] + x.1);
      assert [] + ([OPEN] + x.1) == [OPEN] + ([] + x.1);
    } else {
      var x := WriteAll(h, s, rest);
      assert [] + ([OPEN] + [b] + x.1) == [OPEN, b] + x.1;
    }
  }

  lemma ReadOne(h: Hash, c: Receiver, b: Byte, rest: seq<Byte>)
    ensures ReadAll(h, c, [b] + rest) == ReadAll(h, ReadByte(h, c, b), rest)
  {
    hide ReadByte;
    assert ([b] + rest)[1..] == rest;
  }

  /** Whatever the server writes, the client separates it into the messages and the other bytes. */
  lemma {:induction false} Separates(h: Hash, s: Sender, c: Receiver, w: seq<Byte>)
    requires Idle(s, c) && (c.place.Started? ==> w != [] && w[0] == OPEN) && END_OF_FILE !in w && Fits(c, |w|)
    requires c.inMsgCount < COUNTS
    ensures var sent := WriteAll(h, s, w); Separated(c, w, sent.0, ReadAll(h, c, sent.1))
    decreases |w|
  {
    hide WriteByte, ReadByte, WriteAll, ReadAll, StartsMessage, Cut, Separated, Linked;
    if w == [] {
      NothingStep(h, s, c);
    } else if w[0] != OPEN {
      SeparatesOther(h, s, c, w);
    } else if |w| == 1 {
      assert w == [OPEN];
      HeldStep(h, s, c);
    } else if w[1] == OPEN {
      SeparatesBraces(h, s, c, w);
    } else if !StartsMessage(w[1]) {
      SeparatesGivenUp(h, s, c, w);
    } else if FindClose(w) == |w| {
      OpenStep(h, s, c, w);
    } else {
      SeparatesMessage(h, s, c, w);
    }
  }

  lemma {:induction false} SeparatesOther(h: Hash, s: Sender, c: Receiver, w: seq<Byte>)
    requires Idle(s, c) && c.place.Waiting? && w != [] && w[0] != OPEN && END_OF_FILE !in w && Fits(c, |w|) && c.inMsgCount < COUNTS
    ensures var sent := WriteAll(h, s, w); Separated(c, w, sent.0, ReadAll(h, c, sent.1))
    decreases |w|, 0
  {
    var b, rest := w[0], w[1..];
    OtherStep(h, s, c, b, |rest|);
    CutOther(w);
    assert WriteAll(h, s, w) == (WriteAll(h, s, rest).0, [b] + WriteAll(h, s, rest).1);
    hide WriteByte, ReadByte, WriteAll, ReadAll, StartsMessage, Cut, Separated, Linked;
    var c1 := ReadByte(h, c, b);
    Separates(h, s, c1, rest);
    var sent := WriteAll(h, s, rest);
    ReadOne(h, c, b, sent.1);
    assert c.raw.bytes + [] == c.raw.bytes;
    OthersFirst(c, c1, w, [b], rest, sent.0, ReadAll(h, c1, sent.1));
  }

  /** Two opening braces: the first is given up, the second may still start a message. */
  lemma {:induction false} SeparatesBraces(h: Hash, s: Sender, c: Receiver, w: seq<Byte>)
    requires Idle(s, c) && |w| > 1 && w[0] == OPEN == w[1] && END_OF_FILE !in w && Fits(c, |w|) && c.inMsgCount < COUNTS
    ensures var sent := WriteAll(h, s, w); Separated(c, w, sent.0, ReadAll(h, c, sent.1))
    decreases |w|, 0
  {
    var rest := w[2..];
    assert w == [OPEN, OPEN] + rest && w[1..] == [OPEN] + rest && s.authorized && s.rawOnLink && !StartsMessage(OPEN);
    hide WriteByte, ReadByte, WriteAll, ReadAll, StartsMessage, Cut, Separated, Linked;
    GivenUpStep(h, s, c, OPEN, |rest|);
    GivenUpWrites(h, s, OPEN, rest);
    CutOther(w);
    var c1 := ReadByte(h, c, OPEN);
    Separates(h, s, c1, w[1..]);
    var sent := WriteAll(h, s, w[1..]);
    ReadOne(h, c, OPEN, sent.1);
    OthersFirst(c, c1, w, [OPEN], w[1..], sent.0, ReadAll(h, c1, sent.1));
  }

  lemma CutTwo(w: seq<Byte>)
    requires |w| > 1 && w[0] == OPEN != w[1] && !StartsMessage(w[1])
    ensures Cut(w) == Cut(w[2..]).(others := [OPEN, w[1]] + Cut(w[2..]).others)
  {
    hide Cut, StartsMessage;
    CutOther(w);
    CutOther(w[1..]);
    assert w[1..][1..] == w[2..];
    assert [OPEN] + ([w[1]] + Cut(w[2..]).others) == [OPEN, w[1]] + Cut(w[2..]).others;
  }

  lemma ReadTwo(h: Hash, c: Receiver, a: Byte, b: Byte, rest: seq<Byte>)
    ensures ReadAll(h, c, [a, b] + rest) == ReadAll(h, ReadByte(h, ReadByte(h, c, a), b), rest)
  {
    hide ReadByte, ReadAll;
    ReadOne(h, c, a, [b] + rest);
    ReadOne(h, ReadByte(h, c, a), b, rest);
    assert [a, b] + rest == [a] + ([b] + rest);
  }

  /** The client after an opening brace that is given up and the byte that shows it. */
  function GivenUp(h: Hash, c: Receiver, b: Byte): Receiver {
    ReadByte(h, ReadByte(h, c, OPEN), b)
  }

  lemma GivenUpFirst(h: Hash, s: Sender, c: Receiver, b: Byte, rest: seq<Byte>)
    requires Idle(s, c) && !StartsMessage(b) && b != OPEN && b != END_OF_FILE && Fits(c, |rest| + 2)
    requires var sent := WriteAll(h, s, rest); Separated(GivenUp(h, c, b), rest, sent.0, ReadAll(h, GivenUp(h, c, b), sent.1))
    ensures var sent := WriteAll(h, s, [OPEN, b] + rest); Separated(c, [OPEN, b] + rest, sent.0, ReadAll(h, c, sent.1))
  {
    var w := [OPEN, b] + rest;
    assert w[2..] == rest && s.authorized && s.rawOnLink && s.place.Waiting?;
    hide WriteByte, ReadByte, WriteAll, ReadAll, StartsMessage, Cut, Separated, Linked, Idle, Fits;
    var sent := WriteAll(h, s, rest);
    assert WriteAll(h, s, w) == (sent.0, [OPEN, b] + sent.1) by {
      GivenUpWrites(h, s, b, rest);
    }
    assert ReadAll(h, c, [OPEN, b] + sent.1) == ReadAll(h, GivenUp(h, c, b), sent.1) by {
      ReadTwo(h, c, OPEN, b, sent.1);
    }
    GivenUpStep(h, s, c, b, |rest|);
    CutTwo(w);
    assert c.raw.bytes + Held(c) + [OPEN] + [b] + [] == c.raw.bytes + Held(c) + [OPEN, b];
    OthersFirst(c, GivenUp(h, c, b), w, [OPEN, b], rest, sent.0, ReadAll(h, GivenUp(h, c, b), sent.1));
  }

  lemma {:induction false} SeparatesGivenUp(h: Hash, s: Sender, c: Receiver, w: seq<Byte>)
    requires Idle(s, c) && |w| > 1 && w[0] == OPEN != w[1] && !StartsMessage(w[1]) && END_OF_FILE !in w
    requires Fits(c, |w|) && c.inMsgCount < COUNTS
    ensures var sent := WriteAll(h, s, w); Separated(c, w, sent.0, ReadAll(h, c, sent.1))
    decreases |w|, 0
  {
    var b, rest := w[1], w[2..];
    assert w == [OPEN, b] + rest && END_OF_FILE !in rest && b != END_OF_FILE;
    hide WriteByte, ReadByte, WriteAll, ReadAll, StartsMessage, Separated, Idle, Fits;
    GivenUpStep(h, s, c, b, |rest|);
    Separates(h, s, GivenUp(h, c, b), rest);
    GivenUpFirst(h, s, c, b, rest);
  }

  lemma {:induction false} SeparatesMessage(h: Hash, s: Sender, c: Receiver, w: seq<Byte>)
    requires Idle(s, c) && |w| > 1 && w[0] == OPEN && StartsMessage(w[1]) && FindClose(w) < |w|
    requires END_OF_FILE !in w && Fits(c, |w|) && c.inMsgCount < COUNTS
    ensures var sent := WriteAll(h, s, w); Separated(c, w, sent.0, ReadAll(h, c, sent.1))
    decreases |w|, 0
  {
    hide WriteByte, ReadByte, WriteAll, ReadAll, StartsMessage, Cut, Separated, FindClose;
    CutMessage(w);
    FindCloseInMessage(w);
    var n := FindClose(w) + 1;
    var m, rest := w[..n], w[n..];
    assert m + rest == w && m[0] == w[0] && m[1] == w[1];
    MessageStep(h, s, c, m);
    WriteAllAppend(h, s, m, rest);
    var first := WriteAll(h, s, m);
    var c1 := ReadAll(h, c, first.1);
    assert c1.raw.bytes + [] == c.raw.bytes + Held(c);
    Separates(h, first.0, c1, rest);
    var sent := WriteAll(h, first.0, rest);
    ReadAllAppend(h, c, first.1, sent.1);
    MessageFirst(c, c1, w, m, rest, sent.0, ReadAll(h, c1, sent.1));
  }

  /** The client has exactly the messages of these bytes in its buffer and exactly the other bytes in its raw data buffer,
      in order, with counts equal to the server's; only opening braces that may yet start a message are still held. */
  predicate TakenApart(c: Receiver, w: seq<Byte>, s: Sender, r: Receiver) {
    var p := Cut(w);
    r.rx.bytes == c.rx.bytes + Flatten(p.messages) && r.raw.bytes + Held(r) == c.raw.bytes + p.others &&
    s.outMsgCount == r.inMsgCount && !r.closed &&
    (!c.noPassword ==> r.inMsgCount == (c.inMsgCount + |p.messages|) % COUNTS) &&
    (p.open == [] ==> s.place.Waiting? && r.place.Waiting?) &&
    (|p.open| > 1 ==> r.temp.bytes == p.open)
  }

  /** The round trip: from idle sides in step, any bytes written through the server, without 0xff and with room for them,
      are taken apart by the client. */
  lemma {:induction false} FramingRoundTrip(h: Hash, s: Sender, c: Receiver, w: seq<Byte>)
    requires Linked(s, c) && s.place.Waiting? && c.place.Waiting? && c.inMsgCount < COUNTS
    requires END_OF_FILE !in w && Fits(c, |w|)
    ensures var sent := WriteAll(h, s, w); TakenApart(c, w, sent.0, ReadAll(h, c, sent.1))
  {
    hide WriteAll, ReadAll, Cut, Flatten;
    Separates(h, s, c, w);
    assert c.raw.bytes + [] == c.raw.bytes;
  }

  /** A message and nothing else. */
  predicate IsMessage(m: seq<Byte>) {
    |m| >= 2 && m[0] == OPEN && StartsMessage(m[1]) && m[|m| - 1] == CLOSE && CLOSE !in m[..|m| - 1]
  }

  /** The parts are messages, and no byte of the string is lost or made up. */
  lemma {:induction false} CutLosesNothing(w: seq<Byte>)
    ensures var p := Cut(w); |Flatten(p.messages)| + |p.others| + |p.open| == |w|
    ensures forall m :: m in Cut(w).messages ==> IsMessage(m)
    decreases |w|
  {
    hide StartsMessage;
    if w != [] {
      if w[0] == OPEN && |w| > 1 && StartsMessage(w[1]) && FindClose(w) < |w| {
        var n := FindClose(w) + 1;
        CutLosesNothing(w[n..]);
        var more := Cut(w[n..]).messages;
        assert ([w[..n]] + more)[1..] == more;
        assert IsMessage(w[..n]) by {
          assert w[..n][..n - 1] == w[..n - 1];
          assert CLOSE !in w[..n - 1];
        }
      } else if !(w[0] == OPEN && (|w| == 1 || StartsMessage(w[1]))) {
        CutLosesNothing(w[1..]);
      }
    }
  }

  // ---- written in pieces ----

  /** A piece of what the server writes: a whole message, or another byte. */
  datatype Piece = Message(m: seq<Byte>) | Other(b: Byte) {
    predicate Valid() {
      if Message? then IsMessage(m) else b != OPEN
    }

    function Bytes(): seq<Byte> {
      if Message? then m else [b]
    }
  }

  function Written(pieces: seq<Piece>): seq<Byte> {
    if pieces == [] then [] else pieces[0].Bytes() + Written(pieces[1..])
  }

  function Messages(pieces: seq<Piece>): seq<seq<Byte>> {
    if pieces == [] then [] else (if pieces[0].Message? then [pieces[0].m] else []) + Messages(pieces[1..])
  }

  function Others(pieces: seq<Piece>): seq<Byte> {
    if pieces == [] then [] else (if pieces[0].Other? then [pieces[0].b] else []) + Others(pieces[1..])
  }

  lemma CutMessageFirst(m: seq<Byte>, rest: seq<Byte>)
    requires IsMessage(m)
    ensures Cut(m + rest) == Cut(rest).(messages := [m] + Cut(rest).messages)
  {
    var w, last := m + rest, |m| - 1;
    assert w[last] == CLOSE && forall i :: 0 <= i < last ==> w[i] == m[..last][i];
    assert FindClose(w) == last;
    assert w[..|m|] == m && w[|m|..] == rest;
  }

  /** However messages and other bytes are interleaved, the string they make has these parts. */
  lemma {:induction false} CutOfPieces(pieces: seq<Piece>)
    requires forall p :: p in pieces ==> p.Valid()
    ensures Cut(Written(pieces)) == Parts(Messages(pieces), Others(pieces), [])
    decreases |pieces|
  {
    hide IsMessage;
    if pieces != [] {
      var first, rest := pieces[0], Written(pieces[1..]);
      assert first in pieces;
      CutOfPieces(pieces[1..]);
      if first.Message? {
        CutMessageFirst(first.m, rest);
        assert [] + Others(pieces[1..]) == Others(pieces[1..]);
      } else {
        assert ([first.b] + rest)[1..] == rest;
        assert [] + Messages(pieces[1..]) == Messages(pieces[1..]);
      }
    }
  }

  /** However the server interleaves messages with other bytes, the client separates them again: each message and each
      other byte arrives once and in order, nothing is held back, and the counts have moved by the number of messages. */
  lemma {:induction false} PiecesArrive(h: Hash, s: Sender, c: Receiver, pieces: seq<Piece>)
    requires Linked(s, c) && s.place.Waiting? && c.place.Waiting? && c.inMsgCount < COUNTS
    requires forall p :: p in pieces ==> p.Valid()
    requires END_OF_FILE !in Written(pieces) && Fits(c, |Written(pieces)|)
    ensures var sent := WriteAll(h, s, Written(pieces));
            var r := ReadAll(h, c, sent.1);
            r.rx.bytes == c.rx.bytes + Flatten(Messages(pieces)) && r.raw.bytes == c.raw.bytes + Others(pieces) &&
            sent.0.outMsgCount == r.inMsgCount && sent.0.place.Waiting? && r.place.Waiting? &&
            (!c.noPassword ==> r.inMsgCount == (c.inMsgCount + |Messages(pieces)|) % COUNTS)
  {
    hide WriteAll, ReadAll, Cut, Flatten, Fits, Written, Messages, Others, IsMessage;
    CutOfPieces(pieces);
    FramingRoundTrip(h, s, c, Written(pieces));
    var r := ReadAll(h, c, WriteAll(h, s, Written(pieces)).1);
    assert r.raw.bytes + [] == r.raw.bytes;
  }
}
