/** SipHash-2-4 on 64-bit words, as section 2 of Aumasson and Bernstein,
    "SipHash: a fast short-input PRF", defines it. */
module SipHashSpec {
  import opened BlockStreams

  datatype State = State(v0: bv64, v1: bv64, v2: bv64, v3: bv64)

  function Add(x: bv64, y: bv64): bv64 {
    x + y
  }

  function Xor(x: bv64, y: bv64): bv64 {
    x ^ y
  }

  // Rotations to the left by the number of bits in the name.

  function Rotated1(x: bv64): bv64 {
    (x << 1) | (x >> 63)
  }

  function Rotated5(x: bv64): bv64 {
    (x << 5) | (x >> 59)
  }

  function Rotated13(x: bv64): bv64 {
    (x << 13) | (x >> 51)
  }

  function Rotated16(x: bv64): bv64 {
    (x << 16) | (x >> 48)
  }

  function Rotated17(x: bv64): bv64 {
    (x << 17) | (x >> 47)
  }

  function Rotated21(x: bv64): bv64 {
    (x << 21) | (x >> 43)
  }

  function Rotated32(x: bv64): bv64 {
    (x << 32) | (x >> 32)
  }

  function Rotated61(x: bv64): bv64 {
    (x << 61) | (x >> 3)
  }

  function SipRound(s: State): State {
    var a0, a2 := Add(s.v0, s.v1), Add(s.v2, s.v3);
    var a1, a3 := Xor(Rotated13(s.v1), a0), Xor(Rotated16(s.v3), a2);
    var b2, b0 := Add(a2, a1), Add(Rotated32(a0), a3);
    var b1, b3 := Xor(Rotated17(a1), b2), Xor(Rotated21(a3), b0);
    State(b0, b1, Rotated32(b2), b3)
  }

  /** Eight bytes as one word, the most significant first. */
  function Pack(b0: bv8, b1: bv8, b2: bv8, b3: bv8, b4: bv8, b5: bv8, b6: bv8, b7: bv8): bv64 {
    ((b0 as bv64) << 56) | ((b1 as bv64) << 48) | ((b2 as bv64) << 40) | ((b3 as bv64) << 32) |
    ((b4 as bv64) << 24) | ((b5 as bv64) << 16) | ((b6 as bv64) << 8) | (b7 as bv64)
  }

  function BigEndian(b: seq<bv8>): bv64
    requires |b| == 8
  {
    Pack(b[0], b[1], b[2], b[3], b[4], b[5], b[6], b[7])
  }

  function LittleEndian(b: seq<bv8>): bv64
    requires |b| == 8
  {
    Pack(b[7], b[6], b[5], b[4], b[3], b[2], b[1], b[0])
  }

  function Initial(key: seq<bv8>): State
    requires |key| == 16
  {
    var k0, k1 := LittleEndian(key[..8]), LittleEndian(key[8..]);
    State(Xor(0x736f6d6570736575, k0), Xor(0x646f72616e646f6d, k1),
          Xor(0x6c7967656e657261, k0), Xor(0x7465646279746573, k1))
  }

  /** One message word: two rounds between the two exclusive-ors. */
  function Absorb(s: State, w: bv64): State {
    var t := SipRound(SipRound(s.(v3 := Xor(s.v3, w))));
    t.(v0 := Xor(t.v0, w))
  }

  /** Eight message bytes, the first the least significant; a block of any other length does not occur. */
  function AbsorbBlock(s: State, block: seq<bv8>): State {
    if |block| == 8 then Absorb(s, LittleEndian(block)) else s
  }

  /** The message, null bytes up to one byte short of a whole word, and the length mod 256. */
  function Padded(msg: seq<bv8>): seq<bv8> {
    msg + Copies(0, 7 - |msg| % 8) + [(|msg| % 256) as bv8]
  }

  function Finalize(s: State): bv64 {
    var t := SipRound(SipRound(SipRound(SipRound(s.(v2 := Xor(s.v2, 0xff))))));
    Xor(Xor(Xor(t.v0, t.v1), t.v2), t.v3)
  }

  function SipHash24(key: seq<bv8>, msg: seq<bv8>): bv64
    requires |key| == 16
  {
    Finalize(Compress(AbsorbBlock, Initial(key), Padded(msg)))
  }
}

/** Sums of words taken byte by byte: the most significant byte is pushed first. */
module WordSums {
  import opened SipHashSpec

  function Sum3(x: bv64, y: bv64, z: bv64): bv64 {
    x + y + z
  }

  function Raise(x: bv64): bv64 {
    256 * x
  }

  function Push(x: bv64, b: bv8): bv64 {
    Add(Raise(x), b as bv64)
  }

  lemma AddIs(x: bv64, y: bv64)
    ensures Add(x, y) == x + y
  {
  }

  lemma Sum3Is(x: bv64, y: bv64, z: bv64)
    ensures Sum3(x, y, z) == x + y + z
  {
  }

  lemma RaiseIs(x: bv64)
    ensures Raise(x) == 256 * x
  {
  }

  lemma AddZero(x: bv64)
    ensures Add(x, 0) == x
  {
  }

  lemma LastSum(x: bv64, y: bv64, z: bv64)
    ensures Sum3(x, y, z) == Add(x + y, z)
  {
  }

  lemma Sum3Zero(x: bv64, y: bv64)
    ensures Sum3(x, y, 0) == Add(x, y)
  {
    hide Add, Sum3;
    LastSum(x, y, 0);
    AddIs(x, y);
    AddZero(x + y);
  }

  lemma ZerosAdded(x: bv64)
    ensures Add(0, x) == Sum3(0, 0, x)
  {
  }

  lemma SwapSums(x: bv64, y: bv64, z: bv64)
    ensures Add(x + y, z) == Add(x + z, y)
  {
  }

  lemma Swap(x: bv64, y: bv64, z: bv64)
    ensures Add(Add(x, y), z) == Add(Add(x, z), y)
  {
    hide Add;
    SwapSums(x, y, z);
    AddIs(x, y);
    AddIs(x, z);
  }

  lemma RegroupSums(x: bv64, y: bv64, z: bv64, w: bv64)
    ensures Add(x + y + z, w) == Sum3(x, y, z + w)
  {
  }

  lemma Regroup(x: bv64, y: bv64, z: bv64, w: bv64)
    ensures Add(Sum3(x, y, z), w) == Sum3(x, y, Add(z, w))
  {
    hide Add, Sum3;
    RegroupSums(x, y, z, w);
    Sum3Is(x, y, z);
    AddIs(z, w);
  }

  lemma PairSums(x: bv64, y: bv64, a: bv64, b: bv64, c: bv64)
    ensures Sum3(x, y, a + b + c) == Sum3(x + a, y + b, c)
  {
  }

  lemma Pair(x: bv64, y: bv64, a: bv64, b: bv64, c: bv64)
    ensures Sum3(x, y, Sum3(a, b, c)) == Sum3(Add(x, a), Add(y, b), c)
  {
    hide Add, Sum3;
    PairSums(x, y, a, b, c);
    Sum3Is(a, b, c);
    AddIs(x, a);
    AddIs(y, b);
  }

  lemma RaisedSums(x: bv64, y: bv64, z: bv64)
    ensures Raise(x + y) == Add(256 * x, 256 * y)
    ensures Raise(x + y + z) == Sum3(256 * x, 256 * y, 256 * z)
  {
  }

  lemma RaiseDistributes(x: bv64, y: bv64, z: bv64)
    ensures Raise(Add(x, y)) == Add(Raise(x), Raise(y))
    ensures Raise(Sum3(x, y, z)) == Sum3(Raise(x), Raise(y), Raise(z))
  {
    hide Add, Sum3, Raise;
    RaisedSums(x, y, z);
    AddIs(x, y);
    Sum3Is(x, y, z);
    RaiseIs(x);
    RaiseIs(y);
    RaiseIs(z);
  }

  /** Pushing the next bytes of two words and of their sum, with the carries in and out. */
  lemma PushedSum(x: bv64, y: bv64, h: bv64, z: bv64, out: bv64, a: bv8, b: bv8, c: bv64, l: bv8)
    requires Add(z, out) == Sum3(x, y, h)
    requires Add(Raise(h), l as bv64) == Sum3(a as bv64, b as bv64, c)
    ensures Add(Push(z, l), Raise(out)) == Sum3(Push(x, a), Push(y, b), c)
  {
    hide Add, Sum3, Raise;
    Swap(Raise(z), l as bv64, Raise(out));
    RaiseDistributes(z, out, 0);
    RaiseDistributes(x, y, h);
    Regroup(Raise(x), Raise(y), Raise(h), l as bv64);
    Pair(Raise(x), Raise(y), a as bv64, b as bv64, c);
  }
}

/** The byte-array macros: a word is 8 bytes, the most significant first. */
module SipHashBytes {
  import opened SipHashSpec
  import opened WordSums

  function Sum(carry: bv16, a: bv8, b: bv8): bv16 {
    carry + (a as bv16) + (b as bv16)
  }

  function High(x: bv16): bv16 {
    x >> 8
  }

  function Low(x: bv16): bv8 {
    (x & 0xff) as bv8
  }

  lemma CarryIsABit(carry: bv16, a: bv8, b: bv8)
    requires carry <= 1
    ensures High(Sum(carry, a, b)) <= 1
  {
  }

  /** What the loop of ADD64 carries into the bytes before position k. */
  function Carry(a: seq<bv8>, b: seq<bv8>, k: nat): (carry: bv16)
    requires |a| == |b| && k <= |a|
    ensures carry <= 1
    decreases |a| - k
  {
    if k == |a| then 0
    else
      CarryIsABit(Carry(a, b, k + 1), a[k], b[k]);
      High(Sum(Carry(a, b, k + 1), a[k], b[k]))
  }

  lemma Divided(s: bv16)
    ensures 256 * (High(s) as bv64) + (Low(s) as bv64) == s as bv64
  {
  }

  lemma SumFits(carry: bv16, a: bv8, b: bv8)
    requires carry <= 1
    ensures (carry + (a as bv16) + (b as bv16)) as bv64 == (a as bv64) + (b as bv64) + (carry as bv64)
  {
  }

  lemma ByteSum(carry: bv16, a: bv8, b: bv8)
    requires carry <= 1
    ensures Add(Raise(High(Sum(carry, a, b)) as bv64), Low(Sum(carry, a, b)) as bv64)
            == Sum3(a as bv64, b as bv64, carry as bv64)
  {
    var s := Sum(carry, a, b);
    SumFits(carry, a, b);
    hide *;
    Divided(s);
    RaiseIs(High(s) as bv64);
    AddIs(256 * (High(s) as bv64), Low(s) as bv64);
    Sum3Is(a as bv64, b as bv64, carry as bv64);
  }

  /** The first n bytes as a word. */
  function Value(b: seq<bv8>, n: nat): bv64
    requires n <= |b|
  {
    if n == 0 then 0 else Push(Value(b, n - 1), b[n - 1])
  }

  function Raised(x: bv64, n: nat): bv64 {
    if n == 0 then x else Raise(Raised(x, n - 1))
  }

  /** What the loop of ADD64 stores, however long the arrays. */
  ghost predicate AddedBytes(a: seq<bv8>, b: seq<bv8>, c: seq<bv8>) {
    |a| == |b| == |c| &&
    forall k :: 0 <= k < |a| ==> c[k] == Low(Sum(Carry(a, b, k + 1), a[k], b[k]))
  }

  /** z is the sum of x, y and the carry, up to what leaves the word. */
  ghost predicate Adds(x: bv64, y: bv64, carry: bv16, z: bv64, out: bv64) {
    Add(z, out) == Sum3(x, y, carry as bv64)
  }

  lemma AddsByte(x: bv64, y: bv64, carry: bv16, z: bv64, out: bv64, a: bv8, b: bv8)
    requires carry <= 1 && Adds(x, y, High(Sum(carry, a, b)), z, out)
    ensures Adds(Push(x, a), Push(y, b), carry, Push(z, Low(Sum(carry, a, b))), Raise(out))
  {
    hide Push, Raise, Low, High, Sum, Add, Sum3;
    var s := Sum(carry, a, b);
    ByteSum(carry, a, b);
    PushedSum(x, y, High(s) as bv64, z, out, a, b, carry as bv64, Low(s));
  }

  lemma AddsNothing(carry: bv16)
    ensures Adds(0, 0, carry, 0, carry as bv64)
  {
    hide Add, Sum3;
    ZerosAdded(carry as bv64);
  }

  /** Byte additions from the right, each passing its carry on, add the words up to the carry that leaves them. */
  lemma {:induction false} RippleCarry(a: seq<bv8>, b: seq<bv8>, c: seq<bv8>, n: nat)
    requires AddedBytes(a, b, c) && n <= |a|
    ensures Adds(Value(a, n), Value(b, n), Carry(a, b, n), Value(c, n), Raised(Carry(a, b, 0) as bv64, n))
  {
    hide Push, Raise, Low, High, Sum, Adds;
    if n == 0 {
      AddsNothing(Carry(a, b, 0));
    } else {
      RippleCarry(a, b, c, n - 1);
      AddsByte(Value(a, n - 1), Value(b, n - 1), Carry(a, b, n), Value(c, n - 1),
               Raised(Carry(a, b, 0) as bv64, n - 1), a[n - 1], b[n - 1]);
    }
  }

  lemma PushedBytes(b0: bv8, b1: bv8, b2: bv8, b3: bv8, b4: bv8, b5: bv8, b6: bv8, b7: bv8)
    ensures Push(Push(Push(Push(Push(Push(Push(Push(0, b0), b1), b2), b3), b4), b5), b6), b7)
            == Pack(b0, b1, b2, b3, b4, b5, b6, b7)
  {
  }

  lemma EightBytes(b: seq<bv8>)
    requires |b| == 8
    ensures Value(b, 8) == BigEndian(b)
  {
    hide Push, Pack;
    assert Value(b, 1) == Push(0, b[0]);
    assert Value(b, 3) == Push(Push(Value(b, 1), b[1]), b[2]);
    assert Value(b, 5) == Push(Push(Value(b, 3), b[3]), b[4]);
    assert Value(b, 7) == Push(Push(Value(b, 5), b[5]), b[6]);
    PushedBytes(b[0], b[1], b[2], b[3], b[4], b[5], b[6], b[7]);
  }

  lemma RaisedAway(x: bv64)
    ensures Raise(Raise(Raise(Raise(Raise(Raise(Raise(Raise(x)))))))) == 0
  {
  }

  /** A carry out of the eighth byte is lost. */
  lemma CarryLost(x: bv64)
    ensures Raised(x, 8) == 0
  {
    hide Raise;
    assert Raised(x, 1) == Raise(x);
    assert Raised(x, 3) == Raise(Raise(Raised(x, 1)));
    assert Raised(x, 5) == Raise(Raise(Raised(x, 3)));
    assert Raised(x, 7) == Raise(Raise(Raised(x, 5)));
    RaisedAway(x);
  }

  /** Added byte by byte, two words are added modulo 2^64. */
  lemma SumsAddWords(a: seq<bv8>, b: seq<bv8>, c: seq<bv8>)
    requires AddedBytes(a, b, c) && |a| == 8
    ensures BigEndian(c) == Add(BigEndian(a), BigEndian(b))
  {
    hide Add, Sum3, BigEndian;
    RippleCarry(a, b, c, 8);
    EightBytes(a);
    EightBytes(b);
    EightBytes(c);
    CarryLost(Carry(a, b, 0) as bv64);
    AddZero(BigEndian(c));
    Sum3Zero(BigEndian(a), BigEndian(b));
  }

  lemma XoredBytes(a: seq<bv8>, b: seq<bv8>, c: seq<bv8>)
    requires |a| == |b| == |c| == 8
    requires forall k :: 0 <= k < 8 ==> c[k] == a[k] ^ b[k]
    ensures BigEndian(c) == Xor(BigEndian(a), BigEndian(b))
  {
  }

  method Xor64(v: array<bv8>, w: array<bv8>)
    requires v.Length == w.Length == 8 && v != w
    modifies v
    ensures BigEndian(v[..]) == Xor(old(BigEndian(v[..])), BigEndian(w[..]))
  {
    hide BigEndian, Xor;
    ghost var was := v[..];
    for i := 0 to 8
      invariant forall k :: 0 <= k < i ==> v[k] == was[k] ^ w[k]
      invariant forall k :: i <= k < 8 ==> v[k] == was[k]
    {
      v[i] := v[i] ^ w[i];
    }
    XoredBytes(was, w[..], v[..]);
  }

  method Add64(v: array<bv8>, s: array<bv8>)
    requires v.Length == s.Length == 8 && v != s
    modifies v
    ensures BigEndian(v[..]) == Add(old(BigEndian(v[..])), BigEndian(s[..]))
  {
    hide Sum, Low, High, Add, Sum3, BigEndian, Pack;
    ghost var a, b := v[..], s[..];
    var carry: bv16 := 0;
    var i := 7;
    while i >= 0
      invariant -1 <= i <= 7
      invariant carry == Carry(a, b, i + 1)
      invariant forall k :: i < k < 8 ==> v[k] == Low(Sum(Carry(a, b, k + 1), a[k], b[k]))
      invariant forall k :: 0 <= k <= i ==> v[k] == a[k]
    {
      carry := Sum(carry, v[i], s[i]);
      v[i] := Low(carry);
      carry := High(carry);
      i := i - 1;
    }
    SumsAddWords(a, b, v[..]);
  }

  lemma MovedBytes16(a: seq<bv8>, c: seq<bv8>)
    requires |a| == 8 && c == a[2..] + a[..2]
    ensures BigEndian(c) == Rotated16(BigEndian(a))
  {
  }

  method RotL16(v: array<bv8>)
    requires v.Length == 8
    modifies v
    ensures BigEndian(v[..]) == Rotated16(old(BigEndian(v[..])))
  {
    var v0, v1 := v[0], v[1];
    for i := 0 to 6
      invariant forall k :: 0 <= k < i ==> v[k] == old(v[k + 2])
      invariant forall k :: i <= k < 8 ==> v[k] == old(v[k])
    {
      v[i] := v[i + 2];
    }
    v[6], v[7] := v0, v1;
    MovedBytes16(old(v[..]), v[..]);
  }

  lemma MovedBytes32(a: seq<bv8>, c: seq<bv8>)
    requires |a| == 8 && c == a[4..] + a[..4]
    ensures BigEndian(c) == Rotated32(BigEndian(a))
  {
  }

  method RotL32(v: array<bv8>)
    requires v.Length == 8
    modifies v
    ensures BigEndian(v[..]) == Rotated32(old(BigEndian(v[..])))
  {
    for i := 0 to 4
      invariant forall k :: 0 <= k < 4 ==> v[k] == if k < i then old(v[k + 4]) else old(v[k])
      invariant forall k :: 4 <= k < 8 ==> v[k] == if k < 4 + i then old(v[k - 4]) else old(v[k])
    {
      var vTemp := v[i];
      v[i] := v[i + 4];
      v[i + 4] := vTemp;
    }
    MovedBytes32(old(v[..]), v[..]);
  }

  method Reverse64(x: array<bv8>)
    requires x.Length == 8
    modifies x
    ensures BigEndian(x[..]) == LittleEndian(old(x[..]))
  {
    ghost var was := x[..];
    for i := 0 to 4
      invariant forall k :: 0 <= k < i ==> x[k] == was[7 - k]
      invariant forall k :: i <= k < 8 - i ==> x[k] == was[k]
      invariant forall k :: 8 - i <= k < 8 ==> x[k] == was[7 - k]
    {
      var xTemp := x[i];
      x[i] := x[7 - i];
      x[7 - i] := xTemp;
    }
  }

  function ShiftedLeft1(hi: bv8, lo: bv8): bv8 {
    (hi << 1) | (lo >> 7)
  }

  function ShiftedLeft5(hi: bv8, lo: bv8): bv8 {
    (hi << 5) | (lo >> 3)
  }

  /** The shifted byte of the macro, for the two shifts it is used with. */
  function ShiftedLeft(hi: bv8, lo: bv8, n: nat): bv8
    requires n == 1 || n == 5
  {
    if n == 1 then ShiftedLeft1(hi, lo) else ShiftedLeft5(hi, lo)
  }

  lemma ShiftedBytes1(a: seq<bv8>, c: seq<bv8>)
    requires |a| == |c| == 8
    requires forall k :: 0 <= k < 7 ==> c[k] == ShiftedLeft1(a[k], a[k + 1])
    requires c[7] == ShiftedLeft1(a[7], a[0])
    ensures BigEndian(c) == Rotated1(BigEndian(a))
  {
  }

  lemma ShiftedBytes5(a: seq<bv8>, c: seq<bv8>)
    requires |a| == |c| == 8
    requires forall k :: 0 <= k < 7 ==> c[k] == ShiftedLeft5(a[k], a[k + 1])
    requires c[7] == ShiftedLeft5(a[7], a[0])
    ensures BigEndian(c) == Rotated5(BigEndian(a))
  {
  }

  method RotLBits(v: array<bv8>, n: nat)
    requires v.Length == 8 && (n == 1 || n == 5)
    modifies v
    ensures BigEndian(v[..]) == if n == 1 then Rotated1(old(BigEndian(v[..]))) else Rotated5(old(BigEndian(v[..])))
  {
    var v0 := v[0];
    for i := 0 to 7
      invariant forall k :: 0 <= k < i ==> v[k] == ShiftedLeft(old(v[k]), old(v[k + 1]), n)
      invariant forall k :: i <= k < 8 ==> v[k] == old(v[k])
    {
      v[i] := ShiftedLeft(v[i], v[i + 1], n);
    }
    v[7] := ShiftedLeft(v[7], v0, n);
    if n == 1 {
      ShiftedBytes1(old(v[..]), v[..]);
    } else {
      ShiftedBytes5(old(v[..]), v[..]);
    }
  }

  function ShiftedRight3(hi: bv8, lo: bv8): bv8 {
    (lo >> 3) | (hi << 5)
  }

  lemma ShiftedRightBytes(a: seq<bv8>, c: seq<bv8>)
    requires |a| == |c| == 8
    requires forall k :: 0 < k < 8 ==> c[k] == ShiftedRight3(a[k - 1], a[k])
    requires c[0] == ShiftedRight3(a[7], a[0])
    ensures BigEndian(c) == Rotated61(BigEndian(a))
  {
  }

  /** Rotates right by three bits, which is left by 61. */
  method RotRBits3(v: array<bv8>)
    requires v.Length == 8
    modifies v
    ensures BigEndian(v[..]) == Rotated61(old(BigEndian(v[..])))
  {
    var v7 := v[7];
    var i := 7;
    while i > 0
      invariant 0 <= i <= 7
      invariant forall k :: i < k < 8 ==> v[k] == ShiftedRight3(old(v[k - 1]), old(v[k]))
      invariant forall k :: 0 <= k <= i ==> v[k] == old(v[k])
    {
      v[i] := ShiftedRight3(v[i - 1], v[i]);
      i := i - 1;
    }
    v[0] := ShiftedRight3(v7, v[0]);
    ShiftedRightBytes(old(v[..]), v[..]);
  }

  lemma ComposedRotation13(x: bv64)
    ensures Rotated61(Rotated16(x)) == Rotated13(x)
  {
  }

  lemma ComposedRotation17(x: bv64)
    ensures Rotated1(Rotated16(x)) == Rotated17(x)
  {
  }

  lemma ComposedRotation21(x: bv64)
    ensures Rotated5(Rotated16(x)) == Rotated21(x)
  {
  }

  method Rol13(v: array<bv8>)
    requires v.Length == 8
    modifies v
    ensures BigEndian(v[..]) == Rotated13(old(BigEndian(v[..])))
  {
    ComposedRotation13(BigEndian(v[..]));
    RotL16(v);
    RotRBits3(v);
  }

  method Rol17(v: array<bv8>)
    requires v.Length == 8
    modifies v
    ensures BigEndian(v[..]) == Rotated17(old(BigEndian(v[..])))
  {
    ComposedRotation17(BigEndian(v[..]));
    RotL16(v);
    RotLBits(v, 1);
  }

  method Rol21(v: array<bv8>)
    requires v.Length == 8
    modifies v
    ensures BigEndian(v[..]) == Rotated21(old(BigEndian(v[..])))
  {
    ComposedRotation21(BigEndian(v[..]));
    RotL16(v);
    RotLBits(v, 5);
  }
}

/** The class: byte arrays updated in place. */
module SipHashStream {
  import opened BlockStreams
  import opened SipHashSpec
  import opened SipHashBytes

  class SipHash {
    const v0: array<bv8>
    const v1: array<bv8>
    const v2: array<bv8>
    const v3: array<bv8>
    const m: array<bv8>
    var mIdx: int
    var msgByteCounter: nat

    // The key in use, the bytes given to UpdateHash since, and those of them that wait in m.
    ghost var key: seq<bv8>
    ghost var fed: seq<bv8>
    ghost var pending: seq<bv8>

    ghost predicate Shape() {
      v0.Length == v1.Length == v2.Length == v3.Length == m.Length == 8 &&
      v0 != v1 && v0 != v2 && v0 != v3 && v1 != v2 && v1 != v3 && v2 != v3 &&
      m != v0 && m != v1 && m != v2 && m != v3
    }

    ghost function Words(): State
      requires Shape()
      reads v0, v1, v2, v3
    {
      State(BigEndian(v0[..]), BigEndian(v1[..]), BigEndian(v2[..]), BigEndian(v3[..]))
    }

    /** The pending bytes fill m from its end. */
    ghost predicate Valid()
      reads this, v0, v1, v2, v3, m
    {
      Shape() && |key| == 16 && |pending| < 8 && mIdx == 7 - |pending| &&
      (forall k :: 0 <= k < |pending| ==> pending[k] == m[7 - k]) &&
      msgByteCounter == |fed| % 256 &&
      Stream(Words(), pending) == Fed(AbsorbBlock, Initial(key), fed)
    }

    constructor ()
      ensures Shape() && fresh(v0) && fresh(v1) && fresh(v2) && fresh(v3) && fresh(m)
    {
      v0, v1, v2, v3, m := new bv8[8], new bv8[8], new bv8[8], new bv8[8], new bv8[8];
      mIdx, msgByteCounter := 7, 0;
    }

    method SiphashRound()
      requires Shape()
      modifies v0, v1, v2, v3
      ensures Words() == SipRound(old(Words()))
    {
      hide BigEndian, Add, Xor, Rotated13, Rotated16, Rotated17, Rotated21, Rotated32;
      Add64(v0, v1);
      Add64(v2, v3);
      Rol13(v1);
      RotL16(v3);

      Xor64(v1, v0);
      Xor64(v3, v2);
      RotL32(v0);

      Add64(v2, v1);
      Add64(v0, v3);
      Rol17(v1);
      Rol21(v3);

      Xor64(v1, v2);
      Xor64(v3, v0);
      RotL32(v2);
    }

    method Hash()
      requires Shape()
      modifies v0, v1, v2, v3
      ensures Words() == Absorb(old(Words()), BigEndian(m[..]))
    {
      hide SipRound, Xor, Pack;
      Xor64(v3, m);
      SiphashRound();
      SiphashRound();
      Xor64(v0, m);
    }

    method UpdateHash(c: bv8)
      requires Valid()
      modifies this, v0, v1, v2, v3, m
      ensures Valid() && key == old(key) && fed == old(fed) + [c]
      ensures |pending| == if old(|pending|) == 7 then 0 else old(|pending|) + 1
    {
      hide Absorb, Initial, BigEndian, LittleEndian, Fed, Words;
      FedAppend(AbsorbBlock, Initial(key), fed, c);
      CountWraps(|fed|);
      fed := fed + [c];
      msgByteCounter := (msgByteCounter + 1) % 256;
      m[mIdx] := c;
      mIdx := mIdx - 1;
      pending := pending + [c];
      if mIdx < 0 {
        mIdx := 7;
        BlockReversed(pending, m[..]);
        Hash();
        pending := [];
      }
    }

    method InitFromRAM(k: seq<bv8>)
      requires Shape() && |k| == 16
      modifies this, v0, v1, v2, v3, m
      ensures Valid() && key == k && fed == []
    {
      hide Xor, Pack, BigEndian, LittleEndian;
      InitialConstants();
      Load(v0, [0x73, 0x6f, 0x6d, 0x65, 0x70, 0x73, 0x65, 0x75]);
      Load(v1, [0x64, 0x6f, 0x72, 0x61, 0x6e, 0x64, 0x6f, 0x6d]);
      Load(v2, [0x6c, 0x79, 0x67, 0x65, 0x6e, 0x65, 0x72, 0x61]);
      Load(v3, [0x74, 0x65, 0x64, 0x62, 0x79, 0x74, 0x65, 0x73]);
      Load(m, k[..8]);
      Reverse64(m);
      Xor64(v0, m);
      Xor64(v2, m);
      Load(m, k[8..]);
      Reverse64(m);
      Xor64(v1, m);
      Xor64(v3, m);
      mIdx, msgByteCounter := 7, 0;
      key, fed, pending := k, [], [];
    }

    /** Null bytes up to one short of a word, then the length. */
    method Pad()
      requires Valid()
      modifies this, v0, v1, v2, v3, m
      ensures Shape() && key == old(key)
      ensures Words() == Compress(AbsorbBlock, Initial(key), Padded(old(fed)))
    {
      hide AbsorbBlock, Compress, Initial, Feed, Copies, Words, Fed;
      var msgLen := msgByteCounter as bv8;
      ItemsFilled(AbsorbBlock, Initial(key), fed, 0, msgLen);
      while mIdx > 0
        invariant Valid() && key == old(key)
        invariant FeedUntilSeven(AbsorbBlock, Stream(Words(), pending), 0)
                  == FeedUntilSeven(AbsorbBlock, old(Stream(Words(), pending)), 0)
        decreases 7 - |pending|
      {
        FedAppend(AbsorbBlock, Initial(key), fed, 0);
        UpdateHash(0);
      }
      FedAppend(AbsorbBlock, Initial(key), fed, msgLen);
      UpdateHash(msgLen);
    }

    /** Leaves the hash of the bytes fed so far in v0. */
    method Finish()
      requires Valid()
      modifies this, v0, v1, v2, v3, m
      ensures Shape() && BigEndian(v0[..]) == SipHash24(old(key), old(fed))
    {
      hide SipRound, Xor, Pack, Compress, Initial, Padded;
      Pad();
      ghost var low := v2[..];
      v2[7] := v2[7] ^ 0xff;
      LowByteFlipped(low, v2[..]);
      SiphashRound();
      SiphashRound();
      SiphashRound();
      SiphashRound();
      Xor64(v0, v1);
      Xor64(v0, v2);
      Xor64(v0, v3);
    }
  }

  lemma CountWraps(n: nat)
    ensures (n % 256 + 1) % 256 == (n + 1) % 256
  {
  }

  method Load(v: array<bv8>, b: seq<bv8>)
    requires v.Length == |b| == 8
    modifies v
    ensures v[..] == b
  {
    for i := 0 to 8
      invariant v[..i] == b[..i]
    {
      v[i] := b[i];
    }
  }

  lemma BlockReversed(block: seq<bv8>, m: seq<bv8>)
    requires |block| == |m| == 8
    requires forall k :: 0 <= k < 8 ==> block[k] == m[7 - k]
    ensures LittleEndian(block) == BigEndian(m)
  {
  }

  lemma InitialConstants()
    ensures BigEndian([0x73, 0x6f, 0x6d, 0x65, 0x70, 0x73, 0x65, 0x75]) == 0x736f6d6570736575
    ensures BigEndian([0x64, 0x6f, 0x72, 0x61, 0x6e, 0x64, 0x6f, 0x6d]) == 0x646f72616e646f6d
    ensures BigEndian([0x6c, 0x79, 0x67, 0x65, 0x6e, 0x65, 0x72, 0x61]) == 0x6c7967656e657261
    ensures BigEndian([0x74, 0x65, 0x64, 0x62, 0x79, 0x74, 0x65, 0x73]) == 0x7465646279746573
  {
  }

  lemma LowByteFlipped(a: seq<bv8>, c: seq<bv8>)
    requires |a| == 8 && c == a[7 := a[7] ^ 0xff]
    ensures BigEndian(c) == Xor(BigEndian(a), 0xff)
  {
  }

  /** The documented use: initialise with the key, update with every byte, finish. */
  method Digest(key: seq<bv8>, msg: seq<bv8>) returns (result: seq<bv8>)
    requires |key| == 16
    ensures |result| == 8 && BigEndian(result) == SipHash24(key, msg)
  {
    hide SipHash24, Fed, BigEndian;
    var sip := new SipHash();
    sip.InitFromRAM(key);
    for i := 0 to |msg|
      invariant sip.Valid() && sip.key == key && sip.fed == msg[..i]
      invariant fresh(sip) && fresh(sip.v0) && fresh(sip.v1) && fresh(sip.v2) && fresh(sip.v3) && fresh(sip.m)
    {
      sip.UpdateHash(msg[i]);
    }
    sip.Finish();
    assert msg[..|msg|] == msg;
    result := sip.v0[..];
  }
}
