/** Nine-bit words, dc bit first, packed into the bytes of an 8-bit SPI. */
module NineBitPacking {
  const BUFFER_BYTES: nat := 9

  /** A bit of a byte, counted from the highest. */
  function Bit(b: bv8, i: nat): bool
    requires i < 8
  {
    if i == 0 then b & 0x80 != 0 else if i == 1 then b & 0x40 != 0 else if i == 2 then b & 0x20 != 0 else if i == 3 then b & 0x10 != 0
    else if i == 4 then b & 8 != 0 else if i == 5 then b & 4 != 0 else if i == 6 then b & 2 != 0 else b & 1 != 0
  }

  function Bits(b: bv8): (s: seq<bool>)
    ensures |s| == 8
  {
    seq(8, i requires 0 <= i < 8 => Bit(b, i))
  }

  function AllBits(bytes: seq<bv8>): (s: seq<bool>)
    ensures |s| == 8 * |bytes|
  {
    if bytes == [] then [] else AllBits(bytes[..|bytes| - 1]) + Bits(bytes[|bytes| - 1])
  }

  function Word(dc: bool, data: bv8): (s: seq<bool>)
    ensures |s| == 9
  {
    [dc] + Bits(data)
  }

  function Zeros(n: nat): seq<bool> {
    seq(n, i => false)
  }

  function Or(a: bv8, b: bv8): bv8 {
    a | b
  }

  function High(v: bv16): bv8 {
    (v >> 8) as bv8
  }

  function Low(v: bv16): bv8 {
    (v & 0xff) as bv8
  }

  /** The nine bits of a word as a number. */
  function Value(dc: bool, data: bv8): bv16 {
    (if dc then 256 else 0) + data as bv16
  }

  /** The word shifted behind the bits already used in a byte. */
  function Shifted(dc: bool, data: bv8, pos: nat): bv16
    requires pos < 8
  {
    Value(dc, data) << (7 - pos)
  }

  lemma OrUpperBit(a: bv8, b: bv8, i: nat)
    requires i < 4
    ensures Bit(Or(a, b), i) == (Bit(a, i) || Bit(b, i))
  {
  }

  lemma OrLowerBit(a: bv8, b: bv8, i: nat)
    requires 4 <= i < 8
    ensures Bit(Or(a, b), i) == (Bit(a, i) || Bit(b, i))
  {
  }

  lemma OrBit(a: bv8, b: bv8, i: nat)
    requires i < 8
    ensures Bit(Or(a, b), i) == (Bit(a, i) || Bit(b, i))
  {
    hide Bit, Or;
    if i < 4 {
      OrUpperBit(a, b, i);
    } else {
      OrLowerBit(a, b, i);
    }
  }

  /** The two bytes of a shifted word: its bits behind pos zeros. */
  predicate Holds(v: bv16, dc: bool, data: bv8, pos: nat)
    requires pos < 8
  {
    (forall i :: 0 <= i < 8 ==> Bit(High(v), i) == (if i < pos then false else Word(dc, data)[i - pos])) &&
    (forall i :: 0 <= i < 8 ==> Bit(Low(v), i) == (if i < pos + 1 then Word(dc, data)[i + 8 - pos] else false))
  }

  /** The same bit by bit. */
  predicate HoldsBit(h: bv8, l: bv8, dc: bool, data: bv8, pos: nat, i: nat)
    requires pos < 8 && i < 8
  {
    Bit(h, i) == (if i < pos then false else if i == pos then dc else Bit(data, i - pos - 1)) &&
    Bit(l, i) == (if i < pos then Bit(data, i + 7 - pos) else if i == pos then Bit(data, 7) else false)
  }

  lemma HoldsAll(v: bv16, dc: bool, data: bv8, pos: nat)
    requires pos < 8 && forall i :: 0 <= i < 8 ==> HoldsBit(High(v), Low(v), dc, data, pos, i)
    ensures Holds(v, dc, data, pos)
  {
    hide High, Low, Bit;
    forall i | 0 <= i < 8
      ensures Bit(High(v), i) == (if i < pos then false else Word(dc, data)[i - pos])
      ensures Bit(Low(v), i) == (if i < pos + 1 then Word(dc, data)[i + 8 - pos] else false)
    {
      assert HoldsBit(High(v), Low(v), dc, data, pos, i);
    }
  }

  lemma ShiftedAt0(dc: bool, data: bv8, i: nat)
    requires i < 8
    ensures var v := Shifted(dc, data, 0); HoldsBit(High(v), Low(v), dc, data, 0, i)
  {
    assert Shifted(dc, data, 0) == Value(dc, data) << 7;
    hide Shifted;
  }

  lemma ShiftedAt1(dc: bool, data: bv8, i: nat)
    requires i < 8
    ensures var v := Shifted(dc, data, 1); HoldsBit(High(v), Low(v), dc, data, 1, i)
  {
    assert Shifted(dc, data, 1) == Value(dc, data) << 6;
    hide Shifted;
  }

  lemma ShiftedAt2(dc: bool, data: bv8, i: nat)
    requires i < 8
    ensures var v := Shifted(dc, data, 2); HoldsBit(High(v), Low(v), dc, data, 2, i)
  {
    assert Shifted(dc, data, 2) == Value(dc, data) << 5;
    hide Shifted;
  }

  lemma ShiftedAt3(dc: bool, data: bv8, i: nat)
    requires i < 8
    ensures var v := Shifted(dc, data, 3); HoldsBit(High(v), Low(v), dc, data, 3, i)
  {
    assert Shifted(dc, data, 3) == Value(dc, data) << 4;
    hide Shifted;
  }

  lemma ShiftedAt4(dc: bool, data: bv8, i: nat)
    requires i < 8
    ensures var v := Shifted(dc, data, 4); HoldsBit(High(v), Low(v), dc, data, 4, i)
  {
    assert Shifted(dc, data, 4) == Value(dc, data) << 3;
    hide Shifted;
  }

  lemma ShiftedAt5(dc: bool, data: bv8, i: nat)
    requires i < 8
    ensures var v := Shifted(dc, data, 5); HoldsBit(High(v), Low(v), dc, data, 5, i)
  {
    assert Shifted(dc, data, 5) == Value(dc, data) << 2;
    hide Shifted;
  }

  lemma ShiftedAt6(dc: bool, data: bv8, i: nat)
    requires i < 8
    ensures var v := Shifted(dc, data, 6); HoldsBit(High(v), Low(v), dc, data, 6, i)
  {
    assert Shifted(dc, data, 6) == Value(dc, data) << 1;
    hide Shifted;
  }

  lemma ShiftedAt7(dc: bool, data: bv8, i: nat)
    requires i < 8
    ensures var v := Shifted(dc, data, 7); HoldsBit(High(v), Low(v), dc, data, 7, i)
  {
    assert Shifted(dc, data, 7) == Value(dc, data) << 0;
    hide Shifted;
  }

  lemma {:induction false} ShiftedBits(dc: bool, data: bv8, pos: nat)
    requires pos < 8
    ensures Holds(Shifted(dc, data, pos), dc, data, pos)
  {
    hide Shifted, Holds, HoldsBit;
    forall i | 0 <= i < 8 ensures HoldsBit(High(Shifted(dc, data, pos)), Low(Shifted(dc, data, pos)), dc, data, pos, i) {
      match pos
      case 0 => ShiftedAt0(dc, data, i);
      case 1 => ShiftedAt1(dc, data, i);
      case 2 => ShiftedAt2(dc, data, i);
      case 3 => ShiftedAt3(dc, data, i);
      case 4 => ShiftedAt4(dc, data, i);
      case 5 => ShiftedAt5(dc, data, i);
      case 6 => ShiftedAt6(dc, data, i);
      case 7 => ShiftedAt7(dc, data, i);
    }
    HoldsAll(Shifted(dc, data, pos), dc, data, pos);
  }

  // ---- one transfer ----

  /** The buffer of bytes, the byte being filled, the dc setting and what has gone out. */
  datatype Packer = Packer(buffer: seq<bv8>, pos: nat, dc: bool, spi: seq<bv8>) {
    predicate Valid() {
      |buffer| == BUFFER_BYTES && pos < BUFFER_BYTES - 1
    }
  }

  function ZeroBytes(n: nat): (s: seq<bv8>)
    ensures |s| == n
  {
    seq(n, i => 0)
  }

  function Init(p: Packer): Packer {
    p.(buffer := ZeroBytes(BUFFER_BYTES), pos := 0)
  }

  function Flush(p: Packer): Packer
    requires |p.buffer| == BUFFER_BYTES && p.pos < BUFFER_BYTES
  {
    p.(spi := p.spi + p.buffer[..p.pos + 1])
  }

  function Merge(p: Packer, data: bv8): Packer
    requires p.Valid()
  {
    var v := Shifted(p.dc, data, p.pos);
    p.(buffer := p.buffer[p.pos := Or(p.buffer[p.pos], High(v))][p.pos + 1 := Or(p.buffer[p.pos + 1], Low(v))], pos := p.pos + 1)
  }

  function SendByte(p: Packer, data: bv8): (r: Packer)
    requires p.Valid()
    ensures r.Valid() && r.dc == p.dc
  {
    var p := Merge(p, data);
    if p.pos == BUFFER_BYTES - 1 then Init(Flush(p)) else p
  }

  datatype Op = SetDc(dc: bool) | Send(data: bv8)

  function Step(p: Packer, op: Op): (r: Packer)
    requires p.Valid()
    ensures r.Valid()
  {
    match op
    case SetDc(dc) => p.(dc := dc)
    case Send(data) => SendByte(p, data)
  }

  function Run(p: Packer, ops: seq<Op>): (r: Packer)
    requires p.Valid()
    ensures r.Valid()
    decreases |ops|
  {
    if ops == [] then p else Run(Step(p, ops[0]), ops[1..])
  }

  function EndTransfer(p: Packer): Packer
    requires p.Valid()
  {
    if p.pos > 0 then Flush(p) else p
  }

  /** The words of a transfer: each data byte behind the dc setting in force. */
  function Words(dc: bool, ops: seq<Op>): seq<bool>
    decreases |ops|
  {
    if ops == [] then []
    else if ops[0].SetDc? then Words(ops[0].dc, ops[1..])
    else Word(dc, ops[0].data) + Words(dc, ops[1..])
  }

  /** What has gone out since the start of the transfer and what is in the buffer are the bits sent, then zeros. */
  predicate PackedUpTo(p: Packer, before: seq<bv8>, bits: seq<bool>) {
    |p.buffer| == BUFFER_BYTES && p.pos < BUFFER_BYTES && before <= p.spi &&
    (forall i :: p.pos < i < BUFFER_BYTES ==> p.buffer[i] == 0) &&
    AllBits(p.spi[|before|..] + p.buffer[..p.pos + 1]) == bits + Zeros(8 - p.pos)
  }

  predicate Packed(p: Packer, before: seq<bv8>, bits: seq<bool>) {
    p.Valid() && PackedUpTo(p, before, bits)
  }

  lemma {:induction false} AllBitsAppend(a: seq<bv8>, b: seq<bv8>)
    ensures AllBits(a + b) == AllBits(a) + AllBits(b)
    decreases |b|
  {
    hide Bits;
    if b == [] {
      assert a + b == a && AllBits(b) == [];
    } else {
      var front, last := b[..|b| - 1], b[|b| - 1];
      assert (a + b)[..|a + b| - 1] == a + front && (a + b)[|a + b| - 1] == last;
      AllBitsAppend(a, front);
    }
  }

  lemma OneByte(b: bv8)
    ensures AllBits([b]) == Bits(b)
  {
    hide Bits;
    assert [b][..0] == [] && AllBits([]) == [];
    assert [] + Bits(b) == Bits(b);
  }

  lemma ZeroByte()
    ensures Bits(0) == Zeros(8)
  {
    assert forall i :: 0 <= i < 8 ==> !Bit(0, i);
    hide Bit;
  }

  /** A byte whose first pos bits are used takes the first bits of the word. */
  lemma FilledByte(b: bv8, dc: bool, data: bv8, pos: nat, used: seq<bool>)
    requires pos < 8 && |used| == pos && Bits(b) == used + Zeros(8 - pos)
    ensures Bits(Or(b, High(Shifted(dc, data, pos)))) == used + Word(dc, data)[..8 - pos]
  {
    ShiftedBits(dc, data, pos);
    hide Bit, Or, High, Low, Shifted;
    var h := High(Shifted(dc, data, pos));
    forall i | 0 <= i < 8 ensures Bits(Or(b, h))[i] == (used + Word(dc, data)[..8 - pos])[i] {
      OrBit(b, h, i);
      assert Bit(b, i) == Bits(b)[i];
    }
  }

  /** The next byte takes the rest. */
  lemma NextByte(dc: bool, data: bv8, pos: nat)
    requires pos < 8
    ensures Bits(Or(0, Low(Shifted(dc, data, pos)))) == Word(dc, data)[8 - pos..] + Zeros(7 - pos)
  {
    ShiftedBits(dc, data, pos);
    ZeroByte();
    hide Bit, Or, High, Low, Shifted;
    var l := Low(Shifted(dc, data, pos));
    forall i | 0 <= i < 8 ensures Bits(Or(0, l))[i] == (Word(dc, data)[8 - pos..] + Zeros(7 - pos))[i] {
      OrBit(0, l, i);
      assert Bit(0, i) == Bits(0)[i];
    }
  }

  /** The front of what is in the buffer is whole bytes; the last byte has its first pos bits used. */
  lemma LastByte(front: seq<bv8>, last: bv8, bits: seq<bool>, pos: nat) returns (used: seq<bool>)
    requires pos < 8 && AllBits(front + [last]) == bits + Zeros(8 - pos) && 8 * |front| + pos == |bits|
    ensures |used| == pos && Bits(last) == used + Zeros(8 - pos) && AllBits(front) + used == bits
  {
    AllBitsAppend(front, [last]);
    OneByte(last);
    hide AllBits, Bits;
    used := bits[8 * |front|..];
    var all := bits + Zeros(8 - pos);
    assert AllBits(front) == all[..8 * |front|] == bits[..8 * |front|];
    assert Bits(last) == all[8 * |front|..];
  }

  lemma Glue(front: seq<bool>, used: seq<bool>, w: seq<bool>, n: nat, rest: seq<bool>)
    requires n <= |w|
    ensures front + (used + w[..n]) + (w[n..] + rest) == front + used + w + rest
  {
  }

  /** One byte more: its word follows the bits sent so far. */
  lemma MergePacks(front: seq<bv8>, last: bv8, bits: seq<bool>, dc: bool, data: bv8, pos: nat)
    requires pos < 8 && AllBits(front + [last]) == bits + Zeros(8 - pos) && 8 * |front| + pos == |bits|
    ensures var v := Shifted(dc, data, pos);
            AllBits(front + [Or(last, High(v)), Or(0, Low(v))]) == bits + Word(dc, data) + Zeros(7 - pos)
  {
    hide Bits, Bit, Or, High, Low, Shifted, Word, AllBits;
    var v, w := Shifted(dc, data, pos), Word(dc, data);
    var used := LastByte(front, last, bits, pos);
    FilledByte(last, dc, data, pos, used);
    NextByte(dc, data, pos);
    var x, y := Or(last, High(v)), Or(0, Low(v));
    AllBitsAppend(front + [x], [y]);
    AllBitsAppend(front, [x]);
    OneByte(x);
    OneByte(y);
    assert front + [x] + [y] == front + [x, y];
    Glue(AllBits(front), used, w, 8 - pos, Zeros(7 - pos));
  }

  lemma MergedBuffer(p: Packer, data: bv8)
    requires p.Valid() && p.buffer[p.pos + 1] == 0
    ensures var v, q := Shifted(p.dc, data, p.pos), Merge(p, data);
            q.buffer[..q.pos + 1] == p.buffer[..p.pos] + [Or(p.buffer[p.pos], High(v)), Or(0, Low(v))]
  {
    hide Or, High, Low, Shifted;
  }

  lemma MergeKeepsPacked(p: Packer, before: seq<bv8>, bits: seq<bool>, data: bv8)
    requires Packed(p, before, bits)
    ensures PackedUpTo(Merge(p, data), before, bits + Word(p.dc, data))
  {
    hide Or, High, Low, Shifted, Word, AllBits;
    var out := p.spi[|before|..];
    var front, last := out + p.buffer[..p.pos], p.buffer[p.pos];
    var q := Merge(p, data);
    assert q.spi == p.spi && q.pos == p.pos + 1 && forall i :: q.pos < i < BUFFER_BYTES ==> q.buffer[i] == 0;
    assert out + p.buffer[..p.pos + 1] == front + [last];
    MergedBuffer(p, data);
    hide Merge;
    MergePacks(front, last, bits, p.dc, data, p.pos);
    var two := [Or(last, High(Shifted(p.dc, data, p.pos))), Or(0, Low(Shifted(p.dc, data, p.pos)))];
    assert out + (p.buffer[..p.pos] + two) == front + two;
  }

  /** The full buffer goes out, and filling starts again. */
  lemma FullGoesOut(q: Packer, before: seq<bv8>, bits: seq<bool>)
    requires PackedUpTo(q, before, bits) && q.pos == BUFFER_BYTES - 1
    ensures Packed(Init(Flush(q)), before, bits)
  {
    hide AllBits, Bits;
    var out := q.spi[|before|..];
    var r := Init(Flush(q));
    assert q.buffer[..BUFFER_BYTES] == q.buffer;
    assert r.spi[|before|..] == out + q.buffer;
    assert bits + Zeros(0) == bits;
    assert r.buffer[..1] == [0];
    AllBitsAppend(out + q.buffer, [0]);
    OneByte(0);
    ZeroByte();
  }

  lemma {:induction false} SendPacks(p: Packer, before: seq<bv8>, bits: seq<bool>, data: bv8)
    requires Packed(p, before, bits)
    ensures Packed(SendByte(p, data), before, bits + Word(p.dc, data))
  {
    hide AllBits, Word, PackedUpTo;
    MergeKeepsPacked(p, before, bits, data);
    var q := Merge(p, data);
    if q.pos == BUFFER_BYTES - 1 {
      FullGoesOut(q, before, bits + Word(p.dc, data));
    }
  }

  lemma {:induction false} RunPacks(p: Packer, before: seq<bv8>, bits: seq<bool>, ops: seq<Op>)
    requires Packed(p, before, bits)
    ensures Packed(Run(p, ops), before, bits + Words(p.dc, ops))
    decreases |ops|
  {
    hide Word, SendByte, AllBits;
    if ops == [] {
      assert bits + [] == bits;
    } else if ops[0].SetDc? {
      RunPacks(Step(p, ops[0]), before, bits, ops[1..]);
    } else {
      var w := Word(p.dc, ops[0].data);
      SendPacks(p, before, bits, ops[0].data);
      RunPacks(SendByte(p, ops[0].data), before, bits + w, ops[1..]);
      assert bits + w + Words(p.dc, ops[1..]) == bits + (w + Words(p.dc, ops[1..]));
    }
  }

  /** What a transfer puts on the SPI. */
  function Transferred(p: Packer, ops: seq<Op>): seq<bv8>
    requires |p.buffer| == BUFFER_BYTES
  {
    EndTransfer(Run(Init(p), ops)).spi
  }

  /** The bits of the bytes that go out are exactly the nine-bit words in order, then fewer than eight zeros. */
  lemma {:induction false} TransferIsWords(p: Packer, ops: seq<Op>) returns (padding: nat)
    requires |p.buffer| == BUFFER_BYTES
    ensures padding < 8 && p.spi <= Transferred(p, ops)
    ensures AllBits(Transferred(p, ops)[|p.spi|..]) == Words(p.dc, ops) + Zeros(padding)
  {
    hide Bits, Words, Or, High, Low, Shifted;
    var start := Init(p);
    StartPacked(p);
    RunPacks(start, p.spi, [], ops);
    hide Run, AllBits;
    var q := Run(start, ops);
    assert [] + Words(p.dc, ops) == Words(p.dc, ops);
    var out := q.spi[|p.spi|..];
    if q.pos > 0 {
      padding := 8 - q.pos;
      assert Transferred(p, ops)[|p.spi|..] == out + q.buffer[..q.pos + 1];
    } else {
      padding := 0;
      LastByteEmpty(out, q.buffer[0], Words(p.dc, ops));
      assert q.buffer[..1] == [q.buffer[0]];
      assert Words(p.dc, ops) + Zeros(0) == Words(p.dc, ops);
    }
  }

  lemma StartPacked(p: Packer)
    requires |p.buffer| == BUFFER_BYTES
    ensures Packed(Init(p), p.spi, [])
  {
    hide Bits, AllBits;
    OneByte(0);
    ZeroByte();
    assert p.spi[|p.spi|..] + Init(p).buffer[..1] == [0];
    assert [] + Zeros(8) == Zeros(8);
  }

  lemma LastByteEmpty(out: seq<bv8>, last: bv8, bits: seq<bool>)
    requires AllBits(out + [last]) == bits + Zeros(8)
    ensures AllBits(out) == bits
  {
    AllBitsAppend(out, [last]);
    OneByte(last);
    hide Bits, AllBits;
    var all := bits + Zeros(8);
    assert AllBits(out) == all[..|bits|];
  }
}

/** The packer over its static buffer. */
module NineBitObject {
  import opened NineBitPacking

  class Spi3Wire {
    const buffer: array<bv8>
    var bytepos: nat
    var dc: bool
    var spi: seq<bv8>

    ghost predicate Shape() {
      buffer.Length == BUFFER_BYTES
    }

    ghost function View(): Packer
      reads this, buffer
    {
      Packer(buffer[..], bytepos, dc, spi)
    }

    constructor ()
      ensures Shape() && View() == Packer(ZeroBytes(BUFFER_BYTES), 0, false, []) && fresh(buffer)
    {
      buffer := new bv8[BUFFER_BYTES](_ => 0);
      bytepos, dc, spi := 0, false, [];
    }

    method InitBuffer()
      requires Shape()
      modifies this`bytepos, buffer
      ensures View() == Init(old(View()))
    {
      for i := 0 to BUFFER_BYTES
        invariant buffer[..i] == ZeroBytes(i)
      {
        buffer[i] := 0;
      }
      bytepos := 0;
    }

    method FlushBuffer()
      requires Shape() && bytepos < BUFFER_BYTES
      modifies this`spi
      ensures View() == Flush(old(View()))
    {
      for i := 0 to bytepos + 1
        modifies this`spi
        invariant spi == old(spi) + buffer[..i]
      {
        spi := spi + [buffer[i]];
      }
    }

    /** One data byte behind the dc bit. */
    method SendDataByte(data: bv8)
      requires Shape() && View().Valid()
      modifies this, buffer
      ensures View() == SendByte(old(View()), data)
    {
      hide Or, High, Low, Shifted, ZeroBytes;
      var v := Shifted(dc, data, bytepos);
      buffer[bytepos] := Or(buffer[bytepos], High(v));
      bytepos := bytepos + 1;
      buffer[bytepos] := Or(buffer[bytepos], Low(v));
      assert View() == Merge(old(View()), data);
      if bytepos == BUFFER_BYTES - 1 {
        FlushBuffer();
        InitBuffer();
      }
    }

    method SetDataCommand(arg: bool)
      modifies this`dc
      ensures View() == old(View()).(dc := arg)
    {
      dc := arg;
    }

    method SendData(data: seq<bv8>)
      requires Shape() && View().Valid()
      modifies this, buffer
      ensures View() == Run(old(View()), Sends(data))
    {
      hide SendByte;
      ghost var start := View();
      for i := 0 to |data|
        invariant Shape() && View().Valid() && View() == Run(start, Sends(data[..i]))
      {
        SendDataByte(data[i]);
        RunOneMore(start, data, i);
      }
      assert data[..|data|] == data;
    }

    method End()
      requires Shape() && View().Valid()
      modifies this`spi
      ensures View() == EndTransfer(old(View()))
    {
      if bytepos != 0 {
        FlushBuffer();
      }
    }
  }

  function Sends(data: seq<bv8>): (ops: seq<Op>)
    ensures |ops| == |data|
  {
    seq(|data|, i requires 0 <= i < |data| => Send(data[i]))
  }

  lemma {:induction false} RunAppend(p: Packer, a: seq<Op>, op: Op)
    requires p.Valid()
    ensures Run(p, a + [op]) == Step(Run(p, a), op)
    decreases |a|
  {
    hide Step;
    if a == [] {
      assert [] + [op] == [op] && [op][1..] == [];
    } else {
      assert (a + [op])[1..] == a[1..] + [op];
      RunAppend(Step(p, a[0]), a[1..], op);
    }
  }

  lemma {:induction false} RunOneMore(p: Packer, data: seq<bv8>, i: nat)
    requires p.Valid() && i < |data|
    ensures Run(p, Sends(data[..i + 1])) == SendByte(Run(p, Sends(data[..i])), data[i])
  {
    hide Run, SendByte;
    assert Sends(data[..i + 1]) == Sends(data[..i]) + [Send(data[i])];
    RunAppend(p, Sends(data[..i]), Send(data[i]));
  }
}
