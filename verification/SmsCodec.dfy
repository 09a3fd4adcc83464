/** The 6-bit code of the SMS texts: one text carries a message number, a connection number and up to 117 bytes. */
module SmsCode {
  import opened Bytes

  /** The longest text, and the bytes one text can carry after its four characters of numbers. */
  const SMS_MAX_SIZE: nat := 160
  const MAX_BYTES_TO_CONVERT: nat := 117

  /** What decoding a character outside the code returns. */
  const INVALID: Byte := 0xff

  /** The numbers below this fit in the two characters of a number. */
  const NUMBER_LIMIT: nat := 4096

  const SPACE: Byte := 0x20
  const PLUS: Byte := 0x2b
  const CAPITAL_A: Byte := 0x41
  const SMALL_A: Byte := 0x61
  const DIGIT_0: Byte := 0x30
  const CLOSE_BRACE: Byte := 0x7d

  function EncodeSMSChar(byte: Byte): Byte {
    var c := byte % 64;
    if c == 0 then SPACE
    else if c == 1 then PLUS
    else if c < 12 then DIGIT_0 + (c - 2)
    else if c < 38 then CAPITAL_A + (c - 12)
    else SMALL_A + (c - 38)
  }

  function DecodeSMSChar(e: Byte): Byte {
    if e >= 0x80 then INVALID
    else if SMALL_A <= e <= 0x7a then e - SMALL_A + 38
    else if CAPITAL_A <= e <= 0x5a then e - CAPITAL_A + 12
    else if DIGIT_0 <= e <= 0x39 then e - DIGIT_0 + 2
    else if e == PLUS then 1
    else if e == SPACE then 0
    else INVALID
  }

  lemma CharRoundTrip(c: Byte)
    ensures DecodeSMSChar(EncodeSMSChar(c)) == c % 64
  {
  }

  /** The 64 characters of the code are exactly those that decode. */
  lemma CodeRoundTrip(e: Byte)
    ensures DecodeSMSChar(e) != INVALID <==> EncodeSMSChar(DecodeSMSChar(e)) == e
  {
  }

  function EncodeInt(number: nat): seq<Byte> {
    [EncodeSMSChar(number / 64 % 256), EncodeSMSChar(number % 256)]
  }

  /** 0 also stands for two characters that are no number. */
  function DecodeInt(high: Byte, low: Byte): nat {
    if DecodeSMSChar(high) == INVALID || DecodeSMSChar(low) == INVALID then 0
    else DecodeSMSChar(high) * 64 + DecodeSMSChar(low)
  }

  lemma SixBitsOfByte(n: nat)
    ensures n % 256 % 64 == n % 64
  {
  }

  lemma TwoSixBits(n: nat)
    ensures n / 64 % 64 * 64 + n % 64 == n % NUMBER_LIMIT
  {
  }

  lemma IntRoundTrip(number: nat)
    ensures DecodeInt(EncodeInt(number)[0], EncodeInt(number)[1]) == number % NUMBER_LIMIT
  {
    hide EncodeSMSChar, DecodeSMSChar;
    var high, low := number / 64, number;
    CharRoundTrip(high % 256);
    CharRoundTrip(low % 256);
    SixBitsOfByte(high);
    SixBitsOfByte(low);
    TwoSixBits(number);
  }

  /** Three bytes as one number of 24 bits, and back. */
  function Word(a: Byte, b: Byte, c: Byte): nat {
    a * 0x10000 + b * 0x100 + c
  }

  function ConvertThree8Bytes(w: nat): seq<Byte> {
    [EncodeSMSChar(w / 0x40000 % 256), EncodeSMSChar(w / 0x1000 % 256), EncodeSMSChar(w / 0x40 % 256), EncodeSMSChar(w % 256)]
  }

  /** Four characters for three bytes. */
  function EncodeBytes(bytes: seq<Byte>): seq<Byte> {
    if |bytes| < 3 then []
    else ConvertThree8Bytes(Word(bytes[0], bytes[1], bytes[2])) + EncodeBytes(bytes[3..])
  }

  /** How many of the bytes left go into the next text: a text is never filled exactly by the last bytes. */
  function PieceLen(left: nat): (len: nat)
    ensures len <= left && len <= MAX_BYTES_TO_CONVERT && (left > 0 ==> len > 0)
  {
    if left > MAX_BYTES_TO_CONVERT then MAX_BYTES_TO_CONVERT
    else if left == MAX_BYTES_TO_CONVERT then MAX_BYTES_TO_CONVERT - 3
    else left
  }

  /** One to three nulls after the last bytes, none after others. */
  function Padding(left: nat): nat {
    if left >= MAX_BYTES_TO_CONVERT then 0 else 3 - left % 3
  }

  /** The bytes of one text and their padding make groups of three. */
  lemma Groups(left: nat) returns (n: nat)
    requires left > 0
    ensures PieceLen(left) + Padding(left) == 3 * n && 0 < n <= MAX_BYTES_TO_CONVERT / 3
  {
    n := if left > MAX_BYTES_TO_CONVERT then MAX_BYTES_TO_CONVERT / 3
         else if left == MAX_BYTES_TO_CONVERT then MAX_BYTES_TO_CONVERT / 3 - 1 else left / 3 + 1;
  }

  function Nulls(n: nat): seq<Byte> {
    seq(n, i => 0)
  }

  /** The text for the first of the bytes left. */
  function Text(connectionNo: nat, msgNo: nat, left: seq<Byte>): seq<Byte> {
    if left == [] then []
    else EncodeInt(msgNo) + EncodeInt(connectionNo) + EncodeBytes(left[..PieceLen(|left|)] + Nulls(Padding(|left|)))
  }

  lemma TextShape(connectionNo: nat, msgNo: nat, left: seq<Byte>)
    requires left != []
    ensures var text := Text(connectionNo, msgNo, left);
            4 < |text| <= SMS_MAX_SIZE && |text| % 4 == 0 &&
            DecodeInt(text[0], text[1]) == msgNo % NUMBER_LIMIT && DecodeInt(text[2], text[3]) == connectionNo % NUMBER_LIMIT &&
            (forall i :: 0 <= i < |text| ==> DecodeSMSChar(text[i]) != INVALID)
  {
    hide EncodeSMSChar, DecodeSMSChar, DecodeInt, PieceLen, Padding, EncodeBytes;
    IntRoundTrip(msgNo);
    IntRoundTrip(connectionNo);
    var bytes := left[..PieceLen(|left|)] + Nulls(Padding(|left|));
    var n := Groups(|left|);
    EncodedLen(bytes, n);
    EncodedIsInCode(bytes);
    CharRoundTrip(msgNo / 64 % 256);
    CharRoundTrip(msgNo % 256);
    CharRoundTrip(connectionNo / 64 % 256);
    CharRoundTrip(connectionNo % 256);
  }

  lemma {:induction false} EncodedLen(bytes: seq<Byte>, n: nat)
    requires |bytes| == 3 * n
    ensures |EncodeBytes(bytes)| == 4 * n
  {
    hide ConvertThree8Bytes;
    if n > 0 {
      EncodedLen(bytes[3..], n - 1);
      FourChars(Word(bytes[0], bytes[1], bytes[2]));
    }
  }

  lemma FourChars(w: nat)
    ensures |ConvertThree8Bytes(w)| == 4
  {
  }

  lemma {:induction false} EncodedIsInCode(bytes: seq<Byte>)
    ensures forall i :: 0 <= i < |EncodeBytes(bytes)| ==> DecodeSMSChar(EncodeBytes(bytes)[i]) != INVALID
  {
    hide EncodeSMSChar, DecodeSMSChar;
    if bytes != [] {
      var w := if |bytes| < 3 then 0 else Word(bytes[0], bytes[1], bytes[2]);
      CharRoundTrip(w / 0x40000 % 256);
      CharRoundTrip(w / 0x1000 % 256);
      CharRoundTrip(w / 0x40 % 256);
      CharRoundTrip(w % 256);
      if |bytes| >= 3 {
        EncodedIsInCode(bytes[3..]);
      }
    }
  }
}

/** Decoding one text into the receive buffer. */
module SmsDecoding {
  import opened Bytes
  import opened SmsCode

  const SMS_RX_BUFFER_SIZE: nat := 267

  datatype Progress = GoesOn | Ended | Invalid

  /** The bytes decoded so far, the length counted so far and whether decoding goes on. */
  datatype Decoded = Decoded(bytes: seq<Byte>, len: nat, progress: Progress)

  /** Decoding ends at the first null, and when the buffer is full. */
  function TakeByte(d: Decoded, b: Byte): Decoded {
    if !d.progress.GoesOn? then d
    else if b == 0 then d.(progress := Ended)
    else if d.len + 1 >= SMS_RX_BUFFER_SIZE then Decoded(d.bytes, d.len + 1, Ended)
    else Decoded(d.bytes + [b], d.len + 1, GoesOn)
  }

  function TakeThree(d: Decoded, w: nat): Decoded {
    TakeByte(TakeByte(TakeByte(d, w / 0x10000 % 256), w / 0x100 % 256), w % 256)
  }

  predicate InCode(four: seq<Byte>)
    requires |four| == 4
  {
    DecodeSMSChar(four[0]) != INVALID && DecodeSMSChar(four[1]) != INVALID &&
    DecodeSMSChar(four[2]) != INVALID && DecodeSMSChar(four[3]) != INVALID
  }

  function FourSixBits(four: seq<Byte>): nat
    requires |four| == 4
  {
    DecodeSMSChar(four[0]) * 0x40000 + DecodeSMSChar(four[1]) * 0x1000 + DecodeSMSChar(four[2]) * 0x40 + DecodeSMSChar(four[3])
  }

  function TakeFour(d: Decoded, four: seq<Byte>): Decoded
    requires |four| == 4
  {
    if !InCode(four) then d.(progress := Invalid) else TakeThree(d, FourSixBits(four))
  }

  function TakeText(d: Decoded, chars: seq<Byte>): Decoded
    decreases |chars|
  {
    if !d.progress.GoesOn? || |chars| < 4 then d else TakeText(TakeFour(d, chars[..4]), chars[4..])
  }

  predicate ValidLen(text: seq<Byte>) {
    |text| > 0 && |text| % 4 == 0 && |text| <= SMS_MAX_SIZE
  }

  /** What decoding a text adds to a buffer with the given length: nothing at all if the text is no good. */
  function DecodeCmd(text: seq<Byte>, len: nat): Decoded {
    if !ValidLen(text) then Decoded([], len, Invalid)
    else TakeText(Decoded([], len, GoesOn), text[4..])
  }

  /** The buffer a text has been decoded into: a null marks its length, bytes are stored from the front, and another null
      ends them, or marks the old length again if the text is no good. */
  function Stored(buffer: seq<Byte>, len: nat, d: Decoded): (r: seq<Byte>)
    requires len < |buffer| && |d.bytes| < |buffer|
    ensures |r| == |buffer|
  {
    (d.bytes + buffer[len := 0][|d.bytes|..])[if d.progress.Invalid? then len else |d.bytes| := 0]
  }

  lemma FourParts(w: nat)
    requires w < 0x1000000
    ensures w / 0x40000 % 64 * 0x40000 + w / 0x1000 % 64 * 0x1000 + w / 0x40 % 64 * 0x40 + w % 64 == w
  {
    assert w / 0x1000 / 64 == w / 0x40000 && w / 0x40 / 64 == w / 0x1000;
  }

  lemma BytesOfWord(a: Byte, b: Byte, c: Byte)
    ensures Word(a, b, c) < 0x1000000
    ensures Word(a, b, c) / 0x10000 % 256 == a && Word(a, b, c) / 0x100 % 256 == b && Word(a, b, c) % 256 == c
  {
  }

  lemma WordRoundTrip(w: nat)
    requires w < 0x1000000
    ensures InCode(ConvertThree8Bytes(w)) && FourSixBits(ConvertThree8Bytes(w)) == w
  {
    hide EncodeSMSChar, DecodeSMSChar;
    var a, b, c := w / 0x40000, w / 0x1000, w / 0x40;
    CharRoundTrip(a % 256);
    CharRoundTrip(b % 256);
    CharRoundTrip(c % 256);
    CharRoundTrip(w % 256);
    SixBitsOfByte(a);
    SixBitsOfByte(b);
    SixBitsOfByte(c);
    SixBitsOfByte(w);
    FourParts(w);
  }

  predicate NullFree(bytes: seq<Byte>) {
    0 !in bytes
  }

  lemma TakeEncoded(d: Decoded, bytes: seq<Byte>)
    requires |bytes| >= 3 && d.progress.GoesOn?
    ensures TakeText(d, EncodeBytes(bytes))
         == TakeText(TakeByte(TakeByte(TakeByte(d, bytes[0]), bytes[1]), bytes[2]), EncodeBytes(bytes[3..]))
  {
    hide Word, ConvertThree8Bytes, InCode, FourSixBits, TakeByte;
    var w := Word(bytes[0], bytes[1], bytes[2]);
    BytesOfWord(bytes[0], bytes[1], bytes[2]);
    WordRoundTrip(w);
    FourChars(w);
    var four, text := ConvertThree8Bytes(w), EncodeBytes(bytes);
    assert text == four + EncodeBytes(bytes[3..]);
    assert text[..4] == four && text[4..] == EncodeBytes(bytes[3..]);
  }

  /** Null-free bytes followed by nulls come back without the nulls, as long as they fit. */
  lemma {:induction false} TakeRoundTrip(d: Decoded, bytes: seq<Byte>, nulls: nat, n: nat)
    requires d.progress.GoesOn? && NullFree(bytes) && nulls <= 3 && |bytes| + nulls == 3 * n
    requires d.len + |bytes| < SMS_RX_BUFFER_SIZE
    ensures var t := TakeText(d, EncodeBytes(bytes + Nulls(nulls)));
            t.bytes == d.bytes + bytes && t.len == d.len + |bytes| && !t.progress.Invalid?
    decreases |bytes|
  {
    hide TakeText, EncodeBytes;
    var all := bytes + Nulls(nulls);
    if |bytes| >= 3 {
      TakeEncoded(d, all);
      var three := TakeByte(TakeByte(TakeByte(d, bytes[0]), bytes[1]), bytes[2]);
      assert three == Decoded(d.bytes + [bytes[0]] + [bytes[1]] + [bytes[2]], d.len + 3, GoesOn);
      assert all[3..] == bytes[3..] + Nulls(nulls);
      TakeRoundTrip(three, bytes[3..], nulls, n - 1);
      assert d.bytes + [bytes[0]] + [bytes[1]] + [bytes[2]] + bytes[3..] == d.bytes + bytes;
    } else {
      TakeLast(d, bytes, nulls);
    }
  }

  lemma TakeLast(d: Decoded, bytes: seq<Byte>, nulls: nat)
    requires d.progress.GoesOn? && NullFree(bytes) && |bytes| < 3 && |bytes| + nulls == (if nulls == 0 then 0 else 3)
    requires d.len + |bytes| < SMS_RX_BUFFER_SIZE
    ensures var t := TakeText(d, EncodeBytes(bytes + Nulls(nulls)));
            t.bytes == d.bytes + bytes && t.len == d.len + |bytes| && !t.progress.Invalid?
  {
    hide EncodeBytes, TakeFour;
    var all := bytes + Nulls(nulls);
    if all == [] {
      NothingEncoded(d);
      assert d.bytes + bytes == d.bytes;
    } else {
      assert |all| == 3 && all[3..] == [];
      TakeEncoded(d, all);
      NothingEncoded(TakeByte(TakeByte(TakeByte(d, all[0]), all[1]), all[2]));
      hide TakeText;
      if |bytes| == 1 {
        assert d.bytes + bytes == d.bytes + [bytes[0]];
      } else if |bytes| == 2 {
        assert d.bytes + bytes == d.bytes + [bytes[0]] + [bytes[1]];
      } else {
        assert d.bytes + bytes == d.bytes;
      }
    }
  }

  lemma NothingEncoded(d: Decoded)
    ensures TakeText(d, EncodeBytes([])) == d
  {
  }

  /** One text decodes to the piece it was made of. */
  lemma TextRoundTrip(connectionNo: nat, msgNo: nat, left: seq<Byte>)
    requires left != [] && NullFree(left)
    ensures var d := DecodeCmd(Text(connectionNo, msgNo, left), 0);
            d.bytes == left[..PieceLen(|left|)] && d.len == |d.bytes| && !d.progress.Invalid?
  {
    hide EncodeBytes, TakeText;
    TextShape(connectionNo, msgNo, left);
    var piece := left[..PieceLen(|left|)];
    var text := Text(connectionNo, msgNo, left);
    assert text[4..] == EncodeBytes(piece + Nulls(Padding(|left|)));
    var n := Groups(|left|);
    TakeRoundTrip(Decoded([], 0, GoesOn), piece, Padding(|left|), n);
    assert [] + piece == piece;
  }

  // ---- any text at all ----

  /** The characters of the code: a space, a plus sign, digits and letters. */
  predicate IsCodeChar(c: Byte) {
    c == 0x20 || c == 0x2b || 0x30 <= c <= 0x39 || 0x41 <= c <= 0x5a || 0x61 <= c <= 0x7a
  }

  lemma CodeCharsExactly(c: Byte)
    ensures DecodeSMSChar(c) != INVALID <==> IsCodeChar(c)
  {
  }

  /** A number with a character outside the code is 0. */
  lemma BadNumberIsZero(high: Byte, low: Byte)
    requires !IsCodeChar(high) || !IsCodeChar(low)
    ensures DecodeInt(high, low) == 0
  {
    CodeCharsExactly(high);
    CodeCharsExactly(low);
    hide DecodeSMSChar;
  }

  predicate GoodGroup(chars: seq<Byte>) {
    |chars| >= 4 && IsCodeChar(chars[0]) && IsCodeChar(chars[1]) && IsCodeChar(chars[2]) && IsCodeChar(chars[3])
  }

  /** All groups of four characters are of the code. */
  predicate AllGood(chars: seq<Byte>) {
    |chars| >= 4 ==> GoodGroup(chars) && AllGood(chars[4..])
  }

  /** The bytes of the groups in front of the first bad one. */
  function Plain(chars: seq<Byte>): seq<Byte> {
    if !GoodGroup(chars) then []
    else
      var w := FourSixBits(chars[..4]);
      [w / 0x10000 % 256, w / 0x100 % 256, w % 256] + Plain(chars[4..])
  }

  /** The place of the first byte that is not stored: a null, or one for which the buffer has no room. */
  function StopsAt(bytes: seq<Byte>, len: nat): (k: nat)
    ensures k <= |bytes| && (k < |bytes| ==> bytes[k] == 0 || len + k + 1 >= SMS_RX_BUFFER_SIZE)
    ensures forall i :: 0 <= i < k ==> bytes[i] != 0 && len + i + 1 < SMS_RX_BUFFER_SIZE
  {
    if bytes == [] || bytes[0] == 0 || len + 1 >= SMS_RX_BUFFER_SIZE then 0 else StopsAt(bytes[1..], len + 1) + 1
  }

  function Takes(d: Decoded, bytes: seq<Byte>): Decoded
    decreases |bytes|
  {
    if bytes == [] then d else Takes(TakeByte(d, bytes[0]), bytes[1..])
  }

  lemma {:induction false} TakesAppend(d: Decoded, a: seq<Byte>, b: seq<Byte>)
    ensures Takes(d, a + b) == Takes(Takes(d, a), b)
    decreases |a|
  {
    hide TakeByte;
    if a == [] {
      assert a + b == b;
    } else {
      assert (a + b)[1..] == a[1..] + b;
      TakesAppend(TakeByte(d, a[0]), a[1..], b);
    }
  }

  lemma {:induction false} TakesNoMore(d: Decoded, bytes: seq<Byte>)
    requires !d.progress.GoesOn?
    ensures Takes(d, bytes) == d
    decreases |bytes|
  {
    if bytes != [] {
      TakesNoMore(d, bytes[1..]);
    }
  }

  lemma {:induction false} TakesExactly(d: Decoded, bytes: seq<Byte>)
    requires d.progress.GoesOn?
    ensures var k, t := StopsAt(bytes, d.len), Takes(d, bytes);
            t.bytes == d.bytes + bytes[..k] &&
            if k == |bytes| then t.progress.GoesOn? && t.len == d.len + k
            else t.progress.Ended? && t.len == d.len + k + (if bytes[k] == 0 then 0 else 1)
    decreases |bytes|
  {
    if bytes == [] {
      assert d.bytes + [] == d.bytes;
    } else {
      var next := TakeByte(d, bytes[0]);
      if next.progress.GoesOn? {
        var k := StopsAt(bytes[1..], d.len + 1);
        TakesExactly(next, bytes[1..]);
        assert d.bytes + [bytes[0]] + bytes[1..][..k] == d.bytes + bytes[..k + 1];
      } else {
        TakesNoMore(next, bytes[1..]);
        assert d.bytes + bytes[..0] == d.bytes;
      }
    }
  }

  lemma GroupTaken(d: Decoded, chars: seq<Byte>)
    requires |chars| >= 4
    ensures var w := FourSixBits(chars[..4]);
            TakeFour(d, chars[..4]) == if GoodGroup(chars) then Takes(d, [w / 0x10000 % 256, w / 0x100 % 256, w % 256]) else d.(progress := Invalid)
  {
    CodeCharsExactly(chars[0]);
    CodeCharsExactly(chars[1]);
    CodeCharsExactly(chars[2]);
    CodeCharsExactly(chars[3]);
    var w := FourSixBits(chars[..4]);
    hide IsCodeChar, DecodeSMSChar, FourSixBits, TakeByte;
    ThreeTaken(d, w / 0x10000 % 256, w / 0x100 % 256, w % 256);
  }

  lemma ThreeTaken(d: Decoded, a: Byte, b: Byte, c: Byte)
    ensures Takes(d, [a, b, c]) == TakeByte(TakeByte(TakeByte(d, a), b), c)
  {
    hide TakeByte;
    assert [a, b, c][1..] == [b, c] && [b, c][1..] == [c] && [c][1..] == [];
    var two := TakeByte(TakeByte(d, a), b);
    assert Takes(two, [c]) == TakeByte(two, c);
    assert Takes(TakeByte(d, a), [b, c]) == Takes(two, [c]);
  }

  lemma {:induction false} TextTaken(d: Decoded, chars: seq<Byte>)
    requires d.progress.GoesOn?
    ensures var t := Takes(d, Plain(chars));
            TakeText(d, chars) == if t.progress.GoesOn? && !AllGood(chars) then t.(progress := Invalid) else t
    decreases |chars|
  {
    hide GoodGroup, FourSixBits, TakeFour, TakeByte;
    if |chars| < 4 {
      assert !GoodGroup(chars) by {
        ShortIsNoGroup(chars);
      }
    } else {
      GroupTaken(d, chars);
      var next := TakeFour(d, chars[..4]);
      if GoodGroup(chars) {
        var w := FourSixBits(chars[..4]);
        TakesAppend(d, [w / 0x10000 % 256, w / 0x100 % 256, w % 256], Plain(chars[4..]));
        if next.progress.GoesOn? {
          TextTaken(next, chars[4..]);
        } else {
          TakesNoMore(next, Plain(chars[4..]));
        }
      }
    }
  }

  lemma ShortIsNoGroup(chars: seq<Byte>)
    requires |chars| < 4
    ensures !GoodGroup(chars)
  {
  }

  /** Decoding any text into a buffer of any counted length: the bytes up to the first null, up to the first group with a
      character outside the code, or as many as there is room for; and exactly when it is no good. */
  lemma {:induction false} DecodedExactly(text: seq<Byte>, len: nat)
    ensures var d, bytes := DecodeCmd(text, len), if ValidLen(text) then Plain(text[4..]) else [];
            var k := StopsAt(bytes, len);
            d.bytes == bytes[..k] && d.len == len + k + (if k < |bytes| && bytes[k] != 0 then 1 else 0) &&
            (d.progress.Invalid? <==> !ValidLen(text) || (k == |bytes| && !AllGood(text[4..])))
  {
    if ValidLen(text) {
      hide Plain, AllGood, TakeText, Takes;
      TextTaken(Decoded([], len, GoesOn), text[4..]);
      TakesExactly(Decoded([], len, GoesOn), Plain(text[4..]));
      var bytes, none: seq<Byte> := Plain(text[4..]), [];
      assert none + bytes[..StopsAt(bytes, len)] == bytes[..StopsAt(bytes, len)];
    }
  }
}
