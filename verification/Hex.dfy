/** Hex digits of bytes and back. */
module Hex {
  import opened Bytes

  function Digit(n: nat): Byte
    requires n < 16
  {
    if n >= 10 then n - 10 + 0x41 else n + 0x30
  }

  predicate IsDigit(c: Byte) {
    0x30 <= c <= 0x39 || 0x41 <= c <= 0x46
  }

  /** Two upper-case digits a byte. */
  function HexChars(bytes: seq<Byte>): (chars: seq<Byte>)
    ensures |chars| == 2 * |bytes|
  {
    if bytes == [] then [] else [Digit(bytes[0] / 16), Digit(bytes[0] % 16)] + HexChars(bytes[1..])
  }

  /** What a character counts for; one that is no digit counts for something too, as a byte. */
  function Value(c: Byte): Byte {
    (if c >= 0x61 then c - 0x61 + 10 else if c >= 0x41 then c - 0x41 + 10 else c - 0x30) % 256
  }

  function High(c: Byte): Byte {
    Value(c) * 16 % 256
  }

  function Pair(c: Byte, d: Byte): Byte {
    (High(c) + Value(d)) % 256
  }

  /** The bytes of pairs of digits; the digits stop at a null or, after a pair, once max bytes are there. An odd digit
      counts as followed by a 0. */
  function HexBytes(chars: seq<Byte>, max: int): seq<Byte>
    decreases |chars|
  {
    if chars == [] || chars[0] == 0 then []
    else if |chars| == 1 || chars[1] == 0 then [High(chars[0])]
    else [Pair(chars[0], chars[1])] + (if max <= 1 then [] else HexBytes(chars[2..], max - 1))
  }

  lemma DigitValue(n: nat)
    requires n < 16
    ensures Value(Digit(n)) == n && IsDigit(Digit(n))
  {
  }

  lemma DigitRoundTrip(b: Byte)
    ensures Pair(Digit(b / 16), Digit(b % 16)) == b
    ensures Digit(b / 16) >= 0x30 && Digit(b % 16) >= 0x30
  {
    hide Value, Digit;
    DigitValue(b / 16);
    DigitValue(b % 16);
    var high := b / 16;
    assert high * 16 % 256 == high * 16;
  }

  /** Reading back as many bytes as were written gives those bytes. */
  lemma {:induction false} HexRoundTrip(bytes: seq<Byte>)
    requires bytes != []
    ensures HexBytes(HexChars(bytes), |bytes|) == bytes
  {
    hide Pair, Digit, High;
    DigitRoundTrip(bytes[0]);
    var chars := HexChars(bytes);
    assert chars[2..] == HexChars(bytes[1..]);
    if |bytes| > 1 {
      HexRoundTrip(bytes[1..]);
    }
  }

  /** Two digits a byte, unless there is a null among them. */
  lemma {:induction false} HexBytesLen(chars: seq<Byte>, max: nat)
    requires |chars| == 2 * max && max > 0
    ensures 0 !in chars ==> |HexBytes(chars, max)| == max
    ensures 0 in chars[..2 * max - 1] ==> |HexBytes(chars, max)| < max
  {
    hide Pair, High;
    if chars[0] != 0 && chars[1] != 0 && max > 1 {
      HexBytesLen(chars[2..], max - 1);
      assert chars == chars[..2] + chars[2..];
      assert chars[..2 * max - 1] == chars[..2] + chars[2..][..2 * (max - 1) - 1];
    }
  }

  lemma {:induction false} HexCharsAreDigits(bytes: seq<Byte>)
    ensures forall i :: 0 <= i < |HexChars(bytes)| ==> IsDigit(HexChars(bytes)[i])
  {
    hide HexChars;
    if bytes != [] {
      HexCharsAreDigits(bytes[1..]);
      HexCharsStep(bytes);
      var chars := HexChars(bytes);
      forall i | 0 <= i < |chars| ensures IsDigit(chars[i]) {
        if i >= 2 {
          assert chars[i] == HexChars(bytes[1..])[i - 2];
        }
      }
    }
  }

  lemma HexCharsStep(bytes: seq<Byte>)
    requires bytes != []
    ensures HexChars(bytes) == [Digit(bytes[0] / 16), Digit(bytes[0] % 16)] + HexChars(bytes[1..])
  {
  }

  /** One more byte at the end. */
  lemma {:induction false} HexCharsAppend(bytes: seq<Byte>, b: Byte)
    ensures HexChars(bytes + [b]) == HexChars(bytes) + [Digit(b / 16), Digit(b % 16)]
  {
    hide Digit;
    if bytes == [] {
      assert [b][1..] == [];
    } else {
      assert (bytes + [b])[1..] == bytes[1..] + [b];
      HexCharsAppend(bytes[1..], b);
    }
  }

  /** Writes the digits of the bytes, as many as fit before the terminating null. */
  method HexToAscii(hex: array<Byte>, hexLen: nat, str: array<Byte>, maxStrLen: nat) returns (j: nat)
    requires hexLen <= hex.Length && 1 <= maxStrLen <= str.Length && hex != str
    modifies str
    ensures j == (if 2 * hexLen <= maxStrLen - 1 then 2 * hexLen else maxStrLen - 1)
    ensures str[..j] == HexChars(hex[..hexLen])[..j] && str[j] == 0
  {
    hide Digit, HexChars;
    j := 0;
    var maxLen := maxStrLen - 1;
    ghost var all := HexChars(hex[..hexLen]);
    for i := 0 to hexLen
      invariant j == 2 * i <= maxLen && str[..j] == all[..j]
    {
      HexCharsAt(hex[..hexLen], i);
      if j >= maxLen {
        break;
      }
      var b := hex[i] / 16;
      str[j] := Digit(b);
      j := j + 1;
      if j >= maxLen {
        break;
      }
      b := hex[i] % 16;
      str[j] := Digit(b);
      j := j + 1;
    }
    str[j] := 0;
  }

  lemma {:induction false} HexCharsAt(bytes: seq<Byte>, i: nat)
    requires i < |bytes|
    ensures HexChars(bytes)[2 * i] == Digit(bytes[i] / 16) && HexChars(bytes)[2 * i + 1] == Digit(bytes[i] % 16)
  {
    hide Digit;
    if i > 0 {
      HexCharsAt(bytes[1..], i - 1);
    }
  }

  /** A terminating null adds nothing. */
  lemma {:induction false} NullEnds(chars: seq<Byte>, max: int)
    ensures HexBytes(chars + [0], max) == HexBytes(chars, max)
    decreases |chars|
  {
    hide Pair, High;
    var all := chars + [0];
    if |chars| >= 2 {
      assert all[2..] == chars[2..] + [0];
      NullEnds(chars[2..], max - 1);
    }
  }

  method AddDigit(a: array<Byte>, at: nat, c: Byte)
    requires at < a.Length
    modifies a
    ensures a[..] == old(a[..])[at := (old(a[at]) + Value(c)) % 256]
  {
    var digit: int := if c >= 0x61 then c - 0x61 + 10 else if c >= 0x41 then c - 0x41 + 10 else c - 0x30;
    var was: int := a[at];
    a[at] := (was + digit) % 256;
  }

  method FirstDigit(a: array<Byte>, at: nat, c: Byte)
    requires at < a.Length
    modifies a
    ensures a[..] == old(a[..])[at := High(c)]
  {
    a[at] := 0;
    AddDigit(a, at, c);
    var was: int := a[at];
    a[at] := was * 16 % 256;
  }

  /** What reading has got to: the bytes of the pairs read, and perhaps a first digit of the next pair. */
  ghost predicate Reading(now: seq<Byte>, all: seq<Byte>, str: nat, result: nat, first: bool, max: int)
    requires str < |now| == |all|
  {
    now[str..] == all[str..] && str == 2 * result + (if first then 0 else 1) && (result == 0 || result < max) &&
    (!first ==> all[str - 1] != 0 && now[result] == High(all[str - 1])) &&
    now[..result] + HexBytes(all[2 * result..], max - result) == HexBytes(all, max)
  }

  lemma ReadFirst(now: seq<Byte>, all: seq<Byte>, str: nat, result: nat, max: int)
    requires str + 1 < |now| == |all| && Reading(now, all, str, result, true, max) && now[str] != 0
    ensures Reading(now[result := High(now[str])], all, str + 1, result, false, max)
  {
    hide HexBytes, High;
    var after := now[result := High(now[str])];
    assert now[str] == all[str] by {
      assert now[str..][0] == all[str..][0];
    }
    assert after[str + 1..] == now[str..][1..] == all[str + 1..];
    assert after[..result] == now[..result];
  }

  lemma {:induction false} ReadSecond(now: seq<Byte>, all: seq<Byte>, str: nat, result: nat, max: int)
    requires str < |now| == |all| && Reading(now, all, str, result, false, max) && now[str] != 0
    ensures var after := now[result := (now[result] + Value(now[str])) % 256];
            if result + 1 >= max then after[..result + 1] == HexBytes(all, max)
            else str + 1 < |now| ==> Reading(after, all, str + 1, result + 1, true, max)
  {
    hide HexBytes, High, Value;
    var after := now[result := (now[result] + Value(now[str])) % 256];
    var rest := all[2 * result..];
    assert now[str] == all[str] == rest[1] by {
      assert now[str..][0] == all[str..][0];
    }
    PairStep(rest, max - result);
    assert after[result] == Pair(rest[0], rest[1]);
    assert after[..result + 1] == now[..result] + [Pair(rest[0], rest[1])];
    assert rest[2..] == all[2 * (result + 1)..];
    assert after[str + 1..] == now[str..][1..] == all[str + 1..];
    if result + 1 >= max {
      assert [Pair(rest[0], rest[1])] + [] == [Pair(rest[0], rest[1])];
    }
  }

  lemma ReadEnds(now: seq<Byte>, all: seq<Byte>, str: nat, result: nat, first: bool, max: int)
    requires str < |now| == |all| && Reading(now, all, str, result, first, max) && now[str] == 0
    ensures now[..if first then result else result + 1] == HexBytes(all, max)
  {
    hide High;
    assert all[str] == 0 by {
      assert now[str..][0] == all[str..][0];
    }
    LastStep(all[2 * result..], max - result);
    hide HexBytes;
    assert now[..result] + [] == now[..result];
    if !first {
      assert now[..result + 1] == now[..result] + [High(all[str - 1])];
    }
  }

  /** Reads digits up to the null and writes their bytes over the same array from its start. */
  method AsciiToHex(a: array<Byte>, max: nat) returns (i: nat)
    requires 0 in a[..]
    modifies a
    ensures i == |HexBytes(old(a[..]), max)| <= a.Length && a[..i] == HexBytes(old(a[..]), max)
  {
    hide High, Value, HexBytes, Reading;
    ghost var all := a[..];
    ghost var end :| 0 <= end < |all| && all[end] == 0;
    i := 0;
    var str: nat := 0;
    var result: nat := 0;
    var firstHexDigit := true;
    ReadingStarts(all, max);
    while a[str] != 0
      invariant str <= end && all == old(a[..]) && str == 2 * result + (if firstHexDigit then 0 else 1)
      invariant i == if firstHexDigit then result else result + 1
      invariant Reading(a[..], all, str, result, firstHexDigit, max)
      decreases end - str
    {
      NotAtEnd(a[..], all, str, result, firstHexDigit, max, end);
      var c := a[str];
      str := str + 1;
      if firstHexDigit {
        ReadFirst(a[..], all, str - 1, result, max);
        FirstDigit(a, result, c);
        i := i + 1;
      } else {
        ReadSecond(a[..], all, str - 1, result, max);
        AddDigit(a, result, c);
        result := result + 1;
        if i >= max {
          return;
        }
      }
      firstHexDigit := !firstHexDigit;
    }
    ReadEnds(a[..], all, str, result, firstHexDigit, max);
  }

  lemma ReadingStarts(all: seq<Byte>, max: int)
    requires all != []
    ensures Reading(all, all, 0, 0, true, max)
  {
    assert all[..0] + HexBytes(all[0..], max) == HexBytes(all, max);
  }

  lemma NotAtEnd(now: seq<Byte>, all: seq<Byte>, str: nat, result: nat, first: bool, max: int, end: nat)
    requires str <= end < |now| == |all| && all[end] == 0 && Reading(now, all, str, result, first, max) && now[str] != 0
    ensures str < end
  {
    assert now[str] == now[str..][0] == all[str..][0] == all[str];
  }

  lemma PairStep(chars: seq<Byte>, max: int)
    requires |chars| >= 2 && chars[0] != 0 && chars[1] != 0
    ensures HexBytes(chars, max) == [Pair(chars[0], chars[1])] + (if max <= 1 then [] else HexBytes(chars[2..], max - 1))
  {
  }

  lemma LastStep(chars: seq<Byte>, max: int)
    requires chars != []
    ensures chars[0] == 0 ==> HexBytes(chars, max) == []
    ensures chars[0] != 0 && |chars| >= 2 && chars[1] == 0 ==> HexBytes(chars, max) == [High(chars[0])]
  {
  }
}
