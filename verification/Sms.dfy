/** The buffers of the SMS object and the methods that fill them. */
module Sms {
  import opened Bytes
  import opened SmsCode
  import opened SmsDecoding
  import opened SmsSending

  /** The length of the null-terminated string that starts at a position. */
  method StrLen(a: array<Byte>, from: nat) returns (n: nat)
    requires exists i :: from <= i < a.Length && a[i] == 0
    ensures from + n < a.Length && a[from + n] == 0 && a[from..from + n] == UpToNull(a[from..])
  {
    n := 0;
    while a[from + n] != 0
      invariant from + n < a.Length
      invariant exists i :: from + n <= i < a.Length && a[i] == 0
      invariant 0 !in a[from..from + n]
      decreases a.Length - n
    {
      n := n + 1;
    }
    assert a[from..][..n] == a[from..from + n];
    UpToNullStops(a[from..], n);
  }

  class PfodSms {
    const txBuffer: array<Byte>
    const bytesToConvert: array<Byte>
    const responseSMSbuffer: array<Byte>
    var txBufferIdx: nat
    var txBufferLen: nat
    var connectionNo: nat
    var msgNoTx: nat
    var msgNoTxNewMsg: nat
    var msgNoTxResend: nat
    var sendingResponse: bool
    var sendingResend: bool
    var resendLastResponse: bool
    var responseSet: bool

    ghost predicate Shape() {
      txBuffer.Length == SMS_TX_BUFFER_SIZE + 1 && bytesToConvert.Length == MAX_BYTES_TO_CONVERT + 1 &&
      responseSMSbuffer.Length == SMS_MAX_SIZE + 1 &&
      txBuffer != bytesToConvert && txBuffer != responseSMSbuffer && bytesToConvert != responseSMSbuffer
    }

    ghost function View(): Sender
      reads this, txBuffer, responseSMSbuffer
    {
      Sender(txBuffer[..], txBufferIdx, txBufferLen, connectionNo, msgNoTx, msgNoTxNewMsg, msgNoTxResend,
             sendingResponse, sendingResend, resendLastResponse, responseSet, UpToNull(responseSMSbuffer[..]))
    }

    ghost predicate Valid()
      reads this, txBuffer, responseSMSbuffer
    {
      Shape() && View().Valid()
    }

    constructor (connection: nat)
      ensures Valid() && fresh(txBuffer) && fresh(bytesToConvert) && fresh(responseSMSbuffer)
      ensures View().text == [] && !View().Sending() && !responseSet && !resendLastResponse && txBufferIdx == txBufferLen == 0
      ensures connectionNo == connection && msgNoTx == msgNoTxNewMsg == msgNoTxResend == 1
    {
      txBuffer := new Byte[SMS_TX_BUFFER_SIZE + 1](_ => 0);
      bytesToConvert := new Byte[MAX_BYTES_TO_CONVERT + 1](_ => 0);
      responseSMSbuffer := new Byte[SMS_MAX_SIZE + 1](_ => 0);
      txBufferIdx, txBufferLen, connectionNo := 0, 0, connection;
      msgNoTx, msgNoTxNewMsg, msgNoTxResend := 1, 1, 1;
      sendingResponse, sendingResend, resendLastResponse, responseSet := false, false, false, false;
    }

    /** Two characters for a number. */
    method EncodeNumber(number: nat, idx: nat) returns (next: nat)
      requires Shape() && idx + 2 <= SMS_MAX_SIZE
      modifies responseSMSbuffer
      ensures next == idx + 2 && responseSMSbuffer[..next] == old(responseSMSbuffer[..idx]) + EncodeInt(number)
    {
      responseSMSbuffer[idx] := EncodeSMSChar(number / 64 % 256);
      responseSMSbuffer[idx + 1] := EncodeSMSChar(number % 256);
      next := idx + 2;
    }

    /** Four characters for three bytes. */
    method EncodeThree(w: nat, idx: nat) returns (next: nat)
      requires Shape() && idx + 4 <= SMS_MAX_SIZE
      modifies responseSMSbuffer
      ensures next == idx + 4 && responseSMSbuffer[..next] == old(responseSMSbuffer[..idx]) + ConvertThree8Bytes(w)
    {
      hide EncodeSMSChar;
      responseSMSbuffer[idx] := EncodeSMSChar(w / 0x40000 % 256);
      responseSMSbuffer[idx + 1] := EncodeSMSChar(w / 0x1000 % 256);
      responseSMSbuffer[idx + 2] := EncodeSMSChar(w / 0x40 % 256);
      responseSMSbuffer[idx + 3] := EncodeSMSChar(w % 256);
      next := idx + 4;
    }

    /** Copies the next piece of the response and pads it. */
    method TakePiece(idx: nat, len: nat, padding: nat)
      requires Shape() && idx + len <= txBuffer.Length && len + padding <= MAX_BYTES_TO_CONVERT
      modifies bytesToConvert
      ensures bytesToConvert[..len + padding] == txBuffer[idx..idx + len] + Nulls(padding)
    {
      for i := 0 to len
        invariant bytesToConvert[..i] == txBuffer[idx..idx + i]
      {
        bytesToConvert[i] := txBuffer[idx + i];
      }
      for i := 0 to padding
        invariant bytesToConvert[..len + i] == txBuffer[idx..idx + len] + Nulls(i)
      {
        bytesToConvert[len + i] := 0;
      }
    }

    /** Makes the text for the rest of the response that starts at idx; nothing to send makes the empty text. */
    method EncodeSMS(msgNo: nat, idx: nat) returns (next: nat)
      requires Shape() && exists i :: idx <= i < txBuffer.Length && txBuffer[i] == 0
      modifies bytesToConvert, responseSMSbuffer
      ensures var left := UpToNull(txBuffer[idx..]);
              next == idx + PieceLen(|left|) && UpToNull(responseSMSbuffer[..]) == Text(connectionNo, msgNo, left)
    {
      hide EncodeBytes, EncodeInt, EncodeSMSChar, ConvertThree8Bytes, UpToNull;
      var len := StrLen(txBuffer, idx);
      ghost var left, whole := UpToNull(txBuffer[idx..]), txBuffer[idx..idx + len];
      assert left == whole;
      responseSMSbuffer[0] := 0;
      if len == 0 {
        UpToNullStops(responseSMSbuffer[..], 0);
        return idx;
      }
      var padding := 0;
      if len > MAX_BYTES_TO_CONVERT {
        len := MAX_BYTES_TO_CONVERT;
      } else if len == MAX_BYTES_TO_CONVERT {
        len := MAX_BYTES_TO_CONVERT - 3;
      } else {
        padding := 3 - len % 3;
      }
      assert len == PieceLen(|left|) && padding == Padding(|left|);
      assert txBuffer[idx..idx + len] == whole[..len] == left[..len];
      ghost var n := Groups(|left|);
      TakePiece(idx, len, padding);
      next := idx + len;
      len := len + padding;
      ghost var bytes := bytesToConvert[..len];
      EncodeHeaderAndBytes(msgNo, len, n);
      TextShape(connectionNo, msgNo, left);
      assert 4 * n + 4 == |Text(connectionNo, msgNo, left)| by {
        EncodedLen(bytes, n);
      }
      TextEnds(responseSMSbuffer[..], 4 * n + 4);
    }

    /** Writes the numbers, the characters for the bytes to convert, and the terminating null. */
    method EncodeHeaderAndBytes(msgNo: nat, len: nat, ghost n: nat)
      requires Shape() && len == 3 * n && 0 < n && len <= MAX_BYTES_TO_CONVERT
      modifies responseSMSbuffer
      ensures responseSMSbuffer[..4 * n + 4] == EncodeInt(msgNo) + EncodeInt(connectionNo) + EncodeBytes(bytesToConvert[..len])
      ensures responseSMSbuffer[4 * n + 4] == 0
    {
      hide EncodeInt, EncodeSMSChar, ConvertThree8Bytes, Word, EncodeBytes;
      ghost var bytes := bytesToConvert[..len];
      var idx := EncodeNumber(msgNo, 0);
      idx := EncodeNumber(connectionNo, idx);
      ghost var header := responseSMSbuffer[..idx];
      assert header == EncodeInt(msgNo) + EncodeInt(connectionNo);
      var i := 0;
      ghost var k := 0;
      while i < len
        invariant i == 3 * k && k <= n && idx == 4 * k + 4
        invariant responseSMSbuffer[..idx] + EncodeBytes(bytes[i..]) == header + EncodeBytes(bytes)
      {
        var w := Word(bytesToConvert[i], bytesToConvert[i + 1], bytesToConvert[i + 2]);
        EncodeOneMore(bytes, i);
        ghost var sofar := responseSMSbuffer[..idx];
        idx := EncodeThree(w, idx);
        assert sofar + (ConvertThree8Bytes(w) + EncodeBytes(bytes[i + 3..])) == sofar + ConvertThree8Bytes(w) + EncodeBytes(bytes[i + 3..]);
        i := i + 3;
        k := k + 1;
      }
      assert bytes[i..] == [] && EncodeBytes([]) == [] by {
        NothingEncodes();
      }
      assert responseSMSbuffer[..idx] + [] == responseSMSbuffer[..idx];
      responseSMSbuffer[idx] := 0;
    }

    method SendNextSMS()
      requires Shape() && View().Valid()
      modifies this, bytesToConvert, responseSMSbuffer
      ensures Shape() && View() == SendNext(old(View()))
    {
      hide Text, UpToNull;
      if txBufferIdx >= txBufferLen {
        return;
      }
      assert txBuffer[txBufferLen] == 0;
      var idx := EncodeSMS(msgNoTx, txBufferIdx);
      msgNoTx := msgNoTx + 1;
      txBufferIdx := idx;
    }

    method ClearTxBuffer()
      requires Valid()
      modifies this, txBuffer
      ensures Valid() && View() == ClearTx(old(View()))
    {
      hide UpToNull;
      txBuffer[SMS_TX_BUFFER_SIZE] := 0;
      txBuffer[0] := 0;
      txBufferLen := 0;
      txBufferIdx := 0;
      assert txBuffer[..] == old(txBuffer[..])[0 := 0];
    }

    /** Ends the response and starts sending it. */
    method FlushResponse()
      requires Shape() && View().Buffered()
      modifies this, txBuffer, bytesToConvert, responseSMSbuffer
      ensures Valid() && View() == Flush(old(View()))
    {
      hide SendNext, UpToNull;
      txBuffer[txBufferIdx] := 0;
      assert txBuffer[..] == old(txBuffer[..])[txBufferIdx := 0];
      txBufferLen := txBufferIdx;
      txBufferIdx := 0;
      sendingResponse := true;
      sendingResend := false;
      responseSet := true;
      msgNoTx := msgNoTxNewMsg;
      msgNoTxResend := msgNoTxNewMsg;
      SendNextSMS();
    }

    /** One byte of the response; without a connection, while sending and after the response nothing is taken. */
    method WriteByte(b: Byte, connected: bool)
      requires Valid()
      modifies this, txBuffer, bytesToConvert, responseSMSbuffer
      ensures Valid() && View() == Write(old(View()), b, connected)
    {
      hide Flush, UpToNull;
      if !sendingResponse && !connected && !sendingResend {
        ClearTxBuffer();
        return;
      }
      if sendingResponse || sendingResend || resendLastResponse {
        return;
      }
      if responseSet {
        return;
      }
      txBuffer[txBufferIdx] := b;
      assert txBuffer[..] == old(txBuffer[..])[txBufferIdx := b];
      txBufferIdx := txBufferIdx + 1;
      if txBufferIdx >= SMS_TX_MSG_SIZE {
        FlushResponse();
      }
    }

    /** The modem's prompt: the waiting text goes out, and with the last one sending is over. */
    method PromptFound() returns (out: seq<Byte>)
      requires Valid()
      modifies this, responseSMSbuffer
      ensures Valid() && out == old(View()).text && View() == Prompt(old(View()))
    {
      hide UpToNull;
      HeadOfString(responseSMSbuffer[..]);
      out := [];
      if responseSMSbuffer[0] != 0 {
        var n := 0;
        ghost var all := responseSMSbuffer[..];
        while n < responseSMSbuffer.Length && responseSMSbuffer[n] != 0
          modifies {}
          invariant n <= responseSMSbuffer.Length && out + UpToNull(all[n..]) == UpToNull(all)
        {
          HeadOfString(all[n..]);
          assert all[n..][1..] == all[n + 1..];
          out := out + [responseSMSbuffer[n]];
          n := n + 1;
        }
        HeadOfString(all[n..]);
        responseSMSbuffer[0] := 0;
        HeadOfString(responseSMSbuffer[..]);
        if txBufferIdx >= txBufferLen {
          if sendingResponse {
            msgNoTxNewMsg := msgNoTx;
          }
          sendingResponse := false;
          sendingResend := false;
        }
      }
    }

    /** The modem is free and has no message to fetch. */
    method OkFound()
      requires Valid()
      modifies this, bytesToConvert, responseSMSbuffer
      ensures Valid() && View() == FoundOk(old(View()))
    {
      hide SendNext, UpToNull;
      HeadOfString(responseSMSbuffer[..]);
      if responseSMSbuffer[0] != 0 {
        return;
      }
      if sendingResponse {
        resendLastResponse := false;
        sendingResend := false;
        SendNextSMS();
      } else if sendingResend {
        resendLastResponse := false;
        SendNextSMS();
      } else if resendLastResponse {
        resendLastResponse := false;
        msgNoTx := msgNoTxResend;
        sendingResend := true;
        txBufferIdx := 0;
        SendNextSMS();
      }
    }
  }

  lemma EncodeOneMore(bytes: seq<Byte>, i: nat)
    requires i + 3 <= |bytes|
    ensures EncodeBytes(bytes[i..]) == ConvertThree8Bytes(Word(bytes[i], bytes[i + 1], bytes[i + 2])) + EncodeBytes(bytes[i + 3..])
  {
    hide ConvertThree8Bytes, Word;
    assert bytes[i..][3..] == bytes[i + 3..];
  }

  lemma NothingEncodes()
    ensures EncodeBytes([]) == []
  {
  }

  lemma HeadOfString(s: seq<Byte>)
    ensures s == [] || s[0] == 0 ==> UpToNull(s) == []
    ensures s != [] && s[0] != 0 ==> UpToNull(s) == [s[0]] + UpToNull(s[1..])
  {
  }

  /** The buffer ends where its null is, since no character of the code is null. */
  lemma TextEnds(buffer: seq<Byte>, n: nat)
    requires n < |buffer| && buffer[n] == 0 && forall i :: 0 <= i < n ==> DecodeSMSChar(buffer[i]) != INVALID
    ensures UpToNull(buffer) == buffer[..n]
  {
    forall i | 0 <= i < n ensures buffer[i] != 0 {
      assert DecodeSMSChar(buffer[i]) != INVALID;
    }
    assert NullFree(buffer[..n]);
    UpToNullStops(buffer, n);
  }

  /** The buffer holds what has been decoded so far, and the rest of it is as it was. */
  ghost predicate IsDecoded(d: Decoded, buffer: seq<Byte>, was: seq<Byte>, idx: nat, len: nat, stop: bool) {
    idx <= len && idx < |buffer| == |was| && d.bytes == buffer[..idx] && buffer[idx..] == was[idx..] && d.len == len &&
    !d.progress.Invalid? && stop == !d.progress.GoesOn?
  }

  lemma RestIsAsItWas(a: seq<Byte>, b: seq<Byte>, i: nat, j: nat)
    requires i <= j <= |a| == |b| && a[i..] == b[i..]
    ensures a[j..] == b[j..]
  {
    assert a[j..] == a[i..][j - i..] && b[j..] == b[i..][j - i..];
  }

  /** Stores one decoded byte, unless it is null or the buffer is full. */
  method TakeByteInto(decoded: array<Byte>, b: Byte, idx: nat, len: nat, found: bool) returns (nextIdx: nat, nextLen: nat, nextFound: bool, stop: bool)
    requires idx <= len && idx < decoded.Length == SMS_RX_BUFFER_SIZE + 1 && found == (CLOSE_BRACE in decoded[..idx])
    modifies decoded
    ensures IsDecoded(TakeByte(Decoded(old(decoded[..idx]), len, GoesOn), b), decoded[..], old(decoded[..]), nextIdx, nextLen, stop)
    ensures idx <= nextIdx && nextFound == (CLOSE_BRACE in decoded[..nextIdx])
  {
    nextIdx, nextLen, nextFound, stop := idx, len, found, true;
    if b == 0 {
      return;
    }
    nextLen := len + 1;
    if nextLen >= SMS_RX_BUFFER_SIZE {
      return;
    }
    nextFound := found || b == CLOSE_BRACE;
    decoded[idx] := b;
    nextIdx := idx + 1;
    stop := false;
    assert decoded[..nextIdx] == old(decoded[..idx]) + [b];
  }

  /** The three bytes of four characters. */
  method TakeThreeInto(decoded: array<Byte>, w: nat, idx: nat, len: nat, found: bool) returns (nextIdx: nat, nextLen: nat, nextFound: bool, stop: bool)
    requires idx <= len && idx < decoded.Length == SMS_RX_BUFFER_SIZE + 1 && found == (CLOSE_BRACE in decoded[..idx])
    modifies decoded
    ensures IsDecoded(TakeThree(Decoded(old(decoded[..idx]), len, GoesOn), w), decoded[..], old(decoded[..]), nextIdx, nextLen, stop)
    ensures idx <= nextIdx && nextFound == (CLOSE_BRACE in decoded[..nextIdx])
  {
    ghost var was := decoded[..];
    nextIdx, nextLen, nextFound, stop := TakeByteInto(decoded, w / 0x10000 % 256, idx, len, found);
    if stop {
      return;
    }
    ghost var first := decoded[..];
    ghost var i := nextIdx;
    nextIdx, nextLen, nextFound, stop := TakeByteInto(decoded, w / 0x100 % 256, nextIdx, nextLen, nextFound);
    RestIsAsItWas(first, was, i, nextIdx);
    if stop {
      return;
    }
    ghost var second := decoded[..];
    i := nextIdx;
    nextIdx, nextLen, nextFound, stop := TakeByteInto(decoded, w % 256, nextIdx, nextLen, nextFound);
    RestIsAsItWas(second, was, i, nextIdx);
  }

  /** Decodes a text into the front of the receive buffer, whose length so far is given: the new length, and whether a
      closing brace was found. A text that is no good changes no length. */
  method DecodeSMScmd(chars: seq<Byte>, decoded: array<Byte>, len: nat) returns (newLen: nat, found: bool)
    requires decoded.Length == SMS_RX_BUFFER_SIZE + 1 && len <= SMS_RX_BUFFER_SIZE
    modifies decoded
    ensures var d := DecodeCmd(chars, len);
            (if d.progress.Invalid? then newLen == len && !found else newLen == d.len && found == (CLOSE_BRACE in d.bytes)) &&
            |d.bytes| <= SMS_RX_BUFFER_SIZE && decoded[..] == Stored(old(decoded[..]), len, d)
  {
    hide TakeThree, DecodeSMSChar;
    newLen, found := len, false;
    decoded[len] := 0;
    ghost var ended := decoded[..];
    if |chars| == 0 || |chars| % 4 != 0 || |chars| > SMS_MAX_SIZE {
      return;
    }
    var idx: nat := 0;
    var i: nat := 4;
    var stop := false;
    ghost var d := Decoded([], len, GoesOn);
    while i < |chars| && !stop
      invariant 4 <= i <= |chars| && i % 4 == 0
      invariant IsDecoded(d, decoded[..], ended, idx, newLen, stop)
      invariant TakeText(d, chars[i..]) == DecodeCmd(chars, len)
      invariant found == (CLOSE_BRACE in d.bytes)
      decreases |chars| - i
    {
      var four := chars[i..i + 4];
      assert chars[i..][..4] == four && chars[i..][4..] == chars[i + 4..];
      if !(DecodeSMSChar(four[0]) != INVALID && DecodeSMSChar(four[1]) != INVALID &&
           DecodeSMSChar(four[2]) != INVALID && DecodeSMSChar(four[3]) != INVALID) {
        NoGood(d, chars[i..]);
        decoded[len] := 0;
        newLen, found := len, false;
        assert decoded[..] == (d.bytes + ended[idx..])[len := 0];
        return;
      }
      var w := DecodeSMSChar(four[0]) * 0x40000 + DecodeSMSChar(four[1]) * 0x1000 + DecodeSMSChar(four[2]) * 0x40 + DecodeSMSChar(four[3]);
      ghost var now, at := decoded[..], idx;
      assert d == Decoded(decoded[..idx], newLen, GoesOn);
      idx, newLen, found, stop := TakeThreeInto(decoded, w, idx, newLen, found);
      RestIsAsItWas(now, ended, at, idx);
      d := TakeThree(d, w);
      i := i + 4;
    }
    assert d == DecodeCmd(chars, len);
    decoded[idx] := 0;
    assert decoded[..] == (d.bytes + ended[idx..])[idx := 0];
  }

  /** A character that is not in the code ends decoding where it is. */
  lemma NoGood(d: Decoded, chars: seq<Byte>)
    requires |chars| >= 4 && d.progress.GoesOn? && !InCode(chars[..4])
    ensures TakeText(d, chars) == d.(progress := Invalid)
  {
  }
}
