/** Sending a response as a run of texts, and sending it again. */
module SmsSending {
  import opened Bytes
  import opened SmsCode
  import opened SmsDecoding

  /** The longest response, and the buffer for it with its terminating null. */
  const SMS_TX_MSG_SIZE: nat := 1026
  const SMS_TX_BUFFER_SIZE: nat := SMS_TX_MSG_SIZE + 8 + 2

  /** The response buffer, where sending has got to, the message numbers, and the text waiting for the modem's prompt. */
  datatype Sender = Sender(
    tx: seq<Byte>, idx: nat, len: nat,
    connectionNo: nat, msgNoTx: nat, msgNoNewMsg: nat, msgNoResend: nat,
    sendingResponse: bool, sendingResend: bool, resendLastResponse: bool, responseSet: bool,
    text: seq<Byte>)
  {
    predicate Buffered() {
      |tx| == SMS_TX_BUFFER_SIZE + 1 && tx[SMS_TX_BUFFER_SIZE] == 0 &&
      idx <= SMS_TX_MSG_SIZE && len <= SMS_TX_MSG_SIZE && (len > 0 ==> tx[len] == 0)
    }

    /** While a response is being written it is shorter than the longest one. */
    predicate Valid() {
      Buffered() && (!responseSet ==> len == 0 && idx < SMS_TX_MSG_SIZE)
    }

    predicate Sending() {
      sendingResponse || sendingResend
    }
  }

  function UpToNull(s: seq<Byte>): seq<Byte> {
    if s == [] || s[0] == 0 then [] else [s[0]] + UpToNull(s[1..])
  }

  lemma {:induction false} UpToNullStops(s: seq<Byte>, n: nat)
    requires n < |s| && s[n] == 0
    ensures |UpToNull(s)| <= n && NullFree(UpToNull(s))
    ensures NullFree(s[..n]) ==> UpToNull(s) == s[..n]
  {
    if n > 0 && s[0] != 0 {
      UpToNullStops(s[1..], n - 1);
      assert s[1..][..n - 1] == s[..n][1..];
      assert s[..n] == [s[0]] + s[..n][1..];
    }
  }

  /** What is left of the response. */
  function Left(s: Sender): seq<Byte>
    requires s.Valid()
  {
    UpToNull(s.tx[s.idx..])
  }

  function SendNext(s: Sender): (r: Sender)
    requires s.Valid()
    ensures r.Valid()
  {
    if s.idx >= s.len then s
    else
      UpToNullStops(s.tx[s.idx..], s.len - s.idx);
      s.(text := Text(s.connectionNo, s.msgNoTx, Left(s)), idx := s.idx + PieceLen(|Left(s)|), msgNoTx := s.msgNoTx + 1)
  }

  function ClearTx(s: Sender): (r: Sender)
    requires s.Valid()
    ensures r.Valid()
  {
    s.(tx := s.tx[0 := 0], idx := 0, len := 0)
  }

  function Flush(s: Sender): (r: Sender)
    requires s.Buffered()
    ensures r.Valid()
  {
    SendNext(s.(tx := s.tx[s.idx := 0], len := s.idx, idx := 0, sendingResponse := true, sendingResend := false,
                responseSet := true, msgNoTx := s.msgNoNewMsg, msgNoResend := s.msgNoNewMsg))
  }

  function Write(s: Sender, b: Byte, connected: bool): (r: Sender)
    requires s.Valid()
    ensures r.Valid()
  {
    if !s.Sending() && !connected then ClearTx(s)
    else if s.Sending() || s.resendLastResponse || s.responseSet then s
    else
      var s := s.(tx := s.tx[s.idx := b], idx := s.idx + 1);
      if s.idx >= SMS_TX_MSG_SIZE then Flush(s) else s
  }

  /** The modem asks for the text: the waiting one goes out. */
  function Prompt(s: Sender): (r: Sender)
    requires s.Valid()
    ensures r.Valid() && r.len == s.len && r.idx == s.idx
  {
    if s.text == [] then s
    else if s.idx >= s.len then
      s.(text := [], msgNoNewMsg := if s.sendingResponse then s.msgNoTx else s.msgNoNewMsg, sendingResponse := false, sendingResend := false)
    else s.(text := [])
  }

  /** The modem is free and no message has come in. */
  function FoundOk(s: Sender): (r: Sender)
    requires s.Valid()
    ensures r.Valid() && r.len == s.len
  {
    if s.text != [] then s
    else if s.sendingResponse then SendNext(s.(resendLastResponse := false, sendingResend := false))
    else if s.sendingResend then SendNext(s.(resendLastResponse := false))
    else if s.resendLastResponse then
      SendNext(s.(resendLastResponse := false, msgNoTx := s.msgNoResend, sendingResend := true, idx := 0))
    else s
  }

  // ---- a whole response ----

  /** The texts of a response, numbered one after the other. */
  function Texts(connectionNo: nat, msgNo: nat, response: seq<Byte>): seq<seq<Byte>>
    decreases |response|
  {
    if response == [] then []
    else [Text(connectionNo, msgNo, response)] + Texts(connectionNo, msgNo + 1, response[PieceLen(|response|)..])
  }

  /** What goes out while the modem keeps asking and is free again, and what is left then. */
  function SendAll(s: Sender): (r: (seq<seq<Byte>>, Sender))
    requires s.Valid()
    ensures r.1.Valid()
    decreases s.len - s.idx
  {
    hide FoundOk, Prompt;
    if s.text == [] then ([], s)
    else
      var next := FoundOk(Prompt(s));
      if !s.Sending() || next.idx <= s.idx || s.idx >= s.len then ([s.text], Prompt(s))
      else
        var rest := SendAll(next);
        ([s.text] + rest.0, rest.1)
  }

  /** A response is in the buffer, without nulls, and sending it has got to idx. */
  predicate Holds(s: Sender) {
    s.Valid() && s.idx < s.len && NullFree(s.tx[s.idx..s.len])
  }

  lemma LeftOf(s: Sender)
    requires Holds(s)
    ensures Left(s) == s.tx[s.idx..s.len]
  {
    var all := s.tx[s.idx..];
    assert all[..s.len - s.idx] == s.tx[s.idx..s.len];
    UpToNullStops(all, s.len - s.idx);
  }

  lemma NextIs(s: Sender)
    requires Holds(s)
    ensures var rest, sent := s.tx[s.idx..s.len], SendNext(s);
            var n := PieceLen(|rest|);
            0 < n <= |rest| && sent.text != [] &&
            sent == s.(text := Text(s.connectionNo, s.msgNoTx, rest), idx := s.idx + n, msgNoTx := s.msgNoTx + 1)
  {
    LeftOf(s);
    var rest := s.tx[s.idx..s.len];
    TextShape(s.connectionNo, s.msgNoTx, rest);
    hide Text, UpToNull;
  }

  /** Where one text of a response leaves the sender. */
  lemma SendStep(s: Sender)
    requires Holds(s) && s.text == [] && s.sendingResponse != s.sendingResend && !s.resendLastResponse
    ensures var n, sent := PieceLen(s.len - s.idx), SendNext(s);
            if s.idx + n == s.len then
              Prompt(sent) == s.(idx := s.len, msgNoTx := s.msgNoTx + 1, sendingResponse := false, sendingResend := false,
                                 msgNoNewMsg := if s.sendingResponse then s.msgNoTx + 1 else s.msgNoNewMsg) &&
              FoundOk(Prompt(sent)) == Prompt(sent)
            else
              var next := s.(idx := s.idx + n, msgNoTx := s.msgNoTx + 1);
              Prompt(sent) == next && FoundOk(next) == SendNext(next) && SendNext(next).idx > next.idx && Holds(next)
  {
    hide SendNext, PieceLen, Text;
    NextIs(s);
    var n := PieceLen(s.len - s.idx);
    if s.idx + n < s.len {
      var next := s.(idx := s.idx + n, msgNoTx := s.msgNoTx + 1);
      assert next.tx[next.idx..next.len] == s.tx[s.idx..s.len][n..];
      NextIs(next);
    }
  }

  /** Sending from idx on puts out exactly the texts of the rest of the response and stops. */
  lemma {:induction false} SendAllIsTexts(s: Sender)
    requires Holds(s) && s.text == [] && s.sendingResponse != s.sendingResend && !s.resendLastResponse
    ensures var rest, sent := s.tx[s.idx..s.len], SendAll(SendNext(s));
            var texts := Texts(s.connectionNo, s.msgNoTx, rest);
            sent.0 == texts &&
            sent.1 == s.(idx := s.len, msgNoTx := s.msgNoTx + |texts|, sendingResponse := false, sendingResend := false,
                         msgNoNewMsg := if s.sendingResponse then s.msgNoTx + |texts| else s.msgNoNewMsg)
    decreases s.len - s.idx
  {
    hide Text, SendNext, Prompt, FoundOk, PieceLen, NullFree, UpToNull;
    NextIs(s);
    SendStep(s);
    var rest := s.tx[s.idx..s.len];
    var n := PieceLen(|rest|);
    if s.idx + n == s.len {
      assert rest[n..] == [];
    } else {
      var next := s.(idx := s.idx + n, msgNoTx := s.msgNoTx + 1);
      assert rest[n..] == next.tx[next.idx..next.len];
      SendAllIsTexts(next);
    }
  }

  /** The bytes the receiver collects when it decodes every text into an empty buffer. */
  function Collected(texts: seq<seq<Byte>>): seq<Byte>
    decreases |texts|
  {
    if texts == [] then [] else DecodeCmd(texts[0], 0).bytes + Collected(texts[1..])
  }

  /** What one text of a response is like: its two numbers, its shape, and nulls in it exactly if it is the last. */
  predicate GoodText(text: seq<Byte>, connectionNo: nat, msgNo: nat, last: bool) {
    4 < |text| <= SMS_MAX_SIZE && |text| % 4 == 0 &&
    DecodeInt(text[0], text[1]) == msgNo % NUMBER_LIMIT && DecodeInt(text[2], text[3]) == connectionNo % NUMBER_LIMIT &&
    !DecodeCmd(text, 0).progress.Invalid? &&
    (|DecodeCmd(text, 0).bytes| < |text| / 4 * 3 - 3 <==> last)
  }

  /** Numbered one after the other, and padded in the last text only. */
  predicate GoodTexts(texts: seq<seq<Byte>>, connectionNo: nat, msgNo: nat) {
    forall i :: 0 <= i < |texts| ==> GoodText(texts[i], connectionNo, msgNo + i, i == |texts| - 1)
  }

  lemma TextIsGood(connectionNo: nat, msgNo: nat, left: seq<Byte>)
    requires left != [] && NullFree(left)
    ensures GoodText(Text(connectionNo, msgNo, left), connectionNo, msgNo, PieceLen(|left|) == |left|)
  {
    hide EncodeBytes, DecodeCmd, DecodeInt;
    TextShape(connectionNo, msgNo, left);
    TextRoundTrip(connectionNo, msgNo, left);
    var n := Groups(|left|);
    EncodedLen(left[..PieceLen(|left|)] + Nulls(Padding(|left|)), n);
    assert |Text(connectionNo, msgNo, left)| == 4 + 4 * n;
  }

  /** Decoding the texts gives the response back, and each text is good. */
  lemma {:induction false} TextsRoundTrip(connectionNo: nat, msgNo: nat, response: seq<Byte>)
    requires NullFree(response)
    ensures var texts := Texts(connectionNo, msgNo, response);
            Collected(texts) == response && GoodTexts(texts, connectionNo, msgNo)
    decreases |response|
  {
    hide Text, DecodeCmd, GoodText;
    if response != [] {
      var n := PieceLen(|response|);
      var rest, first := response[n..], Text(connectionNo, msgNo, response);
      TextIsGood(connectionNo, msgNo, response);
      TextRoundTrip(connectionNo, msgNo, response);
      TextsRoundTrip(connectionNo, msgNo + 1, rest);
      var texts, later := Texts(connectionNo, msgNo, response), Texts(connectionNo, msgNo + 1, rest);
      assert texts == [first] + later && texts[1..] == later;
      assert response[..n] + rest == response;
      forall i | 0 <= i < |texts| ensures GoodText(texts[i], connectionNo, msgNo + i, i == |texts| - 1) {
        if i > 0 {
          assert texts[i] == later[i - 1];
        }
      }
    }
  }

  /** A response has been written, perhaps to the last place of the buffer, and nothing is being sent. */
  predicate Written(s: Sender) {
    s.Buffered() && s.idx > 0 && NullFree(s.tx[..s.idx]) && s.text == [] && !s.resendLastResponse
  }

  /** Flushing a response sends all of it. */
  function Respond(s: Sender): (r: (seq<seq<Byte>>, Sender))
    requires s.Buffered()
    ensures r.1.Valid()
  {
    hide Flush;
    SendAll(Flush(s))
  }

  /** The request to send the last response again. */
  function Resend(s: Sender): (seq<seq<Byte>>, Sender)
    requires s.Valid()
  {
    hide FoundOk;
    SendAll(FoundOk(s.(resendLastResponse := true)))
  }

  /** The state Flush starts sending from. */
  function Starting(s: Sender): (r: Sender)
    requires Written(s)
    ensures Holds(r) && r.tx[r.idx..r.len] == s.tx[..s.idx]
  {
    var r := s.(tx := s.tx[s.idx := 0], len := s.idx, idx := 0, sendingResponse := true, sendingResend := false,
                responseSet := true, msgNoTx := s.msgNoNewMsg, msgNoResend := s.msgNoNewMsg);
    assert r.tx[r.idx..r.len] == s.tx[..s.idx];
    r
  }

  lemma RespondIsTexts(s: Sender)
    requires Written(s)
    ensures var texts := Texts(s.connectionNo, s.msgNoNewMsg, s.tx[..s.idx]);
            Respond(s) == (texts, Starting(s).(idx := s.idx, msgNoTx := s.msgNoNewMsg + |texts|,
                                               msgNoNewMsg := s.msgNoNewMsg + |texts|, sendingResponse := false))
  {
    hide SendAll, SendNext, Texts, UpToNull;
    SendAllIsTexts(Starting(s));
    assert Flush(s) == SendNext(Starting(s));
  }

  /** A flushed response of any length arrives: the receiver collects exactly its bytes from consecutively numbered texts. */
  lemma ResponseArrives(s: Sender)
    requires Written(s)
    ensures var sent := Respond(s);
            Collected(sent.0) == s.tx[..s.idx] && GoodTexts(sent.0, s.connectionNo, s.msgNoNewMsg) &&
            sent.1.msgNoNewMsg == s.msgNoNewMsg + |sent.0| && !sent.1.Sending()
  {
    hide Respond, Collected, GoodTexts, Texts;
    RespondIsTexts(s);
    TextsRoundTrip(s.connectionNo, s.msgNoNewMsg, s.tx[..s.idx]);
  }

  /** A request to resend puts out the very same texts and ends in the same state. */
  lemma ResendIsIdentical(s: Sender)
    requires Written(s)
    ensures Resend(Respond(s).1) == Respond(s)
  {
    hide Respond, SendAll, SendNext, Texts, UpToNull;
    RespondIsTexts(s);
    var done := Respond(s).1;
    var restart := done.(msgNoTx := done.msgNoResend, sendingResend := true, idx := 0);
    assert restart.tx[restart.idx..restart.len] == s.tx[..s.idx];
    assert FoundOk(done.(resendLastResponse := true)) == SendNext(restart);
    SendAllIsTexts(restart);
  }

  // ---- from the bytes of a response to the bytes that arrive ----

  /** A connected sender that has been told to answer a new command. */
  predicate Ready(s: Sender) {
    s.Valid() && s.idx == s.len == 0 && s.text == [] && !s.Sending() && !s.resendLastResponse && !s.responseSet
  }

  function WriteAll(s: Sender, bytes: seq<Byte>): (r: Sender)
    requires s.Valid()
    ensures r.Valid()
    decreases |bytes|
  {
    if bytes == [] then s else Write(WriteAll(s, bytes[..|bytes| - 1]), bytes[|bytes| - 1], true)
  }

  /** A response that leaves room in the buffer is still waiting there. */
  lemma {:induction false} WriteAllWaits(s: Sender, bytes: seq<Byte>)
    requires Ready(s) && |bytes| < SMS_TX_MSG_SIZE
    ensures var w := WriteAll(s, bytes); w == s.(tx := w.tx, idx := |bytes|) && w.tx[..|bytes|] == bytes
    decreases |bytes|
  {
    hide Flush;
    if bytes != [] {
      var n := |bytes| - 1;
      WriteAllWaits(s, bytes[..n]);
      var w := WriteAll(s, bytes[..n]);
      assert w.tx[n := bytes[n]][..n] == w.tx[..n];
      assert bytes == bytes[..n] + [bytes[n]];
    }
  }

  /** The sender just before a response is flushed. */
  function Filled(s: Sender, bytes: seq<Byte>): (r: Sender)
    requires Ready(s) && 0 < |bytes| <= SMS_TX_MSG_SIZE && NullFree(bytes)
    ensures Written(r) && r.tx[..r.idx] == bytes && r.connectionNo == s.connectionNo && r.msgNoNewMsg == s.msgNoNewMsg
  {
    hide Flush;
    var n := |bytes| - 1;
    WriteAllWaits(s, bytes[..n]);
    var w := WriteAll(s, bytes[..n]);
    var r := w.(tx := w.tx[n := bytes[n]], idx := n + 1);
    assert r.tx[..n] == bytes[..n] && r.tx[..n + 1] == r.tx[..n] + [bytes[n]] == bytes;
    r
  }

  lemma WriteFills(s: Sender, bytes: seq<Byte>)
    requires Ready(s) && NullFree(bytes) && 0 < |bytes| <= SMS_TX_MSG_SIZE
    ensures WriteAll(s, bytes) == if |bytes| < SMS_TX_MSG_SIZE then Filled(s, bytes) else Flush(Filled(s, bytes))
  {
    hide SendNext, NullFree;
    WriteAllWaits(s, bytes[..|bytes| - 1]);
  }

  /** The full buffer is flushed by the write that fills it, and later bytes are dropped. */
  lemma {:induction false} WriteAllFlushes(s: Sender, bytes: seq<Byte>)
    requires Ready(s) && NullFree(bytes) && bytes != []
    ensures var kept := bytes[..if |bytes| < SMS_TX_MSG_SIZE then |bytes| else SMS_TX_MSG_SIZE];
            WriteAll(s, bytes) == if |bytes| < SMS_TX_MSG_SIZE then Filled(s, bytes) else Flush(Filled(s, kept))
    decreases |bytes|
  {
    hide SendNext, Flush, Filled;
    var n := |bytes| - 1;
    assert bytes[..|bytes|] == bytes;
    if |bytes| <= SMS_TX_MSG_SIZE {
      WriteFills(s, bytes);
    } else {
      assert bytes[..n][..SMS_TX_MSG_SIZE] == bytes[..SMS_TX_MSG_SIZE];
      WriteAllFlushes(s, bytes[..n]);
      SendingAfterFlush(Filled(s, bytes[..SMS_TX_MSG_SIZE]));
    }
  }

  lemma SendingAfterFlush(s: Sender)
    requires s.Buffered()
    ensures Flush(s).sendingResponse
  {
    hide UpToNull, Text;
  }

  /** Writing a response and flushing it, unless the buffer was full and has been flushed already. */
  function Answer(s: Sender, response: seq<Byte>): (r: (seq<seq<Byte>>, Sender))
    requires s.Valid()
    ensures r.1.Valid()
  {
    hide Flush;
    var w := WriteAll(s, response);
    if w.Sending() then SendAll(w) else SendAll(Flush(w))
  }

  lemma AnswerIsRespond(s: Sender, response: seq<Byte>)
    requires Ready(s) && NullFree(response) && response != []
    ensures var kept := response[..if |response| < SMS_TX_MSG_SIZE then |response| else SMS_TX_MSG_SIZE];
            Answer(s, response) == Respond(Filled(s, kept))
  {
    hide SendAll, Flush;
    var kept := response[..if |response| < SMS_TX_MSG_SIZE then |response| else SMS_TX_MSG_SIZE];
    assert |response| < SMS_TX_MSG_SIZE ==> kept == response;
    WriteAllFlushes(s, response);
    SendingAfterFlush(Filled(s, kept));
    if |response| < SMS_TX_MSG_SIZE {
      WriteAllWaits(s, response);
    }
  }

  /** From end to end: of a null-free response of any length the first 1026 bytes arrive, in consecutively numbered texts,
      and a request to resend puts out the very same texts. */
  lemma AnswerArrives(s: Sender, response: seq<Byte>)
    requires Ready(s) && NullFree(response) && response != []
    ensures var sent := Answer(s, response);
            Collected(sent.0) == response[..if |response| < SMS_TX_MSG_SIZE then |response| else SMS_TX_MSG_SIZE] &&
            GoodTexts(sent.0, s.connectionNo, s.msgNoNewMsg) && sent.1.msgNoNewMsg == s.msgNoNewMsg + |sent.0| &&
            !sent.1.Sending() && Resend(sent.1) == sent
  {
    hide Answer, Respond, Resend, Collected, GoodTexts;
    var kept := response[..if |response| < SMS_TX_MSG_SIZE then |response| else SMS_TX_MSG_SIZE];
    AnswerIsRespond(s, response);
    ResponseArrives(Filled(s, kept));
    ResendIsIdentical(Filled(s, kept));
  }

  /** Bytes written while nobody is connected. */
  function WriteLost(s: Sender, bytes: seq<Byte>): (r: Sender)
    requires s.Valid()
    ensures r.Valid()
    decreases |bytes|
  {
    if bytes == [] then s else Write(WriteLost(s, bytes[..|bytes| - 1]), bytes[|bytes| - 1], false)
  }

  lemma {:induction false} LostIsCleared(s: Sender, bytes: seq<Byte>)
    requires s.Valid() && !s.Sending() && bytes != []
    ensures var r := WriteLost(s, bytes); r == s.(tx := r.tx, idx := 0, len := 0) && UpToNull(r.tx) == []
    decreases |bytes|
  {
    if |bytes| > 1 {
      LostIsCleared(s, bytes[..|bytes| - 1]);
    } else {
      assert bytes[..0] == [];
    }
  }

  /** They are forgotten, with what was written before: none of them is in the next answer, which arrives as if it were the
      first thing written. */
  lemma {:induction false} LostBeforeAnswer(s: Sender, lost: seq<Byte>, response: seq<Byte>)
    requires s.Valid() && !s.Sending() && s.text == [] && !s.resendLastResponse && !s.responseSet && lost != []
    requires NullFree(response) && response != []
    ensures var r := WriteLost(s, lost);
            Ready(r) && Collected(Answer(r, response).0) == response[..if |response| < SMS_TX_MSG_SIZE then |response| else SMS_TX_MSG_SIZE]
  {
    LostIsCleared(s, lost);
    hide Answer, Collected, WriteLost, UpToNull;
    AnswerArrives(WriteLost(s, lost), response);
  }

  /** The modem's prompt is answered only while a text waits, and its OK is followed only while none does; then no request to
      resend is left, and a new response and a resend are not sent at once. */
  lemma TakesTurns(s: Sender)
    requires s.Valid()
    ensures s.text == [] ==> Prompt(s) == s && !FoundOk(s).resendLastResponse && !(FoundOk(s).sendingResponse && FoundOk(s).sendingResend)
    ensures s.text != [] ==> FoundOk(s) == s
  {
    hide Text, UpToNull, PieceLen;
  }
}
