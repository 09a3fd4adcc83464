/** Phone numbers, the list of known phones and the circular connection numbers. */
module SmsPhones {
  import opened Bytes

  const MAX_PHNO_LEN: nat := 20
  const MAX_PHNO_CHECK: nat := 6
  const MAX_KNOWN_CONNECTION: nat := 10

  /** Connection numbers run from 1 to this and start again at 1; 0 is no connection. */
  const CONNECTION_NUMBERS: nat := 4095

  type Phone = seq<Byte>

  predicate IsDigit(b: Byte) {
    0x30 <= b <= 0x39
  }

  function LastSix(phone: Phone): Phone
    requires |phone| >= MAX_PHNO_CHECK
  {
    phone[|phone| - MAX_PHNO_CHECK..]
  }

  predicate HasSixDigits(phone: Phone) {
    |phone| >= MAX_PHNO_CHECK && forall b :: b in LastSix(phone) ==> IsDigit(b)
  }

  /** Phones are compared by their last six characters; shorter ones match nothing. */
  predicate Matches(a: Phone, b: Phone) {
    |a| >= MAX_PHNO_CHECK && |b| >= MAX_PHNO_CHECK && LastSix(a) == LastSix(b)
  }

  function Truncated(phone: Phone): Phone {
    if |phone| > MAX_PHNO_LEN then phone[..MAX_PHNO_LEN] else phone
  }

  predicate Greater(current: nat, next: nat) {
    if next == 0 && current != 0 then true
    else
      var next := if next < current then next + CONNECTION_NUMBERS else next;
      next > current && next - current <= 2048
  }

  /** The number k connections after n. */
  function Successor(n: nat, k: nat): nat {
    if n + k <= CONNECTION_NUMBERS then n + k else n + k - CONNECTION_NUMBERS
  }

  /** The next 2048 numbers are greater and nothing else is. */
  lemma GreaterIsTheNext2048(n: nat, k: nat)
    requires 1 <= n <= CONNECTION_NUMBERS && k < CONNECTION_NUMBERS
    ensures 1 <= Successor(n, k) <= CONNECTION_NUMBERS
    ensures Greater(n, Successor(n, k)) <==> 1 <= k <= 2048
  {
  }

  /** The number k connections before n. */
  function Predecessor(n: nat, k: nat): nat
    requires k < CONNECTION_NUMBERS && n > 0
  {
    if n > k then n - k else n + CONNECTION_NUMBERS - k
  }

  /** The previous 2046 numbers are not greater; the one before them already is. */
  lemma OnlyThePrevious2046AreIgnored(n: nat, k: nat)
    requires 1 <= n <= CONNECTION_NUMBERS && 1 <= k < CONNECTION_NUMBERS
    ensures Greater(n, Predecessor(n, k)) <==> k > 2046
  {
  }

  // ---- the list of known phones, the most recently used first ----

  datatype Known = Known(connectionNo: nat, phone: Phone)

  const EMPTY: Known := Known(0, [])

  /** The first entry for a phone, or none. */
  function FindMatching(known: seq<Known>, phone: Phone): (i: int)
    ensures -1 <= i < |known|
    ensures i >= 0 ==> Matches(known[i].phone, phone)
    ensures forall j :: 0 <= j < (if i < 0 then |known| else i) ==> !Matches(known[j].phone, phone)
  {
    if known == [] then -1
    else if Matches(known[0].phone, phone) then 0
    else
      var i := FindMatching(known[1..], phone);
      if i < 0 then -1 else i + 1
  }

  /** The first empty entry, or the last entry. */
  function FindEmpty(known: seq<Known>): (i: nat)
    requires known != []
    ensures i < |known| && (known[i].phone == [] || i == |known| - 1)
    ensures forall j :: 0 <= j < i ==> known[j].phone != []
  {
    if known[0].phone == [] || |known| == 1 then 0 else FindEmpty(known[1..]) + 1
  }

  function MoveToTop(known: seq<Known>, i: nat): (r: seq<Known>)
    requires i < |known|
    ensures |r| == |known|
  {
    [known[i]] + known[..i] + known[i + 1..]
  }

  /** Records a connection number for a phone, in its entry or in an empty one; the last entry gives way if there is none. */
  function Update(known: seq<Known>, phone: Phone, connectionNo: nat): (r: seq<Known>)
    requires known != []
    ensures |r| == |known|
  {
    var i := FindMatching(known, phone);
    if i >= 0 then known[i := known[i].(connectionNo := connectionNo)]
    else known[FindEmpty(known) := Known(connectionNo, Truncated(phone))]
  }

  function UpdateAndMoveToTop(known: seq<Known>, phone: Phone, connectionNo: nat): (r: seq<Known>)
    requires known != []
    ensures |r| == |known|
  {
    var known := Update(known, phone, connectionNo);
    var i := FindMatching(known, phone);
    if i < 0 then known else MoveToTop(known, i)
  }

  /** Every entry in use can be matched, and no two entries match each other. */
  predicate Distinct(known: seq<Known>) {
    (forall i :: 0 <= i < |known| ==> known[i].phone == [] || HasSixDigits(known[i].phone)) &&
    (forall i, j :: 0 <= i < j < |known| ==> !Matches(known[i].phone, known[j].phone))
  }

  /** What is recorded for a phone: nothing is -1. */
  function Recorded(known: seq<Known>, phone: Phone): (n: int)
    ensures n >= -1
  {
    var i := FindMatching(known, phone);
    if i < 0 then -1 else known[i].connectionNo
  }
}

/** The connection machine: what an SMS does to the current connection. */
module SmsLink {
  import opened Bytes
  import opened SmsCode
  import opened SmsDecoding
  import opened SmsPhones

  const OPEN_BRACE: Byte := 0x7b
  const EXCLAMATION: Byte := 0x21

  /** Put in front of the first command of a new connection so that the command parser starts afresh. */
  const CONNECTION_MARKER: Byte := 0xff

  datatype Connection = Connection(
    connectionNo: nat, msgNoRx: nat, msgNoTx: nat, msgNoTxNewMsg: nat, msgNoTxResend: nat, timedOut: bool, phone: Phone)

  const CLEARED: Connection := Connection(0, 0, 1, 1, 1, true, [])

  datatype Verdict =
    | Ignore | ResendLastResponse | CloseConnection | StartNewCommand | ProcessNextPart
    | CloseAndUpdate | NewConnectionSamePhone | IgnoreConnection | StartNewConnection | StartNewAndClose

  /** Whether the SMS is handed on to the command parser. */
  predicate ActsOn(v: Verdict) {
    !v.Ignore? && !v.ResendLastResponse? && !v.IgnoreConnection?
  }

  datatype Link = Link(current: Connection, next: Connection, known: seq<Known>, resendLastResponse: bool, responseSet: bool)

  /** What decoding a text tells the connection machine: whether it added anything to the receive buffer, and whether a
      command starts there, is the close message, or ends. Which of these are seen depends on the bytes that have not
      been read yet, so the machine takes them as they come. */
  datatype Signs = Signs(taken: bool, start: bool, close: bool, end: bool)

  function Closed(c: Connection): Connection {
    c.(msgNoRx := 0, msgNoTx := 1, msgNoTxResend := 1, msgNoTxNewMsg := 1, timedOut := true)
  }

  /** After a closing brace the next number is a multiple of three. */
  function NextExpected(msgNo: nat, foundEnd: bool): nat {
    var n := msgNo + 1;
    if foundEnd && n % 3 != 0 then (n / 3 + 1) * 3 else n
  }

  function MsgNo(text: seq<Byte>): nat
    requires ValidLen(text)
  {
    DecodeInt(text[0], text[1])
  }

  function ConnectionNo(text: seq<Byte>): nat
    requires ValidLen(text)
  {
    DecodeInt(text[2], text[3])
  }

  /** An SMS that can mean something: of a good length, from a phone that can be matched, with bytes in it. */
  predicate Readable(l: Link, text: seq<Byte>, signs: Signs) {
    ValidLen(text) && l.next.phone != [] && HasSixDigits(l.next.phone) && signs.taken
  }

  /** The numbers (0,0) make the node forget the phone they come from. */
  predicate Erases(l: Link, text: seq<Byte>)
    requires ValidLen(text)
  {
    FindMatching(l.known, l.next.phone) >= 0 && ConnectionNo(text) == 0 && MsgNo(text) == 0
  }

  function Erase(l: Link, text: seq<Byte>): (r: Link)
    requires ValidLen(text)
    ensures |r.known| == |l.known|
  {
    if Erases(l, text) then
      l.(known := l.known[FindMatching(l.known, l.next.phone) := EMPTY],
         current := if Matches(l.current.phone, l.next.phone) then CLEARED else l.current)
    else l
  }

  /** The entry of the current phone as the first one, should it have been lost. */
  function SetTop(known: seq<Known>, c: Connection): (r: seq<Known>)
    requires known != []
    ensures |r| == |known|
  {
    if known[0].phone != [] && !Matches(c.phone, known[0].phone) then known
    else known[0 := Known(c.connectionNo, Truncated(c.phone))]
  }

  predicate NeedsRepair(l: Link, text: seq<Byte>)
    requires ValidLen(text)
  {
    var e := Erase(l, text);
    Matches(e.current.phone, l.next.phone) && FindMatching(e.known, l.next.phone) != 0
  }

  function Repair(l: Link): (r: Link)
    requires l.known != []
    ensures |r.known| == |l.known|
  {
    var i := FindEmpty(l.known);
    l.(known := SetTop(MoveToTop(l.known[i := EMPTY], i), l.current))
  }

  /** The verdict on an SMS of the current connection. */
  function SameConnection(expected: nat, msgNo: nat, close: bool): Verdict {
    if msgNo == expected && msgNo != 0 then
      if msgNo % 3 != 0 then ProcessNextPart else if close then CloseConnection else StartNewCommand
    else if msgNo % 3 == 0 && msgNo + 3 == expected then ResendLastResponse
    else Ignore
  }

  /** The verdict, once the text is known to be readable and to start with a brace if it must. */
  function Judge(l: Link, recorded: int, msgNo: nat, connectionNo: nat, close: bool): Verdict {
    if Matches(l.current.phone, l.next.phone) then
      if l.current.connectionNo == connectionNo then SameConnection(l.current.msgNoRx, msgNo, close)
      else if !Greater(l.current.connectionNo, connectionNo) || msgNo != 0 then Ignore
      else if close then CloseAndUpdate
      else NewConnectionSamePhone
    else if recorded >= 0 && !Greater(recorded, connectionNo) then Ignore
    else if !l.current.timedOut then if msgNo == 0 then IgnoreConnection else Ignore
    else if msgNo != 0 then Ignore
    else if close then StartNewAndClose
    else StartNewConnection
  }

  /** What is noted down before the verdict: the numbers, what (0,0) erases, and the repair of the list. */
  function NotedDown(l: Link, text: seq<Byte>): (r: Link)
    requires l.known != [] && ValidLen(text)
    ensures |r.known| == |l.known|
  {
    var noted := l.(next := l.next.(connectionNo := ConnectionNo(text), msgNoRx := 0));
    if NeedsRepair(l, text) then Repair(Erase(noted, text)) else Erase(noted, text)
  }

  /** The next message number expected after a verdict. */
  function Count(l: Link, v: Verdict, foundEnd: bool): (r: Link)
    ensures r.known == l.known
  {
    match v
    case CloseConnection | StartNewCommand | ProcessNextPart =>
      l.(current := l.current.(msgNoRx := NextExpected(l.current.msgNoRx, foundEnd)))
    case CloseAndUpdate | NewConnectionSamePhone | StartNewConnection | StartNewAndClose =>
      l.(next := l.next.(msgNoRx := NextExpected(l.next.msgNoRx, foundEnd)))
    case _ => l
  }

  /** The verdict on an SMS from the phone of the next connection. */
  function Decide(l: Link, text: seq<Byte>, signs: Signs): Verdict
    requires l.known != []
  {
    if !Readable(l, text, signs) || (MsgNo(text) % 3 == 0 && !signs.start) then Ignore
    else
      Judge(NotedDown(l, text), if Erases(l, text) then -1 else Recorded(l.known, l.next.phone),
            MsgNo(text), ConnectionNo(text), signs.close)
  }

  function Look(l: Link, text: seq<Byte>, signs: Signs): (r: Link)
    requires l.known != []
    ensures r.known != []
  {
    hide NotedDown, Decide;
    if !Readable(l, text, signs) then l else Count(NotedDown(l, text), Decide(l, text, signs), signs.end)
  }

  /** What the verdict does. */
  function Follow(l: Link, v: Verdict): Link
    requires l.known != []
  {
    match v
    case Ignore | IgnoreConnection => l.(next := CLEARED)
    case ResendLastResponse => l.(next := CLEARED, resendLastResponse := true)
    case CloseConnection => l.(next := CLEARED, current := Closed(l.current), resendLastResponse := false)
    case StartNewCommand =>
      l.(next := CLEARED, current := l.current.(timedOut := false), resendLastResponse := false, responseSet := false)
    case ProcessNextPart => l.(next := CLEARED)
    case CloseAndUpdate =>
      l.(current := Closed(l.next), next := CLEARED, known := SetTop(l.known, l.next), resendLastResponse := false)
    case NewConnectionSamePhone =>
      l.(current := l.next.(timedOut := false), next := CLEARED, known := SetTop(l.known, l.next),
         resendLastResponse := false, responseSet := false)
    case StartNewConnection =>
      l.(current := l.next.(timedOut := false), next := CLEARED,
         known := UpdateAndMoveToTop(l.known, l.next.phone, l.next.connectionNo),
         resendLastResponse := false, responseSet := false)
    case StartNewAndClose =>
      l.(current := Closed(l.next), next := CLEARED,
         known := UpdateAndMoveToTop(l.known, l.next.phone, l.next.connectionNo), resendLastResponse := false)
  }

  /** The phone of the SMS that arrives. */
  function From(l: Link, phone: Phone): Link {
    l.(next := l.next.(phone := Truncated(phone)))
  }

  /** An SMS arrives from a phone. */
  function Receive(l: Link, phone: Phone, text: seq<Byte>, signs: Signs): Link
    requires l.known != []
  {
    hide Look, Decide;
    Follow(Look(From(l, phone), text, signs), Decide(From(l, phone), text, signs))
  }

  function VerdictOn(l: Link, phone: Phone, text: seq<Byte>, signs: Signs): Verdict
    requires l.known != []
  {
    hide Decide;
    Decide(From(l, phone), text, signs)
  }

  // ---- the receive buffer ----

  /** The buffer, its length and the place up to which it has been read. */
  datatype Rx = Rx(buffer: seq<Byte>, len: nat, idx: nat) {
    predicate Valid() {
      |buffer| == SMS_RX_BUFFER_SIZE + 1 && idx <= len
    }

    /** A decoded text has a place in the buffer. */
    predicate HasPlace() {
      Valid() && len <= SMS_RX_BUFFER_SIZE
    }
  }

  /** The buffer after decoding, which counts from the present length but stores from the front. */
  function Filled(rx: Rx, text: seq<Byte>): (r: seq<Byte>)
    requires rx.HasPlace()
    ensures |r| == |rx.buffer|
  {
    DecodedFits(text, rx.len);
    Stored(rx.buffer, rx.len, DecodeCmd(text, rx.len))
  }

  /** The signs are looked for where the bytes should have gone: behind those that were there already. */
  function SignsOf(rx: Rx, text: seq<Byte>): Signs
    requires rx.HasPlace()
  {
    var d, buffer := DecodeCmd(text, rx.len), Filled(rx, text);
    var taken, start := !d.progress.Invalid? && d.len != rx.len, buffer[rx.len] == OPEN_BRACE;
    DecodedFits(text, rx.len);
    Signs(taken, start, taken && d.len - rx.len >= 3 && start && buffer[rx.len + 1] == EXCLAMATION && buffer[rx.len + 2] == CLOSE_BRACE,
          !d.progress.Invalid? && CLOSE_BRACE in d.bytes)
  }

  function Marked(rx: Rx): Rx
    requires rx.Valid()
  {
    Rx([CONNECTION_MARKER] + rx.buffer[..SMS_RX_BUFFER_SIZE - 1] + rx.buffer[SMS_RX_BUFFER_SIZE..], rx.len + 1, rx.idx)
  }

  /** What becomes of the buffer when an SMS has been looked at and its verdict followed. */
  function Kept(rx: Rx, looked: bool, text: seq<Byte>, v: Verdict): (r: Rx)
    requires rx.HasPlace()
    ensures r.Valid()
  {
    DecodedFits(text, rx.len);
    var buffer := if looked then Filled(rx, text) else rx.buffer[rx.len := 0];
    var len := if looked && !DecodeCmd(text, rx.len).progress.Invalid? then DecodeCmd(text, rx.len).len else rx.len;
    match v
    case Ignore | IgnoreConnection | ResendLastResponse => Rx(buffer[rx.len := 0], rx.len, rx.idx)
    case NewConnectionSamePhone | StartNewConnection | StartNewAndClose => Marked(Rx(buffer, len, rx.idx))
    case _ => Rx(buffer, len, rx.idx)
  }

  /** Decoding never stores past the end, and counts at least what it stores. */
  lemma DecodedFits(text: seq<Byte>, len: nat)
    ensures var d := DecodeCmd(text, len);
            |d.bytes| < SMS_RX_BUFFER_SIZE && len + |d.bytes| <= d.len <= len + |d.bytes| + 1 && (len <= SMS_RX_BUFFER_SIZE ==> d.len <= SMS_RX_BUFFER_SIZE + 1) &&
            (d.len <= SMS_RX_BUFFER_SIZE || |d.bytes| == 0)
  {
    if ValidLen(text) {
      TakenFits(Decoded([], len, GoesOn), text[4..], len);
    }
  }

  lemma {:induction false} TakenFits(d: Decoded, chars: seq<Byte>, len: nat)
    requires d.len == len + |d.bytes| && (|d.bytes| == 0 || d.len < SMS_RX_BUFFER_SIZE) && d.progress.GoesOn?
    ensures var t := TakeText(d, chars);
            (|t.bytes| == 0 || t.len <= SMS_RX_BUFFER_SIZE) && len + |t.bytes| <= t.len <= len + |t.bytes| + 1 &&
            (|t.bytes| == 0 || len + |t.bytes| < SMS_RX_BUFFER_SIZE)
    decreases |chars|
  {
    hide DecodeSMSChar;
    if |chars| >= 4 {
      var t := TakeFour(d, chars[..4]);
      if t.progress.GoesOn? {
        TakenFits(t, chars[4..], len);
      }
    }
  }

  /** The upper layer reads one byte. */
  function Read(rx: Rx): (r: Rx)
    requires rx.Valid()
    ensures r.Valid()
  {
    if rx.idx == rx.len then rx
    else if rx.idx + 1 == rx.len then Rx(rx.buffer, 0, 0)
    else Rx(rx.buffer, rx.len, rx.idx + 1)
  }

  /** A command is seen to start exactly if the decoded bytes reach past the bytes that were there, with a brace at the
      first place behind them. */
  lemma StartSeenExactly(rx: Rx, text: seq<Byte>)
    requires rx.HasPlace()
    ensures var d := DecodeCmd(text, rx.len);
            SignsOf(rx, text).start <==> !d.progress.Invalid? && |d.bytes| > rx.len && d.bytes[rx.len] == OPEN_BRACE
  {
    hide DecodeCmd;
    DecodedFits(text, rx.len);
  }

  /** So an SMS that should start a command is ignored while as many bytes as it holds have been counted. */
  lemma UnreadBytesHideStart(l: Link, phone: Phone, text: seq<Byte>, rx: Rx)
    requires l.known != [] && rx.HasPlace() && ValidLen(text) && MsgNo(text) % 3 == 0 && |DecodeCmd(text, rx.len).bytes| <= rx.len
    ensures VerdictOn(l, phone, text, SignsOf(rx, text)).Ignore?
  {
    hide DecodeCmd, MsgNo, SignsOf;
    StartSeenExactly(rx, text);
  }

  /** A start that is seen keeps the counted length far from the end; only behind a full buffer it is counted past the end. */
  lemma CountedInside(rx: Rx, text: seq<Byte>)
    requires rx.HasPlace() && SignsOf(rx, text).taken
    ensures var d := DecodeCmd(text, rx.len);
            !d.progress.Invalid? && (SignsOf(rx, text).start ==> d.len < SMS_RX_BUFFER_SIZE) &&
            (d.len > SMS_RX_BUFFER_SIZE <==> rx.len == SMS_RX_BUFFER_SIZE)
  {
    StartSeenExactly(rx, text);
    DecodedFits(text, rx.len);
    if ValidLen(text) {
      FewBytes(Decoded([], rx.len, GoesOn), text[4..]);
      if rx.len < SMS_RX_BUFFER_SIZE {
        CountStops(Decoded([], rx.len, GoesOn), text[4..]);
      }
    }
    hide TakeText, Filled;
  }

  lemma {:induction false} CountStops(d: Decoded, chars: seq<Byte>)
    requires d.len <= SMS_RX_BUFFER_SIZE && (d.progress.GoesOn? ==> d.len < SMS_RX_BUFFER_SIZE)
    ensures TakeText(d, chars).len <= SMS_RX_BUFFER_SIZE
    decreases |chars|
  {
    hide DecodeSMSChar;
    if d.progress.GoesOn? && |chars| >= 4 {
      CountStops(TakeFour(d, chars[..4]), chars[4..]);
    }
  }

  lemma {:induction false} FewBytes(d: Decoded, chars: seq<Byte>)
    ensures 4 * |TakeText(d, chars).bytes| <= 4 * |d.bytes| + 3 * |chars|
    decreases |chars|
  {
    hide DecodeSMSChar;
    if d.progress.GoesOn? && |chars| >= 4 {
      FewBytes(TakeFour(d, chars[..4]), chars[4..]);
    }
  }

  /** Exactly when an SMS leaves a length behind the end of the buffer: a further part of a command that comes when the
      buffer is full of bytes that have been counted. */
  lemma PlaceLostExactly(l: Link, phone: Phone, text: seq<Byte>, rx: Rx)
    requires l.known != [] && rx.HasPlace()
    ensures var v := VerdictOn(l, phone, text, SignsOf(rx, text));
            var looked := ValidLen(text) && phone != [] && HasSixDigits(Truncated(phone));
            !Kept(rx, looked, text, v).HasPlace() <==> v.ProcessNextPart? && rx.len == SMS_RX_BUFFER_SIZE
  {
    var signs, looked := SignsOf(rx, text), ValidLen(text) && phone != [] && HasSixDigits(Truncated(phone));
    var v := Decide(From(l, phone), text, signs);
    VerdictNeeds(From(l, phone), text, signs);
    KeptLen(rx, looked, text, v);
    assert Readable(From(l, phone), text, signs) ==> looked && signs.taken;
    hide DecodeCmd, SignsOf, Decide, Readable, Kept, HasSixDigits;
    DecodedFits(text, rx.len);
    if signs.taken {
      CountedInside(rx, text);
    }
  }

  lemma KeptLen(rx: Rx, looked: bool, text: seq<Byte>, v: Verdict)
    requires rx.HasPlace()
    ensures var r, d := Kept(rx, looked, text, v), DecodeCmd(text, rx.len);
            (r.HasPlace() <==> r.len <= SMS_RX_BUFFER_SIZE) &&
            r.len == if !ActsOn(v) then rx.len
                     else (if looked && !d.progress.Invalid? then d.len else rx.len) +
                          (if v.NewConnectionSamePhone? || v.StartNewConnection? || v.StartNewAndClose? then 1 else 0)
  {
    hide DecodeCmd, Filled;
  }

  /** What it takes to act on an SMS; only a further part does without a start. */
  lemma VerdictNeeds(l: Link, text: seq<Byte>, signs: Signs)
    requires l.known != []
    ensures var v := Decide(l, text, signs);
            ActsOn(v) ==> Readable(l, text, signs) && (signs.start || v.ProcessNextPart?)
  {
    hide MsgNo, ConnectionNo, NotedDown, Erases, HasSixDigits, Matches, Greater;
  }

  /** When everything has been read, the signs are those of the decoded bytes. */
  lemma SignsOfEmpty(rx: Rx, text: seq<Byte>)
    requires rx.HasPlace() && rx.len == 0
    ensures var d, signs := DecodeCmd(text, 0), SignsOf(rx, text);
            var good, n := !d.progress.Invalid?, |d.bytes|;
            (signs.start <==> good && n > 0 && d.bytes[0] == OPEN_BRACE) && (signs.end <==> good && CLOSE_BRACE in d.bytes) &&
            (n >= 3 ==> (signs.close <==> good && d.bytes[0] == OPEN_BRACE && d.bytes[1] == EXCLAMATION && d.bytes[2] == CLOSE_BRACE)) &&
            (n > 0 && good ==> signs.taken)
  {
    hide DecodeCmd;
    DecodedFits(text, 0);
  }
}
