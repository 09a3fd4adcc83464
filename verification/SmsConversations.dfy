/** The SMS of a phone that keeps to the order are all acted on. */
module SmsConversations {
  import opened Bytes
  import opened SmsCode
  import opened SmsDecoding
  import opened SmsPhones
  import opened SmsLink
  import opened SmsKnownProof
  import opened SmsLinkProof
  import opened SmsSending

  /** The current connection is that of a phone, with the number that is expected next. */
  ghost predicate Talking(l: Link, q: Phone, c: nat, n: nat) {
    Inv(l) && Matches(l.current.phone, q) && l.current.connectionNo == c > 0 && l.current.msgNoRx == n > 0
  }

  /** An SMS of a connection with the number that is due: bytes in it, and where a command starts, its start and not the close message. */
  predicate IsDue(text: seq<Byte>, signs: Signs, c: nat, n: nat) {
    ValidLen(text) && ConnectionNo(text) == c && MsgNo(text) == n && signs.taken && (n % 3 == 0 ==> signs.start && !signs.close)
  }

  lemma NextIsLater(n: nat, foundEnd: bool)
    ensures NextExpected(n, foundEnd) > n
  {
  }

  // ---- one SMS ----

  lemma InvFrom(l: Link, phone: Phone)
    requires Inv(l)
    ensures Inv(From(l, phone))
  {
    hide Distinct, HasSixDigits;
  }

  /** The SMS that is due is acted on, and the next one is due then. */
  lemma DueActs(l: Link, q: Phone, c: nat, n: nat, phone: Phone, text: seq<Byte>, signs: Signs)
    requires Talking(l, q, c, n) && HasSixDigits(Truncated(phone)) && Matches(Truncated(phone), q) && IsDue(text, signs, c, n)
    ensures VerdictOn(l, phone, text, signs) == if n % 3 == 0 then StartNewCommand else ProcessNextPart
    ensures var r := Receive(l, phone, text, signs);
            Talking(r, q, c, NextExpected(n, signs.end)) && r.current.timedOut == (l.current.timedOut && n % 3 != 0)
  {
    var from, v := From(l, phone), if n % 3 == 0 then StartNewCommand else ProcessNextPart;
    InvFrom(l, phone);
    ReceiveKeeps(l, phone, text, signs);
    ReceiveIs(l, phone, text, signs);
    hide Distinct, HasSixDigits, FindMatching, Recorded, Decide, Inv, Receive, MsgNo, ConnectionNo;
    Verdicts(from, text, signs, v);
    assert When(from, text, signs.close, v) by {
      SameAs(l.current.phone, Truncated(phone), q);
    }
    NextIsLater(n, signs.end);
    assert !Erases(from, text);
    hide Erases;
  }

  lemma SameAs(a: Phone, b: Phone, q: Phone)
    requires Matches(a, q)
    ensures Matches(a, b) == Matches(b, q)
  {
  }

  /** The SMS of another phone changes nothing for the current connection as long as that has not timed out. */
  lemma OthersWait(l: Link, q: Phone, c: nat, n: nat, phone: Phone, text: seq<Byte>, signs: Signs)
    requires Talking(l, q, c, n) && !l.current.timedOut && !Matches(Truncated(phone), q)
    ensures !ActsOn(VerdictOn(l, phone, text, signs))
    ensures var r := Receive(l, phone, text, signs); Talking(r, q, c, n) && !r.current.timedOut
  {
    var from, v := From(l, phone), VerdictOn(l, phone, text, signs);
    InvFrom(l, phone);
    ReceiveKeeps(l, phone, text, signs);
    ReceiveIs(l, phone, text, signs);
    hide Distinct, HasSixDigits, FindMatching, Recorded, Decide, Inv, Receive, MsgNo, ConnectionNo, VerdictOn;
    SameAs(l.current.phone, Truncated(phone), q);
    assert v == Decide(from, text, signs) by {
      DecidedFrom(l, phone, text, signs);
    }
    Verdicts(from, text, signs, v);
  }

  lemma DecidedFrom(l: Link, phone: Phone, text: seq<Byte>, signs: Signs)
    requires l.known != []
    ensures VerdictOn(l, phone, text, signs) == Decide(From(l, phone), text, signs)
  {
    hide Decide;
  }

  /** The first SMS of a connection, from a phone that is not known or with a greater number, while the current connection
      has timed out or is that of the same phone. */
  lemma ConversationStarts(l: Link, phone: Phone, text: seq<Byte>, signs: Signs, c: nat)
    requires Inv(l) && HasSixDigits(Truncated(phone)) && IsDue(text, signs, c, 0) && c > 0
    requires l.current.timedOut || Matches(l.current.phone, Truncated(phone))
    requires Recorded(l.known, Truncated(phone)) == -1 || Greater(Recorded(l.known, Truncated(phone)), c)
    ensures VerdictOn(l, phone, text, signs) == if Matches(l.current.phone, Truncated(phone)) then NewConnectionSamePhone else StartNewConnection
    ensures var r := Receive(l, phone, text, signs);
            Talking(r, Truncated(phone), c, NextExpected(0, signs.end)) && !r.current.timedOut
  {
    var from := From(l, phone);
    var v := if Matches(l.current.phone, Truncated(phone)) then NewConnectionSamePhone else StartNewConnection;
    InvFrom(l, phone);
    SixDigitsMatch(Truncated(phone));
    if Matches(l.current.phone, Truncated(phone)) {
      CurrentIsRecorded(l, Truncated(phone));
    }
    ReceiveKeeps(l, phone, text, signs);
    ReceiveIs(l, phone, text, signs);
    hide Distinct, HasSixDigits, FindMatching, Recorded, Decide, Inv, Receive, MsgNo, ConnectionNo, Greater, SetTop, UpdateAndMoveToTop, Matches;
    Verdicts(from, text, signs, v);
    assert !Erases(from, text);
    NextIsLater(0, signs.end);
    hide Erases;
  }

  // ---- runs ----

  /** A run in which the SMS of a phone arrive in order, each once, and the node is not left idle before SMS of other
      phones arrive: the number that is due, and whether the current connection is in use. */
  predicate Conversation(events: seq<Event>, q: Phone, c: nat, n: nat, inUse: bool)
    decreases |events|
  {
    events != [] ==>
      match events[0]
      case Incoming(phone, text, signs) =>
        if Matches(Truncated(phone), q) then
          HasSixDigits(Truncated(phone)) && IsDue(text, signs, c, n) &&
          Conversation(events[1..], q, c, NextExpected(n, signs.end), inUse || n % 3 == 0)
        else inUse && Conversation(events[1..], q, c, n, inUse)
      case IdleTimeout => Conversation(events[1..], q, c, n, false)
      case SenderMoves(_, _, _, _, _) => Conversation(events[1..], q, c, n, inUse)
  }

  /** The numbers of the SMS of a phone. */
  function Numbers(events: seq<Event>, q: Phone): seq<nat> {
    if events == [] then [] else Number(events[0], q) + Numbers(events[1..], q)
  }

  function Number(ev: Event, q: Phone): seq<nat> {
    if ev.Incoming? && ValidLen(ev.text) && Matches(Truncated(ev.phone), q) then [MsgNo(ev.text)] else []
  }

  /** One event of a conversation. */
  lemma StepTalks(l: Link, ev: Event, q: Phone, c: nat, n: nat)
    requires Talking(l, q, c, n) && Conversation([ev], q, c, n, !l.current.timedOut)
    ensures var r := Step(l, ev);
            var own := ev.Incoming? && Matches(Truncated(ev.phone), q);
            var next := if own then NextExpected(n, ev.signs.end) else n;
            Talking(r, q, c, next) && ActedOn(l, ev, q) == Number(ev, q) &&
            r.current.timedOut == (ev.IdleTimeout? || (l.current.timedOut && !(own && n % 3 == 0)))
  {
    assert [ev][1..] == [];
    hide Distinct, HasSixDigits, Receive, VerdictOn, MsgNo, ConnectionNo, Matches, Truncated;
    if ev.Incoming? {
      if Matches(Truncated(ev.phone), q) {
        DueActs(l, q, c, n, ev.phone, ev.text, ev.signs);
      } else {
        OthersWait(l, q, c, n, ev.phone, ev.text, ev.signs);
      }
    }
  }

  lemma FirstOfConversation(events: seq<Event>, q: Phone, c: nat, n: nat, inUse: bool)
    requires events != [] && Conversation(events, q, c, n, inUse)
    ensures Conversation([events[0]], q, c, n, inUse)
  {
    hide IsDue, HasSixDigits, Matches, Truncated, NextExpected;
    var one := [events[0]];
    assert one[1..] == [] && one[0] == events[0];
  }

  /** In a conversation every SMS of the phone is acted on. */
  lemma {:induction false} EveryPartActedOn(l: Link, events: seq<Event>, q: Phone, c: nat, n: nat)
    requires Talking(l, q, c, n) && Conversation(events, q, c, n, !l.current.timedOut)
    ensures ActedNumbers(l, events, q) == Numbers(events, q)
    decreases |events|
  {
    hide Step, ActedOn, Number, Talking, IsDue, HasSixDigits, Matches, Distinct;
    assert Inv(l) by {
      TalkingIsInv(l, q, c, n);
    }
    if events != [] {
      var ev := events[0];
      FirstOfConversation(events, q, c, n, !l.current.timedOut);
      StepTalks(l, ev, q, c, n);
      var own := ev.Incoming? && Matches(Truncated(ev.phone), q);
      EveryPartActedOn(Step(l, ev), events[1..], q, c, if own then NextExpected(n, ev.signs.end) else n);
    }
  }

  lemma TalkingIsInv(l: Link, q: Phone, c: nat, n: nat)
    requires Talking(l, q, c, n)
    ensures Inv(l)
  {
  }

  /** From a new node: the first SMS of a phone starts a connection, and every later one that is in order is acted on too. */
  lemma {:induction false} EverySmsActedOn(first: Event, events: seq<Event>, c: nat)
    requires first.Incoming? && HasSixDigits(Truncated(first.phone)) && IsDue(first.text, first.signs, c, 0) && c > 0
    requires Conversation(events, Truncated(first.phone), c, NextExpected(0, first.signs.end), true)
    ensures (NewInv();
             VerdictOn(New(), first.phone, first.text, first.signs).StartNewConnection? &&
             ActedNumbers(New(), [first] + events, Truncated(first.phone)) == Numbers([first] + events, Truncated(first.phone)))
  {
    NewInv();
    var q := Truncated(first.phone);
    NobodyKnown(q);
    ConversationStarts(New(), first.phone, first.text, first.signs, c);
    SixDigitsMatch(q);
    var r := Receive(New(), first.phone, first.text, first.signs);
    hide Receive, VerdictOn, HasSixDigits, Matches, Distinct, Talking, New, Conversation;
    EveryPartActedOn(r, events, q, c, NextExpected(0, first.signs.end));
    assert ([first] + events)[1..] == events;
  }

  lemma NobodyKnown(q: Phone)
    ensures Recorded(New().known, q) == -1 && !Matches(New().current.phone, q) && New().current.timedOut
  {
    FindsNone(New().known, q);
  }

  // ---- whole commands ----

  /** A command between braces, and not the close message. */
  predicate IsCommand(cmd: seq<Byte>) {
    |cmd| >= 2 && cmd[0] == OPEN_BRACE && cmd[|cmd| - 1] == CLOSE_BRACE && CLOSE_BRACE !in cmd[..|cmd| - 1] && NullFree(cmd) &&
    !(|cmd| == 3 && cmd[1] == EXCLAMATION)
  }

  /** The receive buffer with nothing unread in it, whatever else it holds. */
  predicate NothingUnread(rx: Rx) {
    rx.HasPlace() && rx.len == 0
  }

  /** What the receive buffers hold when the SMS of a run arrive. */
  type ReadRx = rx: Rx | NothingUnread(rx) witness Rx(seq(SMS_RX_BUFFER_SIZE + 1, i => 0), 0, 0)

  /** What a text shows when everything before it has been read. */
  lemma TextShows(rx: Rx, c: nat, n: nat, left: seq<Byte>)
    requires NothingUnread(rx) && left != [] && NullFree(left)
    ensures var piece, signs := left[..PieceLen(|left|)], SignsOf(rx, Text(c, n, left));
            signs.taken && (signs.start <==> left[0] == OPEN_BRACE) && (signs.end <==> CLOSE_BRACE in piece) &&
            (signs.close ==> StartsWithClose(piece))
  {
    hide Text, DecodeCmd, SignsOf, NullFree, PieceLen;
    TextRoundTrip(c, n, left);
    SignsOfEmpty(rx, Text(c, n, left));
    if PieceLen(|left|) < 3 {
      ShortIsOpen(rx, Text(c, n, left));
    }
  }

  /** With fewer than three bytes there is no close message. */
  lemma ShortIsOpen(rx: Rx, text: seq<Byte>)
    requires NothingUnread(rx) && |DecodeCmd(text, 0).bytes| == DecodeCmd(text, 0).len < 3
    ensures !SignsOf(rx, text).close
  {
    hide DecodeCmd;
    DecodedFits(text, 0);
  }

  /** Into how many texts the rest of a command is cut. */
  function Parts(left: seq<Byte>): nat {
    if left == [] then 0 else 1 + Parts(left[PieceLen(|left|)..])
  }

  /** One SMS: the first of the bytes left. */
  function Sms(phone: Phone, c: nat, n: nat, left: seq<Byte>, rx: ReadRx): Event {
    Incoming(phone, Text(c, n, left), SignsOf(rx, Text(c, n, left)))
  }

  /** The SMS of the rest of a command, each of which finds nothing unread. */
  function Sends(phone: Phone, c: nat, n: nat, left: seq<Byte>, rxs: nat -> ReadRx): seq<Event>
    decreases |left|
  {
    if left == [] then [] else [Sms(phone, c, n, left, rxs(n))] + Sends(phone, c, n + 1, left[PieceLen(|left|)..], rxs)
  }

  /** The SMS of several commands; each command starts with a multiple of three. */
  function AllSends(phone: Phone, c: nat, n: nat, cmds: seq<seq<Byte>>, rxs: nat -> ReadRx): seq<Event>
    decreases |cmds|
  {
    if cmds == [] then [] else Sends(phone, c, n, cmds[0], rxs) + AllSends(phone, c, n + 3, cmds[1..], rxs)
  }

  /** The rest of a command: only its first text starts with a brace, and only its last one ends with one. */
  predicate IsRest(left: seq<Byte>, n: nat) {
    left != [] && NullFree(left) && left[|left| - 1] == CLOSE_BRACE && CLOSE_BRACE !in left[..|left| - 1] &&
    n % 3 + Parts(left) <= 3 && (n % 3 == 0 ==> left[0] == OPEN_BRACE && !(|left| == 3 && left[1] == EXCLAMATION))
  }

  lemma TextIsDue(rx: ReadRx, c: nat, n: nat, left: seq<Byte>)
    requires IsRest(left, n) && 0 < c < NUMBER_LIMIT && n < NUMBER_LIMIT
    ensures var text := Text(c, n, left);
            IsDue(text, SignsOf(rx, text), c, n) && (SignsOf(rx, text).end <==> PieceLen(|left|) == |left|)
  {
    hide Text, SignsOf, PieceLen, Parts, NullFree, MsgNo, ConnectionNo, ValidLen, StartsWithClose;
    TextNumbers(c, n, left);
    TextShows(rx, c, n, left);
    PieceHasEnd(left);
    if n % 3 == 0 {
      NotClosing(left, n);
    }
  }

  /** A piece that starts with the close message. */
  predicate StartsWithClose(piece: seq<Byte>) {
    |piece| >= 3 && piece[0] == OPEN_BRACE && piece[1] == EXCLAMATION && piece[2] == CLOSE_BRACE
  }

  lemma NotClosing(left: seq<Byte>, n: nat)
    requires IsRest(left, n) && n % 3 == 0
    ensures !StartsWithClose(left[..PieceLen(|left|)])
  {
    PieceHasEnd(left);
    hide PieceLen, Parts, NullFree;
  }

  lemma TextNumbers(c: nat, n: nat, left: seq<Byte>)
    requires left != [] && c < NUMBER_LIMIT && n < NUMBER_LIMIT
    ensures var text := Text(c, n, left); ValidLen(text) && ConnectionNo(text) == c && MsgNo(text) == n
  {
    hide Text, DecodeInt;
    TextShape(c, n, left);
  }

  lemma PieceHasEnd(left: seq<Byte>)
    requires left != [] && left[|left| - 1] == CLOSE_BRACE && CLOSE_BRACE !in left[..|left| - 1]
    ensures CLOSE_BRACE in left[..PieceLen(|left|)] <==> PieceLen(|left|) == |left|
    ensures PieceLen(|left|) >= 3 && left[..PieceLen(|left|)][2] == CLOSE_BRACE ==> |left| == 3
  {
    var n := PieceLen(|left|);
    hide PieceLen;
    if n < |left| {
      assert left[..n] == left[..|left| - 1][..n];
    }
    if |left| > 3 && n >= 3 {
      assert left[2] == left[..|left| - 1][2] && left[2] in left[..|left| - 1];
    }
  }

  lemma RestOfRest(left: seq<Byte>, n: nat)
    requires IsRest(left, n) && PieceLen(|left|) < |left|
    ensures IsRest(left[PieceLen(|left|)..], n + 1)
  {
    var k := PieceLen(|left|);
    var rest := left[k..];
    assert Parts(rest) >= 1 && Parts(left) == 1 + Parts(rest);
    hide PieceLen, Parts;
    assert rest[..|rest| - 1] == left[..|left| - 1][k..];
  }

  /** The SMS of the rest of a command are in order, and then the next multiple of three is due. */
  lemma {:induction false} RestTalks(phone: Phone, c: nat, n: nat, left: seq<Byte>, rxs: nat -> ReadRx, more: seq<Event>, inUse: bool)
    requires HasSixDigits(Truncated(phone)) && IsRest(left, n) && 0 < c < NUMBER_LIMIT && n + 2 < NUMBER_LIMIT + n % 3 && (inUse || n % 3 == 0)
    requires Conversation(more, Truncated(phone), c, 3 * (n / 3) + 3, true)
    ensures Conversation(Sends(phone, c, n, left, rxs) + more, Truncated(phone), c, n, inUse)
    decreases |left|
  {
    hide Text, SignsOf, PieceLen, IsDue, HasSixDigits, Matches, NextExpected, Parts, IsRest, Truncated;
    var ev, k := Sms(phone, c, n, left, rxs(n)), PieceLen(|left|);
    TextIsDue(rxs(n), c, n, left);
    SixDigitsMatch(Truncated(phone));
    NextIs(n, ev.signs.end);
    RestIs(left, n);
    var rest := Sends(phone, c, n + 1, left[k..], rxs) + more;
    var all := Sends(phone, c, n, left, rxs) + more;
    assert all == [ev] + rest && all[0] == ev && all[1..] == rest;
    if k < |left| {
      RestTalks(phone, c, n + 1, left[k..], rxs, more, true);
    } else {
      assert left[k..] == [] && rest == more;
    }
  }

  lemma RestIs(left: seq<Byte>, n: nat)
    requires IsRest(left, n)
    ensures left != [] && (PieceLen(|left|) < |left| ==> n % 3 < 2 && IsRest(left[PieceLen(|left|)..], n + 1))
  {
    if PieceLen(|left|) < |left| {
      RestOfRest(left, n);
      assert Parts(left[PieceLen(|left|)..]) >= 1;
    }
    hide NullFree, PieceLen;
  }

  lemma NextIs(n: nat, foundEnd: bool)
    ensures NextExpected(n, foundEnd) == if foundEnd then 3 * (n / 3) + 3 else n + 1
  {
  }

  predicate FitThree(cmds: seq<seq<Byte>>) {
    forall cmd :: cmd in cmds ==> IsCommand(cmd) && Parts(cmd) <= 3
  }

  lemma CommandIsRest(cmd: seq<Byte>, n: nat)
    requires IsCommand(cmd) && Parts(cmd) <= 3 && n % 3 == 0
    ensures IsRest(cmd, n)
  {
    hide Parts, NullFree;
    assert cmd[..|cmd| - 1] == cmd[..|cmd| - 1];
  }

  lemma {:induction false} CommandsTalk(phone: Phone, c: nat, n: nat, cmds: seq<seq<Byte>>, rxs: nat -> ReadRx, inUse: bool)
    requires HasSixDigits(Truncated(phone)) && FitThree(cmds) && 0 < c < NUMBER_LIMIT && n % 3 == 0 && n + 3 * |cmds| <= NUMBER_LIMIT
    ensures Conversation(AllSends(phone, c, n, cmds, rxs), Truncated(phone), c, n, inUse)
    decreases |cmds|
  {
    hide Conversation, HasSixDigits, IsRest, Sends, IsCommand, Parts;
    if cmds != [] {
      assert cmds[0] in cmds;
      CommandsTalk(phone, c, n + 3, cmds[1..], rxs, true);
      CommandIsRest(cmds[0], n);
      assert 3 * (n / 3) + 3 == n + 3;
      RestTalks(phone, c, n, cmds[0], rxs, AllSends(phone, c, n + 3, cmds[1..], rxs), inUse);
    } else {
      NothingTalks(phone, c, n, inUse);
    }
  }

  lemma NothingTalks(phone: Phone, c: nat, n: nat, inUse: bool)
    ensures Conversation([], Truncated(phone), c, n, inUse)
  {
  }

  /** From a new node: a phone sends commands, each cut into at most three texts as the code prescribes, and each SMS finds
      what came before it read. The first starts the connection, and every one is acted on, in order. */
  lemma {:induction false} CommandsArrive(phone: Phone, c: nat, cmds: seq<seq<Byte>>, rxs: nat -> ReadRx)
    requires HasSixDigits(Truncated(phone)) && FitThree(cmds) && cmds != [] && 0 < c < NUMBER_LIMIT && 3 * |cmds| <= NUMBER_LIMIT
    ensures (NewInv();
             var events := AllSends(phone, c, 0, cmds, rxs);
             events != [] && events[0].Incoming? && VerdictOn(New(), phone, events[0].text, events[0].signs).StartNewConnection? &&
             ActedNumbers(New(), events, Truncated(phone)) == Numbers(events, Truncated(phone)))
  {
    NewInv();
    var events := AllSends(phone, c, 0, cmds, rxs);
    CommandsTalk(phone, c, 0, cmds, rxs, false);
    FirstSent(phone, c, cmds, rxs);
    SixDigitsMatch(Truncated(phone));
    assert [events[0]] + events[1..] == events;
    hide HasSixDigits, AllSends, IsDue, NextExpected, New, Matches, Truncated, VerdictOn;
    EverySmsActedOn(events[0], events[1..], c);
  }

  lemma FirstSent(phone: Phone, c: nat, cmds: seq<seq<Byte>>, rxs: nat -> ReadRx)
    requires cmds != [] && FitThree(cmds)
    ensures var events := AllSends(phone, c, 0, cmds, rxs); events != [] && events[0].Incoming? && events[0].phone == phone
  {
    assert cmds[0] in cmds;
    hide Text, SignsOf, PieceLen, Parts, NullFree;
  }

  // ---- what can be read ----

  function Unread(rx: Rx): seq<Byte>
    requires rx.HasPlace()
  {
    rx.buffer[rx.idx..rx.len]
  }

  /** The marker of a new connection. */
  function Marker(v: Verdict): seq<Byte> {
    if v.NewConnectionSamePhone? || v.StartNewConnection? || v.StartNewAndClose? then [CONNECTION_MARKER] else []
  }

  /** After an SMS that is acted on, exactly its bytes can be read, behind the marker of a new connection; after any other
      nothing can. */
  lemma BytesCanBeRead(rx: ReadRx, c: nat, n: nat, left: seq<Byte>, v: Verdict)
    requires left != [] && NullFree(left)
    ensures var r := Kept(rx, true, Text(c, n, left), v);
            r.HasPlace() && r.buffer[r.len] == 0 && Unread(r) == if ActsOn(v) then Marker(v) + left[..PieceLen(|left|)] else []
  {
    var text, piece := Text(c, n, left), left[..PieceLen(|left|)];
    TextRoundTrip(c, n, left);
    hide Text, DecodeCmd, NullFree;
    DecodedFits(text, 0);
    var d := DecodeCmd(text, 0);
    assert rx.idx == rx.len == 0 && d.bytes == piece && d.len == |piece|;
    var filled := SmsLink.Filled(rx, text);
    assert filled[..|piece|] == piece;
    if Marker(v) != [] {
      var r := Marked(Rx(filled, |piece|, 0));
      assert r.buffer[..|piece| + 1] == [CONNECTION_MARKER] + filled[..|piece|];
    }
  }

  /** Reading takes the first unread byte; after the last one nothing is unread. */
  lemma ReadTakesOne(rx: Rx)
    requires rx.HasPlace()
    ensures Read(rx).HasPlace() && Unread(Read(rx)) == (if Unread(rx) == [] then [] else Unread(rx)[1..])
    ensures |Unread(rx)| == 1 ==> NothingUnread(Read(rx))
  {
  }

  // ---- what an SMS leaves behind ----

  /** The numbers of the texts that answer start at 1. */
  predicate AnswersFromOne(c: Connection) {
    c.msgNoTx == c.msgNoTxNewMsg == c.msgNoTxResend == 1
  }

  predicate SameAnswers(c: Connection, d: Connection) {
    c.msgNoTx == d.msgNoTx && c.msgNoTxNewMsg == d.msgNoTxNewMsg && c.msgNoTxResend == d.msgNoTxResend
  }

  predicate StartsConnection(v: Verdict) {
    v.NewConnectionSamePhone? || v.StartNewConnection? || Closes(v)
  }

  /** Whatever arrives, nothing of it is left for the next SMS; the answers of a new or closed connection are numbered from 1,
      those of the present one go on; the last response is asked for again by a repeat and called off by whatever starts or
      closes, and only a new command takes back that a response has been set. */
  lemma {:induction false} LeavesBehind(l: Link, phone: Phone, text: seq<Byte>, signs: Signs)
    requires Inv(l) && l.next == CLEARED
    ensures var r, v := Receive(l, phone, text, signs), VerdictOn(l, phone, text, signs);
            r.next == CLEARED &&
            (if StartsConnection(v) then AnswersFromOne(r.current) else SameAnswers(r.current, l.current) || AnswersFromOne(r.current)) &&
            r.resendLastResponse == (if v.ResendLastResponse? then true else if !ActsOn(v) || v.ProcessNextPart? then l.resendLastResponse else false) &&
            r.responseSet == (if v.StartNewCommand? || v.NewConnectionSamePhone? || v.StartNewConnection? then false else l.responseSet)
  {
    ReceiveIs(l, phone, text, signs);
    var from, v := From(l, phone), VerdictOn(l, phone, text, signs);
    hide Distinct, HasSixDigits, Decide, Inv, Receive, VerdictOn, Judged, Count, Follow, Behind, Truncated, ActsOn, StartsConnection;
    if Readable(from, text, signs) {
      JudgedBegins(l, phone, text);
      CountBegins(Judged(l, phone, text), v, signs.end);
      FollowLeaves(l, Count(Judged(l, phone, text), v, signs.end), v);
    } else {
      FollowLeaves(l, from, Ignore);
    }
  }

  /** The next connection is a cleared one but for its phone and numbers. */
  predicate Begins(l: Link, e: Link) {
    AnswersFromOne(e.next) && (SameAnswers(e.current, l.current) || AnswersFromOne(e.current)) &&
    e.resendLastResponse == l.resendLastResponse && e.responseSet == l.responseSet
  }

  lemma JudgedBegins(l: Link, phone: Phone, text: seq<Byte>)
    requires ValidLen(text) && l.next == CLEARED
    ensures Begins(l, Judged(l, phone, text))
  {
    hide FindMatching, Matches, MsgNo, ConnectionNo, Truncated;
  }

  lemma CountBegins(e: Link, v: Verdict, foundEnd: bool)
    ensures forall l :: Begins(l, e) ==> Begins(l, Count(e, v, foundEnd))
  {
    hide NextExpected;
  }

  lemma FollowLeaves(l: Link, e: Link, v: Verdict)
    requires e.known != [] && Begins(l, e)
    ensures var r := Follow(e, v);
            r.next == CLEARED && (if StartsConnection(v) then AnswersFromOne(r.current) else SameAnswers(r.current, l.current) || AnswersFromOne(r.current)) &&
            r.resendLastResponse == (if v.ResendLastResponse? then true else if !ActsOn(v) || v.ProcessNextPart? then l.resendLastResponse else false) &&
            r.responseSet == (if v.StartNewCommand? || v.NewConnectionSamePhone? || v.StartNewConnection? then false else l.responseSet)
  {
    hide SetTop, UpdateAndMoveToTop;
  }

  lemma ClosedIsFree(l: Link, phone: Phone, text: seq<Byte>, signs: Signs)
    requires Inv(l) && Closes(VerdictOn(l, phone, text, signs))
    ensures Receive(l, phone, text, signs).current.timedOut
  {
    ReceiveIs(l, phone, text, signs);
    hide Distinct, HasSixDigits, FindMatching, Recorded, Decide, Inv, Receive, MsgNo, ConnectionNo, Greater, SetTop, UpdateAndMoveToTop, Matches,
      NextExpected, Behind, Truncated;
  }

  /** A closed connection does not keep other phones out: the first SMS of any of them starts one at once. */
  lemma {:induction false} AfterCloseAnotherStarts(l: Link, phone: Phone, text: seq<Byte>, signs: Signs, other: Phone, first: seq<Byte>, firstSigns: Signs, c: nat)
    requires Inv(l) && Closes(VerdictOn(l, phone, text, signs))
    requires HasSixDigits(Truncated(other)) && !Matches(Receive(l, phone, text, signs).current.phone, Truncated(other))
    requires IsDue(first, firstSigns, c, 0) && c > 0
    requires var n := Recorded(Receive(l, phone, text, signs).known, Truncated(other)); n == -1 || Greater(n, c)
    ensures (ReceiveKeeps(l, phone, text, signs);
             var r := Receive(l, phone, text, signs);
             VerdictOn(r, other, first, firstSigns).StartNewConnection? &&
             Talking(Receive(r, other, first, firstSigns), Truncated(other), c, NextExpected(0, firstSigns.end)))
  {
    ReceiveKeeps(l, phone, text, signs);
    ClosedIsFree(l, phone, text, signs);
    hide Receive, VerdictOn, Inv, Distinct, HasSixDigits, Recorded, Greater, Matches, IsDue;
    ConversationStarts(Receive(l, phone, text, signs), other, first, firstSigns, c);
  }

  /** Connection number 0 is newer than every other one. */
  lemma ZeroIsNewest(n: nat)
    ensures Greater(n, 0) <==> n != 0
  {
  }

  /** A phone can be matched exactly if its last six characters are digits. */
  lemma SixDigitsExactly(phone: Phone)
    ensures HasSixDigits(phone) <==>
              |phone| >= 6 && forall i :: |phone| - 6 <= i < |phone| ==> phone[i] in {0x30, 0x31, 0x32, 0x33, 0x34, 0x35, 0x36, 0x37, 0x38, 0x39}
  {
    if |phone| >= 6 {
      var six := LastSix(phone);
      assert forall i :: 0 <= i < 6 ==> six[i] == phone[|phone| - 6 + i];
      if HasSixDigits(phone) {
        forall i | |phone| - 6 <= i < |phone| ensures IsDigit(phone[i]) {
          assert six[i - (|phone| - 6)] in six;
        }
      }
    }
  }
}
