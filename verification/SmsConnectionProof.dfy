/** What every operation keeps of the list of known phones. */
module SmsKnownProof {
  import opened Bytes
  import opened SmsPhones

  lemma FindsTheOne(known: seq<Known>, i: nat, phone: Phone)
    requires Distinct(known) && i < |known| && Matches(known[i].phone, phone)
    ensures FindMatching(known, phone) == i && Recorded(known, phone) == known[i].connectionNo
  {
    var j := FindMatching(known, phone);
    if 0 <= j < i {
      BothMatch(known[j].phone, known[i].phone, phone);
    }
  }

  lemma BothMatch(a: Phone, b: Phone, phone: Phone)
    requires Matches(a, phone) && Matches(b, phone)
    ensures Matches(a, b)
  {
  }

  lemma FindsNone(known: seq<Known>, phone: Phone)
    requires forall i :: 0 <= i < |known| ==> !Matches(known[i].phone, phone)
    ensures FindMatching(known, phone) == -1 && Recorded(known, phone) == -1
  {
  }

  /** Replacing an entry by one for the same phone, or by one that matches nothing else, keeps the entries distinct. */
  lemma ReplaceKeeps(known: seq<Known>, i: nat, k: Known)
    requires Distinct(known) && i < |known| && (k.phone == [] || HasSixDigits(k.phone))
    requires forall j :: 0 <= j < |known| && j != i ==> !Matches(known[j].phone, k.phone)
    ensures Distinct(known[i := k])
  {
  }

  /** Replacing one entry changes what is recorded only for the phones the old and the new entry match. */
  lemma ReplaceRecorded(known: seq<Known>, i: nat, k: Known, q: Phone)
    requires Distinct(known) && i < |known| && Distinct(known[i := k])
    ensures Recorded(known[i := k], q)
         == if Matches(k.phone, q) then k.connectionNo else if Matches(known[i].phone, q) then -1 else Recorded(known, q)
  {
    var r := known[i := k];
    var j := FindMatching(known, q);
    if Matches(k.phone, q) {
      FindsTheOne(r, i, q);
    } else if Matches(known[i].phone, q) {
      FindsTheOne(known, i, q);
      forall m | 0 <= m < |r| ensures !Matches(r[m].phone, q) {
        if m != i && Matches(r[m].phone, q) {
          FindsTheOne(known, m, q);
        }
      }
      FindsNone(r, q);
    } else if j >= 0 {
      FindsTheOne(r, j, q);
      FindsTheOne(known, j, q);
    } else {
      FindsNone(r, q);
    }
  }

  /** Where the entry at j comes from when the entry at i is moved to the top. */
  function Before(i: nat, j: nat): nat {
    if j == 0 then i else if j <= i then j - 1 else j
  }

  lemma MoveToTopIs(known: seq<Known>, i: nat)
    requires i < |known|
    ensures forall j :: 0 <= j < |known| ==> Before(i, j) < |known| && MoveToTop(known, i)[j] == known[Before(i, j)]
  {
  }

  lemma MoveKeeps(known: seq<Known>, i: nat)
    requires Distinct(known) && i < |known|
    ensures Distinct(MoveToTop(known, i))
  {
    MoveToTopIs(known, i);
    hide MoveToTop, HasSixDigits;
    var r := MoveToTop(known, i);
    forall a, b | 0 <= a < b < |r| ensures !Matches(r[a].phone, r[b].phone) {
      var x, y := Before(i, a), Before(i, b);
      assert x != y;
      assert !Matches(known[if x < y then x else y].phone, known[if x < y then y else x].phone);
    }
  }

  lemma MoveRecorded(known: seq<Known>, i: nat, q: Phone)
    requires Distinct(known) && i < |known|
    ensures Recorded(MoveToTop(known, i), q) == Recorded(known, q)
  {
    MoveToTopIs(known, i);
    MoveKeeps(known, i);
    hide MoveToTop, HasSixDigits, Distinct, Matches;
    var r := MoveToTop(known, i);
    var j := FindMatching(r, q);
    if j >= 0 {
      FindsTheOne(r, j, q);
      FindsTheOne(known, Before(i, j), q);
    } else {
      forall m | 0 <= m < |known| ensures !Matches(known[m].phone, q) {
        var after := if m == i then 0 else if m < i then m + 1 else m;
        assert r[after] == known[m];
      }
      FindsNone(known, q);
    }
  }

  /** No free entry and not a known phone: its entry takes the place of the last one. */
  predicate Evicts(known: seq<Known>, phone: Phone) {
    FindMatching(known, phone) < 0 && forall i :: 0 <= i < |known| ==> known[i].phone != []
  }

  /** Where an update records a phone. */
  lemma UpdateIs(known: seq<Known>, phone: Phone, connectionNo: nat) returns (at: nat)
    requires Distinct(known) && known != [] && HasSixDigits(phone) && |phone| <= MAX_PHNO_LEN
    ensures var u := Update(known, phone, connectionNo);
            at < |known| && u == known[at := u[at]] && Distinct(u) &&
            Matches(u[at].phone, phone) && u[at].connectionNo == connectionNo && FindMatching(u, phone) == at
    ensures FindMatching(known, phone) >= 0 ==> at == FindMatching(known, phone)
    ensures FindMatching(known, phone) < 0 ==> at == FindEmpty(known)
  {
    var i := FindMatching(known, phone);
    at := if i >= 0 then i else FindEmpty(known);
    var u := Update(known, phone, connectionNo);
    hide HasSixDigits;
    if i >= 0 {
      forall j | 0 <= j < |known| && j != i ensures !Matches(known[j].phone, known[i].phone) {
        MatchesBothWays(known[j].phone, known[i].phone);
      }
    }
    ReplaceKeeps(known, at, u[at]);
    SixDigitsMatch(phone);
    FindsTheOne(u, at, phone);
  }

  lemma MatchesBothWays(a: Phone, b: Phone)
    ensures Matches(a, b) == Matches(b, a)
  {
  }

  lemma SixDigitsMatch(phone: Phone)
    requires HasSixDigits(phone)
    ensures Matches(phone, phone)
  {
  }

  /** An update puts the phone on top with its number and loses no other phone but the one it evicts. */
  lemma UpdateAndMoveKeeps(known: seq<Known>, phone: Phone, connectionNo: nat)
    requires Distinct(known) && known != [] && HasSixDigits(phone) && |phone| <= MAX_PHNO_LEN
    ensures var r := UpdateAndMoveToTop(known, phone, connectionNo);
            Distinct(r) && Matches(r[0].phone, phone) && r[0].connectionNo == connectionNo
  {
    hide HasSixDigits, Distinct, Update, FindMatching, Matches;
    var at := UpdateIs(known, phone, connectionNo);
    MoveKeeps(Update(known, phone, connectionNo), at);
  }

  lemma MatchesAlike(a: Phone, b: Phone, q: Phone)
    requires Matches(a, b)
    ensures Matches(a, q) == Matches(b, q)
  {
  }

  /** What stood at the place of an update: the phone itself, nothing, or the entry it evicts. */
  lemma Displaced(known: seq<Known>, phone: Phone, at: nat, q: Phone)
    requires known != [] && at == if FindMatching(known, phone) >= 0 then FindMatching(known, phone) else FindEmpty(known)
    ensures !Matches(phone, q) ==>
              (Matches(known[at].phone, q) <==> Evicts(known, phone) && Matches(known[|known| - 1].phone, q))
  {
    hide FindMatching, FindEmpty;
    if FindMatching(known, phone) >= 0 {
      MatchesAlike(known[at].phone, phone, q);
    } else if known[at].phone != [] {
      assert forall i :: 0 <= i < |known| ==> known[i].phone != [];
    }
  }

  lemma UpdateAndMoveRecorded(known: seq<Known>, phone: Phone, connectionNo: nat, q: Phone)
    requires Distinct(known) && known != [] && HasSixDigits(phone) && |phone| <= MAX_PHNO_LEN
    ensures var r := UpdateAndMoveToTop(known, phone, connectionNo);
            Recorded(r, q) == if Matches(phone, q) then connectionNo
                              else if Evicts(known, phone) && Matches(known[|known| - 1].phone, q) then -1
                              else Recorded(known, q)
  {
    hide HasSixDigits, Distinct, Update, FindMatching, FindEmpty, Recorded, Matches, Evicts;
    var at := UpdateIs(known, phone, connectionNo);
    var u := Update(known, phone, connectionNo);
    ReplaceRecorded(known, at, u[at], q);
    MatchesAlike(u[at].phone, phone, q);
    Displaced(known, phone, at, q);
    MoveRecorded(u, at, q);
  }
}

/** The connection machine over whole runs. */
module SmsLinkProof {
  import opened Bytes
  import opened SmsCode
  import opened SmsDecoding
  import opened SmsPhones
  import opened SmsLink
  import opened SmsKnownProof

  /** The phones in the list are told apart, and the current phone, if any, is on top with its connection number. */
  predicate Inv(l: Link) {
    |l.known| == MAX_KNOWN_CONNECTION && Distinct(l.known) &&
    (l.current.phone != [] ==>
      HasSixDigits(l.current.phone) && Matches(l.known[0].phone, l.current.phone) &&
      l.known[0].connectionNo == l.current.connectionNo)
  }

  function New(): Link {
    Link(CLEARED, CLEARED, seq(MAX_KNOWN_CONNECTION, i => EMPTY), false, false)
  }

  lemma NewInv()
    ensures Inv(New())
  {
  }

  /** An SMS of the current phone always finds that phone on top of the list: the repair is never needed. */
  lemma NeverRepairs(l: Link, text: seq<Byte>)
    requires Inv(l) && ValidLen(text)
    ensures !NeedsRepair(l, text)
  {
    hide MsgNo, ConnectionNo, HasSixDigits;
    if !Erases(l, text) && Matches(l.current.phone, l.next.phone) {
      FindsTheOne(l.known, 0, l.next.phone);
    }
  }

  lemma TopIsCurrent(l: Link, phone: Phone)
    requires Inv(l) && l.current.phone != []
    ensures Matches(l.known[0].phone, phone) <==> Matches(l.current.phone, phone)
  {
  }

  /** Erasing a phone leaves the others alone. */
  lemma EraseKeeps(l: Link, text: seq<Byte>)
    requires Inv(l) && ValidLen(text)
    ensures Inv(Erase(l, text))
  {
    hide MsgNo, ConnectionNo, HasSixDigits;
    if Erases(l, text) {
      var i := FindMatching(l.known, l.next.phone);
      ReplaceKeeps(l.known, i, EMPTY);
      if l.current.phone != [] {
        TopIsCurrent(l, l.next.phone);
      }
    }
  }

  lemma EraseRecorded(l: Link, text: seq<Byte>, q: Phone)
    requires Inv(l) && ValidLen(text)
    ensures Recorded(Erase(l, text).known, q)
         == if Erases(l, text) && Matches(l.next.phone, q) then -1 else Recorded(l.known, q)
  {
    hide MsgNo, ConnectionNo, HasSixDigits;
    if Erases(l, text) {
      var i := FindMatching(l.known, l.next.phone);
      ReplaceKeeps(l.known, i, EMPTY);
      ReplaceRecorded(l.known, i, EMPTY, q);
      hide Distinct;
      assert Matches(l.known[i].phone, l.next.phone);
      assert Matches(l.known[i].phone, q) <==> Matches(l.next.phone, q);
    }
  }

  /** Putting the number of the phone on top. */
  lemma SetTopKeeps(known: seq<Known>, c: Connection, q: Phone)
    requires Distinct(known) && known != [] && HasSixDigits(c.phone) && |c.phone| <= MAX_PHNO_LEN && Matches(known[0].phone, c.phone)
    ensures var r := SetTop(known, c);
            Distinct(r) && r[0] == Known(c.connectionNo, c.phone) &&
            Recorded(r, q) == if Matches(c.phone, q) then c.connectionNo else Recorded(known, q)
  {
    hide HasSixDigits;
    var k := Known(c.connectionNo, c.phone);
    FindsTheOne(known, 0, c.phone);
    forall j | 0 <= j < |known| && j != 0 ensures !Matches(known[j].phone, k.phone) {
      if Matches(known[j].phone, c.phone) {
        FindsTheOne(known, j, c.phone);
      }
    }
    ReplaceKeeps(known, 0, k);
    ReplaceRecorded(known, 0, k, q);
  }

  /** What the numbers of an SMS have to do with the current connection, or with what is recorded, for each verdict. */
  predicate Behind(l: Link, text: seq<Byte>, v: Verdict)
    requires ValidLen(text)
  {
    match v
    case Ignore => true
    case CloseConnection | StartNewCommand | ProcessNextPart =>
      Matches(l.current.phone, l.next.phone) && !Erases(l, text) && l.current.connectionNo == ConnectionNo(text) &&
      MsgNo(text) == l.current.msgNoRx && MsgNo(text) > 0
    case ResendLastResponse =>
      Matches(l.current.phone, l.next.phone) && !Erases(l, text) && l.current.connectionNo == ConnectionNo(text) &&
      MsgNo(text) + 3 == l.current.msgNoRx
    case CloseAndUpdate | NewConnectionSamePhone =>
      Matches(l.current.phone, l.next.phone) && !Erases(l, text) && Greater(l.current.connectionNo, ConnectionNo(text)) &&
      MsgNo(text) == 0
    case IgnoreConnection | StartNewConnection | StartNewAndClose =>
      !Matches(Erase(l, text).current.phone, l.next.phone) && MsgNo(text) == 0 &&
      (Erases(l, text) || Recorded(l.known, l.next.phone) == -1 || Greater(Recorded(l.known, l.next.phone), ConnectionNo(text)))
  }

  function Noted(l: Link, text: seq<Byte>): Link
    requires ValidLen(text)
  {
    l.(next := l.next.(connectionNo := ConnectionNo(text), msgNoRx := 0))
  }

  /** The same of the judgement alone. */
  predicate BehindJudgement(e: Link, recorded: int, msgNo: nat, connectionNo: nat, v: Verdict) {
    match v
    case Ignore => true
    case CloseConnection | StartNewCommand | ProcessNextPart =>
      Matches(e.current.phone, e.next.phone) && e.current.connectionNo == connectionNo && msgNo == e.current.msgNoRx && msgNo > 0
    case ResendLastResponse =>
      Matches(e.current.phone, e.next.phone) && e.current.connectionNo == connectionNo && msgNo + 3 == e.current.msgNoRx
    case CloseAndUpdate | NewConnectionSamePhone =>
      Matches(e.current.phone, e.next.phone) && Greater(e.current.connectionNo, connectionNo) && msgNo == 0
    case IgnoreConnection | StartNewConnection | StartNewAndClose =>
      !Matches(e.current.phone, e.next.phone) && msgNo == 0 && (recorded < 0 || Greater(recorded, connectionNo))
  }

  lemma Judgement(e: Link, recorded: int, msgNo: nat, connectionNo: nat, close: bool)
    ensures BehindJudgement(e, recorded, msgNo, connectionNo, Judge(e, recorded, msgNo, connectionNo, close))
  {
    hide Matches, Greater;
  }

  lemma VerdictsNeed(l: Link, text: seq<Byte>, signs: Signs)
    requires Inv(l)
    ensures Readable(l, text, signs) ==> NotedDown(l, text) == Erase(Noted(l, text), text) && Behind(l, text, Decide(l, text, signs))
    ensures !Readable(l, text, signs) ==> Decide(l, text, signs).Ignore?
  {
    hide MsgNo, ConnectionNo, HasSixDigits, Greater, Recorded, FindMatching, Distinct, Judge;
    if Readable(l, text, signs) {
      NeverRepairs(l, text);
      Judgement(NotedDown(l, text), if Erases(l, text) then -1 else Recorded(l.known, l.next.phone),
                MsgNo(text), ConnectionNo(text), signs.close);
      hide Repair, NeedsRepair;
      ErasedMatchesNothing(l, text);
    }
  }

  lemma ErasedMatchesNothing(l: Link, text: seq<Byte>)
    requires ValidLen(text)
    ensures Erases(l, text) ==> !Matches(Erase(l, text).current.phone, l.next.phone)
  {
  }

  /** The SMS comes from the phone of the current connection, and does not make the node forget it. */
  predicate SamePhone(l: Link, text: seq<Byte>)
    requires ValidLen(text)
  {
    Matches(l.current.phone, l.next.phone) && !Erases(l, text)
  }

  /** It belongs to the current connection. */
  predicate SameConnectionNo(l: Link, text: seq<Byte>)
    requires ValidLen(text)
  {
    SamePhone(l, text) && ConnectionNo(text) == l.current.connectionNo
  }

  /** It could start a connection of another phone, which is not known or known with a number before this one. */
  predicate OtherPhone(l: Link, text: seq<Byte>)
    requires ValidLen(text)
  {
    !SamePhone(l, text) && MsgNo(text) == 0 &&
    (Erases(l, text) || Recorded(l.known, l.next.phone) == -1 || Greater(Recorded(l.known, l.next.phone), ConnectionNo(text)))
  }

  /** Nothing is to be kept for the current connection: it has timed out, or its phone is being forgotten. */
  predicate Free(l: Link, text: seq<Byte>)
    requires ValidLen(text)
  {
    l.current.timedOut || (Matches(l.current.phone, l.next.phone) && Erases(l, text))
  }

  /** When an SMS with bytes in it, and with a start where there must be one, gets which verdict. */
  predicate When(l: Link, text: seq<Byte>, close: bool, v: Verdict)
    requires ValidLen(text)
  {
    var m, expected := MsgNo(text), l.current.msgNoRx;
    match v
    case CloseConnection => SameConnectionNo(l, text) && m == expected > 0 && m % 3 == 0 && close
    case StartNewCommand => SameConnectionNo(l, text) && m == expected > 0 && m % 3 == 0 && !close
    case ProcessNextPart => SameConnectionNo(l, text) && m == expected && m % 3 != 0
    case ResendLastResponse => SameConnectionNo(l, text) && m + 3 == expected && m % 3 == 0
    case CloseAndUpdate => SamePhone(l, text) && Greater(l.current.connectionNo, ConnectionNo(text)) && m == 0 && close
    case NewConnectionSamePhone => SamePhone(l, text) && Greater(l.current.connectionNo, ConnectionNo(text)) && m == 0 && !close
    case IgnoreConnection => OtherPhone(l, text) && !Free(l, text)
    case StartNewConnection => OtherPhone(l, text) && Free(l, text) && !close
    case StartNewAndClose => OtherPhone(l, text) && Free(l, text) && close
    case Ignore =>
      if SameConnectionNo(l, text) then (m != expected || m == 0) && (m + 3 != expected || m % 3 != 0)
      else if SamePhone(l, text) then m != 0 || !Greater(l.current.connectionNo, ConnectionNo(text))
      else !OtherPhone(l, text)
  }

  lemma NotGreaterThanItself(n: nat)
    ensures !Greater(n, n)
  {
  }

  lemma JudgedExactly(l: Link, e: Link, recorded: int, text: seq<Byte>, close: bool, v: Verdict)
    requires ValidLen(text) && recorded == (if Erases(l, text) then -1 else Recorded(l.known, l.next.phone))
    requires e.next.phone == l.next.phone && (Matches(e.current.phone, e.next.phone) <==> SamePhone(l, text))
    requires SamePhone(l, text) ==> e.current == l.current
    requires e.current.timedOut <==> Free(l, text)
    ensures Judge(e, recorded, MsgNo(text), ConnectionNo(text), close) == v <==> When(l, text, close, v)
  {
    NotGreaterThanItself(l.current.connectionNo);
    hide Matches, Greater, MsgNo, ConnectionNo, Erases, Recorded;
  }

  /** What is noted down does to the current connection. */
  lemma NotedIs(l: Link, text: seq<Byte>)
    requires Inv(l) && ValidLen(text)
    ensures var e := NotedDown(l, text);
            e.next.phone == l.next.phone && (Matches(e.current.phone, e.next.phone) <==> SamePhone(l, text)) &&
            (SamePhone(l, text) ==> e.current == l.current) && (e.current.timedOut <==> Free(l, text))
  {
    NeverRepairs(l, text);
    hide MsgNo, ConnectionNo, HasSixDigits, FindMatching, Distinct, Repair, NeedsRepair;
  }

  /** Exactly when an SMS gets which of the ten verdicts. */
  lemma Verdicts(l: Link, text: seq<Byte>, signs: Signs, v: Verdict)
    requires Inv(l)
    ensures Decide(l, text, signs) == v <==>
              if !Readable(l, text, signs) || (MsgNo(text) % 3 == 0 && !signs.start) then v.Ignore? else When(l, text, signs.close, v)
  {
    hide MsgNo, ConnectionNo, HasSixDigits, Recorded, FindMatching, Distinct, Judge, When, NotedDown, Erases, SamePhone, Free;
    if Readable(l, text, signs) {
      NotedIs(l, text);
      JudgedExactly(l, NotedDown(l, text), if Erases(l, text) then -1 else Recorded(l.known, l.next.phone), text, signs.close, v);
    }
  }

  // ---- one SMS ----

  /** The link an SMS is judged by, with its numbers noted and the phone erased if they are (0,0). */
  function Judged(l: Link, phone: Phone, text: seq<Byte>): Link
    requires ValidLen(text)
  {
    Erase(Noted(From(l, phone), text), text)
  }

  lemma JudgedKeeps(l: Link, phone: Phone, text: seq<Byte>, q: Phone)
    requires Inv(l) && ValidLen(text)
    ensures var e := Judged(l, phone, text);
            Inv(e) && e.next.phone == Truncated(phone) && e.next.connectionNo == ConnectionNo(text) &&
            Recorded(e.known, q) == if Erases(From(l, phone), text) && Matches(Truncated(phone), q) then -1 else Recorded(l.known, q)
  {
    hide Distinct, HasSixDigits, Recorded, FindMatching, MsgNo, ConnectionNo;
    var n := Noted(From(l, phone), text);
    EraseKeeps(n, text);
    EraseRecorded(n, text, q);
  }

  /** What a verdict that puts the next connection in place makes of the list. */
  lemma ReplacedKeeps(e: Link, v: Verdict, foundEnd: bool, q: Phone)
    requires Inv(e) && HasSixDigits(e.next.phone) && |e.next.phone| <= MAX_PHNO_LEN
    requires v.StartNewConnection? || v.StartNewAndClose? ||
             ((v.CloseAndUpdate? || v.NewConnectionSamePhone?) && Matches(e.current.phone, e.next.phone))
    ensures var r := Follow(Count(e, v, foundEnd), v);
            Inv(r) && r.current.phone == e.next.phone && r.current.connectionNo == e.next.connectionNo &&
            Recorded(r.known, q)
            == if Matches(e.next.phone, q) then e.next.connectionNo
               else if (v.StartNewConnection? || v.StartNewAndClose?) && Evicts(e.known, e.next.phone) && Matches(e.known[9].phone, q) then -1
               else Recorded(e.known, q)
  {
    hide HasSixDigits, Distinct, Recorded, FindMatching, Evicts, UpdateAndMoveToTop, SetTop;
    if v.StartNewConnection? || v.StartNewAndClose? {
      UpdateAndMoveKeeps(e.known, e.next.phone, e.next.connectionNo);
      UpdateAndMoveRecorded(e.known, e.next.phone, e.next.connectionNo, q);
    } else {
      SetTopKeeps(e.known, Count(e, v, foundEnd).next, q);
      SixDigitsMatch(e.next.phone);
    }
  }

  predicate Replaces(v: Verdict) {
    v.StartNewConnection? || v.StartNewAndClose? || v.CloseAndUpdate? || v.NewConnectionSamePhone?
  }

  /** Every other verdict leaves the list and the numbers of the connections alone. */
  lemma OtherwiseKept(e: Link, v: Verdict, foundEnd: bool)
    requires Inv(e) && !Replaces(v)
    ensures var r := Follow(Count(e, v, foundEnd), v);
            Inv(r) && r.known == e.known && r.current.phone == e.current.phone && r.current.connectionNo == e.current.connectionNo
  {
    hide HasSixDigits, Distinct;
  }

  /** An SMS that means nothing leaves everything as it was; any other is judged and the verdict followed. */
  lemma ReceiveIs(l: Link, phone: Phone, text: seq<Byte>, signs: Signs)
    requires Inv(l)
    ensures var from, v := From(l, phone), VerdictOn(l, phone, text, signs);
            if Readable(from, text, signs) then
              Behind(from, text, v) && HasSixDigits(from.next.phone) && ValidLen(text) &&
              Receive(l, phone, text, signs) == Follow(Count(Judged(l, phone, text), v, signs.end), v)
            else v.Ignore? && Receive(l, phone, text, signs) == Follow(from, Ignore)
  {
    hide Distinct, HasSixDigits, Follow, Count, Erase, Behind, Decide;
    VerdictsNeed(From(l, phone), text, signs);
  }

  lemma {:induction false} ReceiveKeeps(l: Link, phone: Phone, text: seq<Byte>, signs: Signs)
    requires Inv(l)
    ensures Inv(Receive(l, phone, text, signs))
  {
    ReceiveIs(l, phone, text, signs);
    hide Distinct, HasSixDigits, Erase, Receive, Count;
    var v := VerdictOn(l, phone, text, signs);
    if Readable(From(l, phone), text, signs) {
      var e, foundEnd := Judged(l, phone, text), signs.end;
      JudgedKeeps(l, phone, text, phone);
      hide Follow;
      if Replaces(v) {
        ReplacedKeeps(e, v, foundEnd, phone);
      } else {
        OtherwiseKept(e, v, foundEnd);
      }
    }
  }

  /** Why the number recorded for a phone may change. */
  predicate Explained(l: Link, phone: Phone, text: seq<Byte>, q: Phone, was: int, now: int)
    requires l.known != [] && was >= -1 && now >= -1
  {
    now == was ||
    // A greater number, a phone that was not known, or the numbers (0,0) from that phone.
    (Matches(Truncated(phone), q) && ValidLen(text) &&
      (was == -1 || (now >= 0 && Greater(was, now)) || (ConnectionNo(text) == 0 && MsgNo(text) == 0))) ||
    // An unknown phone takes the last place of a full list.
    (now == -1 && !Matches(Truncated(phone), q) && Evicts(l.known, Truncated(phone)) && Matches(l.known[|l.known| - 1].phone, q))
  }

  /** A verdict that puts the next connection in place for the current phone comes from that phone. */
  lemma ReplacesSame(l: Link, phone: Phone, text: seq<Byte>, v: Verdict)
    requires ValidLen(text) && l.known != [] && Behind(From(l, phone), text, v)
    ensures var e := Judged(l, phone, text);
            |e.next.phone| <= MAX_PHNO_LEN &&
            (v.CloseAndUpdate? || v.NewConnectionSamePhone? ==> Matches(e.current.phone, e.next.phone))
  {
    hide MsgNo, ConnectionNo, FindMatching, Greater, Recorded;
  }

  lemma ReplacedExplained(l: Link, phone: Phone, text: seq<Byte>, signs: Signs, v: Verdict, foundEnd: bool, q: Phone)
    requires Inv(l) && Readable(From(l, phone), text, signs) && Behind(From(l, phone), text, v) && Replaces(v)
    ensures Explained(l, phone, text, q, Recorded(l.known, q), Recorded(Follow(Count(Judged(l, phone, text), v, foundEnd), v).known, q))
  {
    hide Distinct, HasSixDigits, Count, Follow, FindMatching, Recorded, MsgNo, ConnectionNo;
    var e, from := Judged(l, phone, text), From(l, phone);
    JudgedKeeps(l, phone, text, q);
    ReplacedKeeps(e, v, foundEnd, q);
    assert Erases(from, text) ==> e.known[FindMatching(l.known, from.next.phone)].phone == [];
    if Matches(from.next.phone, q) {
      SameRecorded(l.known, from.next.phone, q);
      if Matches(l.current.phone, q) {
        CurrentIsRecorded(l, q);
      }
    }
  }

  lemma {:induction false} ReceiveRecorded(l: Link, phone: Phone, text: seq<Byte>, signs: Signs, q: Phone)
    requires Inv(l)
    ensures Explained(l, phone, text, q, Recorded(l.known, q), Recorded(Receive(l, phone, text, signs).known, q))
  {
    hide Distinct, HasSixDigits, Receive, Count, FindMatching, Recorded, Evicts, Judged, Behind, MsgNo, ConnectionNo, Erase;
    ReceiveIs(l, phone, text, signs);
    var v, from := VerdictOn(l, phone, text, signs), From(l, phone);
    if Readable(from, text, signs) {
      var e, foundEnd := Judged(l, phone, text), signs.end;
      hide Follow;
      if Replaces(v) {
        ReplacedExplained(l, phone, text, signs, v, foundEnd, q);
      } else {
        JudgedKeeps(l, phone, text, q);
        OtherwiseKept(e, v, foundEnd);
      }
    }
  }

  lemma CurrentIsRecorded(l: Link, q: Phone)
    requires Inv(l) && Matches(l.current.phone, q)
    ensures Recorded(l.known, q) == l.current.connectionNo
  {
    FindsTheOne(l.known, 0, q);
  }

  lemma {:induction false} SameRecorded(known: seq<Known>, p: Phone, q: Phone)
    requires Matches(p, q)
    ensures FindMatching(known, p) == FindMatching(known, q) && Recorded(known, p) == Recorded(known, q)
  {
    if known != [] {
      SameRecorded(known[1..], p, q);
    }
  }

  // ---- runs ----

  /** What happens to the link: an SMS, whatever the receive buffer holds when it arrives, the idle timeout of the current
      connection, and the sender moving on. */
  datatype Event =
    | Incoming(phone: Phone, text: seq<Byte>, signs: Signs)
    | IdleTimeout
    | SenderMoves(msgNoTx: nat, msgNoTxNewMsg: nat, msgNoTxResend: nat, resendLastResponse: bool, responseSet: bool)

  function Step(l: Link, ev: Event): Link
    requires l.known != []
  {
    match ev
    case Incoming(phone, text, signs) => Receive(l, phone, text, signs)
    case IdleTimeout => l.(current := l.current.(timedOut := true))
    case SenderMoves(tx, newMsg, resend, last, given) =>
      l.(current := l.current.(msgNoTx := tx, msgNoTxNewMsg := newMsg, msgNoTxResend := resend),
         resendLastResponse := last, responseSet := given)
  }

  lemma StepKeeps(l: Link, ev: Event)
    requires Inv(l)
    ensures Inv(Step(l, ev))
  {
    hide Receive, Distinct, HasSixDigits;
    if ev.Incoming? {
      ReceiveKeeps(l, ev.phone, ev.text, ev.signs);
    }
  }

  /** The number of the SMS from a phone that an event hands to the command parser. */
  function ActedOn(l: Link, ev: Event, q: Phone): seq<nat>
    requires l.known != []
  {
    if ev.Incoming? && ActsOn(VerdictOn(l, ev.phone, ev.text, ev.signs)) && ValidLen(ev.text) && Matches(Truncated(ev.phone), q)
    then [MsgNo(ev.text)] else []
  }

  /** A run during which the number recorded for a phone is always n. */
  predicate StaysRecorded(l: Link, events: seq<Event>, q: Phone, n: nat)
    requires Inv(l)
    decreases |events|
  {
    Recorded(l.known, q) == n &&
    (events != [] ==> (StepKeeps(l, events[0]); StaysRecorded(Step(l, events[0]), events[1..], q, n)))
  }

  function Run(l: Link, events: seq<Event>): (r: Link)
    requires Inv(l)
    ensures Inv(r)
    decreases |events|
  {
    if events == [] then l else StepKeeps(l, events[0]); Run(Step(l, events[0]), events[1..])
  }

  function ActedNumbers(l: Link, events: seq<Event>, q: Phone): seq<nat>
    requires Inv(l)
    decreases |events|
  {
    if events == [] then []
    else StepKeeps(l, events[0]); ActedOn(l, events[0], q) + ActedNumbers(Step(l, events[0]), events[1..], q)
  }

  /** The number the node expects from a phone under the number recorded for it; 0 if it expects nothing. */
  function Next(l: Link, q: Phone): nat {
    if Matches(l.current.phone, q) then l.current.msgNoRx else 0
  }

  lemma ActingReplaces(l: Link, phone: Phone, text: seq<Byte>, signs: Signs, q: Phone, n: nat)
    requires Inv(l) && n > 0 && Recorded(l.known, q) == n == Recorded(Receive(l, phone, text, signs).known, q)
    requires Readable(From(l, phone), text, signs) && Matches(Truncated(phone), q)
    ensures !Replaces(VerdictOn(l, phone, text, signs)) && !Erases(From(l, phone), text)
  {
    hide Distinct, HasSixDigits, Receive, Count, FindMatching, Recorded, Evicts, Judged, Behind, MsgNo, ConnectionNo, Erase, Follow;
    ReceiveIs(l, phone, text, signs);
    var v, e, foundEnd := VerdictOn(l, phone, text, signs), Judged(l, phone, text), signs.end;
    JudgedKeeps(l, phone, text, q);
    if Replaces(v) {
      ReplacesSame(l, phone, text, v);
      ReplacedKeeps(e, v, foundEnd, q);
      ReplacingIsGreater(l, phone, text, v, q);
    } else {
      OtherwiseKept(e, v, foundEnd);
    }
  }

  /** A verdict that puts the next connection in place records 0 or a greater number for a phone that is known. */
  lemma ReplacingIsGreater(l: Link, phone: Phone, text: seq<Byte>, v: Verdict, q: Phone)
    requires Inv(l) && ValidLen(text) && Behind(From(l, phone), text, v) && Replaces(v) && Matches(Truncated(phone), q)
    ensures ConnectionNo(text) == 0 || Recorded(l.known, q) == -1 || Greater(Recorded(l.known, q), ConnectionNo(text))
  {
    hide Distinct, HasSixDigits, FindMatching, Recorded, MsgNo, ConnectionNo, Greater;
    SameRecorded(l.known, Truncated(phone), q);
    if Matches(l.current.phone, q) {
      CurrentIsRecorded(l, q);
    }
  }

  /** A verdict within the current connection acts on nothing but the expected number. */
  lemma KeptActs(l: Link, phone: Phone, text: seq<Byte>, v: Verdict, foundEnd: bool, q: Phone)
    requires ValidLen(text) && Behind(From(l, phone), text, v) && !Replaces(v) && l.known != []
    requires Matches(Truncated(phone), q) ==> !Erases(From(l, phone), text)
    ensures var next, after := Next(l, q), Next(Follow(Count(Judged(l, phone, text), v, foundEnd), v), q);
            if ActsOn(v) && Matches(Truncated(phone), q) then
              MsgNo(text) == next > 0 && (after == 0 || after > next) && ConnectionNo(text) == l.current.connectionNo &&
              Matches(l.current.phone, q)
            else after == next || after == 0
  {
    hide MsgNo, ConnectionNo, FindMatching, HasSixDigits, Truncated;
  }

  /** While the recorded number stays the same, only the expected number is acted on, and it moves on or is given up. */
  lemma IncomingActs(l: Link, phone: Phone, text: seq<Byte>, signs: Signs, q: Phone, n: nat)
    requires Inv(l) && n > 0 && Recorded(l.known, q) == n == Recorded(Receive(l, phone, text, signs).known, q)
    ensures var acted, next, after := ActedOn(l, Incoming(phone, text, signs), q), Next(l, q), Next(Receive(l, phone, text, signs), q);
            (acted != [] ==> acted == [next] && next > 0 && (after == 0 || after > next) && ConnectionNo(text) == n) &&
            (acted == [] ==> after == next || after == 0)
  {
    hide Distinct, HasSixDigits, Receive, Count, FindMatching, Recorded, Judged, Behind, MsgNo, ConnectionNo, Erase, Erases;
    ReceiveIs(l, phone, text, signs);
    var v, from, foundEnd := VerdictOn(l, phone, text, signs), From(l, phone), signs.end;
    if Readable(from, text, signs) {
      if Matches(Truncated(phone), q) {
        ActingReplaces(l, phone, text, signs, q, n);
      }
      if Replaces(v) {
        JudgedKeeps(l, phone, text, q);
        ReplacesSame(l, phone, text, v);
        ReplacedKeeps(Judged(l, phone, text), v, foundEnd, q);
      } else {
        hide Follow;
        KeptActs(l, phone, text, v, foundEnd, q);
        if Matches(l.current.phone, q) {
          CurrentIsRecorded(l, q);
        }
      }
    }
  }

  predicate Increasing(s: seq<nat>) {
    forall i, j :: 0 <= i < j < |s| ==> s[i] < s[j]
  }

  /** One event of a run during which the recorded number stays the same. */
  lemma StepActs(l: Link, ev: Event, q: Phone, n: nat)
    requires Inv(l) && n > 0 && Recorded(l.known, q) == n == Recorded(Step(l, ev).known, q)
    ensures var acted, next, after := ActedOn(l, ev, q), Next(l, q), Next(Step(l, ev), q);
            (acted != [] ==> acted == [next] && next > 0 && (after == 0 || after > next)) &&
            (acted == [] ==> after == next || after == 0)
  {
    hide Distinct, HasSixDigits, Receive, FindMatching, Recorded, VerdictOn, MsgNo;
    if ev.Incoming? {
      IncomingActs(l, ev.phone, ev.text, ev.signs, q, n);
    }
  }

  lemma IncreasingFrom(first: seq<nat>, rest: seq<nat>, next: nat, after: nat)
    requires Increasing(rest) && (after == 0 ==> rest == []) && (forall m :: m in rest ==> m >= after)
    requires first == [] || first == [next]
    requires if first == [] then after == next || after == 0 else next > 0 && (after == 0 || after > next)
    ensures Increasing(first + rest) && (next == 0 ==> first + rest == []) && (forall m :: m in first + rest ==> m >= next)
  {
    if first == [] {
      assert first + rest == rest;
    } else {
      var all := first + rest;
      forall j | 1 <= j < |all| ensures all[j] > next {
        assert all[j] == rest[j - 1] && rest[j - 1] in rest;
      }
      assert forall m :: m in all ==> m == next || m in rest;
    }
  }

  /** At most once and in increasing order: while the number recorded for a phone stays the same, not 0, the SMS
      numbers acted on from that phone increase, starting with the one expected first; if none is expected, nothing
      is acted on. */
  lemma {:induction false} AtMostOnce(l: Link, events: seq<Event>, q: Phone, n: nat)
    requires Inv(l) && n > 0 && StaysRecorded(l, events, q, n)
    ensures var acted := ActedNumbers(l, events, q);
            Increasing(acted) && (Next(l, q) == 0 ==> acted == []) && (forall m :: m in acted ==> m >= Next(l, q))
    decreases |events|
  {
    hide Distinct, HasSixDigits, Step, Recorded, ActedOn, Next;
    if events != [] {
      StepKeeps(l, events[0]);
      var after := Step(l, events[0]);
      AtMostOnce(after, events[1..], q, n);
      StepActs(l, events[0], q, n);
      var first, rest := ActedOn(l, events[0], q), ActedNumbers(after, events[1..], q);
      IncreasingFrom(first, rest, Next(l, q), Next(after, q));
    }
  }

  predicate Closes(v: Verdict) {
    v.CloseConnection? || v.CloseAndUpdate? || v.StartNewAndClose?
  }

  /** What an SMS that is acted on leaves: a connection of its phone with its number, which expects nothing after a
      close and a greater number otherwise. */
  lemma AfterActing(l: Link, phone: Phone, text: seq<Byte>, signs: Signs)
    requires Inv(l) && ActsOn(VerdictOn(l, phone, text, signs))
    ensures ValidLen(text)
    ensures var after := Receive(l, phone, text, signs);
            Inv(after) && Matches(after.current.phone, Truncated(phone)) && after.current.connectionNo == ConnectionNo(text) &&
            Recorded(after.known, Truncated(phone)) == ConnectionNo(text) &&
            if Closes(VerdictOn(l, phone, text, signs)) then after.current.msgNoRx == 0 else after.current.msgNoRx > MsgNo(text)
  {
    hide Distinct, HasSixDigits, Receive, FindMatching, Recorded, MsgNo, ConnectionNo, Erase, Erases, UpdateAndMoveToTop, SetTop;
    ReceiveKeeps(l, phone, text, signs);
    ReceiveIs(l, phone, text, signs);
    var v, e, foundEnd := VerdictOn(l, phone, text, signs), Judged(l, phone, text), signs.end;
    JudgedKeeps(l, phone, text, phone);
    if Replaces(v) {
      ReplacesSame(l, phone, text, v);
      ReplacedKeeps(e, v, foundEnd, phone);
      SixDigitsMatch(e.next.phone);
    } else {
      OtherwiseKept(e, v, foundEnd);
    }
    CurrentIsRecorded(Receive(l, phone, text, signs), Truncated(phone));
  }

  /** After {!} nothing with that number is acted on any more. */
  lemma {:induction false} ClosedActsOnNothing(l: Link, phone: Phone, text: seq<Byte>, signs: Signs, events: seq<Event>, n: nat)
    requires Inv(l) && ActsOn(VerdictOn(l, phone, text, signs)) && Closes(VerdictOn(l, phone, text, signs)) && n > 0
    requires (ReceiveKeeps(l, phone, text, signs); StaysRecorded(Receive(l, phone, text, signs), events, Truncated(phone), n))
    ensures (ReceiveKeeps(l, phone, text, signs); ActedNumbers(Receive(l, phone, text, signs), events, Truncated(phone)) == [])
  {
    hide Distinct, HasSixDigits, Receive, VerdictOn, ActedNumbers;
    ReceiveKeeps(l, phone, text, signs);
    AfterActing(l, phone, text, signs);
    AtMostOnce(Receive(l, phone, text, signs), events, Truncated(phone), n);
  }

  /** An SMS with a number that is behind the expected one is ignored or makes the last response be sent again. */
  lemma RepeatIsHarmless(l: Link, phone: Phone, text: seq<Byte>, signs: Signs, q: Phone, n: nat)
    requires Inv(l) && n > 0 && Recorded(l.known, q) == n && Matches(Truncated(phone), q)
    requires ValidLen(text) && ConnectionNo(text) == n && (Next(l, q) == 0 || Next(l, q) > MsgNo(text))
    ensures VerdictOn(l, phone, text, signs).Ignore? || VerdictOn(l, phone, text, signs).ResendLastResponse?
  {
    hide Distinct, HasSixDigits, Receive, FindMatching, Recorded, MsgNo, ConnectionNo, Erase;
    ReceiveIs(l, phone, text, signs);
    SameRecorded(l.known, Truncated(phone), q);
    if Matches(l.current.phone, q) {
      CurrentIsRecorded(l, q);
    }
  }

  lemma {:induction false} StaysPast(l: Link, events: seq<Event>, q: Phone, n: nat, m: nat)
    requires Inv(l) && n > 0 && StaysRecorded(l, events, q, n) && (Next(l, q) == 0 || Next(l, q) > m)
    ensures var r := Run(l, events); Recorded(r.known, q) == n && (Next(r, q) == 0 || Next(r, q) > m)
    decreases |events|
  {
    hide Distinct, HasSixDigits, Step, Recorded, ActedOn, Next;
    if events != [] {
      StepKeeps(l, events[0]);
      StepActs(l, events[0], q, n);
      StaysPast(Step(l, events[0]), events[1..], q, n, m);
    }
  }

  /** Once an SMS has been acted on, any SMS with its numbers from its phone, however much later, yields a resend or
      nothing, as long as the number recorded for the phone has stayed the same. */
  lemma {:induction false} NeverAgain(l: Link, phone: Phone, text: seq<Byte>, signs: Signs, events: seq<Event>,
                                      phone': Phone, text': seq<Byte>, signs': Signs)
    requires Inv(l) && ActsOn(VerdictOn(l, phone, text, signs))
    requires ValidLen(text) && ValidLen(text') && ConnectionNo(text) == ConnectionNo(text') > 0 && MsgNo(text) == MsgNo(text')
    requires Matches(Truncated(phone'), Truncated(phone))
    requires (ReceiveKeeps(l, phone, text, signs); StaysRecorded(Receive(l, phone, text, signs), events, Truncated(phone), ConnectionNo(text)))
    ensures (ReceiveKeeps(l, phone, text, signs);
             var v := VerdictOn(Run(Receive(l, phone, text, signs), events), phone', text', signs'); v.Ignore? || v.ResendLastResponse?)
  {
    hide Distinct, HasSixDigits, Receive, VerdictOn, MsgNo, ConnectionNo, Recorded, StaysRecorded, Run;
    ReceiveKeeps(l, phone, text, signs);
    AfterActing(l, phone, text, signs);
    var after := Receive(l, phone, text, signs);
    StaysPast(after, events, Truncated(phone), ConnectionNo(text), MsgNo(text));
    RepeatIsHarmless(Run(after, events), phone', text', signs', Truncated(phone), ConnectionNo(text));
  }

  /** In every reachable state the list is in order and no SMS needs the repair. */
  lemma ReachableNeverRepairs(events: seq<Event>, phone: Phone, text: seq<Byte>)
    requires ValidLen(text)
    ensures (NewInv(); var l := Run(New(), events); Inv(l) && !NeedsRepair(From(l, phone), text))
  {
    NewInv();
    hide Distinct, NeedsRepair, Run;
    NeverRepairs(From(Run(New(), events), phone), text);
  }
}
