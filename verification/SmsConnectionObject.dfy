/** The connection object: its list of known phones is an array of slots and an array of places that orders them. */
module SmsConnectionObject {
  import opened Bytes
  import opened SmsCode
  import opened SmsDecoding
  import opened SmsPhones
  import opened SmsLink
  import opened SmsLinkProof
  import opened Sms

  /** Compares the last six characters, backwards. */
  method PhoneNoMatches(oldPhNo: Phone, newPhNo: Phone) returns (yes: bool)
    ensures yes == Matches(oldPhNo, newPhNo)
  {
    if newPhNo == [] || oldPhNo == [] {
      return false;
    }
    var i, j, k := |oldPhNo| - 1, |newPhNo| - 1, 0;
    while i >= 0 && j >= 0 && k < MAX_PHNO_CHECK
      invariant 0 <= k <= MAX_PHNO_CHECK && i == |oldPhNo| - 1 - k && j == |newPhNo| - 1 - k && i >= -1 && j >= -1
      invariant forall u :: i < u < |oldPhNo| ==> oldPhNo[u] == newPhNo[u + |newPhNo| - |oldPhNo|]
      decreases i
    {
      if oldPhNo[i] != newPhNo[j] {
        break;
      }
      i, j, k := i - 1, j - 1, k + 1;
    }
    yes := k == MAX_PHNO_CHECK;
    LastSixCompared(oldPhNo, newPhNo, k);
  }

  /** k is how many of the last characters agree, up to six. */
  lemma LastSixCompared(a: Phone, b: Phone, k: nat)
    requires k <= MAX_PHNO_CHECK && k <= |a| && k <= |b|
    requires forall u :: |a| - k <= u < |a| ==> a[u] == b[u + |b| - |a|]
    requires k < MAX_PHNO_CHECK && k < |a| && k < |b| ==> a[|a| - 1 - k] != b[|b| - 1 - k]
    ensures Matches(a, b) <==> k == MAX_PHNO_CHECK
  {
    if |a| >= MAX_PHNO_CHECK && |b| >= MAX_PHNO_CHECK {
      var x, y := LastSix(a), LastSix(b);
      if k == MAX_PHNO_CHECK {
        forall i | 0 <= i < MAX_PHNO_CHECK ensures x[i] == y[i] {
          var u := |a| - MAX_PHNO_CHECK + i;
          assert a[u] == b[u + |b| - |a|];
        }
      } else {
        var i := MAX_PHNO_CHECK - 1 - k;
        assert x[i] == a[|a| - 1 - k] && y[i] == b[|b| - 1 - k];
      }
    }
  }

  method PhoneNoHas6Digits(phNo: Phone) returns (yes: bool)
    ensures yes == HasSixDigits(phNo)
  {
    if phNo == [] {
      return false;
    }
    var i, k := |phNo| - 1, 0;
    while i >= 0 && k < MAX_PHNO_CHECK
      invariant 0 <= k <= MAX_PHNO_CHECK && i == |phNo| - 1 - k && i >= -1
      invariant forall t :: i < t < |phNo| ==> IsDigit(phNo[t])
      decreases i
    {
      if phNo[i] < 0x30 || phNo[i] > 0x39 {
        break;
      }
      i, k := i - 1, k + 1;
    }
    yes := k == MAX_PHNO_CHECK;
    SixDigitsCompared(phNo, k);
  }

  lemma SixDigitsCompared(a: Phone, k: nat)
    requires k <= MAX_PHNO_CHECK && k <= |a| && forall u :: |a| - k <= u < |a| ==> IsDigit(a[u])
    requires k < MAX_PHNO_CHECK && k < |a| ==> !IsDigit(a[|a| - 1 - k])
    ensures HasSixDigits(a) <==> k == MAX_PHNO_CHECK
  {
    if |a| >= MAX_PHNO_CHECK {
      var x := LastSix(a);
      if k == MAX_PHNO_CHECK {
        forall i | 0 <= i < MAX_PHNO_CHECK ensures IsDigit(x[i]) {
          assert x[i] == a[|a| - MAX_PHNO_CHECK + i];
        }
      } else {
        assert x[MAX_PHNO_CHECK - 1 - k] == a[|a| - 1 - k] && x[MAX_PHNO_CHECK - 1 - k] in x;
      }
    }
  }

  /** No place is used twice. */
  predicate Permutation(places: seq<nat>) {
    |places| == MAX_KNOWN_CONNECTION && (forall i :: 0 <= i < |places| ==> places[i] < MAX_KNOWN_CONNECTION) &&
    forall i, j :: 0 <= i < j < |places| ==> places[i] != places[j]
  }

  /** The slots in the order of the places. */
  function Listed(slots: seq<Known>, places: seq<nat>): (l: seq<Known>)
    requires |slots| == MAX_KNOWN_CONNECTION && Permutation(places)
    ensures |l| == MAX_KNOWN_CONNECTION
  {
    seq(MAX_KNOWN_CONNECTION, i requires 0 <= i < MAX_KNOWN_CONNECTION => slots[places[i]])
  }

  lemma ListedUpdate(slots: seq<Known>, places: seq<nat>, i: nat, k: Known)
    requires |slots| == MAX_KNOWN_CONNECTION && Permutation(places) && i < MAX_KNOWN_CONNECTION
    ensures Listed(slots[places[i] := k], places) == Listed(slots, places)[i := k]
  {
  }

  function ToTop(places: seq<nat>, i: nat): seq<nat>
    requires i < |places|
  {
    [places[i]] + places[..i] + places[i + 1..]
  }

  lemma ListedToTop(slots: seq<Known>, places: seq<nat>, i: nat)
    requires |slots| == MAX_KNOWN_CONNECTION && Permutation(places) && i < MAX_KNOWN_CONNECTION
    ensures Permutation(ToTop(places, i)) && Listed(slots, ToTop(places, i)) == MoveToTop(Listed(slots, places), i)
  {
    var r := ToTop(places, i);
    assert forall j :: 0 <= j < |r| ==> r[j] == places[if j == 0 then i else if j <= i then j - 1 else j];
    assert Permutation(r);
    var l, m := Listed(slots, r), MoveToTop(Listed(slots, places), i);
    assert forall j :: 0 <= j < |l| ==> l[j] == m[j];
  }

  class PfodSmsConnections {
    const slots: array<Known>
    const places: array<nat>
    const rxBuffer: array<Byte>
    var rxBufferLen: nat
    var rxBufferIdx: nat
    var currentConnection: Connection
    var nextConnection: Connection
    var resendLastResponse: bool
    var responseSet: bool

    ghost predicate Shape() {
      slots.Length == places.Length == MAX_KNOWN_CONNECTION && rxBuffer.Length == SMS_RX_BUFFER_SIZE + 1
    }

    ghost predicate Valid()
      reads this, places
    {
      Shape() && Permutation(places[..]) && rxBufferIdx <= rxBufferLen
    }

    ghost function List(): (l: seq<Known>)
      requires Shape() && Permutation(places[..])
      reads slots, places
      ensures |l| == MAX_KNOWN_CONNECTION
    {
      Listed(slots[..], places[..])
    }

    ghost function View(): Link
      requires Valid()
      reads this, slots, places
    {
      Link(currentConnection, nextConnection, List(), resendLastResponse, responseSet)
    }

    ghost function RxView(): (rx: Rx)
      requires Valid()
      reads this, places, rxBuffer
      ensures rx.Valid()
    {
      Rx(rxBuffer[..], rxBufferLen, rxBufferIdx)
    }

    constructor ()
      ensures Valid() && View() == New() && fresh(slots) && fresh(places) && fresh(rxBuffer)
    {
      slots := new Known[MAX_KNOWN_CONNECTION](_ => EMPTY);
      places := new nat[MAX_KNOWN_CONNECTION](i => i);
      rxBuffer := new Byte[SMS_RX_BUFFER_SIZE + 1](_ => 0);
      rxBufferLen, rxBufferIdx := 0, 0;
      currentConnection, nextConnection, resendLastResponse, responseSet := CLEARED, CLEARED, false, false;
    }

    /** Brings the entry at idx to the front and pushes the others down. */
    method MoveKnownConnectionToTop(idx: nat)
      requires Shape() && Permutation(places[..]) && idx < MAX_KNOWN_CONNECTION
      modifies places
      ensures Permutation(places[..]) && List() == MoveToTop(old(List()), idx)
    {
      hide Listed;
      var tmp := places[idx];
      for i := idx downto 0
        invariant forall j :: 0 <= j <= i ==> places[j] == old(places[j])
        invariant forall j :: i < j <= idx ==> places[j] == old(places[j - 1])
        invariant forall j :: idx < j < MAX_KNOWN_CONNECTION ==> places[j] == old(places[j])
      {
        places[i + 1] := places[i];
      }
      places[0] := tmp;
      assert places[..] == ToTop(old(places[..]), idx);
      ListedToTop(slots[..], old(places[..]), idx);
    }

    method FindMatchingKnownPhoneNo(phNo: Phone) returns (idx: int)
      requires Shape() && Permutation(places[..])
      ensures idx == FindMatching(List(), phNo)
    {
      idx := -1;
      ghost var list := List();
      assert forall j :: 0 <= j < MAX_KNOWN_CONNECTION ==> list[j] == slots[places[j]];
      for i := 0 to MAX_KNOWN_CONNECTION
        invariant forall j :: 0 <= j < i ==> !Matches(list[j].phone, phNo)
      {
        var yes := PhoneNoMatches(slots[places[i]].phone, phNo);
        if yes {
          FirstMatch(list, phNo, i);
          return i;
        }
      }
      FirstMatch(list, phNo, MAX_KNOWN_CONNECTION);
    }

    /** The first empty entry, or the last one, cleared. */
    method FindEmptyKnownConnection() returns (idx: nat)
      requires Shape() && Permutation(places[..])
      modifies slots
      ensures idx == FindEmpty(old(List())) && idx < MAX_KNOWN_CONNECTION && List() == old(List())[idx := EMPTY]
    {
      idx := MAX_KNOWN_CONNECTION - 1;
      ghost var list := List();
      assert forall j :: 0 <= j < MAX_KNOWN_CONNECTION ==> list[j] == slots[places[j]];
      var i := 0;
      while i < MAX_KNOWN_CONNECTION
        invariant i <= MAX_KNOWN_CONNECTION && idx == MAX_KNOWN_CONNECTION - 1
        invariant forall j :: 0 <= j < i ==> list[j].phone != []
        modifies {}
      {
        if slots[places[i]].phone == [] {
          idx := i;
          break;
        }
        i := i + 1;
      }
      FirstEmpty(list, idx);
      PutSlot(idx, EMPTY);
    }

    /** Writes to the slot in a place of the list. */
    method PutSlot(idx: nat, k: Known)
      requires Shape() && Permutation(places[..]) && idx < MAX_KNOWN_CONNECTION
      modifies slots
      ensures List() == old(List())[idx := k] && slots[places[idx]] == k
    {
      ListedUpdate(slots[..], places[..], idx, k);
      ghost var was := slots[..];
      slots[places[idx]] := k;
      assert slots[..] == was[places[idx] := k];
    }

    method GetSlot(idx: nat) returns (k: Known)
      requires Shape() && Permutation(places[..]) && idx < MAX_KNOWN_CONNECTION
      ensures k == List()[idx]
    {
      k := slots[places[idx]];
    }

    method UpdateKnownConnectionNo(con: Connection)
      requires Shape() && Permutation(places[..])
      modifies slots
      ensures List() == Update(old(List()), con.phone, con.connectionNo)
    {
      hide Listed, Matches;
      var idx := FindMatchingKnownPhoneNo(con.phone);
      if idx < 0 {
        idx := FindEmptyKnownConnection();
        PutSlot(idx, Known(0, Truncated(con.phone)));
      }
      var k := GetSlot(idx);
      PutSlot(idx, k.(connectionNo := con.connectionNo));
    }

    method UpdateKnownConnectionNoAndMoveToTop(con: Connection)
      requires Shape() && Permutation(places[..])
      modifies slots, places
      ensures Permutation(places[..]) && List() == UpdateAndMoveToTop(old(List()), con.phone, con.connectionNo)
    {
      UpdateKnownConnectionNo(con);
      var idx := FindMatchingKnownPhoneNo(con.phone);
      if idx >= 0 {
        MoveKnownConnectionToTop(idx);
      }
    }

    method SetTopKnownConnectionFromCurrent()
      requires Shape() && Permutation(places[..])
      modifies slots
      ensures List() == SetTop(old(List()), currentConnection)
    {
      var top := GetSlot(0);
      var matches := PhoneNoMatches(currentConnection.phone, top.phone);
      if top.phone != [] && !matches {
        return;
      }
      PutSlot(0, Known(currentConnection.connectionNo, Truncated(currentConnection.phone)));
    }

    /** Forgets the entry at idx. */
    method ClearKnownConnection(idx: nat)
      requires Shape() && Permutation(places[..]) && idx < MAX_KNOWN_CONNECTION
      modifies slots
      ensures List() == old(List())[idx := EMPTY]
    {
      PutSlot(idx, EMPTY);
    }

    /** The entry of the current phone becomes the first one again. */
    method RepairList()
      requires Valid()
      modifies slots, places
      ensures Valid() && View() == Repair(old(View()))
    {
      hide Listed;
      var emptyIdx := FindEmptyKnownConnection();
      MoveKnownConnectionToTop(emptyIdx);
      SetTopKnownConnectionFromCurrent();
    }

    /** Erases the phone of the SMS numbered (0,0). */
    method ErasePhone(knownIdx: nat, samePhoneNo: bool)
      requires Valid() && knownIdx < MAX_KNOWN_CONNECTION
      modifies this`currentConnection, slots
      ensures Valid()
      ensures View() == old(View()).(known := old(View()).known[knownIdx := EMPTY],
                                     current := if samePhoneNo then CLEARED else old(View()).current)
    {
      hide Listed;
      ClearKnownConnection(knownIdx);
      if samePhoneNo {
        currentConnection := CLEARED;
      }
    }

    /** The next number expected in the current connection. */
    method ExpectNext(foundEnd: bool)
      requires Valid()
      modifies this`currentConnection
      ensures Valid()
      ensures View() == old(View()).(current := old(View()).current.(msgNoRx := NextExpected(old(View()).current.msgNoRx, foundEnd)))
    {
      var n := currentConnection.msgNoRx + 1;
      if foundEnd {
        if n % 3 != 0 {
          n := (n / 3 + 1) * 3;
        }
      }
      currentConnection := currentConnection.(msgNoRx := n);
    }

    /** The next number expected in the connection to come. */
    method ExpectInNext(foundEnd: bool)
      requires Valid()
      modifies this`nextConnection
      ensures Valid()
      ensures View() == old(View()).(next := old(View()).next.(msgNoRx := NextExpected(old(View()).next.msgNoRx, foundEnd)))
    {
      var n := nextConnection.msgNoRx + 1;
      if foundEnd {
        if n % 3 != 0 {
          n := (n / 3 + 1) * 3;
        }
      }
      nextConnection := nextConnection.(msgNoRx := n);
    }

    /** The verdict on an SMS of the current phone. */
    method JudgeSamePhone(msgNo: nat, connectionNo: nat, foundEnd: bool, foundClose: bool) returns (v: Verdict)
      requires Valid() && Matches(currentConnection.phone, nextConnection.phone)
      modifies this`currentConnection, this`nextConnection
      ensures Valid() && v == Judge(old(View()), -1, msgNo, connectionNo, foundClose) && View() == Count(old(View()), v, foundEnd)
    {
      hide Listed, Greater, Matches;
      if currentConnection.connectionNo == connectionNo {
        var expected := currentConnection.msgNoRx;
        if msgNo == 0 {
          return if msgNo + 3 == expected then ResendLastResponse else Ignore;
        }
        if msgNo % 3 == 0 {
          if msgNo == expected {
            ExpectNext(foundEnd);
            if foundClose {
              return CloseConnection;
            }
            return StartNewCommand;
          }
          return if msgNo + 3 == expected then ResendLastResponse else Ignore;
        }
        if msgNo == expected {
          ExpectNext(foundEnd);
          return ProcessNextPart;
        }
        return Ignore;
      }
      if !Greater(currentConnection.connectionNo, connectionNo) {
        return Ignore;
      }
      if msgNo == 0 {
        ExpectInNext(foundEnd);
        if foundClose {
          return CloseAndUpdate;
        }
        return NewConnectionSamePhone;
      }
      return Ignore;
    }

    /** The verdict on an SMS of another phone. */
    method JudgeOtherPhone(knownIdx: int, msgNo: nat, connectionNo: nat, foundEnd: bool, foundClose: bool) returns (v: Verdict)
      requires Valid() && !Matches(currentConnection.phone, nextConnection.phone) && -1 <= knownIdx < MAX_KNOWN_CONNECTION
      modifies this`nextConnection
      ensures Valid() && View() == Count(old(View()), v, foundEnd)
      ensures v == Judge(old(View()), if knownIdx >= 0 then old(View()).known[knownIdx].connectionNo else -1, msgNo, connectionNo, foundClose)
    {
      hide Listed, Greater, Matches;
      if knownIdx >= 0 {
        var k := GetSlot(knownIdx);
        if !Greater(k.connectionNo, connectionNo) {
          return Ignore;
        }
      }
      if !currentConnection.timedOut {
        if msgNo == 0 {
          return IgnoreConnection;
        }
        return Ignore;
      }
      if msgNo == 0 {
        ExpectInNext(foundEnd);
        if foundClose {
          return StartNewAndClose;
        }
        return StartNewConnection;
      }
      return Ignore;
    }

    /** Decodes the bytes of an SMS into the receive buffer; whether any were added, and whether a brace closes. */
    method TakeBytes(text: seq<Byte>) returns (ok: bool, foundEnd: bool)
      requires Valid() && RxView().HasPlace() && ValidLen(text)
      modifies this`rxBufferLen, rxBuffer
      ensures Valid() && View() == old(View()) && ok == SignsOf(old(RxView()), text).taken && foundEnd == SignsOf(old(RxView()), text).end
      ensures rxBuffer[..] == Filled(old(RxView()), text)
      ensures var d := DecodeCmd(text, old(rxBufferLen)); rxBufferLen == if d.progress.Invalid? then old(rxBufferLen) else d.len
    {
      hide Listed, TakeText, TakeFour, DecodeSMSChar, Stored;
      DecodedFits(text, rxBufferLen);
      var len, found := DecodeSMScmd(text, rxBuffer, rxBufferLen);
      ok, foundEnd := len != rxBufferLen, found;
      rxBufferLen := len;
    }

    /** Erases the phone of an SMS numbered (0,0) and repairs the list should it be needed; the entry of the phone and
        whether it is the current one. */
    method NoteDown(text: seq<Byte>, knownIdx: int, samePhoneNo: bool) returns (idx: int, same: bool)
      requires Valid() && ValidLen(text)
      requires knownIdx == FindMatching(View().known, nextConnection.phone)
      requires samePhoneNo == Matches(currentConnection.phone, nextConnection.phone)
      modifies this`currentConnection, slots, places
      ensures Valid()
      ensures var l, e := old(View()), Erase(old(View()), text);
              View() == (if NeedsRepair(l, text) then Repair(e) else e) &&
              idx == (if Erases(l, text) then -1 else knownIdx) && same == Matches(View().current.phone, View().next.phone)
    {
      hide Listed, FindMatching, Matches, DecodeInt, Repair;
      idx, same := knownIdx, samePhoneNo;
      EmptyMatchesNothing(nextConnection.phone);
      if knownIdx >= 0 && DecodeInt(text[2], text[3]) == 0 && DecodeInt(text[0], text[1]) == 0 {
        ErasePhone(knownIdx, samePhoneNo);
        idx, same := -1, false;
      }
      if same && idx != 0 {
        RepairList();
        RepairKeepsPhones(Erase(old(View()), text));
      }
    }

    /** The verdict on a decoded SMS, and the number expected next; the bytes should be at the place given. */
    method JudgeSMS(text: seq<Byte>, knownIdx: int, samePhoneNo: bool, initialLen: nat, foundEnd: bool) returns (v: Verdict)
      requires Valid() && ValidLen(text) && -1 <= knownIdx < MAX_KNOWN_CONNECTION
      requires initialLen <= SMS_RX_BUFFER_SIZE && initialLen < rxBufferLen <= SMS_RX_BUFFER_SIZE + 1
      requires samePhoneNo == Matches(currentConnection.phone, nextConnection.phone)
      modifies this`currentConnection, this`nextConnection
      ensures Valid()
      ensures var e, start := old(View()), rxBuffer[initialLen] == OPEN_BRACE;
              var close := rxBufferLen - initialLen >= 3 && start &&
                           rxBuffer[initialLen + 1] == EXCLAMATION && rxBuffer[initialLen + 2] == CLOSE_BRACE;
              v == (if MsgNo(text) % 3 == 0 && !start then Ignore
                    else Judge(e, if knownIdx >= 0 then e.known[knownIdx].connectionNo else -1, MsgNo(text), ConnectionNo(text), close)) &&
              View() == Count(e, v, foundEnd)
    {
      hide Listed, Matches, DecodeInt;
      var msgNo, connectionNo := DecodeInt(text[0], text[1]), DecodeInt(text[2], text[3]);
      var foundStart := rxBuffer[initialLen] == OPEN_BRACE;
      var foundClose := false;
      if rxBufferLen - initialLen >= 3 && foundStart {
        if rxBuffer[initialLen + 1] == EXCLAMATION && rxBuffer[initialLen + 2] == CLOSE_BRACE {
          foundClose := true;
        }
      }
      if msgNo % 3 == 0 && !foundStart {
        return Ignore;
      }
      hide Judge, Count;
      if samePhoneNo {
        JudgeIgnoresRecorded(View(), if knownIdx >= 0 then View().known[knownIdx].connectionNo else -1, msgNo, connectionNo, foundClose);
        v := JudgeSamePhone(msgNo, connectionNo, foundEnd, foundClose);
      } else {
        v := JudgeOtherPhone(knownIdx, msgNo, connectionNo, foundEnd, foundClose);
      }
    }

    /** Whether the numbers of a text from the phone of the next connection are looked at. */
    predicate LooksAt(text: seq<Byte>)
      reads this
    {
      ValidLen(text) && nextConnection.phone != [] && HasSixDigits(nextConnection.phone)
    }

    /** The verdict on a text whose numbers are looked at. */
    method DecodeNumbers(text: seq<Byte>) returns (v: Verdict)
      requires Valid() && RxView().HasPlace() && LooksAt(text)
      modifies this`currentConnection, this`nextConnection, this`rxBufferLen, slots, places, rxBuffer
      ensures Valid() && v == Decide(old(View()), text, SignsOf(old(RxView()), text))
      ensures if SignsOf(old(RxView()), text).taken then View() == Look(old(View()), text, SignsOf(old(RxView()), text))
              else View() == old(View()).(next := View().next)
      ensures RxDecoded(old(RxView()), true, text, RxView())
    {
      hide Listed, Matches, DecodeInt, Judge, Count, Repair, Erase, FindMatching, HasSixDigits, SignsOf, Filled, DecodeCmd;
      ghost var l, rx, signs := View(), RxView(), SignsOf(RxView(), text);
      nextConnection := nextConnection.(connectionNo := DecodeInt(text[2], text[3]), msgNoRx := 0);
      var samePhoneNo := PhoneNoMatches(currentConnection.phone, nextConnection.phone);
      var knownIdx := FindMatchingKnownPhoneNo(nextConnection.phone);
      var initialDecodeLen := rxBufferLen;
      var ok, foundEnd := TakeBytes(text);
      if !ok {
        return Ignore;
      }
      SignsRead(rx, text);
      assert View() == Noted(l, text);
      NotedIsTheSame(l, text);
      knownIdx, samePhoneNo := NoteDown(text, knownIdx, samePhoneNo);
      assert View() == NotedDown(l, text);
      RecordedIsUsed(l, text, knownIdx, signs.close);
      v := JudgeSMS(text, knownIdx, samePhoneNo, initialDecodeLen, foundEnd);
    }

    /** What the source calls decodeSMS: the verdict on a text from the phone of the next connection. */
    method DecodeSMS(text: seq<Byte>) returns (v: Verdict)
      requires Valid() && RxView().HasPlace()
      modifies this`currentConnection, this`nextConnection, this`rxBufferLen, slots, places, rxBuffer
      ensures Valid() && v == Decide(old(View()), text, SignsOf(old(RxView()), text))
      ensures if Readable(old(View()), text, SignsOf(old(RxView()), text)) then View() == Look(old(View()), text, SignsOf(old(RxView()), text))
              else View() == old(View()).(next := View().next)
      ensures RxDecoded(old(RxView()), old(LooksAt(text)), text, RxView())
    {
      hide Listed, Judge, Count, NotedDown, Erases, FindMatching, HasSixDigits, SignsOf, Filled, DecodeCmd, MsgNo, ConnectionNo;
      ghost var rx := RxView();
      rxBuffer[rxBufferLen] := 0;
      assert rxBuffer[..] == rx.buffer[rx.len := 0];
      if |text| == 0 || |text| % 4 != 0 || |text| > SMS_MAX_SIZE {
        return Ignore;
      }
      if nextConnection.phone == [] {
        return Ignore;
      }
      var six := PhoneNoHas6Digits(nextConnection.phone);
      if !six {
        return Ignore;
      }
      TerminatedIsTheSame(rx, text);
      v := DecodeNumbers(text);
    }

    /** Puts a marker in front of the bytes so that the command parser starts afresh. */
    method ClearParser()
      requires Valid()
      modifies this`rxBufferLen, rxBuffer
      ensures Valid() && View() == old(View()) && RxView() == Marked(old(RxView()))
    {
      hide Listed;
      for i := SMS_RX_BUFFER_SIZE downto 1
        modifies rxBuffer
        invariant forall j :: 0 <= j < i ==> rxBuffer[j] == old(rxBuffer[j])
        invariant forall j :: i <= j < SMS_RX_BUFFER_SIZE ==> rxBuffer[j] == old(rxBuffer[j - 1])
        invariant rxBuffer[SMS_RX_BUFFER_SIZE] == old(rxBuffer[SMS_RX_BUFFER_SIZE])
      {
        rxBuffer[i] := rxBuffer[i - 1];
      }
      rxBuffer[0] := CONNECTION_MARKER;
      rxBufferLen := rxBufferLen + 1;
      ghost var all, was := rxBuffer[..], Marked(old(RxView())).buffer;
      assert forall j :: 0 <= j < |all| ==> all[j] == was[j];
    }

    /** Takes back what the SMS added to the receive buffer. */
    method RestoreRx(initialLen: nat)
      requires Valid() && rxBufferIdx <= initialLen <= SMS_RX_BUFFER_SIZE
      modifies this`rxBufferLen, rxBuffer
      ensures Valid() && View() == old(View()) && RxView() == Rx(old(rxBuffer[..])[initialLen := 0], initialLen, old(rxBufferIdx))
    {
      hide Listed;
      rxBufferLen := initialLen;
      rxBuffer[rxBufferLen] := 0;
      assert rxBuffer[..] == old(rxBuffer[..])[initialLen := 0];
    }

    /** The next connection becomes the current one, and the old one is cleared. */
    method SwapConnections()
      requires Valid()
      modifies this`currentConnection, this`nextConnection
      ensures Valid() && View() == old(View()).(current := old(View()).next, next := old(View()).current)
    {
      currentConnection, nextConnection := nextConnection, currentConnection;
    }

    /** The next connection becomes the current one under its phone in the list. */
    method SwitchOnTop(close: bool)
      requires Valid()
      modifies this`currentConnection, this`nextConnection, slots
      ensures Valid()
      ensures var l := old(View());
              View() == l.(current := if close then Closed(l.next) else l.next.(timedOut := false), next := CLEARED, known := SetTop(l.known, l.next))
    {
      hide Listed, SetTop;
      SwapConnections();
      SetTopKnownConnectionFromCurrent();
      currentConnection := if close then Closed(currentConnection) else currentConnection.(timedOut := false);
      nextConnection := CLEARED;
    }

    method SwitchToOther(close: bool)
      requires Valid()
      modifies this`currentConnection, this`nextConnection, slots, places
      ensures Valid()
      ensures var l := old(View());
              View() == l.(current := if close then Closed(l.next) else l.next.(timedOut := false), next := CLEARED,
                           known := UpdateAndMoveToTop(l.known, l.next.phone, l.next.connectionNo))
    {
      hide Listed, UpdateAndMoveToTop;
      SwapConnections();
      UpdateKnownConnectionNoAndMoveToTop(currentConnection);
      currentConnection := if close then Closed(currentConnection) else currentConnection.(timedOut := false);
      nextConnection := CLEARED;
    }

    /** Does what the verdict says. */
    method FollowVerdict(v: Verdict, initialLen: nat)
      requires Valid() && rxBufferIdx <= initialLen <= SMS_RX_BUFFER_SIZE
      modifies this, slots, places, rxBuffer
      ensures Valid() && View() == Follow(old(View()), v) && RxView() == After(old(RxView()), initialLen, v)
    {
      hide Listed, SetTop, UpdateAndMoveToTop, Marked;
      match v
      case ResendLastResponse =>
        RestoreRx(initialLen);
        nextConnection := CLEARED;
        resendLastResponse := true;
      case CloseConnection =>
        resendLastResponse := false;
        nextConnection := CLEARED;
        currentConnection := Closed(currentConnection);
      case StartNewCommand =>
        resendLastResponse := false;
        nextConnection := CLEARED;
        responseSet := false;
        currentConnection := currentConnection.(timedOut := false);
      case ProcessNextPart =>
        nextConnection := CLEARED;
      case CloseAndUpdate =>
        resendLastResponse := false;
        SwitchOnTop(true);
      case NewConnectionSamePhone =>
        resendLastResponse := false;
        SwitchOnTop(false);
        responseSet := false;
        ClearParser();
      case StartNewConnection =>
        resendLastResponse := false;
        SwitchToOther(false);
        responseSet := false;
        ClearParser();
      case StartNewAndClose =>
        resendLastResponse := false;
        SwitchToOther(true);
        ClearParser();
      case Ignore =>
        RestoreRx(initialLen);
        nextConnection := CLEARED;
      case IgnoreConnection =>
        RestoreRx(initialLen);
        nextConnection := CLEARED;
    }

    /** An SMS has been fetched from the modem, whatever the receive buffer still holds; it has a place there as long as
        the counted length stays inside the array. */
    method ProcessMessage(phNo: Phone, text: seq<Byte>) returns (v: Verdict)
      requires Valid() && RxView().HasPlace()
      modifies this, slots, places, rxBuffer
      ensures Valid() && v == VerdictOn(old(View()), phNo, text, SignsOf(old(RxView()), text))
      ensures View() == Receive(old(View()), phNo, text, SignsOf(old(RxView()), text))
      ensures RxView() == Kept(old(RxView()), ValidLen(text) && phNo != [] && HasSixDigits(Truncated(phNo)), text, v)
    {
      hide Listed, Decide, Look, Follow, Readable, SignsOf, Filled, DecodeCmd, Marked;
      nextConnection := nextConnection.(phone := Truncated(phNo));
      ghost var l, signs := View(), SignsOf(RxView(), text);
      assert l == From(old(View()), phNo);
      var initialRxBufferLen := rxBufferLen;
      v := DecodeSMS(text);
      if !Readable(l, text, signs) {
        UnreadableIsIgnored(l, text, signs);
        IgnoringForgetsNext(View(), l);
      }
      FollowVerdict(v, initialRxBufferLen);
    }

    /** One byte for the upper layer; the board is polled before. */
    method ReadByte() returns (b: int)
      requires Valid() && rxBufferLen <= SMS_RX_BUFFER_SIZE + 1
      modifies this`rxBufferLen, this`rxBufferIdx
      ensures Valid() && View() == old(View()) && RxView() == Read(old(RxView()))
      ensures b == if old(rxBufferIdx == rxBufferLen) then -1 else old(rxBuffer[rxBufferIdx])
    {
      if rxBufferIdx == rxBufferLen {
        return -1;
      }
      b := rxBuffer[rxBufferIdx];
      rxBufferIdx := rxBufferIdx + 1;
      if rxBufferIdx == rxBufferLen {
        rxBufferIdx := 0;
        rxBufferLen := 0;
      }
    }
  }

  /** What decoding makes of the receive buffer. */
  predicate RxDecoded(rx: Rx, looked: bool, text: seq<Byte>, after: Rx)
    requires rx.HasPlace()
  {
    after == if looked then Rx(Filled(rx, text), if DecodeCmd(text, rx.len).progress.Invalid? then rx.len else DecodeCmd(text, rx.len).len, rx.idx)
             else Rx(rx.buffer[rx.len := 0], rx.len, rx.idx)
  }

  /** What a verdict makes of it then. */
  function After(rx: Rx, initialLen: nat, v: Verdict): Rx
    requires rx.Valid() && initialLen <= SMS_RX_BUFFER_SIZE
  {
    match v
    case Ignore | IgnoreConnection | ResendLastResponse => Rx(rx.buffer[initialLen := 0], initialLen, rx.idx)
    case NewConnectionSamePhone | StartNewConnection | StartNewAndClose => Marked(rx)
    case _ => rx
  }

  /** The null that is put at the end before decoding would be put there anyway. */
  lemma TerminatedIsTheSame(rx: Rx, text: seq<Byte>)
    requires rx.HasPlace()
    ensures var ended := Rx(rx.buffer[rx.len := 0], rx.len, rx.idx);
            Filled(ended, text) == Filled(rx, text) && SignsOf(ended, text) == SignsOf(rx, text)
  {
    hide DecodeCmd;
    assert rx.buffer[rx.len := 0][rx.len := 0] == rx.buffer[rx.len := 0];
  }

  /** The signs as they are read off the buffer. */
  lemma SignsRead(rx: Rx, text: seq<Byte>)
    requires rx.HasPlace() && SignsOf(rx, text).taken
    ensures var buffer, len, signs := Filled(rx, text), DecodeCmd(text, rx.len).len, SignsOf(rx, text);
            !DecodeCmd(text, rx.len).progress.Invalid? && rx.len < len <= SMS_RX_BUFFER_SIZE + 1 && signs.start == (buffer[rx.len] == OPEN_BRACE) &&
            (len - rx.len >= 3 ==> rx.len + 2 < |buffer|) &&
            signs.close == (len - rx.len >= 3 && signs.start && buffer[rx.len + 1] == EXCLAMATION && buffer[rx.len + 2] == CLOSE_BRACE)
  {
    hide DecodeCmd, Filled;
    DecodedFits(text, rx.len);
  }

  lemma UnreadableIsIgnored(l: Link, text: seq<Byte>, signs: Signs)
    requires !Readable(l, text, signs) && l.known != []
    ensures Decide(l, text, signs) == Ignore && Look(l, text, signs) == l
  {
  }

  lemma IgnoringForgetsNext(a: Link, b: Link)
    requires a == b.(next := a.next) && a.known != []
    ensures Follow(a, Ignore) == Follow(b, Ignore)
  {
  }

  /** Noting the numbers down changes neither what is erased nor whether the list needs repair. */
  lemma NotedIsTheSame(l: Link, text: seq<Byte>)
    requires ValidLen(text)
    ensures Erases(Noted(l, text), text) == Erases(l, text) && NeedsRepair(Noted(l, text), text) == NeedsRepair(l, text)
  {
  }

  /** The entry found before the verdict still holds the recorded number whenever the verdict depends on it. */
  lemma RecordedIsUsed(l: Link, text: seq<Byte>, idx: int, close: bool)
    requires ValidLen(text) && |l.known| == MAX_KNOWN_CONNECTION
    requires idx == if Erases(l, text) then -1 else FindMatching(l.known, l.next.phone)
    ensures var e := NotedDown(l, text);
            var found, recorded := if idx >= 0 then e.known[idx].connectionNo else -1, if Erases(l, text) then -1 else Recorded(l.known, l.next.phone);
            Judge(e, found, MsgNo(text), ConnectionNo(text), close) == Judge(e, recorded, MsgNo(text), ConnectionNo(text), close)
  {
    hide MsgNo, ConnectionNo, Matches, FindMatching;
    var e := NotedDown(l, text);
    if Matches(e.current.phone, e.next.phone) {
      hide Judge;
      JudgeIgnoresRecorded(e, if idx >= 0 then e.known[idx].connectionNo else -1, MsgNo(text), ConnectionNo(text), close);
      JudgeIgnoresRecorded(e, if Erases(l, text) then -1 else Recorded(l.known, l.next.phone), MsgNo(text), ConnectionNo(text), close);
    } else {
      RepairKeepsPhones(Erase(Noted(l, text), text));
    }
  }

  lemma JudgeIgnoresRecorded(e: Link, recorded: int, msgNo: nat, connectionNo: nat, close: bool)
    requires Matches(e.current.phone, e.next.phone)
    ensures Judge(e, recorded, msgNo, connectionNo, close) == Judge(e, -1, msgNo, connectionNo, close)
  {
  }

  lemma EmptyMatchesNothing(phone: Phone)
    ensures !Matches([], phone)
  {
  }

  lemma RepairKeepsPhones(l: Link)
    requires l.known != []
    ensures Repair(l) == l.(known := Repair(l).known)
  {
  }

  lemma {:induction false} FirstMatch(known: seq<Known>, phone: Phone, i: nat)
    requires i <= |known| && (forall j :: 0 <= j < i ==> !Matches(known[j].phone, phone))
    requires i < |known| ==> Matches(known[i].phone, phone)
    ensures FindMatching(known, phone) == if i < |known| then i else -1
  {
    hide Matches;
    if known != [] && i > 0 {
      FirstMatch(known[1..], phone, i - 1);
    }
  }

  lemma {:induction false} FirstEmpty(known: seq<Known>, i: nat)
    requires i < |known| && (forall j :: 0 <= j < i ==> known[j].phone != []) && (known[i].phone == [] || i == |known| - 1)
    ensures FindEmpty(known) == i
  {
    if i > 0 {
      FirstEmpty(known[1..], i - 1);
    }
  }
}
