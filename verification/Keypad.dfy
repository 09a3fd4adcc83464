/** The list of active keys of a keypad: what a scan does to its slots. */
module KeyList {
  import opened Bytes

  const LIST_MAX: nat := 10
  const NO_KEY: Byte := 0
  const NO_CODE: int := -1

  datatype KeyState = Idle | Pressed | Hold | Released

  datatype Key = Key(kchar: Byte, kcode: int, kstate: KeyState, stateChanged: bool)

  /** What a scan sees: the character of every key code, whether its button is closed, and whether it has been held long enough. */
  datatype Scanned = Scanned(keymap: seq<Byte>, buttons: seq<bool>, held: seq<bool>) {
    predicate Valid() {
      |keymap| == |buttons| == |held| && NO_KEY !in keymap
    }
  }

  function TransitionTo(k: Key, s: KeyState): Key {
    k.(kstate := s, stateChanged := true)
  }

  function NextKeyState(k: Key, button: bool, held: bool): Key {
    var k := k.(stateChanged := false);
    match k.kstate
    case Idle => if button then TransitionTo(k, Pressed) else k
    case Pressed => if held then TransitionTo(k, Hold) else if !button then TransitionTo(k, Released) else k
    case Hold => if !button then TransitionTo(k, Released) else k
    case Released => TransitionTo(k, Idle)
  }

  /** The slot of a key code. */
  function FindInList(keys: seq<Key>, code: int): (i: int)
    ensures -1 <= i < |keys| && (i >= 0 ==> keys[i].kcode == code)
    ensures forall j :: 0 <= j < (if i < 0 then |keys| else i) ==> keys[j].kcode != code
  {
    if keys == [] then -1
    else if keys[0].kcode == code then 0
    else
      var i := FindInList(keys[1..], code);
      if i < 0 then -1 else i + 1
  }

  function FindEmpty(keys: seq<Key>): (i: int)
    ensures -1 <= i < |keys| && (i >= 0 ==> keys[i].kchar == NO_KEY)
    ensures forall j :: 0 <= j < (if i < 0 then |keys| else i) ==> keys[j].kchar != NO_KEY
  {
    if keys == [] then -1
    else if keys[0].kchar == NO_KEY then 0
    else
      var i := FindEmpty(keys[1..]);
      if i < 0 then -1 else i + 1
  }

  function Delete(k: Key): Key {
    if k.kstate.Idle? then Key(NO_KEY, NO_CODE, Idle, false) else k
  }

  function DeleteIdle(keys: seq<Key>): (r: seq<Key>)
    ensures |r| == |keys|
  {
    seq(|keys|, i requires 0 <= i < |keys| => Delete(keys[i]))
  }

  /** One key of the matrix: on to its next state if it is on the list, or onto the list if it is pressed and there is a slot. */
  function ScanKey(keys: seq<Key>, s: Scanned, code: nat): (r: seq<Key>)
    requires s.Valid() && code < |s.keymap|
    ensures |r| == |keys|
  {
    var idx := FindInList(keys, code);
    if idx >= 0 then keys[idx := NextKeyState(keys[idx], s.buttons[code], s.held[code])]
    else
      var empty := FindEmpty(keys);
      if s.buttons[code] && empty >= 0 then
        keys[empty := NextKeyState(Key(s.keymap[code], code, Idle, keys[empty].stateChanged), true, s.held[code])]
      else keys
  }

  /** The keys of the matrix up to a code. */
  function ScanUpTo(keys: seq<Key>, s: Scanned, n: nat): (r: seq<Key>)
    requires s.Valid() && n <= |s.keymap|
    ensures |r| == |keys|
  {
    if n == 0 then keys else ScanKey(ScanUpTo(keys, s, n - 1), s, n - 1)
  }

  function UpdateList(keys: seq<Key>, s: Scanned): (r: seq<Key>)
    requires s.Valid()
    ensures |r| == |keys|
  {
    ScanUpTo(DeleteIdle(keys), s, |s.keymap|)
  }

  /** An empty slot has no code; a full one has a code of the matrix and its character, and no two have the same code. */
  predicate Listed(keys: seq<Key>, keymap: seq<Byte>) {
    (forall i :: 0 <= i < |keys| ==>
      if keys[i].kcode == NO_CODE then keys[i].kchar == NO_KEY && keys[i].kstate.Idle?
      else 0 <= keys[i].kcode < |keymap| && keys[i].kchar == keymap[keys[i].kcode]) &&
    (forall i, j :: 0 <= i < j < |keys| && keys[i].kcode != NO_CODE ==> keys[i].kcode != keys[j].kcode)
  }

  predicate OnList(keys: seq<Key>, code: int) {
    exists i :: 0 <= i < |keys| && keys[i].kcode == code
  }

  predicate IsFull(keys: seq<Key>) {
    forall i :: 0 <= i < |keys| ==> keys[i].kcode != NO_CODE
  }

  /** What has become of a slot once the keys below n have been scanned. */
  predicate Moved(was: Key, now: Key, before: seq<Key>, s: Scanned, n: nat)
    requires s.Valid() && n <= |s.keymap|
  {
    if was.kcode == NO_CODE then
      now == was ||
      (0 <= now.kcode < n && s.buttons[now.kcode] && !OnList(before, now.kcode) && now == Key(s.keymap[now.kcode], now.kcode, Pressed, true))
    else if 0 <= was.kcode < n then now == NextKeyState(was, s.buttons[was.kcode], s.held[was.kcode])
    else now == was
  }

  /** A key that is pressed and was not on the list is on it now, or the list is full. */
  predicate TakenOrFull(before: seq<Key>, now: seq<Key>, s: Scanned, n: nat)
    requires s.Valid() && n <= |s.keymap|
  {
    forall c :: 0 <= c < n && s.buttons[c] && !OnList(before, c) ==> OnList(now, c) || IsFull(now)
  }

  predicate Midway(before: seq<Key>, now: seq<Key>, s: Scanned, n: nat)
    requires s.Valid() && n <= |s.keymap|
  {
    |now| == |before| && Listed(now, s.keymap) && TakenOrFull(before, now, s, n) &&
    forall i :: 0 <= i < |before| ==> Moved(before[i], now[i], before, s, n)
  }

  lemma StillMoved(before: seq<Key>, now: seq<Key>, s: Scanned, n: nat, i: nat)
    requires s.Valid() && n < |s.keymap| && Midway(before, now, s, n) && i < |before| && before[i].kcode != n
    ensures Moved(before[i], now[i], before, s, n + 1)
  {
    hide OnList, Listed, TakenOrFull, NextKeyState;
    assert Moved(before[i], now[i], before, s, n);
  }

  /** The key being scanned is where it was before the scan. */
  lemma WhereItWas(before: seq<Key>, now: seq<Key>, s: Scanned, n: nat, i: nat)
    requires s.Valid() && n < |s.keymap| && Midway(before, now, s, n) && i < |before|
    ensures before[i].kcode == n <==> now[i].kcode == n
    ensures before[i].kcode == n ==> now[i] == before[i]
    ensures now[i].kcode == NO_CODE ==> before[i].kcode == NO_CODE && now[i] == before[i]
  {
    hide OnList, Listed, TakenOrFull;
    assert Moved(before[i], now[i], before, s, n);
  }

  lemma SameCodes(a: seq<Key>, b: seq<Key>)
    requires |a| == |b| && forall i :: 0 <= i < |a| ==> a[i].kcode == b[i].kcode
    ensures IsFull(a) == IsFull(b) && forall c :: OnList(a, c) == OnList(b, c)
  {
    forall c ensures OnList(a, c) == OnList(b, c) {
      if OnList(a, c) {
        var i :| 0 <= i < |a| && a[i].kcode == c;
        assert b[i].kcode == c;
      }
      if OnList(b, c) {
        var i :| 0 <= i < |b| && b[i].kcode == c;
        assert a[i].kcode == c;
      }
    }
  }

  lemma AdvanceMoves(before: seq<Key>, now: seq<Key>, s: Scanned, n: nat, idx: nat)
    requires s.Valid() && n < |s.keymap| && Midway(before, now, s, n) && idx < |now| && now[idx].kcode == n
    ensures Midway(before, now[idx := NextKeyState(now[idx], s.buttons[n], s.held[n])], s, n + 1)
  {
    var after := now[idx := NextKeyState(now[idx], s.buttons[n], s.held[n])];
    WhereItWas(before, now, s, n, idx);
    SameCodes(now, after);
    assert OnList(before, n);
    forall i | 0 <= i < |before| ensures Moved(before[i], after[i], before, s, n + 1) {
      if i != idx {
        WhereItWas(before, now, s, n, i);
        assert now[i].kcode != n;
        StillMoved(before, now, s, n, i);
      }
    }
    assert Listed(after, s.keymap) by {
      hide OnList, Moved, TakenOrFull;
    }
    hide Moved, Listed, OnList, IsFull;
  }

  lemma AddMoves(before: seq<Key>, now: seq<Key>, s: Scanned, n: nat, empty: nat)
    requires s.Valid() && n < |s.keymap| && Midway(before, now, s, n) && empty < |now| && now[empty].kcode == NO_CODE
    requires s.buttons[n] && !OnList(now, n)
    ensures Midway(before, now[empty := Key(s.keymap[n], n, Pressed, true)], s, n + 1)
  {
    var after := now[empty := Key(s.keymap[n], n, Pressed, true)];
    assert !OnList(before, n) by {
      forall i | 0 <= i < |before| ensures before[i].kcode != n {
        WhereItWas(before, now, s, n, i);
        assert now[i].kcode != n;
      }
    }
    WhereItWas(before, now, s, n, empty);
    forall i | 0 <= i < |before| ensures Moved(before[i], after[i], before, s, n + 1) {
      if i != empty {
        assert before[i].kcode != n;
        StillMoved(before, now, s, n, i);
      }
    }
    assert Listed(after, s.keymap) by {
      assert forall i :: 0 <= i < |now| ==> now[i].kcode != n;
      hide OnList, Moved, TakenOrFull;
    }
    forall c | 0 <= c < n + 1 && s.buttons[c] && !OnList(before, c) ensures OnList(after, c) || IsFull(after) {
      if c == n {
        assert after[empty].kcode == n;
      } else if OnList(now, c) {
        var i :| 0 <= i < |now| && now[i].kcode == c;
        assert after[i].kcode == c;
      }
    }
    hide Moved, Listed, OnList, IsFull;
  }

  lemma SkipMoves(before: seq<Key>, now: seq<Key>, s: Scanned, n: nat)
    requires s.Valid() && n < |s.keymap| && Midway(before, now, s, n) && !OnList(now, n) && (s.buttons[n] ==> IsFull(now))
    ensures Midway(before, now, s, n + 1)
  {
    forall i | 0 <= i < |before| ensures Moved(before[i], now[i], before, s, n + 1) {
      WhereItWas(before, now, s, n, i);
      assert now[i].kcode != n;
      StillMoved(before, now, s, n, i);
    }
    hide Moved, Listed, OnList, IsFull;
  }

  lemma EmptyHasNoCode(now: seq<Key>, s: Scanned)
    requires s.Valid() && Listed(now, s.keymap)
    ensures FindEmpty(now) >= 0 ==> now[FindEmpty(now)].kcode == NO_CODE
    ensures FindEmpty(now) < 0 ==> IsFull(now)
  {
  }

  lemma ScanKeyMoves(before: seq<Key>, now: seq<Key>, s: Scanned, n: nat)
    requires s.Valid() && n < |s.keymap| && Midway(before, now, s, n)
    ensures Midway(before, ScanKey(now, s, n), s, n + 1)
  {
    EmptyHasNoCode(now, s);
    var idx, empty := FindInList(now, n), FindEmpty(now);
    assert idx < 0 ==> !OnList(now, n);
    hide Midway, FindInList, FindEmpty, OnList, IsFull;
    if idx >= 0 {
      AdvanceMoves(before, now, s, n, idx);
    } else if s.buttons[n] && empty >= 0 {
      AddMoves(before, now, s, n, empty);
    } else {
      SkipMoves(before, now, s, n);
    }
  }

  lemma {:induction false} ScanMoves(before: seq<Key>, s: Scanned, n: nat)
    requires s.Valid() && n <= |s.keymap| && Listed(before, s.keymap)
    ensures Midway(before, ScanUpTo(before, s, n), s, n)
  {
    hide ScanKey;
    if n > 0 {
      ScanMoves(before, s, n - 1);
      ScanKeyMoves(before, ScanUpTo(before, s, n - 1), s, n - 1);
    } else {
      hide Listed, OnList;
    }
  }

  /** Deleting idle keys empties their slots. */
  lemma DeleteKeeps(keys: seq<Key>, keymap: seq<Byte>)
    requires Listed(keys, keymap)
    ensures Listed(DeleteIdle(keys), keymap)
  {
  }

  // ---- whole runs ----

  /** The states of a slot one scan after the other: pressed, perhaps held, released, idle, and again. */
  predicate Follows(a: KeyState, b: KeyState) {
    match a
    case Idle => b.Pressed?
    case Pressed => b.Hold? || b.Released?
    case Hold => b.Released?
    case Released => b.Idle?
  }

  /** What one scan does to a list in order. */
  lemma ScanKeepsListed(keys: seq<Key>, s: Scanned)
    requires s.Valid() && Listed(keys, s.keymap)
    ensures Listed(UpdateList(keys, s), s.keymap)
  {
    DeleteKeeps(keys, s.keymap);
    hide Listed, ScanUpTo;
    ScanMoves(DeleteIdle(keys), s, |s.keymap|);
  }

  /** A key keeps its slot until it is idle; a slot's state moves one step at most, and the change flag says whether it has. */
  lemma ScanMovesSlot(keys: seq<Key>, s: Scanned, i: nat)
    requires s.Valid() && Listed(keys, s.keymap) && i < |keys|
    ensures var was, now := keys[i], UpdateList(keys, s)[i];
            (!was.kstate.Idle? ==> now.kcode == was.kcode && now.kchar == was.kchar) &&
            (now.kstate == was.kstate || Follows(was.kstate, now.kstate)) &&
            now.stateChanged == (now.kstate != was.kstate)
  {
    DeleteKeeps(keys, s.keymap);
    hide ScanUpTo, OnList, TakenOrFull, NextKeyState, Follows;
    var before := DeleteIdle(keys);
    ScanMoves(before, s, |s.keymap|);
    var now := UpdateList(keys, s);
    assert Moved(before[i], now[i], before, s, |s.keymap|);
    hide Moved, Delete;
    MovedState(keys[i], now[i], before, s);
  }

  /** One slot of a scan. */
  lemma MovedState(was: Key, now: Key, before: seq<Key>, s: Scanned)
    requires s.Valid() && Moved(Delete(was), now, before, s, |s.keymap|)
    requires if was.kcode == NO_CODE then was.kstate.Idle? else 0 <= was.kcode < |s.keymap|
    ensures (!was.kstate.Idle? ==> now.kcode == was.kcode && now.kchar == was.kchar) &&
            (now.kstate == was.kstate || Follows(was.kstate, now.kstate)) &&
            now.stateChanged == (now.kstate != was.kstate)
  {
    hide OnList;
  }

  /** A pressed key is missing after a scan only if every slot is taken. */
  lemma PressedIsListed(keys: seq<Key>, s: Scanned, code: nat)
    requires s.Valid() && Listed(keys, s.keymap) && code < |s.keymap| && s.buttons[code]
    ensures var now := UpdateList(keys, s); OnList(now, code) || IsFull(now)
  {
    DeleteKeeps(keys, s.keymap);
    var before := DeleteIdle(keys);
    ScanMoves(before, s, |s.keymap|);
    hide ScanUpTo;
    if OnList(before, code) {
      var i :| 0 <= i < |before| && before[i].kcode == code;
      WhereItStays(before, UpdateList(keys, s), s, i);
    }
  }

  lemma WhereItStays(before: seq<Key>, now: seq<Key>, s: Scanned, i: nat)
    requires s.Valid() && Listed(before, s.keymap) && Midway(before, now, s, |s.keymap|) && i < |before| && before[i].kcode != NO_CODE
    ensures now[i].kcode == before[i].kcode
  {
    assert Moved(before[i], now[i], before, s, |s.keymap|);
    hide OnList, TakenOrFull;
  }

  predicate AllScans(scans: seq<Scanned>, keymap: seq<Byte>) {
    forall i :: 0 <= i < |scans| ==> scans[i].Valid() && scans[i].keymap == keymap
  }

  /** The lists after each scan of a run, the starting one first. */
  function History(keys: seq<Key>, scans: seq<Scanned>, keymap: seq<Byte>): (h: seq<seq<Key>>)
    requires AllScans(scans, keymap)
    ensures |h| == |scans| + 1 && h[0] == keys
    ensures forall k :: 0 <= k < |h| ==> |h[k]| == |keys|
    decreases |scans|
  {
    if scans == [] then [keys] else [keys] + History(UpdateList(keys, scans[0]), scans[1..], keymap)
  }

  ghost predicate IsRun(h: seq<seq<Key>>, keymap: seq<Byte>) {
    (forall k :: 0 <= k < |h| ==> Listed(h[k], keymap)) &&
    forall k, next :: 0 <= k < next < |h| && next == k + 1 ==> SlotsMove(h[k], h[next])
  }

  predicate SlotsMove(was: seq<Key>, now: seq<Key>) {
    |was| == |now| && forall i :: 0 <= i < |was| ==> SlotMoves(was[i], now[i])
  }

  predicate SlotMoves(was: Key, now: Key) {
    (!was.kstate.Idle? ==> now.kcode == was.kcode) && (now.kstate == was.kstate || Follows(was.kstate, now.kstate))
  }

  function NewList(): (keys: seq<Key>)
    ensures |keys| == LIST_MAX
  {
    seq(LIST_MAX, i => Key(NO_KEY, NO_CODE, Idle, false))
  }

  /** In every run of scans no two slots hold the same key, a key keeps its slot until it is idle, and every slot goes
      through pressed, perhaps held, released and idle. */
  lemma {:induction false} EveryRun(keys: seq<Key>, scans: seq<Scanned>, keymap: seq<Byte>)
    requires AllScans(scans, keymap) && Listed(keys, keymap)
    ensures IsRun(History(keys, scans, keymap), keymap)
    decreases |scans|
  {
    hide Listed, UpdateList, SlotMoves;
    if scans != [] {
      var s := scans[0];
      assert s.Valid() && s.keymap == keymap;
      ScanKeepsListed(keys, s);
      var next := UpdateList(keys, s);
      EveryRun(next, scans[1..], keymap);
      var h, rest := History(keys, scans, keymap), History(next, scans[1..], keymap);
      forall i | 0 <= i < |keys| ensures SlotMoves(keys[i], next[i]) {
        ScanMovesSlot(keys, s, i);
        MovedSlot(keys[i], next[i]);
      }
      assert SlotsMove(keys, next);
      forall k, m | 0 <= k < m < |h| && m == k + 1 ensures SlotsMove(h[k], h[m]) {
        if k > 0 {
          assert h[k] == rest[k - 1] && h[m] == rest[m - 1];
        }
      }
    }
  }

  lemma MovedSlot(was: Key, now: Key)
    requires !was.kstate.Idle? ==> now.kcode == was.kcode
    requires now.kstate == was.kstate || Follows(was.kstate, now.kstate)
    ensures SlotMoves(was, now)
  {
  }

  // ---- what the buttons do ----

  /** A listed key turns RELEASED when its button is open, unless it turns HOLD first; it turns HOLD when it has been held
      long enough, stays so while its button is closed, and is IDLE one scan after RELEASED. */
  predicate Obeys(was: Key, now: Key, button: bool, held: bool) {
    now.kcode == was.kcode && now.kchar == was.kchar &&
    (now.kstate.Released? <==> !button && (was.kstate.Hold? || (was.kstate.Pressed? && !held))) &&
    (now.kstate.Hold? <==> (was.kstate.Pressed? && held) || (was.kstate.Hold? && button)) &&
    (now.kstate.Pressed? <==> was.kstate.Pressed? && button && !held) &&
    (now.kstate.Idle? <==> was.kstate.Released?)
  }

  /** What a slot without an active key becomes: a key that is pressed and has no slot, or nothing. */
  predicate Fills(now: Key, keys: seq<Key>, s: Scanned)
    requires s.Valid()
  {
    now == Key(NO_KEY, NO_CODE, Idle, false) ||
    (0 <= now.kcode < |s.keymap| && s.buttons[now.kcode] && now == Key(s.keymap[now.kcode], now.kcode, Pressed, true) &&
     forall i :: 0 <= i < |keys| && keys[i].kcode == now.kcode ==> keys[i].kstate.Idle?)
  }

  /** One scan, slot by slot. */
  lemma ScanObeys(keys: seq<Key>, s: Scanned, i: nat)
    requires s.Valid() && Listed(keys, s.keymap) && i < |keys|
    ensures var was, now := keys[i], UpdateList(keys, s)[i];
            if was.kstate.Idle? then Fills(now, keys, s)
            else 0 <= was.kcode < |s.keymap| && Obeys(was, now, s.buttons[was.kcode], s.held[was.kcode])
  {
    DeleteKeeps(keys, s.keymap);
    hide ScanUpTo, TakenOrFull, OnList;
    var before := DeleteIdle(keys);
    ScanMoves(before, s, |s.keymap|);
    var now := UpdateList(keys, s);
    assert Moved(before[i], now[i], before, s, |s.keymap|);
    hide Listed, Moved, Obeys, Fills;
    if keys[i].kstate.Idle? {
      MovedFills(keys, now[i], s, keys[i]);
    } else {
      MovedObeys(keys[i], now[i], before, s);
    }
  }

  lemma MovedObeys(was: Key, now: Key, before: seq<Key>, s: Scanned)
    requires s.Valid() && Moved(was, now, before, s, |s.keymap|) && 0 <= was.kcode < |s.keymap|
    ensures !was.kstate.Idle? ==> Obeys(was, now, s.buttons[was.kcode], s.held[was.kcode])
  {
    hide OnList;
  }

  lemma MovedFills(keys: seq<Key>, now: Key, s: Scanned, was: Key)
    requires s.Valid() && was.kstate.Idle? && Moved(Delete(was), now, DeleteIdle(keys), s, |s.keymap|)
    ensures Fills(now, keys, s)
  {
    if now.kcode != NO_CODE {
      forall j | 0 <= j < |keys| && keys[j].kcode == now.kcode ensures keys[j].kstate.Idle? {
        assert DeleteIdle(keys)[j] == Delete(keys[j]);
        assert !OnList(DeleteIdle(keys), now.kcode);
      }
    }
    hide OnList, DeleteIdle;
  }

  /** A slot after some scans of a run. */
  function SlotAfter(keys: seq<Key>, scans: seq<Scanned>, keymap: seq<Byte>, n: nat, i: nat): Key
    requires AllScans(scans, keymap) && n <= |scans| && i < |keys|
  {
    History(keys, scans, keymap)[n][i]
  }

  /** The buttons of a run: those of one key. */
  predicate AllOpen(scans: seq<Scanned>, keymap: seq<Byte>, code: nat)
    requires AllScans(scans, keymap) && code < |keymap|
  {
    forall k :: 0 <= k < |scans| ==> !scans[k].buttons[code]
  }

  predicate AllClosed(scans: seq<Scanned>, keymap: seq<Byte>, code: nat)
    requires AllScans(scans, keymap) && code < |keymap|
  {
    forall k :: 0 <= k < |scans| ==> scans[k].buttons[code]
  }

  /** Whether one of the first n scans finds that a key has been held long enough. */
  predicate HeldWithin(scans: seq<Scanned>, keymap: seq<Byte>, code: nat, n: nat)
    requires AllScans(scans, keymap) && code < |keymap| && n <= |scans|
  {
    exists k :: 0 <= k < n && scans[k].held[code]
  }

  /** A key is released in a scan only if its button is open in that scan. */
  lemma {:induction false} ReleasedOnlyWhenOpen(keys: seq<Key>, scans: seq<Scanned>, keymap: seq<Byte>, k: nat, i: nat)
    requires AllScans(scans, keymap) && Listed(keys, keymap) && k < |scans| && i < |keys|
    ensures var was, now := SlotAfter(keys, scans, keymap, k, i), SlotAfter(keys, scans, keymap, k + 1, i);
            now.kstate.Released? && !was.kstate.Released? ==>
              0 <= was.kcode < |keymap| && now.kcode == was.kcode && !scans[k].buttons[was.kcode]
    decreases k
  {
    hide Listed, UpdateList;
    var s := scans[0];
    ScanKeepsListed(keys, s);
    assert SlotAfter(keys, scans, keymap, k + 1, i) == SlotAfter(UpdateList(keys, s), scans[1..], keymap, k, i);
    if k == 0 {
      ScanObeys(keys, s, i);
    } else {
      ReleasedOnlyWhenOpen(UpdateList(keys, s), scans[1..], keymap, k - 1, i);
    }
  }

  /** A key whose button stays closed is PRESSED until it has been held long enough and HOLD from then on. */
  lemma {:induction false} HeldDown(keys: seq<Key>, scans: seq<Scanned>, keymap: seq<Byte>, i: nat, n: nat)
    requires AllScans(scans, keymap) && Listed(keys, keymap) && i < |keys| && n <= |scans|
    requires 0 <= keys[i].kcode < |keymap| && (keys[i].kstate.Pressed? || keys[i].kstate.Hold?) && AllClosed(scans, keymap, keys[i].kcode)
    ensures var k, code := SlotAfter(keys, scans, keymap, n, i), keys[i].kcode;
            k.kcode == code &&
            k.kstate == if keys[i].kstate.Hold? || HeldWithin(scans, keymap, code, n) then Hold else Pressed
    decreases n
  {
    hide Listed, UpdateList;
    if n > 0 {
      var s, rest, code := scans[0], scans[1..], keys[i].kcode;
      ScanKeepsListed(keys, s);
      ScanObeys(keys, s, i);
      HeldDown(UpdateList(keys, s), rest, keymap, i, n - 1);
      assert SlotAfter(keys, scans, keymap, n, i) == SlotAfter(UpdateList(keys, s), rest, keymap, n - 1, i);
      if HeldWithin(rest, keymap, code, n - 1) {
        var k :| 0 <= k < n - 1 && rest[k].held[code];
        assert scans[k + 1].held[code];
      }
      if HeldWithin(scans, keymap, code, n) && !s.held[code] {
        var k :| 0 <= k < n && scans[k].held[code];
        assert rest[k - 1].held[code];
      }
    }
  }

  /** How many scans a key with an open button may still be active. */
  function Left(s: KeyState): nat {
    match s
    case Pressed => 3
    case Hold => 2
    case Released => 1
    case Idle => 0
  }

  /** A key whose button stays open is IDLE after three scans at the latest, and its slot has lost it after four. */
  lemma {:induction false} LetGo(keys: seq<Key>, scans: seq<Scanned>, keymap: seq<Byte>, code: nat, n: nat)
    requires AllScans(scans, keymap) && Listed(keys, keymap) && code < |keymap| && AllOpen(scans, keymap, code) && n <= |scans|
    ensures forall i: nat :: i < |keys| && SlotAfter(keys, scans, keymap, n, i).kcode == code ==>
              keys[i].kcode == code && Left(SlotAfter(keys, scans, keymap, n, i).kstate) + n <= Left(keys[i].kstate)
    decreases n
  {
    hide Listed, UpdateList;
    if n > 0 {
      var s := scans[0];
      var next := UpdateList(keys, s);
      ScanKeepsListed(keys, s);
      LetGo(next, scans[1..], keymap, code, n - 1);
      forall i: nat | i < |keys| && SlotAfter(keys, scans, keymap, n, i).kcode == code
        ensures keys[i].kcode == code && Left(SlotAfter(keys, scans, keymap, n, i).kstate) + n <= Left(keys[i].kstate)
      {
        ScanObeys(keys, s, i);
        assert SlotAfter(keys, scans, keymap, n, i) == SlotAfter(next, scans[1..], keymap, n - 1, i);
      }
    }
  }

  lemma OffTheList(keys: seq<Key>, scans: seq<Scanned>, keymap: seq<Byte>, code: nat, n: nat)
    requires AllScans(scans, keymap) && Listed(keys, keymap) && code < |keymap| && AllOpen(scans, keymap, code) && 3 <= n <= |scans|
    ensures forall i: nat :: i < |keys| && SlotAfter(keys, scans, keymap, n, i).kcode == code ==>
              SlotAfter(keys, scans, keymap, n, i).kstate.Idle?
    ensures n >= 4 ==> !OnList(History(keys, scans, keymap)[n], code)
  {
    LetGo(keys, scans, keymap, code, n);
    hide Listed, History;
    var now := History(keys, scans, keymap)[n];
    forall i | 0 <= i < |now| && n >= 4 ensures now[i].kcode != code {
      assert now[i] == SlotAfter(keys, scans, keymap, n, i);
    }
  }

  /** A key that is pressed and has no active slot is PRESSED after the scan, with its change flag set, or the list is full. */
  lemma NewlyPressed(keys: seq<Key>, s: Scanned, code: nat)
    requires s.Valid() && Listed(keys, s.keymap) && code < |s.keymap| && s.buttons[code]
    requires forall i :: 0 <= i < |keys| && keys[i].kcode == code ==> keys[i].kstate.Idle?
    ensures var now := UpdateList(keys, s);
            IsFull(now) || exists i :: 0 <= i < |now| && now[i] == Key(s.keymap[code], code, Pressed, true)
  {
    PressedIsListed(keys, s, code);
    hide Listed, UpdateList, IsFull;
    var now := UpdateList(keys, s);
    if OnList(now, code) {
      var i :| 0 <= i < |now| && now[i].kcode == code;
      ScanObeys(keys, s, i);
    }
  }

  /** A run from an empty list. */
  lemma EveryRunFromNew(scans: seq<Scanned>, keymap: seq<Byte>)
    requires AllScans(scans, keymap)
    ensures IsRun(History(NewList(), scans, keymap), keymap)
  {
    EveryRun(NewList(), scans, keymap);
  }
}

/** The keypad object. */
module KeypadObject {
  import opened Bytes
  import opened KeyList

  class Keypad {
    const keymap: seq<Byte>
    const rows: nat
    const columns: nat
    const key: array<Key>

    ghost predicate Valid() {
      key.Length == LIST_MAX && |keymap| == rows * columns && NO_KEY !in keymap
    }

    constructor (userKeymap: seq<Byte>, numRows: nat, numCols: nat)
      requires |userKeymap| == numRows * numCols && NO_KEY !in userKeymap
      ensures Valid() && keymap == userKeymap && fresh(key) && key[..] == NewList()
    {
      keymap, rows, columns := userKeymap, numRows, numCols;
      key := new Key[LIST_MAX](_ => Key(NO_KEY, NO_CODE, Idle, false));
    }

    method Transition(idx: nat, next: KeyState)
      requires idx < key.Length
      modifies key
      ensures key[..] == old(key[..])[idx := TransitionTo(old(key[idx]), next)]
    {
      key[idx] := key[idx].(kstate := next);
      key[idx] := key[idx].(stateChanged := true);
    }

    method NextState(idx: nat, button: bool, held: bool)
      requires idx < key.Length
      modifies key
      ensures key[..] == old(key[..])[idx := NextKeyState(old(key[idx]), button, held)]
    {
      key[idx] := key[idx].(stateChanged := false);
      match key[idx].kstate
      case Idle =>
        if button {
          Transition(idx, Pressed);
        }
      case Pressed =>
        if held {
          Transition(idx, Hold);
        } else if !button {
          Transition(idx, Released);
        }
      case Hold =>
        if !button {
          Transition(idx, Released);
        }
      case Released => Transition(idx, Idle);
    }

    method Find(code: int) returns (idx: int)
      ensures idx == FindInList(key[..], code)
    {
      for i := 0 to key.Length
        invariant forall j :: 0 <= j < i ==> key[j].kcode != code
      {
        if key[i].kcode == code {
          FirstWithCode(key[..], code, i);
          return i;
        }
      }
      FirstWithCode(key[..], code, key.Length);
      return -1;
    }

    method DeleteIdleKeys()
      modifies key
      ensures key[..] == DeleteIdle(old(key[..]))
    {
      for i := 0 to key.Length
        invariant forall j :: 0 <= j < key.Length ==> key[j] == if j < i then Delete(old(key[j])) else old(key[j])
      {
        if key[i].kstate == Idle {
          key[i] := key[i].(kchar := NO_KEY);
          key[i] := key[i].(kcode := NO_CODE);
          key[i] := key[i].(stateChanged := false);
        }
      }
    }

    /** Puts a pressed key into the first empty slot. */
    method AddKey(code: nat, held: bool)
      requires code < |keymap|
      modifies key
      ensures var was := old(key[..]);
              var empty := FindEmpty(was);
              key[..] == if empty < 0 then was
                         else was[empty := NextKeyState(Key(keymap[code], code, Idle, was[empty].stateChanged), true, held)]
    {
      for i := 0 to key.Length
        invariant key[..] == old(key[..]) && forall j :: 0 <= j < i ==> key[j].kchar != NO_KEY
      {
        if key[i].kchar == NO_KEY {
          FirstEmpty(key[..], i);
          key[i] := key[i].(kchar := keymap[code]);
          key[i] := key[i].(kcode := code);
          key[i] := key[i].(kstate := Idle);
          NextState(i, true, held);
          return;
        }
      }
      FirstEmpty(key[..], key.Length);
    }

    method ScanOneKey(s: Scanned, code: nat)
      requires s.Valid() && s.keymap == keymap && code < |keymap|
      modifies key
      ensures key[..] == ScanKey(old(key[..]), s, code)
    {
      hide FindInList, FindEmpty, NextKeyState;
      var idx := Find(code);
      if idx >= 0 {
        NextState(idx, s.buttons[code], s.held[code]);
      }
      if idx == -1 && s.buttons[code] {
        AddKey(code, s.held[code]);
      }
    }

    /** One scan; whether any key changed its state. */
    method Update(s: Scanned) returns (anyActivity: bool)
      requires Valid() && s.Valid() && s.keymap == keymap
      modifies key
      ensures key[..] == UpdateList(old(key[..]), s)
      ensures anyActivity <==> exists i :: 0 <= i < key.Length && key[i].stateChanged
    {
      hide ScanKey;
      DeleteIdleKeys();
      ghost var before := key[..];
      for r := 0 to rows
        invariant r * columns <= |keymap| && key[..] == ScanUpTo(before, s, r * columns)
      {
        RowFits(r, rows, columns);
        for c := 0 to columns
          invariant r * columns + c <= |keymap| && key[..] == ScanUpTo(before, s, r * columns + c)
        {
          ScanOneKey(s, r * columns + c);
        }
      }
      anyActivity := false;
      for i := 0 to key.Length
        invariant anyActivity <==> exists j :: 0 <= j < i && key[j].stateChanged
      {
        if key[i].stateChanged {
          anyActivity := true;
        }
      }
    }
  }

  lemma RowFits(r: nat, rows: nat, columns: nat)
    requires r < rows
    ensures r * columns + columns == (r + 1) * columns <= rows * columns
  {
  }

  lemma {:induction false} FirstWithCode(keys: seq<Key>, code: int, i: nat)
    requires i <= |keys| && (forall j :: 0 <= j < i ==> keys[j].kcode != code) && (i < |keys| ==> keys[i].kcode == code)
    ensures FindInList(keys, code) == if i < |keys| then i else -1
  {
    if keys != [] && i > 0 {
      FirstWithCode(keys[1..], code, i - 1);
    }
  }

  lemma {:induction false} FirstEmpty(keys: seq<Key>, i: nat)
    requires i <= |keys| && (forall j :: 0 <= j < i ==> keys[j].kchar != NO_KEY) && (i < |keys| ==> keys[i].kchar == NO_KEY)
    ensures FindEmpty(keys) == if i < |keys| then i else -1
  {
    if keys != [] && i > 0 {
      FirstEmpty(keys[1..], i - 1);
    }
  }
}
