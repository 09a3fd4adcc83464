/** The challenges of the hash object: power cycles kept in EEPROM and a counter of connections. */
module Challenges {
  import opened Bytes

  const WORDS: nat := 0x10000
  const CHALLENGE_BYTE_SIZE: nat := 8

  type Word = w: nat | w < 0x10000
  type LongWord = w: nat | w < 0x1_0000_0000

  /** A 16-bit number with its high byte first. */
  function BigEndian(w: Word): (s: seq<Byte>)
    ensures |s| == 2
  {
    [w / 0x100, w % 0x100]
  }

  function BigEndianLong(w: LongWord): (s: seq<Byte>)
    ensures |s| == 4
  {
    [w / 0x1000000, w / 0x10000 % 0x100, w / 0x100 % 0x100, w % 0x100]
  }

  function Reversed(s: seq<Byte>): (r: seq<Byte>)
    ensures |r| == |s|
  {
    seq(|s|, i requires 0 <= i < |s| => s[|s| - 1 - i])
  }

  /** The bytes of a number as the processor stores them. */
  function Native(bigEndian: bool, bytes: seq<Byte>): seq<Byte> {
    if bigEndian then bytes else Reversed(bytes)
  }

  function Xor(a: Byte, b: Byte): Byte {
    ((a as bv8) ^ (b as bv8)) as int
  }

  /** What survives in EEPROM and what is in memory while the power is on. */
  datatype Mac = Mac(stored: Word, powerCycles: Word, connectionCounter: Word, initCalled: bool, disableEEPROM: bool, keySet: bool) {
    predicate IsValid() {
      disableEEPROM || !keySet || powerCycles > 0
    }
  }

  /** The stored number of power cycles is used up by reading it; without EEPROM it is random, but not 0. */
  function ReadPowerCycles(m: Mac, random: Word): (Mac, Word) {
    if m.disableEEPROM then (m, if random == 0 then WORDS - 1 else random)
    else (m.(stored := if m.stored == 0 then 0 else m.stored - 1), m.stored)
  }

  /** Only the first call after the power comes on has an effect. */
  function Initialise(m: Mac, useEEPROM: bool, random: Word): Mac {
    if m.initCalled then m
    else
      var read := ReadPowerCycles(m.(initCalled := true, disableEEPROM := !useEEPROM), random);
      read.0.(powerCycles := read.1)
  }

  /** The power comes on: memory is cleared, EEPROM keeps its contents. */
  function PowerUp(m: Mac, useEEPROM: bool, random: Word): Mac {
    Initialise(Mac(m.stored, 0, 0, false, false, true), useEEPROM, random)
  }

  /** The next counter, and the next power cycle once the counter is used up; whether the challenge can be made. */
  function Count(m: Mac, random: Word): (Mac, bool) {
    var counter := (m.connectionCounter + 1) % WORDS;
    var m := m.(connectionCounter := counter);
    if counter != 0 then (m, true)
    else
      var read := ReadPowerCycles(m, random);
      var m :=
        if m.disableEEPROM then m.(powerCycles := if m.powerCycles == 1 then WORDS - 1 else (m.powerCycles + WORDS - 1) % WORDS)
        else read.0.(powerCycles := read.1);
      if m.IsValid() then (m.(connectionCounter := 1), true) else (m, false)
  }

  /** The bytes of a challenge: power cycles, counter and the time since the last connection, its last byte made random. */
  function ChallengeOf(m: Mac, elapsed: LongWord, random: Byte): (c: seq<Byte>)
    ensures |c| == CHALLENGE_BYTE_SIZE
  {
    var time := BigEndianLong(elapsed);
    BigEndian(m.powerCycles) + BigEndian(m.connectionCounter) + time[..3] + [Xor(time[3], random)]
  }

  datatype Event = PowerOn | Build(elapsed: LongWord, random: Byte) | InitAgain(useEEPROM: bool)

  function Step(m: Mac, ev: Event): Mac {
    match ev
    case PowerOn => PowerUp(m, true, 0)
    case Build(_, _) => Count(m, 0).0
    case InitAgain(use) => Initialise(m, use, 0)
  }

  /** The challenge an event makes. */
  function Made(m: Mac, ev: Event): seq<seq<Byte>> {
    if ev.Build? && Count(m, 0).1 then [ChallengeOf(Count(m, 0).0, ev.elapsed, ev.random)] else []
  }

  /** Challenges are asked for only while the hash object is valid. */
  predicate Allowed(m: Mac, ev: Event) {
    (ev.Build? ==> m.IsValid()) && (ev.InitAgain? ==> m.initCalled)
  }

  predicate AllowedRun(m: Mac, events: seq<Event>)
    decreases |events|
  {
    events != [] ==> Allowed(m, events[0]) && AllowedRun(Step(m, events[0]), events[1..])
  }

  function AllMade(m: Mac, events: seq<Event>): seq<seq<Byte>>
    decreases |events|
  {
    if events == [] then [] else Made(m, events[0]) + AllMade(Step(m, events[0]), events[1..])
  }

  /** EEPROM in use, a key set, and the stored number below the one in use. */
  predicate InUse(m: Mac) {
    m.initCalled && !m.disableEEPROM && m.keySet && (m.stored < m.powerCycles || m.powerCycles == 0 == m.stored)
  }

  /** The power cycles and the counter a challenge was made with. */
  function Power(c: seq<Byte>): nat
    requires |c| == CHALLENGE_BYTE_SIZE
  {
    var high: int := c[0];
    high * 0x100 + c[1]
  }

  function Counter(c: seq<Byte>): nat
    requires |c| == CHALLENGE_BYTE_SIZE
  {
    var high: int := c[2];
    high * 0x100 + c[3]
  }

  lemma PowerAndCounter(m: Mac, elapsed: LongWord, random: Byte)
    ensures var c := ChallengeOf(m, elapsed, random); Power(c) == m.powerCycles && Counter(c) == m.connectionCounter
  {
    hide Xor, BigEndianLong;
  }

  /** Challenges still to come: of a later power cycle, or of this one with a greater counter. */
  predicate Later(m: Mac, c: seq<Byte>)
    requires |c| == CHALLENGE_BYTE_SIZE
  {
    Power(c) <= m.stored || (Power(c) == m.powerCycles && Counter(c) > m.connectionCounter)
  }

  /** One event: a new challenge is a later one, and everything that comes after it is later still. */
  lemma {:induction false} StepKeepsInUse(m: Mac, ev: Event)
    requires InUse(m) && Allowed(m, ev)
    ensures InUse(Step(m, ev)) && Step(m, ev).stored <= m.stored
    ensures var n := Step(m, ev);
            n.powerCycles <= m.stored || (n.powerCycles == m.powerCycles && n.connectionCounter >= m.connectionCounter)
    ensures var n := Step(m, ev);
            forall c :: c in Made(m, ev) ==>
              |c| == CHALLENGE_BYTE_SIZE && Later(m, c) && Power(c) == n.powerCycles > n.stored && Counter(c) == n.connectionCounter
  {
    hide BigEndian, BigEndianLong, Xor, Power, Counter;
    if Made(m, ev) != [] {
      PowerAndCounter(Step(m, ev), ev.elapsed, ev.random);
    }
  }

  /** Every challenge of a run is later than the state it starts in. */
  lemma {:induction false} AllAreLater(m: Mac, events: seq<Event>)
    requires InUse(m) && AllowedRun(m, events)
    ensures forall c :: c in AllMade(m, events) ==> |c| == CHALLENGE_BYTE_SIZE && Later(m, c)
    decreases |events|
  {
    hide Made, Step, Power, Counter;
    if events != [] {
      StepKeepsInUse(m, events[0]);
      AllAreLater(Step(m, events[0]), events[1..]);
    }
  }

  /** The part of a challenge that is never to come again. */
  function Front(c: seq<Byte>): seq<Byte> {
    if |c| < 4 then c else c[..4]
  }

  predicate DifferentFronts(cs: seq<seq<Byte>>) {
    (forall c :: c in cs ==> |c| == CHALLENGE_BYTE_SIZE) && forall i, j :: 0 <= i < j < |cs| ==> Front(cs[i]) != Front(cs[j])
  }

  lemma EqualFronts(c: seq<Byte>, d: seq<Byte>)
    requires |c| == |d| == CHALLENGE_BYTE_SIZE && c[..4] == d[..4]
    ensures Power(c) == Power(d) && Counter(c) == Counter(d)
  {
    assert c[0] == c[..4][0] && c[1] == c[..4][1] && c[2] == c[..4][2] && c[3] == c[..4][3];
    assert d[0] == d[..4][0] && d[1] == d[..4][1] && d[2] == d[..4][2] && d[3] == d[..4][3];
  }

  lemma FrontsDiffer(c: seq<Byte>, d: seq<Byte>)
    requires |c| == |d| == CHALLENGE_BYTE_SIZE && (Power(c) != Power(d) || Counter(c) != Counter(d))
    ensures Front(c) != Front(d)
  {
    hide Power, Counter;
    if Front(c) == Front(d) {
      EqualFronts(c, d);
    }
  }

  /** Over any sequence of power-ups and challenges asked for while the hash object is valid, no two challenges agree in
      their first four bytes. */
  lemma {:induction false} ChallengesAreUnique(m: Mac, events: seq<Event>)
    requires InUse(m) && AllowedRun(m, events)
    ensures DifferentFronts(AllMade(m, events))
    decreases |events|
  {
    hide Made, Step, Power, Counter;
    if events != [] {
      var n, first, rest := Step(m, events[0]), Made(m, events[0]), AllMade(Step(m, events[0]), events[1..]);
      StepKeepsInUse(m, events[0]);
      ChallengesAreUnique(n, events[1..]);
      AllAreLater(n, events[1..]);
      AtMostOne(m, events[0]);
      if first != [] {
        assert first[0] in first;
        forall d | d in rest ensures Front(first[0]) != Front(d) {
          FrontsDiffer(first[0], d);
        }
        OneMoreDiffers(first[0], rest);
        assert first == [first[0]];
      } else {
        assert first + rest == rest;
      }
    }
  }

  lemma OneMoreDiffers(c: seq<Byte>, rest: seq<seq<Byte>>)
    requires DifferentFronts(rest) && |c| == CHALLENGE_BYTE_SIZE && forall d :: d in rest ==> Front(c) != Front(d)
    ensures DifferentFronts([c] + rest)
  {
  }

  lemma AtMostOne(m: Mac, ev: Event)
    ensures |Made(m, ev)| <= 1
  {
  }

  /** From the first power-up on, whatever the EEPROM holds. */
  lemma {:induction false} UniqueFromPowerOn(stored: Word, events: seq<Event>)
    requires AllowedRun(PowerUp(Mac(stored, 0, 0, false, false, false), true, 0), events)
    ensures DifferentFronts(AllMade(PowerUp(Mac(stored, 0, 0, false, false, false), true, 0), events))
  {
    ChallengesAreUnique(PowerUp(Mac(stored, 0, 0, false, false, false), true, 0), events);
  }

  /** Without EEPROM a later power-up can make an earlier challenge again: the two runs start in the same state. */
  lemma NotUniqueWithoutEEPROM(stored: Word, random: Word, elapsed: LongWord, r: Byte)
    ensures var m := PowerUp(Mac(stored, 0, 0, false, false, true), false, random);
            var again := PowerUp(Count(m, 0).0, false, random);
            ChallengeOf(Count(m, 0).0, elapsed, r) == ChallengeOf(Count(again, 0).0, elapsed, r)
  {
  }

  // ---- how long it lasts ----

  /** Some power-ups one after the other. */
  function PoweredUp(m: Mac, times: nat): Mac {
    if times == 0 then m else PowerUp(PoweredUp(m, times - 1), true, 0)
  }

  /** With EEPROM every power-up takes one number, down to the last one, which is 1; from then on there are no challenges. */
  lemma {:induction false} PowerUpsCountDown(m: Mac, times: nat)
    requires times > 0
    ensures var n := PoweredUp(m, times);
            n.powerCycles == (if times <= m.stored then m.stored - (times - 1) else 0) &&
            n.stored == (if times <= m.stored then m.stored - times else 0) && n.connectionCounter == 0 &&
            (n.IsValid() <==> times <= m.stored)
    decreases times
  {
    if times > 1 {
      PowerUpsCountDown(m, times - 1);
    }
  }

  /** Exactly: with EEPROM the next challenge takes the next counter; once the counters are used up it takes the next stored
      number and counter 1, and if there is none left it is refused. */
  lemma RefusedExactly(m: Mac)
    requires InUse(m) && m.IsValid()
    ensures !Count(m, 0).1 <==> m.connectionCounter == WORDS - 1 && m.stored == 0
    ensures Count(m, 0).1 ==>
              Count(m, 0).0 == if m.connectionCounter < WORDS - 1 then m.(connectionCounter := m.connectionCounter + 1)
                               else m.(connectionCounter := 1, powerCycles := m.stored, stored := m.stored - 1)
  {
  }

  // ---- without EEPROM ----

  /** The numbers of one power-on: a counter goes from 1 to COUNTERS and a power number down from its start, 1 being followed
      by the greatest. */
  const COUNTERS: nat := WORDS - 1
  const CHALLENGES: nat := COUNTERS * COUNTERS

  function Down(start: nat, steps: nat): nat
    requires 0 < start < WORDS
  {
    var k := steps % COUNTERS;
    if k < start then start - k else start + COUNTERS - k
  }

  lemma DownOne(start: nat, steps: nat)
    requires 0 < start < WORDS
    ensures Down(start, steps + 1) == if Down(start, steps) == 1 then WORDS - 1 else Down(start, steps) - 1
    ensures 0 < Down(start, steps) < WORDS
  {
    NextRemainder(steps);
  }

  lemma NextRemainder(a: nat)
    ensures (a + 1) % COUNTERS == (if a % COUNTERS == COUNTERS - 1 then 0 else a % COUNTERS + 1)
    ensures (a + 1) / COUNTERS == (if a % COUNTERS == COUNTERS - 1 then a / COUNTERS + 1 else a / COUNTERS)
  {
  }

  function Counted(m: Mac, n: nat): Mac {
    if n == 0 then m else Count(Counted(m, n - 1), 0).0
  }

  lemma CountOnWithout(m: Mac)
    requires m.disableEEPROM && m.connectionCounter > 0 && m.powerCycles > 0
    ensures Count(m, 0).1
    ensures Count(m, 0).0 == if m.connectionCounter < WORDS - 1 then m.(connectionCounter := m.connectionCounter + 1)
                             else m.(connectionCounter := 1, powerCycles := if m.powerCycles == 1 then WORDS - 1 else m.powerCycles - 1)
  {
  }

  /** The state behind each challenge of one power-on without EEPROM; none is refused. */
  lemma {:induction false} CountedIs(m: Mac, random: Word, n: nat)
    requires n > 0
    ensures var up := PowerUp(m, false, random);
            var c := Counted(up, n);
            0 < up.powerCycles && c == up.(powerCycles := Down(up.powerCycles, (n - 1) / COUNTERS), connectionCounter := (n - 1) % COUNTERS + 1) &&
            Count(Counted(up, n - 1), 0).1
    decreases n
  {
    var up := PowerUp(m, false, random);
    assert up.disableEEPROM && 0 < up.powerCycles && up.connectionCounter == 0;
    if n == 1 {
      assert Counted(up, 0) == up && Count(up, 0) == (up.(connectionCounter := 1), true);
    } else {
      hide Down, Count, PowerUp;
      CountedIs(m, random, n - 1);
      CountOnWithout(Counted(up, n - 1));
      NextRemainder(n - 2);
      DownOne(up.powerCycles, (n - 2) / COUNTERS);
    }
  }

  /** The power number of a power-on without EEPROM is the random one, or the greatest if that is 0. */
  lemma RandomIsUsed(m: Mac, random: Word)
    ensures var up := PowerUp(m, false, random);
            up.powerCycles == (if random == 0 then WORDS - 1 else random) && up.stored == m.stored && up.IsValid()
  {
  }

  lemma DownIsOneToOne(start: nat, a: nat, b: nat)
    requires 0 < start < WORDS
    ensures Down(start, a) == Down(start, b) <==> a % COUNTERS == b % COUNTERS
  {
  }

  lemma RemainderOfRemainders(a: nat)
    ensures a % CHALLENGES == (a / COUNTERS) % COUNTERS * COUNTERS + a % COUNTERS
  {
    var q, r := a / COUNTERS, a % COUNTERS;
    var big, small := q / COUNTERS, q % COUNTERS;
    assert a == q * COUNTERS + r && q == big * COUNTERS + small;
    assert a == big * CHALLENGES + (small * COUNTERS + r);
    assert 0 <= small * COUNTERS + r < CHALLENGES;
  }

  lemma BothRemainders(a: nat, b: nat)
    ensures a % CHALLENGES == b % CHALLENGES <==> a % COUNTERS == b % COUNTERS && (a / COUNTERS) % COUNTERS == (b / COUNTERS) % COUNTERS
  {
    RemainderOfRemainders(a);
    RemainderOfRemainders(b);
    TwoDigits((a / COUNTERS) % COUNTERS, a % COUNTERS, (b / COUNTERS) % COUNTERS, b % COUNTERS);
  }

  lemma TwoDigits(q: nat, r: nat, p: nat, s: nat)
    requires r < COUNTERS && s < COUNTERS
    ensures q * COUNTERS + r == p * COUNTERS + s <==> q == p && r == s
  {
  }

  /** The numbers in the nth challenge. */
  lemma NumbersOf(m: Mac, random: Word, n: nat, elapsed: LongWord, r: Byte)
    requires n > 0
    ensures var up := PowerUp(m, false, random);
            var c := ChallengeOf(Counted(up, n), elapsed, r);
            0 < up.powerCycles && Power(c) == Down(up.powerCycles, (n - 1) / COUNTERS) && Counter(c) == (n - 1) % COUNTERS + 1
  {
    CountedIs(m, random, n);
    hide Down, Counted, PowerUp, ChallengeOf, Power, Counter;
    PowerAndCounter(Counted(PowerUp(m, false, random), n), elapsed, r);
  }

  /** Exactly: in one power-on without EEPROM two challenges agree in their first four bytes if and only if a multiple of
      65535 * 65535 challenges lies between them. */
  lemma {:induction false} RepeatsExactly(m: Mac, random: Word, i: nat, j: nat, elapsed: LongWord, later: LongWord, r: Byte, s: Byte)
    requires i > 0 && j > 0
    ensures var up := PowerUp(m, false, random);
            var c, d := ChallengeOf(Counted(up, i), elapsed, r), ChallengeOf(Counted(up, j), later, s);
            Front(c) == Front(d) <==> (i - 1) % CHALLENGES == (j - 1) % CHALLENGES
  {
    hide Down, Counted, PowerUp, ChallengeOf, Power, Counter, Front;
    var up := PowerUp(m, false, random);
    NumbersOf(m, random, i, elapsed, r);
    NumbersOf(m, random, j, later, s);
    BothRemainders(i - 1, j - 1);
    DownIsOneToOne(up.powerCycles, (i - 1) / COUNTERS, (j - 1) / COUNTERS);
    SameFront(ChallengeOf(Counted(up, i), elapsed, r), ChallengeOf(Counted(up, j), later, s));
  }

  lemma SameFront(c: seq<Byte>, d: seq<Byte>)
    requires |c| == |d| == CHALLENGE_BYTE_SIZE
    ensures Front(c) == Front(d) <==> Power(c) == Power(d) && Counter(c) == Counter(d)
  {
    if Power(c) == Power(d) && Counter(c) == Counter(d) {
      assert c[..4] == [c[0], c[1], c[2], c[3]] && d[..4] == [d[0], d[1], d[2], d[3]];
    } else {
      FrontsDiffer(c, d);
    }
  }
}

/** The hash object's challenge side. */
module MacObject {
  import opened Bytes
  import opened Challenges

  /** Turns the first len bytes round in place. */
  method ReverseBytes(b: array<Byte>, len: nat)
    requires len <= b.Length
    modifies b
    ensures b[..len] == Reversed(old(b[..len])) && b[len..] == old(b[len..])
  {
    ghost var was := b[..];
    for i := 0 to len / 2
      invariant forall k :: 0 <= k < i ==> b[k] == was[len - 1 - k] && b[len - 1 - k] == was[k]
      invariant forall k :: i <= k < len - i ==> b[k] == was[k]
      invariant forall k :: len <= k < b.Length ==> b[k] == was[k]
    {
      b[i], b[len - 1 - i] := b[len - 1 - i], b[i];
    }
    assert forall k :: 0 <= k < len ==> b[k] == was[len - 1 - k];
  }

  class PfodMac {
    const eeprom: array<Byte>
    const address: nat
    const bigEndian: bool
    var powerCycles: Word
    var connectionCounter: Word
    var initCalled: bool
    var disableEEPROM: bool
    var keyLen: nat

    ghost predicate Valid() {
      address + 2 <= eeprom.Length
    }

    /** The stored number; its bytes are in the processor's order. */
    ghost function Stored(): Word
      requires Valid()
      reads eeprom
    {
      var bytes := Native(bigEndian, eeprom[address..address + 2]);
      WordOf(bytes[0], bytes[1])
    }

    ghost function View(): Mac
      requires Valid()
      reads this, eeprom
    {
      Mac(Stored(), powerCycles, connectionCounter, initCalled, disableEEPROM, keyLen > 0)
    }

    /** The power comes on; the key is set afterwards. */
    constructor (storage: array<Byte>, at: nat, big: bool)
      requires at + 2 <= storage.Length
      ensures Valid() && eeprom == storage && address == at && bigEndian == big
      ensures powerCycles == connectionCounter == 0 && !initCalled && !disableEEPROM && keyLen == 0
    {
      eeprom, address, bigEndian := storage, at, big;
      powerCycles, connectionCounter, initCalled, disableEEPROM, keyLen := 0, 0, false, false, 0;
    }

    method SetSecretKey(len: nat)
      modifies this`keyLen
      ensures keyLen == if len > 0 then 16 else 0
    {
      keyLen := if len > 16 then 16 else len;
      if keyLen > 0 && keyLen < 16 {
        keyLen := 16;
      }
    }

    /** A 16-bit number out of EEPROM. */
    method ReadStored() returns (w: Word)
      requires Valid()
      ensures w == Stored()
    {
      var bytes := new Byte[2];
      bytes[0] := eeprom[address];
      bytes[1] := eeprom[address + 1];
      assert bytes[..] == eeprom[address..address + 2];
      if !bigEndian {
        ReverseBytes(bytes, 2);
      }
      assert bytes[..2] == bytes[..];
      w := WordOf(bytes[0], bytes[1]);
    }

    method WriteStored(w: Word)
      requires Valid()
      modifies eeprom
      ensures Stored() == w
    {
      var bytes := new Byte[2];
      bytes[0] := BigEndian(w)[0];
      bytes[1] := BigEndian(w)[1];
      assert bytes[..] == BigEndian(w);
      if !bigEndian {
        ReverseBytes(bytes, 2);
      }
      assert bytes[..2] == bytes[..];
      eeprom[address] := bytes[0];
      eeprom[address + 1] := bytes[1];
      assert eeprom[address..address + 2] == bytes[..];
      WordRoundTrip(w);
    }

    /** Uses up one power cycle. */
    method ReadCycles(random: Word) returns (w: Word)
      requires Valid()
      modifies eeprom
      ensures (View(), w) == ReadPowerCycles(old(View()), random)
    {
      hide Native, WordOf;
      if disableEEPROM {
        w := random;
        if w == 0 {
          w := WORDS - 1;
        }
        return;
      }
      w := ReadStored();
      if w != 0 {
        WriteStored(w - 1);
      }
    }

    method Init(useEEPROM: bool, random: Word) returns (valid: bool)
      requires Valid()
      modifies this, eeprom
      ensures View() == Initialise(old(View()), useEEPROM, random)
      ensures valid == (old(initCalled) || View().IsValid())
    {
      hide Native, WordOf;
      if initCalled {
        return true;
      }
      initCalled := true;
      disableEEPROM := !useEEPROM;
      powerCycles := ReadCycles(random);
      valid := disableEEPROM || keyLen == 0 || powerCycles > 0;
    }

    /** Counts the connection. */
    method CountConnection(random: Word) returns (ok: bool)
      requires Valid()
      modifies this, eeprom
      ensures (View(), ok) == Count(old(View()), random)
    {
      hide Native, WordOf;
      connectionCounter := (connectionCounter + 1) % WORDS;
      if connectionCounter == 0 {
        if disableEEPROM {
          powerCycles := (powerCycles + WORDS - 1) % WORDS;
          if powerCycles == 0 {
            powerCycles := WORDS - 1;
          }
        } else {
          powerCycles := ReadCycles(random);
        }
        if !(disableEEPROM || keyLen == 0 || powerCycles > 0) {
          return false;
        }
        connectionCounter := 1;
      }
      ok := true;
    }

    /** Copies a 16-bit number into the challenge, high byte first. */
    method PutWord(w: Word, challenge: array<Byte>, idx: nat)
      requires idx + 2 <= challenge.Length
      modifies challenge
      ensures challenge[..] == old(challenge[..idx]) + BigEndian(w) + old(challenge[idx + 2..])
    {
      var bytes := new Byte[2];
      var native := Native(bigEndian, BigEndian(w));
      bytes[0] := native[0];
      bytes[1] := native[1];
      assert bytes[..] == native;
      if !bigEndian {
        ReverseBytes(bytes, 2);
        ReversedTwice(BigEndian(w));
      }
      assert bytes[..2] == bytes[..];
      challenge[idx] := bytes[0];
      challenge[idx + 1] := bytes[1];
    }

    /** The four bytes of a number, high byte first. */
    method LongBytes(l: LongWord) returns (bytes: array<Byte>)
      ensures fresh(bytes) && bytes.Length == 4 && bytes[..] == BigEndianLong(l)
    {
      hide BigEndianLong;
      var native := Native(bigEndian, BigEndianLong(l));
      bytes := new Byte[4](i requires 0 <= i < 4 => native[i]);
      assert bytes[..] == native == bytes[..4];
      if !bigEndian {
        ReverseBytes(bytes, 4);
        ReversedTwice(BigEndianLong(l));
        assert bytes[..] == bytes[..4];
      }
    }

    method PutLong(l: LongWord, challenge: array<Byte>, idx: nat)
      requires idx + 4 <= challenge.Length
      modifies challenge
      ensures challenge[..] == old(challenge[..idx]) + BigEndianLong(l) + old(challenge[idx + 4..])
    {
      hide BigEndianLong;
      var bytes := LongBytes(l);
      ghost var was := challenge[..];
      for i := 0 to 4
        invariant bytes[..] == BigEndianLong(l)
        invariant forall k :: 0 <= k < challenge.Length ==> challenge[k] == if idx <= k < idx + i then bytes[k - idx] else was[k]
      {
        challenge[idx + i] := bytes[i];
      }
      ghost var all := was[..idx] + BigEndianLong(l) + was[idx + 4..];
      assert forall k :: 0 <= k < challenge.Length ==> challenge[k] == all[k];
    }

    /** Makes the next challenge; without a power cycle left nothing is made. */
    method BuildChallenge(challenge: array<Byte>, elapsed: LongWord, lastConnectionRandom: Byte, random: Word) returns (ok: bool)
      requires Valid() && challenge.Length >= CHALLENGE_BYTE_SIZE && challenge != eeprom
      modifies this, eeprom, challenge
      ensures (View(), ok) == Count(old(View()), random)
      ensures if ok then challenge[..CHALLENGE_BYTE_SIZE] == ChallengeOf(View(), elapsed, lastConnectionRandom)
              else challenge[..] == old(challenge[..])
    {
      hide Native, WordOf, BigEndian, BigEndianLong, Xor, Count;
      ok := CountConnection(random);
      if !ok {
        return;
      }
      ghost var m := View();
      var low := Xor(elapsed % 0x100, lastConnectionRandom);
      LowByteReplaced(elapsed, low);
      var time := elapsed - elapsed % 0x100 + low;
      PutWord(powerCycles, challenge, 0);
      PutWord(connectionCounter, challenge, 2);
      assert challenge[..4] == BigEndian(powerCycles) + BigEndian(connectionCounter);
      PutLong(time, challenge, 4);
      assert challenge[..8] == challenge[..4] + BigEndianLong(time);
    }
  }

  /** The upper bytes depend on the number without its low byte only. */
  lemma UpperBytes(l: LongWord)
    ensures BigEndianLong(l) == [l / 0x100 / 0x10000, l / 0x100 / 0x100 % 0x100, l / 0x100 % 0x100, l % 0x100]
  {
    assert l / 0x10000 == l / 0x100 / 0x100 && l / 0x1000000 == l / 0x100 / 0x10000;
  }

  lemma LowByteReplaced(l: LongWord, low: Byte)
    ensures l - l % 0x100 + low < 0x1_0000_0000
    ensures BigEndianLong(l - l % 0x100 + low) == BigEndianLong(l)[..3] + [low] && BigEndianLong(l)[3] == l % 0x100
  {
    var n := l - l % 0x100 + low;
    assert n < 0x1_0000_0000 && n / 0x100 == l / 0x100 && n % 0x100 == low;
    UpperBytes(l);
    UpperBytes(n);
    hide BigEndianLong;
  }

  function WordOf(high: Byte, low: Byte): Word {
    var h: int := high;
    h * 0x100 + low
  }

  lemma WordRoundTrip(w: Word)
    ensures WordOf(BigEndian(w)[0], BigEndian(w)[1]) == w
    ensures Reversed(Reversed(BigEndian(w))) == BigEndian(w)
  {
  }

  lemma ReversedTwice(s: seq<Byte>)
    ensures Reversed(Reversed(s)) == s
  {
  }
}
