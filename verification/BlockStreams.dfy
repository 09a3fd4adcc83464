/** Cutting a stream of items into blocks of eight, for any items and any way to absorb a block. */
module BlockStreams {

  /** All the blocks of a sequence made of whole blocks. */
  function Compress<S, T>(absorb: (S, seq<T>) -> S, s: S, items: seq<T>): S {
    if |items| < 8 then s
    else absorb(Compress(absorb, s, items[..|items| - 8]), items[|items| - 8..])
  }

  function Copies<T>(c: T, n: nat): (r: seq<T>)
    ensures |r| == n
  {
    if n == 0 then [] else Copies(c, n - 1) + [c]
  }

  /** Items arrive one at a time and wait until a block is complete. */
  datatype Stream<S, T> = Stream(state: S, pending: seq<T>)

  function Feed<S, T>(absorb: (S, seq<T>) -> S, s: Stream<S, T>, c: T): Stream<S, T> {
    var pending := s.pending + [c];
    if |pending| == 8 then Stream(absorb(s.state, pending), []) else Stream(s.state, pending)
  }

  function FeedUntilSeven<S, T>(absorb: (S, seq<T>) -> S, s: Stream<S, T>, c: T): Stream<S, T>
    decreases 7 - |s.pending|
  {
    if |s.pending| >= 7 then s else FeedUntilSeven(absorb, Feed(absorb, s, c), c)
  }

  function Fed<S, T>(absorb: (S, seq<T>) -> S, s: S, items: seq<T>): Stream<S, T> {
    if items == [] then Stream(s, [])
    else Feed(absorb, Fed(absorb, s, items[..|items| - 1]), items[|items| - 1])
  }

  lemma FedAppend<S, T>(absorb: (S, seq<T>) -> S, s: S, items: seq<T>, c: T)
    ensures Fed(absorb, s, items + [c]) == Feed(absorb, Fed(absorb, s, items), c)
  {
    assert (items + [c])[..|items|] == items;
  }

  lemma FedNothing<S, T>(absorb: (S, seq<T>) -> S, s: S, items: seq<T>)
    requires items == []
    ensures Fed(absorb, s, items) == Stream(Compress(absorb, s, items), [])
  {
  }

  /** What a stream holds: the n whole blocks are absorbed, the rest waits. */
  lemma {:induction false} FedHolds<S, T>(absorb: (S, seq<T>) -> S, s: S, whole: seq<T>, n: nat, rest: seq<T>)
    requires |whole| == 8 * n && |rest| < 8
    ensures Fed(absorb, s, whole + rest) == Stream(Compress(absorb, s, whole), rest)
    decreases n, |rest| + 1
  {
    hide Fed, Compress;
    if rest != [] {
      var front, c := rest[..|rest| - 1], rest[|rest| - 1];
      FedHolds(absorb, s, whole, n, front);
      FedAppend(absorb, s, whole + front, c);
      assert whole + front + [c] == whole + rest;
      assert front + [c] == rest;
    } else {
      assert whole + rest == whole;
      if n == 0 {
        FedNothing(absorb, s, whole);
      } else {
        FedBlock(absorb, s, whole, n);
      }
    }
  }

  lemma {:induction false} FedBlock<S, T>(absorb: (S, seq<T>) -> S, s: S, whole: seq<T>, n: nat)
    requires |whole| == 8 * n && n > 0
    ensures Fed(absorb, s, whole) == Stream(Compress(absorb, s, whole), [])
    decreases n, 0
  {
    hide Fed;
    var w := |whole| - 8;
    var words, front, c := whole[..w], whole[w..w + 7], whole[w + 7];
    FedHolds(absorb, s, words, n - 1, front);
    FedAppend(absorb, s, words + front, c);
    assert front + [c] == whole[w..];
    assert words + front + [c] == whole;
  }

  lemma {:induction false} CopiesFront<T>(c: T, n: nat)
    ensures Copies(c, n + 1) == [c] + Copies(c, n)
  {
    if n > 0 {
      CopiesFront(c, n - 1);
    }
  }

  lemma {:induction false} FedUntilSeven<S, T>(absorb: (S, seq<T>) -> S, s: S, whole: seq<T>, n: nat, rest: seq<T>, c: T)
    requires |whole| == 8 * n && |rest| < 8
    ensures FeedUntilSeven(absorb, Fed(absorb, s, whole + rest), c) == Fed(absorb, s, whole + rest + Copies(c, 7 - |rest|))
    decreases 7 - |rest|
  {
    hide Fed, Feed, Compress;
    FedHolds(absorb, s, whole, n, rest);
    if |rest| == 7 {
      assert whole + rest + Copies(c, 0) == whole + rest;
    } else {
      FedAppend(absorb, s, whole + rest, c);
      assert whole + (rest + [c]) == whole + rest + [c];
      FedUntilSeven(absorb, s, whole, n, rest + [c], c);
      CopiesFront(c, 6 - |rest|);
      assert whole + rest + [c] + Copies(c, 6 - |rest|) == whole + rest + ([c] + Copies(c, 6 - |rest|));
    }
  }

  /** Feeding copies of c, then one last item, leaves nothing waiting. */
  lemma FedFilled<S, T>(absorb: (S, seq<T>) -> S, s: S, whole: seq<T>, n: nat, rest: seq<T>, c: T, last: T)
    requires |whole| == 8 * n && |rest| < 8
    ensures Feed(absorb, FeedUntilSeven(absorb, Fed(absorb, s, whole + rest), c), last).state
            == Compress(absorb, s, whole + rest + Copies(c, 7 - |rest|) + [last])
  {
    hide Fed, Feed, Compress, FeedUntilSeven, Copies;
    var filled := whole + rest + Copies(c, 7 - |rest|);
    FedUntilSeven(absorb, s, whole, n, rest, c);
    FedAppend(absorb, s, filled, last);
    assert filled + [last] + [] == filled + [last];
    FedHolds(absorb, s, filled + [last], n + 1, []);
  }

  lemma {:induction false} ItemsFilled<S, T>(absorb: (S, seq<T>) -> S, s: S, items: seq<T>, c: T, last: T)
    ensures Feed(absorb, FeedUntilSeven(absorb, Fed(absorb, s, items), c), last).state
            == Compress(absorb, s, items + Copies(c, 7 - |items| % 8) + [last])
  {
    hide Fed, Feed, Compress, FeedUntilSeven, Copies;
    var n := |items| / 8;
    assert items[..8 * n] + items[8 * n..] == items;
    FedFilled(absorb, s, items[..8 * n], n, items[8 * n..], c, last);
  }
}
