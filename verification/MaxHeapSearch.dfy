/** What a lookup in a MaxHeap index yields (apps/antelope/index-maxheap.c, get_next). */
module MaxHeapSearch {
  import opened MaxHeapTree
  import opened MaxHeapLayout

  predicate Match(bucket: seq<Pair>, key: Key, i: nat) {
    i < |bucket| && bucket[i].key == key
  }

  /** The first slot from `start` on that holds the key, or the size of the bucket. */
  function FirstMatch(bucket: seq<Pair>, key: Key, start: nat): (i: nat)
    ensures i < |bucket| ==> start <= i && Match(bucket, key, i)
    ensures i >= |bucket| ==> i == |bucket|
    ensures forall j: nat | start <= j < i :: !Match(bucket, key, j)
    decreases |bucket| - start
  {
    if start >= |bucket| then |bucket|
    else if bucket[start].key == key then start
    else FirstMatch(bucket, key, start + 1)
  }

  /** The values that the calls of get_next find for a key in the first n buckets of a path: the lowest
    * bucket is searched first.  The slot at which the search goes on is kept when it moves to the
    * bucket above. */
  function Chain(path: seq<seq<Pair>>, key: Key, n: nat, start: nat): seq<Key>
    requires n <= |path|
    decreases n, if n == 0 then 0 else |path[n - 1]| - start
  {
    if n == 0 then []
    else
      var i := FirstMatch(path[n - 1], key, start);
      if i < |path[n - 1]| then [path[n - 1][i].value] + Chain(path, key, n, i + 1) else Chain(path, key, n - 1, start)
  }

  // ---------------------------------------------------------------- when nothing is missed

  function ValuesFrom(bucket: seq<Pair>, key: Key, start: nat): seq<Key>
    decreases |bucket| - start
  {
    if start >= |bucket| then []
    else (if bucket[start].key == key then [bucket[start].value] else []) + ValuesFrom(bucket, key, start + 1)
  }

  /** The values that the first n buckets hold for the key. */
  function Bag(path: seq<seq<Pair>>, key: Key, n: nat): multiset<Key>
    requires n <= |path|
  {
    if n == 0 then multiset{} else Bag(path, key, n - 1) + multiset(ValuesFrom(path[n - 1], key, 0))
  }

  lemma ValuesUnfold(bucket: seq<Pair>, key: Key, start: nat)
    requires start < |bucket|
    ensures ValuesFrom(bucket, key, start) ==
            if bucket[start].key == key then [bucket[start].value] + ValuesFrom(bucket, key, start + 1)
            else ValuesFrom(bucket, key, start + 1)
  {
    var rest := ValuesFrom(bucket, key, start + 1);
    assert [] + rest == rest;
  }

  lemma {:induction false} ValuesStep(bucket: seq<Pair>, key: Key, start: nat)
    ensures var i := FirstMatch(bucket, key, start);
            ValuesFrom(bucket, key, start) == if i < |bucket| then [bucket[i].value] + ValuesFrom(bucket, key, i + 1) else []
    decreases |bucket| - start
  {
    if start < |bucket| {
      hide ValuesFrom;
      ValuesUnfold(bucket, key, start);
      if bucket[start].key != key {
        ValuesStep(bucket, key, start + 1);
      }
    }
  }

  predicate NoneBefore(bucket: seq<Pair>, key: Key, from: nat, start: nat) {
    forall i: nat | from <= i < start :: !Match(bucket, key, i)
  }

  lemma NoneBeforeStep(bucket: seq<Pair>, key: Key, from: nat, start: nat)
    requires from < start
    ensures NoneBefore(bucket, key, from, start) <==> !Match(bucket, key, from) && NoneBefore(bucket, key, from + 1, start)
  {
  }

  lemma OneMore(v: Key, rest: seq<Key>, fewer: seq<Key>)
    requires multiset(fewer) <= multiset(rest)
    ensures multiset(fewer) <= multiset([v] + rest) && multiset(fewer) != multiset([v] + rest)
  {
    assert multiset([v] + rest) == multiset{v} + multiset(rest);
    assert multiset([v] + rest)[v] == 1 + multiset(rest)[v];
  }

  lemma {:induction false} FewerValues(bucket: seq<Pair>, key: Key, from: nat, start: nat)
    requires from <= start
    ensures multiset(ValuesFrom(bucket, key, start)) <= multiset(ValuesFrom(bucket, key, from))
    ensures multiset(ValuesFrom(bucket, key, start)) == multiset(ValuesFrom(bucket, key, from)) <==>
            NoneBefore(bucket, key, from, start)
    decreases start - from
  {
    if from < start {
      FewerValues(bucket, key, from + 1, start);
      NoneBeforeStep(bucket, key, from, start);
      if from < |bucket| {
        hide ValuesFrom, NoneBefore;
        ValuesUnfold(bucket, key, from);
        OneMore(bucket[from].value, ValuesFrom(bucket, key, from + 1), ValuesFrom(bucket, key, start));
      }
    }
  }

  /** Among the first n buckets, the key stands in no bucket at or before the slot of a match further
    * down. */
  ghost predicate Descending(path: seq<seq<Pair>>, key: Key, n: nat)
    requires n <= |path|
  {
    forall a: nat, b: nat, i: nat, j: nat | a < b < n && Match(path[a], key, i) && Match(path[b], key, j) :: j < i
  }

  /** All matches in the first n buckets come after `start` and after the matches of `bucket` that do. */
  ghost predicate After(path: seq<seq<Pair>>, key: Key, n: nat, bucket: seq<Pair>, start: nat)
    requires n <= |path|
  {
    forall a: nat, i: nat | a < n && Match(path[a], key, i) ::
      start <= i && forall j: nat | Match(bucket, key, j) && start <= j :: j < i
  }

  lemma AfterFirst(path: seq<seq<Pair>>, key: Key, n: nat, bucket: seq<Pair>, start: nat)
    requires n <= |path| && FirstMatch(bucket, key, start) < |bucket|
    ensures After(path, key, n, bucket, start) <==> After(path, key, n, bucket, FirstMatch(bucket, key, start) + 1)
  {
    var first := FirstMatch(bucket, key, start);
    assert Match(bucket, key, first);
    assert forall j: nat | Match(bucket, key, j) && start <= j :: j == first || first + 1 <= j;
  }

  lemma AfterNone(path: seq<seq<Pair>>, key: Key, n: nat, bucket: seq<Pair>, start: nat)
    requires 0 < n <= |path| && FirstMatch(bucket, key, start) >= |bucket|
    ensures Descending(path, key, n) && After(path, key, n, bucket, start) <==>
            && Descending(path, key, n - 1) && After(path, key, n - 1, path[n - 1], start)
            && NoneBefore(path[n - 1], key, 0, start)
  {
    var below := path[n - 1];
    assert forall j: nat :: Match(bucket, key, j) ==> j < start;
    if Descending(path, key, n - 1) && After(path, key, n - 1, below, start) && NoneBefore(below, key, 0, start) {
      forall a: nat, i: nat | a < n && Match(path[a], key, i)
        ensures start <= i
      {
        if a == n - 1 {
          assert Match(below, key, i);
        }
      }
    }
  }

  lemma Nothing(path: seq<seq<Pair>>, key: Key, bucket: seq<Pair>, start: nat)
    ensures Descending(path, key, 0) && After(path, key, 0, bucket, start)
  {
  }

  lemma AddOne(a: multiset<Key>, b: multiset<Key>, c: multiset<Key>, v: Key)
    requires a <= b + c
    ensures multiset{v} + a <= b + (multiset{v} + c)
    ensures multiset{v} + a == b + (multiset{v} + c) <==> a == b + c
  {
    assert b + (multiset{v} + c) == multiset{v} + (b + c);
    assert a == (multiset{v} + a) - multiset{v};
    assert b + c == (multiset{v} + (b + c)) - multiset{v};
  }

  lemma Weaken(a: multiset<Key>, b: multiset<Key>, c: multiset<Key>, d: multiset<Key>)
    requires a <= b + c && c <= d
    ensures a <= b + d
    ensures a == b + d <==> a == b + c && c == d
  {
    if a == b + d {
      assert b + d <= b + c;
      assert c == (b + c) - b && d == (b + d) - b;
    }
  }

  lemma Cons(v: Key, s: seq<Key>)
    ensures multiset([v] + s) == multiset{v} + multiset(s)
  {
  }

  lemma ChainStep(path: seq<seq<Pair>>, key: Key, n: nat, start: nat)
    requires 0 < n <= |path|
    ensures var i := FirstMatch(path[n - 1], key, start);
            if i < |path[n - 1]|
            then multiset(Chain(path, key, n, start)) == multiset{path[n - 1][i].value} + multiset(Chain(path, key, n, i + 1))
            else Chain(path, key, n, start) == Chain(path, key, n - 1, start)
    ensures var i := FirstMatch(path[n - 1], key, start);
            if i < |path[n - 1]|
            then multiset(ValuesFrom(path[n - 1], key, start)) ==
                 multiset{path[n - 1][i].value} + multiset(ValuesFrom(path[n - 1], key, i + 1))
            else ValuesFrom(path[n - 1], key, start) == []
  {
    var i := FirstMatch(path[n - 1], key, start);
    ValuesStep(path[n - 1], key, start);
    if i < |path[n - 1]| {
      var v := path[n - 1][i].value;
      assert Chain(path, key, n, start) == [v] + Chain(path, key, n, i + 1);
      hide Chain, ValuesFrom, FirstMatch;
      Cons(v, Chain(path, key, n, i + 1));
      Cons(v, ValuesFrom(path[n - 1], key, i + 1));
    }
  }

  /** The values that the first n buckets hold for the key, as far as the lowest of them has not been
    * searched yet. */
  function Held(path: seq<seq<Pair>>, key: Key, n: nat, start: nat): multiset<Key>
    requires 0 < n <= |path|
  {
    Bag(path, key, n - 1) + multiset(ValuesFrom(path[n - 1], key, start))
  }

  /** The search finds only values that are there. */
  predicate FindsSome(path: seq<seq<Pair>>, key: Key, n: nat, start: nat)
    requires 0 < n <= |path|
  {
    multiset(Chain(path, key, n, start)) <= Held(path, key, n, start)
  }

  predicate FindsAll(path: seq<seq<Pair>>, key: Key, n: nat, start: nat)
    requires 0 < n <= |path|
  {
    multiset(Chain(path, key, n, start)) == Held(path, key, n, start)
  }

  lemma AfterHit(path: seq<seq<Pair>>, key: Key, n: nat, start: nat)
    requires 0 < n <= |path| && FirstMatch(path[n - 1], key, start) < |path[n - 1]|
    requires FindsSome(path, key, n, FirstMatch(path[n - 1], key, start) + 1)
    ensures FindsSome(path, key, n, start)
    ensures FindsAll(path, key, n, start) <==> FindsAll(path, key, n, FirstMatch(path[n - 1], key, start) + 1)
  {
    hide Bag, Chain, ValuesFrom;
    var i := FirstMatch(path[n - 1], key, start);
    ChainStep(path, key, n, start);
    AddOne(multiset(Chain(path, key, n, i + 1)), Bag(path, key, n - 1), multiset(ValuesFrom(path[n - 1], key, i + 1)),
           path[n - 1][i].value);
  }

  lemma AfterMiss(path: seq<seq<Pair>>, key: Key, n: nat, start: nat)
    requires 1 < n <= |path| && FirstMatch(path[n - 1], key, start) >= |path[n - 1]|
    requires FindsSome(path, key, n - 1, start)
    ensures FindsSome(path, key, n, start)
    ensures FindsAll(path, key, n, start) <==> FindsAll(path, key, n - 1, start) && NoneBefore(path[n - 2], key, 0, start)
  {
    hide Chain, ValuesFrom, NoneBefore;
    var below := path[n - 2];
    ChainStep(path, key, n, start);
    FewerValues(below, key, 0, start);
    var rest := Bag(path, key, n - 2);
    assert Held(path, key, n, start) == rest + multiset(ValuesFrom(below, key, 0));
    hide Bag;
    Weaken(multiset(Chain(path, key, n - 1, start)), rest,
           multiset(ValuesFrom(below, key, start)), multiset(ValuesFrom(below, key, 0)));
  }

  lemma LastMiss(path: seq<seq<Pair>>, key: Key, start: nat)
    requires 1 <= |path| && FirstMatch(path[0], key, start) >= |path[0]|
    ensures FindsSome(path, key, 1, start) && FindsAll(path, key, 1, start)
  {
    ChainStep(path, key, 1, start);
  }

  /** The search finds everything exactly when the slots of the matches descend towards the bottom of the
    * path. */
  lemma {:induction false} ChainFinds(path: seq<seq<Pair>>, key: Key, n: nat, start: nat)
    requires 0 < n <= |path|
    ensures FindsSome(path, key, n, start)
    ensures FindsAll(path, key, n, start) <==>
            Descending(path, key, n - 1) && After(path, key, n - 1, path[n - 1], start)
    decreases n, |path[n - 1]| - start
  {
    hide Descending, After, FindsSome, FindsAll, NoneBefore;
    var bucket := path[n - 1];
    var i := FirstMatch(bucket, key, start);
    if i < |bucket| {
      ChainFinds(path, key, n, i + 1);
      AfterHit(path, key, n, start);
      AfterFirst(path, key, n - 1, bucket, start);
    } else if n > 1 {
      ChainFinds(path, key, n - 1, start);
      AfterMiss(path, key, n, start);
      AfterNone(path, key, n - 1, bucket, start);
    } else {
      LastMiss(path, key, start);
      Nothing(path, key, bucket, start);
    }
  }

  lemma DescendingLast(path: seq<seq<Pair>>, key: Key, n: nat)
    requires 0 < n <= |path|
    ensures Descending(path, key, n) <==> Descending(path, key, n - 1) && After(path, key, n - 1, path[n - 1], 0)
  {
  }

  /** A lookup finds every value of its key if and only if the slots descend along the path. */
  lemma ChainComplete(path: seq<seq<Pair>>, key: Key)
    requires path != []
    ensures multiset(Chain(path, key, |path|, 0)) <= Bag(path, key, |path|)
    ensures multiset(Chain(path, key, |path|, 0)) == Bag(path, key, |path|) <==> Descending(path, key, |path|)
  {
    hide Descending, After, Chain, ValuesFrom;
    ChainFinds(path, key, |path|, 0);
    DescendingLast(path, key, |path|);
    assert Held(path, key, |path|, 0) == Bag(path, key, |path|);
  }

  // ---------------------------------------------------------------- keys inserted once

  lemma NoValues(path: seq<seq<Pair>>, key: Key, n: nat, a: nat, i: nat)
    requires a < n <= |path| && Match(path[a], key, i)
    ensures Bag(path, key, n) != multiset{}
    decreases n
  {
    if a < n - 1 {
      NoValues(path, key, n - 1, a, i);
    } else {
      ValuesStep(path[a], key, 0);
    }
  }

  lemma OnceAfter(path: seq<seq<Pair>>, key: Key, n: nat)
    requires 0 < n <= |path| && |Bag(path, key, n)| <= 1
    ensures |Bag(path, key, n - 1)| <= 1 && After(path, key, n - 1, path[n - 1], 0)
  {
    hide ValuesFrom;
    var last := path[n - 1];
    var bag := Bag(path, key, n - 1);
    assert |Bag(path, key, n)| == |bag| + |ValuesFrom(last, key, 0)|;
    hide Bag;
    ValuesStep(last, key, 0);
    if |bag| == 0 {
      forall a: nat, i: nat | a < n - 1 && Match(path[a], key, i)
        ensures false
      {
        NoValues(path, key, n - 1, a, i);
      }
    } else {
      assert FirstMatch(last, key, 0) >= |last|;
    }
  }

  lemma {:induction false} OnceDescends(path: seq<seq<Pair>>, key: Key, n: nat)
    requires n <= |path| && |Bag(path, key, n)| <= 1
    ensures Descending(path, key, n)
  {
    if n > 0 {
      hide Descending, After, Bag;
      OnceAfter(path, key, n);
      OnceDescends(path, key, n - 1);
      DescendingLast(path, key, n);
    } else {
      Nothing(path, key, [], 0);
    }
  }

  // ---------------------------------------------------------------- the path of a key in an index

  /** The buckets on the path of x, from the root down. */
  function PathOf(inserted: seq<Pair>, home: seq<nat>, x: nat, n: nat): (path: seq<seq<Pair>>)
    requires |home| == |inserted|
    ensures |path| == n
  {
    seq(n, level requires level >= 0 => Kept(inserted, home, Place(x, level)))
  }

  /** Bucket b is one of the first n on the path of x. */
  predicate Among(x: nat, n: nat, b: nat) {
    Level(b) < n && b == Place(x, Level(b))
  }

  lemma {:induction false} ValuesMore(bucket: seq<Pair>, p: Pair, key: Key, start: nat)
    requires start <= |bucket|
    ensures ValuesFrom(bucket + [p], key, start) == ValuesFrom(bucket, key, start) + if p.key == key then [p.value] else []
    decreases |bucket| - start
  {
    if start < |bucket| {
      ValuesMore(bucket, p, key, start + 1);
    }
  }

  /** What a pair adds to the values of a key, if it goes where the key is searched. */
  function Extra(p: Pair, key: Key, here: bool): multiset<Key> {
    if here && p.key == key then multiset{p.value} else multiset{}
  }

  lemma Regroup(a: multiset<Key>, b: multiset<Key>, c: multiset<Key>, d: multiset<Key>)
    ensures (a + b) + (c + d) == (a + c) + (b + d)
  {
  }

  /** One bucket of a path after an insertion. */
  lemma BucketMore(inserted: seq<Pair>, home: seq<nat>, p: Pair, b: nat, key: Key, c: nat)
    requires |home| == |inserted|
    ensures multiset(ValuesFrom(Kept(inserted + [p], home + [b], c), key, 0)) ==
            multiset(ValuesFrom(Kept(inserted, home, c), key, 0)) + Extra(p, key, b == c)
  {
    hide Kept, ValuesFrom;
    KeptMore(inserted, home, p, b, c);
    ValuesMore(Kept(inserted, home, c), p, key, 0);
    assert b != c ==> Kept(inserted + [p], home + [b], c) == Kept(inserted, home, c);
  }

  lemma AmongMore(p: Pair, key: Key, x: nat, l: nat, b: nat)
    requires x < 65536 && l <= 8
    ensures Extra(p, key, Among(x, l + 1, b)) == Extra(p, key, Among(x, l, b)) + Extra(p, key, b == Place(x, l))
  {
    hide Place, Level;
    PlaceHolds(x, l);
  }

  lemma {:induction false} BagMore(inserted: seq<Pair>, home: seq<nat>, p: Pair, b: nat, x: nat, key: Key, n: nat, j: nat)
    requires |home| == |inserted| && x < 65536 && j <= n <= 8
    ensures Bag(PathOf(inserted + [p], home + [b], x, n), key, j) ==
            Bag(PathOf(inserted, home, x, n), key, j) + Extra(p, key, Among(x, j, b))
    decreases j
  {
    hide Kept, Place, Level, ValuesFrom, Extra;
    if j > 0 {
      var l := j - 1;
      hide Among;
      BagMore(inserted, home, p, b, x, key, n, l);
      BucketMore(inserted, home, p, b, key, Place(x, l));
      AmongMore(p, key, x, l, b);
      Regroup(Bag(PathOf(inserted, home, x, n), key, l), Extra(p, key, Among(x, l, b)),
              multiset(ValuesFrom(Kept(inserted, home, Place(x, l)), key, 0)), Extra(p, key, b == Place(x, l)));
    } else {
      NoExtra(p, key, x, b);
    }
  }

  lemma NoExtra(p: Pair, key: Key, x: nat, b: nat)
    ensures Extra(p, key, Among(x, 0, b)) == multiset{}
  {
  }

  lemma ValuesLast(pairs: seq<Pair>, p: Pair, key: Key)
    ensures multiset(Values(pairs + [p], key)) == multiset(Values(pairs, key)) + Extra(p, key, true)
  {
    assert (pairs + [p])[..|pairs|] == pairs;
  }

  lemma ExtraHere(p: Pair, key: Key, here: bool)
    requires p.key == key ==> here
    ensures Extra(p, key, here) == Extra(p, key, true)
  {
  }

  /** The buckets on the path of a key hold exactly the values inserted under it. */
  predicate HoldsValues(inserted: seq<Pair>, home: seq<nat>, x: nat, key: Key, n: nat)
    requires |home| == |inserted|
  {
    Bag(PathOf(inserted, home, x, n), key, n) == multiset(Values(inserted, key))
  }

  lemma {:induction false} BagIsValues(inserted: seq<Pair>, home: seq<nat>, x: nat, key: Key, n: nat)
    requires |home| == |inserted| && x < 65536 && n <= 8
    requires forall m: nat | m < |inserted| && inserted[m].key == key :: Among(x, n, home[m])
    ensures HoldsValues(inserted, home, x, key, n)
    decreases |inserted|
  {
    if inserted == [] {
      NothingStored(home, x, key, n);
    } else {
      hide Among, HoldsValues;
      var m := |inserted| - 1;
      BagIsValues(inserted[..m], home[..m], x, key, n);
      OneStored(inserted[..m], home[..m], inserted[m], home[m], x, key, n);
      assert inserted == inserted[..m] + [inserted[m]] && home == home[..m] + [home[m]];
    }
  }

  lemma NothingStored(home: seq<nat>, x: nat, key: Key, n: nat)
    requires home == []
    ensures HoldsValues([], home, x, key, n)
  {
    assert forall l | 0 <= l < n :: PathOf([], home, x, n)[l] == [];
    EmptyBag(PathOf([], home, x, n), key, n);
  }

  lemma OneStored(inserted: seq<Pair>, home: seq<nat>, p: Pair, b: nat, x: nat, key: Key, n: nat)
    requires |home| == |inserted| && x < 65536 && n <= 8 && (p.key == key ==> Among(x, n, b))
    requires HoldsValues(inserted, home, x, key, n)
    ensures HoldsValues(inserted + [p], home + [b], x, key, n)
  {
    hide Among, PathOf, Bag, Values, Extra;
    BagMore(inserted, home, p, b, x, key, n, n);
    ValuesLast(inserted, p, key);
    ExtraHere(p, key, Among(x, n, b));
  }

  lemma {:induction false} EmptyBag(path: seq<seq<Pair>>, key: Key, n: nat)
    requires n <= |path| && forall l | 0 <= l < n :: path[l] == []
    ensures Bag(path, key, n) == multiset{}
  {
    if n > 0 {
      EmptyBag(path, key, n - 1);
    }
  }
}
