/** Iterating over MaxHeap values. */
module MaxHeapLookup {
  // get_next (apps/antelope/index-maxheap.c): the values of a key, and of a range of keys.

  import opened MaxHeapTree
  import opened MaxHeapNodes
  import opened MaxHeapLayout
  import opened MaxHeapSearch
  import opened MaxHeapIndex
  import opened InlineIndex

  lemma {:induction false} FirstMatchIs(bucket: seq<Pair>, key: Key, start: nat, i: nat)
    requires forall j: nat | start <= j < i :: !Match(bucket, key, j)
    requires if i < |bucket| then start <= i && bucket[i].key == key else true
    ensures FirstMatch(bucket, key, start) == if i < |bucket| then i else |bucket|
  {
    var first := FirstMatch(bucket, key, start);
    if i < |bucket| {
      assert Match(bucket, key, i);
      assert !(start <= i < first);
    }
    if first < |bucket| {
      assert !(start <= first < i);
    }
  }

  lemma ChainUnfold(path: seq<seq<Pair>>, key: Key, n: nat, start: nat)
    requires n <= |path|
    ensures n == 0 ==> Chain(path, key, n, start) == []
    ensures n > 0 ==>
              var i := FirstMatch(path[n - 1], key, start);
              Chain(path, key, n, start) ==
              if i < |path[n - 1]| then [path[n - 1][i].value] + Chain(path, key, n, i + 1) else Chain(path, key, n - 1, start)
  {
  }

  /** A call gives the first of the values still to come, or none. */
  predicate Yields(all: seq<Key>, r: Maybe, rest: seq<Key>) {
    if all == [] then r == Invalid && rest == []
    else r == Found(all[0]) && all == [all[0]] + rest
  }

  lemma YieldsInFront(all: seq<Key>, r: Maybe, rest: seq<Key>, more: seq<Key>)
    requires Yields(all, r, rest)
    ensures r.Found? || more == [] ==> Yields(all + more, r, rest + more)
    ensures r.Invalid? ==> all + more == more
  {
  }

  /** The state of an iterator over the keys from min to max, with the cache that get_next keeps for it:
    * the buckets on the path of the current key, the one being searched, the slot where the search goes
    * on, and how many matches it has seen. */
  datatype Cursor = Cursor(min: Key, max: Key, nextItem: nat, path: seq<nat>, current: int, start: nat, found: nat) {
    /** The path leads through these buckets. */
    predicate Holds(view: View, buckets: seq<seq<Pair>>) {
      && |buckets| == |path| && -1 <= current < |path|
      && forall l | 0 <= l < |path| :: path[l] < NODE_LIMIT && buckets[l] == Kept(view.inserted, view.home, path[l])
    }

    /** Ready for the next call: a search that has begun is where the last call left it. */
    predicate Ready(view: View) {
      min <= max && (nextItem > 0 ==> Holds(view, Path(view, min)) && found <= nextItem && (found == nextItem || current == -1))
    }

    /** What is left in the buckets from the current one up. */
    function Left(buckets: seq<seq<Pair>>): seq<Key> {
      if 0 <= current + 1 <= |buckets| then Chain(buckets, min, current + 1, start) else []
    }

    /** What the calls for the current key yield from now on. */
    function KeyRest(view: View): seq<Key> {
      if nextItem == 0 then Chain(Path(view, min), min, |Path(view, min)|, 0) else Left(Path(view, min))
    }

    /** What the calls from now on yield, if no other iterator is used in between. */
    function Rest(view: View): seq<Key> {
      KeyRest(view) + From(view, min + 1, max)
    }
  }

  lemma RestIs(c: Cursor, view: View)
    requires c.min <= c.max && c.nextItem == 0
    ensures c.Rest(view) == From(view, c.min, c.max)
  {
  }

  class KeyIterator {
    const index: MaxHeap
    var min: Key
    const max: Key
    var nextItem: nat
    var path: seq<nat>
    var current: int
    var start: nat
    var found: nat

    constructor (index: MaxHeap, min: Key, max: Key)
      ensures this.index == index && this.min == min && this.max == max && nextItem == 0
    {
      this.index, this.min, this.max, nextItem := index, min, max, 0;
      path, current, start, found := [], -1, 0, 0;
    }

    ghost function State(): Cursor
      reads this
    {
      Cursor(min, max, nextItem, path, current, start, found)
    }

    /** The index is in order, and holds what `view` says. */
    ghost predicate Sees(view: View)
      reads index, index.file
    {
      index.Valid() && index.Contents() == view
    }

    /** A value that was inserted under the current key, or zero under key zero. */
    ghost predicate Genuine(view: View, r: Maybe)
      reads this`min
    {
      r.Found? ==> r.row < 65536 && (Pair(min, r.row) in view.inserted || Pair(min, r.row) == NO_PAIR)
    }

    /** Searches the cached bucket from slot `start` on. */
    method Scan(ghost view: View, b: nat) returns (r: Maybe)
      requires Sees(view) && b < NODE_LIMIT && index.cachedId == b && found <= nextItem
      modifies this`found, this`nextItem, this`start
      ensures Genuine(view, r) && found <= nextItem && (r.Found? ==> found == nextItem > 0)
      ensures index.CacheFresh() && old(found) == old(nextItem) ==>
                var bucket := Kept(view.inserted, view.home, b);
                var i := FirstMatch(bucket, min, old(start));
                if i < |bucket|
                then r == Found(bucket[i].value) && start == i + 1 && found == nextItem == old(nextItem) + 1
                else r == Invalid && start == old(start) && found == nextItem == old(nextItem)
    {
      hide Shape, Grown, OnPaths, Kept, FirstMatch, Filled;
      FilledSizes(index.buckets, index.nextFree, index.inserted, index.home, b);
      BucketSize(index.buckets, index.nextFree, index.inserted, index.home, b);
      ghost var bucket := Kept(index.inserted, index.home, b);
      var i := start;
      while i < index.nextFree[b]
        invariant start == old(start) <= i && nextItem == old(nextItem) && found <= nextItem
        invariant index.CacheFresh() && old(found) == nextItem ==>
                    found == nextItem && forall j: nat | start <= j < i :: !Match(bucket, min, j)
        decreases index.nextFree[b] - i
      {
        if index.cached[i].key == min {
          found := found + 1;
          if found - 1 == nextItem {
            if index.CacheFresh() && old(found) == old(nextItem) {
              FirstMatchIs(bucket, min, start, i);
            }
            nextItem := nextItem + 1;
            start := i + 1;
            return Found(index.cached[i].value);
          }
        }
        i := i + 1;
      }
      if index.CacheFresh() && old(found) == nextItem {
        FirstMatchIs(bucket, min, start, i);
      }
      r := Invalid;
    }

    /** Loads a bucket and searches it. */
    method ScanBucket(ghost view: View, b: nat) returns (r: Maybe)
      requires Sees(view) && b < NODE_LIMIT && found <= nextItem
      modifies this`start, this`found, this`nextItem, index`cachedId, index`cached, index`nextFree
      ensures Sees(view) && Genuine(view, r) && found <= nextItem && (r.Found? ==> found == nextItem > 0)
      ensures old(index.CacheFresh()) ==> index.CacheFresh()
      ensures old(index.CacheFresh()) && old(found) == old(nextItem) ==>
                var bucket := Kept(view.inserted, view.home, b);
                var i := FirstMatch(bucket, min, old(start));
                if i < |bucket|
                then r == Found(bucket[i].value) && start == i + 1 && found == nextItem == old(nextItem) + 1
                else r == Invalid && start == old(start) && found == nextItem == old(nextItem)
    {
      hide Shape, Grown, OnPaths, Filled, Kept, FirstMatch, MaxHeap.CacheFresh;
      index.Load(b);
      r := Scan(view, b);
    }

    /** Searches the buckets of the path from the current one up. */
    method Sweep(ghost view: View, ghost buckets: seq<seq<Pair>>) returns (r: Maybe)
      requires Sees(view) && State().Holds(view, buckets) && found <= nextItem
      modifies this`current, this`start, this`found, this`nextItem, index`cachedId, index`cached, index`nextFree
      ensures Sees(view) && State().Holds(view, buckets) && found <= nextItem && Genuine(view, r) && (if r.Invalid? then current == -1 else found == nextItem > 0)
      ensures old(index.CacheFresh()) ==> index.CacheFresh()
      ensures old(index.CacheFresh()) && (old(found) == old(nextItem) || old(current) == -1) ==>
                && (old(found) == old(nextItem) ==> found == nextItem)
                && nextItem == old(nextItem) + (if r.Found? then 1 else 0)
                && Yields(old(State().Left(buckets)), r, State().Left(buckets))
    {
      hide Kept, FirstMatch, Chain, KeyIterator.Sees, MaxHeap.CacheFresh;
      ghost var exact := index.CacheFresh() && (found == nextItem || current == -1);
      ChainUnfold(buckets, min, 0, start);
      while current >= 0
        invariant Sees(view) && State().Holds(view, buckets) && found <= nextItem
        invariant exact ==> index.CacheFresh()
        invariant old(index.CacheFresh()) ==> index.CacheFresh()
        invariant exact ==>
                    && nextItem == old(nextItem) && (old(found) == old(nextItem) || current >= 0 ==> found == nextItem)
                    && State().Left(buckets) == old(State().Left(buckets))
        decreases current
      {
        ChainUnfold(buckets, min, current + 1, start);
        r := ScanBucket(view, path[current]);
        if r.Found? {
          return;
        }
        current := current - 1;
      }
      ChainUnfold(buckets, min, 0, start);
      r := Invalid;
    }

    /** The downward path of the current key, and a new search from its lowest bucket. */
    method FindPath(ghost view: View)
      requires Sees(view)
      modifies this`path, this`current, this`start, this`found
      ensures State().Holds(view, Path(view, min)) && path != [] && current == |path| - 1 && start == found == 0
    {
      hide Shape, Place, Start, Kept, Grown, Filled, OnPaths, Depth;
      ghost var nodes := index.file.nodes;
      ghost var x: nat := index.file.hash(min);
      RootStart(x);
      path := [];
      var it := 0;
      while |path| < NODE_DEPTH
        invariant |path| <= 8 && it == Start(x, |path|)
        invariant forall l | 0 <= l < |path| :: path[l] == Place(x, l)
        invariant path != [] ==> Usable(nodes, x, |path| - 1)
        decreases NODE_DEPTH - |path|
      {
        var bucket;
        bucket, it := index.file.HeapFind(min, it, |path|);
        if bucket < 0 {
          break;
        }
        path := path + [bucket];
      }
      current, start, found := |path| - 1, 0, 0;
      DepthIs(nodes, x, |path|);
      OnPlaces(x, path);
    }

    /** Begins a new search for the current key, unless the last one goes on. */
    method Prepare(again: bool, ghost view: View)
      requires Sees(view) && State().Ready(view)
      modifies this`path, this`current, this`start, this`found
      ensures State().Holds(view, Path(view, min)) && found <= nextItem
      ensures !again || nextItem == 0 ==>
                State().Left(Path(view, min)) == old(State().KeyRest(view)) && (found == nextItem || current == -1)
    {
      hide Chain, KeyIterator.Sees, Path;
      if again || nextItem == 0 {
        FindPath(view);
      }
    }

    /** Searches for the current key. */
    method SearchKey(again: bool, ghost view: View) returns (r: Maybe)
      requires Sees(view) && State().Ready(view)
      modifies this`path, this`current, this`start, this`found, this`nextItem
      modifies index`cachedId, index`cached, index`nextFree
      ensures Sees(view) && State().Ready(view) && Genuine(view, r)
      ensures old(index.CacheFresh()) ==> index.CacheFresh()
      ensures old(index.CacheFresh()) && (!again || old(nextItem) == 0) ==>
                Yields(old(State().KeyRest(view)), r, State().KeyRest(view))
    {
      hide Chain, KeyIterator.Sees, KeyIterator.Genuine, MaxHeap.CacheFresh, Path, Cursor.Holds, Yields;
      Prepare(again, view);
      ghost var exact, before := index.CacheFresh() && (!again || nextItem == 0), State().Left(Path(view, min));
      r := Sweep(view, Path(view, min));
      if exact && r.Invalid? {
        YieldsNone(before, State().Left(Path(view, min)));
      }
    }

    /** get_next.  `taken` says that another iterator has been used since the last call, so that the
      * search starts anew and skips what has been found before. */
    method GetNext(taken: bool, ghost view: View) returns (r: Maybe)
      requires Sees(view) && State().Ready(view)
      modifies this`min, this`path, this`current, this`start, this`found, this`nextItem
      modifies index`cachedId, index`cached, index`nextFree
      ensures Sees(view) && State().Ready(view) && Genuine(view, r) && old(min) <= min
      ensures old(index.CacheFresh()) ==> index.CacheFresh()
      ensures old(index.CacheFresh()) && (!taken || old(nextItem) == 0) ==>
                Yields(old(State().Rest(view)), r, State().Rest(view))
    {
      hide Chain, Yields, KeyIterator.Sees, KeyIterator.Genuine, MaxHeap.CacheFresh, Cursor.KeyRest, Path, From, Cursor.Holds;
      ghost var exact := index.CacheFresh() && (!taken || nextItem == 0);
      ghost var all := State().Rest(view);
      var again := taken;
      while true
        invariant Sees(view) && State().Ready(view) && old(min) <= min
        invariant old(index.CacheFresh()) ==> index.CacheFresh()
        invariant exact ==> State().Rest(view) == all && (!again || nextItem == 0)
        decreases max - min
      {
        ghost var before := State().KeyRest(view);
        r := SearchKey(again, view);
        if exact {
          YieldsInFront(before, r, State().KeyRest(view), From(view, min + 1, max));
        }
        if r.Found? || min == max {
          Beyond(view, max);
          return;
        }
        again, nextItem, min := false, 0, min + 1;
        RestIs(State(), view);
      }
    }

    /** Calls get_next until it yields nothing. */
    method FetchAll(ghost view: View) returns (values: seq<Key>)
      requires Sees(view) && min <= max && nextItem == 0 && index.CacheFresh()
      modifies this`min, this`path, this`current, this`start, this`found, this`nextItem
      modifies index`cachedId, index`cached, index`nextFree
      ensures Sees(view) && index.CacheFresh() && values == From(view, old(min), max)
    {
      hide KeyIterator.Sees, MaxHeap.CacheFresh, Cursor.Rest, From, Cursor.Holds, Path;
      RestIs(State(), view);
      values := [];
      while true
        invariant Sees(view) && State().Ready(view) && index.CacheFresh()
        invariant values + State().Rest(view) == From(view, old(min), max)
        decreases |State().Rest(view)|
      {
        var r := GetNext(false, view);
        if r == Invalid {
          return;
        }
        values := values + [r.row];
      }
    }
  }

  lemma Beyond(view: View, max: Key)
    ensures From(view, max + 1, max) == []
  {
  }

  lemma YieldsNone(all: seq<Key>, rest: seq<Key>)
    requires Yields(all, Invalid, rest)
    ensures all == rest == []
  {
  }

  lemma OnPlaces(x: nat, path: seq<nat>)
    requires x < 65536 && |path| <= 8 && forall l | 0 <= l < |path| :: path[l] == Place(x, l)
    ensures forall l | 0 <= l < |path| :: path[l] < NODE_LIMIT
  {
    forall l | 0 <= l < |path|
      ensures path[l] < NODE_LIMIT
    {
      PlaceHolds(x, l);
    }
  }

  lemma BucketSize(buckets: seq<seq<Pair>>, nextFree: seq<nat>, inserted: seq<Pair>, home: seq<nat>, b: nat)
    requires Filled(buckets, nextFree, inserted, home) && b < NODE_LIMIT
    ensures |nextFree| == NODE_LIMIT && nextFree[b] == |Kept(inserted, home, b)| <= BUCKET_SIZE
  {
  }

  // ---------------------------------------------------------------- agreement with the list of insertions

  /** The index was built by insertions. */
  predicate Built(view: View, buckets: seq<seq<Pair>>, nextFree: seq<nat>) {
    && Shape(view.nodes) && Grown(view.nodes, nextFree) && Filled(buckets, nextFree, view.inserted, view.home)
    && OnPaths(view.inserted, view.home, view.hash)
  }

  lemma {:induction false} KeptHas(inserted: seq<Pair>, home: seq<nat>, m: nat)
    requires |home| == |inserted| && m < |inserted|
    ensures inserted[m] in Kept(inserted, home, home[m])
    decreases |inserted|
  {
    var n := |inserted| - 1;
    if m < n {
      KeptHas(inserted[..n], home[..n], m);
    }
  }

  /** Every pair is in a bucket that a search for its key visits. */
  lemma SearchVisits(view: View, buckets: seq<seq<Pair>>, nextFree: seq<nat>, m: nat)
    requires Built(view, buckets, nextFree) && m < |view.inserted|
    ensures var x := view.hash(view.inserted[m].key); Among(x, Depth(view.nodes, x), view.home[m])
  {
    var x := view.hash(view.inserted[m].key);
    var b := view.home[m];
    OnPath(x, b);
    KeptHas(view.inserted, view.home, m);
    BucketSize(buckets, nextFree, view.inserted, view.home, b);
    hide Shape, Filled, Kept, Span, Place;
    assert nextFree[b] > 0;
    assert Usable(view.nodes, x, Level(b));
    var d := Depth(view.nodes, x);
    if d <= Level(b) {
      UsableAbove(view.nodes, x, d, Level(b));
    }
  }

  /** A lookup yields only values inserted under the key, and all of them if and only if the slots of the
    * key descend along its path. */
  lemma LookupComplete(view: View, buckets: seq<seq<Pair>>, nextFree: seq<nat>, key: Key)
    requires Built(view, buckets, nextFree)
    ensures var path := Path(view, key); var found := multiset(Chain(path, key, |path|, 0));
            && found <= multiset(Values(view.inserted, key))
            && (found == multiset(Values(view.inserted, key)) <==> Descending(path, key, |path|))
  {
    hide Built, Chain, Descending, Values;
    var x := view.hash(key);
    var n := Depth(view.nodes, x);
    forall m: nat | m < |view.inserted| && view.inserted[m].key == key
      ensures Among(x, n, view.home[m])
    {
      SearchVisits(view, buckets, nextFree, m);
    }
    hide Depth, Among;
    BagIsValues(view.inserted, view.home, x, key, n);
    ChainComplete(Path(view, key), key);
  }

  /** A key inserted at most once is found exactly as often as it was inserted. */
  lemma LookupOnce(view: View, buckets: seq<seq<Pair>>, nextFree: seq<nat>, key: Key)
    requires Built(view, buckets, nextFree) && |Values(view.inserted, key)| <= 1
    ensures var path := Path(view, key); Chain(path, key, |path|, 0) == Values(view.inserted, key)
  {
    hide Built, Chain, Descending, Values;
    var path := Path(view, key);
    var x := view.hash(key);
    forall m: nat | m < |view.inserted| && view.inserted[m].key == key
      ensures Among(x, |path|, view.home[m])
    {
      SearchVisits(view, buckets, nextFree, m);
    }
    BagIsValues(view.inserted, view.home, x, key, |path|);
    assert |Bag(path, key, |path|)| == |Values(view.inserted, key)|;
    OnceDescends(path, key, |path|);
    LookupComplete(view, buckets, nextFree, key);
    SameSingle(Chain(path, key, |path|, 0), Values(view.inserted, key));
  }

  lemma SameSingle(a: seq<Key>, b: seq<Key>)
    requires multiset(a) == multiset(b) && |b| <= 1
    ensures a == b
  {
    assert |a| == |multiset(a)| == |b|;
    if |a| == 1 {
      assert a[0] in multiset(b);
    }
  }

  /** The values inserted under the keys of a range, in the order of the keys. */
  function RangeValues(inserted: seq<Pair>, low: nat, high: Key): seq<Key>
    decreases high - low
  {
    if low > high then [] else Values(inserted, low) + RangeValues(inserted, low + 1, high)
  }

  /** Ranges are emulated key by key: with keys inserted at most once, an iterator over a range yields the
    * values inserted under its keys, each once. */
  lemma {:induction false} RangeOnce(view: View, buckets: seq<seq<Pair>>, nextFree: seq<nat>, low: nat, high: Key)
    requires Built(view, buckets, nextFree)
    requires forall key: Key | low <= key <= high :: |Values(view.inserted, key)| <= 1
    ensures From(view, low, high) == RangeValues(view.inserted, low, high)
    decreases high - low
  {
    if low <= high {
      RangeOnce(view, buckets, nextFree, low + 1, high);
      hide Built, Chain, Values;
      LookupOnce(view, buckets, nextFree, low);
    }
  }
}
