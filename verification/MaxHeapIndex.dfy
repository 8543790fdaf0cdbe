/** The MaxHeap index (apps/antelope/index-maxheap.c): insertion, the one-entry bucket cache, and the
  * iterator. */
module MaxHeapIndex {
  import opened MaxHeapTree
  import opened MaxHeapNodes
  import opened MaxHeapLayout
  import opened MaxHeapSearch
  import opened InlineIndex

  // ---------------------------------------------------------------- what an index yields

  /** The nodes of an index, the pairs inserted so far, and the bucket that each went to. */
  datatype Index = Index(nodes: seq<Node>, inserted: seq<Pair>, home: seq<nat>, hash: Key -> Key) {
    predicate Valid() { |home| == |inserted| && Real(nodes, 0) }
  }

  type View = v: Index | v.Valid() witness Index([Node(0, 65535)], [], [], k => k)

  /** The buckets searched for a key. */
  function Path(v: View, key: Key): (path: seq<seq<Pair>>)
    ensures path != []
  {
    PathOf(v.inserted, v.home, v.hash(key), Depth(v.nodes, v.hash(key)))
  }

  /** What an iterator over the keys from `key` to `max` yields. */
  function From(v: View, key: nat, max: Key): seq<Key>
    decreases max - key
  {
    if key > max then [] else Chain(Path(v, key), key, |Path(v, key)|, 0) + From(v, key + 1, max)
  }

  /** How many usable nodes are on the path of x. */
  function Depth(nodes: seq<Node>, x: nat): (n: nat)
    requires Real(nodes, 0)
    ensures 1 <= n <= 8 && Usable(nodes, x, n - 1) && !Usable(nodes, x, n)
  {
    Deepest(nodes, x, 0) + 1
  }

  lemma UsableAbove(nodes: seq<Node>, x: nat, upper: nat, lower: nat)
    requires Shape(nodes) && x < 65536 && upper <= lower && Usable(nodes, x, lower)
    ensures Usable(nodes, x, upper)
  {
    hide Shape, Place;
    AboveReal(nodes, x, upper, lower);
  }

  lemma DepthIs(nodes: seq<Node>, x: nat, n: nat)
    requires Shape(nodes) && x < 65536 && !Usable(nodes, x, n) && (n == 0 || Usable(nodes, x, n - 1))
    ensures n == Depth(nodes, x)
  {
    var d := Depth(nodes, x);
    hide Shape, Usable, Depth;
    if n < d {
      UsableAbove(nodes, x, n, d - 1);
    } else if d < n {
      UsableAbove(nodes, x, d, n - 1);
    }
  }

  // ---------------------------------------------------------------- the index

  class MaxHeap {
    const file: NodeFile
    var buckets: seq<seq<Pair>>
    var nextFree: seq<nat>
    var cachedId: int
    var cached: seq<Pair>
    ghost var inserted: seq<Pair>
    ghost var home: seq<nat>

    /** The node tree has its shape, the buckets hold the inserted pairs, each on the path of its key,
      * and the cached bucket holds nothing that was never inserted. */
    ghost predicate Valid()
      reads this, file
    {
      && Shape(file.nodes) && Grown(file.nodes, nextFree) && Filled(buckets, nextFree, inserted, home)
      && OnPaths(inserted, home, file.hash) && CacheSound()
    }

    ghost predicate CacheSound()
      reads this
    {
      && |cached| == BUCKET_SIZE && -1 <= cachedId < NODE_LIMIT
      && forall i | 0 <= i < BUCKET_SIZE :: cached[i] == NO_PAIR || cached[i] in inserted
    }

    /** No pair has been appended to the cached bucket since it was read. */
    ghost predicate CacheFresh()
      reads this
    {
      0 <= cachedId < |nextFree| ==>
        |home| == |inserted| && nextFree[cachedId] <= |cached| && cached[..nextFree[cachedId]] == Kept(inserted, home, cachedId)
    }

    ghost function Contents(): Index
      reads this, file
    {
      Index(file.nodes, inserted, home, file.hash)
    }

    constructor (hash: Key -> Key)
      ensures Valid() && CacheFresh() && inserted == [] && file.hash == hash && fresh(file)
    {
      hide Grown, Filled, Shape, Real;
      file := new NodeFile(hash);
      buckets := seq(NODE_LIMIT, _ => seq(BUCKET_SIZE, _ => NO_PAIR));
      nextFree := seq(NODE_LIMIT, _ => 0);
      cachedId, cached := -1, seq(BUCKET_SIZE, _ => NO_PAIR);
      inserted, home := [], [];
      new;
      EmptyIndex(file.nodes, buckets, nextFree);
    }

    /** The lowest usable node on the path of a key, and where the search below it would go on. */
    method FindLowest(key: Key) returns (bucket: int, it: nat, ghost level: nat)
      requires Shape(file.nodes)
      ensures level <= 7 && bucket == Place(file.hash(key), level) && it == Start(file.hash(key), level + 1)
      ensures Usable(file.nodes, file.hash(key), level) && !Usable(file.nodes, file.hash(key), level + 1)
    {
      hide Shape, Place, Start;
      ghost var x := file.hash(key);
      RootStart(x);
      RootUsable(file.nodes, x);
      bucket, it := -1, 0;
      ghost var n := 0;
      while true
        invariant n <= 8 && it == Start(x, n)
        invariant n > 0 ==> bucket == Place(x, n - 1) && Usable(file.nodes, x, n - 1)
        decreases 8 - n
      {
        var found;
        found, it := file.HeapFind(key, it, n);
        if found < 0 {
          level := n - 1;
          return;
        }
        bucket, n := found, n + 1;
      }
    }

    /** Writes a pair into the next free slot of a bucket, unless the bucket is full. */
    method BucketAppend(b: nat, p: Pair) returns (ok: bool)
      requires Filled(buckets, nextFree, inserted, home) && Grown(file.nodes, nextFree)
      requires b < NODE_LIMIT && Real(file.nodes, b) && Level(b) < NODE_DEPTH - 1
      modifies this`buckets, this`nextFree, this`inserted, this`home
      ensures Filled(buckets, nextFree, inserted, home) && Grown(file.nodes, nextFree)
      ensures ok == (old(nextFree)[b] < BUCKET_SIZE)
      ensures inserted == old(inserted) + if ok then [p] else []
      ensures home == old(home) + if ok then [b] else []
      ensures |nextFree| == |old(nextFree)| == NODE_LIMIT
      ensures forall c: nat | c < NODE_LIMIT && c != b ::
                nextFree[c] == old(nextFree)[c] && Kept(inserted, home, c) == old(Kept(inserted, home, c))
    {
      hide Filled, Grown, Real, Level, Kept;
      FilledSizes(buckets, nextFree, inserted, home, b);
      ok := nextFree[b] < BUCKET_SIZE;
      if ok {
        OthersKeep(inserted, home, p, b);
        AppendFills(buckets, nextFree, inserted, home, p, b);
        AppendGrows(file.nodes, nextFree, b);
        buckets := buckets[b := buckets[b][nextFree[b] := p]];
        nextFree := nextFree[b := nextFree[b] + 1];
        inserted, home := inserted + [p], home + [b];
      }
    }

    /** The bucket for a new pair: the lowest on the path, or, if that is full, one of its two new
      * children. */
    method FindRoom(key: Key) returns (bucket: int)
      requires Shape(file.nodes) && Grown(file.nodes, nextFree)
      modifies file
      ensures Shape(file.nodes) && Grown(file.nodes, nextFree)
      ensures bucket < 0 <==> PathFull(old(file.nodes), nextFree, file.hash(key))
      ensures bucket >= 0 ==>
                && bucket < NODE_LIMIT && Real(file.nodes, bucket) && Level(bucket) < NODE_DEPTH - 1
                && nextFree[bucket] < BUCKET_SIZE && Span(bucket).Contains(file.hash(key))
    {
      hide Shape, Grown, Place, Span, Level, PathFull;
      ghost var x: nat := file.hash(key);
      var it;
      ghost var level;
      bucket, it, level := FindLowest(key);
      FullWhen(file.nodes, nextFree, x, level);
      PlaceHolds(x, level);
      AtMostFull(file.nodes, nextFree, bucket);
      if nextFree[bucket] == BUCKET_SIZE {
        SplitGrows(file.nodes, nextFree, bucket);
        SplitReaches(file.nodes, nextFree, x, level);
        var split := file.BucketSplit(bucket, x, level);
        if !split {
          return -1;
        }
        bucket, it := file.HeapFind(key, it, level + 1);
        PlaceHolds(x, level + 1);
      }
    }

    /** Inserts a pair.  It fails exactly when all usable buckets on the path of the key are full. */
    method InsertItem(key: Key, value: Key) returns (ok: bool)
      requires Valid()
      modifies this`buckets, this`nextFree, this`inserted, this`home, file
      ensures Valid()
      ensures ok == !PathFull(old(file.nodes), old(nextFree), file.hash(key))
      ensures inserted == old(inserted) + if ok then [Pair(key, value)] else []
      ensures home == old(home) || home == old(home) + [home[|home| - 1]]
      ensures old(CacheFresh()) && (ok ==> home[|home| - 1] != cachedId) ==> CacheFresh()
    {
      hide Shape, Grown, PathFull, Filled;
      var bucket := FindRoom(key);
      if bucket < 0 {
        return false;
      }
      ok := BucketAppend(bucket, Pair(key, value));
    }

    /** The number of pairs before the first empty one in the cache. */
    method FirstEmpty() returns (i: nat)
      requires |cached| == BUCKET_SIZE
      ensures i <= BUCKET_SIZE && (i < BUCKET_SIZE ==> cached[i] == NO_PAIR)
      ensures forall j | 0 <= j < i :: cached[j] != NO_PAIR
    {
      i := 0;
      while i < BUCKET_SIZE && cached[i] != NO_PAIR
        invariant i <= BUCKET_SIZE && forall j | 0 <= j < i :: cached[j] != NO_PAIR
      {
        i := i + 1;
      }
    }

    /** Reads a bucket into the cache, if it is not there. */
    method Load(b: nat)
      requires Valid() && b < NODE_LIMIT
      modifies this`cachedId, this`cached, this`nextFree
      ensures Valid() && cachedId == b && nextFree == old(nextFree)
      ensures old(CacheFresh()) ==> CacheFresh()
    {
      hide Shape, Grown, OnPaths, Filled, Kept;
      FilledSizes(buckets, nextFree, inserted, home, b);
      if cachedId == b {
        return;
      }
      AfterRead(buckets, nextFree, inserted, home, b, cached);
      var size := if nextFree[b] == 0 then BUCKET_SIZE else nextFree[b];
      cached := buckets[b][..size] + cached[size..];
      cachedId := b;
      if nextFree[b] == 0 {
        var i := FirstEmpty();
        assert nextFree[b := i] == nextFree;
        nextFree := nextFree[b := i];
      }
    }
  }

  lemma {:induction false} KeptInserted(inserted: seq<Pair>, home: seq<nat>, b: nat)
    requires |home| == |inserted|
    ensures forall p | p in Kept(inserted, home, b) :: p in inserted
    decreases |inserted|
  {
    if inserted != [] {
      KeptInserted(inserted[..|inserted| - 1], home[..|home| - 1], b);
    }
  }

  /** What the cache holds after a bucket has been read: what the bucket holds, and whatever was in the
    * rest of the cache before. */
  lemma AfterRead(buckets: seq<seq<Pair>>, nextFree: seq<nat>, inserted: seq<Pair>, home: seq<nat>, b: nat, cached: seq<Pair>)
    requires Filled(buckets, nextFree, inserted, home) && b < NODE_LIMIT && |cached| == BUCKET_SIZE
    requires forall i | 0 <= i < BUCKET_SIZE :: cached[i] == NO_PAIR || cached[i] in inserted
    ensures |buckets[b]| == BUCKET_SIZE && nextFree[b] <= BUCKET_SIZE
    ensures var size := if nextFree[b] == 0 then BUCKET_SIZE else nextFree[b];
            var after := buckets[b][..size] + cached[size..];
            && |after| == BUCKET_SIZE && after[..nextFree[b]] == Kept(inserted, home, b)
            && (forall i | 0 <= i < BUCKET_SIZE :: after[i] == NO_PAIR || after[i] in inserted)
            && (nextFree[b] == 0 ==> after[0] == NO_PAIR)
  {
    hide Kept;
    KeptInserted(inserted, home, b);
    forall i | 0 <= i < nextFree[b]
      ensures buckets[b][i] in inserted
    {
      assert buckets[b][..nextFree[b]][i] in Kept(inserted, home, b);
    }
  }

  lemma FilledSizes(buckets: seq<seq<Pair>>, nextFree: seq<nat>, inserted: seq<Pair>, home: seq<nat>, b: nat)
    requires Filled(buckets, nextFree, inserted, home) && b < NODE_LIMIT
    ensures |buckets| == |nextFree| == NODE_LIMIT && |home| == |inserted|
    ensures |buckets[b]| == BUCKET_SIZE && nextFree[b] <= BUCKET_SIZE
  {
  }

  lemma OthersKeep(inserted: seq<Pair>, home: seq<nat>, p: Pair, b: nat)
    requires |home| == |inserted|
    ensures forall c: nat | c != b :: Kept(inserted + [p], home + [b], c) == Kept(inserted, home, c)
  {
    forall c: nat | c != b
      ensures Kept(inserted + [p], home + [b], c) == Kept(inserted, home, c)
    {
      KeptMore(inserted, home, p, b, c);
    }
  }

  lemma EmptyIndex(nodes: seq<Node>, buckets: seq<seq<Pair>>, nextFree: seq<nat>)
    requires |nodes| == |nextFree| == |buckets| == NODE_LIMIT && forall i: nat :: Real(nodes, i) <==> i == 0
    requires forall b | 0 <= b < NODE_LIMIT :: nextFree[b] == 0 && buckets[b] == seq(BUCKET_SIZE, _ => NO_PAIR)
    ensures Grown(nodes, nextFree) && Filled(buckets, nextFree, [], [])
  {
    hide Real, Level;
  }

  lemma RootStart(x: nat)
    ensures Place(x, 0) == 0 == Start(x, 0)
  {
  }

  lemma RootUsable(nodes: seq<Node>, x: nat)
    requires Shape(nodes)
    ensures Usable(nodes, x, 0)
  {
  }

  lemma AtMostFull(nodes: seq<Node>, nextFree: seq<nat>, b: nat)
    requires Grown(nodes, nextFree) && b < NODE_LIMIT
    ensures |nextFree| == NODE_LIMIT && nextFree[b] <= BUCKET_SIZE
  {
  }

  /** After a split, the search finds one of the new nodes, unless they are on the last level. */
  lemma SplitReaches(nodes: seq<Node>, nextFree: seq<nat>, x: nat, level: nat)
    requires Shape(nodes) && Grown(nodes, nextFree) && x < 65536 && Usable(nodes, x, level) && !Usable(nodes, x, level + 1)
    ensures var b := Place(x, level); var c := Place(x, level + 1);
            && 2 * b + 2 < NODE_LIMIT && c < NODE_LIMIT && (Real(nodes, 2 * b + 1) ==> level == 7)
            && (level < 7 ==> Usable(Split(nodes, b), x, level + 1) && nextFree[c] == 0)
  {
    hide Span, Level;
    var b := Place(x, level);
    PlaceHolds(x, level);
    PlaceHolds(x, level + 1);
    ParentReal(nodes, x, level + 1);
    SplitNodes(nodes, b, Place(x, level + 1));
  }
}
