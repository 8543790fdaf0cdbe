/** What a MaxHeap index stores (apps/antelope). */
module MaxHeapLayout {
  // Every inserted pair lies in a bucket on the path of its key's hash value.

  import opened MaxHeapTree

  datatype Pair = Pair(key: Key, value: Key)

  const NO_PAIR := Pair(0, 0)

  /** The pairs that went into bucket b, in the order of their insertion. */
  function Kept(inserted: seq<Pair>, home: seq<nat>, b: nat): (r: seq<Pair>)
    requires |home| == |inserted|
  {
    if inserted == [] then []
    else
      var n := |inserted| - 1;
      Kept(inserted[..n], home[..n], b) + if home[n] == b then [inserted[n]] else []
  }

  /** The values inserted under a key, in order. */
  function Values(pairs: seq<Pair>, key: Key): seq<Key> {
    if pairs == [] then []
    else
      var n := |pairs| - 1;
      Values(pairs[..n], key) + if pairs[n].key == key then [pairs[n].value] else []
  }

  predicate Bucket(content: seq<Pair>, free: nat, kept: seq<Pair>) {
    && |content| == BUCKET_SIZE && free == |kept| <= BUCKET_SIZE && content[..free] == kept
    && forall s | free <= s < BUCKET_SIZE :: content[s] == NO_PAIR
  }

  /** The buckets hold the inserted pairs, and nothing else. */
  predicate Filled(buckets: seq<seq<Pair>>, nextFree: seq<nat>, inserted: seq<Pair>, home: seq<nat>) {
    && |buckets| == |nextFree| == NODE_LIMIT && |home| == |inserted|
    && forall b: nat | b < NODE_LIMIT :: Bucket(buckets[b], nextFree[b], Kept(inserted, home, b))
  }

  /** Only usable nodes have pairs, and only full buckets have children. */
  predicate Grown(nodes: seq<Node>, nextFree: seq<nat>) {
    && |nodes| == |nextFree| == NODE_LIMIT
    && (forall b: nat | b < NODE_LIMIT :: nextFree[b] <= BUCKET_SIZE)
    && (forall b: nat | b < NODE_LIMIT && nextFree[b] > 0 :: Real(nodes, b) && Level(b) < NODE_DEPTH - 1)
    && (forall b: nat | b < NODE_LIMIT && Real(nodes, 2 * b + 1) :: nextFree[b] == BUCKET_SIZE)
  }

  /** Every pair is on the path of its key. */
  predicate OnPaths(inserted: seq<Pair>, home: seq<nat>, hash: Key -> Key) {
    && |home| == |inserted|
    && forall n: nat | n < |home| :: home[n] < NODE_LIMIT && Span(home[n]).Contains(hash(inserted[n].key))
  }

  /** All eight usable buckets on a path are full. */
  predicate PathFull(nodes: seq<Node>, nextFree: seq<nat>, x: nat)
    requires |nodes| == |nextFree| == NODE_LIMIT
  {
    forall level: nat | level < NODE_DEPTH - 1 :: Usable(nodes, x, level) && nextFree[Place(x, level)] == BUCKET_SIZE
  }

  // ---------------------------------------------------------------- steps

  lemma KeptMore(inserted: seq<Pair>, home: seq<nat>, p: Pair, b: nat, c: nat)
    requires |home| == |inserted|
    ensures Kept(inserted + [p], home + [b], c) == Kept(inserted, home, c) + if b == c then [p] else []
  {
    assert (inserted + [p])[..|inserted|] == inserted && (home + [b])[..|home|] == home;
  }

  /** Appending a pair to a bucket with a free slot. */
  lemma AppendFills(buckets: seq<seq<Pair>>, nextFree: seq<nat>, inserted: seq<Pair>, home: seq<nat>, p: Pair, b: nat)
    requires Filled(buckets, nextFree, inserted, home) && b < NODE_LIMIT && nextFree[b] < BUCKET_SIZE
    ensures |buckets[b]| == BUCKET_SIZE
    ensures Filled(buckets[b := buckets[b][nextFree[b] := p]], nextFree[b := nextFree[b] + 1], inserted + [p], home + [b])
  {
    hide Kept;
    var content := buckets[b][nextFree[b] := p];
    forall c: nat | c < NODE_LIMIT
      ensures Bucket(buckets[b := content][c], nextFree[b := nextFree[b] + 1][c], Kept(inserted + [p], home + [b], c))
    {
      KeptMore(inserted, home, p, b, c);
      if c == b {
        assert content[..nextFree[b] + 1] == content[..nextFree[b]] + [p];
      }
    }
  }

  lemma AppendGrows(nodes: seq<Node>, nextFree: seq<nat>, b: nat)
    requires Grown(nodes, nextFree) && b < NODE_LIMIT && Real(nodes, b) && Level(b) < NODE_DEPTH - 1
    requires nextFree[b] < BUCKET_SIZE
    ensures Grown(nodes, nextFree[b := nextFree[b] + 1])
  {
    hide Real, Level;
  }

  lemma SplitGrows(nodes: seq<Node>, nextFree: seq<nat>, b: nat)
    requires Grown(nodes, nextFree) && 2 * b + 2 < NODE_LIMIT && nextFree[b] == BUCKET_SIZE
    ensures Grown(Split(nodes, b), nextFree)
  {
    hide Real, Level, Split;
    forall c: nat | c < NODE_LIMIT && Real(Split(nodes, b), 2 * c + 1)
      ensures nextFree[c] == BUCKET_SIZE
    {
      SplitNodes(nodes, b, 2 * c + 1);
    }
    forall c: nat | c < NODE_LIMIT && nextFree[c] > 0
      ensures Real(Split(nodes, b), c)
    {
      SplitNodes(nodes, b, c);
    }
  }

  /** Every bucket above a usable node is full. */
  lemma AboveFull(nodes: seq<Node>, nextFree: seq<nat>, x: nat, level: nat, lower: nat)
    requires Shape(nodes) && Grown(nodes, nextFree) && x < 65536 && level < lower <= 8 && Real(nodes, Place(x, lower))
    ensures Place(x, level) < NODE_LIMIT && Real(nodes, Place(x, level)) && nextFree[Place(x, level)] == BUCKET_SIZE
  {
    hide Shape, Span, Place, Level, Real;
    var b := Place(x, level);
    AboveReal(nodes, x, level + 1, lower);
    ParentReal(nodes, x, level + 1);
    PlaceHolds(x, level);
    assert Real(nodes, 2 * b + 1);
  }

  /** A path is full when its lowest usable node is on the last usable level and full. */
  lemma FullWhen(nodes: seq<Node>, nextFree: seq<nat>, x: nat, d: nat)
    requires Shape(nodes) && Grown(nodes, nextFree) && x < 65536 && Usable(nodes, x, d) && !Usable(nodes, x, d + 1)
    ensures Place(x, d) < NODE_LIMIT
    ensures PathFull(nodes, nextFree, x) <==> d == 7 && nextFree[Place(x, d)] == BUCKET_SIZE
  {
    hide Shape, Span, Place, Level;
    PlaceHolds(x, d);
    if d == 7 && nextFree[Place(x, d)] == BUCKET_SIZE {
      forall level: nat | level < NODE_DEPTH - 1
        ensures Usable(nodes, x, level) && nextFree[Place(x, level)] == BUCKET_SIZE
      {
        PlaceHolds(x, level);
        if level < d {
          AboveFull(nodes, nextFree, x, level, d);
        }
      }
    }
  }
}
