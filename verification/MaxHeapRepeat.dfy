/** A value that a MaxHeap lookup misses (apps/antelope). */
module MaxHeapRepeat {
  // A key that was inserted first, and again when the root bucket was full.

  import opened MaxHeapTree
  import opened MaxHeapLayout
  import opened MaxHeapSearch
  import opened MaxHeapIndex
  import opened MaxHeapLookup

  /** The key 7, and as many other keys as fit the root bucket with it. */
  const ROOT_PAIRS: seq<Pair> := [Pair(7, 1)] + seq(BUCKET_SIZE - 1, i requires 0 <= i < BUCKET_SIZE - 1 => Pair(8 + i, 0))
  const NEW_PAIR := Pair(7, 2)
  const EMPTY_NODES: seq<Node> := seq(NODE_LIMIT, _ => Node(0, 0))

  /** The nodes after the first split, and the pairs with their buckets: the new pair is in the left child. */
  const INDEX: Index :=
    Index(Split(EMPTY_NODES[0 := Node(0, 65535)], 0), ROOT_PAIRS + [NEW_PAIR], seq(BUCKET_SIZE, _ => 0) + [1], k => k)

  const NEXT_FREE: seq<nat> := seq(NODE_LIMIT, b => if b == 0 then BUCKET_SIZE else if b == 1 then 1 else 0)

  const BUCKETS: seq<seq<Pair>> :=
    seq(NODE_LIMIT, b => if b == 0 then ROOT_PAIRS else seq(BUCKET_SIZE, i => if b == 1 && i == 0 then NEW_PAIR else NO_PAIR))

  lemma {:induction false} KeptTogether(pairs: seq<Pair>, home: seq<nat>, b: nat, c: nat)
    requires |home| == |pairs| && forall i | 0 <= i < |home| :: home[i] == b
    ensures Kept(pairs, home, c) == if c == b then pairs else []
    decreases |pairs|
  {
    if pairs != [] {
      var n := |pairs| - 1;
      KeptTogether(pairs[..n], home[..n], b, c);
      assert pairs == pairs[..n] + [pairs[n]];
    }
  }

  lemma KeptPairs(c: nat)
    ensures |INDEX.home| == |INDEX.inserted|
    ensures Kept(INDEX.inserted, INDEX.home, c) == if c == 0 then ROOT_PAIRS else if c == 1 then [NEW_PAIR] else []
  {
    hide Kept;
    KeptTogether(ROOT_PAIRS, seq(BUCKET_SIZE, _ => 0), 0, c);
    KeptMore(ROOT_PAIRS, seq(BUCKET_SIZE, _ => 0), NEW_PAIR, 1, c);
  }

  lemma NodesSplit()
    ensures Shape(INDEX.nodes)
    ensures forall b: nat :: Real(INDEX.nodes, b) <==> b <= 2
  {
    var nodes := EMPTY_NODES[0 := Node(0, 65535)];
    assert forall b: nat :: Real(nodes, b) <==> b == 0;
    assert Shape(nodes) by {
      assert Span(0) == Node(0, 65535);
      hide Real, Span;
    }
    hide Shape, Split, Real, Span;
    SplitKeepsShape(nodes, 0);
    forall b: nat
      ensures Real(Split(nodes, 0), b) <==> b <= 2
    {
      SplitNodes(nodes, 0, b);
    }
  }

  lemma PairsFilled()
    ensures Filled(BUCKETS, NEXT_FREE, INDEX.inserted, INDEX.home)
  {
    hide Kept;
    KeptPairs(0);
    forall b: nat | b < NODE_LIMIT
      ensures Bucket(BUCKETS[b], NEXT_FREE[b], Kept(INDEX.inserted, INDEX.home, b))
    {
      KeptPairs(b);
    }
  }

  lemma NodesGrown()
    ensures Grown(INDEX.nodes, NEXT_FREE)
  {
    NodesSplit();
    assert Level(0) == 0 && Level(1) == 1;
    hide Real, Level, Split;
  }

  lemma PairsOnPaths()
    ensures OnPaths(INDEX.inserted, INDEX.home, INDEX.hash)
  {
    assert Span(0) == Node(0, 65535) && Span(1) == Node(0, 32767);
    assert |ROOT_PAIRS| == BUCKET_SIZE;
  }

  lemma {:induction false} ValuesWithoutKey(pairs: seq<Pair>, key: Key, p: Pair)
    requires forall i | 0 <= i < |pairs| :: pairs[i].key != key
    ensures Values([p] + pairs, key) == Values([p], key)
    decreases |pairs|
  {
    if pairs == [] {
      assert [p] + pairs == [p];
    } else {
      var n := |pairs| - 1;
      assert ([p] + pairs)[..n + 1] == [p] + pairs[..n];
      ValuesWithoutKey(pairs[..n], key, p);
    }
  }

  lemma BothInserted()
    ensures Values(INDEX.inserted, 7) == [1, 2]
  {
    assert INDEX.inserted[..BUCKET_SIZE] == ROOT_PAIRS;
    assert ROOT_PAIRS == [Pair(7, 1)] + ROOT_PAIRS[1..];
    ValuesWithoutKey(ROOT_PAIRS[1..], 7, Pair(7, 1));
    assert Values([Pair(7, 1)], 7) == [1] by {
      assert [Pair(7, 1)][..0] == [];
    }
  }

  lemma SearchedBuckets()
    ensures INDEX.Valid() && Path(INDEX, 7) == [ROOT_PAIRS, [NEW_PAIR]]
  {
    KeptPairs(0);
    KeptPairs(1);
    NodesSplit();
    assert Span(1) == Node(0, 32767) && Span(3) == Node(0, 16383);
    assert Place(7, 0) == 0 && Place(7, 1) == 1 && Place(7, 2) == 3;
    hide Kept, Shape, Real, Span, Place, Split, Deepest;
    DepthIs(INDEX.nodes, 7, 2);
  }

  lemma OneFound(path: seq<seq<Pair>>)
    requires path == [ROOT_PAIRS, [NEW_PAIR]]
    ensures Chain(path, 7, 2, 0) == [2]
  {
    assert FirstMatch([NEW_PAIR], 7, 0) == 0 && FirstMatch([NEW_PAIR], 7, 1) == 1;
    assert Chain(path, 7, 2, 0) == [2] + Chain(path, 7, 2, 1);
    assert Chain(path, 7, 2, 1) == Chain(path, 7, 1, 1);
    FirstMatchIs(ROOT_PAIRS, 7, 1, BUCKET_SIZE);
    assert Chain(path, 7, 1, 1) == Chain(path, 7, 0, 1) == [];
  }

  /** The key 7 stands in the first slot of the full root bucket, and in the first slot of the bucket below:
    * of its two values a lookup yields one. */
  lemma RepeatedKeyIsMissed()
    ensures INDEX.Valid() && Built(INDEX, BUCKETS, NEXT_FREE)
    ensures Values(INDEX.inserted, 7) == [1, 2] && From(INDEX, 7, 7) == [2]
  {
    hide Chain, Shape, Grown, Filled, OnPaths, Values;
    NodesSplit();
    NodesGrown();
    PairsFilled();
    PairsOnPaths();
    BothInserted();
    SearchedBuckets();
    OneFound(Path(INDEX, 7));
    assert From(INDEX, 8, 7) == [];
  }
}
