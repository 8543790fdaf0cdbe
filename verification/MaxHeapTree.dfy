/** The node array of a MaxHeap index (apps/antelope). */
module MaxHeapTree {
  // A binary tree of key ranges, stored level by level, that grows by splitting ranges in two.

  const NODE_LIMIT := 511
  const NODE_DEPTH := 9
  const BUCKET_SIZE := 128

  type Key = x: nat | x < 65536

  /** An empty node has both bounds zero. */
  datatype Node = Node(min: nat, max: nat) {
    predicate Empty() { min == 0 && max == 0 }
    predicate Contains(x: nat) { min <= x <= max }
    function Mean(): nat { min + if max >= min then (max - min) / 2 else 0 }
  }

  /** The range that a node has, if it is not empty: it depends on its place only. */
  function Span(i: nat): (s: Node) {
    if i == 0 then Node(0, 65535)
    else
      var parent := Span((i - 1) / 2);
      if i % 2 == 1 then Node(parent.min, parent.Mean()) else Node(parent.Mean() + 1, parent.max)
  }

  function Level(i: nat): nat {
    if i == 0 then 0 else Level((i - 1) / 2) + 1
  }

  /** The first place of a level. */
  function First(level: nat): nat {
    if level == 0 then 0 else 2 * First(level - 1) + 1
  }

  /** 65536 divided by two to the power of the level. */
  function Width(level: nat): nat {
    if level == 0 then 65536 else Width(level - 1) / 2
  }

  lemma Levels()
    ensures First(0) == 0 && First(1) == 1 && First(2) == 3 && First(3) == 7 && First(4) == 15
    ensures First(5) == 31 && First(6) == 63 && First(7) == 127 && First(8) == 255 && First(9) == 511
  {
    assert First(3) == 7;
    assert First(6) == 63;
  }

  lemma Widths()
    ensures Width(0) == 65536 && Width(1) == 32768 && Width(2) == 16384 && Width(3) == 8192 && Width(4) == 4096
    ensures Width(5) == 2048 && Width(6) == 1024 && Width(7) == 512 && Width(8) == 256
  {
    assert Width(3) == 8192;
    assert Width(6) == 1024;
  }

  lemma {:induction false} LevelBounds(i: nat)
    ensures First(Level(i)) <= i < First(Level(i) + 1)
  {
    if i > 0 {
      LevelBounds((i - 1) / 2);
    }
  }

  lemma {:induction false} FirstGrows(a: nat, b: nat)
    requires a <= b
    ensures First(a) <= First(b)
  {
    if a < b {
      FirstGrows(a, b - 1);
    }
  }

  lemma LevelLimit(i: nat)
    ensures i < NODE_LIMIT <==> Level(i) <= 8
    ensures 2 * i + 1 < NODE_LIMIT <==> Level(i) <= 7
  {
    LevelBounds(i);
    Levels();
    if Level(i) <= 8 {
      FirstGrows(Level(i) + 1, 9);
    } else {
      FirstGrows(9, Level(i));
    }
    if Level(i) <= 7 {
      FirstGrows(Level(i) + 1, 8);
    } else {
      FirstGrows(8, Level(i));
    }
  }

  lemma Halves(n: Node, w: nat)
    requires n.max - n.min + 1 == w && w % 2 == 0 && w > 0
    ensures n.Mean() - n.min + 1 == w / 2 == n.max - n.Mean()
  {
  }

  lemma EvenWidth(level: nat)
    requires level <= 7
    ensures Width(level) % 2 == 0 && Width(level + 1) == Width(level) / 2 >= 256
  {
    Widths();
  }

  /** A range on a level has that level's width, so no range of a node looks empty. */
  lemma {:induction false} SpanWidth(i: nat)
    requires i < NODE_LIMIT
    ensures Level(i) <= 8 && Span(i).min <= Span(i).max < 65536
    ensures Span(i).max - Span(i).min + 1 == Width(Level(i)) >= 256
    ensures !Span(i).Empty()
  {
    LevelLimit(i);
    if i > 0 {
      var p := (i - 1) / 2;
      SpanWidth(p);
      assert Level(i) == Level(p) + 1;
      hide Node.Mean, Width, Level;
      EvenWidth(Level(p));
      Halves(Span(p), Width(Level(p)));
    }
  }

  lemma ChildSpans(i: nat)
    requires 2 * i + 2 < NODE_LIMIT
    ensures Level(2 * i + 1) == Level(2 * i + 2) == Level(i) + 1
    ensures Span(2 * i + 1) == Node(Span(i).min, Span(i).Mean())
    ensures Span(2 * i + 2) == Node(Span(i).Mean() + 1, Span(i).max)
    ensures Span(i).min <= Span(i).Mean() < Span(i).max < 65536
  {
    assert (2 * i + 1 - 1) / 2 == i && (2 * i + 2 - 1) / 2 == i;
    hide Width;
    SpanWidth(i);
  }

  lemma ChildrenPartition(i: nat, x: nat)
    requires 2 * i + 2 < NODE_LIMIT
    ensures Span(i).Contains(x) <==> Span(2 * i + 1).Contains(x) || Span(2 * i + 2).Contains(x)
    ensures !(Span(2 * i + 1).Contains(x) && Span(2 * i + 2).Contains(x))
    ensures Span(i).Contains(x) ==> (x <= Span(2 * i + 1).max <==> Span(2 * i + 1).Contains(x))
  {
    hide Span;
    ChildSpans(i);
  }

  // ---------------------------------------------------------------- the path of a key

  /** The place on a level whose range holds x. */
  function Place(x: nat, level: nat): (i: nat) {
    if level == 0 then 0
    else
      var p := Place(x, level - 1);
      if x <= Span(2 * p + 1).max then 2 * p + 1 else 2 * p + 2
  }

  lemma ChildHolds(p: nat, x: nat)
    requires 2 * p + 2 < NODE_LIMIT && Span(p).Contains(x)
    ensures var c := if x <= Span(2 * p + 1).max then 2 * p + 1 else 2 * p + 2;
            Level(c) == Level(p) + 1 && Span(c).Contains(x)
  {
    ChildSpans(p);
    ChildrenPartition(p, x);
  }

  lemma RootHolds(x: nat)
    requires x < 65536
    ensures Level(0) == 0 && Span(0).Contains(x)
  {
  }

  lemma {:induction false} PlaceHolds(x: nat, level: nat)
    requires x < 65536 && level <= 8
    ensures Place(x, level) < NODE_LIMIT && Level(Place(x, level)) == level
    ensures Span(Place(x, level)).Contains(x)
    ensures level <= 7 ==> 2 * Place(x, level) + 2 < NODE_LIMIT
  {
    hide Span, Level, Node.Contains;
    if level > 0 {
      PlaceHolds(x, level - 1);
      ChildHolds(Place(x, level - 1), x);
    } else {
      RootHolds(x);
    }
    LevelLimit(Place(x, level));
  }

  lemma OnPathBelow(x: nat, p: nat, i: nat, level: nat)
    requires (i == 2 * p + 1 || i == 2 * p + 2) && i < NODE_LIMIT && Span(i).Contains(x) && p == Place(x, level)
    ensures i == Place(x, level + 1)
  {
    hide Span;
    ChildrenPartition(p, x);
  }

  lemma Parent(i: nat) returns (p: nat)
    requires i > 0
    ensures (i == 2 * p + 1 || i == 2 * p + 2) && Level(i) == Level(p) + 1
  {
    p := (i - 1) / 2;
  }

  /** The nodes whose range holds x are the places on its path. */
  lemma {:induction false} OnPath(x: nat, i: nat)
    requires x < 65536 && i < NODE_LIMIT && Span(i).Contains(x)
    ensures i == Place(x, Level(i))
  {
    hide Span, Place, Node.Contains;
    if i > 0 {
      var p := Parent(i);
      hide Level;
      ChildrenPartition(p, x);
      OnPath(x, p);
      OnPathBelow(x, p, i, Level(p));
    } else {
      RootPlace(x);
    }
  }

  lemma RootPlace(x: nat)
    ensures Place(x, 0) == 0 == Level(0)
  {
  }

  // ---------------------------------------------------------------- the shape

  predicate Real(nodes: seq<Node>, i: nat) {
    i < |nodes| && !nodes[i].Empty()
  }

  /** The nodes that are not empty form a binary tree with the ranges of their places; children come in
    * pairs. */
  predicate Shape(nodes: seq<Node>) {
    && |nodes| == NODE_LIMIT && Real(nodes, 0)
    && (forall i: nat | i < NODE_LIMIT :: nodes[i].Empty() || nodes[i] == Span(i))
    && (forall i: nat | i < NODE_LIMIT && 2 * i + 2 < NODE_LIMIT ::
          (Real(nodes, 2 * i + 1) <==> Real(nodes, 2 * i + 2)) && (Real(nodes, 2 * i + 1) ==> Real(nodes, i)))
  }

  /** The usable node of the level on the path of x: the nodes of the last level cannot hold pairs. */
  predicate Usable(nodes: seq<Node>, x: nat, level: nat) {
    level < NODE_DEPTH - 1 && Real(nodes, Place(x, level))
  }

  lemma ParentReal(nodes: seq<Node>, x: nat, level: nat)
    requires Shape(nodes) && x < 65536 && 0 < level <= 8
    ensures Real(nodes, Place(x, level)) <==> Real(nodes, 2 * Place(x, level - 1) + 1)
    ensures Real(nodes, Place(x, level)) ==> Real(nodes, Place(x, level - 1))
  {
    PlaceHolds(x, level - 1);
  }

  lemma {:induction false} AboveReal(nodes: seq<Node>, x: nat, upper: nat, lower: nat)
    requires Shape(nodes) && x < 65536 && upper <= lower <= 8 && Real(nodes, Place(x, lower))
    ensures Real(nodes, Place(x, upper))
    decreases lower
  {
    if upper < lower {
      ParentReal(nodes, x, lower);
      AboveReal(nodes, x, upper, lower - 1);
    }
  }

  /** The lowest usable level on the path of x. */
  function Deepest(nodes: seq<Node>, x: nat, level: nat): (d: nat)
    requires Usable(nodes, x, level)
    ensures Usable(nodes, x, d) && level <= d && !Usable(nodes, x, d + 1)
    decreases NODE_DEPTH - level
  {
    if Usable(nodes, x, level + 1) then Deepest(nodes, x, level + 1) else level
  }

  /** The nodes after a split: both children get their ranges. */
  function Split(nodes: seq<Node>, i: nat): (r: seq<Node>)
    requires |nodes| == NODE_LIMIT && 2 * i + 2 < NODE_LIMIT
    ensures |r| == NODE_LIMIT
  {
    nodes[2 * i + 1 := Span(2 * i + 1)][2 * i + 2 := Span(2 * i + 2)]
  }

  lemma SplitNodes(nodes: seq<Node>, i: nat, j: nat)
    requires |nodes| == NODE_LIMIT && 2 * i + 2 < NODE_LIMIT
    ensures Real(Split(nodes, i), j) <==> Real(nodes, j) || j == 2 * i + 1 || j == 2 * i + 2
  {
    hide Span;
    SpanWidth(2 * i + 1);
    SpanWidth(2 * i + 2);
  }

  lemma SplitKeepsShape(nodes: seq<Node>, i: nat)
    requires Shape(nodes) && 2 * i + 2 < NODE_LIMIT && Real(nodes, i)
    ensures Shape(Split(nodes, i))
  {
    var after := Split(nodes, i);
    hide Span;
    SplitNodes(nodes, i, 0);
    forall j: nat | j < NODE_LIMIT && 2 * j + 2 < NODE_LIMIT
      ensures (Real(after, 2 * j + 1) <==> Real(after, 2 * j + 2)) && (Real(after, 2 * j + 1) ==> Real(after, j))
    {
      hide Real, Split;
      SplitNodes(nodes, i, j);
      SplitNodes(nodes, i, 2 * j + 1);
      SplitNodes(nodes, i, 2 * j + 2);
    }
  }
}
