/** Searching and extending the node array (apps/antelope/index-maxheap.c, heap_insert, heap_find and
  * bucket_split). */
module MaxHeapNodes {
  import opened MaxHeapTree

  /** Where the search of a level begins: at the first child of the node found above. */
  function Start(x: nat, level: nat): nat {
    if level == 0 then 0 else 2 * Place(x, level - 1) + 1
  }

  /** The searched place of a level is its first or its second candidate. */
  lemma StartOrNext(x: nat, level: nat)
    requires x < 65536 && level <= 8
    ensures Place(x, level) == Start(x, level) || (level > 0 && Place(x, level) == Start(x, level) + 1)
    ensures Start(x, level) <= Place(x, level) < NODE_LIMIT
    ensures level < 8 <==> 2 * Place(x, level) + 1 < NODE_LIMIT
  {
    PlaceHolds(x, level);
    LevelLimit(Place(x, level));
  }

  /** The range at the start of a level holds x only if x belongs there. */
  lemma StartHolds(x: nat, level: nat)
    requires x < 65536 && level <= 8 && Span(Start(x, level)).Contains(x)
    ensures Start(x, level) == Place(x, level)
  {
    if level > 0 {
      PlaceHolds(x, level - 1);
      ChildrenPartition(Place(x, level - 1), x);
    }
  }

  /** All nodes that are not empty have the ranges of their places. */
  predicate Spans(nodes: seq<Node>) {
    |nodes| == NODE_LIMIT && forall i: nat | i < NODE_LIMIT :: nodes[i].Empty() || nodes[i] == Span(i)
  }

  /** What the search meets at a candidate i of a level. */
  lemma FindStep(nodes: seq<Node>, x: nat, level: nat, i: nat)
    requires Shape(nodes) && x < 65536 && level <= 8 && Start(x, level) <= i <= Place(x, level)
    ensures i < |nodes|
    ensures nodes[i].Empty() ==> !Usable(nodes, x, level)
    ensures !nodes[i].Empty() && nodes[i].Contains(x) ==> i == Place(x, level)
    ensures !nodes[i].Empty() && !nodes[i].Contains(x) ==> i + 1 == Place(x, level)
  {
    hide Span;
    StartOrNext(x, level);
    PlaceHolds(x, level);
    if i == Place(x, level) {
    } else {
      assert level > 0;
      ParentReal(nodes, x, level);
      if Span(i).Contains(x) {
        StartHolds(x, level);
      }
    }
  }

  // ---------------------------------------------------------------- insertion of a range

  lemma {:induction false} Narrower(x: nat, upper: nat, lower: nat)
    requires x < 65536 && upper <= lower <= 8
    ensures var a, b := Span(Place(x, upper)), Span(Place(x, lower)); a.min <= b.min <= b.max <= a.max
    decreases lower
  {
    hide Span, Level;
    PlaceHolds(x, lower);
    if upper < lower {
      PlaceHolds(x, lower - 1);
      Narrower(x, upper, lower - 1);
      ChildSpans(Place(x, lower - 1));
    }
  }

  /** Place c is a candidate of a level on the path of x: the node there, or its sibling. */
  predicate Candidate(x: nat, level: nat, c: nat) {
    Start(x, level) <= c <= Start(x, level) + if level == 0 then 0 else 1
  }

  /** Everything that the scan for the place c of a new range meets on the way is filled. */
  predicate Reachable(nodes: seq<Node>, x: nat, level: nat, c: nat) {
    && (forall l: nat | l < level :: Real(nodes, Start(x, l)) && Real(nodes, Place(x, l)))
    && (c != Start(x, level) ==> Real(nodes, Start(x, level)))
  }

  predicate Inside(a: Node, b: Node) { b.min <= a.min && a.max <= b.max }

  lemma TargetInside(x: nat, level: nat, c: nat, l: nat)
    requires x < 65536 && l < level <= 8 && Candidate(x, level, c)
    ensures Inside(Span(c), Span(Place(x, l))) && Span(c).min <= Span(c).max
  {
    hide Span, Level, Place;
    var b := Place(x, level - 1);
    PlaceHolds(x, level - 1);
    ChildSpans(b);
    Narrower(x, l, level - 1);
  }

  /** What the scan meets at a candidate i of a level above the target's. */
  lemma InsertStep(x: nat, level: nat, c: nat, l: nat, i: nat)
    requires x < 65536 && l < level <= 8 && Candidate(x, level, c) && Start(x, l) <= i <= Place(x, l)
    ensures Inside(Span(c), Span(i)) <==> i == Place(x, l)
    ensures i != Place(x, l) ==> i + 1 == Place(x, l)
  {
    hide Span, Level, Place, Node.Mean, Candidate;
    TargetInside(x, level, c, l);
    StartOrNext(x, l);
    if i != Place(x, l) {
      Siblings(x, l);
    }
  }

  lemma Siblings(x: nat, l: nat)
    requires x < 65536 && l <= 8 && Start(x, l) != Place(x, l)
    ensures l > 0 && Place(x, l) == Start(x, l) + 1 && Span(Start(x, l)).max < Span(Place(x, l)).min
  {
    hide Span, Level;
    var q := Place(x, l - 1);
    PlaceHolds(x, l - 1);
    ChildSpans(q);
  }

  /** What it meets at the target's own level. */
  lemma LastStep(x: nat, level: nat, c: nat)
    requires x < 65536 && level <= 8 && Candidate(x, level, c)
    ensures Start(x, level) <= c < NODE_LIMIT && (2 * c + 1 < NODE_LIMIT <==> level < 8)
    ensures c != Start(x, level) ==> !Inside(Span(c), Span(Start(x, level)))
  {
    hide Span, Level;
    StartOrNext(x, level);
    if level > 0 {
      var b := Place(x, level - 1);
      PlaceHolds(x, level - 1);
      ChildSpans(b);
      LevelLimit(b);
      LevelLimit(2 * b + 1);
      LevelLimit(2 * b + 2);
    }
  }

  /** Where the scan for the place c is when it has come to a level. */
  predicate At(x: nat, level: nat, c: nat, l: nat, i: nat) {
    if l < level then Start(x, l) <= i <= Place(x, l)
    else l == level && (i == c || i == Start(x, level))
  }

  /** One step of the scan: it passes by a node, descends below it, or has reached the place. */
  lemma ScanStep(nodes: seq<Node>, x: nat, level: nat, c: nat, l: nat, i: nat)
    requires x < 65536 && l <= level <= 8 && Candidate(x, level, c) && At(x, level, c, l, i)
    requires Reachable(nodes, x, level, c)
    ensures l < level || i != c ==> Real(nodes, i)
    ensures l < level && Inside(Span(c), Span(i)) ==> At(x, level, c, l + 1, 2 * i + 1)
    ensures (l < level || i != c) && !Inside(Span(c), Span(i)) ==> At(x, level, c, l, i + 1)
    ensures l == level && i != c ==> !Inside(Span(c), Span(i))
    ensures l == level && i == c ==> (2 * i + 1 < NODE_LIMIT <==> level < 8)
  {
    hide Span, Level, Place;
    LastStep(x, level, c);
    if l < level {
      InsertStep(x, level, c, l, i);
      StartOrNext(x, l);
      StartOrNext(x, l + 1);
    }
  }

  class NodeFile {
    var nodes: seq<Node>
    const hash: Key -> Key

    /** A file of empty nodes, into which the whole key range is inserted. */
    constructor (hash: Key -> Key)
      ensures Shape(nodes) && this.hash == hash
      ensures forall i: nat :: Real(nodes, i) <==> i == 0
    {
      nodes := seq(NODE_LIMIT, _ => Node(0, 0));
      this.hash := hash;
      new;
      var _ := HeapInsert(0, 65535, 0, 0, 0);
    }

    /** Puts a range into the first empty place that a scan along the ranges containing it reaches. */
    method HeapInsert(min: nat, max: nat, ghost x: nat, ghost level: nat, ghost c: nat) returns (r: int)
      requires Spans(nodes) && x < 65536 && level <= 8 && Candidate(x, level, c)
      requires c < NODE_LIMIT && Span(c) == Node(min, max) && Reachable(nodes, x, level, c)
      requires nodes[c].Empty() || level == 8
      modifies this
      ensures r == if old(nodes)[c].Empty() then c else -1
      ensures nodes == if r == c then old(nodes)[c := Span(c)] else old(nodes)
    {
      hide Span, Place, At, Candidate, Reachable;
      SpanWidth(c);
      if min > max {
        return -1;
      }
      var i := 0;
      ghost var l := 0;
      ScanStart(x, level, c);
      while i < NODE_LIMIT
        invariant nodes == old(nodes)
        invariant if l <= level then At(x, level, c, l, i) else i >= NODE_LIMIT && !nodes[c].Empty()
        invariant l <= level && i >= NODE_LIMIT ==> !nodes[c].Empty()
        decreases NODE_LIMIT - i
      {
        ScanStep(nodes, x, level, c, l, i);
        var node := nodes[i];
        if node.Empty() {
          nodes := nodes[i := Node(min, max)];
          return i;
        } else if node.min <= min && max <= node.max {
          i := 2 * i + 1;
          l := l + 1;
        } else {
          i := i + 1;
        }
        if l <= level {
          ScanBound(x, level, c, l, i);
        }
      }
      r := -1;
    }

    /** The usable node of the next level on the path of the key; `it` is where the search goes on. */
    method HeapFind(key: Key, it: nat, ghost level: nat) returns (found: int, next: nat)
      requires Shape(nodes) && level <= 8 && it == Start(hash(key), level)
      ensures found == if Usable(nodes, hash(key), level) then Place(hash(key), level) else -1
      ensures next == if found >= 0 then Start(hash(key), level + 1) else it
    {
      hide Span, Place, Shape, Start;
      var x := hash(key);
      StartOrNext(x, level);
      var i := it;
      while i < NODE_LIMIT
        invariant it <= i <= Place(x, level)
        decreases NODE_LIMIT - i
      {
        FindStep(nodes, x, level, i);
        var node := nodes[i];
        if node.Empty() {
          break;
        } else if node.Contains(x) {
          if 2 * i + 1 >= NODE_LIMIT {
            break;
          }
          BelowPlace(x, level);
          return i, 2 * i + 1;
        } else {
          i := i + 1;
        }
      }
      return -1, it;
    }

    /** Splits the range of the lowest node on a path; its children get places if there are any left. */
    method BucketSplit(i: nat, ghost x: nat, ghost level: nat) returns (ok: bool)
      requires Shape(nodes) && x < 65536 && level <= 7 && i == Place(x, level) && Real(nodes, i)
      requires level < 7 ==> !Usable(nodes, x, level + 1)
      modifies this
      ensures 2 * i + 2 < NODE_LIMIT && ok == !Real(old(nodes), 2 * i + 1)
      ensures nodes == if ok then Split(old(nodes), i) else old(nodes)
      ensures Shape(nodes)
    {
      hide Span, Place, Reachable, Candidate;
      SplitSpans(nodes, x, level);
      SplitPlaces(nodes, x, level);
      SplitReady(nodes, x, level);
      SecondReady(nodes, x, level);
      SplitKeepsShape(nodes, i);
      var node := nodes[i];
      var mean := node.min + (node.max - node.min) / 2;
      var small := HeapInsert(node.min, mean, x, level + 1, 2 * i + 1);
      if small < 0 {
        return false;
      }
      var large := HeapInsert(mean + 1, node.max, x, level + 1, 2 * i + 2);
      ok := large >= 0;
    }
  }

  lemma BelowPlace(x: nat, level: nat)
    ensures Start(x, level + 1) == 2 * Place(x, level) + 1
  {
  }

  lemma SplitSpans(nodes: seq<Node>, x: nat, level: nat)
    requires Shape(nodes) && x < 65536 && level <= 7 && Real(nodes, Place(x, level))
    ensures var i := Place(x, level);
            && 2 * i + 2 < NODE_LIMIT && nodes[i].min <= nodes[i].max
            && Span(2 * i + 1) == Node(nodes[i].min, nodes[i].Mean()) && Span(2 * i + 2) == Node(nodes[i].Mean() + 1, nodes[i].max)
  {
    hide Span, Level, Node.Mean;
    PlaceHolds(x, level);
    ChildSpans(Place(x, level));
  }

  lemma SplitPlaces(nodes: seq<Node>, x: nat, level: nat)
    requires Shape(nodes) && x < 65536 && level <= 7 && Real(nodes, Place(x, level))
    requires level < 7 ==> !Usable(nodes, x, level + 1)
    ensures var i := Place(x, level);
            && 2 * i + 2 < NODE_LIMIT
            && (level < 7 ==> nodes[2 * i + 1].Empty()) && (nodes[2 * i + 1].Empty() <==> nodes[2 * i + 2].Empty())
  {
    hide Span, Level, Place;
    var i := Place(x, level);
    PlaceHolds(x, level);
    assert Real(nodes, 2 * i + 1) <==> Real(nodes, 2 * i + 2);
    if level < 7 {
      ParentReal(nodes, x, level + 1);
    }
  }

  lemma CandidatesAbove(nodes: seq<Node>, x: nat, level: nat, l: nat)
    requires Shape(nodes) && x < 65536 && l <= level <= 7 && Real(nodes, Place(x, level))
    ensures Real(nodes, Start(x, l)) && Real(nodes, Place(x, l))
  {
    hide Shape, Span;
    AboveReal(nodes, x, l, level);
    if l > 0 {
      ParentReal(nodes, x, l);
    } else {
      assert Place(x, l) == 0;
    }
  }

  lemma SplitReady(nodes: seq<Node>, x: nat, level: nat)
    requires Shape(nodes) && x < 65536 && level <= 7 && Real(nodes, Place(x, level))
    ensures Reachable(nodes, x, level + 1, 2 * Place(x, level) + 1)
    ensures Candidate(x, level + 1, 2 * Place(x, level) + 1) && Candidate(x, level + 1, 2 * Place(x, level) + 2)
  {
    hide Shape, Real, Place;
    forall l: nat | l < level + 1
      ensures Real(nodes, Start(x, l)) && Real(nodes, Place(x, l))
    {
      CandidatesAbove(nodes, x, level, l);
    }
  }

  lemma FillOne(nodes: seq<Node>, c: nat, s: Node, j: nat)
    requires c < |nodes| && !s.Empty()
    ensures Real(nodes[c := s], j) <==> Real(nodes, j) || j == c
  {
  }

  lemma SecondReady(before: seq<Node>, x: nat, level: nat)
    requires Spans(before) && x < 65536 && level <= 7 && 2 * Place(x, level) + 2 < NODE_LIMIT
    requires Reachable(before, x, level + 1, 2 * Place(x, level) + 1)
    ensures var c := 2 * Place(x, level) + 1; var nodes := before[c := Span(c)];
            Spans(nodes) && Reachable(nodes, x, level + 1, c + 1)
  {
    hide Span, Place, Real, Spans;
    var c := 2 * Place(x, level) + 1;
    var s := Span(c);
    SpansStay(before, c);
    SpanWidth(c);
    FillOne(before, c, s, c);
    forall l: nat | l < level + 1
      ensures Real(before[c := s], Start(x, l)) && Real(before[c := s], Place(x, l))
    {
      FillOne(before, c, s, Start(x, l));
      FillOne(before, c, s, Place(x, l));
    }
  }

  lemma SpansStay(nodes: seq<Node>, c: nat)
    requires Spans(nodes) && c < NODE_LIMIT
    ensures |nodes| == NODE_LIMIT && Spans(nodes[c := Span(c)])
  {
    hide Span;
  }

  lemma ScanStart(x: nat, level: nat, c: nat)
    requires x < 65536 && level <= 8 && Candidate(x, level, c)
    ensures At(x, level, c, 0, 0)
  {
  }

  lemma ScanBound(x: nat, level: nat, c: nat, l: nat, i: nat)
    requires x < 65536 && l <= level <= 8 && Candidate(x, level, c) && At(x, level, c, l, i)
    ensures i < NODE_LIMIT
  {
    hide Span, Level, Place;
    LastStep(x, level, c);
    StartOrNext(x, l);
  }
}
