/** The equi-join (apps/antelope/relation.c). */
module Join {
  // A nested loop that is left in its inner loop with every row and entered there again by the next call.
  //
  // The index over the right relation is known by what its iterator yields for a value.

  import opened Storage
  import opened InlineIndex

  /** index_get_iterator fails, or the iterator yields these rows before INVALID_TUPLE. */
  datatype Search = NoIterator | Hits(ids: seq<nat>)

  /** Where the bytes of an attribute of the result come from. */
  datatype Origin = Origin(left: bool, offset: nat, size: nat) {
    predicate Fits(n: nat, m: nat) { offset + size <= if left then n else m }

    function Of(l: Row, r: Row): (b: seq<Byte>)
      requires Fits(|l|, |r|)
      ensures |b| == size
    {
      if left then l[offset..offset + size] else r[offset..offset + size]
    }
  }

  predicate FitAll(origins: seq<Origin>, n: nat, m: nat) {
    forall i | 0 <= i < |origins| :: origins[i].Fits(n, m)
  }

  function Size(origins: seq<Origin>): nat {
    if origins == [] then 0 else Size(origins[..|origins| - 1]) + origins[|origins| - 1].size
  }

  function Joined(origins: seq<Origin>, l: Row, r: Row): (row: Row)
    requires FitAll(origins, |l|, |r|)
    ensures |row| == Size(origins)
  {
    if origins == [] then []
    else
      var k := |origins| - 1;
      Joined(origins[..k], l, r) + origins[k].Of(l, r)
  }

  lemma {:induction false} SizeGrows(origins: seq<Origin>, i: nat)
    requires i <= |origins|
    ensures Size(origins[..i]) <= Size(origins)
    decreases |origins|
  {
    var k := |origins| - 1;
    if i > k {
      assert origins[..i] == origins;
    } else {
      assert origins[..k][..i] == origins[..i];
      SizeGrows(origins[..k], i);
    }
  }

  lemma JoinedStep(origins: seq<Origin>, i: nat, l: Row, r: Row)
    requires i < |origins| && FitAll(origins, |l|, |r|)
    ensures Size(origins[..i + 1]) == Size(origins[..i]) + origins[i].size
    ensures Joined(origins[..i + 1], l, r) == Joined(origins[..i], l, r) + origins[i].Of(l, r)
  {
    assert origins[..i + 1][..i] == origins[..i];
  }

  lemma NothingJoined(l: Row, r: Row)
    ensures Size([]) == 0 && Joined([], l, r) == []
  {
  }

  /** The bytes of a source row stand in the joined row, from `at` on. */
  predicate StandsAt(o: Origin, from: Row, row: Row, at: nat) {
    at + o.size <= |row| && o.offset + o.size <= |from| && row[at..at + o.size] == from[o.offset..o.offset + o.size]
  }

  /** A row consists of the attributes that the origins name, one behind the other. */
  predicate RowOf(origins: seq<Origin>, l: Row, r: Row, row: Row) {
    && |row| == Size(origins)
    && forall i | 0 <= i < |origins| :: StandsAt(origins[i], if origins[i].left then l else r, row, Size(origins[..i]))
  }

  lemma JoinedIsRowOf(origins: seq<Origin>, l: Row, r: Row)
    requires FitAll(origins, |l|, |r|)
    ensures RowOf(origins, l, r, Joined(origins, l, r))
  {
    forall i | 0 <= i < |origins|
      ensures StandsAt(origins[i], if origins[i].left then l else r, Joined(origins, l, r), Size(origins[..i]))
    {
      AttributeJoined(origins, l, r, i);
    }
  }

  lemma {:induction false} AttributeJoined(origins: seq<Origin>, l: Row, r: Row, i: nat)
    requires FitAll(origins, |l|, |r|) && i < |origins|
    ensures StandsAt(origins[i], if origins[i].left then l else r, Joined(origins, l, r), Size(origins[..i]))
    decreases |origins|
  {
    hide Joined, StandsAt, Size, Origin.Of;
    var n := |origins| - 1;
    var row := Joined(origins[..n], l, r);
    JoinedStep(origins, n, l, r);
    assert origins[..n + 1] == origins;
    if i < n {
      AttributeJoined(origins[..n], l, r, i);
      assert origins[..n][..i] == origins[..i];
      StillThere(origins[i], if origins[i].left then l else r, row, origins[n].Of(l, r), Size(origins[..i]));
    } else {
      PutBehind(origins[n], l, r, row);
    }
  }

  lemma PutBehind(o: Origin, l: Row, r: Row, row: Row)
    requires o.Fits(|l|, |r|)
    ensures StandsAt(o, if o.left then l else r, row + o.Of(l, r), |row|)
  {
  }

  lemma StillThere(o: Origin, from: Row, row: Row, more: Row, at: nat)
    requires StandsAt(o, from, row, at)
    ensures StandsAt(o, from, row + more, at)
  {
    assert (row + more)[at..at + o.size] == row[at..at + o.size];
  }

  // ---------------------------------------------------------------- what a join delivers

  datatype Item = Pair(row: Row) | Fault(error: Result)

  /** A join: the two relations, the value of the join attribute in a left row, the index over the right
    * relation, and the layout of the result. */
  datatype Task = Task(left: seq<Row>, right: seq<Row>, n: nat, m: nat, key: Row -> int, search: int -> Search, origins: seq<Origin>) {
    predicate Valid() {
      && (forall i | 0 <= i < |left| :: |left[i]| == n)
      && (forall j | 0 <= j < |right| :: |right[j]| == m)
      && FitAll(origins, n, m)
    }

    /** What one row number found in the index leads to. */
    function ItemFor(l: Row, id: nat): (item: Item)
      requires Valid() && |l| == n
    {
      if id < |right| then Pair(Joined(origins, l, right[id])) else Fault(IMPLEMENTATION_ERROR)
    }

    function ItemsFor(l: Row, ids: seq<nat>): (items: seq<Item>)
      requires Valid() && |l| == n
      ensures |items| == |ids|
    {
      seq(|ids|, k requires 0 <= k < |ids| => ItemFor(l, ids[k]))
    }

    /** What the calls deliver from left row i on. */
    function From(i: nat): seq<Item>
      requires Valid()
      decreases |left| - i, 1
    {
      if i >= |left| then []
      else
        match search(key(left[i]))
        case NoIterator => [Fault(INDEX_ERROR)]
        case Hits(ids) => Resume(i, ids)
    }

    /** What they deliver from inside left row i on, with these row numbers still to come. */
    function Resume(i: nat, ids: seq<nat>): seq<Item>
      requires Valid() && i < |left|
      decreases |left| - i, 0
    {
      ItemsFor(left[i], ids) + From(i + 1)
    }
  }

  // ---------------------------------------------------------------- the nested loop

  /** The numbers below n of the rows that hold the value, in order. */
  function Matching(column: seq<int>, x: int): (ids: seq<nat>)
    ensures forall i | i in ids :: i < |column|
  {
    if column == [] then []
    else
      var k := |column| - 1;
      Matching(column[..k], x) + if column[k] == x then [k] else []
  }

  /** The join by its definition: for every left row in order, every right row in order whose join
    * attribute has the same value. */
  function NestedLoop(t: Task, column: seq<int>, i: nat): seq<Item>
    requires t.Valid() && |column| == |t.right|
    decreases |t.left| - i
  {
    if i >= |t.left| then [] else Inner(t, column, t.left[i], |column|) + NestedLoop(t, column, i + 1)
  }

  function Inner(t: Task, column: seq<int>, l: Row, j: nat): seq<Item>
    requires t.Valid() && j <= |column| == |t.right| && |l| == t.n
  {
    if j == 0 then []
    else
      Inner(t, column, l, j - 1) +
      if column[j - 1] == t.key(l) then [Pair(Joined(t.origins, l, t.right[j - 1]))] else []
  }

  lemma {:induction false} InnerIsMatching(t: Task, column: seq<int>, l: Row, j: nat)
    requires t.Valid() && j <= |column| == |t.right| && |l| == t.n
    ensures Inner(t, column, l, j) == t.ItemsFor(l, Matching(column[..j], t.key(l)))
  {
    if j > 0 {
      InnerIsMatching(t, column, l, j - 1);
      assert column[..j][..j - 1] == column[..j - 1];
    }
  }

  /** The index yields, for every left row, the right rows with the same value in order. */
  predicate InOrder(t: Task, column: seq<int>) {
    forall i | 0 <= i < |t.left| :: t.search(t.key(t.left[i])) == Hits(Matching(column, t.key(t.left[i])))
  }

  /** The join is the nested loop, row for row. */
  lemma {:induction false} JoinIsNestedLoop(t: Task, column: seq<int>, i: nat)
    requires t.Valid() && |column| == |t.right| && InOrder(t, column)
    ensures t.From(i) == NestedLoop(t, column, i)
    decreases |t.left| - i
  {
    if i < |t.left| {
      JoinIsNestedLoop(t, column, i + 1);
      InnerIsMatching(t, column, t.left[i], |column|);
      assert column[..|column|] == column;
    }
  }

  /** The index yields, for every left row, each right row with the same value once, in any order. */
  predicate EachOnce(t: Task, column: seq<int>) {
    forall i | 0 <= i < |t.left| ::
      var s := t.search(t.key(t.left[i]));
      s.Hits? && multiset(s.ids) == multiset(Matching(column, t.key(t.left[i])))
  }

  lemma WithoutOne(t: Task, l: Row, ids: seq<nat>, k: nat)
    requires t.Valid() && |l| == t.n && k < |ids|
    ensures multiset(ids) == multiset(ids[..k] + ids[k + 1..]) + multiset{ids[k]}
    ensures multiset(t.ItemsFor(l, ids)) ==
            multiset(t.ItemsFor(l, ids[..k] + ids[k + 1..])) + multiset{t.ItemFor(l, ids[k])}
  {
    hide Task.Valid, Task.ItemFor;
    var items := t.ItemsFor(l, ids);
    assert ids == ids[..k] + [ids[k]] + ids[k + 1..];
    assert items == items[..k] + [items[k]] + items[k + 1..];
    assert t.ItemsFor(l, ids[..k] + ids[k + 1..]) == items[..k] + items[k + 1..];
  }

  lemma {:induction false} SameRows(t: Task, l: Row, a: seq<nat>, b: seq<nat>)
    requires t.Valid() && |l| == t.n && multiset(a) == multiset(b)
    ensures multiset(t.ItemsFor(l, a)) == multiset(t.ItemsFor(l, b))
    decreases |a|
  {
    hide Task.Valid, Task.ItemFor;
    if a == [] {
      assert |multiset(b)| == 0;
    } else {
      hide Task.ItemsFor;
      assert a[0] in multiset(b);
      var k :| 0 <= k < |b| && b[k] == a[0];
      WithoutOne(t, l, a, 0);
      WithoutOne(t, l, b, k);
      var c, d := a[..0] + a[1..], b[..k] + b[k + 1..];
      assert multiset(c) == multiset(a) - multiset{a[0]};
      assert multiset(d) == multiset(b) - multiset{a[0]};
      SameRows(t, l, c, d);
    }
  }

  /** With an index that yields the matching rows in another order, the join delivers the same rows,
    * still grouped by left row. */
  lemma {:induction false} JoinIsNestedLoopUpToOrder(t: Task, column: seq<int>, i: nat)
    requires t.Valid() && |column| == |t.right| && EachOnce(t, column)
    ensures multiset(t.From(i)) == multiset(NestedLoop(t, column, i))
    decreases |t.left| - i
  {
    hide Matching, Inner, Task.ItemsFor;
    if i < |t.left| {
      JoinIsNestedLoopUpToOrder(t, column, i + 1);
      SameGroup(t, column, i);
    }
  }

  lemma SameGroup(t: Task, column: seq<int>, i: nat)
    requires t.Valid() && |column| == |t.right| && EachOnce(t, column) && i < |t.left|
    ensures multiset(t.ItemsFor(t.left[i], t.search(t.key(t.left[i])).ids)) == multiset(Inner(t, column, t.left[i], |column|))
  {
    hide Matching;
    var l := t.left[i];
    InnerIsMatching(t, column, l, |column|);
    assert column[..|column|] == column;
    SameRows(t, l, t.search(t.key(l)).ids, Matching(column, t.key(l)));
  }

  lemma {:induction false} MatchingAll(column: seq<int>, x: int)
    ensures forall i: nat :: i in Matching(column, x) <==> i < |column| && column[i] == x
    decreases |column|
  {
    if column != [] {
      MatchingAll(column[..|column| - 1], x);
    }
  }

  lemma {:induction false} MatchingUnique(column: seq<int>, x: int, row: nat)
    requires row < |column| && column[row] == x && AtMostOnce(column, x)
    ensures Matching(column, x) == [row]
    decreases |column|
  {
    var k := |column| - 1;
    if row == k {
      assert x !in column[..k];
      MatchingNone(column[..k], x);
    } else {
      MatchingUnique(column[..k], x, row);
    }
  }

  lemma {:induction false} MatchingNone(column: seq<int>, x: int)
    requires x !in column
    ensures Matching(column, x) == []
    decreases |column|
  {
    if column != [] {
      MatchingNone(column[..|column| - 1], x);
    }
  }

  /** An equality search in an inline index, drained by the calls of get_next, yields exactly the rows that the
    * nested loop matches if and only if the value is in at most one row. */
  method EqualRows(column: seq<int>, x: int, unique: bool) returns (ids: seq<nat>)
    requires 0 < |column| <= 0xffff_fffe && Sorted(column) && column[0] <= x
    ensures ids == Matching(column, x) <==> AtMostOnce(column, x)
    ensures ids == if x in column then [Landing(column, x)] else []
  {
    hide Landing, Sorted;
    var it := new Iterator(column, x, x, unique);
    ids := [];
    var r := it.GetNext();
    if r.Found? {
      ids := [r.row];
      r := it.GetNext();
      assert r.Invalid?;
      OneHitMatches(column, x, ids[0]);
    } else {
      MatchingNone(column, x);
    }
  }

  lemma OneHitMatches(column: seq<int>, x: int, row: nat)
    requires row < |column| && column[row] == x
    ensures Matching(column, x) == [row] <==> AtMostOnce(column, x)
  {
    if AtMostOnce(column, x) {
      MatchingUnique(column, x, row);
    } else {
      MatchingAll(column, x);
    }
  }

  lemma Exhausted(t: Task, i: nat)
    requires t.Valid() && i < |t.left|
    ensures t.Resume(i, []) == t.From(i + 1)
  {
  }

  lemma OneHit(t: Task, i: nat, ids: seq<nat>)
    requires t.Valid() && i < |t.left| && ids != []
    ensures t.Resume(i, ids) == [t.ItemFor(t.left[i], ids[0])] + t.Resume(i, ids[1..])
  {
    hide Task.From, Task.ItemFor;
    assert t.ItemsFor(t.left[i], ids) == [t.ItemFor(t.left[i], ids[0])] + t.ItemsFor(t.left[i], ids[1..]);
  }

  function Pairs(rows: seq<Row>): (items: seq<Item>)
    ensures |items| == |rows|
  {
    seq(|rows|, k requires 0 <= k < |rows| => Pair(rows[k]))
  }

  /** After the rows already delivered comes the first item of the rest. */
  lemma OneItem(rows: seq<Row>, rest: seq<Item>)
    requires rest != []
    ensures Pairs(rows) + [rest[0]] <= Pairs(rows) + rest
    ensures rest[0].Pair? ==> Pairs(rows) + rest == Pairs(rows + [rest[0].row]) + rest[1..]
  {
    if rest[0].Pair? {
      assert Pairs(rows + [rest[0].row]) == Pairs(rows) + [rest[0]];
    }
  }

  // ---------------------------------------------------------------- the coroutine

  class Process {
    const left: TupleFile
    const right: TupleFile
    const result: TupleFile
    const key: Row -> int
    const search: int -> Search
    const origins: seq<Origin>
    const assign: bool
    const leftRow: array<Byte>
    const rightRow: array<Byte>
    const joinRow: array<Byte>
    var tupleId: nat
    var indexStep: bool
    var remaining: seq<nat>
    var currentRow: nat

    ghost const task: Task

    ghost predicate Buffers()
    {
      && leftRow != rightRow && leftRow != joinRow && rightRow != joinRow
      && result != left && result != right
      && leftRow.Length == left.rowLength && rightRow.Length == right.rowLength
      && joinRow.Length == result.rowLength == Size(origins) > 0
      && FitAll(origins, left.rowLength, right.rowLength)
    }

    /** Between two calls inside the inner loop, the left row is still in its buffer. */
    ghost predicate Valid()
      reads this, left, right, leftRow
    {
      && Buffers()
      && task == Task(Rows(left.data, left.rowLength), Rows(right.data, right.rowLength), left.rowLength, right.rowLength, key, search, origins)
      && (!indexStep ==> tupleId < |task.left| && leftRow[..] == task.left[tupleId])
    }

    /** What the calls from now on deliver.  Outside the inner loop the join starts anew. */
    ghost function Rest(): seq<Item>
      requires task.Valid() && (!indexStep ==> tupleId < |task.left|)
      reads this
    {
      if indexStep then task.From(0) else task.Resume(tupleId, remaining)
    }

    constructor (left: TupleFile, right: TupleFile, result: TupleFile, key: Row -> int, search: int -> Search, origins: seq<Origin>, assign: bool)
      requires result != left && result != right && result.rowLength == Size(origins) > 0
      requires FitAll(origins, left.rowLength, right.rowLength)
      ensures Valid() && task.Valid() && indexStep
      ensures this.left == left && this.right == right && this.result == result && this.key == key
      ensures this.search == search && this.origins == origins && this.assign == assign
    {
      this.left, this.right, this.result, this.key := left, right, result, key;
      this.search, this.origins, this.assign := search, origins, assign;
      leftRow := new Byte[left.rowLength](_ => 0);
      rightRow := new Byte[right.rowLength](_ => 0);
      joinRow := new Byte[result.rowLength](_ => 0);
      tupleId, indexStep, remaining, currentRow := 0, true, [], 0;
      task := Task(Rows(left.data, left.rowLength), Rows(right.data, right.rowLength), left.rowLength, right.rowLength, key, search, origins);
    }

    /** Fetches left row tupleId and opens the index at its value. */
    method OpenRow() returns (r: Result)
      requires Valid() && indexStep
      modifies leftRow, this`indexStep, this`remaining
      ensures Valid()
      ensures tupleId >= |task.left| ==> r == FINISHED && indexStep
      ensures tupleId < |task.left| ==>
                match search(key(task.left[tupleId]))
                case NoIterator => r == INDEX_ERROR && indexStep
                case Hits(ids) => r == OK && !indexStep && remaining == ids
    {
      r := left.GetRow(tupleId, leftRow);
      if r == OK {
        match search(key(leftRow[..]))
        case NoIterator => r := INDEX_ERROR;
        case Hits(ids) =>
          remaining := ids;
          indexStep := false;
      }
    }

    method Copy(to: nat, from: array<Byte>, offset: nat, size: nat)
      requires from != joinRow && to + size <= joinRow.Length && offset + size <= from.Length
      modifies joinRow
      ensures joinRow[..to + size] == old(joinRow[..to]) + from[offset..offset + size]
    {
      forall i | 0 <= i < size {
        joinRow[to + i] := from[offset + i];
      }
      assert joinRow[..to + size] == joinRow[..to] + joinRow[to..to + size];
    }

    /** The result row, attribute by attribute. */
    method Assemble()
      requires Buffers()
      modifies joinRow
      ensures joinRow[..] == Joined(origins, leftRow[..], rightRow[..])
    {
      hide Joined, Size;
      var to := 0;
      NothingJoined(leftRow[..], rightRow[..]);
      assert origins[..0] == [];
      for i := 0 to |origins|
        invariant to == Size(origins[..i]) <= joinRow.Length
        invariant joinRow[..to] == Joined(origins[..i], leftRow[..], rightRow[..])
      {
        SizeGrows(origins, i + 1);
        JoinedStep(origins, i, leftRow[..], rightRow[..]);
        var from := if origins[i].left then leftRow else rightRow;
        Copy(to, from, origins[i].offset, origins[i].size);
        to := to + origins[i].size;
      }
      assert origins[..|origins|] == origins;
    }

    method Store() returns (r: Result)
      requires Buffers()
      modifies joinRow, result, this`currentRow
      ensures joinRow[..] == old(joinRow[..])
      ensures r == GOT_ROW || (r == STORAGE_ERROR && assign)
      ensures r == GOT_ROW ==> result.data == if assign then old(result.data) + Veiled(joinRow[..]) else old(result.data)
    {
      if assign {
        var put := result.PutRow(joinRow);
        if put == STORAGE_ERROR {
          return STORAGE_ERROR;
        }
      }
      currentRow := currentRow + 1;
      r := GOT_ROW;
    }

    /** The inner loop for the next row number of the iterator. */
    method InnerStep() returns (r: Result)
      requires Valid() && !indexStep && remaining != []
      modifies rightRow, joinRow, result, this`currentRow, this`remaining
      ensures Valid() && remaining == old(remaining)[1..]
      ensures match task.ItemFor(leftRow[..], old(remaining)[0])
              case Fault(e) => r == e == IMPLEMENTATION_ERROR
              case Pair(row) =>
                && (r == GOT_ROW || (r == STORAGE_ERROR && assign))
                && (r == GOT_ROW ==>
                      && joinRow[..] == row && rightRow[..] == task.right[old(remaining)[0]]
                      && result.data == if assign then old(result.data) + Veiled(row) else old(result.data))
    {
      var id := remaining[0];
      remaining := remaining[1..];
      r := right.GetRow(id, rightRow);
      if r == FINISHED {
        r := IMPLEMENTATION_ERROR;
      } else {
        Assemble();
        r := Store();
      }
    }

    /** The outer loop, up to the next row number that the index yields; a resumed join is already inside. */
    method FindHit() returns (r: Result)
      requires Valid() && task.Valid()
      modifies leftRow, this`tupleId, this`indexStep, this`remaining
      ensures Valid()
      ensures r == OK ==> !indexStep && remaining != [] && old(Rest()) == task.Resume(tupleId, remaining)
      ensures r == FINISHED ==> indexStep && old(Rest()) == []
      ensures r != OK && r != FINISHED ==> r == INDEX_ERROR && old(Rest()) == [Fault(r)]
    {
      hide Task.Resume;
      ghost var all := Rest();
      var resumed := !indexStep;
      if indexStep {
        tupleId := 0;
      }
      while true
        invariant Valid() && resumed == !indexStep
        invariant all == if resumed then task.Resume(tupleId, remaining) else task.From(tupleId)
        decreases |task.left| - tupleId
      {
        if !resumed {
          r := OpenRow();
          if r != OK {
            return;
          }
        }
        resumed := false;
        if remaining != [] {
          return OK;
        }
        Exhausted(task, tupleId);
        indexStep := true;
        tupleId := tupleId + 1;
      }
    }

    /** One call of relation_process_join delivers the first item of what is left. */
    method Next() returns (r: Result)
      requires Valid() && task.Valid()
      modifies leftRow, rightRow, joinRow, result, this`tupleId, this`indexStep, this`currentRow, this`remaining
      ensures Valid()
      ensures old(Rest()) == [] ==> r == FINISHED && indexStep && result.data == old(result.data)
      ensures old(Rest()) != [] ==>
                match old(Rest())[0]
                case Fault(e) => r == e && r != FINISHED && r != GOT_ROW
                case Pair(row) =>
                  && (r == GOT_ROW || (r == STORAGE_ERROR && assign))
                  && (r == GOT_ROW ==>
                        && joinRow[..] == row && !indexStep && old(Rest()) == [Pair(row)] + Rest()
                        && RowOf(origins, leftRow[..], rightRow[..], row)
                        && leftRow[..] == task.left[tupleId] && rightRow[..] in task.right
                        && result.data == if assign then old(result.data) + Veiled(row) else old(result.data))
    {
      hide Task.Resume, Task.From, Joined, StandsAt, RowOf;
      r := FindHit();
      if r != OK {
        return;
      }
      OneHit(task, tupleId, remaining);
      r := InnerStep();
      if r == GOT_ROW {
        JoinedIsRowOf(origins, leftRow[..], rightRow[..]);
      }
    }

    /** One call, after `rows` have been delivered. */
    method Fetch(ghost rows: seq<Row>) returns (r: Result, row: Row)
      requires Valid() && task.Valid() && task.From(0) == Pairs(rows) + Rest()
      requires assign ==> Holds(rows)
      modifies leftRow, rightRow, joinRow, result, this`tupleId, this`indexStep, this`currentRow, this`remaining
      ensures Valid()
      ensures r == GOT_ROW ==>
                && task.From(0) == Pairs(rows + [row]) + Rest() && |Rest()| < old(|Rest()|)
                && (assign ==> Holds(rows + [row]))
      ensures r == FINISHED ==> task.From(0) == Pairs(rows) && (assign ==> Holds(rows))
      ensures r != GOT_ROW && r != FINISHED ==>
                Pairs(rows) + [Fault(r)] <= task.From(0) || (assign && r == STORAGE_ERROR && Pairs(rows) <= task.From(0))
    {
      hide Task.Resume, Task.From, Task.Valid, Pairs, Rows, RowCount;
      ghost var data, rest := result.data, Rest();
      if rest != [] {
        OneItem(rows, rest);
      }
      r := Next();
      row := joinRow[..];
      if r == GOT_ROW && assign {
        AppendAddsRow(data, result.rowLength, row);
      }
    }

    /** Calls relation_process_join until it stops delivering rows. */
    method FetchAll() returns (r: Result, rows: seq<Row>)
      requires Valid() && task.Valid() && indexStep
      requires assign ==> result.data == []
      modifies leftRow, rightRow, joinRow, result, this`tupleId, this`indexStep, this`currentRow, this`remaining
      ensures r == FINISHED ==> task.From(0) == Pairs(rows) && (assign ==> Holds(rows))
      ensures r != FINISHED ==>
                Pairs(rows) + [Fault(r)] <= task.From(0) || (assign && r == STORAGE_ERROR && Pairs(rows) <= task.From(0))
    {
      hide Task.Resume, Task.From, Task.Valid;
      rows := [];
      assert Rows([], result.rowLength) == [];
      while true
        invariant Valid() && task.From(0) == Pairs(rows) + Rest()
        invariant assign ==> Holds(rows)
        decreases |Rest()|
      {
        var row;
        r, row := Fetch(rows);
        if r != GOT_ROW {
          return;
        }
        rows := rows + [row];
      }
    }

    ghost predicate Holds(rows: seq<Row>)
      reads result
    {
      |result.data| == RowCount(result.data, result.rowLength) * result.rowLength && Rows(result.data, result.rowLength) == rows
    }
  }
}
