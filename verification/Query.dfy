/** A query being processed (apps/antelope/relation.c, relation_process_select), with the buffers and the
  * handle that its calls update, and the loop of calls that drains it (apps/antelope/index.c). */
module Query {
  import opened LvmCode
  import opened LvmAssembler
  import opened LvmMachine
  import opened Storage
  import opened InlineIndex
  import opened Selection

  /** The rows with the given numbers. */
  function Pick(rows: seq<Row>, ids: seq<nat>): (r: seq<Row>)
    requires forall i | 0 <= i < |ids| :: ids[i] < |rows|
    ensures |r| == |ids| && forall i | 0 <= i < |r| :: r[i] == rows[ids[i]]
  {
    seq(|ids|, i requires 0 <= i < |ids| => rows[ids[i]])
  }

  function UpTo(n: nat): (r: seq<nat>)
    ensures |r| == n && forall i | 0 <= i < n :: r[i] == i
  {
    seq(n, i => i)
  }

  lemma NextInOrder(n: nat)
    ensures UpTo(n) + [n] == UpTo(n + 1)
  {
  }

  class Query {
    const file: TupleFile
    const result: TupleFile
    const columns: seq<Column>
    const p: Machine
    const index: Iterator?
    const inverse: bool
    const assign: bool
    const row: array<Byte>
    const resultRow: array<Byte>
    var tupleId: nat
    var currentRow: nat
    ghost const plan: Plan

    /** The rows of the source relation. */
    ghost function Source(): (rows: seq<Row>)
      reads file
      ensures forall i | 0 <= i < |rows| :: |rows[i]| == file.rowLength
    {
      Rows(file.data, file.rowLength)
    }

    /** The variable table gives every row the verdict that the plan gives it. */
    ghost predicate Faithful(values: seq<int>)
      requires |values| == |plan.names| && plan.Valid(file.rowLength)
    {
      forall r: Row {:trigger WithAttributes(plan.names, values, plan.columns, r)} | |r| == file.rowLength ::
        WithAttributes(plan.names, values, plan.columns, r) == WithAttributes(plan.names, plan.values, plan.columns, r)
    }

    ghost predicate Valid()
      reads this, file, p, p.code, index
    {
      && file != result && row != resultRow && (p.code as object) != row && (p.code as object) != resultRow
      && row.Length == file.rowLength > 0
      && resultRow.Length == result.rowLength == Width(columns) && result.rowLength > 0
      && plan.Valid(file.rowLength) && plan.columns == columns
      && plan.wanted == (if inverse then FALSE else TRUE)
      && p.code[..] == plan.code && p.names == plan.names && |p.values| == |plan.names|
      && Faithful(p.values)
      && (index != null ==> index.Valid() && |index.column| == |Source()|)
    }

    constructor (file: TupleFile, result: TupleFile, columns: seq<Column>, p: Machine, index: Iterator?, inverse: bool, assign: bool)
      requires file != result && file.rowLength > 0 && result.rowLength == Width(columns) > 0
      requires |p.values| == |p.names| && WellFormedMap(columns, file.rowLength)
      requires index != null ==> index.Valid() && |index.column| == |Rows(file.data, file.rowLength)|
      ensures Valid() && tupleId == 0 && fresh(row) && fresh(resultRow)
      ensures this.file == file && this.result == result && this.columns == columns && this.p == p && this.index == index
      ensures this.inverse == inverse && this.assign == assign
      ensures plan == Plan(p.code[..], p.names, p.values, columns, if inverse then FALSE else TRUE)
    {
      this.file, this.result, this.columns, this.p, this.index := file, result, columns, p, index;
      this.inverse, this.assign := inverse, assign;
      row := new Byte[file.rowLength](_ => 0);
      resultRow := new Byte[result.rowLength](_ => 0);
      tupleId, currentRow := 0, 0;
      plan := Plan(p.code[..], p.names, p.values, columns, if inverse then FALSE else TRUE);
    }

    /** memcpy from the source row to the result row. */
    method Copy(to: nat, from: nat, size: nat)
      requires row != resultRow && to + size <= resultRow.Length && from + size <= row.Length
      modifies resultRow
      ensures resultRow[..to] == old(resultRow[..to]) && resultRow[to..to + size] == row[from..from + size]
    {
      forall i | 0 <= i < size {
        resultRow[to + i] := row[from + i];
      }
    }

    /** What the first i attributes have left in the result row, whose next free byte is `to`. */
    ghost predicate Copied(i: nat, to: nat)
      requires i <= |columns| && WellFormedMap(columns, row.Length)
      reads row, resultRow
    {
      CopiedTo(columns, i, to, row[..], resultRow[..])
    }

    /** The loop over the attribute map: every attribute enters the variable table, and the stored ones
      * are copied to the result row. */
    method ProcessAttributes()
      requires WellFormedMap(columns, row.Length) && resultRow.Length == Width(columns) && row != resultRow
      requires |p.values| == |p.names|
      modifies p`values, resultRow
      ensures p.values == WithAttributes(p.names, old(p.values), columns, row[..])
      ensures resultRow[..StoredWidth(columns)] == Projection(columns, row[..])
    {
      var to := 0;
      for i := 0 to |columns|
        invariant |p.values| == |p.names| && Copied(i, to)
        invariant p.values == WithAttributes(p.names, old(p.values), columns[..i], row[..])
      {
        assert columns[..i + 1][..i] == columns[..i];
        EnterAttribute(columns[i]);
        to := CopyAttribute(i, to);
      }
      assert columns[..|columns|] == columns;
    }

    method CopyAttribute(i: nat, to: nat) returns (next: nat)
      requires i < |columns| && WellFormedMap(columns, row.Length) && resultRow.Length == Width(columns) && row != resultRow
      requires Copied(i, to)
      modifies resultRow
      ensures Copied(i + 1, next)
    {
      hide CopiedTo, Width, StoredWidth, Projection;
      var c := columns[i];
      next := to + c.size;
      CopyFits(columns, i, to, row[..], resultRow[..]);
      ghost var before := resultRow[..];
      if c.stored {
        Copy(to, c.offset, c.size);
      }
      CopyStep(columns, i, to, row[..], before, resultRow[..]);
    }

    method EnterAttribute(c: Column)
      requires c.Fits(row.Length) && |p.values| == |p.names|
      modifies p`values
      ensures p.values == WithAttribute(p.names, old(p.values), c, row[..])
    {
      if c.domain != STRING {
        var value := Decode(c);
        var _ := p.SetVariableValue(c.name, value);
      }
    }

    method Decode(c: Column) returns (x: nat)
      requires c.Fits(row.Length)
      ensures x == Decoded(Bytes(c, row[..]))
    {
      x := 0;
      var b := row[c.offset..c.offset + c.size];
      for i := 0 to c.size
        invariant x == Decoded(b[..i])
      {
        assert b[..i + 1][..i] == b[..i];
        x := x * 256 + b[i] as nat;
      }
      assert b[..c.size] == b;
    }

    /** One source row: fetch it, evaluate the predicate, and deliver or skip it. */
    method ProcessRow(id: nat) returns (r: Result)
      requires Valid()
      modifies this`currentRow, p`ip, p`values, row, resultRow, result
      ensures Valid()
      ensures id >= |Source()| ==> r == FINISHED && result.data == old(result.data)
      ensures id < |Source()| ==>
                && (plan.Accepts(Source()[id]) ==> r == GOT_ROW || (r == STORAGE_ERROR && assign))
                && (!plan.Accepts(Source()[id]) ==> r == OK)
                && (r == GOT_ROW ==>
                      && resultRow[..StoredWidth(columns)] == Projection(columns, Source()[id])
                      && result.data == if assign then old(result.data) + Veiled(resultRow[..]) else old(result.data))
                && (r == OK ==> result.data == old(result.data))
    {
      var got := file.GetRow(id, row);
      if got != OK {
        return FINISHED;
      }
      var status := Evaluate();
      if status != (if inverse then FALSE else TRUE) {
        return OK;
      }
      r := Deliver();
    }

    /** The verdict on the row in the buffer, and its projection. */
    method Evaluate() returns (status: Status)
      requires Valid()
      modifies p`ip, p`values, resultRow
      ensures Valid() && |row[..]| == file.rowLength
      ensures status == plan.Verdict(row[..])
      ensures resultRow[..StoredWidth(columns)] == Projection(columns, row[..])
    {
      ghost var values := p.values;
      ProcessAttributes();
      StaysFaithful(values, row[..]);
      status := p.Execute();
    }

    method Deliver() returns (r: Result)
      requires resultRow.Length == result.rowLength > 0 && result != file && row != resultRow
      modifies this`currentRow, resultRow, result
      ensures resultRow[..] == old(resultRow[..])
      ensures r == GOT_ROW || (r == STORAGE_ERROR && assign)
      ensures r == GOT_ROW ==> result.data == if assign then old(result.data) + Veiled(resultRow[..]) else old(result.data)
    {
      if assign {
        var put := result.PutRow(resultRow);
        if put == STORAGE_ERROR {
          return STORAGE_ERROR;
        }
      }
      currentRow := currentRow + 1;
      return GOT_ROW;
    }

    /** The source rows looked at so far. */
    ghost predicate Progress(seen: seq<nat>)
      reads this, file, index
    {
      && (forall i | 0 <= i < |seen| :: seen[i] < |Source()|)
      && (if index == null then tupleId <= |Source()| && seen == UpTo(tupleId)
          else if index.nextItem == 0 then seen == []
          else index.nextItem <= |Visited(index.first, index.last)| && seen == Visited(index.first, index.last)[..index.nextItem])
    }

    /** The calls are over: all rows, or all rows of the index range, have been looked at.  An equality
      * search for a value that the index does not hold ends in an error. */
    ghost predicate Complete(r: Result, seen: seq<nat>)
      reads this, file, index
    {
      if index == null then r == FINISHED && seen == UpTo(|Source()|)
      else if index.low == index.high && index.low !in index.column then r == INDEX_ERROR && seen == []
      else
        && r == FINISHED && seen == Visited(index.first, index.last)
        && Nearest(index.column, index.low, index.first) && Nearest(index.column, index.high, index.last)
    }

    ghost function Left(): int
      reads this, file, index
    {
      |Source()| - if index == null then tupleId else index.nextItem
    }

    /** index_get_next, and what it means for the query. */
    method NextFromIndex(ghost seen: seq<nat>) returns (next: Maybe)
      requires index != null && index.Valid() && |index.column| == |Source()| && Progress(seen)
      modifies index
      ensures index.Valid()
      ensures next.Invalid? ==> Complete(if index.nextItem == 0 then INDEX_ERROR else FINISHED, seen)
      ensures next.Found? ==> next.row < |Source()| && Progress(seen + [next.row]) && 0 <= Left() < old(Left())
    {
      ghost var before := index.nextItem;
      next := index.GetNext();
      if next.Found? {
        ghost var all := Visited(index.first, index.last);
        assert all[..before + 1] == all[..before] + [all[before]];
      }
    }

    /** One call of relation_process_select; `visited` is the source row that it looked at, if any. */
    method Process(ghost seen: seq<nat>) returns (r: Result, ghost visited: seq<nat>)
      requires Valid() && Progress(seen)
      modifies this`currentRow, this`tupleId, index, p`ip, p`values, row, resultRow, result
      ensures Valid()
      ensures visited == [] ==> Complete(r, seen) && result.data == old(result.data)
      ensures visited != [] ==>
                && |visited| == 1 && visited[0] < |Source()| && Progress(seen + visited) && 0 <= Left() < old(Left())
                && (plan.Accepts(Source()[visited[0]]) ==> r == GOT_ROW || (r == STORAGE_ERROR && assign))
                && (!plan.Accepts(Source()[visited[0]]) ==> r == OK)
                && (r == GOT_ROW ==>
                      && resultRow[..StoredWidth(columns)] == Projection(columns, Source()[visited[0]])
                      && result.data == if assign then old(result.data) + Veiled(resultRow[..]) else old(result.data))
                && (r == OK ==> result.data == old(result.data))
    {
      hide Plan.Accepts, Projection, Veiled, Visited, Nearest, Pick, WellFormedMap, Query.Faithful;
      NextInOrder(tupleId);
      if index != null {
        var next := NextFromIndex(seen);
        if next == Invalid {
          return if index.nextItem == 0 then INDEX_ERROR else FINISHED, [];
        }
        tupleId := next.row;
      }
      visited := if tupleId < |Source()| then [tupleId] else [];
      r := ProcessRow(tupleId);
      tupleId := tupleId + 1;
    }

    /** The rows stored in the result relation are the rows delivered. */
    ghost predicate Stored(rows: seq<Row>)
      reads result
    {
      |result.data| == RowCount(result.data, result.rowLength) * result.rowLength && Rows(result.data, result.rowLength) == rows
    }

    /** One call, and the row that it delivers. */
    method Fetch(ghost seen: seq<nat>) returns (r: Result, got: seq<Row>, ghost visited: seq<nat>)
      requires Valid() && Progress(seen)
      modifies this`currentRow, this`tupleId, index, p`ip, p`values, row, resultRow, result
      ensures Valid()
      ensures visited == [] ==> Complete(r, seen) && got == [] && result.data == old(result.data) && r != OK && r != GOT_ROW
      ensures visited != [] ==>
                && |visited| == 1 && visited[0] < |Source()| && Progress(seen + visited) && 0 <= Left() < old(Left())
                && (r == OK || r == GOT_ROW || (r == STORAGE_ERROR && assign))
                && (r != STORAGE_ERROR ==>
                      got == if plan.Accepts(Source()[visited[0]]) then [Projection(columns, Source()[visited[0]])] else [])
                && (r != STORAGE_ERROR && got == [] ==> result.data == old(result.data))
                && (r != STORAGE_ERROR && got != [] && StoredWidth(columns) == Width(columns) ==>
                      result.data == if assign then old(result.data) + Veiled(got[0]) else old(result.data))
    {
      r, visited := Process(seen);
      got := if r == GOT_ROW then [resultRow[..StoredWidth(columns)]] else [];
      assert StoredWidth(columns) == resultRow.Length ==> resultRow[..StoredWidth(columns)] == resultRow[..];
    }

    /** Calls relation_process_select until it delivers no more rows, as db_indexer does. */
    method FetchAll() returns (r: Result, rows: seq<Row>, ghost seen: seq<nat>)
      requires Valid() && Progress([])
      requires assign ==> result.data == [] && StoredWidth(columns) == Width(columns)
      modifies this`currentRow, this`tupleId, index, p`ip, p`values, row, resultRow, result
      ensures r == STORAGE_ERROR ==> assign
      ensures r != STORAGE_ERROR ==>
                && Complete(r, seen) && (forall i | 0 <= i < |seen| :: seen[i] < |Source()|)
                && rows == Deliveries(plan, Source(), seen)
                && (assign ==> Stored(rows))
    {
      rows, seen := [], [];
      ghost var source := Source();
      assert Rows([], result.rowLength) == [];
      while true
        invariant Valid() && Progress(seen) && Source() == source
        invariant rows == Deliveries(plan, source, seen)
        invariant assign ==> Stored(rows)
        decreases Left()
      {
        ghost var data := result.data;
        var got;
        ghost var visited;
        r, got, visited := Fetch(seen);
        if r != OK && r != GOT_ROW {
          return;
        }
        assert visited == [visited[0]];
        DeliverNext(plan, source, seen, visited[0]);
        if assign {
          StoreNext(data, result.data, result.rowLength, rows, got);
        }
        rows, seen := rows + got, seen + visited;
      }
    }

    lemma StaysFaithful(values: seq<int>, first: Row)
      requires |values| == |plan.names| && plan.Valid(file.rowLength) && |first| == file.rowLength && Faithful(values)
      ensures Faithful(WithAttributes(plan.names, values, plan.columns, first))
    {
      var later := WithAttributes(plan.names, values, plan.columns, first);
      forall r: Row {:trigger WithAttributes(plan.names, later, plan.columns, r)} | |r| == file.rowLength
        ensures WithAttributes(plan.names, later, plan.columns, r) ==
                WithAttributes(plan.names, plan.values, plan.columns, r)
      {
        Overwritten(plan.names, values, plan.columns, first, r);
      }
    }
  }

  /** What a plan delivers for the given rows of a source. */
  function Deliveries(plan: Plan, source: seq<Row>, seen: seq<nat>): seq<Row>
    requires forall i | 0 <= i < |source| :: plan.Valid(|source[i]|)
    requires forall i | 0 <= i < |seen| :: seen[i] < |source|
  {
    plan.Results(Pick(source, seen))
  }

  lemma DeliverNext(plan: Plan, source: seq<Row>, seen: seq<nat>, id: nat)
    requires forall i | 0 <= i < |source| :: plan.Valid(|source[i]|)
    requires id < |source| && forall i | 0 <= i < |seen| :: seen[i] < |source|
    ensures Deliveries(plan, source, seen + [id]) ==
            Deliveries(plan, source, seen) +
            if plan.Accepts(source[id]) then [Projection(plan.columns, source[id])] else []
  {
    var all := Pick(source, seen + [id]);
    assert all[..|all| - 1] == Pick(source, seen);
  }

  /** Storing the row that was delivered keeps the stored rows equal to the delivered ones. */
  lemma StoreNext(data: seq<Byte>, after: seq<Byte>, n: nat, rows: seq<Row>, got: seq<Row>)
    requires n > 0 && |got| <= 1 && (got != [] ==> |got[0]| == n)
    requires |data| == RowCount(data, n) * n && Rows(data, n) == rows
    requires after == if got == [] then data else data + Veiled(got[0])
    ensures |after| == RowCount(after, n) * n && Rows(after, n) == rows + got
  {
    if got == [] {
      assert rows + got == rows;
    } else {
      AppendAddsRow(data, n, got[0]);
    }
  }

  lemma {:induction false} WidthGrows(columns: seq<Column>, i: nat)
    requires i <= |columns|
    ensures Width(columns[..i]) <= Width(columns)
    decreases |columns|
  {
    if i == |columns| {
      assert columns[..i] == columns;
    } else {
      var k := |columns| - 1;
      assert columns[..k][..i] == columns[..i];
      WidthGrows(columns[..k], i);
    }
  }

  /** What the first i columns have left in a result row, whose next free byte is `to`. */
  ghost predicate CopiedTo(columns: seq<Column>, i: nat, to: nat, row: Row, out: Row)
    requires i <= |columns| && WellFormedMap(columns, |row|)
  {
    && StoredWidth(columns[..i]) <= to == Width(columns[..i]) <= |out|
    && ((forall j | 0 <= j < i :: columns[j].stored) ==> StoredWidth(columns[..i]) == to)
    && out[..StoredWidth(columns[..i])] == Projection(columns[..i], row)
  }

  /** How one more column changes the widths and the projection. */
  lemma MapStep(columns: seq<Column>, i: nat, row: Row)
    requires i < |columns| && forall j | 0 <= j < |columns| :: columns[j].Fits(|row|)
    ensures Width(columns[..i + 1]) == Width(columns[..i]) + columns[i].size
    ensures StoredWidth(columns[..i + 1]) == StoredWidth(columns[..i]) + if columns[i].stored then columns[i].size else 0
    ensures Projection(columns[..i + 1], row) ==
            Projection(columns[..i], row) + if columns[i].stored then Bytes(columns[i], row) else []
  {
    assert columns[..i + 1][..i] == columns[..i];
  }

  lemma CopyFits(columns: seq<Column>, i: nat, to: nat, row: Row, out: Row)
    requires i < |columns| && WellFormedMap(columns, |row|) && |out| == Width(columns) && CopiedTo(columns, i, to, row, out)
    ensures to + columns[i].size <= |out|
  {
    hide StoredWidth, Projection, Width;
    MapStep(columns, i, row);
    WidthGrows(columns, i + 1);
  }

  /** One more column: it is copied if it is stored. */
  lemma CopyStep(columns: seq<Column>, i: nat, to: nat, row: Row, out: Row, after: Row)
    requires i < |columns| && WellFormedMap(columns, |row|) && |after| == |out| && CopiedTo(columns, i, to, row, out)
    requires to + columns[i].size <= |out|
    requires if columns[i].stored then after[..to] == out[..to] && after[to..to + columns[i].size] == Bytes(columns[i], row) else after == out
    ensures CopiedTo(columns, i + 1, to + columns[i].size, row, after)
  {
    hide StoredWidth, Projection, Width;
    MapStep(columns, i, row);
    if columns[i].stored {
      assert forall j | 0 <= j < i :: columns[j].stored;
      assert after[..to + columns[i].size] == after[..to] + after[to..to + columns[i].size];
    }
  }
}
