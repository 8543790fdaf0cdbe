/** Selection of rows (apps/antelope/relation.c). */
module Selection {
  // What one call of relation_process_select does, and what the calls of a whole query deliver.

  import opened LvmCode
  import opened LvmAssembler
  import opened LvmMachine
  import opened Storage
  import opened InlineIndex

  datatype Domain = INT | LONG | STRING

  /** An entry of the attribute map: an attribute of the result relation and where its bytes are in the
    * source row.  An attribute that only the predicate uses is not stored. */
  datatype Column = Column(name: string, domain: Domain, offset: nat, size: nat, stored: bool) {
    predicate Fits(n: nat) {
      offset + size <= n && (domain == INT ==> size == 2) && (domain == LONG ==> size == 4)
    }
  }

  function Bytes(c: Column, row: Row): (b: seq<Byte>)
    requires c.Fits(|row|)
    ensures |b| == c.size
  {
    row[c.offset..c.offset + c.size]
  }

  /** Every column lies inside the source row, and the stored columns come first. */
  predicate WellFormedMap(columns: seq<Column>, n: nat) {
    && (forall i | 0 <= i < |columns| :: columns[i].Fits(n))
    && (forall i, j | 0 <= i < j < |columns| && columns[j].stored :: columns[i].stored)
  }

  function Width(columns: seq<Column>): nat {
    if columns == [] then 0 else Width(columns[..|columns| - 1]) + columns[|columns| - 1].size
  }

  function StoredWidth(columns: seq<Column>): (w: nat)
    ensures w <= Width(columns)
  {
    if columns == [] then 0
    else StoredWidth(columns[..|columns| - 1]) +
         if columns[|columns| - 1].stored then columns[|columns| - 1].size else 0
  }

  /** The variable table after one attribute has been entered. */
  function WithAttribute(names: seq<string>, values: seq<int>, c: Column, row: Row): (r: seq<int>)
    requires |values| == |names| && c.Fits(|row|)
    ensures |r| == |values|
  {
    var id := Lookup(names, c.name);
    if c.domain == STRING || id == |names| then values else values[id := Decoded(Bytes(c, row))]
  }

  function WithAttributes(names: seq<string>, values: seq<int>, columns: seq<Column>, row: Row): (r: seq<int>)
    requires |values| == |names| && forall i | 0 <= i < |columns| :: columns[i].Fits(|row|)
    ensures |r| == |values|
  {
    if columns == [] then values
    else
      var k := |columns| - 1;
      WithAttribute(names, WithAttributes(names, values, columns[..k], row), columns[k], row)
  }

  /** The bytes of the stored columns. */
  function Projection(columns: seq<Column>, row: Row): (r: Row)
    requires forall i | 0 <= i < |columns| :: columns[i].Fits(|row|)
    ensures |r| == StoredWidth(columns)
  {
    if columns == [] then []
    else
      var k := |columns| - 1;
      Projection(columns[..k], row) + if columns[k].stored then Bytes(columns[k], row) else []
  }

  // ---------------------------------------------------------------- what a query delivers

  /** A query: the code of its predicate, the variable table, the attribute map, and the outcome that a
    * row must have (TRUE for SELECT, FALSE for REMOVE). */
  datatype Plan = Plan(code: seq<Node>, names: seq<string>, values: seq<int>, columns: seq<Column>, wanted: Status) {
    predicate Valid(n: nat) {
      |values| == |names| && WellFormedMap(columns, n)
    }

    function Verdict(row: Row): Status
      requires Valid(|row|)
    {
      Execution(code, WithAttributes(names, values, columns, row)).status
    }

    predicate Accepts(row: Row)
      requires Valid(|row|)
    {
      Verdict(row) == wanted
    }

    /** The rows delivered for a sequence of source rows, in order. */
    function Results(rows: seq<Row>): seq<Row>
      requires forall i | 0 <= i < |rows| :: Valid(|rows[i]|)
    {
      if rows == [] then []
      else
        var k := |rows| - 1;
        Results(rows[..k]) + if Accepts(rows[k]) then [Projection(columns, rows[k])] else []
    }
  }

  lemma {:induction false} ResultsConcat(q: Plan, a: seq<Row>, b: seq<Row>)
    requires forall i | 0 <= i < |a| :: q.Valid(|a[i]|)
    requires forall i | 0 <= i < |b| :: q.Valid(|b[i]|)
    ensures q.Results(a + b) == q.Results(a) + q.Results(b)
    decreases |b|
  {
    if b == [] {
      assert a + b == a;
    } else {
      var k := |b| - 1;
      ResultsConcat(q, a, b[..k]);
      assert (a + b)[..|a + b| - 1] == a + b[..k];
    }
  }

  lemma {:induction false} NoResults(q: Plan, a: seq<Row>)
    requires forall i | 0 <= i < |a| :: q.Valid(|a[i]|) && !q.Accepts(a[i])
    ensures q.Results(a) == []
    decreases |a|
  {
    if a != [] {
      NoResults(q, a[..|a| - 1]);
    }
  }

  /** Which slots the attribute map writes does not depend on what was in them: after any row, the next
    * row sees the same values as it would have seen first. */
  lemma {:induction false} Overwritten(names: seq<string>, v: seq<int>, columns: seq<Column>, before: Row, row: Row)
    requires |v| == |names| && (forall i | 0 <= i < |columns| :: columns[i].Fits(|row|) && columns[i].Fits(|before|))
    ensures WithAttributes(names, WithAttributes(names, v, columns, before), columns, row) ==
            WithAttributes(names, v, columns, row)
  {
    var w := WithAttributes(names, v, columns, before);
    forall i | 0 <= i < |v|
      ensures WithAttributes(names, w, columns, row)[i] == WithAttributes(names, v, columns, row)[i]
    {
      if Touched(names, columns, i) {
        TouchedSlot(names, v, w, columns, row, i);
      } else {
        UntouchedSlot(names, v, columns, before, i);
        UntouchedSlot(names, v, columns, row, i);
        UntouchedSlot(names, w, columns, row, i);
      }
    }
  }

  predicate Writes(names: seq<string>, c: Column, i: nat) {
    c.domain != STRING && Lookup(names, c.name) == i < |names|
  }

  predicate Touched(names: seq<string>, columns: seq<Column>, i: nat) {
    exists k :: 0 <= k < |columns| && Writes(names, columns[k], i)
  }

  lemma {:induction false} TouchedSlot(names: seq<string>, v: seq<int>, w: seq<int>, columns: seq<Column>, row: Row, i: nat)
    requires |v| == |w| == |names| && i < |v| && (forall k | 0 <= k < |columns| :: columns[k].Fits(|row|))
    requires Touched(names, columns, i)
    ensures WithAttributes(names, v, columns, row)[i] == WithAttributes(names, w, columns, row)[i]
    decreases |columns|
  {
    var k := |columns| - 1;
    if !Writes(names, columns[k], i) {
      var j :| 0 <= j < |columns| && Writes(names, columns[j], i);
      assert columns[..k][j] == columns[j];
      TouchedSlot(names, v, w, columns[..k], row, i);
    }
  }

  lemma {:induction false} UntouchedSlot(names: seq<string>, v: seq<int>, columns: seq<Column>, row: Row, i: nat)
    requires |v| == |names| && i < |v| && (forall k | 0 <= k < |columns| :: columns[k].Fits(|row|))
    requires !Touched(names, columns, i)
    ensures WithAttributes(names, v, columns, row)[i] == v[i]
    decreases |columns|
  {
    if columns != [] {
      var k := |columns| - 1;
      assert !Writes(names, columns[k], i);
      assert forall j | 0 <= j < k :: columns[..k][j] == columns[j];
      UntouchedSlot(names, v, columns[..k], row, i);
    }
  }
}
