/** What SELECT and REMOVE deliver (apps/antelope/relation.c). */
module Retrieval {
  // With a usable inline index the same rows in the same order as a scan of the whole relation; and a REMOVE keeps
  // exactly the rows that do not satisfy the predicate.

  import opened LvmCode
  import opened LvmAssembler
  import opened LvmRanges
  import opened LvmMachine
  import opened Storage
  import opened InlineIndex
  import opened Selection
  import opened Query

  // ---------------------------------------------------------------- choice of the index

  datatype IndexedAttribute = IndexedAttribute(name: string, indexed: bool)

  /** The range that the engine has derived for a name. */
  function RangeFor(names: seq<string>, ranges: seq<Range>, n: string): Range
    requires |ranges| == |names|
  {
    if names == [] then Free else if names[0] == n then ranges[0] else RangeFor(names[1..], ranges[1..], n)
  }

  predicate Suitable(a: IndexedAttribute, names: seq<string>, ranges: seq<Range>)
    requires |ranges| == |names|
  {
    a.indexed && RangeFor(names, ranges, a.name).Within?
  }

  lemma {:induction false} RangeForFirst(names: seq<string>, ranges: seq<Range>, n: string, i: nat)
    requires |ranges| == |names| && i < |names| && names[i] == n && forall j | 0 <= j < i :: names[j] != n
    ensures RangeFor(names, ranges, n) == ranges[i]
  {
    if i > 0 {
      RangeForFirst(names[1..], ranges[1..], n, i - 1);
    }
  }

  lemma {:induction false} RangeForNone(names: seq<string>, ranges: seq<Range>, n: string)
    requires |ranges| == |names| && forall j | 0 <= j < |names| :: names[j] != n
    ensures RangeFor(names, ranges, n) == Free
  {
    if names != [] {
      RangeForNone(names[1..], ranges[1..], n);
    }
  }

  /** select_index.  The least range seen is never recorded, so the last suitable attribute is chosen,
    * whatever the sizes of the ranges. */
  method SelectIndex(attributes: seq<IndexedAttribute>, p: Machine) returns (chosen: int, range: Range)
    requires |p.ranges| == |p.names|
    ensures -1 <= chosen < |attributes|
    ensures forall j | chosen < j < |attributes| :: !Suitable(attributes[j], p.names, p.ranges)
    ensures chosen >= 0 ==>
              Suitable(attributes[chosen], p.names, p.ranges) && range == RangeFor(p.names, p.ranges, attributes[chosen].name)
  {
    chosen, range := -1, Free;
    for i := 0 to |attributes|
      invariant -1 <= chosen < i
      invariant forall j | chosen < j < i :: !Suitable(attributes[j], p.names, p.ranges)
      invariant chosen >= 0 ==>
                  Suitable(attributes[chosen], p.names, p.ranges) && range == RangeFor(p.names, p.ranges, attributes[chosen].name)
    {
      if attributes[i].indexed {
        var status, r := p.GetDerivedRange(attributes[i].name);
        RangeLookup(p.names, p.ranges, attributes[i].name);
        if status == TRUE {
          chosen, range := i, r;
        }
      }
    }
  }

  lemma RangeLookup(names: seq<string>, ranges: seq<Range>, n: string)
    requires |ranges| == |names|
    ensures forall i | 0 <= i < |names| && names[i] == n && (forall j | 0 <= j < i :: names[j] != n) ::
              RangeFor(names, ranges, n) == ranges[i]
    ensures (forall i | 0 <= i < |names| :: names[i] != n) ==> RangeFor(names, ranges, n) == Free
  {
    forall i | 0 <= i < |names| && names[i] == n && (forall j | 0 <= j < i :: names[j] != n)
      ensures RangeFor(names, ranges, n) == ranges[i]
    {
      RangeForFirst(names, ranges, n, i);
    }
    if forall i | 0 <= i < |names| :: names[i] != n {
      RangeForNone(names, ranges, n);
    }
  }

  // ---------------------------------------------------------------- indexed selection

  /** The values of an attribute in the rows of a relation. */
  function ColumnOf(c: Column, source: seq<Row>): (column: seq<int>)
    requires forall i | 0 <= i < |source| :: c.Fits(|source[i]|)
    ensures |column| == |source|
  {
    seq(|source|, i requires 0 <= i < |source| => Decoded(Bytes(c, source[i])))
  }

  lemma DecodedBound(b: seq<Byte>)
    requires |b| <= 4
    ensures Decoded(b) < if |b| == 0 then 1 else if |b| == 1 then 0x100 else if |b| == 2 then 0x1_0000
                         else if |b| == 3 then 0x100_0000 else 0x1_0000_0000
  {
    if |b| > 0 {
      DecodedBound(b[..|b| - 1]);
    }
  }

  lemma {:induction false} AttributesAreLongs(names: seq<string>, values: seq<int>, columns: seq<Column>, row: Row)
    requires |values| == |names| && (forall i | 0 <= i < |columns| :: columns[i].Fits(|row|)) && Longs(values)
    ensures Longs(WithAttributes(names, values, columns, row))
    decreases |columns|
  {
    if columns != [] {
      var k := |columns| - 1;
      AttributesAreLongs(names, values, columns[..k], row);
      if columns[k].domain != STRING {
        DecodedBound(Bytes(columns[k], row));
      }
    }
  }

  /** Every column that writes the slot of c reads the same bytes as c. */
  predicate OneSource(names: seq<string>, columns: seq<Column>, c: Column, slot: nat) {
    forall i | 0 <= i < |columns| && Writes(names, columns[i], slot) ::
      columns[i].offset == c.offset && columns[i].size == c.size
  }

  /** The engine sees, in the slot of an attribute, the value that the index sees. */
  lemma {:induction false} SlotHoldsColumn(names: seq<string>, values: seq<int>, columns: seq<Column>, c: Column, slot: nat, row: Row)
    requires |values| == |names| && (forall i | 0 <= i < |columns| :: columns[i].Fits(|row|)) && c.Fits(|row|)
    requires slot < |names| && Touched(names, columns, slot) && OneSource(names, columns, c, slot)
    ensures WithAttributes(names, values, columns, row)[slot] == Decoded(Bytes(c, row))
    decreases |columns|
  {
    var k := |columns| - 1;
    if !Writes(names, columns[k], slot) {
      var j :| 0 <= j < |columns| && Writes(names, columns[j], slot);
      assert columns[..k][j] == columns[j];
      SlotHoldsColumn(names, values, columns[..k], c, slot, row);
    }
  }

  /** A SELECT whose predicate the derivation handles, over a relation with an inline index on column c, whose
    * values never decrease; those at the bounds of the derived range occur at most once. */
  predicate IndexedSelect(q: Plan, p: Pred, c: Column, slot: nat, source: seq<Row>, n: nat) {
    && q.Valid(n) && c.Fits(n) && (forall i | 0 <= i < |source| :: |source[i]| == n)
    && q.wanted == TRUE && Encode(p) <= q.code && Longs(q.values)
    && VariableFirst(p) && Aligned(p) && Derivable(p, |q.names|)
    && slot < |q.names| && Touched(q.names, q.columns, slot) && OneSource(q.names, q.columns, c, slot)
    && var r := Ranges(p, |q.names|)[slot];
       r.Within? && Sorted(ColumnOf(c, source)) && AtMostOnce(ColumnOf(c, source), r.min) && AtMostOnce(ColumnOf(c, source), r.max)
  }

  /** A row that satisfies the predicate has its index value between the derived bounds. */
  lemma AcceptedIsInRange(q: Plan, p: Pred, c: Column, slot: nat, source: seq<Row>, n: nat, i: nat)
    requires IndexedSelect(q, p, c, slot, source, n) && i < |source| && q.Accepts(source[i])
    ensures In(ColumnOf(c, source)[i], Ranges(p, |q.names|)[slot])
  {
    var vars := WithAttributes(q.names, q.values, q.columns, source[i]);
    ExecutionMeaning(q.code, vars, p);
    AttributesAreLongs(q.names, q.values, q.columns, source[i]);
    RangesEnclose(p, |q.names|, vars);
    SlotHoldsColumn(q.names, q.values, q.columns, c, slot, source[i]);
  }

  /** Rows outside a stretch that contains all accepted rows deliver nothing. */
  lemma StretchResults(q: Plan, source: seq<Row>, first: nat, end: nat)
    requires (forall i | 0 <= i < |source| :: q.Valid(|source[i]|)) && first <= end <= |source|
    requires forall i: nat | i < |source| && q.Accepts(source[i]) :: first <= i < end
    ensures q.Results(source[first..end]) == q.Results(source)
  {
    hide Plan.Accepts, Plan.Results, Plan.Valid;
    var before, stretch, after := source[..first], source[first..end], source[end..];
    assert source == before + stretch + after;
    ResultsConcat(q, before + stretch, after);
    ResultsConcat(q, before, stretch);
    assert forall i | 0 <= i < |after| :: after[i] == source[end + i];
    NoResults(q, before);
    NoResults(q, after);
  }

  lemma VisitedIsStretch(source: seq<Row>, first: nat, last: nat) returns (end: nat)
    requires forall i | i in Visited(first, last) :: i < |source|
    ensures first <= end <= |source|
    ensures forall i: nat :: i in Visited(first, last) <==> first <= i < end
    ensures forall i | 0 <= i < |Visited(first, last)| :: Visited(first, last)[i] < |source|
    ensures Pick(source, Visited(first, last)) == source[first..end]
  {
    var ids := Visited(first, last);
    end := first + |ids|;
    assert ids[|ids| - 1] in ids;
    forall i: nat | first <= i < end
      ensures i in ids
    {
      assert ids[i - first] == i;
    }
  }

  lemma AllPicked(source: seq<Row>)
    ensures Pick(source, UpTo(|source|)) == source
  {
  }

  lemma StretchDelivers(q: Plan, source: seq<Row>, first: nat, last: nat)
    requires forall i | 0 <= i < |source| :: q.Valid(|source[i]|)
    requires forall i | i in Visited(first, last) :: i < |source|
    requires forall i: nat | i < |source| && q.Accepts(source[i]) :: i in Visited(first, last)
    ensures forall i | 0 <= i < |Visited(first, last)| :: Visited(first, last)[i] < |source|
    ensures Deliveries(q, source, Visited(first, last)) == Deliveries(q, source, UpTo(|source|))
  {
    hide Plan.Accepts, Plan.Results, Plan.Valid;
    var end := VisitedIsStretch(source, first, last);
    AllPicked(source);
    StretchResults(q, source, first, end);
  }

  /** Indexed SELECT equals full scan: the rows that the iterator visits deliver the same rows, in the
    * same order, as all rows of the relation. */
  lemma IndexedEqualsScan(q: Plan, p: Pred, c: Column, slot: nat, source: seq<Row>, n: nat, first: nat, last: nat)
    requires IndexedSelect(q, p, c, slot, source, n)
    requires var r := Ranges(p, |q.names|)[slot];
             Nearest(ColumnOf(c, source), r.min, first) && Nearest(ColumnOf(c, source), r.max, last)
    ensures forall i | 0 <= i < |Visited(first, last)| :: Visited(first, last)[i] < |source|
    ensures Deliveries(q, source, Visited(first, last)) == Deliveries(q, source, UpTo(|source|))
  {
    var column := ColumnOf(c, source);
    var r := Ranges(p, |q.names|)[slot];
    VisitedCovers(column, r.min, r.max, first, last);
    forall i: nat | i < |source| && q.Accepts(source[i])
      ensures i in Visited(first, last)
    {
      AcceptedIsInRange(q, p, c, slot, source, n, i);
      assert Between(column[i], r.min, r.max);
    }
    StretchDelivers(q, source, first, last);
  }

  /** When the index reports an error because an equality search found nothing, the scan delivers
    * nothing either (but ends with DB_FINISHED). */
  lemma IndexErrorMeansNoRows(q: Plan, p: Pred, c: Column, slot: nat, source: seq<Row>, n: nat)
    requires IndexedSelect(q, p, c, slot, source, n)
    requires var r := Ranges(p, |q.names|)[slot]; r.min == r.max && r.min !in ColumnOf(c, source)
    ensures Deliveries(q, source, UpTo(|source|)) == []
  {
    var column := ColumnOf(c, source);
    AllPicked(source);
    forall i | 0 <= i < |source|
      ensures !q.Accepts(source[i])
    {
      assert column[i] in column;
      if q.Accepts(source[i]) {
        AcceptedIsInRange(q, p, c, slot, source, n, i);
      }
    }
    NoResults(q, source);
  }

  // ---------------------------------------------------------------- removal

  const AQL_ATTRIBUTE_LIMIT := 5

  datatype Attribute = Attribute(name: string, domain: Domain, size: nat) {
    predicate Valid() { size > 0 && (domain == INT ==> size == 2) && (domain == LONG ==> size == 4) }
  }

  function RowWidth(attributes: seq<Attribute>): nat {
    if attributes == [] then 0 else RowWidth(attributes[..|attributes| - 1]) + attributes[|attributes| - 1].size
  }

  /** The attribute map of a REMOVE: all attributes of the relation, as far as the query's attribute
    * array holds them. */
  function RemoveColumns(attributes: seq<Attribute>): (columns: seq<Column>)
    ensures |columns| == if |attributes| <= AQL_ATTRIBUTE_LIMIT then |attributes| else AQL_ATTRIBUTE_LIMIT
  {
    if attributes == [] then []
    else
      var k := |attributes| - 1;
      var a := attributes[k];
      RemoveColumns(attributes[..k]) +
      if k < AQL_ATTRIBUTE_LIMIT then [Column(a.name, a.domain, RowWidth(attributes[..k]), a.size, true)] else []
  }

  /** What holds of the attribute map of a REMOVE. */
  predicate MapsRow(columns: seq<Column>, attributes: seq<Attribute>, row: Row) {
    && MapsPrefix(columns, row) && Width(columns) <= RowWidth(attributes) <= |row|
    && (Width(columns) == RowWidth(attributes) <==> |attributes| <= AQL_ATTRIBUTE_LIMIT)
  }

  /** The columns so far are the first bytes of the row, in order. */
  predicate MapsPrefix(columns: seq<Column>, row: Row) {
    && WellFormedMap(columns, |row|) && StoredWidth(columns) == Width(columns) <= |row|
    && (forall i | 0 <= i < |columns| :: columns[i].stored)
    && Projection(columns, row) == row[..Width(columns)]
  }

  lemma PrefixGrows(before: seq<Column>, c: Column, row: Row)
    requires MapsPrefix(before, row) && c.Fits(|row|) && c.stored && c.offset == Width(before)
    ensures MapsPrefix(before + [c], row) && Width(before + [c]) == Width(before) + c.size
  {
    var columns := before + [c];
    assert columns[..|columns| - 1] == before;
    assert row[..Width(before)] + Bytes(c, row) == row[..Width(columns)];
  }

  lemma MapsOneMore(before: seq<Column>, attributes: seq<Attribute>, row: Row)
    requires 0 < |attributes| <= AQL_ATTRIBUTE_LIMIT && RowWidth(attributes) <= |row|
    requires var k := |attributes| - 1; attributes[k].Valid() && MapsRow(before, attributes[..k], row)
    ensures var k := |attributes| - 1;
            MapsRow(before + [Column(attributes[k].name, attributes[k].domain, RowWidth(attributes[..k]), attributes[k].size, true)],
                    attributes, row)
  {
    hide Width, StoredWidth, Projection, WellFormedMap;
    var k := |attributes| - 1;
    PrefixGrows(before, Column(attributes[k].name, attributes[k].domain, RowWidth(attributes[..k]), attributes[k].size, true), row);
  }

  lemma {:induction false} RemoveMap(attributes: seq<Attribute>, row: Row)
    requires forall i | 0 <= i < |attributes| :: attributes[i].Valid()
    requires RowWidth(attributes) <= |row|
    ensures MapsRow(RemoveColumns(attributes), attributes, row)
    decreases |attributes|
  {
    if attributes != [] {
      var k := |attributes| - 1;
      RemoveMap(attributes[..k], row);
      var before := RemoveColumns(attributes[..k]);
      if k < AQL_ATTRIBUTE_LIMIT {
        MapsOneMore(before, attributes, row);
      } else {
        assert RemoveColumns(attributes) == before;
      }
    }
  }

  /** A REMOVE writes a kept row back byte for byte if and only if the relation has at most
    * AQL_ATTRIBUTE_LIMIT attributes (a relation may have six). */
  lemma RemoveKeepsBytes(attributes: seq<Attribute>, row: Row)
    requires (forall i | 0 <= i < |attributes| :: attributes[i].Valid()) && |row| == RowWidth(attributes)
    ensures WellFormedMap(RemoveColumns(attributes), |row|)
    ensures Projection(RemoveColumns(attributes), row) == row <==> |attributes| <= AQL_ATTRIBUTE_LIMIT
  {
    RemoveMap(attributes, row);
  }

  /** The rows with a given verdict, in order. */
  function WithVerdict(q: Plan, rows: seq<Row>, s: Status): seq<Row>
    requires forall i | 0 <= i < |rows| :: q.Valid(|rows[i]|)
  {
    if rows == [] then []
    else
      var k := |rows| - 1;
      WithVerdict(q, rows[..k], s) + if q.Verdict(rows[k]) == s then [rows[k]] else []
  }

  /** A REMOVE on a relation whose attributes fit stores exactly the rows whose predicate is FALSE. */
  lemma {:induction false} RemoveStores(q: Plan, attributes: seq<Attribute>, rows: seq<Row>)
    requires (forall i | 0 <= i < |attributes| :: attributes[i].Valid()) && |attributes| <= AQL_ATTRIBUTE_LIMIT
    requires q.columns == RemoveColumns(attributes) && q.wanted == FALSE
    requires forall i | 0 <= i < |rows| :: q.Valid(|rows[i]|) && |rows[i]| == RowWidth(attributes)
    ensures q.Results(rows) == WithVerdict(q, rows, FALSE)
    decreases |rows|
  {
    if rows != [] {
      var k := |rows| - 1;
      RemoveStores(q, attributes, rows[..k]);
      RemoveKeepsBytes(attributes, rows[k]);
    }
  }

  /** Some divisor in the predicate is zero for this row. */
  predicate Undefined(q: Plan, p: Pred, row: Row)
    requires q.Valid(|row|)
  {
    !Defined(WithAttributes(q.names, q.values, q.columns, row), p)
  }

  lemma VerdictMeaning(q: Plan, p: Pred, row: Row)
    requires q.Valid(|row|) && Encode(p) <= q.code
    ensures q.Verdict(row) in {TRUE, FALSE, MATH_ERROR}
    ensures q.Verdict(row) == MATH_ERROR <==> Undefined(q, p, row)
  {
    ExecutionMeaning(q.code, WithAttributes(q.names, q.values, q.columns, row), p);
  }

  function If(here: bool, row: Row): multiset<Row> {
    if here then multiset{row} else multiset{}
  }

  lemma OneOfThree(all: multiset<Row>, a: multiset<Row>, b: multiset<Row>, c: multiset<Row>, row: Row, verdict: Status)
    requires all == a + b + c && verdict in {TRUE, FALSE, MATH_ERROR}
    ensures all + multiset{row} ==
            (a + If(verdict == TRUE, row)) + (b + If(verdict == FALSE, row)) + (c + If(verdict == MATH_ERROR, row))
  {
  }

  lemma OneMoreVerdict(q: Plan, rows: seq<Row>, s: Status)
    requires rows != [] && forall i | 0 <= i < |rows| :: q.Valid(|rows[i]|)
    ensures var k := |rows| - 1;
            multiset(WithVerdict(q, rows, s)) ==
            multiset(WithVerdict(q, rows[..k], s)) + If(q.Verdict(rows[k]) == s, rows[k])
  {
    hide Plan.Verdict, Plan.Valid;
  }

  predicate Partitioned(q: Plan, rows: seq<Row>)
    requires forall i | 0 <= i < |rows| :: q.Valid(|rows[i]|)
  {
    multiset(rows) == multiset(WithVerdict(q, rows, TRUE)) + multiset(WithVerdict(q, rows, FALSE))
                      + multiset(WithVerdict(q, rows, MATH_ERROR))
  }

  lemma PartitionGrows(q: Plan, rows: seq<Row>)
    requires rows != [] && (forall i | 0 <= i < |rows| :: q.Valid(|rows[i]|)) && Partitioned(q, rows[..|rows| - 1])
    requires q.Verdict(rows[|rows| - 1]) in {TRUE, FALSE, MATH_ERROR}
    ensures Partitioned(q, rows)
  {
    hide Plan.Verdict, Plan.Valid, WithVerdict, If;
    var k := |rows| - 1;
    OneMoreVerdict(q, rows, TRUE);
    OneMoreVerdict(q, rows, FALSE);
    OneMoreVerdict(q, rows, MATH_ERROR);
    LastRow(rows);
    OneOfThree(multiset(rows[..k]), multiset(WithVerdict(q, rows[..k], TRUE)), multiset(WithVerdict(q, rows[..k], FALSE)),
               multiset(WithVerdict(q, rows[..k], MATH_ERROR)), rows[k], q.Verdict(rows[k]));
  }

  lemma LastRow(rows: seq<Row>)
    requires rows != []
    ensures multiset(rows) == multiset(rows[..|rows| - 1]) + multiset{rows[|rows| - 1]}
  {
    assert rows == rows[..|rows| - 1] + [rows[|rows| - 1]];
  }

  /** Every row is selected, or kept by REMOVE, or its predicate meets a division by zero; in the last
    * case it is neither selected nor kept. */
  lemma {:induction false} RowsArePartitioned(q: Plan, p: Pred, rows: seq<Row>)
    requires Encode(p) <= q.code && forall i | 0 <= i < |rows| :: q.Valid(|rows[i]|)
    ensures Partitioned(q, rows)
    decreases |rows|
  {
    if rows != [] {
      hide Plan.Verdict, Plan.Valid, Partitioned;
      var k := |rows| - 1;
      RowsArePartitioned(q, p, rows[..k]);
      VerdictMeaning(q, p, rows[k]);
      PartitionGrows(q, rows);
    }
  }

  lemma {:induction false} NoErrorsIff(q: Plan, p: Pred, rows: seq<Row>)
    requires Encode(p) <= q.code && forall i | 0 <= i < |rows| :: q.Valid(|rows[i]|)
    ensures WithVerdict(q, rows, MATH_ERROR) == [] <==> forall i | 0 <= i < |rows| :: !Undefined(q, p, rows[i])
    decreases |rows|
  {
    hide Plan.Verdict, Plan.Valid, Undefined;
    if rows != [] {
      var k := |rows| - 1;
      NoErrorsIff(q, p, rows[..k]);
      VerdictMeaning(q, p, rows[k]);
      assert forall i | 0 <= i < k :: rows[..k][i] == rows[i];
    }
  }

  /** Conservation: SELECT's rows and the rows that REMOVE keeps are together all rows, if and only if no
    * row's predicate divides by zero. */
  lemma RemoveConserves(q: Plan, p: Pred, rows: seq<Row>)
    requires Encode(p) <= q.code && forall i | 0 <= i < |rows| :: q.Valid(|rows[i]|)
    ensures multiset(rows) == multiset(WithVerdict(q, rows, TRUE)) + multiset(WithVerdict(q, rows, FALSE)) <==>
            forall i | 0 <= i < |rows| :: !Undefined(q, p, rows[i])
  {
    hide WithVerdict, Undefined, Plan.Valid;
    RowsArePartitioned(q, p, rows);
    NoErrorsIff(q, p, rows);
    var errors := WithVerdict(q, rows, MATH_ERROR);
    var others := multiset(WithVerdict(q, rows, TRUE)) + multiset(WithVerdict(q, rows, FALSE));
    if errors != [] {
      assert multiset(errors)[errors[0]] > 0;
      assert multiset(rows)[errors[0]] > others[errors[0]];
    }
  }
}
