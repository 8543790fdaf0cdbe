/** A whole SELECT (apps/antelope/relation.c). */
module IndexedQuery {
  // The ranges are derived, an index is chosen, and the rows are delivered. They are the same rows in the same
  // order whether an index is used or not.

  import opened LvmCode
  import opened LvmAssembler
  import opened LvmRanges
  import opened LvmMachine
  import opened Storage
  import opened InlineIndex
  import opened Selection
  import opened Query
  import opened Retrieval

  /** The first entry of a name in the variable table is where a lookup finds it. */
  predicate Registered(names: seq<string>, n: string) {
    forall i | 0 <= i < |names| && names[i] == n :: Lookup(names, n) == i
  }

  lemma RangeIsAtLookup(names: seq<string>, ranges: seq<Range>, n: string)
    requires |ranges| == |names| && Registered(names, n) && RangeFor(names, ranges, n).Within?
    ensures Lookup(names, n) < |names| && RangeFor(names, ranges, n) == ranges[Lookup(names, n)]
  {
    hide Lookup;
    RangeLookup(names, ranges, n);
    if i :| 0 <= i < |names| && names[i] == n {
      assert forall j | 0 <= j < i :: names[j] != n;
    }
  }

  /** The inline index on column c, named n, can be used for the predicate: the attribute is in the variable
    * table, and the derived range is one that a search in the index covers. */
  predicate Searchable(q: Plan, p: Pred, n: string, c: Column, source: seq<Row>, width: nat) {
    && Registered(q.names, n)
    && (Derivable(p, |q.names|) && RangeFor(q.names, Ranges(p, |q.names|), n).Within? ==>
          var slot := Lookup(q.names, n);
          && IndexedSelect(q, p, c, slot, source, width)
          && 0 < |source| <= 0xffff_fffe
          && var r := Ranges(p, |q.names|)[slot];
             ColumnOf(c, source)[0] <= r.min && ColumnOf(c, source)[0] <= r.max)
  }

  /** Every indexed attribute has an inline index that can be used if it is chosen. */
  predicate Ready(q: Plan, p: Pred, attributes: seq<IndexedAttribute>, places: seq<Column>, source: seq<Row>, width: nat) {
    |places| == |attributes| &&
    forall j | 0 <= j < |attributes| && attributes[j].indexed ::
      Searchable(q, p, attributes[j].name, places[j], source, width)
  }

  /** What the calls of a query deliver does not depend on whether an index was searched. */
  lemma SameRows(q: Plan, p: Pred, c: Column, slot: nat, source: seq<Row>, width: nat, r: Result, seen: seq<nat>, first: nat, last: nat)
    requires IndexedSelect(q, p, c, slot, source, width)
    requires forall i | 0 <= i < |seen| :: seen[i] < |source|
    requires var range := Ranges(p, |q.names|)[slot];
             if range.min == range.max && range.min !in ColumnOf(c, source) then r == INDEX_ERROR && seen == []
             else r == FINISHED && seen == Visited(first, last)
                  && Nearest(ColumnOf(c, source), range.min, first) && Nearest(ColumnOf(c, source), range.max, last)
    ensures Deliveries(q, source, seen) == q.Results(source)
    ensures r == FINISHED || (r == INDEX_ERROR && q.Results(source) == [])
  {
    hide Plan.Results, Nearest, Sorted, AtMostOnce, Plan.Valid, WellFormedMap, Touched, OneSource;
    AllPicked(source);
    var range := Ranges(p, |q.names|)[slot];
    if range.min == range.max && range.min !in ColumnOf(c, source) {
      IndexErrorMeansNoRows(q, p, c, slot, source, width);
      assert Pick(source, []) == [];
      NoResults(q, []);
    } else {
      IndexedEqualsScan(q, p, c, slot, source, width, first, last);
    }
  }

  /** The choice of an index. */
  method ChooseIndex(p: Machine, attributes: seq<IndexedAttribute>, places: seq<Column>, source: seq<Row>, unique: bool,
                     ghost q: Plan, ghost pred: Pred, ghost width: nat)
      returns (index: Iterator?, ghost chosen: nat)
    requires p.ip == 0 && p.ranges == NoRanges(|p.names|) && q.names == p.names && q.code == p.code[..]
    requires Encode(pred) <= q.code && Ready(q, pred, attributes, places, source, width)
    modifies p`ip, p`ranges
    ensures index != null ==>
              && fresh(index) && index.Valid() && index.nextItem == 0 && chosen < |attributes| && attributes[chosen].indexed
              && Derivable(pred, |q.names|) && RangeFor(q.names, Ranges(pred, |q.names|), attributes[chosen].name).Within?
              && index.column == ColumnOf(places[chosen], source)
              && var r := Ranges(pred, |q.names|)[Lookup(q.names, attributes[chosen].name)];
                 index.low == r.min && index.high == r.max
  {
    hide IndexedSelect, ColumnOf, Lookup, DeriveFrom;
    index, chosen := null, 0;
    assert HoldsAt(q.code, 0, Encode(pred));
    DerivationOf(q.code, 0, pred, |q.names|);
    var status := p.Derive();
    if IsError(status) {
      return;
    }
    var j, range := SelectIndex(attributes, p);
    if j < 0 {
      return;
    }
    chosen := j;
    RangeIsAtLookup(q.names, p.ranges, attributes[j].name);
    ColumnReadable(q, pred, attributes[j].name, places[j], source, width);
    index := new Iterator(ColumnOf(places[j], source), range.min, range.max, unique);
  }

  lemma ColumnReadable(q: Plan, p: Pred, n: string, c: Column, source: seq<Row>, width: nat)
    requires Searchable(q, p, n, c, source, width) && Derivable(p, |q.names|) && RangeFor(q.names, Ranges(p, |q.names|), n).Within?
    ensures forall i | 0 <= i < |source| :: c.Fits(|source[i]|)
    ensures Sorted(ColumnOf(c, source))
  {
  }

  /** A SELECT, from the derivation of the ranges to the last row: it delivers the accepted rows of the
    * relation in their order, whatever indexes there are.  Only when an equality search finds nothing does the
    * index show, in the error with which the calls end. */
  method Select(file: TupleFile, result: TupleFile, columns: seq<Column>, p: Machine, attributes: seq<IndexedAttribute>,
                places: seq<Column>, unique: bool, assign: bool, ghost pred: Pred)
      returns (r: Result, rows: seq<Row>)
    requires file != result && file.rowLength > 0 && result.rowLength == Width(columns) > 0
    requires |p.values| == |p.names| && WellFormedMap(columns, file.rowLength)
    requires p.ip == 0 && p.ranges == NoRanges(|p.names|) && Encode(pred) <= p.code[..]
    requires Ready(Plan(p.code[..], p.names, p.values, columns, TRUE), pred, attributes, places,
                   Rows(file.data, file.rowLength), file.rowLength)
    requires assign ==> result.data == [] && StoredWidth(columns) == Width(columns)
    modifies p`ip, p`ranges, p`values, result
    ensures r == STORAGE_ERROR ==> assign
    ensures r != STORAGE_ERROR ==>
              && rows == old(Plan(p.code[..], p.names, p.values, columns, TRUE)).Results(old(Rows(file.data, file.rowLength)))
              && (r == FINISHED || (r == INDEX_ERROR && rows == []))
              && (assign ==> Rows(result.data, result.rowLength) == rows)
  {
    hide IndexedSelect, ColumnOf, Lookup, Plan.Results, Nearest, WithAttributes, Searchable, Visited, Plan.Verdict;
    ghost var q := Plan(p.code[..], p.names, p.values, columns, TRUE);
    var source := Rows(file.data, file.rowLength);
    var index, chosen := ChooseIndex(p, attributes, places, source, unique, q, pred, file.rowLength);
    var query := new Query(file, result, columns, p, index, false, assign);
    ghost var seen;
    r, rows, seen := query.FetchAll();
    if r != STORAGE_ERROR {
      AllPicked(source);
      if index != null {
        var n := attributes[chosen].name;
        ChosenIndex(q, pred, n, places[chosen], source, file.rowLength);
        SameRows(q, pred, places[chosen], Lookup(q.names, n), source, file.rowLength, r, seen, index.first, index.last);
      }
    }
  }

  lemma ChosenIndex(q: Plan, p: Pred, n: string, c: Column, source: seq<Row>, width: nat)
    requires Searchable(q, p, n, c, source, width) && Derivable(p, |q.names|) && RangeFor(q.names, Ranges(p, |q.names|), n).Within?
    ensures IndexedSelect(q, p, c, Lookup(q.names, n), source, width)
  {
  }
}
