/** The attributes of a join (apps/antelope/relation.c). */
module JoinMap {
  // relation_join chooses the attributes of the result and maps each to its bytes in a row of one of the two relations.
  // With that map the join delivers, as values, the equi-join of the two relations.
  //
  // No code of the program marks an attribute as invalid; that mark is not modelled.

  import opened Storage
  import opened Join

  datatype Attribute = Attribute(name: string, size: nat)

  // ---------------------------------------------------------------- attributes and their places

  /** The place of the first attribute with the name, or their number. */
  function Place(attributes: seq<Attribute>, name: string): (k: nat)
    ensures k <= |attributes| && (k < |attributes| ==> attributes[k].name == name)
    ensures forall j | 0 <= j < k :: attributes[j].name != name
  {
    if attributes == [] || attributes[0].name == name then 0 else 1 + Place(attributes[1..], name)
  }

  predicate Has(attributes: seq<Attribute>, name: string) { Place(attributes, name) < |attributes| }

  /** The bytes in front of attribute k; of k = |attributes|, the length of a row. */
  function Offset(attributes: seq<Attribute>, k: nat): nat
    requires k <= |attributes|
  {
    if k == 0 then 0 else Offset(attributes, k - 1) + attributes[k - 1].size
  }

  function RowLength(attributes: seq<Attribute>): nat { Offset(attributes, |attributes|) }

  lemma {:induction false} OffsetFits(attributes: seq<Attribute>, k: nat, n: nat)
    requires k < n <= |attributes|
    ensures Offset(attributes, k) + attributes[k].size <= Offset(attributes, n)
    decreases n
  {
    if k < n - 1 {
      OffsetFits(attributes, k, n - 1);
    }
  }

  /** attribute_find. */
  method AttributeFind(attributes: seq<Attribute>, name: string) returns (k: nat)
    ensures k == Place(attributes, name)
  {
    k := 0;
    while k < |attributes| && attributes[k].name != name
      invariant k <= |attributes|
      invariant forall j | 0 <= j < k :: attributes[j].name != name
    {
      k := k + 1;
    }
  }

  /** get_attribute_value_offset. */
  method AttributeValueOffset(attributes: seq<Attribute>, attr: nat) returns (offset: int)
    ensures offset == if attr < |attributes| then Offset(attributes, attr) else -1
  {
    offset := 0;
    for i := 0 to |attributes|
      invariant offset == Offset(attributes, i) && i <= attr
    {
      if i == attr {
        return;
      }
      offset := offset + attributes[i].size;
    }
    return -1;
  }

  // ---------------------------------------------------------------- choosing and mapping

  datatype Error = RELATIONAL_ERROR | INDEX_ERROR | NAME_ERROR | IMPLEMENTATION_ERROR
  datatype Setup = Ready(rowLength: nat, origins: seq<Origin>) | Refused(error: Error)

  /** The bytes of a name: the first attribute of the left relation that has it, or else of the right one. */
  function OriginOf(left: seq<Attribute>, right: seq<Attribute>, name: string): Origin
    requires Has(left, name) || Has(right, name)
  {
    if Has(left, name) then Origin(true, Offset(left, Place(left, name)), left[Place(left, name)].size)
    else Origin(false, Offset(right, Place(right, name)), right[Place(right, name)].size)
  }

  predicate Named(left: seq<Attribute>, right: seq<Attribute>, names: seq<string>) {
    forall i | 0 <= i < |names| :: Has(left, names[i]) || Has(right, names[i])
  }

  function OriginsOf(left: seq<Attribute>, right: seq<Attribute>, names: seq<string>): (origins: seq<Origin>)
    requires Named(left, right, names)
    ensures |origins| == |names|
  {
    seq(|names|, i requires 0 <= i < |names| => OriginOf(left, right, names[i]))
  }

  lemma OriginsFit(left: seq<Attribute>, right: seq<Attribute>, names: seq<string>)
    requires Named(left, right, names)
    ensures FitAll(OriginsOf(left, right, names), RowLength(left), RowLength(right))
  {
    forall i | 0 <= i < |names|
      ensures OriginOf(left, right, names[i]).Fits(RowLength(left), RowLength(right))
    {
      if Has(left, names[i]) {
        OffsetFits(left, Place(left, names[i]), |left|);
      } else {
        OffsetFits(right, Place(right, names[i]), |right|);
      }
    }
  }

  /** The loop over the projected attributes in relation_join: the result relation grows by each. */
  method DefineResult(left: seq<Attribute>, right: seq<Attribute>, names: seq<string>) returns (ok: bool, result: seq<Attribute>)
    ensures ok <==> Named(left, right, names)
    ensures ok ==> |result| == |names|
    ensures ok ==> forall i | 0 <= i < |names| ::
                     result[i].name == names[i] && result[i].size == OriginOf(left, right, names[i]).size
  {
    result := [];
    for i := 0 to |names|
      invariant Named(left, right, names[..i]) && |result| == i
      invariant forall j | 0 <= j < i ::
                  (Has(left, names[j]) || Has(right, names[j])) &&
                  result[j].name == names[j] && result[j].size == OriginOf(left, right, names[j]).size
    {
      var size;
      var k := AttributeFind(left, names[i]);
      if k < |left| {
        size := left[k].size;
      } else {
        k := AttributeFind(right, names[i]);
        if k == |right| {
          return false, result;
        }
        size := right[k].size;
      }
      assert names[..i + 1] == names[..i] + [names[i]];
      result := result + [Attribute(names[i], size)];
    }
    assert names[..|names|] == names;
    ok := true;
  }

  /** generate_join_result: the source map for the attributes of the result. */
  method GenerateJoinResult(left: seq<Attribute>, right: seq<Attribute>, result: seq<Attribute>) returns (r: Setup)
    ensures var names := NamesOf(result);
            if Named(left, right, names) then r == Ready(RowLength(result), OriginsOf(left, right, names))
            else r == Refused(NAME_ERROR)
  {
    var origins: seq<Origin> := [];
    for i := 0 to |result|
      invariant Named(left, right, NamesOf(result[..i])) && origins == OriginsOf(left, right, NamesOf(result[..i]))
    {
      hide RowLength;
      var from, attributes := true, left;
      var k := AttributeFind(left, result[i].name);
      if k == |left| {
        from, attributes := false, right;
        k := AttributeFind(right, result[i].name);
        if k == |right| {
          assert NamesOf(result)[i] == result[i].name;
          return Refused(NAME_ERROR);
        }
      }
      var offset := AttributeValueOffset(attributes, k);
      if offset < 0 {
        return Refused(Error.IMPLEMENTATION_ERROR);
      }
      assert NamesOf(result[..i + 1]) == NamesOf(result[..i]) + [result[i].name];
      origins := origins + [Origin(from, offset, attributes[k].size)];
    }
    assert result[..|result|] == result;
    r := Ready(RowLength(result), origins);
  }

  function NamesOf(attributes: seq<Attribute>): (names: seq<string>)
    ensures |names| == |attributes|
  {
    seq(|attributes|, i requires 0 <= i < |attributes| => attributes[i].name)
  }

  /** relation_join is refused if and only if the join attribute or a projected one is missing, or the join attribute of
    * the right relation has no index; otherwise its map fits both relations and fills the result row. */
  method RelationJoin(left: seq<Attribute>, right: seq<Attribute>, on: string, indexed: bool, names: seq<string>) returns (r: Setup)
    ensures r == Refused(RELATIONAL_ERROR) <==> !Has(left, on) || !Has(right, on) || (indexed && !Named(left, right, names))
    ensures r == Refused(Error.INDEX_ERROR) <==> Has(left, on) && Has(right, on) && !indexed
    ensures r.Refused? ==> r.error in {RELATIONAL_ERROR, Error.INDEX_ERROR}
    ensures r.Ready? ==>
              && Named(left, right, names) && r.origins == OriginsOf(left, right, names) && r.rowLength == Size(r.origins)
              && FitAll(r.origins, RowLength(left), RowLength(right))
  {
    hide Named, OriginOf;
    var k := AttributeFind(left, on);
    var m := AttributeFind(right, on);
    if k == |left| || m == |right| {
      return Refused(RELATIONAL_ERROR);
    }
    if !indexed {
      return Refused(Error.INDEX_ERROR);
    }
    var ok, result := DefineResult(left, right, names);
    if !ok {
      return Refused(RELATIONAL_ERROR);
    }
    assert NamesOf(result) == names;
    r := GenerateJoinResult(left, right, result);
    OriginsFit(left, right, names);
    SizesAgree(result, OriginsOf(left, right, names), |result|);
    assert r.origins[..|result|] == r.origins;
  }

  lemma {:induction false} SizesAgree(result: seq<Attribute>, origins: seq<Origin>, n: nat)
    requires n <= |result| == |origins| && forall i | 0 <= i < |result| :: result[i].size == origins[i].size
    ensures Offset(result, n) == Size(origins[..n])
    decreases n
  {
    if n > 0 {
      SizesAgree(result, origins, n - 1);
      assert origins[..n][..n - 1] == origins[..n - 1];
    }
  }

  // ---------------------------------------------------------------- rows as tuples of values

  type Value = seq<Byte>

  predicate Typed(attributes: seq<Attribute>, tuple: seq<Value>) {
    |tuple| == |attributes| && forall i | 0 <= i < |tuple| :: |tuple[i]| == attributes[i].size
  }

  /** relation_insert writes the values of a tuple one behind the other. */
  function Concat(tuple: seq<Value>): Row {
    if tuple == [] then [] else Concat(tuple[..|tuple| - 1]) + tuple[|tuple| - 1]
  }

  lemma {:induction false} ConcatLength(attributes: seq<Attribute>, tuple: seq<Value>, n: nat)
    requires Typed(attributes, tuple) && n <= |tuple|
    ensures |Concat(tuple[..n])| == Offset(attributes, n)
    decreases n
  {
    if n > 0 {
      ConcatLength(attributes, tuple, n - 1);
      assert tuple[..n][..n - 1] == tuple[..n - 1];
    }
  }

  /** A value stands in the row at the offset of its attribute. */
  lemma {:induction false} ValueStands(attributes: seq<Attribute>, tuple: seq<Value>, k: nat, n: nat)
    requires Typed(attributes, tuple) && k < n <= |tuple|
    ensures var at := Offset(attributes, k);
            at + attributes[k].size <= |Concat(tuple[..n])| && Concat(tuple[..n])[at..at + attributes[k].size] == tuple[k]
    decreases n
  {
    ConcatLength(attributes, tuple, n - 1);
    assert tuple[..n][..n - 1] == tuple[..n - 1];
    if k < n - 1 {
      ValueStands(attributes, tuple, k, n - 1);
    }
  }

  /** The value that a name has in a pair of tuples. */
  function ValueOf(left: seq<Attribute>, right: seq<Attribute>, l: seq<Value>, r: seq<Value>, name: string): Value
    requires |l| == |left| && |r| == |right| && (Has(left, name) || Has(right, name))
  {
    if Has(left, name) then l[Place(left, name)] else r[Place(right, name)]
  }

  function ValuesOf(left: seq<Attribute>, right: seq<Attribute>, l: seq<Value>, r: seq<Value>, names: seq<string>): (values: seq<Value>)
    requires |l| == |left| && |r| == |right| && Named(left, right, names)
    ensures |values| == |names|
  {
    seq(|names|, i requires 0 <= i < |names| => ValueOf(left, right, l, r, names[i]))
  }

  lemma OriginHasValue(left: seq<Attribute>, right: seq<Attribute>, l: seq<Value>, r: seq<Value>, name: string)
    requires Typed(left, l) && Typed(right, r) && (Has(left, name) || Has(right, name))
    ensures OriginOf(left, right, name).Fits(|Concat(l)|, |Concat(r)|)
    ensures OriginOf(left, right, name).Of(Concat(l), Concat(r)) == ValueOf(left, right, l, r, name)
  {
    hide Concat, Offset, Typed;
    if Has(left, name) {
      ValueStands(left, l, Place(left, name), |l|) by { assert |l| == |left| by { TypedLength(left, l); } }
      assert l[..|l|] == l;
    } else {
      ValueStands(right, r, Place(right, name), |r|) by { assert |r| == |right| by { TypedLength(right, r); } }
      assert r[..|r|] == r;
    }
  }

  lemma TypedLength(attributes: seq<Attribute>, tuple: seq<Value>)
    requires Typed(attributes, tuple)
    ensures |tuple| == |attributes|
  {
  }

  /** The joined row of two stored tuples is the stored form of the tuple of the projected values. */
  lemma {:induction false} JoinedValues(left: seq<Attribute>, right: seq<Attribute>, l: seq<Value>, r: seq<Value>, names: seq<string>)
    requires Typed(left, l) && Typed(right, r) && Named(left, right, names)
    ensures FitAll(OriginsOf(left, right, names), |Concat(l)|, |Concat(r)|)
    ensures Joined(OriginsOf(left, right, names), Concat(l), Concat(r)) == Concat(ValuesOf(left, right, l, r, names))
    decreases |names|
  {
    hide Typed, OriginOf, ValueOf;
    TypedLength(left, l);
    TypedLength(right, r);
    forall i | 0 <= i < |names|
      ensures OriginOf(left, right, names[i]).Fits(|Concat(l)|, |Concat(r)|)
    {
      OriginHasValue(left, right, l, r, names[i]);
    }
    if names != [] {
      var k := |names| - 1;
      JoinedValues(left, right, l, r, names[..k]);
      OriginHasValue(left, right, l, r, names[k]);
      assert OriginsOf(left, right, names)[..k] == OriginsOf(left, right, names[..k]);
      assert ValuesOf(left, right, l, r, names)[..k] == ValuesOf(left, right, l, r, names[..k]);
    }
  }

  // ---------------------------------------------------------------- the equi-join

  datatype Relation = Relation(attributes: seq<Attribute>, tuples: seq<seq<Value>>) {
    predicate Valid() { forall i | 0 <= i < |tuples| :: Typed(attributes, tuples[i]) }

    predicate StoredIn(rows: seq<Row>) { |rows| == |tuples| && forall i | 0 <= i < |tuples| :: rows[i] == Concat(tuples[i]) }

    /** The number that an attribute has in tuple i. */
    function NumberIn(i: nat, name: string): nat
      requires Valid() && i < |tuples| && Has(attributes, name)
    {
      Decoded(tuples[i][Place(attributes, name)])
    }

    function Column(name: string): (column: seq<int>)
      requires Valid() && Has(attributes, name)
      ensures |column| == |tuples|
    {
      seq(|tuples|, i requires 0 <= i < |tuples| => NumberIn(i, name))
    }
  }

  /** Everything relation_join demands. */
  predicate Joinable(l: Relation, r: Relation, on: string, names: seq<string>) {
    l.Valid() && r.Valid() && Has(l.attributes, on) && Has(r.attributes, on) && Named(l.attributes, r.attributes, names)
  }

  /** From tuple i of the left relation on: every pair of tuples with the same number in the join attribute gives a row of
    * the projected values. */
  function Equijoin(l: Relation, r: Relation, on: string, names: seq<string>, i: nat): seq<Item>
    requires Joinable(l, r, on, names)
    decreases |l.tuples| - i
  {
    if i >= |l.tuples| then [] else Partners(l, r, on, names, i, |r.tuples|) + Equijoin(l, r, on, names, i + 1)
  }

  function Partners(l: Relation, r: Relation, on: string, names: seq<string>, i: nat, j: nat): seq<Item>
    requires Joinable(l, r, on, names) && i < |l.tuples| && j <= |r.tuples|
  {
    if j == 0 then []
    else
      Partners(l, r, on, names, i, j - 1) + Partner(l, r, on, names, i, j - 1)
  }

  function Partner(l: Relation, r: Relation, on: string, names: seq<string>, i: nat, j: nat): seq<Item>
    requires Joinable(l, r, on, names) && i < |l.tuples| && j < |r.tuples|
  {
    if r.NumberIn(j, on) == l.NumberIn(i, on)
    then [Pair(Concat(ValuesOf(l.attributes, r.attributes, l.tuples[i], r.tuples[j], names)))] else []
  }

  /** The task that relation_join sets up for two stored relations; the join attribute is read by relation_get_value. */
  ghost predicate SetUp(t: Task, l: Relation, r: Relation, on: string, names: seq<string>) {
    && Joinable(l, r, on, names) && t.Valid() && l.StoredIn(t.left) && r.StoredIn(t.right)
    && t.n == RowLength(l.attributes) && t.m == RowLength(r.attributes)
    && t.origins == OriginsOf(l.attributes, r.attributes, names)
    && forall row: Row | |row| == t.n :: t.key(row) == Decoded(JoinBytes(l.attributes, on, row))
  }

  function JoinBytes(attributes: seq<Attribute>, on: string, row: Row): Value
    requires Has(attributes, on) && |row| == RowLength(attributes)
  {
    OffsetFits(attributes, Place(attributes, on), |attributes|);
    row[Offset(attributes, Place(attributes, on))..][..attributes[Place(attributes, on)].size]
  }

  lemma JoinBytesOf(attributes: seq<Attribute>, on: string, tuple: seq<Value>)
    requires Has(attributes, on) && Typed(attributes, tuple)
    ensures |Concat(tuple)| == RowLength(attributes) && JoinBytes(attributes, on, Concat(tuple)) == tuple[Place(attributes, on)]
  {
    var k := Place(attributes, on);
    ConcatLength(attributes, tuple, |tuple|);
    ValueStands(attributes, tuple, k, |tuple|);
    hide Concat, Offset, Typed;
    assert tuple[..|tuple|] == tuple;
  }

  lemma KeyIsNumber(t: Task, l: Relation, r: Relation, on: string, names: seq<string>, i: nat)
    requires SetUp(t, l, r, on, names) && i < |l.tuples|
    ensures t.key(t.left[i]) == l.NumberIn(i, on)
  {
    hide Place, Typed, Concat, RowLength, Task.Valid, Named, JoinBytes;
    JoinBytesOf(l.attributes, on, l.tuples[i]);
  }

  /** What right row j adds to the inner loop. */
  function Hit(t: Task, column: seq<int>, l: Row, j: nat): seq<Item>
    requires t.Valid() && j < |column| == |t.right| && |l| == t.n
  {
    if column[j] == t.key(l) then [Pair(Joined(t.origins, l, t.right[j]))] else []
  }

  lemma HitIsPartner(t: Task, l: Relation, r: Relation, on: string, names: seq<string>, i: nat, j: nat)
    requires SetUp(t, l, r, on, names) && i < |l.tuples| && j < |r.tuples|
    ensures Hit(t, r.Column(on), t.left[i], j) == Partner(l, r, on, names, i, j)
  {
    hide Joined, Concat, Place, RowLength, ValuesOf, OriginsOf, Relation.NumberIn;
    KeyIsNumber(t, l, r, on, names, i);
    JoinedValues(l.attributes, r.attributes, l.tuples[i], r.tuples[j], names);
  }

  /** The inner loop for a left row, of whose hits each is known to be a partner of tuple i. */
  lemma {:induction false} InnerIsPartners(t: Task, column: seq<int>, row: Row, l: Relation, r: Relation, on: string, names: seq<string>, i: nat, j: nat)
    requires t.Valid() && j <= |column| == |t.right| == |r.tuples| && |row| == t.n
    requires Joinable(l, r, on, names) && i < |l.tuples|
    requires forall k | 0 <= k < j :: Hit(t, column, row, k) == Partner(l, r, on, names, i, k)
    ensures Inner(t, column, row, j) == Partners(l, r, on, names, i, j)
    decreases j
  {
    hide Task.Valid, Joinable, Partner, Joined;
    if j > 0 {
      InnerIsPartners(t, column, row, l, r, on, names, i, j - 1);
      assert Inner(t, column, row, j) == Inner(t, column, row, j - 1) + Hit(t, column, row, j - 1);
    }
  }

  lemma LoopStep(t: Task, column: seq<int>, l: Relation, r: Relation, on: string, names: seq<string>, i: nat)
    requires SetUp(t, l, r, on, names) && column == r.Column(on) && i < |l.tuples|
    ensures t.Valid() && |column| == |t.right| && |t.left| == |l.tuples| && |t.left[i]| == t.n
    ensures Inner(t, column, t.left[i], |column|) == Partners(l, r, on, names, i, |r.tuples|)
  {
    forall k | 0 <= k < |column|
      ensures Hit(t, column, t.left[i], k) == Partner(l, r, on, names, i, k)
    {
      HitIsPartner(t, l, r, on, names, i, k);
    }
    hide Hit, Partner, Partners, Inner, Joinable, Relation.Column, Concat, Place, Named;
    InnerIsPartners(t, column, t.left[i], l, r, on, names, i, |column|);
  }

  lemma {:induction false} NestedLoopIsEquijoin(t: Task, column: seq<int>, l: Relation, r: Relation, on: string, names: seq<string>, i: nat)
    requires SetUp(t, l, r, on, names) && column == r.Column(on)
    ensures t.Valid() && |column| == |t.right| && NestedLoop(t, column, i) == Equijoin(l, r, on, names, i)
    decreases |l.tuples| - i
  {
    hide Inner, Partners, Joinable, Relation.Column, Concat, Place, Named;
    if i < |l.tuples| {
      LoopStep(t, column, l, r, on, names, i);
      NestedLoopIsEquijoin(t, column, l, r, on, names, i + 1);
    }
  }

  /** With an index in order, the calls of relation_process_join deliver the equi-join of the two relations. */
  lemma JoinIsEquijoin(t: Task, l: Relation, r: Relation, on: string, names: seq<string>)
    requires SetUp(t, l, r, on, names) && InOrder(t, r.Column(on))
    ensures t.From(0) == Equijoin(l, r, on, names, 0)
  {
    JoinIsNestedLoop(t, r.Column(on), 0);
    NestedLoopIsEquijoin(t, r.Column(on), l, r, on, names, 0);
  }

  /** With an index that yields every matching row once, they deliver its rows in some order. */
  lemma JoinHasEquijoinRows(t: Task, l: Relation, r: Relation, on: string, names: seq<string>)
    requires SetUp(t, l, r, on, names) && EachOnce(t, r.Column(on))
    ensures multiset(t.From(0)) == multiset(Equijoin(l, r, on, names, 0))
  {
    JoinIsNestedLoopUpToOrder(t, r.Column(on), 0);
    NestedLoopIsEquijoin(t, r.Column(on), l, r, on, names, 0);
  }
}
