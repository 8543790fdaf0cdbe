/** Values in rows (apps/antelope). */
module RowValues {
  // The writer and the reader of attribute values fit together, so that a row is selected by the value that was
  // stored in it; and a comparison and its opposite divide the rows between them.

  import opened LvmCode
  import opened LvmLaws
  import opened Storage
  import opened Selection
  import opened Query
  import opened Retrieval

  // ---------------------------------------------------------------- writing and reading a value

  lemma NextByte(b: Byte)
    requires b != 0xff
    ensures (b + 1) as nat == b as nat + 1
  {
  }

  function ByteOf(n: nat): (b: Byte)
    requires n < 256
    ensures b as nat == n
  {
    if n == 0 then 0
    else
      var b := ByteOf(n - 1);
      assert b != 0xff;
      NextByte(b);
      b + 1
  }

  /** What is left of a number that is assigned to a byte. */
  function Low(x: int): (b: Byte)
    ensures b as nat == x % 256
  {
    ByteOf(x % 256)
  }

  /** db_value_to_phy: the highest byte comes first. */
  method ValueToPhy(ptr: array<Byte>, at: nat, domain: Domain, v: int)
    requires domain != STRING && at + SizeOf(domain) <= ptr.Length
    modifies ptr
    ensures ptr[at..at + SizeOf(domain)] == Physical(domain, v)
    ensures forall i | 0 <= i < ptr.Length && !(at <= i < at + SizeOf(domain)) :: ptr[i] == old(ptr[i])
  {
    match domain
    case INT =>
      ptr[at] := Low(v / 256);
      ptr[at + 1] := Low(v);
    case LONG =>
      ptr[at] := Low(v / 0x100_0000);
      ptr[at + 1] := Low(v / 0x1_0000);
      ptr[at + 2] := Low(v / 256);
      ptr[at + 3] := Low(v);
  }

  function SizeOf(domain: Domain): nat { if domain == INT then 2 else 4 }

  /** The stored form of a number. */
  function Physical(domain: Domain, v: int): (b: seq<Byte>)
    requires domain != STRING
    ensures |b| == SizeOf(domain)
  {
    if domain == INT then [Low(v / 256), Low(v)]
    else [Low(v / 0x100_0000), Low(v / 0x1_0000), Low(v / 256), Low(v)]
  }

  /** How many numbers an attribute can hold. */
  function Modulus(domain: Domain): nat { if domain == INT then 0x1_0000 else 0x1_0000_0000 }

  lemma DecodedTwo(a: Byte, b: Byte)
    ensures Decoded([a, b]) == a as nat * 256 + b as nat
  {
    assert [a, b][..1] == [a] && [a][..0] == [];
    assert Decoded([]) == 0 && Decoded([a]) == a as nat;
  }

  lemma DecodedFour(a: Byte, b: Byte, c: Byte, d: Byte)
    ensures Decoded([a, b, c, d]) == ((a as nat * 256 + b as nat) * 256 + c as nat) * 256 + d as nat
  {
    assert [a, b, c, d][..3] == [a, b, c] && [a, b, c][..2] == [a, b];
    DecodedTwo(a, b);
    assert Decoded([a, b, c]) == Decoded([a, b]) * 256 + c as nat;
  }

  lemma TwoBytes(v: int)
    ensures v / 256 % 256 * 256 + v % 256 == v % 0x1_0000
  {
  }

  lemma ThreeBytes(v: int)
    ensures v / 0x1_0000 % 256 * 0x1_0000 + v % 0x1_0000 == v % 0x100_0000
  {
  }

  lemma FourBytes(v: int, a: nat, b: nat, c: nat, d: nat)
    requires a == v / 0x100_0000 % 256 && b == v / 0x1_0000 % 256 && c == v / 256 % 256 && d == v % 256
    ensures ((a * 256 + b) * 256 + c) * 256 + d == v % 0x1_0000_0000
  {
    TwoBytes(v);
    ThreeBytes(v);
    assert a * 0x100_0000 + v % 0x100_0000 == v % 0x1_0000_0000;
  }

  lemma LongRead(v: int)
    ensures Decoded(Physical(LONG, v)) == v % 0x1_0000_0000
  {
    hide ByteOf, Low, Decoded;
    var a, b, c, d := Low(v / 0x100_0000), Low(v / 0x1_0000), Low(v / 256), Low(v);
    DecodedFour(a, b, c, d);
    FourBytes(v, a as nat, b as nat, c as nat, d as nat);
  }

  lemma IntRead(v: int)
    ensures Decoded(Physical(INT, v)) == v % 0x1_0000
  {
    hide ByteOf, Low, Decoded;
    DecodedTwo(Low(v / 256), Low(v));
    TwoBytes(v);
  }

  /** The number that is read after v was written: v modulo the size of its attribute. */
  function ReadBack(domain: Domain, v: int): int { v % Modulus(domain) }

  lemma ReadBackIff(domain: Domain, v: int)
    ensures ReadBack(domain, v) == v <==> 0 <= v < Modulus(domain)
  {
  }

  /** A number that was written comes back if and only if it is not negative and fits. */
  lemma PhysicalRead(domain: Domain, v: int)
    requires domain != STRING
    ensures Decoded(Physical(domain, v)) == ReadBack(domain, v)
    ensures Decoded(Physical(domain, v)) == v <==> 0 <= v < Modulus(domain)
  {
    hide ByteOf, Low, Decoded, Physical;
    if domain == INT {
      IntRead(v);
    } else {
      LongRead(v);
    }
    ReadBackIff(domain, v);
  }

  // ---------------------------------------------------------------- selecting by a value

  /** An attribute of the query, and the slot of the variable table that it alone fills. */
  predicate Fills(q: Plan, c: Column, slot: nat, n: nat) {
    && q.Valid(n) && c.Fits(n) && c.domain != STRING
    && slot < |q.names| && Touched(q.names, q.columns, slot) && OneSource(q.names, q.columns, c, slot)
  }

  /** The number was written at the place of the attribute. */
  predicate Written(c: Column, row: Row, v: int) {
    c.domain != STRING && c.offset + c.size <= |row| && row[c.offset..c.offset + c.size] == Physical(c.domain, v)
  }

  /** The engine sees the number that was written into the row. */
  lemma SlotHoldsValue(q: Plan, c: Column, slot: nat, row: Row, v: int)
    requires Fills(q, c, slot, |row|) && Written(c, row, v)
    ensures WithAttributes(q.names, q.values, q.columns, row)[slot] == ReadBack(c.domain, v)
  {
    SlotHoldsColumn(q.names, q.values, q.columns, c, slot, row);
    PhysicalRead(c.domain, v);
  }

  /** A row in whose attribute v was written is selected by `attribute rel w` exactly if the relation holds of the number
    * that is read back. */
  lemma SelectedByRelation(q: Plan, c: Column, slot: nat, row: Row, v: int, rel: RelOp, w: int)
    requires Fills(q, c, slot, |row|) && Written(c, row, v) && q.wanted == TRUE
    requires Encode(Compare(rel, Leaf(Variable(slot)), Leaf(Long(w)))) <= q.code
    ensures q.Accepts(row) <==> Related(rel, ReadBack(c.domain, v), w)
  {
    hide Written, Related, ReadBack;
    var vars := WithAttributes(q.names, q.values, q.columns, row);
    SlotHoldsValue(q, c, slot, row, v);
    hide WithAttributes, Execution, Encode;
    ComparisonRuns(q.code, vars, rel, Leaf(Variable(slot)), Leaf(Long(w)));
  }

  /** A number that fits is found by `attribute = w` for that number and no other; one that does not fit is not found by
    * its own value. */
  lemma SelectedByValue(q: Plan, c: Column, slot: nat, row: Row, v: int, w: int)
    requires Fills(q, c, slot, |row|) && Written(c, row, v) && q.wanted == TRUE
    requires Encode(Compare(Eq, Leaf(Variable(slot)), Leaf(Long(w)))) <= q.code
    ensures 0 <= v < Modulus(c.domain) ==> (q.Accepts(row) <==> w == v)
    ensures w == v ==> (q.Accepts(row) <==> 0 <= v < Modulus(c.domain))
  {
    hide Written, Plan.Accepts, Encode, ReadBack, Modulus, Touched, OneSource;
    SelectedByRelation(q, c, slot, row, v, Eq, w);
    ReadBackIff(c.domain, v);
  }

  predicate FitAll(columns: seq<Column>, n: nat) { forall i | 0 <= i < |columns| :: columns[i].Fits(n) }

  /** The bytes of an attribute stand in the delivered row, from `at` on. */
  predicate StandsAt(c: Column, row: Row, delivered: Row, at: nat) {
    c.Fits(|row|) && at + c.size <= |delivered| && delivered[at..at + c.size] == row[c.offset..c.offset + c.size]
  }

  /** Every stored attribute has its own bytes in the delivered row, behind those of the stored attributes before it. */
  lemma {:induction false} AttributeDelivered(columns: seq<Column>, row: Row, k: nat)
    requires FitAll(columns, |row|) && k < |columns| && columns[k].stored
    ensures StandsAt(columns[k], row, Projection(columns, row), StoredWidth(columns[..k]))
    decreases |columns|
  {
    hide Column.Fits;
    var n := |columns| - 1;
    var before := Projection(columns[..n], row);
    if k < n {
      assert columns[..n][..k] == columns[..k];
      AttributeDelivered(columns[..n], row, k);
      StillThere(columns[k], row, before, Projection(columns, row)[|before|..], StoredWidth(columns[..k]));
      assert Projection(columns, row) == before + Projection(columns, row)[|before|..];
    } else {
      assert Projection(columns, row) == before + Bytes(columns[k], row);
    }
  }

  lemma StillThere(c: Column, row: Row, delivered: Row, more: Row, at: nat)
    requires StandsAt(c, row, delivered, at)
    ensures StandsAt(c, row, delivered + more, at)
  {
    assert (delivered + more)[at..at + c.size] == delivered[at..at + c.size];
  }

  // ---------------------------------------------------------------- comparisons and their opposites

  /** The same query with another predicate. */
  predicate Twins(q: Plan, r: Plan, rel: RelOp, e: Expr, f: Expr) {
    r == q.(code := r.code) && Encode(Compare(rel, e, f)) <= q.code && Encode(Compare(Opposite(rel), e, f)) <= r.code
  }

  /** The rows selected by a comparison are those that REMOVE keeps by its opposite, in the same order, and the rows on
    * which the one fails are those on which the other fails. */
  lemma {:induction false} OppositeRows(q: Plan, r: Plan, rel: RelOp, e: Expr, f: Expr, rows: seq<Row>)
    requires Twins(q, r, rel, e, f) && forall i | 0 <= i < |rows| :: q.Valid(|rows[i]|)
    ensures WithVerdict(q, rows, TRUE) == WithVerdict(r, rows, FALSE) && WithVerdict(q, rows, FALSE) == WithVerdict(r, rows, TRUE)
    ensures WithVerdict(q, rows, MATH_ERROR) == WithVerdict(r, rows, MATH_ERROR)
    decreases |rows|
  {
    if rows != [] {
      hide Plan.Valid, Opposite;
      var k := |rows| - 1;
      OppositeRows(q, r, rel, e, f, rows[..k]);
      OppositeVerdicts(q, r, rel, e, f, rows[k]);
      hide Plan.Verdict;
    }
  }

  lemma OppositeVerdicts(q: Plan, r: Plan, rel: RelOp, e: Expr, f: Expr, row: Row)
    requires Twins(q, r, rel, e, f) && q.Valid(|row|)
    ensures q.Verdict(row) == TRUE <==> r.Verdict(row) == FALSE
    ensures q.Verdict(row) == FALSE <==> r.Verdict(row) == TRUE
    ensures q.Verdict(row) == MATH_ERROR <==> r.Verdict(row) == MATH_ERROR
  {
    hide Execution, Encode, WithAttributes;
    OppositesRun(q.code, r.code, WithAttributes(q.names, q.values, q.columns, row), rel, e, f);
  }

  /** If no divisor is zero, two queries for a comparison and for its opposite select every row once between them. */
  lemma OppositesDivideRows(q: Plan, r: Plan, rel: RelOp, e: Expr, f: Expr, rows: seq<Row>)
    requires Twins(q, r, rel, e, f) && forall i | 0 <= i < |rows| :: q.Valid(|rows[i]|)
    requires forall i | 0 <= i < |rows| :: !Undefined(q, Compare(rel, e, f), rows[i])
    ensures multiset(rows) == multiset(WithVerdict(q, rows, TRUE)) + multiset(WithVerdict(r, rows, TRUE))
  {
    hide WithVerdict, Undefined, Plan.Valid, Encode;
    OppositeRows(q, r, rel, e, f, rows);
    RemoveConserves(q, Compare(rel, e, f), rows);
  }
}
