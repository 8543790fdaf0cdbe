/** Range derivation (apps/antelope/lvm.c, lvm_derive). */
module LvmRanges {
  // From the code of a predicate, an interval for each constrained variable, which select_index then hands to an
  // index.

  import opened LvmCode

  const LONG_MAX := 0x7fffffffffffffff
  const LONG_MIN := -0x8000000000000000

  /** An entry of a derivation table: the variable is not derived, or lies between two bounds. */
  datatype Range = Free | Within(min: int, max: int)

  predicate In(x: int, r: Range) {
    r.Within? ==> r.min <= x <= r.max
  }

  predicate IsLong(x: int) { LONG_MIN <= x <= LONG_MAX }

  function NoRanges(slots: nat): (t: seq<Range>)
    ensures |t| == slots && forall i | 0 <= i < slots :: t[i] == Free
  {
    seq(slots, _ => Free)
  }

  function Max(a: int, b: int): int { if a > b then a else b }
  function Min(a: int, b: int): int { if a < b then a else b }

  /** One slot of create_intersection (for And) or create_union (for Or). */
  function MergeSlot(c: Connective, before: Range, a: Range, b: Range): Range {
    match (a, b)
    case (Free, Free) => before
    case (_, Free) => a
    case (Free, _) => b
    case (Within(min1, max1), Within(min2, max2)) =>
      if c == And then Within(Max(min1, min2), Min(max1, max2)) else Within(Min(min1, min2), Max(max1, max2))
  }

  function Merge(c: Connective, before: seq<Range>, a: seq<Range>, b: seq<Range>): (t: seq<Range>)
    requires |before| == |a| == |b|
    ensures |t| == |a|
  {
    seq(|a|, i requires 0 <= i < |a| => MergeSlot(c, before[i], a[i], b[i]))
  }

  /** The variable identifier stored in an operand.  For a constant it is the byte that the union shares
    * with the number (the lowest byte on a little-endian machine). */
  function IdOf(o: Operand): nat {
    match o
    case Variable(id) => id
    case Long(l) => l % 256
  }

  /** The range that one comparison gives: the bound is `v`, whatever side it stands on. */
  function RangeOf(rel: RelOp, v: int): Range
    requires rel != Neq
  {
    match rel
    case Eq => Within(v, v)
    case Gt => Within(v + 1, LONG_MAX)
    case Geq => Within(v, LONG_MAX)
    case Lt => Within(LONG_MIN, v - 1)
    case Leq => Within(LONG_MIN, v)
  }

  datatype Derivation = Derivation(status: Status, table: seq<Range>, ip: nat)

  /** A comparison of two operands. */
  function DeriveOperands(rel: RelOp, x: Operand, y: Operand, table: seq<Range>, ip: nat): Derivation {
    var id := if x.Variable? then x.id else IdOf(y);
    var bound := if x.Variable? then y else x;
    if bound.Variable? || id >= |table| || rel == Neq then Derivation(DERIVATION_ERROR, table, ip)
    else Derivation(TRUE, table[id := RangeOf(rel, bound.l)], ip)
  }

  function DeriveFrom(code: seq<Node>, ip: nat, table: seq<Range>): (d: Derivation)
    ensures |d.table| == |table|
    ensures d.status == TRUE || d.status == DERIVATION_ERROR
    ensures d.status == TRUE ==> ip < d.ip <= |code|
    decreases |code| - ip
  {
    match NodeAt(code, ip)
    case CmpNode(Conn(Not)) => Derivation(DERIVATION_ERROR, table, ip)
    case CmpNode(Conn(c)) =>
      var d1 := DeriveFrom(code, ip + 1, NoRanges(|table|));
      if IsError(d1.status) then Derivation(DERIVATION_ERROR, table, ip)
      else
        var d2 := DeriveFrom(code, d1.ip, NoRanges(|table|));
        if IsError(d2.status) then Derivation(DERIVATION_ERROR, table, ip)
        else Derivation(TRUE, Merge(c, table, d1.table, d2.table), d2.ip)
    case CmpNode(Rel(rel)) =>
      var x, y := NodeAt(code, ip + 1), NodeAt(code, ip + 2);
      if x.OperandNode? && y.OperandNode? then DeriveOperands(rel, x.operand, y.operand, table, ip + 3)
      else Derivation(DERIVATION_ERROR, table, ip)
    case _ => Derivation(DERIVATION_ERROR, table, ip)
  }

  // ---------------------------------------------------------------- derivation on predicates

  /** The predicates for which derivation succeeds. */
  predicate Derivable(p: Pred, slots: nat) {
    match p
    case Compare(rel, x, y) =>
      && rel != Neq && x.Leaf? && y.Leaf?
      && !(x.o.Variable? && y.o.Variable?)
      && (if x.o.Variable? then x.o.id else IdOf(y.o)) < slots
    case Both(l, r) => Derivable(l, slots) && Derivable(r, slots)
    case Either(l, r) => Derivable(l, slots) && Derivable(r, slots)
    case Negation(_) => false
  }

  function Ranges(p: Pred, slots: nat): (t: seq<Range>)
    requires Derivable(p, slots)
    ensures |t| == slots
  {
    match p
    case Compare(rel, x, y) =>
      if x.o.Variable? then NoRanges(slots)[x.o.id := RangeOf(rel, y.o.l)]
      else NoRanges(slots)[IdOf(y.o) := RangeOf(rel, x.o.l)]
    case Both(l, r) => Merge(And, NoRanges(slots), Ranges(l, slots), Ranges(r, slots))
    case Either(l, r) => Merge(Or, NoRanges(slots), Ranges(l, slots), Ranges(r, slots))
  }

  predicate Derives(code: seq<Node>, ip: nat, p: Pred, slots: nat) {
    var d := DeriveFrom(code, ip, NoRanges(slots));
    if Derivable(p, slots) then d == Derivation(TRUE, Ranges(p, slots), ip + |Encode(p)|)
    else d.status == DERIVATION_ERROR
  }

  lemma CompareDerives(code: seq<Node>, ip: nat, rel: RelOp, x: Expr, y: Expr, slots: nat)
    requires HoldsAt(code, ip, Encode(Compare(rel, x, y)))
    ensures Derives(code, ip, Compare(rel, x, y), slots)
  {
    SplitThree(code, ip, CmpNode(Rel(rel)), NodesOf(x), NodesOf(y));
    HeadOf(code, ip + 1, x);
    HeadOf(code, ip + 1 + |NodesOf(x)|, y);
  }

  lemma HeadOf(code: seq<Node>, ip: nat, e: Expr)
    requires HoldsAt(code, ip, NodesOf(e))
    ensures NodeAt(code, ip) == NodesOf(e)[0]
    ensures if e.Leaf? then NodesOf(e)[0] == OperandNode(e.o) && |NodesOf(e)| == 1 else NodesOf(e)[0].ArithNode?
  {
    assert code[ip..ip + |NodesOf(e)|][0] == code[ip];
  }

  lemma ConnectiveDerives(code: seq<Node>, ip: nat, c: Connective, l: Pred, r: Pred, slots: nat)
    requires c != Not && NodeAt(code, ip) == CmpNode(Conn(c))
    requires Derives(code, ip + 1, l, slots) && Derives(code, ip + 1 + |Encode(l)|, r, slots)
    ensures Derives(code, ip, if c == And then Both(l, r) else Either(l, r), slots)
  {
    hide Merge, NoRanges, Encode;
    var p := if c == And then Both(l, r) else Either(l, r);
    assert |Encode(p)| == 1 + |Encode(l)| + |Encode(r)| by { EncodedLength(c, l, r); }
    var d1 := DeriveFrom(code, ip + 1, NoRanges(slots));
    if Derivable(l, slots) {
      var d2 := DeriveFrom(code, d1.ip, NoRanges(slots));
    }
  }

  lemma EncodedLength(c: Connective, l: Pred, r: Pred)
    ensures |Encode(if c == And then Both(l, r) else Either(l, r))| == 1 + |Encode(l)| + |Encode(r)|
  {
  }

  /** On prefix code, derivation succeeds exactly on the derivable predicates, and gives Ranges. */
  lemma {:induction false} DerivationOf(code: seq<Node>, ip: nat, p: Pred, slots: nat)
    requires HoldsAt(code, ip, Encode(p))
    ensures Derives(code, ip, p, slots)
    decreases p
  {
    hide DeriveFrom;
    match p
    case Compare(rel, x, y) => CompareDerives(code, ip, rel, x, y, slots);
    case Both(l, r) =>
      SplitThree(code, ip, CmpNode(Conn(And)), Encode(l), Encode(r));
      DerivationOf(code, ip + 1, l, slots);
      DerivationOf(code, ip + 1 + |Encode(l)|, r, slots);
      ConnectiveDerives(code, ip, And, l, r, slots);
    case Either(l, r) =>
      SplitThree(code, ip, CmpNode(Conn(Or)), Encode(l), Encode(r));
      DerivationOf(code, ip + 1, l, slots);
      DerivationOf(code, ip + 1 + |Encode(l)|, r, slots);
      ConnectiveDerives(code, ip, Or, l, r, slots);
    case Negation(q) =>
      SplitAt(code, ip, [CmpNode(Conn(Not))], Encode(q));
      FirstNode(code, ip, CmpNode(Conn(Not)));
      NegationDerives(code, ip, q, slots);
  }

  lemma NegationDerives(code: seq<Node>, ip: nat, q: Pred, slots: nat)
    requires NodeAt(code, ip) == CmpNode(Conn(Not))
    ensures Derives(code, ip, Negation(q), slots)
  {
  }

  // ---------------------------------------------------------------- what the ranges say

  predicate InBox(vars: seq<int>, box: seq<Range>) {
    |vars| == |box| && forall i | 0 <= i < |box| :: In(vars[i], box[i])
  }

  predicate Longs(vars: seq<int>) {
    forall i | 0 <= i < |vars| :: IsLong(vars[i])
  }

  /** Every comparison has a variable on the left and a constant on the right. */
  predicate VariableFirst(p: Pred) {
    match p
    case Compare(_, x, y) => x.Leaf? && y.Leaf? && x.o.Variable? && y.o.Long?
    case Both(l, r) => VariableFirst(l) && VariableFirst(r)
    case Either(l, r) => VariableFirst(l) && VariableFirst(r)
    case Negation(q) => VariableFirst(q)
  }

  function Variables(p: Pred): set<nat> {
    match p
    case Compare(_, x, _) => if x.Leaf? && x.o.Variable? then {x.o.id} else {}
    case Both(l, r) => Variables(l) + Variables(r)
    case Either(l, r) => Variables(l) + Variables(r)
    case Negation(q) => Variables(q)
  }

  /** The two sides of every disjunction constrain the same variables. */
  predicate Aligned(p: Pred) {
    match p
    case Compare(_, _, _) => true
    case Both(l, r) => Aligned(l) && Aligned(r)
    case Either(l, r) => Aligned(l) && Aligned(r) && Variables(l) == Variables(r)
    case Negation(q) => Aligned(q)
  }

  predicate Conjunctive(p: Pred) {
    match p
    case Compare(_, _, _) => true
    case Both(l, r) => Conjunctive(l) && Conjunctive(r)
    case _ => false
  }

  /** The derived variables are the variables that occur. */
  lemma {:induction false} DerivedVariables(p: Pred, slots: nat, i: nat)
    requires Derivable(p, slots) && VariableFirst(p) && i < slots
    ensures Ranges(p, slots)[i].Within? <==> i in Variables(p)
    decreases p
  {
    match p
    case Compare(_, _, _) =>
    case Both(l, r) => DerivedVariables(l, slots, i); DerivedVariables(r, slots, i);
    case Either(l, r) => DerivedVariables(l, slots, i); DerivedVariables(r, slots, i);
  }

  /** Soundness: every satisfying assignment lies in the derived box. */
  lemma {:induction false} RangesEnclose(p: Pred, slots: nat, vars: seq<int>)
    requires Derivable(p, slots) && VariableFirst(p) && Aligned(p)
    requires |vars| == slots && Longs(vars) && Holds(vars, p)
    ensures InBox(vars, Ranges(p, slots))
    decreases p
  {
    match p
    case Compare(_, _, _) =>
    case Both(l, r) => RangesEnclose(l, slots, vars); RangesEnclose(r, slots, vars);
    case Either(l, r) =>
      forall i | 0 <= i < slots
        ensures In(vars[i], Ranges(p, slots)[i])
      {
        DerivedVariables(l, slots, i);
        DerivedVariables(r, slots, i);
        if Holds(vars, l) {
          RangesEnclose(l, slots, vars);
        } else {
          RangesEnclose(r, slots, vars);
        }
      }
  }

  /** For conjunctions the box is exact. */
  lemma {:induction false} ConjunctionIsItsBox(p: Pred, slots: nat, vars: seq<int>)
    requires Derivable(p, slots) && VariableFirst(p) && Conjunctive(p)
    requires |vars| == slots && Longs(vars)
    ensures Holds(vars, p) <==> InBox(vars, Ranges(p, slots))
    decreases p
  {
    match p
    case Compare(rel, x, y) =>
      assert Ranges(p, slots)[x.o.id] == RangeOf(rel, y.o.l);
    case Both(l, r) =>
      ConjunctionIsItsBox(l, slots, vars);
      ConjunctionIsItsBox(r, slots, vars);
      forall i | 0 <= i < slots
        ensures In(vars[i], Ranges(p, slots)[i]) <==>
                In(vars[i], Ranges(l, slots)[i]) && In(vars[i], Ranges(r, slots)[i])
      {
      }
  }

  /** Running lvm_derive on the code of an aligned predicate with the variables first encloses every
    * satisfying assignment. */
  lemma DerivationEncloses(code: seq<Node>, p: Pred, slots: nat, vars: seq<int>)
    requires Encode(p) <= code && VariableFirst(p) && Aligned(p)
    requires |vars| == slots && Longs(vars) && Holds(vars, p)
    ensures var d := DeriveFrom(code, 0, NoRanges(slots));
            && (d.status == TRUE <==> Derivable(p, slots))
            && (d.status == TRUE ==> InBox(vars, d.table))
  {
    assert HoldsAt(code, 0, Encode(p));
    DerivationOf(code, 0, p, slots);
    if Derivable(p, slots) {
      RangesEnclose(p, slots, vars);
    }
  }

  // ---------------------------------------------------------------- where the ranges do not enclose

  /** Equality, or a constant with no other long values on the side that `v rel x` accepts. */
  predicate Unbounded(rel: RelOp, v: int) {
    match rel
    case Eq => true
    case Gt => v == LONG_MIN
    case Geq => v == LONG_MIN
    case Lt => v == LONG_MAX
    case Leq => v == LONG_MAX
    case Neq => false
  }

  /** A constant on the left is treated as if it stood on the right: the derivation succeeds, but its box contains
    * all satisfying assignments only for equality, and for a bound at the end of the range of long values. */
  lemma ConstantFirst(rel: RelOp, v: int, i: nat, code: seq<Node>, slots: nat)
    requires rel != Neq && IsLong(v) && (rel == Gt ==> v < LONG_MAX) && (rel == Lt ==> v > LONG_MIN) && i < slots
    requires Encode(Compare(rel, Leaf(Long(v)), Leaf(Variable(i)))) <= code
    ensures var p := Compare(rel, Leaf(Long(v)), Leaf(Variable(i))); var d := DeriveFrom(code, 0, NoRanges(slots));
            && d.status == TRUE
            && ((forall vars: seq<int> :: |vars| == slots && Longs(vars) && Holds(vars, p) ==> InBox(vars, d.table)) <==> Unbounded(rel, v))
  {
    var p := Compare(rel, Leaf(Long(v)), Leaf(Variable(i)));
    assert HoldsAt(code, 0, Encode(p));
    DerivationOf(code, 0, p, slots);
    hide DeriveFrom, Encode;
    var box := Ranges(p, slots);
    if !Unbounded(rel, v) {
      var vars := seq(slots, k => 0)[i := if rel == Gt || rel == Geq then LONG_MIN else LONG_MAX];
      assert Holds(vars, p) && Longs(vars);
      assert !In(vars[i], box[i]);
    } else {
      forall vars: seq<int> | |vars| == slots && Longs(vars) && Holds(vars, p)
        ensures InBox(vars, box)
      {
        assert IsLong(vars[i]);
      }
    }
  }

  function Comparison(i: nat, rel: RelOp, v: int): Pred {
    Compare(rel, Leaf(Variable(i)), Leaf(Long(v)))
  }

  /** A value that a comparison accepts, and one that it does not. */
  function Accepted(rel: RelOp, v: int): int {
    match rel
    case Gt => v + 1
    case Lt => v - 1
    case Neq => v + 1
    case _ => v
  }

  function Refused(rel: RelOp, v: int): int {
    match rel
    case Eq => v + 1
    case Geq => v - 1
    case Leq => v + 1
    case _ => v
  }

  /** A disjunction of two comparisons is enclosed by its ranges exactly when both constrain the same
    * variable. */
  lemma DisjunctionEnclosed(i: nat, rel1: RelOp, v1: int, j: nat, rel2: RelOp, v2: int, slots: nat)
    requires i < slots && j < slots && rel1 != Neq && rel2 != Neq
    requires LONG_MIN < v1 < LONG_MAX && LONG_MIN < v2 < LONG_MAX
    ensures Derivable(Either(Comparison(i, rel1, v1), Comparison(j, rel2, v2)), slots)
    ensures var p := Either(Comparison(i, rel1, v1), Comparison(j, rel2, v2));
            (forall vars: seq<int> :: |vars| == slots && Longs(vars) && Holds(vars, p) ==> InBox(vars, Ranges(p, slots)))
            <==> i == j
  {
    var p := Either(Comparison(i, rel1, v1), Comparison(j, rel2, v2));
    assert Derivable(Comparison(i, rel1, v1), slots) && Derivable(Comparison(j, rel2, v2), slots);
    if i == j {
      forall vars: seq<int> | |vars| == slots && Longs(vars) && Holds(vars, p)
        ensures InBox(vars, Ranges(p, slots))
      {
        RangesEnclose(p, slots, vars);
      }
    } else {
      var vars := seq(slots, k => 0)[i := Accepted(rel1, v1)][j := Refused(rel2, v2)];
      assert Related(rel1, vars[i], v1);
      assert Holds(vars, Comparison(i, rel1, v1));
      assert Holds(vars, p) && Longs(vars);
      assert Ranges(p, slots)[j] == RangeOf(rel2, v2);
      assert !In(vars[j], Ranges(p, slots)[j]);
    }
  }

  /** Both bounds of the range of a comparison satisfy it. */
  lemma BoundsSatisfy(rel: RelOp, v: int)
    requires rel != Neq && LONG_MIN < v < LONG_MAX
    ensures var r := RangeOf(rel, v); Related(rel, r.min, v) && Related(rel, r.max, v) && IsLong(r.min) && IsLong(r.max)
  {
  }

  /** The range derived for a disjunction of two comparisons on one variable is the least range that encloses what
    * satisfies it. */
  lemma DisjunctionLeast(i: nat, rel1: RelOp, v1: int, rel2: RelOp, v2: int, slots: nat, min: int, max: int)
    requires i < slots && rel1 != Neq && rel2 != Neq && LONG_MIN < v1 < LONG_MAX && LONG_MIN < v2 < LONG_MAX
    requires var p := Either(Comparison(i, rel1, v1), Comparison(i, rel2, v2));
             forall vars: seq<int> :: |vars| == slots && Longs(vars) && Holds(vars, p) ==> min <= vars[i] <= max
    ensures var p := Either(Comparison(i, rel1, v1), Comparison(i, rel2, v2));
            Derivable(p, slots) && Ranges(p, slots)[i].Within? && min <= Ranges(p, slots)[i].min && Ranges(p, slots)[i].max <= max
  {
    BoundsSatisfy(rel1, v1);
    BoundsSatisfy(rel2, v2);
    SatisfiedAt(i, rel1, v1, rel2, v2, slots, RangeOf(rel1, v1).min);
    SatisfiedAt(i, rel1, v1, rel2, v2, slots, RangeOf(rel1, v1).max);
    SatisfiedAt(i, rel1, v1, rel2, v2, slots, RangeOf(rel2, v2).min);
    SatisfiedAt(i, rel1, v1, rel2, v2, slots, RangeOf(rel2, v2).max);
    var p, q := Comparison(i, rel1, v1), Comparison(i, rel2, v2);
    assert Ranges(p, slots)[i] == RangeOf(rel1, v1) && Ranges(q, slots)[i] == RangeOf(rel2, v2);
    assert Ranges(Either(p, q), slots)[i] == MergeSlot(Or, Free, RangeOf(rel1, v1), RangeOf(rel2, v2));
  }

  lemma SatisfiedAt(i: nat, rel1: RelOp, v1: int, rel2: RelOp, v2: int, slots: nat, x: int)
    requires i < slots && IsLong(x) && (Related(rel1, x, v1) || Related(rel2, x, v2))
    ensures exists vars: seq<int> ::
              |vars| == slots && Longs(vars) && Holds(vars, Either(Comparison(i, rel1, v1), Comparison(i, rel2, v2))) && vars[i] == x
  {
    var vars := seq(slots, k => 0)[i := x];
    assert Holds(vars, Comparison(i, rel1, v1)) || Holds(vars, Comparison(i, rel2, v2));
  }
}
