/** Compiling a WHERE clause gives its prefix code (apps/antelope). */
module AqlCorrect {
  // On every well-formed clause it emits exactly the prefix code of the predicate that the text means, with AND
  // and OR nested to the right.

  import opened LvmCode
  import opened LvmAssembler
  import opened AqlText
  import opened AqlParser

  // ---------------------------------------------------------------- the variable table

  function Used(names: seq<string>): set<string> {
    set n | n in names && n != ""
  }

  /** The names are distinct and stand before the free slots. */
  predicate Packed(names: seq<string>) {
    forall i, j | 0 <= i < j < |names| :: (names[i] == "" ==> names[j] == "") && (names[i] != "" ==> names[i] != names[j])
  }

  predicate Extends(names: seq<string>, later: seq<string>) {
    |later| == |names| && forall i | 0 <= i < |names| && names[i] != "" :: later[i] == names[i]
  }

  predicate ShortName(n: string) { 0 < |n| <= LVM_MAX_NAME_LENGTH }

  lemma UsedCount(names: seq<string>)
    requires Packed(names) && (forall i | 0 <= i < |names| :: names[i] != "")
    ensures |Used(names)| == |names|
  {
    if names != [] {
      var k := |names| - 1;
      UsedCount(names[..k]);
      assert Used(names) == Used(names[..k]) + {names[k]};
    }
  }

  lemma Found(names: seq<string>, n: string)
    requires Packed(names) && n in Used(names)
    ensures Lookup(names, n) < |names| && names[Lookup(names, n)] == n
  {
    var i :| 0 <= i < |names| && names[i] == n;
  }

  lemma LookupStable(names: seq<string>, later: seq<string>, n: string)
    requires Packed(names) && Extends(names, later) && n in Used(names)
    ensures Lookup(later, n) == Lookup(names, n)
  {
    Found(names, n);
    var k := Lookup(names, n);
    assert forall j | 0 <= j < k :: later[j] == names[j];
  }

  lemma FullTable(names: seq<string>, n: string)
    requires Packed(names) && n != "" && Lookup(names, n) == |names|
    ensures |Used(names) + {n}| == |names| + 1
  {
    UsedCount(names);
    assert n !in Used(names);
  }

  lemma SlotFilled(names: seq<string>, id: nat, n: string)
    requires Packed(names) && id < |names| && names[id] == "" && n != "" && n !in names
    requires forall j | 0 <= j < id :: names[j] != ""
    ensures var r := names[id := n]; Packed(r) && Extends(names, r) && Used(r) == Used(names) + {n}
  {
    var r := names[id := n];
    assert forall j | id < j < |names| :: names[j] == "";
    assert r[id] == n;
    forall m
      ensures m in Used(r) <==> m in Used(names) + {n}
    {
      if m in Used(names) {
        var j :| 0 <= j < |names| && names[j] == m;
        assert r[j] == m;
      }
    }
  }

  lemma RegisterFinds(names: seq<string>, n: string)
    requires Packed(names) && ShortName(n) && |Used(names) + {n}| <= |names|
    ensures var r := Register(names, n);
            && Packed(r) && Extends(names, r) && Used(r) == Used(names) + {n}
            && Lookup(r, n) < |r| && r[Lookup(r, n)] == n
  {
    var id := Lookup(names, n);
    var r := Register(names, n);
    if id == |names| {
      FullTable(names, n);
    }
    if names[id] == "" {
      assert forall j | id <= j < |names| :: names[j] == "";
      SlotFilled(names, id, n);
    } else {
      assert n in Used(names);
      assert Used(names) + {n} == Used(names);
    }
    Found(r, n);
  }

  // ---------------------------------------------------------------- the predicate a text stands for

  function OperandOf(names: seq<string>, a: Atom): Operand {
    if a.Name? then Variable(Lookup(names, a.n)) else Long(a.l)
  }

  function TermExpr(names: seq<string>, t: Term): Expr {
    match t
    case Single(a) => Leaf(OperandOf(names, a))
    case Combined(a, op, _, rest) => Binary(op, Leaf(OperandOf(names, a)), TermExpr(names, rest))
  }

  function ComparisonPred(names: seq<string>, c: Comparison): Pred {
    Compare(c.rel, TermExpr(names, c.left), TermExpr(names, c.right))
  }

  function Join(conn: Connective, l: Pred, r: Pred): Pred {
    if conn == And then Both(l, r) else Either(l, r)
  }

  function ClausePred(names: seq<string>, w: Clause): Pred {
    match w
    case Last(c) => ComparisonPred(names, c)
    case More(c, conn, rest) => Join(conn, ComparisonPred(names, c), ClausePred(names, rest))
  }

  lemma {:induction false} TermStable(names: seq<string>, later: seq<string>, t: Term)
    requires Packed(names) && Extends(names, later) && TermNames(t) <= Used(names)
    ensures TermExpr(later, t) == TermExpr(names, t)
    decreases t
  {
    if t.a.Name? {
      assert t.a.n in TermNames(t);
      LookupStable(names, later, t.a.n);
    }
    if t.Combined? {
      TermStable(names, later, t.rest);
    }
  }

  // ---------------------------------------------------------------- what a parsing step has emitted

  /** From a to b, exactly `nodes` were emitted and the names in `ns` entered the variable table. */
  predicate Emits(a: Asm, b: Asm, ns: set<string>, nodes: seq<Node>) {
    && b.error == a.error && |b.code| == |a.code| && a.end <= |a.code|
    && b.end == a.end + |nodes| <= |b.code|
    && b.code[..b.end] == a.code[..a.end] + nodes
    && Packed(b.names) && Extends(a.names, b.names) && Used(b.names) == Used(a.names) + ns
  }

  lemma EmitsThen(a: Asm, b: Asm, c: Asm, ns: set<string>, ms: set<string>, x: seq<Node>, y: seq<Node>)
    requires Emits(a, b, ns, x) && Emits(b, c, ms, y)
    ensures Emits(a, c, ns + ms, x + y)
  {
  }

  predicate Room(ts: seq<Token>, pos: nat, a: Asm) {
    pos <= |ts| && Need(ts, pos, a) <= |a.code|
  }

  /** The table is in order and the names to come are short and fit. */
  predicate Names(a: Asm, ns: set<string>) {
    && Packed(a.names)
    && (forall n | n in ns :: ShortName(n))
    && |Used(a.names) + ns| <= |a.names|
  }

  lemma FewerNames(a: Asm, ns: set<string>, ms: set<string>)
    requires Names(a, ns) && ms <= ns
    ensures Names(a, ms)
  {
    SubsetSize(Used(a.names) + ms, Used(a.names) + ns);
  }

  lemma SubsetSize(x: set<string>, y: set<string>)
    requires x <= y
    ensures |x| <= |y|
  {
    assert y == x + (y - x);
  }

  lemma NamesLater(a: Asm, b: Asm, ns: set<string>, ms: set<string>, nodes: seq<Node>)
    requires Names(a, ns) && Emits(a, b, ms, nodes) && ms <= ns
    ensures Names(b, ns)
  {
    assert Used(b.names) + ns == Used(a.names) + ns;
  }

  ghost predicate TextAt(ts: seq<Token>, pos: nat, s: seq<Token>) {
    pos + |s| <= |ts| && ts[pos..pos + |s|] == s
  }

  lemma TextSplit(ts: seq<Token>, pos: nat, x: seq<Token>, y: seq<Token>)
    requires TextAt(ts, pos, x + y)
    ensures TextAt(ts, pos, x) && TextAt(ts, pos + |x|, y)
    ensures |x| > 0 ==> TokenAt(ts, pos) == x[0]
    ensures |y| > 0 ==> TokenAt(ts, pos + |x|) == y[0]
  {
    var s := ts[pos..pos + |x + y|];
    assert s[..|x|] == x && s[|x|..] == y;
    assert ts[pos..pos + |x|] == s[..|x|];
    assert ts[pos + |x|..pos + |x| + |y|] == s[|x|..];
    assert |x| > 0 ==> s[0] == ts[pos];
    assert |y| > 0 ==> s[|x|] == ts[pos + |x|];
  }

  // ---------------------------------------------------------------- operands and expressions

  lemma AtomCompiles(ts: seq<Token>, pos: nat, a: Asm, x: Atom)
    requires Room(ts, pos, a) && TokenAt(ts, pos) == AtomText(x) && Names(a, AtomNames(x))
    ensures var r := ParseOperand(ts, pos, a);
            && r.status == OK && r.pos == pos + 1
            && Emits(a, r.asm, AtomNames(x), [OperandNode(OperandOf(r.asm.names, x))])
  {
    hide Emits;
    if x.Name? {
      NameCompiles(a, x.n);
    } else {
      PutEmits(a, a, {}, OperandNode(Long(x.l)));
    }
  }

  lemma NameCompiles(a: Asm, n: string)
    requires a.end < |a.code| && Names(a, {n})
    ensures var b := PutVariable(a.(names := Register(a.names, n)), n);
            Emits(a, b, {n}, [OperandNode(Variable(Lookup(b.names, n)))])
  {
    RegisterFinds(a.names, n);
    var b := a.(names := Register(a.names, n));
    PutEmits(a, b, {n}, OperandNode(Variable(Lookup(b.names, n))));
  }

  lemma PutEmits(a: Asm, b: Asm, ns: set<string>, n: Node)
    requires b == a.(names := b.names) && a.end < |a.code|
    requires Packed(b.names) && Extends(a.names, b.names) && Used(b.names) == Used(a.names) + ns
    ensures Emits(a, Put(b, n), ns, [n])
  {
  }

  lemma InsertEmits(a0: Asm, a: Asm, ns: set<string>, nodes: seq<Node>, n: Node)
    requires Emits(a0, a, ns, nodes) && |nodes| > 0 && a.end + 1 < |a.code|
    ensures var (b, end) := Insert(a, a0.end, n);
            Emits(a0, b, ns, [n] + nodes) && end == b.end
  {
    ShiftInserts(a, a0.end, n);
    assert a.code[..a0.end] == a.code[..a.end][..a0.end];
    assert a.code[a0.end..a.end] == a.code[..a.end][a0.end..];
  }

  /** The parse of a term whose text starts at pos. */
  predicate TermDone(ts: seq<Token>, pos: nat, a: Asm, t: Term, r: Parse) {
    var e := pos + |TermText(t)|;
    && r.status == OK
    && r.pos == (if TokenAt(ts, e) == RightParen then e + 1 else e)
    && Emits(a, r.asm, TermNames(t), NodesOf(TermExpr(r.asm.names, t)))
  }

  lemma {:induction false} TermCompiles(ts: seq<Token>, pos: nat, a: Asm, t: Term)
    requires WellFormed(t) && TextAt(ts, pos, TermText(t))
    requires !TokenAt(ts, pos + |TermText(t)|).ArithToken?
    requires Room(ts, pos, a) && Names(a, TermNames(t))
    ensures TermDone(ts, pos, a, t, ParseExpr(ts, pos, a))
    decreases t, 1
  {
    FewerNames(a, TermNames(t), AtomNames(t.a));
    FirstToken(ts, pos, t);
    AtomCompiles(ts, pos, a, t.a);
    var r := ParseOperand(ts, pos, a);
    if t.Single? {
      SingleDone(ts, pos, a, t, r);
    } else {
      NamesLater(a, r.asm, TermNames(t), AtomNames(t.a), [OperandNode(OperandOf(r.asm.names, t.a))]);
      FewerNames(r.asm, TermNames(t), TermNames(t.rest));
      OperatorCompiles(ts, pos, a, r.asm, t);
    }
  }

  lemma FirstToken(ts: seq<Token>, pos: nat, t: Term)
    requires TextAt(ts, pos, TermText(t))
    ensures TokenAt(ts, pos) == AtomText(t.a)
    ensures t.Combined? ==> TokenAt(ts, pos + 1) == ArithToken(t.op)
    ensures t.Combined? ==>
              TextAt(ts, pos + 2, if t.nested then [LeftParen] + TermText(t.rest) + [RightParen] else TermText(t.rest))
  {
    if t.Combined? {
      var tail := if t.nested then [LeftParen] + TermText(t.rest) + [RightParen] else TermText(t.rest);
      TextSplit(ts, pos, [AtomText(t.a), ArithToken(t.op)], tail);
      TextSplit(ts, pos, [AtomText(t.a)], [ArithToken(t.op)]);
    } else {
      TextSplit(ts, pos, [AtomText(t.a)], []);
    }
  }

  lemma LoopStops(ts: seq<Token>, pos: nat, a: Asm, saved: nat)
    requires pos <= |ts| && !TokenAt(ts, pos).ArithToken?
    ensures ExprLoop(ts, pos, a, saved) == Parse(OK, if TokenAt(ts, pos) == RightParen then pos + 1 else pos, a)
  {
    hide ParseExpr, ParseOperand;
  }

  lemma SingleDone(ts: seq<Token>, pos: nat, a: Asm, t: Term, r: Parse)
    requires t.Single? && r.status == OK && r.pos == pos + 1 <= |ts| && !TokenAt(ts, pos + 1).ArithToken?
    requires Emits(a, r.asm, AtomNames(t.a), [OperandNode(OperandOf(r.asm.names, t.a))])
    ensures TermDone(ts, pos, a, t, ExprLoop(ts, r.pos, r.asm, a.end))
  {
    hide ParseOperand, ParseExpr, Emits, ExprLoop;
    LoopStops(ts, r.pos, r.asm, a.end);
    assert |TermText(t)| == 1;
    assert TermNames(t) == AtomNames(t.a);
    assert TermExpr(r.asm.names, t) == Leaf(OperandOf(r.asm.names, t.a));
  }

  /** What stands to the right of an operator. */
  function RightSide(ts: seq<Token>, pos: nat, a: Asm): (r: Parse)
    requires pos <= |ts|
    ensures Keeps(ts, pos, a, r, 0)
  {
    var x := ParseOperand(ts, pos, a);
    if Failed(x.status) then ParseExpr(ts, x.pos, x.asm) else x
  }

  lemma {:induction false} RightSideCompiles(ts: seq<Token>, pos: nat, a: Asm, nested: bool, t: Term)
    requires WellFormed(t) && (nested || t.Single?)
    requires TextAt(ts, pos, if nested then [LeftParen] + TermText(t) + [RightParen] else TermText(t))
    requires Room(ts, pos, a) && Names(a, TermNames(t))
    ensures var r := RightSide(ts, pos, a);
            && r.status == OK && r.pos == pos + |TermText(t)| + (if nested then 2 else 0)
            && Emits(a, r.asm, TermNames(t), NodesOf(TermExpr(r.asm.names, t)))
    decreases t, 2
  {
    if nested {
      TextSplit(ts, pos, [LeftParen] + TermText(t), [RightParen]);
      TextSplit(ts, pos, [LeftParen], TermText(t));
      TermCompiles(ts, pos + 1, a, t);
    } else {
      TextSplit(ts, pos, TermText(t), []);
      AtomCompiles(ts, pos, a, t.a);
    }
  }

  lemma {:induction false} OperatorCompiles(ts: seq<Token>, pos: nat, a: Asm, b: Asm, t: Term)
    requires t.Combined? && WellFormed(t) && !TokenAt(ts, pos + |TermText(t)|).ArithToken?
    requires TokenAt(ts, pos + 1) == ArithToken(t.op)
    requires TextAt(ts, pos + 2, if t.nested then [LeftParen] + TermText(t.rest) + [RightParen] else TermText(t.rest))
    requires Room(ts, pos + 1, b) && Names(b, TermNames(t.rest))
    requires Emits(a, b, AtomNames(t.a), [OperandNode(OperandOf(b.names, t.a))])
    ensures TermDone(ts, pos, a, t, ExprLoop(ts, pos + 1, b, a.end))
    decreases t, 0
  {
    hide ParseExpr, ParseOperand, Emits, ExprLoop, RightSide, TextAt, Names, TermDone, Keeps;
    RightSideCompiles(ts, pos + 2, b, t.nested, t.rest);
    var r := RightSide(ts, pos + 2, b);
    OperatorDone(ts, pos, a, b, t, r);
  }

  lemma OperatorEmits(a: Asm, b: Asm, c: Asm, t: Term)
    requires t.Combined? && c.end + 1 < |c.code|
    requires Emits(a, b, AtomNames(t.a), [OperandNode(OperandOf(b.names, t.a))])
    requires Emits(b, c, TermNames(t.rest), NodesOf(TermExpr(c.names, t.rest)))
    ensures var (d, end) := Insert(c, a.end, ArithNode(Arith(t.op)));
            Emits(a, d, TermNames(t), NodesOf(TermExpr(d.names, t)))
  {
    var first := [OperandNode(OperandOf(b.names, t.a))];
    var rest := NodesOf(TermExpr(c.names, t.rest));
    EmitsThen(a, b, c, AtomNames(t.a), TermNames(t.rest), first, rest);
    if t.a.Name? {
      LookupStable(b.names, c.names, t.a.n);
    }
    InsertEmits(a, c, TermNames(t), first + rest, ArithNode(Arith(t.op)));
    assert [ArithNode(Arith(t.op))] + (first + rest) == [ArithNode(Arith(t.op))] + first + rest;
  }

  lemma OperatorDone(ts: seq<Token>, pos: nat, a: Asm, b: Asm, t: Term, r: Parse)
    requires t.Combined? && pos + 2 <= |ts| && TokenAt(ts, pos + 1) == ArithToken(t.op) && Room(ts, pos + 1, b)
    requires r == RightSide(ts, pos + 2, b) && r.status == OK && r.pos == pos + |TermText(t)|
    requires !TokenAt(ts, r.pos).ArithToken?
    requires Emits(a, b, AtomNames(t.a), [OperandNode(OperandOf(b.names, t.a))])
    requires Emits(b, r.asm, TermNames(t.rest), NodesOf(TermExpr(r.asm.names, t.rest)))
    ensures TermDone(ts, pos, a, t, ExprLoop(ts, pos + 1, b, a.end))
  {
    hide Emits, ParseExpr, ParseOperand;
    OperatorEmits(a, b, r.asm, t);
    var (d, end) := Insert(r.asm, a.end, ArithNode(Arith(t.op)));
    assert ExprLoop(ts, pos + 1, b, a.end) == ExprLoop(ts, r.pos, d, end);
  }

  // ---------------------------------------------------------------- comparisons

  /** A token that may follow a clause. */
  predicate Stops(t: Token) {
    !t.ArithToken? && t != RightParen
  }

  function ComparisonNames(c: Comparison): set<string> {
    TermNames(c.left) + TermNames(c.right)
  }

  /** Behind a closing parenthesis, if one stands there: parse_expr consumes it. */
  function Behind(ts: seq<Token>, pos: nat): nat {
    if TokenAt(ts, pos) == RightParen then pos + 1 else pos
  }

  predicate ComparisonDone(ts: seq<Token>, pos: nat, a: Asm, c: Comparison, r: Parse) {
    && r.status == OK && r.pos == Behind(ts, pos + |ComparisonText(c)|)
    && Emits(a, r.asm, ComparisonNames(c), Encode(ComparisonPred(r.asm.names, c)))
  }

  /** Write the relation into the hole that was left before the first term. */
  function WithRelation(x: Asm, hole: nat, rel: RelOp): Asm {
    SetEnd(Put(SetEnd(x, hole).0, CmpNode(Rel(rel))), x.end).0
  }

  lemma RelationEmits(a: Asm, x: Asm, ns: set<string>, nodes: seq<Node>, rel: RelOp)
    requires a.end + 1 < |a.code| && Emits(Jump(a).0, x, ns, nodes) && x.end < |x.code|
    ensures var b := WithRelation(x, a.end, rel);
            Emits(a, b, ns, [CmpNode(Rel(rel))] + nodes) && b == x.(code := b.code) && |b.code| == |x.code|
  {
    FillHole(x, a.end, CmpNode(Rel(rel)));
    assert x.code[..a.end] == x.code[..x.end][..a.end] == a.code[..a.end];
    assert x.code[a.end + 1..x.end] == x.code[..x.end][a.end + 1..] == nodes;
  }

  lemma ComparisonParts(ts: seq<Token>, pos: nat, c: Comparison)
    requires TextAt(ts, pos, ComparisonText(c))
    ensures var mid := pos + |TermText(c.left)|;
            && TextAt(ts, pos, TermText(c.left)) && TokenAt(ts, mid) == CmpToken(c.rel)
            && TextAt(ts, mid + 1, TermText(c.right))
            && mid + 1 + |TermText(c.right)| == pos + |ComparisonText(c)| <= |ts|
  {
    TextSplit(ts, pos, TermText(c.left) + [CmpToken(c.rel)], TermText(c.right));
    TextSplit(ts, pos, TermText(c.left), [CmpToken(c.rel)]);
  }

  lemma LeftCompiles(ts: seq<Token>, pos: nat, a: Asm, c: Comparison) returns (x: Parse, d: Asm)
    requires WellFormed(c.left) && TextAt(ts, pos, ComparisonText(c))
    requires pos <= |ts| && Need(ts, pos, a) + 1 <= |a.code| && Names(a, ComparisonNames(c))
    ensures x == ParseExpr(ts, pos, Jump(a).0) && x.status == OK && x.pos == pos + |TermText(c.left)|
    ensures d == WithRelation(x.asm, a.end, c.rel) && x.asm.end < |x.asm.code|
    ensures Emits(a, d, TermNames(c.left), [CmpNode(Rel(c.rel))] + NodesOf(TermExpr(d.names, c.left)))
    ensures Room(ts, x.pos + 1, d) && Names(d, TermNames(c.right))
  {
    hide ParseExpr, TextAt, TermText, ComparisonText, Packed;
    ComparisonParts(ts, pos, c);
    var b := Jump(a).0;
    FewerNames(a, ComparisonNames(c), TermNames(c.left));
    TermCompiles(ts, pos, b, c.left);
    x := ParseExpr(ts, pos, b);
    d := WithRelation(x.asm, a.end, c.rel);
    RelationEmits(a, x.asm, TermNames(c.left), NodesOf(TermExpr(x.asm.names, c.left)), c.rel);
    NamesLater(a, d, ComparisonNames(c), TermNames(c.left), [CmpNode(Rel(c.rel))] + NodesOf(TermExpr(x.asm.names, c.left)));
    FewerNames(d, ComparisonNames(c), TermNames(c.right));
  }

  lemma ComparisonCompiles(ts: seq<Token>, pos: nat, a: Asm, c: Comparison)
    requires WellFormed(c.left) && WellFormed(c.right) && TextAt(ts, pos, ComparisonText(c))
    requires !TokenAt(ts, pos + |ComparisonText(c)|).ArithToken?
    requires pos <= |ts| && Need(ts, pos, a) + 1 <= |a.code| && Names(a, ComparisonNames(c))
    ensures ComparisonDone(ts, pos, a, c, ParseComparison(ts, pos, a))
  {
    hide ParseExpr, TextAt, TermText, ComparisonText, Emits, Names, WithRelation;
    ComparisonParts(ts, pos, c);
    var x, d := LeftCompiles(ts, pos, a, c);
    TermCompiles(ts, x.pos + 1, d, c.right);
    var y := ParseExpr(ts, x.pos + 1, d);
    BothSides(a, d, y.asm, c);
    ComparisonUnfolds(ts, pos, a, c.rel, x, y);
  }

  lemma ComparisonUnfolds(ts: seq<Token>, pos: nat, a: Asm, rel: RelOp, x: Parse, y: Parse)
    requires pos <= |ts| && x == ParseExpr(ts, pos, Jump(a).0) && x.status == OK
    requires x.pos < |ts| && TokenAt(ts, x.pos) == CmpToken(rel)
    requires y == ParseExpr(ts, x.pos + 1, WithRelation(x.asm, a.end, rel)) && y.status == OK
    ensures ParseComparison(ts, pos, a) == y
  {
    hide ParseExpr;
  }

  lemma BothSides(a: Asm, d: Asm, y: Asm, c: Comparison)
    requires Emits(a, d, TermNames(c.left), [CmpNode(Rel(c.rel))] + NodesOf(TermExpr(d.names, c.left)))
    requires Emits(d, y, TermNames(c.right), NodesOf(TermExpr(y.names, c.right)))
    ensures Emits(a, y, ComparisonNames(c), Encode(ComparisonPred(y.names, c)))
  {
    EmitsThen(a, d, y, TermNames(c.left), TermNames(c.right),
              [CmpNode(Rel(c.rel))] + NodesOf(TermExpr(d.names, c.left)), NodesOf(TermExpr(y.names, c.right)));
    TermStable(d.names, y.names, c.left);
  }

  // ---------------------------------------------------------------- clauses

  function Remaining(w: Clause): (n: nat) {
    if w.More? then 1 + |ClauseText(w.rest)| else 0
  }

  /** What the loop of parse_where leaves when it starts behind the first comparison of w. */
  predicate LoopDone(pos: nat, a0: Asm, w: Clause, r: Parse) {
    && r.status == OK && r.pos == pos + Remaining(w)
    && Emits(a0, r.asm, ClauseNames(w), Encode(ClausePred(r.asm.names, w)))
  }

  predicate EndsClause(t: Token) {
    Stops(t) && t != AndToken && t != OrToken
  }

  /** The next connective is inserted before the last comparison. */
  lemma NextConnective(ts: seq<Token>, pos: nat, a0: Asm, a: Asm, w: Clause) returns (b: Asm)
    requires w.More? && pos + 2 <= |ts| && Need(ts, pos, a) <= |a.code| && Names(a, ClauseNames(w))
    requires Emits(a0, a, ComparisonNames(w.c), Encode(ComparisonPred(a.names, w.c)))
    ensures Insert(a, a0.end, CmpNode(Conn(w.conn))) == (b, b.end)
    ensures Emits(a0, b, ComparisonNames(w.c), [CmpNode(Conn(w.conn))] + Encode(ComparisonPred(b.names, w.c)))
    ensures Need(ts, pos + 1, b) + 1 <= |b.code| && Names(b, ClauseNames(w.rest))
  {
    hide Emits;
    InsertEmits(a0, a, ComparisonNames(w.c), Encode(ComparisonPred(a.names, w.c)), CmpNode(Conn(w.conn)));
    b := Insert(a, a0.end, CmpNode(Conn(w.conn))).0;
    FewerNames(a, ClauseNames(w), ClauseNames(w.rest));
  }

  /** The first comparison of a clause is compiled. */
  lemma CompileFirst(ts: seq<Token>, pos: nat, a: Asm, w: Clause) returns (r: Parse)
    requires WellFormedClause(w) && pos <= |ts| && TextAt(ts, pos, ComparisonText(w.c))
    requires Need(ts, pos, a) + 1 <= |a.code| && Names(a, ClauseNames(w))
    requires Stops(TokenAt(ts, pos + |ComparisonText(w.c)|))
    ensures r == ParseComparison(ts, pos, a) && r.status == OK && r.pos == pos + |ComparisonText(w.c)| <= |ts|
    ensures Emits(a, r.asm, ComparisonNames(w.c), Encode(ComparisonPred(r.asm.names, w.c)))
    ensures Need(ts, r.pos, r.asm) <= |r.asm.code| && Names(r.asm, ClauseNames(w))
  {
    hide ParseComparison, TextAt, ComparisonText, Emits;
    FewerNames(a, ClauseNames(w), ComparisonNames(w.c));
    ComparisonCompiles(ts, pos, a, w.c);
    r := ParseComparison(ts, pos, a);
    NamesLater(a, r.asm, ClauseNames(w), ComparisonNames(w.c), Encode(ComparisonPred(r.asm.names, w.c)));
  }

  lemma ConnectiveParts(ts: seq<Token>, pos: nat, w: Clause)
    requires w.More? && WellFormedClause(w) && TextAt(ts, pos, [ConnText(w.conn)] + ClauseText(w.rest))
    requires EndsClause(TokenAt(ts, pos + Remaining(w)))
    ensures pos + 2 <= |ts| && TokenAt(ts, pos) == ConnText(w.conn) && TokenAt(ts, pos + 1) != LeftParen
    ensures TextAt(ts, pos + 1, ComparisonText(w.rest.c))
    ensures var e := pos + 1 + |ComparisonText(w.rest.c)|;
            && (w.rest.More? ==> TextAt(ts, e, [ConnText(w.rest.conn)] + ClauseText(w.rest.rest)))
            && e + Remaining(w.rest) == pos + Remaining(w) && Stops(TokenAt(ts, e))
  {
    hide ComparisonText, WellFormed, AtomText;
    TextSplit(ts, pos, [ConnText(w.conn)], ClauseText(w.rest));
    ClauseStart(ts, pos + 1, w.rest);
  }

  lemma LoopUnfolds(ts: seq<Token>, pos: nat, a: Asm, saved: nat, conn: Connective, b: Asm, r: Parse)
    requires pos < |ts| && TokenAt(ts, pos) == ConnText(conn) && conn != Not && TokenAt(ts, pos + 1) != LeftParen
    requires (b, b.end) == Insert(a, saved, CmpNode(Conn(conn)))
    requires r == ParseComparison(ts, pos + 1, b) && r.status == OK
    ensures WhereLoop(ts, pos, a, saved) == WhereLoop(ts, r.pos, r.asm, b.end)
  {
    hide ParseComparison, ParseWhere;
  }

  /** From a state in which the last comparison stands alone after `saved`, the remaining ones are added. */
  lemma {:induction false} LoopCompiles(ts: seq<Token>, pos: nat, a0: Asm, a: Asm, w: Clause)
    requires WellFormedClause(w) && AtLoop(ts, pos, a0, a, w)
    ensures LoopDone(pos, a0, w, WhereLoop(ts, pos, a, a0.end))
    decreases w
  {
    hide ParseComparison, ParseWhere, WhereLoop, TextAt, Emits, Names, ComparisonText, Keeps, Need;
    if w.Last? {
      LoopEnds(ts, pos, a0, a, w);
    } else {
      var b, r := LoopBody(ts, pos, a0, a, w);
      LoopCompiles(ts, r.pos, b, r.asm, w.rest);
      JoinLoop(ts, pos, a0, b, w, r);
    }
  }

  /** The loop of parse_where stands behind the first comparison of w, which was compiled after a0. */
  ghost predicate AtLoop(ts: seq<Token>, pos: nat, a0: Asm, a: Asm, w: Clause) {
    && pos <= |ts| && Need(ts, pos, a) <= |a.code| && Names(a, ClauseNames(w))
    && Emits(a0, a, ComparisonNames(w.c), Encode(ComparisonPred(a.names, w.c)))
    && (w.More? ==> TextAt(ts, pos, [ConnText(w.conn)] + ClauseText(w.rest)))
    && EndsClause(TokenAt(ts, pos + Remaining(w)))
  }

  lemma LoopBody(ts: seq<Token>, pos: nat, a0: Asm, a: Asm, w: Clause) returns (b: Asm, r: Parse)
    requires w.More? && WellFormedClause(w) && AtLoop(ts, pos, a0, a, w)
    ensures AtLoop(ts, r.pos, b, r.asm, w.rest) && r.pos + Remaining(w.rest) == pos + Remaining(w)
    ensures Emits(a0, b, ComparisonNames(w.c), [CmpNode(Conn(w.conn))] + Encode(ComparisonPred(b.names, w.c)))
    ensures WhereLoop(ts, pos, a, a0.end) == WhereLoop(ts, r.pos, r.asm, b.end)
  {
    hide ParseComparison, WhereLoop, ParseWhere, TextAt, Emits, Names, ComparisonText, Keeps;
    ConnectiveParts(ts, pos, w);
    b := NextConnective(ts, pos, a0, a, w);
    r := CompileFirst(ts, pos + 1, b, w.rest);
    LoopUnfolds(ts, pos, a, a0.end, w.conn, b, r);
  }

  lemma JoinLoop(ts: seq<Token>, pos: nat, a0: Asm, b: Asm, w: Clause, r: Parse)
    requires w.More? && WellFormedClause(w) && r.pos <= |ts| && r.pos + Remaining(w.rest) == pos + Remaining(w)
    requires Emits(a0, b, ComparisonNames(w.c), [CmpNode(Conn(w.conn))] + Encode(ComparisonPred(b.names, w.c)))
    requires LoopDone(r.pos, b, w.rest, WhereLoop(ts, r.pos, r.asm, b.end))
    ensures LoopDone(pos, a0, w, WhereLoop(ts, r.pos, r.asm, b.end))
  {
    hide WhereLoop, Emits, Keeps;
    JoinEmits(a0, b, WhereLoop(ts, r.pos, r.asm, b.end).asm, w);
  }

  lemma LoopEnds(ts: seq<Token>, pos: nat, a0: Asm, a: Asm, w: Clause)
    requires w.Last? && pos <= |ts| && EndsClause(TokenAt(ts, pos))
    requires Emits(a0, a, ComparisonNames(w.c), Encode(ComparisonPred(a.names, w.c)))
    ensures LoopDone(pos, a0, w, WhereLoop(ts, pos, a, a0.end))
  {
    hide ParseComparison, ParseWhere, Emits;
    assert ClauseNames(w) == ComparisonNames(w.c);
  }

  lemma ComparisonStable(names: seq<string>, later: seq<string>, c: Comparison)
    requires Packed(names) && Extends(names, later) && ComparisonNames(c) <= Used(names)
    ensures ComparisonPred(later, c) == ComparisonPred(names, c)
  {
    TermStable(names, later, c.left);
    TermStable(names, later, c.right);
  }

  lemma JoinEmits(a0: Asm, b: Asm, z: Asm, w: Clause)
    requires w.More? && w.conn != Not
    requires Emits(a0, b, ComparisonNames(w.c), [CmpNode(Conn(w.conn))] + Encode(ComparisonPred(b.names, w.c)))
    requires Emits(b, z, ClauseNames(w.rest), Encode(ClausePred(z.names, w.rest)))
    ensures Emits(a0, z, ClauseNames(w), Encode(ClausePred(z.names, w)))
  {
    var first := [CmpNode(Conn(w.conn))] + Encode(ComparisonPred(b.names, w.c));
    var rest := Encode(ClausePred(z.names, w.rest));
    ComparisonStable(b.names, z.names, w.c);
    assert Encode(ClausePred(z.names, w)) == first + rest;
    EmitsThen(a0, b, z, ComparisonNames(w.c), ClauseNames(w.rest), first, rest);
    assert ClauseNames(w) == ComparisonNames(w.c) + ClauseNames(w.rest);
  }

  lemma ClauseSplit(ts: seq<Token>, pos: nat, w: Clause)
    requires TextAt(ts, pos, ClauseText(w)) && WellFormedClause(w)
    requires EndsClause(TokenAt(ts, pos + |ClauseText(w)|))
    ensures TextAt(ts, pos, ComparisonText(w.c))
    ensures var e := pos + |ComparisonText(w.c)|;
            && (w.More? ==> TextAt(ts, e, [ConnText(w.conn)] + ClauseText(w.rest)))
            && e + Remaining(w) == pos + |ClauseText(w)| && Stops(TokenAt(ts, e))
  {
    hide ComparisonText, TextAt, WellFormed;
    if w.More? {
      assert ClauseText(w) == ComparisonText(w.c) + ([ConnText(w.conn)] + ClauseText(w.rest));
      TextSplit(ts, pos, ComparisonText(w.c), [ConnText(w.conn)] + ClauseText(w.rest));
    }
  }

  /** The text of a clause starts with its first comparison. */
  lemma ClauseStart(ts: seq<Token>, pos: nat, w: Clause)
    requires TextAt(ts, pos, ClauseText(w)) && WellFormedClause(w)
    requires EndsClause(TokenAt(ts, pos + |ClauseText(w)|))
    ensures TextAt(ts, pos, ComparisonText(w.c))
    ensures var e := pos + |ComparisonText(w.c)|;
            && (w.More? ==> TextAt(ts, e, [ConnText(w.conn)] + ClauseText(w.rest)))
            && e + Remaining(w) == pos + |ClauseText(w)| && Stops(TokenAt(ts, e))
    ensures TokenAt(ts, pos) != LeftParen
  {
    ClauseSplit(ts, pos, w);
    hide ClauseText;
    ComparisonParts(ts, pos, w.c);
    FirstToken(ts, pos, w.c.left);
  }

  /** A clause that is followed by a token that cannot continue it compiles, from an empty code buffer
    * with room for two nodes per token, to exactly the prefix code of its predicate. */
  lemma ClauseCompiles(ts: seq<Token>, pos: nat, a: Asm, w: Clause)
    requires WellFormedClause(w) && TextAt(ts, pos, ClauseText(w)) && EndsClause(TokenAt(ts, pos + |ClauseText(w)|))
    requires pos <= |ts| && a.end == 0 && 2 * (|ts| - pos) < |a.code| && Names(a, ClauseNames(w))
    ensures var r := ParseWhere(ts, pos, a);
            && r.status == OK && r.pos == pos + |ClauseText(w)|
            && Emits(a, r.asm, ClauseNames(w), Encode(ClausePred(r.asm.names, w)))
            && Emitted(r.asm) == Encode(ClausePred(r.asm.names, w))
  {
    hide ParseComparison, ParseWhere, WhereLoop, Emits, TextAt, Names, ComparisonText, ClauseText;
    FirstComparison(ts, pos, a, w);
    WhereUnfolds(ts, pos, a);
    var x := ParseComparison(ts, pos, a);
    LoopCompiles(ts, x.pos, a, x.asm, w);
    EmittedFromStart(a, ParseWhere(ts, pos, a).asm, ClauseNames(w), Encode(ClausePred(ParseWhere(ts, pos, a).asm.names, w)));
  }

  lemma WhereUnfolds(ts: seq<Token>, pos: nat, a: Asm)
    requires pos <= |ts| && ParseComparison(ts, pos, a).status == OK
    ensures var x := ParseComparison(ts, pos, a);
            ParseWhere(ts, pos, a) == WhereLoop(ts, x.pos, x.asm, 0)
  {
    hide ParseComparison, WhereLoop;
  }

  lemma EmittedFromStart(a: Asm, b: Asm, ns: set<string>, nodes: seq<Node>)
    requires a.end == 0 && Emits(a, b, ns, nodes)
    ensures Emitted(b) == nodes
  {
  }

  lemma FirstComparison(ts: seq<Token>, pos: nat, a: Asm, w: Clause)
    requires WellFormedClause(w) && TextAt(ts, pos, ClauseText(w)) && EndsClause(TokenAt(ts, pos + |ClauseText(w)|))
    requires pos <= |ts| && a.end == 0 && 2 * (|ts| - pos) < |a.code| && Names(a, ClauseNames(w))
    ensures var x := ParseComparison(ts, pos, a);
            && x.status == OK && AtLoop(ts, x.pos, a, x.asm, w)
            && x.pos + Remaining(w) == pos + |ClauseText(w)|
  {
    hide ParseComparison, Emits, TextAt, ComparisonText, Names, Keeps;
    ClauseStart(ts, pos, w);
    var x := CompileFirst(ts, pos, a, w);
  }
}
