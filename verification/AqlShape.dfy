/** Which WHERE clauses are accepted (apps/antelope/aql-parser.c). */
module AqlShape {
  // Whatever code the parser emits: where it stands after a clause, what it does with conditions in
  // parentheses, and with a condition that fails behind a connective.

  import opened LvmCode
  import opened LvmAssembler
  import opened AqlText
  import opened AqlParser
  import opened AqlCorrect

  // ---------------------------------------------------------------- where the parser stands

  /** parse_expr has taken the term whose text ends at e. */
  predicate Taken(ts: seq<Token>, e: nat, r: Parse) {
    r.status == OK && r.pos == Behind(ts, e)
  }

  lemma AtomTaken(ts: seq<Token>, pos: nat, a: Asm, x: Atom)
    requires pos < |ts| && TokenAt(ts, pos) == AtomText(x)
    ensures ParseOperand(ts, pos, a).status == OK && ParseOperand(ts, pos, a).pos == pos + 1
  {
  }

  lemma {:induction false} TermTaken(ts: seq<Token>, pos: nat, a: Asm, t: Term)
    requires WellFormed(t) && TextAt(ts, pos, TermText(t)) && !TokenAt(ts, pos + |TermText(t)|).ArithToken?
    ensures Taken(ts, pos + |TermText(t)|, ParseExpr(ts, pos, a))
    decreases t, 1
  {
    FirstToken(ts, pos, t);
    hide TextAt, ParseOperand, ExprLoop;
    AtomTaken(ts, pos, a, t.a);
    var r := ParseOperand(ts, pos, a);
    if t.Single? {
      LoopStops(ts, pos + 1, r.asm, a.end);
    } else {
      OperatorTaken(ts, pos, r.asm, a.end, t);
    }
  }

  lemma {:induction false} RightSideTaken(ts: seq<Token>, pos: nat, a: Asm, nested: bool, t: Term)
    requires WellFormed(t) && (nested || t.Single?)
    requires TextAt(ts, pos, if nested then [LeftParen] + TermText(t) + [RightParen] else TermText(t))
    ensures RightSide(ts, pos, a).status == OK
    ensures RightSide(ts, pos, a).pos == pos + |TermText(t)| + if nested then 2 else 0
    decreases t, 2
  {
    if nested {
      TextSplit(ts, pos, [LeftParen] + TermText(t), [RightParen]);
      TextSplit(ts, pos, [LeftParen], TermText(t));
      hide TextAt, ParseExpr;
      TermTaken(ts, pos + 1, a, t);
    } else {
      TextSplit(ts, pos, TermText(t), []);
      AtomTaken(ts, pos, a, t.a);
    }
  }

  lemma {:induction false} OperatorTaken(ts: seq<Token>, pos: nat, b: Asm, saved: nat, t: Term)
    requires t.Combined? && WellFormed(t) && !TokenAt(ts, pos + |TermText(t)|).ArithToken?
    requires pos + 2 <= |ts| && TokenAt(ts, pos + 1) == ArithToken(t.op)
    requires TextAt(ts, pos + 2, if t.nested then [LeftParen] + TermText(t.rest) + [RightParen] else TermText(t.rest))
    ensures Taken(ts, pos + |TermText(t)|, ExprLoop(ts, pos + 1, b, saved))
    decreases t, 0
  {
    hide TextAt, RightSide, ExprLoop, Insert;
    RightSideTaken(ts, pos + 2, b, t.nested, t.rest);
    LoopTakes(ts, pos, b, saved, t.op);
    var r := RightSide(ts, pos + 2, b);
    var (d, end) := Insert(r.asm, saved, ArithNode(Arith(t.op)));
    LoopStops(ts, r.pos, d, end);
  }

  lemma LoopTakes(ts: seq<Token>, pos: nat, b: Asm, saved: nat, op: ArithOp)
    requires pos + 2 <= |ts| && TokenAt(ts, pos + 1) == ArithToken(op) && RightSide(ts, pos + 2, b).status == OK
    ensures var r := RightSide(ts, pos + 2, b); var (d, end) := Insert(r.asm, saved, ArithNode(Arith(op)));
            ExprLoop(ts, pos + 1, b, saved) == ExprLoop(ts, r.pos, d, end)
  {
    hide ParseExpr, ParseOperand, Insert;
  }

  lemma ComparisonTaken(ts: seq<Token>, pos: nat, a: Asm, c: Comparison)
    requires WellFormed(c.left) && WellFormed(c.right) && TextAt(ts, pos, ComparisonText(c))
    requires !TokenAt(ts, pos + |ComparisonText(c)|).ArithToken?
    ensures Taken(ts, pos + |ComparisonText(c)|, ParseComparison(ts, pos, a))
  {
    hide ParseExpr, TextAt, TermText, ComparisonText;
    ComparisonParts(ts, pos, c);
    var b := Jump(a).0;
    TermTaken(ts, pos, b, c.left);
    var x := ParseExpr(ts, pos, b);
    RelationTaken(ts, x.pos, x.asm, Jump(a).1, c.rel, c.right);
  }

  lemma RelationTaken(ts: seq<Token>, pos: nat, a: Asm, hole: nat, rel: RelOp, t: Term)
    requires pos < |ts| && TokenAt(ts, pos) == CmpToken(rel) && WellFormed(t) && TextAt(ts, pos + 1, TermText(t))
    requires !TokenAt(ts, pos + 1 + |TermText(t)|).ArithToken?
    ensures Taken(ts, pos + 1 + |TermText(t)|, ParseRelation(ts, pos, a, hole))
  {
    hide ParseExpr, TextAt, TermText;
    var (b, end) := SetEnd(a, hole);
    TermTaken(ts, pos + 1, SetEnd(Put(b, CmpNode(Rel(rel))), end).0, t);
  }

  predicate Connects(t: Token) { t == AndToken || t == OrToken }

  /** parse_where stands in its loop at the position `pos`. */
  datatype Standing = Standing(pos: nat, asm: Asm, saved: nat) {
    function Onward(ts: seq<Token>): Parse
      requires pos <= |ts|
    {
      WhereLoop(ts, pos, asm, saved)
    }
  }

  /** The first comparison of a clause, and what follows it. */
  lemma ClauseParts(ts: seq<Token>, pos: nat, w: Clause)
    requires TextAt(ts, pos, ClauseText(w)) && WellFormedClause(w)
    ensures var e := pos + |ComparisonText(w.c)|;
            && TextAt(ts, pos, ComparisonText(w.c)) && TokenAt(ts, pos) == AtomText(w.c.left.a) && e <= |ts|
            && (w.Last? ==> pos + |ClauseText(w)| == e)
            && (w.More? ==> e < |ts| && TokenAt(ts, e) == ConnText(w.conn) && TextAt(ts, e + 1, ClauseText(w.rest))
                            && e + 1 + |ClauseText(w.rest)| == pos + |ClauseText(w)|)
  {
    hide ComparisonText, WellFormed;
    if w.More? {
      TextSplit(ts, pos, ComparisonText(w.c) + [ConnText(w.conn)], ClauseText(w.rest));
      TextSplit(ts, pos, ComparisonText(w.c), [ConnText(w.conn)]);
    }
    ComparisonParts(ts, pos, w.c);
    FirstToken(ts, pos, w.c.left);
  }

  lemma NextTaken(ts: seq<Token>, pos: nat, a: Asm, saved: nat, c: Comparison) returns (s: Standing)
    requires pos < |ts| && Connects(TokenAt(ts, pos)) && TokenAt(ts, pos + 1) == AtomText(c.left.a)
    requires WellFormed(c.left) && WellFormed(c.right) && TextAt(ts, pos + 1, ComparisonText(c))
    requires !TokenAt(ts, pos + 1 + |ComparisonText(c)|).ArithToken?
    ensures s.pos == Behind(ts, pos + 1 + |ComparisonText(c)|) <= |ts| && WhereLoop(ts, pos, a, saved) == s.Onward(ts)
  {
    hide ParseComparison, ParseWhere, Insert, TextAt, ComparisonText;
    var next := Insert(a, saved, CmpNode(Conn(if TokenAt(ts, pos) == AndToken then And else Or)));
    ComparisonTaken(ts, pos + 1, next.0, c);
    var x := ParseComparison(ts, pos + 1, next.0);
    s := Standing(x.pos, x.asm, next.1);
  }

  /** The loop goes on over a connective and the clause behind it. */
  lemma {:induction false} ClauseContinues(ts: seq<Token>, pos: nat, a: Asm, saved: nat, w: Clause) returns (s: Standing)
    requires WellFormedClause(w) && pos < |ts| && Connects(TokenAt(ts, pos)) && TextAt(ts, pos + 1, ClauseText(w))
    requires !TokenAt(ts, pos + 1 + |ClauseText(w)|).ArithToken?
    ensures s.pos == Behind(ts, pos + 1 + |ClauseText(w)|) <= |ts| && WhereLoop(ts, pos, a, saved) == s.Onward(ts)
    decreases w
  {
    hide WhereLoop, TextAt, ComparisonText, ClauseText;
    ClauseParts(ts, pos + 1, w);
    s := NextTaken(ts, pos, a, saved, w.c);
    if w.More? {
      s := ClauseContinues(ts, s.pos, s.asm, s.saved, w.rest);
    }
  }

  /** parse_where takes a clause, and a closing parenthesis behind it. */
  lemma ClauseTaken(ts: seq<Token>, pos: nat, a: Asm, w: Clause) returns (s: Standing)
    requires WellFormedClause(w) && pos <= |ts| && TextAt(ts, pos, ClauseText(w)) && !TokenAt(ts, pos + |ClauseText(w)|).ArithToken?
    ensures s.pos == Behind(ts, pos + |ClauseText(w)|) <= |ts| && ParseWhere(ts, pos, a) == s.Onward(ts)
  {
    hide ParseComparison, WhereLoop, TextAt, ComparisonText, ClauseText;
    ClauseParts(ts, pos, w);
    ComparisonTaken(ts, pos, a, w.c);
    var x := ParseComparison(ts, pos, a);
    s := Standing(x.pos, x.asm, 0);
    if w.More? {
      s := ClauseContinues(ts, s.pos, s.asm, s.saved, w.rest);
    }
  }

  lemma LoopEndsAt(ts: seq<Token>, s: Standing)
    requires s.pos <= |ts| && !Connects(TokenAt(ts, s.pos))
    ensures s.Onward(ts) == Parse(OK, s.pos, s.asm)
  {
  }

  // ---------------------------------------------------------------- conditions in parentheses

  /** What follows a condition in parentheses: nothing of the clause, or a connective and more of it. */
  datatype Rest = Nothing | Further(conn: Connective, more: Clause)

  function RestText(r: Rest): seq<Token> {
    if r.Nothing? then [] else [ConnText(r.conn)] + ClauseText(r.more)
  }

  /** A clause, a connective, a clause in parentheses, and what follows. */
  function ParenthesisText(v: Clause, conn: Connective, w: Clause, r: Rest): seq<Token> {
    ClauseText(v) + [ConnText(conn), LeftParen] + ClauseText(w) + [RightParen] + RestText(r)
  }

  predicate WellFormedRest(r: Rest) {
    r.Further? ==> r.conn != Not && WellFormedClause(r.more)
  }

  lemma ParenthesisParts(ts: seq<Token>, pos: nat, v: Clause, conn: Connective, w: Clause, r: Rest)
    requires TextAt(ts, pos, ParenthesisText(v, conn, w, r))
    ensures var m := pos + |ClauseText(v)|; var e := m + 2 + |ClauseText(w)|;
            && TextAt(ts, pos, ClauseText(v)) && TokenAt(ts, m) == ConnText(conn) && TokenAt(ts, m + 1) == LeftParen
            && TextAt(ts, m + 2, ClauseText(w)) && TokenAt(ts, e) == RightParen && TextAt(ts, e + 1, RestText(r))
            && e + 1 + |RestText(r)| == pos + |ParenthesisText(v, conn, w, r)| <= |ts|
  {
    hide ClauseText, RestText;
    var x := ClauseText(v) + [ConnText(conn), LeftParen];
    TextSplit(ts, pos, x + ClauseText(w) + [RightParen], RestText(r));
    TextSplit(ts, pos, x + ClauseText(w), [RightParen]);
    TextSplit(ts, pos, x, ClauseText(w));
    TextSplit(ts, pos, ClauseText(v), [ConnText(conn), LeftParen]);
    TextSplit(ts, pos + |ClauseText(v)|, [ConnText(conn)], [LeftParen]);
  }

  /** The clause inside the parentheses takes its closing parenthesis, goes on over what follows, and takes
    * a closing parenthesis there as well. */
  lemma InParenthesis(ts: seq<Token>, pos: nat, b: Asm, w: Clause, r: Rest) returns (s: Standing)
    requires WellFormedClause(w) && WellFormedRest(r) && pos <= |ts| && TextAt(ts, pos, ClauseText(w))
    requires var e := pos + |ClauseText(w)|;
             TokenAt(ts, e) == RightParen && TextAt(ts, e + 1, RestText(r)) && !TokenAt(ts, e + 1 + |RestText(r)|).ArithToken?
    ensures var f := pos + |ClauseText(w)| + 1 + |RestText(r)|;
            s.pos == (if r.Nothing? then f else Behind(ts, f)) <= |ts|
    ensures ParseWhere(ts, pos, b) == s.Onward(ts)
  {
    hide ParseWhere, WhereLoop, ClauseText;
    s := ClauseTaken(ts, pos, b, w);
    if r.Further? {
      TextSplit(ts, s.pos, [ConnText(r.conn)], ClauseText(r.more));
      hide TextAt;
      s := ClauseContinues(ts, s.pos, s.asm, s.saved, r.more);
    }
  }

  /** A clause with a condition in parentheses is rejected unless a closing parenthesis too many stands where
    * the parser, inside the parentheses still, has come to: behind the clause, and behind one more closing
    * parenthesis if the clause goes on after the condition. */
  lemma ParenthesisRejected(ts: seq<Token>, pos: nat, a: Asm, v: Clause, conn: Connective, w: Clause, r: Rest)
    requires WellFormedClause(v) && conn != Not && WellFormedClause(w) && WellFormedRest(r)
    requires pos <= |ts| && TextAt(ts, pos, ParenthesisText(v, conn, w, r))
    requires var f := pos + |ParenthesisText(v, conn, w, r)|; var g := if r.Nothing? then f else Behind(ts, f);
             !TokenAt(ts, f).ArithToken? && !Connects(TokenAt(ts, g)) && !Connects(TokenAt(ts, g + 1))
    ensures var f := pos + |ParenthesisText(v, conn, w, r)|; var g := if r.Nothing? then f else Behind(ts, f);
            && (ParseWhere(ts, pos, a).status == SYNTAX_ERROR <==> TokenAt(ts, g) != RightParen)
            && (ParseWhere(ts, pos, a).status == OK <==> TokenAt(ts, g) == RightParen)
  {
    hide ParseWhere, WhereLoop, TextAt, ClauseText, RestText, ParenthesisText, Insert;
    ParenthesisParts(ts, pos, v, conn, w, r);
    var before := ClauseTaken(ts, pos, a, v);
    var (b, end) := Insert(before.asm, before.saved, CmpNode(Conn(conn)));
    var inside := InParenthesis(ts, before.pos + 2, b, w, r);
    LoopEndsAt(ts, inside);
    ParenthesisEnds(ts, before, conn, b, end, inside);
  }

  lemma ParenthesisEnds(ts: seq<Token>, before: Standing, conn: Connective, b: Asm, end: nat, inside: Standing)
    requires conn != Not && before.pos + 2 <= |ts| && TokenAt(ts, before.pos) == ConnText(conn) && TokenAt(ts, before.pos + 1) == LeftParen
    requires (b, end) == Insert(before.asm, before.saved, CmpNode(Conn(conn))) && inside.pos <= |ts|
    requires ParseWhere(ts, before.pos + 2, b) == Parse(OK, inside.pos, inside.asm) && !Connects(TokenAt(ts, inside.pos + 1))
    ensures before.Onward(ts).status == if TokenAt(ts, inside.pos) == RightParen then OK else SYNTAX_ERROR
  {
    hide ParseWhere, Insert;
    var z := ParseConnected(ts, before.pos + 1, b);
    assert z == if TokenAt(ts, inside.pos) == RightParen then Parse(OK, inside.pos + 1, inside.asm)
                else Parse(SYNTAX_ERROR, AqlParser.Next(ts, inside.pos), inside.asm);
    if TokenAt(ts, inside.pos) == RightParen {
      LoopEndsAt(ts, Standing(inside.pos + 1, inside.asm, end));
    }
  }

  // ---------------------------------------------------------------- conditions that fail behind a connective

  /** Same outcome at the same position; the code may differ. */
  predicate Alike(x: Parse, y: Parse) { x.status == y.status && x.pos == y.pos }

  lemma {:induction false} ExprAlike(ts: seq<Token>, pos: nat, a: Asm, b: Asm)
    requires pos <= |ts|
    ensures Alike(ParseExpr(ts, pos, a), ParseExpr(ts, pos, b))
    decreases |ts| - pos, 1
  {
    hide ExprLoop, ParseOperand;
    if TokenAt(ts, pos) == LeftParen {
      ExprAlike(ts, pos + 1, a, b);
      var r, s := ParseExpr(ts, pos + 1, a), ParseExpr(ts, pos + 1, b);
      if !Failed(r.status) && TokenAt(ts, r.pos) == RightParen {
        LoopAlike(ts, r.pos + 1, r.asm, a.end, s.asm, b.end);
      }
    } else {
      OperandAlike(ts, pos, a, b);
      var r, s := ParseOperand(ts, pos, a), ParseOperand(ts, pos, b);
      if !Failed(r.status) {
        LoopAlike(ts, r.pos, r.asm, a.end, s.asm, b.end);
      }
    }
  }

  lemma OperandAlike(ts: seq<Token>, pos: nat, a: Asm, b: Asm)
    requires pos <= |ts|
    ensures Alike(ParseOperand(ts, pos, a), ParseOperand(ts, pos, b))
  {
  }

  lemma {:induction false} LoopAlike(ts: seq<Token>, pos: nat, a: Asm, savedA: nat, b: Asm, savedB: nat)
    requires pos <= |ts|
    ensures Alike(ExprLoop(ts, pos, a, savedA), ExprLoop(ts, pos, b, savedB))
    decreases |ts| - pos, 0
  {
    if TokenAt(ts, pos).ArithToken? {
      hide ParseOperand, ParseExpr, Insert;
      OperandAlike(ts, pos + 1, a, b);
      var x, y := ParseOperand(ts, pos + 1, a), ParseOperand(ts, pos + 1, b);
      if Failed(x.status) {
        ExprAlike(ts, x.pos, x.asm, y.asm);
      }
      var r, s := RightSide(ts, pos + 1, a), RightSide(ts, pos + 1, b);
      if !Failed(r.status) {
        var op := ArithNode(Arith(TokenAt(ts, pos).op));
        var c, d := Insert(r.asm, savedA, op), Insert(s.asm, savedB, op);
        LoopAlike(ts, r.pos, c.0, c.1, d.0, d.1);
      }
    }
  }

  lemma ComparisonAlike(ts: seq<Token>, pos: nat, a: Asm, b: Asm)
    requires pos <= |ts|
    ensures Alike(ParseComparison(ts, pos, a), ParseComparison(ts, pos, b))
  {
    hide ParseExpr, ParseRelation;
    ExprAlike(ts, pos, Jump(a).0, Jump(b).0);
    var x, y := ParseExpr(ts, pos, Jump(a).0), ParseExpr(ts, pos, Jump(b).0);
    RelationAlike(ts, x.pos, x.asm, Jump(a).1, y.asm, Jump(b).1);
  }

  lemma RelationAlike(ts: seq<Token>, pos: nat, a: Asm, holeA: nat, b: Asm, holeB: nat)
    requires pos <= |ts|
    ensures Alike(ParseRelation(ts, pos, a, holeA), ParseRelation(ts, pos, b, holeB))
  {
    hide ParseExpr;
    var t := TokenAt(ts, pos);
    if t.CmpToken? {
      var x, y := SetEnd(a, holeA), SetEnd(b, holeB);
      ExprAlike(ts, pos + 1, SetEnd(Put(x.0, CmpNode(Rel(t.rel))), x.1).0, SetEnd(Put(y.0, CmpNode(Rel(t.rel))), y.1).0);
    }
  }

  /** No comparison stands at the position, whatever code has been emitted before. */
  predicate NoComparison(ts: seq<Token>, pos: nat)
    requires pos <= |ts|
  {
    Failed(ParseComparison(ts, pos, Asm([], 0, false, [])).status)
  }

  /** A condition that fails behind a connective is not reported: parse_where returns zero, which is no error, and
    * stops where the condition failed. */
  lemma FailureAccepted(ts: seq<Token>, pos: nat, a: Asm, v: Clause, conn: Connective)
    requires WellFormedClause(v) && conn != Not && pos <= |ts| && TextAt(ts, pos, ClauseText(v))
    requires var m := pos + |ClauseText(v)|; m < |ts| && TokenAt(ts, m) == ConnText(conn) && TokenAt(ts, m + 1) != LeftParen
    ensures var q := pos + |ClauseText(v)| + 1;
            NoComparison(ts, q) ==>
              ParseWhere(ts, pos, a).status == 0 && !Failed(0) && ParseWhere(ts, pos, a).pos == ParseComparison(ts, q, a).pos
  {
    hide ParseWhere, TextAt, ClauseText, Insert, ParseComparison;
    var s := ClauseTaken(ts, pos, a, v);
    var b := Insert(s.asm, s.saved, CmpNode(Conn(conn))).0;
    ComparisonAlike(ts, s.pos + 1, a, b);
    ComparisonAlike(ts, s.pos + 1, a, Asm([], 0, false, []));
    ConnectedFails(ts, s.pos + 1, b);
  }

  lemma ConnectedFails(ts: seq<Token>, q: nat, b: Asm)
    requires q <= |ts| && TokenAt(ts, q) != LeftParen
    ensures var x := ParseComparison(ts, q, b); Failed(x.status) ==> ParseConnected(ts, q, b) == Parse(0, x.pos, x.asm)
  {
    hide ParseComparison;
  }

  /** When parse_where returns zero, a condition has failed behind a connective, and it stopped there. */
  lemma {:induction false} ZeroMeansFailure(ts: seq<Token>, pos: nat, a: Asm, saved: nat) returns (q: nat)
    requires pos <= |ts| && WhereLoop(ts, pos, a, saved).status == 0
    ensures pos < q <= |ts| && Connects(TokenAt(ts, q - 1)) && TokenAt(ts, q) != LeftParen && NoComparison(ts, q)
    ensures WhereLoop(ts, pos, a, saved).pos == ParseComparison(ts, q, a).pos
    decreases |ts| - pos
  {
    hide ParseComparison, ParseWhere, Insert;
    var next := Insert(a, saved, CmpNode(Conn(if TokenAt(ts, pos) == AndToken then And else Or)));
    q := pos + 1;
    var r := ParseConnected(ts, q, next.0);
    if r.status == OK {
      q := ZeroMeansFailure(ts, r.pos, r.asm, next.1);
      ComparisonAlike(ts, q, a, r.asm);
    } else {
      ComparisonAlike(ts, q, a, next.0);
      ComparisonAlike(ts, q, a, Asm([], 0, false, []));
    }
  }
}
