/** What WHERE clauses mean (apps/antelope). */
module AqlMeaning {
  // The parser's code, run by the logic engine, gives what the text means.

  import opened LvmCode
  import opened LvmAssembler
  import opened AqlText
  import opened AqlParser
  import opened AqlCorrect

  /** Every variable of the table has the value that the assignment gives its name. */
  ghost predicate Valued(v: Assignment, names: seq<string>, vars: seq<int>) {
    |vars| == |names| && forall i | 0 <= i < |names| && names[i] != "" :: vars[i] == v(names[i])
  }

  lemma {:induction false} TermMeaning(v: Assignment, names: seq<string>, vars: seq<int>, t: Term)
    requires Valued(v, names, vars) && Packed(names) && TermNames(t) <= Used(names)
    ensures Number(vars, TermExpr(names, t)) == TermValue(v, t)
    ensures Divides(vars, TermExpr(names, t)) <==> TermDefined(v, t)
    decreases t
  {
    if t.a.Name? {
      assert t.a.n in TermNames(t);
      Found(names, t.a.n);
    }
    assert Number(vars, Leaf(OperandOf(names, t.a))) == AtomValue(v, t.a);
    if t.Combined? {
      TermMeaning(v, names, vars, t.rest);
    }
  }

  lemma {:induction false} ClauseMeaning(v: Assignment, names: seq<string>, vars: seq<int>, w: Clause)
    requires Valued(v, names, vars) && Packed(names) && ClauseNames(w) <= Used(names) && WellFormedClause(w)
    ensures Holds(vars, ClausePred(names, w)) <==> ClauseHolds(v, w)
    ensures Defined(vars, ClausePred(names, w)) <==> ClauseDefined(v, w)
    decreases w
  {
    TermMeaning(v, names, vars, w.c.left);
    TermMeaning(v, names, vars, w.c.right);
    if w.More? {
      ClauseMeaning(v, names, vars, w.rest);
    }
  }

  /** Compiling a clause and running the code gives the truth value of the text, or MATH_ERROR exactly
    * when some divisor in it is zero. */
  lemma WhereMeaning(ts: seq<Token>, pos: nat, a: Asm, w: Clause, v: Assignment, vars: seq<int>)
    requires WellFormedClause(w) && TextAt(ts, pos, ClauseText(w)) && EndsClause(TokenAt(ts, pos + |ClauseText(w)|))
    requires pos <= |ts| && a.end == 0 && 2 * (|ts| - pos) < |a.code| && Names(a, ClauseNames(w))
    requires Valued(v, ParseWhere(ts, pos, a).asm.names, vars)
    ensures ParseWhere(ts, pos, a).status == OK
    ensures Execution(ParseWhere(ts, pos, a).asm.code, vars).status ==
            if ClauseDefined(v, w) then Bool(ClauseHolds(v, w)) else MATH_ERROR
  {
    hide ParseWhere, TextAt, Execution;
    ClauseCompiles(ts, pos, a, w);
    var r := ParseWhere(ts, pos, a);
    NamesKnown(a, r.asm, ClauseNames(w), Encode(ClausePred(r.asm.names, w)));
    ClauseMeaning(v, r.asm.names, vars, w);
    ExecutionMeaning(r.asm.code, vars, ClausePred(r.asm.names, w));
  }

  lemma NamesKnown(a: Asm, b: Asm, ns: set<string>, nodes: seq<Node>)
    requires Emits(a, b, ns, nodes) && Emitted(b) == nodes
    ensures Packed(b.names) && ns <= Used(b.names) && nodes <= b.code
  {
  }
}
