/** The WHERE clauses of AQL that the parser compiles: their text as tokens, and their meaning. */
module AqlText {
  import opened LvmCode

  datatype Token =
    | LeftParen | RightParen | ArithToken(op: ArithOp) | CmpToken(rel: RelOp) | AndToken | OrToken
    | Identifier(name: string) | IntegerValue(l: int) | StringValue | FloatValue
    | OtherToken | NoToken

  datatype Atom = Name(n: string) | Literal(l: int)

  /** An operand, or an operand combined with one that stands on its right; what is combined on the
    * right may be nested in parentheses. */
  datatype Term = Single(a: Atom) | Combined(a: Atom, op: ArithOp, nested: bool, rest: Term)

  /** Without parentheses there is one operator per level. */
  predicate WellFormed(t: Term) {
    t.Combined? ==> WellFormed(t.rest) && (t.nested || t.rest.Single?)
  }

  datatype Comparison = Comparison(left: Term, rel: RelOp, right: Term)

  datatype Clause = Last(c: Comparison) | More(c: Comparison, conn: Connective, rest: Clause)

  predicate WellFormedClause(w: Clause) {
    && WellFormed(w.c.left) && WellFormed(w.c.right)
    && (w.More? ==> w.conn != Not && WellFormedClause(w.rest))
  }

  // ---------------------------------------------------------------- text

  function AtomText(a: Atom): Token {
    if a.Name? then Identifier(a.n) else IntegerValue(a.l)
  }

  function TermText(t: Term): (ts: seq<Token>)
    ensures |ts| > 0
  {
    match t
    case Single(a) => [AtomText(a)]
    case Combined(a, op, nested, rest) =>
      [AtomText(a), ArithToken(op)] + (if nested then [LeftParen] + TermText(rest) + [RightParen] else TermText(rest))
  }

  function ComparisonText(c: Comparison): (ts: seq<Token>)
    ensures |ts| > 0
  {
    TermText(c.left) + [CmpToken(c.rel)] + TermText(c.right)
  }

  function ConnText(c: Connective): Token { if c == And then AndToken else OrToken }

  function ClauseText(w: Clause): (ts: seq<Token>)
    ensures |ts| > 0
  {
    match w
    case Last(c) => ComparisonText(c)
    case More(c, conn, rest) => ComparisonText(c) + [ConnText(conn)] + ClauseText(rest)
  }

  // ---------------------------------------------------------------- meaning

  type Assignment = string -> int

  function AtomValue(v: Assignment, a: Atom): int {
    if a.Name? then v(a.n) else a.l
  }

  function TermValue(v: Assignment, t: Term): int {
    match t
    case Single(a) => AtomValue(v, a)
    case Combined(a, op, _, rest) =>
      var x, y := AtomValue(v, a), TermValue(v, rest);
      match op
      case Add => x + y
      case Sub => x - y
      case Mul => x * y
      case Div => if y == 0 then 0 else Quotient(x, y)
  }

  predicate TermDefined(v: Assignment, t: Term) {
    t.Combined? ==> TermDefined(v, t.rest) && (t.op == Div ==> TermValue(v, t.rest) != 0)
  }

  /** AND and OR have the same precedence and nest to the right. */
  predicate ClauseHolds(v: Assignment, w: Clause) {
    var first := Related(w.c.rel, TermValue(v, w.c.left), TermValue(v, w.c.right));
    match w
    case Last(_) => first
    case More(_, And, rest) => first && ClauseHolds(v, rest)
    case More(_, _, rest) => first || ClauseHolds(v, rest)
  }

  predicate ClauseDefined(v: Assignment, w: Clause) {
    && TermDefined(v, w.c.left) && TermDefined(v, w.c.right)
    && (w.More? ==> ClauseDefined(v, w.rest))
  }

  // ---------------------------------------------------------------- names

  function AtomNames(a: Atom): set<string> { if a.Name? then {a.n} else {} }

  function TermNames(t: Term): set<string> {
    AtomNames(t.a) + if t.Combined? then TermNames(t.rest) else {}
  }

  function ClauseNames(w: Clause): set<string> {
    TermNames(w.c.left) + TermNames(w.c.right) + if w.More? then ClauseNames(w.rest) else {}
  }
}
