/** The part of the AQL parser that compiles WHERE clauses (apps/antelope/aql-parser.c, parse_operand to
  * parse_where), as functions on the token list, the position and the engine being filled. */
module AqlParser {
  import opened LvmCode
  import opened LvmAssembler
  import opened AqlText

  const OK := 2
  const SYNTAX_ERROR := 3

  predicate Failed(status: nat) { status >= 3 }

  datatype Parse = Parse(status: nat, pos: nat, asm: Asm)

  function TokenAt(ts: seq<Token>, pos: nat): Token {
    if pos < |ts| then ts[pos] else NoToken
  }

  function Next(ts: seq<Token>, pos: nat): nat {
    if pos < |ts| then pos + 1 else pos
  }

  /** Two nodes of code space for every token that is still to come. */
  function Need(ts: seq<Token>, pos: nat, a: Asm): int {
    a.end + 2 * (|ts| - pos)
  }

  /** The parser moves forward, keeps the sizes of its tables, and uses at most `extra` more nodes of
    * code space than the tokens that it consumed pay for. */
  predicate Keeps(ts: seq<Token>, pos: nat, a: Asm, r: Parse, extra: nat) {
    && pos <= r.pos <= |ts|
    && |r.asm.code| == |a.code| && |r.asm.names| == |a.names|
    && Need(ts, r.pos, r.asm) <= Need(ts, pos, a) + extra
  }

  function ParseOperand(ts: seq<Token>, pos: nat, a: Asm): (r: Parse)
    requires pos <= |ts|
    ensures Keeps(ts, pos, a, r, 0)
    ensures !Failed(r.status) ==> r.pos > pos
    ensures Failed(r.status) ==> r.asm == a
  {
    match TokenAt(ts, pos)
    case Identifier(n) => Parse(OK, pos + 1, PutVariable(a.(names := Register(a.names, n)), n))
    case IntegerValue(l) => Parse(OK, pos + 1, Put(a, OperandNode(Long(l))))
    case StringValue => Parse(OK, pos + 1, a)
    case FloatValue => Parse(OK, pos + 1, a)
    case _ => Parse(SYNTAX_ERROR, Next(ts, pos), a)
  }

  function ParseExpr(ts: seq<Token>, pos: nat, a: Asm): (r: Parse)
    requires pos <= |ts|
    ensures Keeps(ts, pos, a, r, 0)
    ensures !Failed(r.status) ==> r.pos > pos
    decreases |ts| - pos, 1
  {
    if TokenAt(ts, pos) == LeftParen then
      var r := ParseExpr(ts, pos + 1, a);
      if Failed(r.status) then Parse(SYNTAX_ERROR, r.pos, r.asm)
      else if TokenAt(ts, r.pos) != RightParen then Parse(SYNTAX_ERROR, Next(ts, r.pos), r.asm)
      else ExprLoop(ts, r.pos + 1, r.asm, a.end)
    else
      var r := ParseOperand(ts, pos, a);
      if Failed(r.status) then Parse(SYNTAX_ERROR, r.pos, r.asm)
      else ExprLoop(ts, r.pos, r.asm, a.end)
  }

  /** Insert an operator at `at`; the result is the new value of saved_end. */
  function Insert(a: Asm, at: nat, n: Node): (r: (Asm, nat))
    ensures |r.0.code| == |a.code| && r.0.names == a.names && r.0.end <= a.end + 1
  {
    var (b, end) := Shift(a, at);
    (SetEnd(Put(b, n), end).0, end)
  }

  /** The loop of parse_expr: operators and their right operands.  A closing parenthesis ends the loop
    * and is consumed. */
  function ExprLoop(ts: seq<Token>, pos: nat, a: Asm, saved: nat): (r: Parse)
    requires pos <= |ts|
    ensures Keeps(ts, pos, a, r, 0)
    decreases |ts| - pos, 0
  {
    match TokenAt(ts, pos)
    case ArithToken(op) =>
      var x := ParseOperand(ts, pos + 1, a);
      var r := if Failed(x.status) then ParseExpr(ts, x.pos, x.asm) else x;
      if Failed(r.status) then Parse(SYNTAX_ERROR, r.pos, r.asm)
      else
        var (b, end) := Insert(r.asm, saved, ArithNode(Arith(op)));
        ExprLoop(ts, r.pos, b, end)
    case RightParen => Parse(OK, pos + 1, a)
    case _ => Parse(OK, pos, a)
  }

  function ParseComparison(ts: seq<Token>, pos: nat, a: Asm): (r: Parse)
    requires pos <= |ts|
    ensures Keeps(ts, pos, a, r, 1)
  {
    var (b, hole) := Jump(a);
    var x := ParseExpr(ts, pos, b);
    if Failed(x.status) then Parse(SYNTAX_ERROR, x.pos, x.asm) else ParseRelation(ts, x.pos, x.asm, hole)
  }

  /** The relation, which goes into the hole before the left side, and the right side. */
  function ParseRelation(ts: seq<Token>, pos: nat, a: Asm, hole: nat): (r: Parse)
    requires pos <= |ts|
    ensures Keeps(ts, pos, if a.end < hole then a.(end := hole) else a, r, 0)
  {
    var (b, end) := SetEnd(a, hole);
    var t := TokenAt(ts, pos);
    if !t.CmpToken? then Parse(SYNTAX_ERROR, Next(ts, pos), b)
    else
      var y := ParseExpr(ts, pos + 1, SetEnd(Put(b, CmpNode(Rel(t.rel))), end).0);
      if Failed(y.status) then Parse(SYNTAX_ERROR, y.pos, y.asm) else Parse(OK, y.pos, y.asm)
  }

  function ParseWhere(ts: seq<Token>, pos: nat, a: Asm): (r: Parse)
    requires pos <= |ts|
    ensures Keeps(ts, pos, a, r, 1)
    decreases |ts| - pos, 1
  {
    var x := ParseComparison(ts, pos, a);
    if Failed(x.status) then Parse(SYNTAX_ERROR, x.pos, x.asm) else WhereLoop(ts, x.pos, x.asm, 0)
  }

  /** The loop of parse_where. */
  function WhereLoop(ts: seq<Token>, pos: nat, a: Asm, saved: nat): (r: Parse)
    requires pos <= |ts|
    ensures Keeps(ts, pos, a, r, 0)
    decreases |ts| - pos, 0
  {
    var t := TokenAt(ts, pos);
    if t != AndToken && t != OrToken then Parse(OK, pos, a)
    else
      var (b, end) := Insert(a, saved, CmpNode(Conn(if t == AndToken then And else Or)));
      var r := ParseConnected(ts, pos + 1, b);
      if r.status != OK then r else WhereLoop(ts, r.pos, r.asm, end)
  }

  /** What follows a connective: a clause in parentheses or a comparison.  When the comparison fails, the
    * program returns the value 0, which does not count as an error. */
  function ParseConnected(ts: seq<Token>, pos: nat, a: Asm): (r: Parse)
    requires pos <= |ts|
    ensures Keeps(ts, pos, a, r, 1)
    decreases |ts| - pos, 1
  {
    if TokenAt(ts, pos) == LeftParen then
      var r := ParseWhere(ts, pos + 1, a);
      if Failed(r.status) then Parse(SYNTAX_ERROR, r.pos, r.asm)
      else if TokenAt(ts, r.pos) != RightParen then Parse(SYNTAX_ERROR, Next(ts, r.pos), r.asm)
      else Parse(OK, r.pos + 1, r.asm)
    else
      var r := ParseComparison(ts, pos, a);
      if Failed(r.status) then Parse(0, r.pos, r.asm) else Parse(OK, r.pos, r.asm)
  }
}
