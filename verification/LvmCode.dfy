/** The logic engine of Antelope (apps/antelope/lvm.c). */
module LvmCode {
  // Predicates as prefix code, and their evaluation.
  //
  // Positions count nodes. A node is a node type with its operator or operand; nodes past the end of the code
  // buffer read as Blank, the all-zero node that lvm_reset leaves behind.

  datatype ArithOp = Add | Sub | Mul | Div
  datatype RelOp = Eq | Neq | Gt | Geq | Lt | Leq
  datatype Connective = And | Or | Not
  datatype Operator = Arith(arith: ArithOp) | Rel(rel: RelOp) | Conn(conn: Connective)
  datatype Operand = Variable(id: nat) | Long(l: int)
  datatype Node = Blank | ArithNode(op: Operator) | CmpNode(op: Operator) | OperandNode(operand: Operand)

  datatype Status =
    | FALSE | TRUE | INVALID_IDENTIFIER | SEMANTIC_ERROR | MATH_ERROR
    | VARIABLE_LIMIT_REACHED | EXECUTION_ERROR | DERIVATION_ERROR

  predicate IsError(s: Status) { s != FALSE && s != TRUE }

  function Bool(b: bool): Status { if b then TRUE else FALSE }

  // ---------------------------------------------------------------- predicates and their meaning

  datatype Expr = Leaf(o: Operand) | Binary(op: ArithOp, left: Expr, right: Expr)

  datatype Pred =
    | Compare(rel: RelOp, x: Expr, y: Expr)
    | Both(left: Pred, right: Pred)
    | Either(left: Pred, right: Pred)
    | Negation(p: Pred)

  function NodesOf(e: Expr): (code: seq<Node>)
    ensures |code| > 0
  {
    match e
    case Leaf(o) => [OperandNode(o)]
    case Binary(op, l, r) => [ArithNode(Arith(op))] + NodesOf(l) + NodesOf(r)
  }

  /** Prefix code. */
  function Encode(p: Pred): (code: seq<Node>)
    ensures |code| > 0 && code[0].CmpNode?
  {
    match p
    case Compare(rel, x, y) => [CmpNode(Rel(rel))] + NodesOf(x) + NodesOf(y)
    case Both(l, r) => [CmpNode(Conn(And))] + Encode(l) + Encode(r)
    case Either(l, r) => [CmpNode(Conn(Or))] + Encode(l) + Encode(r)
    case Negation(q) => [CmpNode(Conn(Not))] + Encode(q)
  }

  /** Division as in C: the quotient is truncated towards zero. */
  function Quotient(a: int, b: int): (q: int)
    requires b != 0
    ensures b > 0 && a >= 0 ==> q * b <= a < (q + 1) * b
  {
    if a >= 0 then (if b > 0 then a / b else -(a / -b))
    else (if b > 0 then -(-a / b) else -a / -b)
  }

  function Value(vars: seq<int>, o: Operand): int {
    match o
    case Long(l) => l
    case Variable(id) => if id < |vars| then vars[id] else 0
  }

  /** The value of an expression; a division by zero counts as 0 here and is reported by Divides. */
  function Number(vars: seq<int>, e: Expr): int {
    match e
    case Leaf(o) => Value(vars, o)
    case Binary(op, l, r) =>
      var a, b := Number(vars, l), Number(vars, r);
      match op
      case Add => a + b
      case Sub => a - b
      case Mul => a * b
      case Div => if b == 0 then 0 else Quotient(a, b)
  }

  /** No divisor in the expression is zero. */
  predicate Divides(vars: seq<int>, e: Expr) {
    match e
    case Leaf(_) => true
    case Binary(op, l, r) => Divides(vars, l) && Divides(vars, r) && (op == Div ==> Number(vars, r) != 0)
  }

  predicate Related(rel: RelOp, a: int, b: int) {
    match rel
    case Eq => a == b
    case Neq => a != b
    case Gt => a > b
    case Geq => a >= b
    case Lt => a < b
    case Leq => a <= b
  }

  /** The truth value of a predicate. */
  predicate Holds(vars: seq<int>, p: Pred) {
    match p
    case Compare(rel, x, y) => Related(rel, Number(vars, x), Number(vars, y))
    case Both(l, r) => Holds(vars, l) && Holds(vars, r)
    case Either(l, r) => Holds(vars, l) || Holds(vars, r)
    case Negation(q) => !Holds(vars, q)
  }

  /** No divisor anywhere in the predicate is zero. */
  predicate Defined(vars: seq<int>, p: Pred) {
    match p
    case Compare(_, x, y) => Divides(vars, x) && Divides(vars, y)
    case Both(l, r) => Defined(vars, l) && Defined(vars, r)
    case Either(l, r) => Defined(vars, l) && Defined(vars, r)
    case Negation(q) => Defined(vars, q)
  }

  // ---------------------------------------------------------------- evaluation of code

  datatype Outcome = Outcome(status: Status, value: int, ip: nat)

  function NodeAt(code: seq<Node>, ip: nat): Node {
    if ip < |code| then code[ip] else Blank
  }

  /** One argument of an arithmetic or relational operator. */
  function Argument(code: seq<Node>, vars: seq<int>, ip: nat): (r: Outcome)
    ensures !IsError(r.status) ==> ip < r.ip <= |code| && r.status == TRUE
    decreases |code| - ip, 0
  {
    match NodeAt(code, ip)
    case ArithNode(op) => Arithmetic(code, vars, op, ip + 1)
    case OperandNode(o) => Outcome(TRUE, Value(vars, o), ip + 1)
    case _ => Outcome(SEMANTIC_ERROR, 0, ip)
  }

  function Combine(op: Operator, a: int, b: int, ip: nat): Outcome {
    match op
    case Arith(Add) => Outcome(TRUE, a + b, ip)
    case Arith(Sub) => Outcome(TRUE, a - b, ip)
    case Arith(Mul) => Outcome(TRUE, a * b, ip)
    case Arith(Div) => if b == 0 then Outcome(MATH_ERROR, 0, ip) else Outcome(TRUE, Quotient(a, b), ip)
    case _ => Outcome(EXECUTION_ERROR, 0, ip)
  }

  /** The two arguments of an arithmetic operator, combined. */
  function Arithmetic(code: seq<Node>, vars: seq<int>, op: Operator, ip: nat): (r: Outcome)
    ensures !IsError(r.status) ==> ip < r.ip <= |code| && r.status == TRUE
    decreases |code| - ip, 1
  {
    var a := Argument(code, vars, ip);
    if IsError(a.status) then a
    else
      var b := Argument(code, vars, a.ip);
      if IsError(b.status) then b else Combine(op, a.value, b.value, b.ip)
  }

  function Test(op: Operator, a: int, b: int): Status {
    if op.Rel? then Bool(Related(op.rel, a, b)) else EXECUTION_ERROR
  }

  /** One argument of a connective. */
  function Condition(code: seq<Node>, vars: seq<int>, ip: nat): (r: Outcome)
    ensures !IsError(r.status) ==> ip < r.ip <= |code|
    decreases |code| - ip, 0
  {
    match NodeAt(code, ip)
    case CmpNode(op) => Logic(code, vars, op, ip + 1)
    case _ => Outcome(SEMANTIC_ERROR, 0, ip)
  }

  function Connected(c: Connective, a: Status, b: Status): Status {
    if c == And then Bool(a == TRUE && b == TRUE) else Bool(a == TRUE || b == TRUE)
  }

  function Logic(code: seq<Node>, vars: seq<int>, op: Operator, ip: nat): (r: Outcome)
    ensures !IsError(r.status) ==> ip < r.ip <= |code|
    decreases |code| - ip, 1
  {
    if op.Conn? then
      var a := Condition(code, vars, ip);
      if IsError(a.status) then a
      else if op.conn == Not then Outcome(Bool(a.status != TRUE), 0, a.ip)
      else
        var b := Condition(code, vars, a.ip);
        if IsError(b.status) then b else Outcome(Connected(op.conn, a.status, b.status), 0, b.ip)
    else
      var a := Argument(code, vars, ip);
      if IsError(a.status) then a
      else
        var b := Argument(code, vars, a.ip);
        if IsError(b.status) then b else Outcome(Test(op, a.value, b.value), 0, b.ip)
  }

  function Execution(code: seq<Node>, vars: seq<int>): Outcome {
    match NodeAt(code, 0)
    case CmpNode(op) => Logic(code, vars, op, 1)
    case _ => Outcome(EXECUTION_ERROR, 0, 0)
  }

  // ---------------------------------------------------------------- evaluation computes the meaning

  /** The code holds s from position ip on. */
  ghost predicate HoldsAt(code: seq<Node>, ip: nat, s: seq<Node>) {
    ip + |s| <= |code| && code[ip..ip + |s|] == s
  }

  lemma SplitAt(code: seq<Node>, ip: nat, a: seq<Node>, b: seq<Node>)
    requires HoldsAt(code, ip, a + b)
    ensures HoldsAt(code, ip, a) && HoldsAt(code, ip + |a|, b)
  {
    assert (a + b)[..|a|] == a && (a + b)[|a|..] == b;
    assert code[ip..ip + |a|] == code[ip..ip + |a + b|][..|a|];
    assert code[ip + |a|..ip + |a| + |b|] == code[ip..ip + |a + b|][|a|..];
  }

  lemma SplitThree(code: seq<Node>, ip: nat, n: Node, a: seq<Node>, b: seq<Node>)
    requires HoldsAt(code, ip, [n] + a + b)
    ensures NodeAt(code, ip) == n && HoldsAt(code, ip + 1, a) && HoldsAt(code, ip + 1 + |a|, b)
  {
    SplitAt(code, ip, [n] + a, b);
    SplitAt(code, ip, [n], a);
    FirstNode(code, ip, n);
  }

  lemma FirstNode(code: seq<Node>, ip: nat, n: Node)
    requires HoldsAt(code, ip, [n])
    ensures NodeAt(code, ip) == n
  {
    assert code[ip..ip + 1][0] == n;
  }

  lemma {:induction false} ArgumentMeaning(code: seq<Node>, vars: seq<int>, ip: nat, e: Expr)
    requires HoldsAt(code, ip, NodesOf(e))
    ensures var r := Argument(code, vars, ip);
            if Divides(vars, e) then r == Outcome(TRUE, Number(vars, e), ip + |NodesOf(e)|)
            else r.status == MATH_ERROR
    decreases e
  {
    match e
    case Leaf(o) => FirstNode(code, ip, OperandNode(o));
    case Binary(op, l, r) =>
      SplitThree(code, ip, ArithNode(Arith(op)), NodesOf(l), NodesOf(r));
      ArgumentMeaning(code, vars, ip + 1, l);
      ArgumentMeaning(code, vars, ip + 1 + |NodesOf(l)|, r);
  }

  /** A condition at ip evaluates to the meaning of p. */
  predicate Means(code: seq<Node>, vars: seq<int>, ip: nat, p: Pred) {
    var r := Condition(code, vars, ip);
    if Defined(vars, p) then r == Outcome(Bool(Holds(vars, p)), 0, ip + |Encode(p)|)
    else r.status == MATH_ERROR
  }

  lemma ConnectiveMeaning(code: seq<Node>, vars: seq<int>, ip: nat, c: Connective, l: Pred, r: Pred)
    requires c != Not && NodeAt(code, ip) == CmpNode(Conn(c))
    requires Means(code, vars, ip + 1, l) && Means(code, vars, ip + 1 + |Encode(l)|, r)
    ensures Means(code, vars, ip, if c == And then Both(l, r) else Either(l, r))
  {
    assert Condition(code, vars, ip) == Logic(code, vars, Conn(c), ip + 1);
  }

  lemma ComparisonMeaning(code: seq<Node>, vars: seq<int>, ip: nat, rel: RelOp, x: Expr, y: Expr)
    requires HoldsAt(code, ip, Encode(Compare(rel, x, y)))
    ensures Means(code, vars, ip, Compare(rel, x, y))
  {
    hide HoldsAt, Argument, Number, Divides, NodesOf;
    SplitThree(code, ip, CmpNode(Rel(rel)), NodesOf(x), NodesOf(y));
    ArgumentMeaning(code, vars, ip + 1, x);
    ArgumentMeaning(code, vars, ip + 1 + |NodesOf(x)|, y);
    assert Condition(code, vars, ip) == Logic(code, vars, Rel(rel), ip + 1);
  }

  lemma {:induction false} ConditionMeaning(code: seq<Node>, vars: seq<int>, ip: nat, p: Pred)
    requires HoldsAt(code, ip, Encode(p))
    ensures Means(code, vars, ip, p)
    decreases p, 1
  {
    hide Logic, Condition, Means, HoldsAt;
    match p
    case Compare(rel, x, y) => ComparisonMeaning(code, vars, ip, rel, x, y);
    case Both(l, r) => PairMeaning(code, vars, ip, And, l, r, p);
    case Either(l, r) => PairMeaning(code, vars, ip, Or, l, r, p);
    case Negation(q) =>
      SplitAt(code, ip, [CmpNode(Conn(Not))], Encode(q));
      FirstNode(code, ip, CmpNode(Conn(Not)));
      ConditionMeaning(code, vars, ip + 1, q);
      NegationMeaning(code, vars, ip, q);
  }

  lemma {:induction false} PairMeaning(code: seq<Node>, vars: seq<int>, ip: nat, c: Connective, l: Pred, r: Pred, p: Pred)
    requires c != Not && p == (if c == And then Both(l, r) else Either(l, r)) && HoldsAt(code, ip, Encode(p))
    ensures Means(code, vars, ip, p)
    decreases p, 0
  {
    hide Logic, Condition, Means, HoldsAt;
    SplitThree(code, ip, CmpNode(Conn(c)), Encode(l), Encode(r));
    ConditionMeaning(code, vars, ip + 1, l);
    ConditionMeaning(code, vars, ip + 1 + |Encode(l)|, r);
    ConnectiveMeaning(code, vars, ip, c, l, r);
  }

  lemma NegationMeaning(code: seq<Node>, vars: seq<int>, ip: nat, q: Pred)
    requires NodeAt(code, ip) == CmpNode(Conn(Not)) && Means(code, vars, ip + 1, q)
    ensures Means(code, vars, ip, Negation(q))
  {
  }

  /** Running the prefix code of a predicate gives its truth value and stops at the end of the code, or
    * gives MATH_ERROR exactly when some divisor in the predicate is zero (there is no short circuit). */
  lemma ExecutionMeaning(code: seq<Node>, vars: seq<int>, p: Pred)
    requires Encode(p) <= code
    ensures var r := Execution(code, vars);
            && (r.status == MATH_ERROR <==> !Defined(vars, p))
            && (Defined(vars, p) ==> r.status == Bool(Holds(vars, p)) && r.ip == |Encode(p)|)
  {
    assert HoldsAt(code, 0, Encode(p));
    assert code[0] == Encode(p)[0];
    ConditionMeaning(code, vars, 0, p);
  }
}
