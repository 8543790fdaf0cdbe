/** Laws of the logic engine. */
module LvmLaws {
  // What comparisons, arithmetic and division mean for each other, for numbers and for code that is executed.

  import opened LvmCode

  function Opposite(rel: RelOp): RelOp {
    match rel
    case Eq => Neq
    case Neq => Eq
    case Lt => Geq
    case Geq => Lt
    case Gt => Leq
    case Leq => Gt
  }

  /** Of any two numbers exactly one of <, = and > holds, and the other relations are their opposites. */
  lemma RelationLaws(a: int, b: int)
    ensures Related(Lt, a, b) || Related(Eq, a, b) || Related(Gt, a, b)
    ensures !(Related(Lt, a, b) && Related(Eq, a, b)) && !(Related(Eq, a, b) && Related(Gt, a, b))
    ensures !(Related(Lt, a, b) && Related(Gt, a, b))
    ensures forall rel: RelOp :: Related(Opposite(rel), a, b) <==> !Related(rel, a, b)
    ensures Related(Gt, a, b) <==> Related(Lt, b, a)
  {
  }

  /** A number is less than what something positive is added to, equal to itself, and not less than anything else. */
  lemma RelationOrder(a: int, d: nat)
    ensures Related(Lt, a, a + d + 1) && Related(Eq, a, a) && !Related(Lt, a + d, a) && !Related(Eq, a, a + d + 1)
  {
  }

  /** Code that starts with a comparison gives its truth value, or an error exactly if a divisor is zero. */
  lemma ComparisonRuns(code: seq<Node>, vars: seq<int>, rel: RelOp, e: Expr, f: Expr)
    requires Encode(Compare(rel, e, f)) <= code
    ensures Execution(code, vars).status ==
            if Divides(vars, e) && Divides(vars, f) then Bool(Related(rel, Number(vars, e), Number(vars, f))) else MATH_ERROR
  {
    hide Related, Execution;
    ExecutionMeaning(code, vars, Compare(rel, e, f));
  }

  /** The codes of a comparison and of its opposite give opposite results, or both the same error. */
  lemma OppositesRun(code1: seq<Node>, code2: seq<Node>, vars: seq<int>, rel: RelOp, e: Expr, f: Expr)
    requires Encode(Compare(rel, e, f)) <= code1 && Encode(Compare(Opposite(rel), e, f)) <= code2
    ensures Execution(code1, vars).status == MATH_ERROR <==> Execution(code2, vars).status == MATH_ERROR
    ensures Execution(code1, vars).status == TRUE <==> Execution(code2, vars).status == FALSE
    ensures Execution(code1, vars).status == FALSE <==> Execution(code2, vars).status == TRUE
    ensures Execution(code1, vars).status in {TRUE, FALSE, MATH_ERROR}
  {
    hide Related, Execution, Encode;
    ComparisonRuns(code1, vars, rel, e, f);
    ComparisonRuns(code2, vars, Opposite(rel), e, f);
    RelationLaws(Number(vars, e), Number(vars, f));
  }

  /** Exactly one of e < f, e = f and e > f is TRUE, unless a divisor is zero. */
  lemma OneOfThreeRuns(less: seq<Node>, equal: seq<Node>, greater: seq<Node>, vars: seq<int>, e: Expr, f: Expr)
    requires Encode(Compare(Lt, e, f)) <= less && Encode(Compare(Eq, e, f)) <= equal && Encode(Compare(Gt, e, f)) <= greater
    requires Divides(vars, e) && Divides(vars, f)
    ensures var l, q, g := Execution(less, vars).status == TRUE, Execution(equal, vars).status == TRUE, Execution(greater, vars).status == TRUE;
            (l || q || g) && !(l && q) && !(q && g) && !(l && g)
  {
    hide Related, Execution, Encode;
    ComparisonRuns(less, vars, Lt, e, f);
    ComparisonRuns(equal, vars, Eq, e, f);
    ComparisonRuns(greater, vars, Gt, e, f);
    RelationLaws(Number(vars, e), Number(vars, f));
  }

  /** NOT turns TRUE into FALSE and back, and AND into OR: code of NOT (p AND q) gives what code of (NOT p) OR (NOT q)
    * gives, and code of NOT (p OR q) what code of (NOT p) AND (NOT q) gives. */
  lemma ConnectivesRun(code1: seq<Node>, code2: seq<Node>, vars: seq<int>, p: Pred, q: Pred, c: Connective)
    requires c != Not
    requires Encode(Negation(if c == And then Both(p, q) else Either(p, q))) <= code1
    requires Encode(if c == And then Either(Negation(p), Negation(q)) else Both(Negation(p), Negation(q))) <= code2
    ensures Execution(code1, vars).status == Execution(code2, vars).status
  {
    hide Execution, Encode;
    ExecutionMeaning(code1, vars, Negation(if c == And then Both(p, q) else Either(p, q)));
    ExecutionMeaning(code2, vars, if c == And then Either(Negation(p), Negation(q)) else Both(Negation(p), Negation(q)));
  }

  lemma NotRuns(code1: seq<Node>, code2: seq<Node>, vars: seq<int>, p: Pred)
    requires Encode(p) <= code1 && Encode(Negation(p)) <= code2
    ensures Execution(code1, vars).status == TRUE <==> Execution(code2, vars).status == FALSE
    ensures Execution(code1, vars).status == MATH_ERROR <==> Execution(code2, vars).status == MATH_ERROR
  {
    hide Execution, Encode;
    ExecutionMeaning(code1, vars, p);
    ExecutionMeaning(code2, vars, Negation(p));
  }

  // ---------------------------------------------------------------- arithmetic

  function Sum(e: Expr, f: Expr): Expr { Binary(Add, e, f) }
  function Difference(e: Expr, f: Expr): Expr { Binary(Sub, e, f) }
  function Product(e: Expr, f: Expr): Expr { Binary(Mul, e, f) }

  const ONE := Leaf(Long(1))

  /** The comparisons that hold whatever e, f and g are. */
  function Identities(e: Expr, f: Expr, g: Expr): seq<Pred> {
    [Compare(Lt, e, Sum(e, ONE)), Compare(Eq, Sum(e, f), Sum(f, e)), Compare(Eq, Difference(Sum(e, f), f), e),
     Compare(Eq, Product(e, ONE), e), Compare(Eq, Product(e, f), Product(f, e)),
     Compare(Eq, Product(e, Sum(f, g)), Sum(Product(e, f), Product(e, g)))]
  }

  lemma Distribute(x: int, y: int, z: int, sum: int)
    requires sum == y + z
    ensures x * sum == x * y + x * z
  {
  }

  predicate HoldsDefined(vars: seq<int>, p: Pred) { Defined(vars, p) && Holds(vars, p) }

  lemma Parts(vars: seq<int>, e: Expr, f: Expr)
    ensures Number(vars, Sum(e, f)) == Number(vars, e) + Number(vars, f)
    ensures Number(vars, Difference(e, f)) == Number(vars, e) - Number(vars, f)
    ensures Number(vars, Product(e, f)) == Number(vars, e) * Number(vars, f)
    ensures Divides(vars, e) && Divides(vars, f) ==>
              Divides(vars, Sum(e, f)) && Divides(vars, Difference(e, f)) && Divides(vars, Product(e, f))
    ensures Number(vars, ONE) == 1 && Divides(vars, ONE)
  {
  }

  lemma SumsHold(vars: seq<int>, e: Expr, f: Expr)
    requires Divides(vars, e) && Divides(vars, f)
    ensures HoldsDefined(vars, Compare(Lt, e, Sum(e, ONE))) && HoldsDefined(vars, Compare(Eq, Sum(e, f), Sum(f, e)))
    ensures HoldsDefined(vars, Compare(Eq, Difference(Sum(e, f), f), e))
  {
    hide Number, Divides, Sum, Difference;
    Parts(vars, e, ONE);
    Parts(vars, e, f);
    Parts(vars, f, e);
    Parts(vars, Sum(e, f), f);
  }

  lemma ProductsHold(vars: seq<int>, e: Expr, f: Expr)
    requires Divides(vars, e) && Divides(vars, f)
    ensures HoldsDefined(vars, Compare(Eq, Product(e, ONE), e)) && HoldsDefined(vars, Compare(Eq, Product(e, f), Product(f, e)))
  {
    hide Number, Divides, Product;
    Parts(vars, e, ONE);
    Parts(vars, e, f);
    Parts(vars, f, e);
  }

  lemma DistributionHolds(vars: seq<int>, e: Expr, f: Expr, g: Expr)
    requires Divides(vars, e) && Divides(vars, f) && Divides(vars, g)
    ensures HoldsDefined(vars, Compare(Eq, Product(e, Sum(f, g)), Sum(Product(e, f), Product(e, g))))
  {
    hide Number, Divides, Product, Sum;
    Parts(vars, f, g);
    Parts(vars, e, Sum(f, g));
    Parts(vars, e, f);
    Parts(vars, e, g);
    Parts(vars, Product(e, f), Product(e, g));
    Distribute(Number(vars, e), Number(vars, f), Number(vars, g), Number(vars, Sum(f, g)));
  }

  lemma IdentitiesHold(vars: seq<int>, e: Expr, f: Expr, g: Expr, i: nat)
    requires i < |Identities(e, f, g)| && Divides(vars, e) && Divides(vars, f) && Divides(vars, g)
    ensures HoldsDefined(vars, Identities(e, f, g)[i])
  {
    hide HoldsDefined, Number, Divides;
    SumsHold(vars, e, f);
    ProductsHold(vars, e, f);
    DistributionHolds(vars, e, f, g);
  }

  /** Their code gives TRUE. */
  lemma IdentitiesRun(code: seq<Node>, vars: seq<int>, e: Expr, f: Expr, g: Expr, i: nat)
    requires i < |Identities(e, f, g)| && Encode(Identities(e, f, g)[i]) <= code
    requires Divides(vars, e) && Divides(vars, f) && Divides(vars, g)
    ensures Execution(code, vars).status == TRUE
  {
    hide Execution, Encode, Identities, Holds, Defined, Number, Divides;
    IdentitiesHold(vars, e, f, g, i);
    ExecutionMeaning(code, vars, Identities(e, f, g)[i]);
  }

  // ---------------------------------------------------------------- division

  function Abs(x: int): nat { if x < 0 then -x else x }

  /** q is the quotient of a by b truncated towards zero: what is left is smaller than b and has the sign of a. */
  predicate Truncated(a: int, b: int, q: int) { IsRest(a, b, a - q * b) }

  predicate IsRest(a: int, b: int, rest: int) {
    Abs(rest) < Abs(b) && (rest > 0 ==> a > 0) && (rest < 0 ==> a < 0)
  }

  lemma TruncatedIf(a: int, b: int, q: int, product: int)
    requires product == q * b && IsRest(a, b, a - product)
    ensures Truncated(a, b, q)
  {
  }

  lemma Euclid(a: nat, b: nat)
    requires b > 0
    ensures 0 <= a - a / b * b < b
  {
  }

  lemma QuotientOfParts(x: int, y: int)
    requires x >= 0 && y > 0
    ensures Quotient(x, y) == x / y && Quotient(-x, -y) == x / y
    ensures Quotient(-x, y) == -(x / y) && Quotient(x, -y) == -(x / y)
  {
    assert 0 / y == 0;
  }

  lemma Signs(k: int, y: int)
    ensures (-k) * y == -(k * y) && k * (-y) == -(k * y) && (-k) * (-y) == k * y
  {
  }

  lemma QuotientTruncates(a: int, b: int)
    requires b != 0
    ensures Truncated(a, b, Quotient(a, b))
  {
    hide Quotient;
    var x: int, y: int := Abs(a), Abs(b);
    QuotientOfParts(x, y);
    Euclid(x, y);
    NoneNegative(x, y, x / y);
    hide Truncated;
    PartsTruncate(x, y, x / y);
  }

  lemma BothNegative(x: int, y: int, k: int)
    requires Truncated(x, y, k)
    ensures Truncated(-x, -y, k)
  {
    Signs(k, y);
    TruncatedIf(-x, -y, k, -(k * y));
  }

  lemma DividendNegative(x: int, y: int, k: int)
    requires Truncated(x, y, k)
    ensures Truncated(-x, y, -k)
  {
    Signs(k, y);
    TruncatedIf(-x, y, -k, -(k * y));
  }

  lemma NoneNegative(x: int, y: int, k: int)
    requires y > 0 && 0 <= x - k * y < y && x >= 0
    ensures Truncated(x, y, k)
  {
    TruncatedIf(x, y, k, k * y);
  }

  lemma PartsTruncate(x: int, y: int, k: int)
    requires Truncated(x, y, k)
    ensures Truncated(-x, -y, k) && Truncated(-x, y, -k) && Truncated(x, -y, -k)
  {
    hide Truncated;
    BothNegative(x, y, k);
    DividendNegative(x, y, k);
    DividendNegative(-x, -y, k);
  }

  lemma AtLeast(k: int, b: int)
    requires k != 0 && b != 0
    ensures Abs(k * b) >= Abs(b)
  {
    var x, y := Abs(k), Abs(b);
    Signs(x, y);
    Euclid(x * y, y);
    assert x * y == y + (x - 1) * y;
  }

  lemma TruncatedOnce(a: int, b: int, p: int, q: int)
    requires b != 0 && Truncated(a, b, p) && Truncated(a, b, q)
    ensures p == q
  {
    assert (a - p * b) - (a - q * b) == (q - p) * b;
    if p != q {
      AtLeast(q - p, b);
    }
  }

  /** The value of a division is the one quotient that is truncated towards zero, whatever the signs. */
  lemma DivisionTruncates(vars: seq<int>, e: Expr, f: Expr, q: int)
    requires Divides(vars, Binary(Div, e, f))
    ensures Number(vars, Binary(Div, e, f)) == q <==> Truncated(Number(vars, e), Number(vars, f), q)
  {
    var a, b := Number(vars, e), Number(vars, f);
    QuotientTruncates(a, b);
    if Truncated(a, b, q) {
      TruncatedOnce(a, b, q, Quotient(a, b));
    }
  }
}
