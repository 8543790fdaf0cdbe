/** The logic engine as the program keeps it (apps/antelope/lvm.c): a code buffer with an end and an
  * instruction pointer, and the tables of variables and derivations; every method is proved against the
  * corresponding function. */
module LvmMachine {
  import opened LvmCode
  import opened LvmRanges
  import opened LvmAssembler

  class Machine {
    var code: array<Node>
    var end: nat
    var ip: nat
    var error: bool
    var names: seq<string>
    var values: seq<int>
    var ranges: seq<Range>

    /** The part that the parser changes. */
    function View(): Asm
      reads this, code
    {
      Asm(code[..], end, error, names)
    }

    /** lvm_reset on a zeroed buffer; the static tables have `slots` entries. */
    constructor (size: nat, slots: nat)
      ensures fresh(code) && code.Length == size && ip == 0
      ensures View() == Asm(seq(size, _ => Blank), 0, false, seq(slots, _ => ""))
      ensures values == seq(slots, _ => 0) && ranges == NoRanges(slots)
    {
      code := new Node[size](_ => Blank);
      end, ip, error := 0, 0, false;
      names, values, ranges := seq(slots, _ => ""), seq(slots, _ => 0), NoRanges(slots);
      new;
      assert code[..] == seq(size, _ => Blank);
    }

    // -------------------------------------------------------------- emission

    method JumpToOperand() returns (hole: nat)
      modifies this`end, this`error
      ensures (View(), hole) == Jump(old(View()))
    {
      hole := end;
      end := end + 1;
      if end >= code.Length {
        error := true;
        end := hole;
      }
    }

    method ShiftForOperator(at: nat) returns (saved: nat)
      modifies this`end, this`error, code
      ensures (View(), saved) == Shift(old(View()), at)
    {
      if end + 1 > code.Length || at >= end {
        error := true;
        return 0;
      }
      ghost var before := code[..];
      forall i | at <= i < end {
        code[i + 1] := code[i];
      }
      assert code[..] == before[..at + 1] + before[at..end] + before[end + 1..];
      saved := end + 1;
      end := at;
    }

    method SetEndAt(e: nat) returns (saved: nat)
      modifies this`end, this`error
      ensures (View(), saved) == SetEnd(old(View()), e)
    {
      if e >= code.Length {
        error := true;
        return end;
      }
      saved := end;
      end := e;
    }

    method SetNode(n: Node)
      requires end < code.Length
      modifies this`end, code
      ensures View() == Put(old(View()), n)
    {
      code[end] := n;
      end := end + 1;
    }

    method LookupName(n: string) returns (id: nat)
      ensures id == Lookup(names, n)
    {
      id := 0;
      while id < |names| && names[id] != "" && names[id] != n
        invariant id <= |names|
        invariant LookupFrom(names, n, 0) == LookupFrom(names, n, id)
      {
        id := id + 1;
      }
    }

    method RegisterVariable(n: string) returns (status: Status)
      modifies this`names
      ensures names == Register(old(names), n)
      ensures status == if Lookup(old(names), n) == |names| then VARIABLE_LIMIT_REACHED else TRUE
    {
      var id := LookupName(n);
      if id == |names| {
        return VARIABLE_LIMIT_REACHED;
      }
      if names[id] == "" {
        names := names[id := Truncated(n)];
      }
      status := TRUE;
    }

    method SetVariable(n: string)
      requires end < code.Length
      modifies this`end, code
      ensures View() == PutVariable(old(View()), n)
    {
      var id := LookupName(n);
      if id < |names| {
        SetNode(OperandNode(Variable(id)));
      }
    }

    method SetVariableValue(n: string, value: int) returns (status: Status)
      requires |values| == |names|
      modifies this`values
      ensures var id := Lookup(names, n);
              if id == |names| then status == INVALID_IDENTIFIER && values == old(values)
              else status == TRUE && values == old(values)[id := value]
    {
      var id := LookupName(n);
      if id == |names| {
        return INVALID_IDENTIFIER;
      }
      values := values[id := value];
      status := TRUE;
    }

    // -------------------------------------------------------------- execution

    method GetNode() returns (n: Node)
      modifies this`ip
      ensures n == NodeAt(code[..], old(ip)) && ip == old(ip) + 1
    {
      n := if ip < code.Length then code[ip] else Blank;
      ip := ip + 1;
    }

    method GetArgument() returns (status: Status, value: int)
      modifies this`ip
      ensures var r := Argument(code[..], values, old(ip));
              status == r.status && (!IsError(status) ==> value == r.value && ip == r.ip)
      decreases code.Length - ip, 1
    {
      var n := GetNode();
      match n
      case ArithNode(op) => status, value := EvalExpr(op);
      case OperandNode(o) => status, value := TRUE, Value(values, o);
      case _ => status, value := SEMANTIC_ERROR, 0;
    }

    method EvalExpr(op: Operator) returns (status: Status, value: int)
      modifies this`ip
      ensures var r := Arithmetic(code[..], values, op, old(ip));
              status == r.status && (!IsError(status) ==> value == r.value && ip == r.ip)
      decreases code.Length - ip, 2
    {
      ghost var a := Argument(code[..], values, ip);
      ghost var start := ip;
      var arg := [0, 0];
      for i := 0 to 2
        invariant |arg| == 2
        invariant i == 0 ==> ip == start
        invariant i == 1 ==> !IsError(a.status) && ip == a.ip && arg[0] == a.value
        invariant i == 2 ==>
                    (var b := Argument(code[..], values, a.ip);
                     !IsError(a.status) && arg[0] == a.value && !IsError(b.status) && ip == b.ip && arg[1] == b.value)
      {
        var v;
        status, v := GetArgument();
        if IsError(status) {
          return status, 0;
        }
        arg := arg[i := v];
      }
      match op
      case Arith(Add) => return TRUE, arg[0] + arg[1];
      case Arith(Sub) => return TRUE, arg[0] - arg[1];
      case Arith(Mul) => return TRUE, arg[0] * arg[1];
      case Arith(Div) =>
        if arg[1] == 0 {
          return MATH_ERROR, 0;
        }
        return TRUE, Quotient(arg[0], arg[1]);
      case _ => return EXECUTION_ERROR, 0;
    }

    method GetCondition() returns (status: Status)
      modifies this`ip
      ensures var r := Condition(code[..], values, old(ip));
              status == r.status && (!IsError(status) ==> ip == r.ip)
      decreases code.Length - ip, 1
    {
      var n := GetNode();
      match n
      case CmpNode(op) => status := EvalLogic(op);
      case _ => status := SEMANTIC_ERROR;
    }

    method EvalConnective(c: Connective) returns (status: Status)
      modifies this`ip
      ensures var r := Logic(code[..], values, Conn(c), old(ip));
              status == r.status && (!IsError(status) ==> ip == r.ip)
      decreases code.Length - ip, 2
    {
      var first := GetCondition();
      if IsError(first) {
        return first;
      }
      if c == Not {
        return Bool(first != TRUE);
      }
      var second := GetCondition();
      if IsError(second) {
        return second;
      }
      return if c == And then Bool(first == TRUE && second == TRUE) else Bool(first == TRUE || second == TRUE);
    }

    method EvalLogic(op: Operator) returns (status: Status)
      modifies this`ip
      ensures var r := Logic(code[..], values, op, old(ip));
              status == r.status && (!IsError(status) ==> ip == r.ip)
      decreases code.Length - ip, 3
    {
      if op.Conn? {
        status := EvalConnective(op.conn);
        return;
      }
      var l1, l2;
      status, l1 := GetArgument();
      if IsError(status) {
        return;
      }
      status, l2 := GetArgument();
      if IsError(status) {
        return;
      }
      match op
      case Rel(Eq) => status := Bool(l1 == l2);
      case Rel(Neq) => status := Bool(l1 != l2);
      case Rel(Gt) => status := Bool(l1 > l2);
      case Rel(Geq) => status := Bool(l1 >= l2);
      case Rel(Lt) => status := Bool(l1 < l2);
      case Rel(Leq) => status := Bool(l1 <= l2);
      case _ => status := EXECUTION_ERROR;
    }

    method Execute() returns (status: Status)
      modifies this`ip
      ensures var r := Execution(code[..], values);
              status == r.status && (!IsError(status) ==> ip == r.ip)
    {
      ip := 0;
      status := EXECUTION_ERROR;
      var n := GetNode();
      match n
      case CmpNode(op) => status := EvalLogic(op);
      case _ =>
    }

    // -------------------------------------------------------------- range derivation

    static method MergeRanges(c: Connective, before: seq<Range>, a: seq<Range>, b: seq<Range>) returns (t: seq<Range>)
      requires |before| == |a| == |b|
      ensures t == Merge(c, before, a, b)
    {
      t := before;
      for i := 0 to |a|
        invariant |t| == |a| && t[i..] == before[i..]
        invariant forall j | 0 <= j < i :: t[j] == MergeSlot(c, before[j], a[j], b[j])
      {
        if a[i].Free? && b[i].Free? {
          continue;
        } else if b[i].Free? {
          t := t[i := a[i]];
        } else if a[i].Free? {
          t := t[i := b[i]];
        } else if c == And {
          t := t[i := Within(if a[i].min > b[i].min then a[i].min else b[i].min,
                             if a[i].max < b[i].max then a[i].max else b[i].max)];
        } else {
          t := t[i := Within(if a[i].min > b[i].min then b[i].min else a[i].min,
                             if a[i].max < b[i].max then b[i].max else a[i].max)];
        }
      }
    }

    method DeriveRelation(table: seq<Range>) returns (status: Status, derived: seq<Range>)
      modifies this`ip
      ensures var d := DeriveFrom(code[..], old(ip), table);
              status == d.status && (!IsError(status) ==> derived == d.table && ip == d.ip)
      decreases code.Length - ip
    {
      derived := table;
      var n := GetNode();
      if !n.CmpNode? || n.op.Arith? {
        return DERIVATION_ERROR, derived;
      }
      if n.op.Conn? {
        if n.op.conn == Not {
          return DERIVATION_ERROR, derived;
        }
        var d1, d2;
        status, d1 := DeriveRelation(NoRanges(|table|));
        if IsError(status) {
          return DERIVATION_ERROR, derived;
        }
        status, d2 := DeriveRelation(NoRanges(|table|));
        if IsError(status) {
          return DERIVATION_ERROR, derived;
        }
        derived := MergeRanges(n.op.conn, table, d1, d2);
        return TRUE, derived;
      }
      var x := GetNode();
      var y := GetNode();
      if !x.OperandNode? || !y.OperandNode? {
        return DERIVATION_ERROR, derived;
      }
      status, derived := DeriveComparison(n.op.rel, x.operand, y.operand, table);
    }

    static method DeriveComparison(rel: RelOp, x: Operand, y: Operand, table: seq<Range>)
      returns (status: Status, derived: seq<Range>)
      ensures var d := DeriveOperands(rel, x, y, table, 0); status == d.status && derived == d.table
    {
      status, derived := DERIVATION_ERROR, table;
      if x.Variable? && y.Variable? {
        return;
      }
      var id, value;
      if x.Variable? {
        id, value := x.id, y.l;
      } else {
        id, value := IdOf(y), x.l;
      }
      if id >= |table| {
        return;
      }
      var min, max := LONG_MIN, LONG_MAX;
      match rel {
        case Eq => min, max := value, value;
        case Gt => min := value + 1;
        case Geq => min := value;
        case Lt => max := value - 1;
        case Leq => max := value;
        case Neq => return;
      }
      status, derived := TRUE, table[id := Within(min, max)];
    }

    method Derive() returns (status: Status)
      modifies this`ip, this`ranges
      ensures var d := DeriveFrom(code[..], old(ip), old(ranges));
              status == d.status && (!IsError(status) ==> ranges == d.table && ip == d.ip)
    {
      status, ranges := DeriveRelation(ranges);
    }

    method GetDerivedRange(n: string) returns (status: Status, range: Range)
      requires |ranges| == |names|
      ensures if exists i :: 0 <= i < |names| && names[i] == n
              then exists i :: 0 <= i < |names| && names[i] == n && (forall j | 0 <= j < i :: names[j] != n) &&
                               range == ranges[i] && status == (if range.Within? then TRUE else DERIVATION_ERROR)
              else status == INVALID_IDENTIFIER && range == Free
    {
      for i := 0 to |names|
        invariant forall j | 0 <= j < i :: names[j] != n
      {
        if names[i] == n {
          return if ranges[i].Within? then TRUE else DERIVATION_ERROR, ranges[i];
        }
      }
      return INVALID_IDENTIFIER, Free;
    }
  }
}
