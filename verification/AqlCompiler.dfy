/** The recursive-descent compiler as the program has it (apps/antelope/aql-parser.c): it moves the lexer
  * and fills the logic engine in place. */
module AqlCompiler {
  import opened LvmCode
  import opened LvmAssembler
  import opened LvmMachine
  import opened AqlText
  import opened AqlParser

  class Compiler {
    const tokens: seq<Token>
    const p: Machine
    var input: nat
    var previous: nat

    constructor (ts: seq<Token>, machine: Machine)
      ensures tokens == ts && p == machine && input == 0
    {
      tokens, p := ts, machine;
      input, previous := 0, 0;
    }

    /** The parser stands inside the text, and there are two nodes of code space for every token to come
      * (the program reserves DB_VM_BYTECODE_SIZE bytes and does not check). */
    ghost predicate Ready(extra: nat)
      reads this, p, p.code
    {
      input <= |tokens| && Need(tokens, input, p.View()) + extra <= |p.View().code|
    }

    method NextToken() returns (t: Token)
      requires input <= |tokens|
      modifies this
      ensures t == TokenAt(tokens, old(input)) && input == AqlParser.Next(tokens, old(input)) && previous == old(input)
    {
      previous := input;
      if input < |tokens| {
        t := tokens[input];
        input := input + 1;
      } else {
        t := NoToken;
      }
    }

    method Rewind()
      modifies this
      ensures input == old(previous)
    {
      input := previous;
    }

    method Operand() returns (status: nat)
      requires Ready(0)
      modifies this, p`end, p`names, p.code
      ensures Parse(status, input, p.View()) == ParseOperand(tokens, old(input), old(p.View()))
    {
      var t := NextToken();
      status := OK;
      match t
      case Identifier(n) =>
        var _ := p.RegisterVariable(n);
        p.SetVariable(n);
      case IntegerValue(l) => p.SetNode(OperandNode(Long(l)));
      case StringValue =>
      case FloatValue =>
      case _ => status := SYNTAX_ERROR;
    }

    method Expr() returns (status: nat)
      requires Ready(0)
      modifies this, p`end, p`error, p`names, p.code
      ensures Parse(status, input, p.View()) == ParseExpr(tokens, old(input), old(p.View()))
      decreases |tokens| - input, 0
    {
      ghost var r := ParseExpr(tokens, input, p.View());
      var saved := p.end;
      var t := NextToken();
      if t == LeftParen {
        status := Expr();
        if Failed(status) {
          return SYNTAX_ERROR;
        }
        t := NextToken();
        if t != RightParen {
          return SYNTAX_ERROR;
        }
      } else {
        Rewind();
        status := Operand();
        if Failed(status) {
          return SYNTAX_ERROR;
        }
      }
      while true
        invariant Ready(0) && input > old(input)
        invariant r == ExprLoop(tokens, input, p.View(), saved)
        decreases |tokens| - input
      {
        t := NextToken();
        if t == RightParen {
          break;
        } else if !t.ArithToken? {
          Rewind();
          break;
        }
        saved, status := OperatorWith(t.op, saved);
        if Failed(status) {
          return SYNTAX_ERROR;
        }
      }
      return OK;
    }

    /** One operator of parse_expr: its right operand is compiled and the operator put before both. */
    method OperatorWith(op: ArithOp, start: nat) returns (saved: nat, status: nat)
      requires input <= |tokens| && Need(tokens, input, p.View()) + 2 <= |p.View().code|
      modifies this, p`end, p`error, p`names, p.code
      ensures var x := ParseOperand(tokens, old(input), old(p.View()));
              var r := if Failed(x.status) then ParseExpr(tokens, x.pos, x.asm) else x;
              && input == r.pos && status == r.status
              && (if Failed(r.status) then p.View() == r.asm
                  else (p.View(), saved) == Insert(r.asm, start, ArithNode(Arith(op))))
      decreases |tokens| - input, 1
    {
      saved := start;
      status := Operand();
      if Failed(status) {
        status := Expr();
      }
      if !Failed(status) {
        saved := p.ShiftForOperator(start);
        p.SetNode(ArithNode(Arith(op)));
        var _ := p.SetEndAt(saved);
      }
    }

    method Condition() returns (status: nat)
      requires Ready(1)
      modifies this, p`end, p`error, p`names, p.code
      ensures Parse(status, input, p.View()) == ParseComparison(tokens, old(input), old(p.View()))
    {
      var hole := p.JumpToOperand();
      status := Expr();
      if Failed(status) {
        return SYNTAX_ERROR;
      }
      status := Relation(hole);
    }

    /** The relation of a comparison and its right side. */
    method Relation(hole: nat) returns (status: nat)
      requires Ready(0) && Need(tokens, input, p.View().(end := hole)) <= p.code.Length
      modifies this, p`end, p`error, p.code, p`names
      ensures Parse(status, input, p.View()) == ParseRelation(tokens, old(input), old(p.View()), hole)
    {
      var saved := p.SetEndAt(hole);
      var t := NextToken();
      if !t.CmpToken? {
        return SYNTAX_ERROR;
      }
      p.SetNode(CmpNode(Rel(t.rel)));
      var _ := p.SetEndAt(saved);
      status := Expr();
      if Failed(status) {
        return SYNTAX_ERROR;
      }
      status := OK;
    }

    /** Insert a connective before the last condition. */
    method Connect(c: Connective, start: nat) returns (saved: nat)
      requires p.end < p.code.Length
      modifies p`end, p`error, p.code
      ensures (p.View(), saved) == Insert(old(p.View()), start, CmpNode(Conn(c)))
    {
      saved := p.ShiftForOperator(start);
      p.SetNode(CmpNode(Conn(c)));
      var _ := p.SetEndAt(saved);
    }

    /** What follows a connective: a clause in parentheses or a condition.  A condition that fails makes
      * the program leave parse_where with the value 0. */
    method Operands() returns (status: nat)
      requires Ready(1)
      modifies this, p`end, p`error, p`names, p.code
      ensures Parse(status, input, p.View()) == ParseConnected(tokens, old(input), old(p.View()))
      decreases |tokens| - input, 1
    {
      var t := NextToken();
      if t == LeftParen {
        status := Where();
        if Failed(status) {
          return SYNTAX_ERROR;
        }
        t := NextToken();
        status := if t == RightParen then OK else SYNTAX_ERROR;
      } else {
        Rewind();
        status := Condition();
        status := if Failed(status) then 0 else OK;
      }
    }

    /** The loop of parse_where. */
    method Connectives() returns (status: nat)
      requires Ready(0)
      modifies this, p`end, p`error, p`names, p.code
      ensures Parse(status, input, p.View()) == WhereLoop(tokens, old(input), old(p.View()), 0)
      decreases |tokens| - input, 2
    {
      hide ParseConnected, Insert;
      ghost var r := WhereLoop(tokens, input, p.View(), 0);
      var saved := 0;
      status := OK;
      while true
        invariant Ready(0) && input >= old(input) && status == OK
        invariant r == WhereLoop(tokens, input, p.View(), saved)
        decreases |tokens| - input
      {
        var t := NextToken();
        if t != AndToken && t != OrToken {
          Rewind();
          return;
        }
        saved := Connect(if t == AndToken then And else Or, saved);
        status := Operands();
        if status != OK {
          return;
        }
      }
    }

    method Where() returns (status: nat)
      requires Ready(1)
      modifies this, p`end, p`error, p`names, p.code
      ensures Parse(status, input, p.View()) == ParseWhere(tokens, old(input), old(p.View()))
      decreases |tokens| - input, 3
    {
      status := Condition();
      if Failed(status) {
        return SYNTAX_ERROR;
      }
      status := Connectives();
    }
  }
}
