/** Emission of code (apps/antelope/lvm.c, lvm_jump_to_operand to lvm_set_variable): what the parser's
  * calls do to the code buffer, the end position and the variable table. */
module LvmAssembler {
  import opened LvmCode

  const LVM_MAX_NAME_LENGTH := 12

  /** The part of the engine that the parser changes.  A free slot of the variable table is "". */
  datatype Asm = Asm(code: seq<Node>, end: nat, error: bool, names: seq<string>)

  /** lvm_set_op, lvm_set_relation and lvm_set_operand: write one node at the end. */
  function Put(a: Asm, n: Node): Asm {
    a.(code := if a.end < |a.code| then a.code[a.end := n] else a.code, end := a.end + 1)
  }

  /** lvm_jump_to_operand: leave a hole for an operator; the result is where the hole is. */
  function Jump(a: Asm): (r: (Asm, nat))
    ensures r.1 == a.end
  {
    (if a.end + 1 >= |a.code| then a.(error := true) else a.(end := a.end + 1), a.end)
  }

  /** lvm_shift_for_operator: move the code from `at` on up by one node and put the end at the gap; the
    * result is where the moved code ends. */
  function Shift(a: Asm, at: nat): (r: (Asm, nat))
    ensures |r.0.code| == |a.code| && r.0.names == a.names && r.0.end <= a.end
  {
    if a.end + 1 > |a.code| || at >= a.end then (a.(error := true), 0)
    else (a.(code := a.code[..at + 1] + a.code[at..a.end] + a.code[a.end + 1..], end := at), a.end + 1)
  }

  function SetEnd(a: Asm, end: nat): (r: (Asm, nat))
    ensures r.1 == a.end
  {
    (if end >= |a.code| then a.(error := true) else a.(end := end), a.end)
  }

  /** The slot of a variable, or the first free slot, or the table size. */
  function LookupFrom(names: seq<string>, n: string, i: nat): (k: nat)
    requires i <= |names|
    ensures i <= k <= |names|
    ensures k < |names| ==> names[k] == "" || names[k] == n
    ensures forall j | i <= j < k :: names[j] != "" && names[j] != n
    decreases |names| - i
  {
    if i == |names| || names[i] == "" || names[i] == n then i else LookupFrom(names, n, i + 1)
  }

  function Lookup(names: seq<string>, n: string): nat { LookupFrom(names, n, 0) }

  function Truncated(n: string): string {
    if |n| <= LVM_MAX_NAME_LENGTH then n else n[..LVM_MAX_NAME_LENGTH]
  }

  function Register(names: seq<string>, n: string): (r: seq<string>)
    ensures |r| == |names|
  {
    var id := Lookup(names, n);
    if id < |names| && names[id] == "" then names[id := Truncated(n)] else names
  }

  /** lvm_set_variable: nothing is emitted for a variable that found no slot. */
  function PutVariable(a: Asm, n: string): Asm {
    var id := Lookup(a.names, n);
    if id < |a.names| then Put(a, OperandNode(Variable(id))) else a
  }

  // ---------------------------------------------------------------- what emission does to the code

  /** The code emitted so far. */
  function Emitted(a: Asm): seq<Node> {
    if a.end <= |a.code| then a.code[..a.end] else a.code
  }

  /** Shifting, writing an operator into the gap and restoring the end inserts the operator. */
  lemma ShiftInserts(a: Asm, at: nat, n: Node)
    requires at < a.end && a.end + 1 < |a.code|
    ensures var (b, end) := Shift(a, at);
            var c := SetEnd(Put(b, n), end).0;
            && end == a.end + 1
            && c == Asm(c.code, a.end + 1, a.error, a.names) && |c.code| == |a.code|
            && Emitted(c) == a.code[..at] + [n] + a.code[at..a.end]
  {
    var (b, end) := Shift(a, at);
    var c := SetEnd(Put(b, n), end).0;
    assert b.code[at + 1..a.end + 1] == a.code[at..a.end];
    assert b.code[..at] == a.code[..at];
    assert c.code == b.code[at := n];
    assert c.code[..a.end + 1] == c.code[..at] + [c.code[at]] + c.code[at + 1..a.end + 1];
  }

  /** Writing into the hole at h, with the end put back afterwards. */
  lemma FillHole(a: Asm, h: nat, n: Node)
    requires h < a.end < |a.code|
    ensures var c := SetEnd(Put(SetEnd(a, h).0, n), a.end).0;
            && c == a.(code := a.code[h := n])
            && Emitted(c) == a.code[..h] + [n] + a.code[h + 1..a.end]
  {
  }
}
