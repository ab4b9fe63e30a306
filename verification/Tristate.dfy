/** The three-valued logic of expr.h: no < mod < yes, with minimum, maximum and 2 - x. */
module Tristates {

  datatype Tristate = No | Mod | Yes

  /** The C enumeration value. */
  function Level(t: Tristate): int {
    match t
    case No => 0
    case Mod => 1
    case Yes => 2
  }

  function Or(a: Tristate, b: Tristate): (r: Tristate)
    ensures (r == a || r == b) && Level(a) <= Level(r) && Level(b) <= Level(r)
  {
    if Level(a) > Level(b) then a else b
  }

  function And(a: Tristate, b: Tristate): (r: Tristate)
    ensures (r == a || r == b) && Level(r) <= Level(a) && Level(r) <= Level(b)
  {
    if Level(a) < Level(b) then a else b
  }

  function Not(a: Tristate): (r: Tristate)
    ensures Level(r) == 2 - Level(a)
  {
    match a
    case No => Yes
    case Mod => Mod
    case Yes => No
  }

  /** The two operators that expressions are flattened by. */
  datatype Op = AndOp | OrOp

  function Dual(op: Op): Op {
    if op == AndOp then OrOp else AndOp
  }

  function Apply(op: Op, a: Tristate, b: Tristate): Tristate {
    if op == AndOp then And(a, b) else Or(a, b)
  }

  /** The neutral operand: y for &&, n for ||. */
  function Unit(op: Op): Tristate {
    if op == AndOp then Yes else No
  }

  /** a adds nothing to t under op. */
  predicate Absorbed(op: Op, a: Tristate, t: Tristate) {
    Apply(op, a, t) == t
  }

  /** x squeezed into the interval that lo and hi delimit. */
  function Clamp(lo: Tristate, hi: Tristate, x: Tristate): Tristate {
    Or(lo, And(hi, x))
  }
}
