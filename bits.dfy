/// Bitwise AND on unsigned machine words, written out on naturals so that it
/// can be compared with the values the field and the masks hold.
module Bits {
  /// `a & b`, bit by bit from the least significant bit.
  function BitAnd(a: nat, b: nat): nat
    decreases a
  {
    if a == 0 || b == 0 then 0
    else (if a % 2 == 1 && b % 2 == 1 then 1 else 0) + 2 * BitAnd(a / 2, b / 2)
  }

  /// The result never exceeds either operand, so it fits the operands' width.
  lemma {:induction false} BitAndBound(a: nat, b: nat)
    ensures BitAnd(a, b) <= a && BitAnd(a, b) <= b
    decreases a
  {
    if a != 0 && b != 0 {
      BitAndBound(a / 2, b / 2);
    }
  }

  /// The lowest bit of `a & b` is the product of the operands' lowest bits.
  lemma {:induction false} BitAndLowBit(a: nat, b: nat)
    ensures BitAnd(a, b) % 2 == (a % 2) * (b % 2)
  {
    if a != 0 && b != 0 {
      var low := if a % 2 == 1 && b % 2 == 1 then 1 else 0;
      assert BitAnd(a, b) == low + 2 * BitAnd(a / 2, b / 2);
    }
  }

  /// `a & b == 1` holds exactly when both operands are odd and they share no
  /// higher bit.
  lemma BitAndIsOne(a: nat, b: nat)
    ensures BitAnd(a, b) == 1 <==> a % 2 == 1 && b % 2 == 1 && BitAnd(a / 2, b / 2) == 0
  {
  }

  /// Against a cell that is 0 or 1, `c & b == 1` holds exactly when the cell
  /// is 1 and `b` is odd.
  lemma BitAndWithBit(c: nat, b: nat)
    requires c <= 1
    ensures BitAnd(c, b) == 1 <==> c == 1 && b % 2 == 1
  {
    if c == 1 && b != 0 {
      assert BitAnd(0, b / 2) == 0;
    }
  }
}
