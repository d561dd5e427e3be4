/** Shifts of a number held in two limbs of b bits, branch by branch.  Both
    layers of the wide integers (64-bit limbs, 128-bit halves) use these. */
module LimbShifts {
  import opened Powers

  /** The branches of a left shift, each against the number it must leave. */
  lemma LeftCases(h: nat, l: nat, value: nat, b: nat, B: nat)
    requires B == Pow2(b) && h < B && l < B && b > 0
    ensures B * B > 0
    ensures value >= 2 * b ==> Left(h * B + l, value, B * B) == 0
    ensures value == 0 ==> Left(h * B + l, value, B * B) == h * B + l
    ensures 0 < value < b ==>
      && Left(h, value, B) + Right(l, b - value) < B
      && Left(h * B + l, value, B * B) == (Left(h, value, B) + Right(l, b - value)) * B + Left(l, value, B)
    ensures b <= value < 2 * b ==> Left(h * B + l, value, B * B) == Left(l, value - b, B) * B
    ensures value == b ==> Left(l, value - b, B) == l
  {
    MulAtLeast(B, B);
    if value >= 2 * b {
      ShiftedOut(h * B + l, value, b, B);
    } else if value >= b {
      WholeLimbLeft(h, l, value, b, B);
    } else if value > 0 {
      SmallShiftLeft(h, l, value, b, B);
    } else {
      ProductRange(h, l, B, B);
      DivUnique(h * B + l, B * B, 0, h * B + l);
    }
  }

  lemma RightCases(h: nat, l: nat, value: nat, b: nat, B: nat)
    requires B == Pow2(b) && h < B && l < B && b > 0
    ensures value >= 2 * b ==> Right(h * B + l, value) == 0
    ensures value == 0 ==> Right(h * B + l, value) == h * B + l
    ensures 0 < value < b ==>
      && Left(h, b - value, B) + Right(l, value) < B
      && Right(h * B + l, value) == Right(h, value) * B + (Left(h, b - value, B) + Right(l, value))
    ensures b <= value < 2 * b ==> Right(h * B + l, value) == Right(h, value - b)
    ensures value == b ==> Right(h, value - b) == h
  {
    if value >= 2 * b {
      ShiftedAway(h, l, value, b, B);
    } else if value >= b {
      WholeLimbRight(h, l, value, b, B);
    } else if value > 0 {
      SmallShiftRight(h, l, value, b, B);
    }
  }

  lemma ShiftedOut(n: nat, value: nat, b: nat, B: nat)
    requires B == Pow2(b) && B * B > 0 && value >= 2 * b
    ensures Left(n, value, B * B) == 0
  {
    hide Left, Pow2;
    LeftIsTimesPow2(n, value, B * B);
    Pow2Add(b, b);
    Pow2Add(value - 2 * b, 2 * b);
    var m := n * Pow2(value - 2 * b);
    MulAssoc(n, Pow2(value - 2 * b), B * B);
    DivUnique(n * Pow2(value), B * B, m, 0);
  }

  lemma MulAssoc(a: int, b: int, c: int)
    ensures a * (b * c) == (a * b) * c
  {
  }

  lemma ShiftedAway(h: nat, l: nat, value: nat, b: nat, B: nat)
    requires B == Pow2(b) && h < B && l < B && value >= 2 * b
    ensures Right(h * B + l, value) == 0
  {
    hide Right;
    RightIsDivPow2(h * B + l, value);
    Pow2Add(b, b);
    Pow2Monotone(2 * b, value);
    ProductRange(h, l, B, B);
    DivUnique(h * B + l, Pow2(value), 0, h * B + l);
  }

  lemma SmallShiftLeft(h: nat, l: nat, value: nat, b: nat, B: nat)
    requires B == Pow2(b) && h < B && l < B && 0 < value < b
    ensures B * B > 0
    ensures Left(h, value, B) + Right(l, b - value) < B
    ensures (Left(h, value, B) + Right(l, b - value)) * B + Left(l, value, B) == Left(h * B + l, value, B * B)
  {
    hide Left, Right, Pow2;
    MulAtLeast(B, B);
    LeftIsTimesPow2(h * B + l, value, B * B);
    Pow2Add(value, b - value);
    LeftIsTimesPow2(h, value, B);
    RightIsDivPow2(l, b - value);
    LeftIsTimesPow2(l, value, B);
    ShiftLeftLimbs(h, l, Pow2(value), Pow2(b - value), B);
  }

  lemma SmallShiftRight(h: nat, l: nat, value: nat, b: nat, B: nat)
    requires B == Pow2(b) && h < B && l < B && 0 < value < b
    ensures Left(h, b - value, B) + Right(l, value) < B
    ensures Right(h, value) * B + (Left(h, b - value, B) + Right(l, value)) == Right(h * B + l, value)
  {
    hide Left, Right, Pow2;
    RightIsDivPow2(h * B + l, value);
    Pow2Add(value, b - value);
    LeftIsTimesPow2(h, b - value, B);
    RightIsDivPow2(l, value);
    RightIsDivPow2(h, value);
    ShiftRightLimbs(h, l, Pow2(value), Pow2(b - value), B);
  }

  /** A shift by a whole limb or more moves only the low limb up. */
  lemma WholeLimbLeft(h: nat, l: nat, value: nat, b: nat, B: nat)
    requires B == Pow2(b) && h < B && l < B && b <= value < 2 * b
    ensures B * B > 0
    ensures Left(l, value - b, B) * B == Left(h * B + l, value, B * B)
    ensures value == b ==> Left(l, value - b, B) == l
  {
    hide Pow2;
    MulAtLeast(B, B);
    LeftIsTimesPow2(h * B + l, value, B * B);
    Pow2Add(value - b, b);
    LeftIsTimesPow2(l, value - b, B);
    WholeLimbShift(h, l, Pow2(value - b), B);
    if value == b { DivUnique(l, B, 0, l); }
  }

  lemma WholeLimbRight(h: nat, l: nat, value: nat, b: nat, B: nat)
    requires B == Pow2(b) && h < B && l < B && b <= value < 2 * b
    ensures Right(h, value - b) == Right(h * B + l, value)
    ensures value == b ==> Right(h, value - b) == h
  {
    hide Pow2;
    RightIsDivPow2(h * B + l, value);
    Pow2Add(b, value - b);
    RightIsDivPow2(h, value - b);
    DropLowLimb(h, l, B);
    DivDiv(h * B + l, B, Pow2(value - b));
  }
}
