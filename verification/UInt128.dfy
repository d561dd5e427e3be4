/** src/uint128.c: 128-bit integers over two 64-bit limbs.  Results are written
    through a target object that may be one of the operands, as in the C code. */
module UInt128 {
  import opened Powers
  import opened LongDivision
  import opened LimbShifts

  /** The C operators << and >> on uint64_t. */
  function Shl64(x: u64, n: nat): u64 {
    Left(x, n, W64)
  }

  function Shr64(x: u64, n: nat): u64 {
    Right(x, n)
  }

  /** The C operator | on uint64_t. */
  function Or64(x: u64, y: u64): u64 {
    Or64Fits(x, y);
    BitOr(x, y)
  }

  lemma Or64Fits(x: u64, y: u64)
    ensures BitOr(x, y) < W64
  {
    var k := 64;
    assert Pow2(k) == W64 by { Pow2Widths(); }
    BitOrBound(x, y, k);
  }

  lemma OrLimbs(h1: u64, l1: u64, h2: u64, l2: u64)
    ensures Or64(h1, h2) * W64 + Or64(l1, l2) == BitOr(h1 * W64 + l1, h2 * W64 + l2)
  {
    var k := 64;
    assert Pow2(k) == W64 by { Pow2Widths(); }
    BitOrLimbs(h1, l1, h2, l2, k);
  }

  /** The number with the given limbs. */
  function Join64(h: u64, l: u64): (v: nat)
    ensures v < W128
  {
    h * W64 + l
  }

  /** uint128_t: elements[0] is the upper limb, elements[1] the lower one. */
  class U128 {
    var hi: u64
    var lo: u64

    /** The number the two limbs stand for. */
    function Val(): (v: nat)
      reads this
      ensures v < W128
    {
      Join64(hi, lo)
    }

    constructor (h: u64, l: u64)
      ensures hi == h && lo == l
    {
      hi, lo := h, l;
    }

    predicate IsZero()
      reads this
      ensures IsZero() <==> Val() == 0
    {
      lo == 0 && hi == 0
    }

    predicate Equals(other: U128)
      reads this, other
      ensures Equals(other) <==> Val() == other.Val()
    {
      hi == other.hi && lo == other.lo
    }

    predicate Greater(other: U128)
      reads this, other
      ensures Greater(other) <==> Val() > other.Val()
    {
      if hi == other.hi then lo > other.lo else hi > other.hi
    }

    predicate GreaterEq(other: U128)
      reads this, other
      ensures GreaterEq(other) <==> Val() >= other.Val()
    {
      Greater(other) || Equals(other)
    }
  }

  method Copy128(target: U128, number: U128)
    modifies target
    ensures target.Val() == old(number.Val())
    ensures target.hi == old(number.hi) && target.lo == old(number.lo)
  {
    target.hi := number.hi;
    target.lo := number.lo;
  }

  method Clear128(target: U128)
    modifies target
    ensures target.Val() == 0
  {
    target.hi := 0;
    target.lo := 0;
  }

  method ShiftL128(number: U128, value: u32, target: U128)
    modifies target
    ensures target.Val() == Left(old(number.Val()), value, W128)
  {
    hide Left, Right, Join64, AddMod;
    if 0 < value < 64 {
      SmallShifts128(number.hi, number.lo, value);
      NoWrap(Shl64(number.hi, value), Shr64(number.lo, 64 - value), W64);
    } else {
      WholeShifts128(number.hi, number.lo, value);
    }
    if value >= 128 {
      Clear128(target);
    } else if value == 64 {
      target.hi := number.lo;
      target.lo := 0;
    } else if value == 0 {
      Copy128(target, number);
    } else if value < 64 {
      target.hi := Add64(Shl64(number.hi, value), Shr64(number.lo, 64 - value));
      target.lo := Shl64(number.lo, value);
    } else {
      target.hi := Shl64(number.lo, value - 64);
      target.lo := 0;
    }
  }

  /** The branch for 64 clears the upper limb of the target before it reads the
      upper limb of the number, so shifting in place by exactly 64 yields zero. */
  method ShiftR128(number: U128, value: u32, target: U128)
    modifies target
    ensures target.Val() == ShiftRight128(target == number, old(number.Val()), value)
  {
    hide Left, Right, Join64, AddMod;
    if 0 < value < 64 {
      SmallShifts128(number.hi, number.lo, value);
      NoWrap(Shl64(number.hi, 64 - value), Shr64(number.lo, value), W64);
    } else {
      WholeShifts128(number.hi, number.lo, value);
    }
    HighLimbOnly(number.hi);
    HighLimbOnly(0);
    if value >= 128 {
      Clear128(target);
    } else if value == 64 {
      target.hi := 0;
      target.lo := number.hi;
    } else if value == 0 {
      Copy128(target, number);
    } else if value < 64 {
      var result := new U128(Shr64(number.hi, value),
                             Add64(Shl64(number.hi, 64 - value), Shr64(number.lo, value)));
      Copy128(target, result);
    } else {
      target.lo := Shr64(number.hi, value - 64);
      target.hi := 0;
    }
  }

  lemma WholeShifts128(h: u64, l: u64, value: nat)
    requires !(0 < value < 64)
    ensures value >= 128 ==> Left(Join64(h, l), value, W128) == 0 && Right(Join64(h, l), value) == 0
    ensures value == 0 ==> Left(Join64(h, l), value, W128) == Join64(h, l) == Right(Join64(h, l), value)
    ensures 64 <= value < 128 ==>
      && Left(Join64(h, l), value, W128) == Join64(Shl64(l, value - 64), 0)
      && Right(Join64(h, l), value) == Join64(0, Shr64(h, value - 64))
    ensures value == 64 ==> Shl64(l, value - 64) == l && Shr64(h, value - 64) == h
  {
    hide Left, Right, Pow2;
    var b := 64;
    assert Pow2(b) == W64 by { Pow2Widths(); }
    LeftCases(h, l, value, b, W64);
    RightCases(h, l, value, b, W64);
  }

  lemma HighLimbOnly(h: u64)
    ensures Join64(0, h) == h
  {
  }

  /** What ShiftR128 leaves of n, given whether the target is the number itself. */
  function ShiftRight128(inPlace: bool, n: nat, value: nat): nat {
    if inPlace && value == 64 then 0 else Right(n, value)
  }

  /** The in-place shift is right exactly when the amount is not 64 or there is
      nothing in the upper limb to lose. */
  lemma ShiftRightInPlaceExact(inPlace: bool, n: nat, value: nat)
    requires n < W128
    ensures ShiftRight128(inPlace, n, value) == Right(n, value)
      <==> !(inPlace && value == 64 && n >= W64)
  {
    hide Right;
    var h, l := n / W64, n % W64;
    HighLimbOnly(h);
    WholeShifts128(h, l, 64);
  }

  /** The smallest failure: 2^64 shifted in place by 64 gives 0 instead of 1. */
  lemma ShiftRightInPlaceCounterexample()
    ensures ShiftRight128(true, W64, 64) == 0 && Right(W64, 64) == 1
  {
    hide Right;
    HighLimbOnly(1);
    WholeShifts128(1, 0, 64);
  }

  lemma SmallShifts128(h: u64, l: u64, value: nat)
    requires 0 < value < 64
    ensures Shl64(h, value) + Shr64(l, 64 - value) < W64
    ensures Left(Join64(h, l), value, W128)
         == Join64(Shl64(h, value) + Shr64(l, 64 - value), Shl64(l, value))
    ensures Shl64(h, 64 - value) + Shr64(l, value) < W64
    ensures Right(Join64(h, l), value)
         == Join64(Shr64(h, value), Shl64(h, 64 - value) + Shr64(l, value))
  {
    hide Left, Right, Pow2;
    var b := 64;
    assert Pow2(b) == W64 by { Pow2Widths(); }
    LeftCases(h, l, value, b, W64);
    RightCases(h, l, value, b, W64);
  }

  /** The C addition of two limbs. */
  function Add64(x: u64, y: u64): u64 {
    AddMod(x, y, W64)
  }

  /* ---- Addition, subtraction, OR ---- */

  /** Carry propagation between the limbs computes the sum modulo 2^128. */
  lemma AddLimbs(h1: u64, l1: u64, h2: u64, l2: u64, carry: int)
    requires carry == if (l1 + l2) % W64 < l1 then 1 else 0
    ensures ((h1 + h2 + carry) % W64) * W64 + (l1 + l2) % W64
         == AddMod(h1 * W64 + l1, h2 * W64 + l2, W128)
  {
    assert l1 + l2 == carry * W64 + (l1 + l2) % W64;
    var k := if h1 + h2 + carry < W64 then 0 else 1;
    assert h1 + h2 + carry == k * W64 + (h1 + h2 + carry) % W64;
    DivUnique((h1 * W64 + l1) + (h2 * W64 + l2), W128, k,
              ((h1 + h2 + carry) % W64) * W64 + (l1 + l2) % W64);
  }

  /** Borrow propagation between the limbs computes the difference modulo 2^128. */
  lemma SubLimbs(h1: u64, l1: u64, h2: u64, l2: u64, borrow: int)
    requires borrow == if (l1 - l2) % W64 > l1 then 1 else 0
    ensures ((h1 - h2 - borrow) % W64) * W64 + (l1 - l2) % W64
         == SubMod(h1 * W64 + l1, h2 * W64 + l2, W128)
  {
    assert l1 - l2 == -borrow * W64 + (l1 - l2) % W64;
    var k := if h1 - h2 - borrow >= 0 then 0 else -1;
    assert h1 - h2 - borrow == k * W64 + (h1 - h2 - borrow) % W64;
    DivUnique((h1 * W64 + l1) - (h2 * W64 + l2), W128, k,
              ((h1 - h2 - borrow) % W64) * W64 + (l1 - l2) % W64);
  }

  method Add128(number1: U128, number2: U128, target: U128)
    modifies target
    ensures target.Val() == AddMod(old(number1.Val()), old(number2.Val()), W128)
  {
    var carry := if (number1.lo + number2.lo) % W64 < number1.lo then 1 else 0;
    AddLimbs(number1.hi, number1.lo, number2.hi, number2.lo, carry);
    target.hi := (number1.hi + number2.hi + carry) % W64;
    target.lo := (number1.lo + number2.lo) % W64;
  }

  method Sub128(number1: U128, number2: U128, target: U128)
    modifies target
    ensures target.Val() == SubMod(old(number1.Val()), old(number2.Val()), W128)
  {
    var borrow := if (number1.lo - number2.lo) % W64 > number1.lo then 1 else 0;
    SubLimbs(number1.hi, number1.lo, number2.hi, number2.lo, borrow);
    target.hi := (number1.hi - number2.hi - borrow) % W64;
    target.lo := (number1.lo - number2.lo) % W64;
  }

  method Or128(number1: U128, number2: U128, target: U128)
    modifies target
    ensures target.Val() == BitOr(old(number1.Val()), old(number2.Val()))
  {
    OrLimbs(number1.hi, number1.lo, number2.hi, number2.lo);
    target.hi := Or64(number1.hi, number2.hi);
    target.lo := Or64(number1.lo, number2.lo);
  }

  /* ---- Bit length ---- */

  method Bits64(number: u64, start: nat) returns (result: nat)
    ensures result == start + BitLength(number)
  {
    result := start;
    var x := number;
    while x != 0
      invariant result + BitLength(x) == start + BitLength(number)
      decreases x
    {
      x := x / 2;
      result := result + 1;
    }
  }

  lemma BitsOfLimbs(h: u64, l: u64)
    ensures BitLength(h) <= 64 && BitLength(l) <= 64
    ensures h != 0 ==> BitLength(h * W64 + l) == 64 + BitLength(h)
  {
    var k := 64;
    assert Pow2(k) == W64 by { Pow2Widths(); }
    BitLengthBelow(h, k);
    BitLengthBelow(l, k);
    if h != 0 { BitLengthHigh(h, l, k); }
  }

  method Bits128(number: U128) returns (result: u32)
    ensures result == BitLength(number.Val())
    ensures result <= 128
  {
    BitsOfLimbs(number.hi, number.lo);
    hide BitLength;
    if number.hi != 0 {
      result := Bits64(number.hi, 64);
    } else {
      result := Bits64(number.lo, 0);
    }
  }

  /* ---- Division ---- */

  /** What the division loop keeps: the invariant of LongDivision over the
      values of its four registers, until the remainder is below the divisor. */
  ghost predicate Dividing128(L: nat, R: nat, k: nat, copyd: U128, adder: U128, resDiv: U128, resMod: U128)
    reads copyd, adder, resDiv, resMod
  {
    && resMod.Val() <= L
    && L == resDiv.Val() * R + resMod.Val()
    && (resMod.Val() >= R ==>
          && copyd.Val() == Shl(R, k)
          && adder.Val() == Pow2(k)
          && Aligned(L, R, k, resDiv.Val(), resMod.Val()))
  }

  method DivMod128(l: U128, r: U128, retDiv: U128, retMod: U128)
    requires r.Val() > 0
    requires retDiv != retMod
    modifies retDiv, retMod
    ensures retDiv.Val() == old(l.Val() / r.Val())
    ensures retMod.Val() == old(l.Val() % r.Val())
  {
    hide BitLength, Pow2, Shl, Aligned, U128.Greater, U128.GreaterEq;
    ghost var L, R := l.Val(), r.Val();
    var one := new U128(0, 1);
    var lBits := Bits128(l);
    var rBits := Bits128(r);
    var diffBits: u32 := (lBits as int - rBits) % 0x1_0000_0000;
    var resDiv := new U128(0, 0);
    var resMod := new U128(0, 0);
    Copy128(resMod, l);
    if r.Greater(l) {
      Exact(L, R, 0, L);
      Copy128(retMod, l);
      Clear128(retDiv);
    } else {
      var copyd := new U128(0, 0);
      var adder := new U128(0, 0);
      ghost var k := Align128(resMod, r, one, diffBits, copyd, adder);
      while resMod.GreaterEq(r)
        invariant r.Val() == R
        invariant Dividing128(L, R, k, copyd, adder, resDiv, resMod)
        decreases k, resMod.Val() >= R
      {
        k := SettleBit128(L, R, k, copyd, adder, resDiv, resMod);
      }
      Exact(L, R, resDiv.Val(), resMod.Val());
      Copy128(retDiv, resDiv);
      Copy128(retMod, resMod);
    }
  }

  /** The body of the division loop: subtract the aligned divisor if it fits,
      record the quotient bit, and move one bit down. */
  method SettleBit128(ghost L: nat, ghost R: nat, ghost k: nat,
                      copyd: U128, adder: U128, resDiv: U128, resMod: U128)
      returns (ghost k': nat)
    requires copyd !in {adder, resDiv, resMod} && adder !in {resDiv, resMod} && resDiv != resMod
    requires R > 0 && resMod.Val() >= R
    requires Dividing128(L, R, k, copyd, adder, resDiv, resMod)
    modifies copyd, adder, resDiv, resMod
    ensures Dividing128(L, R, k', copyd, adder, resDiv, resMod)
    ensures k' < k || (k' == k && resMod.Val() < R)
  {
    hide Shl, Pow2, BitOr, Right, Aligned, SubMod;
    ghost var q, m := resDiv.Val(), resMod.Val();
    DivisionStep(L, R, k, q, m);
    if resMod.GreaterEq(copyd) {
      NoWrap(m, copyd.Val(), W128);
      Sub128(resMod, copyd, resMod);
      Or128(resDiv, adder, resDiv);
    }
    assert resMod.Val() == NextMod(R, k, m) && resDiv.Val() == NextDiv(R, k, q, m);
    k' := if k > 0 then k - 1 else 0;
    Halve128(R, k, copyd, adder);
  }

  /** Both registers move one bit down. */
  method Halve128(ghost R: nat, ghost k: nat, copyd: U128, adder: U128)
    requires copyd != adder
    requires k > 0 ==> copyd.Val() == Shl(R, k) && adder.Val() == Pow2(k)
    modifies copyd, adder
    ensures k > 0 ==> copyd.Val() == Shl(R, k - 1) && adder.Val() == Pow2(k - 1)
  {
    if k > 0 { HalveAligned(R, k); }
    ShiftR128(copyd, 1, copyd);
    ShiftR128(adder, 1, adder);
  }

  /** The alignment before the loop: the divisor moved under the dividend's top
      bit, and back by one when that overshoots. */
  method Align128(resMod: U128, r: U128, one: U128, diffBits: u32, copyd: U128, adder: U128)
      returns (ghost k: nat)
    requires copyd != adder && copyd !in {resMod, r, one} && adder !in {resMod, r, one}
    requires 0 < r.Val() <= resMod.Val() && one.Val() == 1
    requires diffBits == (BitLength(resMod.Val()) - BitLength(r.Val())) % 0x1_0000_0000
    modifies copyd, adder
    ensures copyd.Val() == Shl(r.Val(), k) && adder.Val() == Pow2(k)
    ensures Aligned(resMod.Val(), r.Val(), k, 0, resMod.Val())
  {
    hide *;
    ghost var L, R := resMod.Val(), r.Val();
    k := InitialShift128(L, R);
    ShiftL128(r, diffBits, copyd);
    ShiftL128(one, diffBits, adder);
    if copyd.Greater(resMod) {
      StepBack(L, R, k);
      Halve128(R, k, copyd, adder);
      k := k - 1;
    }
  }

  lemma InitialShift128(L: nat, R: nat) returns (k: nat)
    requires 0 < R <= L < W128
    ensures k == BitLength(L) - BitLength(R) < 0x1_0000_0000
    ensures Left(R, k, W128) == Shl(R, k) && Left(1, k, W128) == Pow2(k)
    ensures Aligned(L, R, k, 0, L)
  {
    InitialAlignment(L, R);
    k := BitLength(L) - BitLength(R);
    var width := 128;
    assert Pow2(width) == W128 by { Pow2Widths(); }
    FitsRegister(L, R, k, width);
  }
}
