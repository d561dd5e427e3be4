/** src/uint256.c: 256-bit integers over two 128-bit halves.  Every operation
    below is proved through the contracts of the 128-bit layer alone. */
module UInt256 {
  import opened Powers
  import opened LongDivision
  import opened LimbShifts
  import opened UInt128

  /** uint256_t: elements[0] is the upper half, elements[1] the lower one. */
  class U256 {
    const upper: U128
    const lower: U128

    ghost predicate Valid() {
      upper != lower
    }

    /** The number the two halves stand for. */
    function Val(): (v: nat)
      reads upper, lower
    {
      Join(upper.Val(), lower.Val())
    }

    constructor (l: u64)
      ensures Valid() && fresh(upper) && fresh(lower)
      ensures Val() == l
    {
      upper := new U128(0, 0);
      lower := new U128(0, l);
    }

    predicate IsZero()
      reads upper, lower
      ensures IsZero() <==> Val() == 0
    {
      lower.IsZero() && upper.IsZero()
    }

    predicate Equals(other: U256)
      reads upper, lower, other.upper, other.lower
      ensures Equals(other) <==> Val() == other.Val()
    {
      SameHalves(upper.Val(), lower.Val(), other.upper.Val(), other.lower.Val());
      upper.Equals(other.upper) && lower.Equals(other.lower)
    }

    predicate Greater(other: U256)
      reads upper, lower, other.upper, other.lower
      ensures Greater(other) <==> Val() > other.Val()
    {
      SameHalves(upper.Val(), lower.Val(), other.upper.Val(), other.lower.Val());
      if upper.Equals(other.upper) then lower.Greater(other.lower) else upper.Greater(other.upper)
    }

    predicate GreaterEq(other: U256)
      reads upper, lower, other.upper, other.lower
      ensures GreaterEq(other) <==> Val() >= other.Val()
    {
      Greater(other) || Equals(other)
    }
  }

  /** The number with the given halves. */
  function Join(h: nat, l: nat): nat {
    h * W128 + l
  }

  /** Two uint256_t in memory are the same object or do not overlap. */
  ghost predicate Apart(a: U256, b: U256) {
    a == b || (a.upper != b.upper && a.upper != b.lower && a.lower != b.upper && a.lower != b.lower)
  }

  /** The halves of a number, for proofs that keep Val() folded. */
  lemma Halves(x: U256)
    ensures x.Val() == Join(x.upper.Val(), x.lower.Val())
    ensures 0 <= x.Val() < W256
  {
    Recombine(x.upper.Val(), x.lower.Val());
  }

  lemma Recombine(h: nat, l: nat)
    requires h < W128 && l < W128
    ensures 0 <= h * W128 + l < W256
  {
    ProductRange(h, l, W128, W128);
  }

  lemma SameHalves(h1: nat, l1: nat, h2: nat, l2: nat)
    requires h1 < W128 && l1 < W128 && h2 < W128 && l2 < W128
    ensures h1 > h2 ==> h1 * W128 + l1 > h2 * W128 + l2
    ensures h1 < h2 ==> h1 * W128 + l1 < h2 * W128 + l2
    ensures h1 == h2 ==> (h1 * W128 + l1 > h2 * W128 + l2 <==> l1 > l2)
    ensures h1 == h2 ==> (h1 * W128 + l1 == h2 * W128 + l2 <==> l1 == l2)
  {
  }

  method Copy256(target: U256, number: U256)
    requires target.Valid() && number.Valid() && Apart(target, number)
    modifies target.upper, target.lower
    ensures target.Val() == old(number.Val())
  {
    Copy128(target.upper, number.upper);
    Copy128(target.lower, number.lower);
  }

  method Clear256(target: U256)
    requires target.Valid()
    modifies target.upper, target.lower
    ensures target.Val() == 0
  {
    Clear128(target.upper);
    Clear128(target.lower);
  }

  /** The branches that do not move bits across the halves. */
  lemma WholeShifts256(h: nat, l: nat, value: nat)
    requires h < W128 && l < W128 && !(0 < value < 128)
    ensures value >= 256 ==> Left(Join(h, l), value, W256) == 0 && Right(Join(h, l), value) == 0
    ensures value == 0 ==> Left(Join(h, l), value, W256) == Join(h, l) == Right(Join(h, l), value)
    ensures 128 <= value < 256 ==>
      && Left(Join(h, l), value, W256) == Join(Left(l, value - 128, W128), 0)
      && Right(Join(h, l), value) == Join(0, Right(h, value - 128))
    ensures value == 128 ==> Left(l, value - 128, W128) == l && Right(h, value - 128) == h
  {
    hide Left, Right, Pow2;
    var b := 128;
    assert Pow2(b) == W128 by { Pow2Widths(); }
    LeftCases(h, l, value, b, W128);
    RightCases(h, l, value, b, W128);
  }

  lemma SmallLeft256(h: nat, l: nat, value: nat)
    requires h < W128 && l < W128 && 0 < value < 128
    ensures Left(h, value, W128) + Right(l, 128 - value) < W128
    ensures Left(Join(h, l), value, W256)
         == Join(Left(h, value, W128) + Right(l, 128 - value), Left(l, value, W128))
  {
    hide Left, Right, Pow2;
    var b := 128;
    assert Pow2(b) == W128 by { Pow2Widths(); }
    LeftCases(h, l, value, b, W128);
  }

  lemma SmallRight256(h: nat, l: nat, value: nat)
    requires h < W128 && l < W128 && 0 < value < 128
    ensures Right(l, value) + Left(h, 128 - value, W128) < W128
    ensures Right(Join(h, l), value)
         == Join(Right(h, value), Right(l, value) + Left(h, 128 - value, W128))
  {
    hide Left, Right, Pow2;
    var b := 128;
    assert Pow2(b) == W128 by { Pow2Widths(); }
    RightCases(h, l, value, b, W128);
  }

  /** add128 when the sum fits. */
  method AddNoCarry128(number1: U128, number2: U128, target: U128)
    requires number1.Val() + number2.Val() < W128
    modifies target
    ensures target.Val() == old(number1.Val() + number2.Val())
  {
    hide U128.Val, AddMod;
    NoWrap(number1.Val(), number2.Val(), W128);
    Add128(number1, number2, target);
  }

  method ShiftL256(number: U256, value: u32, target: U256)
    requires target.Valid() && number.Valid() && Apart(target, number)
    modifies target.upper, target.lower
    ensures target.Val() == Left(old(number.Val()), value, W256)
  {
    ghost var h, l := number.upper.Val(), number.lower.Val();
    if !(0 < value < 128) { WholeShifts256(h, l, value); }
    hide Left, Right, Pow2, Join, U128.Val, U256.Val;
    Halves(number);
    if value >= 256 {
      Clear256(target);
    } else if value == 128 {
      Copy128(target.upper, number.lower);
      Clear128(target.lower);
      Halves(target);
    } else if value == 0 {
      Copy256(target, number);
    } else if value < 128 {
      var result := SmallShiftL256(number, value);
      Copy256(target, result);
    } else {
      ShiftL128(number.lower, value - 128, target.upper);
      Clear128(target.lower);
      Halves(target);
    }
  }

  /** The upper half of a left shift: its own bits and those of the lower half. */
  method CrossLeft(upper: U128, lower: U128, value: u32, target: U128)
    requires 0 < value < 128 && target != upper && target != lower
    requires Left(upper.Val(), value, W128) + Right(lower.Val(), 128 - value) < W128
    modifies target
    ensures target.Val() == Left(upper.Val(), value, W128) + Right(lower.Val(), 128 - value)
  {
    hide Left, Right, AddMod, U128.Val;
    var tmp1 := new U128(0, 0);
    var tmp2 := new U128(0, 0);
    ShiftL128(upper, value, tmp1);
    ShiftR128(lower, 128 - value, tmp2);
    AddNoCarry128(tmp1, tmp2, target);
  }

  /** The lower half of a right shift. */
  method CrossRight(upper: U128, lower: U128, value: u32, target: U128)
    requires 0 < value < 128 && target != upper && target != lower
    requires Right(lower.Val(), value) + Left(upper.Val(), 128 - value, W128) < W128
    modifies target
    ensures target.Val() == Right(lower.Val(), value) + Left(upper.Val(), 128 - value, W128)
  {
    hide Left, Right, AddMod, U128.Val;
    var tmp1 := new U128(0, 0);
    var tmp2 := new U128(0, 0);
    ShiftR128(lower, value, tmp1);
    ShiftL128(upper, 128 - value, tmp2);
    AddNoCarry128(tmp1, tmp2, target);
  }

  /** The branch of shiftl256 that moves bits across the halves. */
  method SmallShiftL256(number: U256, value: u32) returns (result: U256)
    requires 0 < value < 128
    ensures result.Valid() && fresh(result.upper) && fresh(result.lower)
    ensures result.Val() == Left(number.Val(), value, W256)
  {
    ghost var h, l := number.upper.Val(), number.lower.Val();
    SmallLeft256(h, l, value);
    hide Left, Right, Pow2, Join, AddMod, U128.Val, U256.Val;
    Halves(number);
    result := new U256(0);
    CrossLeft(number.upper, number.lower, value, result.upper);
    ShiftL128(number.lower, value, result.lower);
    Halves(result);
  }

  method ShiftR256(number: U256, value: u32, target: U256)
    requires target.Valid() && number.Valid() && Apart(target, number)
    modifies target.upper, target.lower
    ensures target.Val() == Right(old(number.Val()), value)
  {
    ghost var h, l := number.upper.Val(), number.lower.Val();
    if !(0 < value < 128) { WholeShifts256(h, l, value); }
    hide Left, Right, Pow2, Join, U128.Val, U256.Val;
    Halves(number);
    if value >= 256 {
      Clear256(target);
    } else if value == 128 {
      Copy128(target.lower, number.upper);
      Clear128(target.upper);
      Halves(target);
    } else if value == 0 {
      Copy256(target, number);
    } else if value < 128 {
      var result := SmallShiftR256(number, value);
      Copy256(target, result);
    } else {
      ShiftR128(number.upper, value - 128, target.lower);
      Clear128(target.upper);
      Halves(target);
    }
  }

  /** The branch of shiftr256 that moves bits across the halves. */
  method SmallShiftR256(number: U256, value: u32) returns (result: U256)
    requires 0 < value < 128
    ensures result.Valid() && fresh(result.upper) && fresh(result.lower)
    ensures result.Val() == Right(number.Val(), value)
  {
    ghost var h, l := number.upper.Val(), number.lower.Val();
    SmallRight256(h, l, value);
    hide Left, Right, Pow2, Join, AddMod, U128.Val, U256.Val;
    Halves(number);
    result := new U256(0);
    ShiftR128(number.upper, value, result.upper);
    CrossRight(number.upper, number.lower, value, result.lower);
    Halves(result);
  }

  /* ---- Bit length ---- */

  method BitsOfHalf(number: U128, start: nat) returns (result: nat)
    ensures result == start + BitLength(number.Val())
  {
    hide U128.Val;
    result := start;
    var x := new U128(0, 0);
    Copy128(x, number);
    while !x.IsZero()
      invariant fresh(x)
      invariant result + BitLength(x.Val()) == start + BitLength(number.Val())
      decreases x.Val()
    {
      assert Right(x.Val(), 1) == x.Val() / 2 by { assert Right(x.Val(), 0) == x.Val(); }
      ShiftR128(x, 1, x);
      result := result + 1;
    }
  }

  lemma BitsOfHalves(h: nat, l: nat)
    requires h < W128 && l < W128
    ensures BitLength(h) <= 128 && BitLength(l) <= 128
    ensures BitLength(Join(h, l)) == if h != 0 then 128 + BitLength(h) else BitLength(l)
  {
    var k := 128;
    assert Pow2(k) == W128 by { Pow2Widths(); }
    BitLengthBelow(h, k);
    BitLengthBelow(l, k);
    if h != 0 { BitLengthHigh(h, l, k); }
  }

  method Bits256(number: U256) returns (result: u32)
    ensures result == BitLength(number.Val())
    ensures result <= 256
  {
    BitsOfHalves(number.upper.Val(), number.lower.Val());
    hide BitLength, Join, U128.Val;
    if !number.upper.IsZero() {
      result := BitsOfHalf(number.upper, 128);
    } else {
      result := BitsOfHalf(number.lower, 0);
    }
  }

  /* ---- Addition, subtraction, OR ---- */

  /** The carry out of the low halves, as add256 detects it: the wrapped low sum
      is below the first low operand. */
  lemma AddHalves(h1: nat, l1: nat, h2: nat, l2: nat)
    requires h1 < W128 && l1 < W128 && h2 < W128 && l2 < W128
    ensures var low := AddMod(l1, l2, W128);
      var high := AddMod(h1, h2, W128);
      Join(if l1 > low then AddMod(high, 1, W128) else high, low)
        == AddMod(Join(h1, l1), Join(h2, l2), W256)
  {
    var low, c := LowCarry(l1, l2);
    WrapTwice(h1 + h2, c, W128);
    CarryUp((h1 * W128 + l1) + (h2 * W128 + l2), h1 + h2 + c, low);
  }

  lemma SubHalves(h1: nat, l1: nat, h2: nat, l2: nat)
    requires h1 < W128 && l1 < W128 && h2 < W128 && l2 < W128
    ensures var low := SubMod(l1, l2, W128);
      var high := SubMod(h1, h2, W128);
      Join(if low > l1 then SubMod(high, 1, W128) else high, low)
        == SubMod(Join(h1, l1), Join(h2, l2), W256)
  {
    var low, c := LowBorrow(l1, l2);
    WrapTwice(h1 - h2, -c, W128);
    CarryUp((h1 * W128 + l1) - (h2 * W128 + l2), h1 - h2 - c, low);
  }

  lemma LowCarry(l1: nat, l2: nat) returns (low: nat, c: nat)
    requires l1 < W128 && l2 < W128
    ensures low == (l1 + l2) % W128 && c == (if l1 > low then 1 else 0)
    ensures l1 + l2 == c * W128 + low
  {
    var k := if l1 + l2 < W128 then 0 else 1;
    DivUnique(l1 + l2, W128, k, l1 + l2 - k * W128);
    low, c := (l1 + l2) % W128, k;
  }

  lemma LowBorrow(l1: nat, l2: nat) returns (low: nat, c: int)
    requires l1 < W128 && l2 < W128
    ensures low == (l1 - l2) % W128 && c == (if low > l1 then 1 else 0)
    ensures l1 - l2 == low - c * W128
  {
    var k := if l1 < l2 then 1 else 0;
    DivUnique(l1 - l2, W128, -k, l1 - l2 + k * W128);
    low, c := (l1 - l2) % W128, k;
  }

  lemma CarryUp(n: int, high: int, low: int)
    requires n == high * W128 + low && 0 <= low < W128
    ensures (high % W128) * W128 + low == n % W256
  {
    var k, m := high / W128, high % W128;
    Recombine(m, low);
    DivUnique(n, W256, k, m * W128 + low);
  }

  lemma WrapTwice(x: int, c: int, w: int)
    requires w > 0
    ensures (x % w + c) % w == (x + c) % w
  {
    var q, m := x / w, x % w;
    var q2, m2 := (m + c) / w, (m + c) % w;
    assert x + c == (q + q2) * w + m2;
    DivUnique(x + c, w, q + q2, m2);
  }

  method Add256(number1: U256, number2: U256, target: U256)
    requires target.Valid() && number1.Valid() && number2.Valid()
    requires Apart(target, number1) && Apart(target, number2)
    modifies target.upper, target.lower
    ensures target.Val() == AddMod(old(number1.Val()), old(number2.Val()), W256)
  {
    ghost var l1, low := number1.lower.Val(), AddMod(number1.lower.Val(), number2.lower.Val(), W128);
    ghost var high := AddMod(number1.upper.Val(), number2.upper.Val(), W128);
    AddHalves(number1.upper.Val(), number1.lower.Val(), number2.upper.Val(), number2.lower.Val());
    hide U128.Val, U128.Greater, U128.GreaterEq, U128.Equals, U128.IsZero, U256.Val, AddMod, SubMod, Join;
    Halves(number1);
    Halves(number2);
    var tmp := new U128(0, 0);
    Add128(number1.upper, number2.upper, target.upper);
    Add128(number1.lower, number2.lower, tmp);
    if number1.lower.Greater(tmp) {
      var one := new U128(0, 1);
      OneVal(one);
      Add128(target.upper, one, target.upper);
    }
    Add128(number1.lower, number2.lower, target.lower);
    assert target.upper.Val() == if l1 > low then AddMod(high, 1, W128) else high;
    Halves(target);
  }

  method Sub256(number1: U256, number2: U256, target: U256)
    requires target.Valid() && number1.Valid() && number2.Valid()
    requires Apart(target, number1) && Apart(target, number2)
    modifies target.upper, target.lower
    ensures target.Val() == SubMod(old(number1.Val()), old(number2.Val()), W256)
  {
    ghost var l1, low := number1.lower.Val(), SubMod(number1.lower.Val(), number2.lower.Val(), W128);
    ghost var high := SubMod(number1.upper.Val(), number2.upper.Val(), W128);
    SubHalves(number1.upper.Val(), number1.lower.Val(), number2.upper.Val(), number2.lower.Val());
    hide U128.Val, U128.Greater, U128.GreaterEq, U128.Equals, U128.IsZero, U256.Val, AddMod, SubMod, Join;
    Halves(number1);
    Halves(number2);
    var tmp := new U128(0, 0);
    Sub128(number1.upper, number2.upper, target.upper);
    Sub128(number1.lower, number2.lower, tmp);
    if tmp.Greater(number1.lower) {
      var one := new U128(0, 1);
      OneVal(one);
      Sub128(target.upper, one, target.upper);
    }
    Sub128(number1.lower, number2.lower, target.lower);
    assert target.upper.Val() == if low > l1 then SubMod(high, 1, W128) else high;
    Halves(target);
  }

  lemma OneVal(one: U128)
    requires one.hi == 0 && one.lo == 1
    ensures one.Val() == 1
  {
  }

  lemma OrHalves(h1: nat, l1: nat, h2: nat, l2: nat)
    requires h1 < W128 && l1 < W128 && h2 < W128 && l2 < W128
    ensures Join(BitOr(h1, h2), BitOr(l1, l2)) == BitOr(Join(h1, l1), Join(h2, l2))
  {
    var k := 128;
    assert Pow2(k) == W128 by { Pow2Widths(); }
    BitOrLimbs(h1, l1, h2, l2, k);
  }

  method Or256(number1: U256, number2: U256, target: U256)
    requires target.Valid() && number1.Valid() && number2.Valid()
    requires Apart(target, number1) && Apart(target, number2)
    modifies target.upper, target.lower
    ensures target.Val() == BitOr(old(number1.Val()), old(number2.Val()))
  {
    OrHalves(number1.upper.Val(), number1.lower.Val(), number2.upper.Val(), number2.lower.Val());
    hide BitOr, Join, U128.Val, U256.Val;
    Halves(number1);
    Halves(number2);
    Or128(number1.upper, number2.upper, target.upper);
    Or128(number1.lower, number2.lower, target.lower);
    Halves(target);
  }

  /* ---- Division ---- */

  ghost predicate Dividing256(L: nat, R: nat, k: nat, copyd: U256, adder: U256, resDiv: U256, resMod: U256)
    reads copyd.upper, copyd.lower, adder.upper, adder.lower
    reads resDiv.upper, resDiv.lower, resMod.upper, resMod.lower
  {
    && resMod.Val() <= L
    && L == resDiv.Val() * R + resMod.Val()
    && (resMod.Val() >= R ==>
          && copyd.Val() == Shl(R, k)
          && adder.Val() == Pow2(k)
          && Aligned(L, R, k, resDiv.Val(), resMod.Val()))
  }

  /** Four registers that do not overlap. */
  ghost predicate Registers(a: U256, b: U256, c: U256, d: U256) {
    && a.Valid() && b.Valid() && c.Valid() && d.Valid()
    && a != b && a != c && a != d && b != c && b != d && c != d
    && Apart(a, b) && Apart(a, c) && Apart(a, d) && Apart(b, c) && Apart(b, d) && Apart(c, d)
  }

  method DivMod256(l: U256, r: U256, retDiv: U256, retMod: U256)
    requires l.Valid() && r.Valid() && retDiv.Valid() && retMod.Valid()
    requires Apart(l, retDiv) && Apart(l, retMod) && Apart(r, retDiv) && Apart(r, retMod)
    requires retDiv != retMod && Apart(retDiv, retMod)
    requires r.Val() > 0
    modifies retDiv.upper, retDiv.lower, retMod.upper, retMod.lower
    ensures retDiv.Val() == old(l.Val()) / old(r.Val())
    ensures retMod.Val() == old(l.Val()) % old(r.Val())
  {
    hide BitLength, U128.Val, U256.Val;
    ghost var L, R := l.Val(), r.Val();
    var lBits := Bits256(l);
    var rBits := Bits256(r);
    var diffBits: u32 := (lBits as int - rBits) % 0x1_0000_0000;
    if r.Greater(l) {
      Exact(L, R, 0, L);
      Copy256(retMod, l);
      Clear256(retDiv);
    } else {
      var resDiv, resMod := LongDivide256(l, r, diffBits);
      Exact(L, R, resDiv.Val(), resMod.Val());
      Copy256(retDiv, resDiv);
      Copy256(retMod, resMod);
    }
  }

  /** The long division proper, into two fresh registers. */
  method LongDivide256(l: U256, r: U256, diffBits: u32) returns (resDiv: U256, resMod: U256)
    requires l.Valid() && r.Valid() && 0 < r.Val() <= l.Val()
    requires diffBits == (BitLength(l.Val()) - BitLength(r.Val())) % 0x1_0000_0000
    ensures resDiv.Valid() && fresh(resDiv.upper) && fresh(resDiv.lower)
    ensures resMod.Valid() && fresh(resMod.upper) && fresh(resMod.lower)
    ensures l.Val() == resDiv.Val() * r.Val() + resMod.Val() && resMod.Val() < r.Val()
  {
    hide BitLength, Pow2, Shl, Aligned, Left, Right, Join, U128.Val, U256.Val, Dividing256;
    ghost var L, R := l.Val(), r.Val();
    var one := new U256(1);
    resDiv := new U256(0);
    resMod := new U256(0);
    Copy256(resMod, l);
    var copyd := new U256(0);
    var adder := new U256(0);
    ghost var k := Align256(resMod, r, one, diffBits, copyd, adder);
    StartDividing(L, R, k, copyd, adder, resDiv, resMod);
    while resMod.GreaterEq(r)
      invariant r.Val() == R
      invariant Dividing256(L, R, k, copyd, adder, resDiv, resMod)
      decreases k, resMod.Val() >= R
    {
      k := SettleBit256(L, R, k, copyd, adder, resDiv, resMod);
    }
    EndDividing(L, R, k, copyd, adder, resDiv, resMod);
  }

  lemma StartDividing(L: nat, R: nat, k: nat, copyd: U256, adder: U256, resDiv: U256, resMod: U256)
    requires resMod.Val() == L && resDiv.Val() == 0
    requires copyd.Val() == Shl(R, k) && adder.Val() == Pow2(k) && Aligned(L, R, k, 0, L)
    ensures Dividing256(L, R, k, copyd, adder, resDiv, resMod)
  {
  }

  lemma EndDividing(L: nat, R: nat, k: nat, copyd: U256, adder: U256, resDiv: U256, resMod: U256)
    requires Dividing256(L, R, k, copyd, adder, resDiv, resMod)
    ensures L == resDiv.Val() * R + resMod.Val()
  {
  }

  /** The body of the division loop. */
  method SettleBit256(ghost L: nat, ghost R: nat, ghost k: nat,
                      copyd: U256, adder: U256, resDiv: U256, resMod: U256)
      returns (ghost k': nat)
    requires Registers(copyd, adder, resDiv, resMod)
    requires R > 0 && resMod.Val() >= R
    requires Dividing256(L, R, k, copyd, adder, resDiv, resMod)
    modifies copyd.upper, copyd.lower, adder.upper, adder.lower
    modifies resDiv.upper, resDiv.lower, resMod.upper, resMod.lower
    ensures Dividing256(L, R, k', copyd, adder, resDiv, resMod)
    ensures k' < k || (k' == k && resMod.Val() < R)
  {
    hide BitLength, Pow2, Shl, Aligned, Left, Right, BitOr, U128.Val, U256.Val;
    ghost var q, m := resDiv.Val(), resMod.Val();
    DivisionStep(L, R, k, q, m);
    SubtractBit256(R, k, copyd, adder, resDiv, resMod);
    k' := if k > 0 then k - 1 else 0;
    Halve256(R, k, copyd, adder);
  }

  /** The conditional subtraction, with the quotient bit set by OR. */
  method SubtractBit256(ghost R: nat, ghost k: nat,
                        copyd: U256, adder: U256, resDiv: U256, resMod: U256)
    requires Registers(copyd, adder, resDiv, resMod)
    requires copyd.Val() == Shl(R, k) && adder.Val() == Pow2(k)
    requires BitOr(resDiv.Val(), Pow2(k)) == resDiv.Val() + Pow2(k)
    modifies resDiv.upper, resDiv.lower, resMod.upper, resMod.lower
    ensures resMod.Val() == NextMod(R, k, old(resMod.Val()))
    ensures resDiv.Val() == NextDiv(R, k, old(resDiv.Val()), old(resMod.Val()))
  {
    hide Pow2, Shl, BitOr, SubMod, U128.Val, U256.Val;
    ghost var m := resMod.Val();
    if resMod.GreaterEq(copyd) {
      Halves(resMod);
      NoWrap(m, copyd.Val(), W256);
      Sub256(resMod, copyd, resMod);
      Or256(resDiv, adder, resDiv);
    }
  }

  method Halve256(ghost R: nat, ghost k: nat, copyd: U256, adder: U256)
    requires copyd.Valid() && adder.Valid() && copyd != adder && Apart(copyd, adder)
    requires k > 0 ==> copyd.Val() == Shl(R, k) && adder.Val() == Pow2(k)
    modifies copyd.upper, copyd.lower, adder.upper, adder.lower
    ensures k > 0 ==> copyd.Val() == Shl(R, k - 1) && adder.Val() == Pow2(k - 1)
  {
    if k > 0 { HalveAligned(R, k); }
    hide *;
    ShiftR256(copyd, 1, copyd);
    ShiftR256(adder, 1, adder);
  }

  method Align256(resMod: U256, r: U256, one: U256, diffBits: u32, copyd: U256, adder: U256)
      returns (ghost k: nat)
    requires Registers(resMod, one, copyd, adder) && r.Valid()
    requires r != copyd && r != adder && Apart(r, copyd) && Apart(r, adder)
    requires 0 < r.Val() <= resMod.Val() && one.Val() == 1
    requires diffBits == (BitLength(resMod.Val()) - BitLength(r.Val())) % 0x1_0000_0000
    modifies copyd.upper, copyd.lower, adder.upper, adder.lower
    ensures copyd.Val() == Shl(r.Val(), k) && adder.Val() == Pow2(k)
    ensures Aligned(resMod.Val(), r.Val(), k, 0, resMod.Val())
  {
    hide BitLength, Pow2, Shl, Aligned, Left, Right, Join, U128.Val, U256.Val;
    ghost var L, R := resMod.Val(), r.Val();
    k := AlignTop256(resMod, r, one, diffBits, copyd, adder);
    if copyd.Greater(resMod) {
      StepBack(L, R, k);
      Halve256(R, k, copyd, adder);
      k := k - 1;
    }
  }

  method AlignTop256(resMod: U256, r: U256, one: U256, diffBits: u32, copyd: U256, adder: U256)
      returns (ghost k: nat)
    requires Registers(resMod, one, copyd, adder) && r.Valid()
    requires r != copyd && r != adder && Apart(r, copyd) && Apart(r, adder)
    requires 0 < r.Val() <= resMod.Val() && one.Val() == 1
    requires diffBits == (BitLength(resMod.Val()) - BitLength(r.Val())) % 0x1_0000_0000
    modifies copyd.upper, copyd.lower, adder.upper, adder.lower
    ensures copyd.Val() == Shl(r.Val(), k) && adder.Val() == Pow2(k)
    ensures Aligned(resMod.Val(), r.Val(), k, 0, resMod.Val())
    ensures r.Val() == old(r.Val()) && resMod.Val() == old(resMod.Val())
  {
    hide BitLength, Pow2, Shl, Aligned, Left, Right, Join, U128.Val, U256.Val;
    Halves(resMod);
    k := InitialShift256(resMod.Val(), r.Val());
    assert diffBits == k;
    ShiftL256(r, diffBits, copyd);
    ShiftL256(one, diffBits, adder);
  }

  lemma InitialShift256(L: nat, R: nat) returns (k: nat)
    requires 0 < R <= L < W256
    ensures k == BitLength(L) - BitLength(R) < 0x1_0000_0000
    ensures Left(R, k, W256) == Shl(R, k) && Left(1, k, W256) == Pow2(k)
    ensures Aligned(L, R, k, 0, L)
  {
    InitialAlignment(L, R);
    k := BitLength(L) - BitLength(R);
    var width := 256;
    assert Pow2(width) == W256 by { Pow2Widths(); }
    FitsRegister(L, R, k, width);
  }
}
