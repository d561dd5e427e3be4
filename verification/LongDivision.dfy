/** The arithmetic of the shift-and-subtract loop shared by divmod128 and
    divmod256, on plain naturals. */
module LongDivision {
  import opened Powers

  /** After the quotient bits above k are settled: the divisor is aligned at bit
      k, q has no bit at or below k, and the remainder is below twice the
      aligned divisor. */
  ghost predicate Aligned(l: nat, r: nat, k: nat, q: nat, m: nat) {
    && l == q * r + m
    && m < 2 * Shl(r, k)
    && LowClear(q, k + 1)
  }

  /** The remainder and quotient after the conditional subtraction at bit k. */
  function NextMod(r: nat, k: nat, m: nat): nat {
    if m >= Shl(r, k) then m - Shl(r, k) else m
  }

  function NextDiv(r: nat, k: nat, q: nat, m: nat): nat {
    if m >= Shl(r, k) then q + Pow2(k) else q
  }

  /** Aligning the divisor under the dividend's top bit never leaves the
      register, and covers every quotient bit. */
  lemma InitialAlignment(l: nat, r: nat)
    requires 0 < r <= l
    ensures BitLength(l) >= BitLength(r)
    ensures var k := BitLength(l) - BitLength(r);
      Shl(r, k) < Pow2(BitLength(l)) && Aligned(l, r, k, 0, l)
  {
    BitLengthMonotone(r, l);
    BitLengthBounds(l);
    BitLengthBounds(r);
    var bl, br := BitLength(l), BitLength(r);
    var k := bl - br;
    ZeroLowClear(k + 1);
    ShlMonotone(r, Pow2(br), k);
    ShlPow2(br, k);
    ShlAtLeast(Pow2(br - 1), r, k);
    ShlPow2(br - 1, k);
  }

  lemma {:induction false} ShlMonotone(a: nat, b: nat, k: nat)
    requires a < b
    ensures Shl(a, k) < Shl(b, k)
  {
    if k > 0 { ShlMonotone(a, b, k - 1); }
  }

  lemma ShlAtLeast(a: nat, b: nat, k: nat)
    requires a <= b
    ensures Shl(a, k) <= Shl(b, k)
  {
    if a < b { ShlMonotone(a, b, k); }
  }

  lemma {:induction false} ShlPow2(a: nat, k: nat)
    ensures Shl(Pow2(a), k) == Pow2(a + k)
  {
    if k > 0 { ShlPow2(a, k - 1); }
  }

  /** When the aligned divisor exceeds the dividend, one step back still covers
      every quotient bit. */
  lemma StepBack(l: nat, r: nat, k: nat)
    requires 0 < r <= l < Shl(r, k)
    ensures k > 0 && Aligned(l, r, k - 1, 0, l)
  {
    if k > 0 { ZeroLowClear(k); }
  }

  /** One iteration settles bit k. */
  lemma DivisionStep(l: nat, r: nat, k: nat, q: nat, m: nat)
    requires r > 0 && Aligned(l, r, k, q, m)
    ensures BitOr(q, Pow2(k)) == q + Pow2(k)
    ensures l == NextDiv(r, k, q, m) * r + NextMod(r, k, m)
    ensures k == 0 ==> NextMod(r, k, m) < r
    ensures k > 0 ==> Aligned(l, r, k - 1, NextDiv(r, k, q, m), NextMod(r, k, m))
  {
    OrIsAdd(q, k);
    LowClearStep(q, k);
    SubtractOnce(q, k, r);
  }

  lemma SubtractOnce(q: nat, k: nat, r: nat)
    ensures (q + Pow2(k)) * r == q * r + Shl(r, k)
  {
    ShlIsTimes(r, k);
  }

  lemma HalveAligned(r: nat, k: nat)
    requires k > 0
    ensures Right(Shl(r, k), 1) == Shl(r, k - 1)
    ensures Right(Pow2(k), 1) == Pow2(k - 1)
  {
    assert Right(Shl(r, k), 1) == Right(Shl(r, k), 0) / 2;
    assert Right(Pow2(k), 1) == Right(Pow2(k), 0) / 2;
  }

  lemma Exact(l: nat, r: nat, q: nat, m: nat)
    requires r > 0 && l == q * r + m && m < r
    ensures q == l / r && m == l % r
  {
    DivUnique(l, r, q, m);
  }

  /** A shift that stays below the register size loses nothing. */
  lemma {:induction false} LeftFits(n: nat, k: nat, w: nat)
    requires w > 0 && Shl(n, k) < w
    ensures Left(n, k, w) == Shl(n, k)
  {
    if k > 0 {
      LeftFits(n, k - 1, w);
    }
    DivUnique(Shl(n, k), w, 0, Shl(n, k));
  }

  /** The aligned divisor and the quotient bit fit a register of w values. */
  lemma FitsRegister(L: nat, R: nat, k: nat, width: nat)
    requires 0 < R <= L < Pow2(width) && k == BitLength(L) - BitLength(R)
    requires Shl(R, k) < Pow2(BitLength(L))
    ensures k <= width
    ensures Left(R, k, Pow2(width)) == Shl(R, k)
    ensures Left(1, k, Pow2(width)) == Pow2(k)
  {
    BitLengthBelow(L, width);
    Pow2Monotone(BitLength(L), width);
    LeftFits(R, k, Pow2(width));
    ShlAtLeast(1, R, k);
    ShlPow2(0, k);
    LeftFits(1, k, Pow2(width));
  }
}
