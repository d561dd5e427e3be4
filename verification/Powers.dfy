/** Powers of two, bit lengths, bitwise OR and the limb-splitting facts that
    both layers of the wide integers rest on. */
module Powers {

  type u8 = x: int | 0 <= x < 0x100
  type u16 = x: int | 0 <= x < 0x1_0000
  type u32 = x: int | 0 <= x < 0x1_0000_0000
  type u64 = x: int | 0 <= x < W64

  const W64: int := 0x1_0000_0000_0000_0000
  const W128: int := 0x1_0000_0000_0000_0000_0000_0000_0000_0000
  const W256: int := W128 * W128

  function Pow2(n: nat): (p: nat)
    ensures p > 0
  {
    if n == 0 then 1 else 2 * Pow2(n - 1)
  }

  lemma {:induction false} Pow2Add(a: nat, b: nat)
    ensures Pow2(a + b) == Pow2(a) * Pow2(b)
  {
    if a == 0 {
    } else {
      Pow2Add(a - 1, b);
      assert Pow2(a + b) == 2 * (Pow2(a - 1) * Pow2(b));
    }
  }

  lemma {:induction false} Pow2Monotone(a: nat, b: nat)
    requires a <= b
    ensures Pow2(a) <= Pow2(b)
  {
    if a < b {
      Pow2Monotone(a, b - 1);
    }
  }

  lemma Pow2Reflects(a: nat, b: nat)
    requires Pow2(a) < Pow2(b)
    ensures a < b
  {
    if b <= a { Pow2Monotone(b, a); }
  }

  lemma Pow2Square(n: nat, w: nat)
    requires Pow2(n) == w
    ensures Pow2(2 * n) == w * w
  {
    Pow2Add(n, n);
  }

  lemma Pow2Widths()
    ensures Pow2(64) == W64 && Pow2(128) == W128 && Pow2(256) == W256
  {
    Pow2Square(1, 2);
    Pow2Square(2, 4);
    Pow2Square(4, 16);
    Pow2Square(8, 0x100);
    Pow2Square(16, 0x1_0000);
    Pow2Square(32, 0x1_0000_0000);
    Pow2Square(64, W64);
    Pow2Square(128, W128);
  }

  /* ---- Division helpers ---- */

  lemma DivUnique(n: int, d: int, q: int, m: int)
    requires d > 0 && n == q * d + m && 0 <= m < d
    ensures n / d == q && n % d == m
  {
    var q', m' := n / d, n % d;
    assert (q - q') * d == m' - m;
    if q > q' {
      MulAtLeast(q - q', d);
    } else if q < q' {
      MulAtLeast(q' - q, d);
    }
  }

  lemma MulAtLeast(k: int, d: int)
    requires k >= 1 && d > 0
    ensures k * d >= d
  {
  }

  lemma MulMono(a: int, b: int, c: int)
    requires a <= b && c >= 0
    ensures a * c <= b * c
  {
  }

  lemma ProductRange(q: int, m: int, Q: int, P: int)
    requires 0 <= q < Q && 0 <= m < P
    ensures 0 <= q * P + m < Q * P
  {
    MulMono(q, Q - 1, P);
    assert (Q - 1) * P == Q * P - P;
    MulMono(0, q, P);
  }

  lemma QuotientBelow(n: int, d: int, k: int)
    requires d > 0 && 0 <= n < k * d
    ensures 0 <= n / d < k
  {
    var c := n / d;
    assert c * d <= n;
    if c >= k { MulMono(k, c, d); }
  }

  /** Multiplying by P inside a limb of base P * Q keeps the low digit of x to
      base Q and pushes the rest out. */
  lemma ShiftOutMod(x: int, P: int, Q: int)
    requires P > 0 && Q > 0 && x >= 0
    ensures (x * P) % (P * Q) == (x % Q) * P
    ensures (x * P) / (P * Q) == x / Q
  {
    var h, r := x / Q, x % Q;
    assert x == h * Q + r;
    assert x * P == h * (P * Q) + r * P by {
      assert x * P == (h * Q) * P + r * P;
      assert (h * Q) * P == h * (P * Q);
    }
    ProductRange(r, 0, Q, P);
    assert P * Q > 0 by { MulAtLeast(P, Q); }
    assert Q * P == P * Q;
    DivUnique(x * P, P * Q, h, r * P);
  }

  /** Recombining the pieces of a left shift: x = (a, b) carries into the high
      limb, y = (c, d) into the low one. */
  lemma CarryLimbs(hiP: int, loP: int, a: int, b: int, c: int, d: int, B: int)
    requires B > 0 && hiP == a * B + b && loP == c * B + d
    requires 0 <= b && 0 <= c && b + c < B && 0 <= d < B
    ensures (b + c) * B + d == (hiP * B + loP) % (B * B)
  {
    ProductRange(b + c, d, B, B);
    MulAtLeast(B, B);
    assert hiP * B + loP == a * (B * B) + ((b + c) * B + d);
    DivUnique(hiP * B + loP, B * B, a, (b + c) * B + d);
  }

  lemma CarryFits(hi: int, lo: int, P: int, Q: int, B: int)
    requires P > 0 && Q > 0 && B == P * Q && 0 <= hi < B && 0 <= lo < B
    ensures B > 0 && 0 <= (hi * P) % B && 0 <= lo / Q && (hi * P) % B + lo / Q < B
  {
    ShiftOutMod(hi, P, Q);
    QuotientBelow(lo, Q, P);
    ProductRange(hi % Q, lo / Q, Q, P);
    MulAtLeast(P, Q);
  }

  lemma Distribute(hi: int, B: int, lo: int, P: int)
    ensures (hi * B + lo) * P == (hi * P) * B + lo * P
  {
    assert (hi * B) * P == (hi * P) * B;
  }

  /** Left shift across two limbs of base B = P * Q. */
  lemma ShiftLeftLimbs(hi: int, lo: int, P: int, Q: int, B: int)
    requires P > 0 && Q > 0 && B == P * Q && 0 <= hi < B && 0 <= lo < B
    ensures B > 0 && B * B > 0
    ensures 0 <= (hi * P) % B + lo / Q < B
    ensures ((hi * P) % B + lo / Q) * B + (lo * P) % B == ((hi * B + lo) * P) % (B * B)
  {
    CarryFits(hi, lo, P, Q, B);
    assert (lo * P) / B == lo / Q by { ShiftOutMod(lo, P, Q); }
    var hiP, loP := hi * P, lo * P;
    CarryLimbs(hiP, loP, hiP / B, hiP % B, loP / B, loP % B, B);
    Distribute(hi, B, lo, P);
    MulAtLeast(B, B);
  }

  /** k one-bit left shifts in a register that holds w values. */
  function Left(n: nat, k: nat, w: nat): (r: nat)
    requires w > 0
    ensures r < w
  {
    if k == 0 then n % w else (2 * Left(n, k - 1, w)) % w
  }

  lemma {:induction false} LeftIsTimesPow2(n: nat, k: nat, w: nat)
    requires w > 0
    ensures Left(n, k, w) == (n * Pow2(k)) % w
  {
    if k > 0 {
      LeftIsTimesPow2(n, k - 1, w);
      TwiceProduct(n, Pow2(k - 1));
      DoubleMod(n * Pow2(k - 1), w);
    } else {
      TimesOne(n);
    }
  }

  lemma DoubleMod(y: nat, w: nat)
    requires w > 0
    ensures (2 * (y % w)) % w == (2 * y) % w
  {
    var q, m := y / w, y % w;
    var q2, m2 := (2 * m) / w, (2 * m) % w;
    assert 2 * y == (2 * q + q2) * w + m2 by {
      assert (2 * q + q2) * w == 2 * (q * w) + q2 * w;
    }
    DivUnique(2 * y, w, 2 * q + q2, m2);
  }

  lemma TimesOne(a: int)
    ensures a * 1 == a
  {
  }

  lemma TwiceProduct(a: int, p: int)
    ensures a * (2 * p) == 2 * (a * p)
  {
  }

  /** k one-bit right shifts. */
  function Right(n: nat, k: nat): (r: nat)
    ensures r <= n
  {
    if k == 0 then n else Right(n, k - 1) / 2
  }

  lemma {:induction false} RightIsDivPow2(n: nat, k: nat)
    ensures Right(n, k) == n / Pow2(k)
  {
    if k > 0 {
      RightIsDivPow2(n, k - 1);
      DivDiv(n, Pow2(k - 1), 2);
    }
  }

  /** A left shift by a whole limb and then P: only the low limb survives. */
  lemma WholeLimbShift(h: int, l: int, P: int, B: int)
    requires B > 0
    ensures B * B > 0
    ensures ((l * P) % B) * B == ((h * B + l) * (P * B)) % (B * B)
  {
    var x, q, m := l * P, (l * P) / B, (l * P) % B;
    ProductRange(m, 0, B, B);
    MulAtLeast(B, B);
    assert (h * B + l) * (P * B) == (h * P + q) * (B * B) + m * B by {
      Distribute(h, B, l, P * B);
      assert (h * (P * B)) * B == (h * P) * (B * B);
      assert l * (P * B) == x * B;
      assert x * B == q * (B * B) + m * B;
    }
    DivUnique((h * B + l) * (P * B), B * B, h * P + q, m * B);
  }

  /** Right shift across two limbs of base B = P * Q. */
  lemma ShiftRightLimbs(hi: int, lo: int, P: int, Q: int, B: int)
    requires P > 0 && Q > 0 && B == P * Q && 0 <= hi < B && 0 <= lo < B
    ensures 0 <= (hi * Q) % B + lo / P < B
    ensures (hi / P) * B + ((hi * Q) % B + lo / P) == (hi * B + lo) / P
  {
    ShiftOutMod(hi, Q, P);
    assert Q * P == B;
    var h, r := hi / P, hi % P;
    var c, d := lo / P, lo % P;
    assert (hi * Q) % B == r * Q;
    QuotientBelow(lo, P, Q);
    ProductRange(r, c, P, Q);
    DigitsShiftRight(h, r, c, d, P, Q);
    DivUnique(hi * B + lo, P, h * B + (r * Q + c), d);
  }

  lemma DigitsShiftRight(h: int, r: int, c: int, d: int, P: int, Q: int)
    ensures (h * P + r) * (P * Q) + (c * P + d) == (h * (P * Q) + (r * Q + c)) * P + d
  {
    var B := P * Q;
    assert (h * P + r) * B == (h * P) * B + r * B;
    assert (h * P) * B == (h * B) * P by { MulSwap(h, P, B); }
    assert r * B == (r * Q) * P by { MulSwap(r, P, Q); }
    assert (h * B + (r * Q + c)) * P == (h * B) * P + (r * Q + c) * P;
    assert (r * Q + c) * P == (r * Q) * P + c * P;
  }

  lemma MulSwap(a: int, b: int, c: int)
    ensures (a * b) * c == (a * c) * b && a * (b * c) == (a * c) * b
  {
  }

  /** Division by a power of two composes. */
  lemma DivDiv(n: int, a: int, b: int)
    requires n >= 0 && a > 0 && b > 0
    ensures a * b > 0 && n / (a * b) == (n / a) / b
  {
    MulAtLeast(a, b);
    var q, r := n / a, n % a;
    var q2, r2 := q / b, q % b;
    assert n == q2 * (a * b) + (r2 * a + r) by {
      assert q * a == (q2 * b + r2) * a;
      assert (q2 * b + r2) * a == q2 * (a * b) + r2 * a;
    }
    ProductRange(r2, r, b, a);
    assert b * a == a * b;
    DivUnique(n, a * b, q2, r2 * a + r);
  }

  /** Dropping the low limb of a two-limb number. */
  lemma DropLowLimb(hi: int, lo: int, B: int)
    requires B > 0 && 0 <= lo < B
    ensures (hi * B + lo) / B == hi && (hi * B + lo) % B == lo
  {
    DivUnique(hi * B + lo, B, hi, lo);
  }

  /* ---- Wrap-around sums ---- */

  /** Addition and subtraction in a register that holds w values. */
  function AddMod(a: nat, b: nat, w: nat): (r: nat)
    requires w > 0
    ensures r < w
  {
    (a + b) % w
  }

  function SubMod(a: nat, b: nat, w: nat): (r: nat)
    requires w > 0
    ensures r < w
  {
    (a - b) % w
  }

  lemma NoWrap(a: nat, b: nat, w: nat)
    requires w > 0
    ensures a + b < w ==> AddMod(a, b, w) == a + b
    ensures b <= a < w ==> SubMod(a, b, w) == a - b
  {
    if a + b < w { DivUnique(a + b, w, 0, a + b); }
    if b <= a < w { DivUnique(a - b, w, 0, a - b); }
  }

  /* ---- Bit length ---- */

  function BitLength(n: nat): (b: nat)
  {
    if n == 0 then 0 else 1 + BitLength(n / 2)
  }

  lemma {:induction false} BitLengthBounds(n: nat)
    ensures n < Pow2(BitLength(n))
    ensures n > 0 ==> BitLength(n) > 0 && Pow2(BitLength(n) - 1) <= n
  {
    if n > 1 {
      BitLengthBounds(n / 2);
    } else if n == 1 {
      assert BitLength(1) == 1;
    }
  }

  lemma BitLengthUnique(n: nat, b: nat)
    requires b > 0 && Pow2(b - 1) <= n < Pow2(b)
    ensures BitLength(n) == b
  {
    BitLengthBounds(n);
    Pow2Reflects(BitLength(n) - 1, b);
    Pow2Reflects(b - 1, BitLength(n));
  }

  lemma BitLengthMonotone(m: nat, n: nat)
    requires m <= n
    ensures BitLength(m) <= BitLength(n)
  {
    BitLengthBounds(m);
    BitLengthBounds(n);
    if m > 0 {
      Pow2Reflects(BitLength(m) - 1, BitLength(n));
    }
  }

  /** The bit length of a number with a non-zero high limb. */
  lemma BitLengthHigh(hi: nat, lo: nat, k: nat)
    requires hi > 0 && lo < Pow2(k)
    ensures BitLength(hi * Pow2(k) + lo) == k + BitLength(hi)
  {
    var b := BitLength(hi);
    BitLengthBounds(hi);
    Pow2Add(b - 1, k);
    Pow2Add(b, k);
    MulMono(Pow2(b - 1), hi, Pow2(k));
    ProductRange(hi, lo, Pow2(b), Pow2(k));
    BitLengthUnique(hi * Pow2(k) + lo, b + k);
  }

  lemma BitLengthBelow(n: nat, k: nat)
    requires n < Pow2(k)
    ensures BitLength(n) <= k
  {
    BitLengthBounds(n);
    if n > 0 {
      Pow2Reflects(BitLength(n) - 1, k);
    }
  }

  /* ---- Bitwise OR ---- */

  function BitOr(x: nat, y: nat): (r: nat)
    decreases x + y
  {
    if x == 0 && y == 0 then 0
    else 2 * BitOr(x / 2, y / 2) + (if x % 2 == 1 || y % 2 == 1 then 1 else 0)
  }

  lemma {:induction false} BitOrBound(x: nat, y: nat, k: nat)
    requires x < Pow2(k) && y < Pow2(k)
    ensures BitOr(x, y) < Pow2(k)
  {
    if k > 0 {
      BitOrBound(x / 2, y / 2, k - 1);
    }
  }

  lemma {:induction false} BitOrZero(x: nat)
    ensures BitOr(x, 0) == x
    ensures BitOr(0, x) == x
  {
    if x > 0 {
      BitOrZero(x / 2);
    }
  }

  /** a shifted left by k, by repeated doubling. */
  function Shl(a: nat, k: nat): (r: nat)
    ensures r >= a
  {
    if k == 0 then a else 2 * Shl(a, k - 1)
  }

  lemma {:induction false} ShlIsTimes(a: nat, k: nat)
    ensures Shl(a, k) == a * Pow2(k)
  {
    if k > 0 {
      ShlIsTimes(a, k - 1);
      TwiceProduct(a, Pow2(k - 1));
    } else {
      TimesOne(a);
    }
  }

  lemma {:induction false} OrOfShifted(a: nat, b: nat, c: nat, d: nat, k: nat)
    requires b < Pow2(k) && d < Pow2(k)
    ensures BitOr(Shl(a, k) + b, Shl(c, k) + d) == Shl(BitOr(a, c), k) + BitOr(b, d)
    decreases k
  {
    if k > 0 {
      OrOfShifted(a, b / 2, c, d / 2, k - 1);
      BitOrStep(Shl(a, k - 1), b, Shl(c, k - 1), d, Shl(BitOr(a, c), k - 1));
    }
  }

  lemma BitOrStep(aP: nat, b: nat, cP: nat, d: nat, eP: nat)
    requires BitOr(aP + b / 2, cP + d / 2) == eP + BitOr(b / 2, d / 2)
    ensures BitOr(2 * aP + b, 2 * cP + d) == 2 * eP + BitOr(b, d)
  {
    BitOrHalves(2 * aP + b, 2 * cP + d);
    BitOrHalves(b, d);
    assert (2 * aP + b) / 2 == aP + b / 2 && (2 * cP + d) / 2 == cP + d / 2;
  }

  /** OR works limb by limb. */
  lemma BitOrLimbs(a: nat, b: nat, c: nat, d: nat, k: nat)
    requires b < Pow2(k) && d < Pow2(k)
    ensures BitOr(a * Pow2(k) + b, c * Pow2(k) + d) == BitOr(a, c) * Pow2(k) + BitOr(b, d)
  {
    OrOfShifted(a, b, c, d, k);
    ShlIsTimes(a, k);
    ShlIsTimes(c, k);
    ShlIsTimes(BitOr(a, c), k);
  }

  lemma BitOrHalves(x: nat, y: nat)
    ensures BitOr(x, y) == 2 * BitOr(x / 2, y / 2) + (if x % 2 == 1 || y % 2 == 1 then 1 else 0)
  {
  }

  /** The k low bits of x are clear. */
  predicate LowClear(x: nat, k: nat) {
    k == 0 || (x % 2 == 0 && LowClear(x / 2, k - 1))
  }

  lemma {:induction false} LowClearStep(x: nat, k: nat)
    requires LowClear(x, k + 1)
    ensures LowClear(x, k) && LowClear(x + Pow2(k), k)
  {
    if k > 0 {
      LowClearStep(x / 2, k - 1);
      assert (x + Pow2(k)) / 2 == x / 2 + Pow2(k - 1);
    }
  }

  /** "OR acts as ADD": setting a bit at and below which x is clear. */
  lemma {:induction false} OrIsAdd(x: nat, k: nat)
    requires LowClear(x, k + 1)
    ensures BitOr(x, Pow2(k)) == x + Pow2(k)
  {
    BitOrHalves(x, Pow2(k));
    if k > 0 {
      OrIsAdd(x / 2, k - 1);
    } else {
      BitOrZero(x / 2);
    }
  }

  lemma {:induction false} ZeroLowClear(k: nat)
    ensures LowClear(0, k)
  {
    if k > 0 { ZeroLowClear(k - 1); }
  }
}
