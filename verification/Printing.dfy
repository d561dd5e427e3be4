/** tostring128, tostring256, their signed forms and reverseString: numbers
    written into a bounded character buffer.  The buffer is the region of outLength characters
    of an array that begins at a given position, as a C pointer into an array. */
module Printing {
  import opened Powers
  import opened Numerals
  import opened UInt128
  import opened UInt256

  function Rev(s: string): (r: string)
    ensures |r| == |s|
  {
    if s == [] then [] else [s[|s| - 1]] + Rev(s[..|s| - 1])
  }

  lemma {:induction false} RevAt(s: string, i: nat)
    requires i < |s|
    ensures Rev(s)[i] == s[|s| - 1 - i]
  {
    if i > 0 { RevAt(s[..|s| - 1], i - 1); }
  }

  lemma RevAppend(s: string, c: char)
    ensures Rev(s + [c]) == [c] + Rev(s)
  {
    assert (s + [c])[..|s|] == s;
  }

  /** A buffer with its region [start, start + |t|) replaced by t. */
  function Splice(before: string, start: nat, t: string): (r: string)
    requires start + |t| <= |before|
    ensures |r| == |before|
  {
    before[..start] + t + before[start + |t|..]
  }

  function Reversed(before: string, start: nat, length: nat): (r: string)
    requires start + length <= |before|
    ensures |r| == |before|
  {
    Splice(before, start, Rev(before[start..start + length]))
  }

  lemma ReversedAt(before: string, start: nat, length: nat, p: nat)
    requires start + length <= |before| && start <= p < start + length
    ensures Reversed(before, start, length)[p] == before[2 * start + length - 1 - p]
  {
    RevAt(before[start..start + length], p - start);
  }

  method ReverseString(str: array<char>, start: nat, length: nat)
    requires start + length <= str.Length
    modifies str
    ensures str[..] == Reversed(old(str[..]), start, length)
  {
    hide Rev;
    ghost var before := str[..];
    ghost var goal := Reversed(before, start, length);
    var i, j := start, start + length - 1;
    if length >= 2 {
      while i < j
        invariant start <= i <= j + 1 && i + j == 2 * start + length - 1
        invariant forall p :: 0 <= p < i || j < p < str.Length ==> str[p] == goal[p]
        invariant forall p :: i <= p <= j ==> str[p] == before[p]
      {
        ReversedAt(before, start, length, i);
        ReversedAt(before, start, length, j);
        var c := str[i];
        str[i] := str[j];
        str[j] := c;
        i, j := i + 1, j - 1;
      }
    }
    if i == j { ReversedAt(before, start, length, i); }
  }

  /** The digits written so far, least significant first, complete the numeral of
      what is left to print into the numeral of n. */
  ghost predicate Printed(n: nat, base: nat, left: nat, written: string)
    requires 2 <= base <= 16
  {
    Numeral(n, base) == (if left == 0 && written != [] then [] else Numeral(left, base)) + Rev(written)
  }

  /** One more digit. */
  lemma PrintDigit(n: nat, base: nat, left: nat, written: string)
    requires 2 <= base <= 16 && Printed(n, base, left, written)
    requires left > 0 || written == []
    ensures Printed(n, base, left / base, written + [HEX_DIGITS[left % base]])
  {
    RevAppend(written, HEX_DIGITS[left % base]);
    if left < base {
      DivUnique(left, base, 0, left);
    } else {
      QuotientPositive(left, base);
    }
  }

  /** Bounded text output: success exactly when the text and its terminator fit,
      and then that is what the buffer holds; whatever the outcome, nothing
      outside the region of outLength characters changes. */
  ghost predicate TextInto(text: string, before: string, now: string, start: nat, outLength: u32, ok: bool)
    requires start + outLength <= |before|
  {
    && |now| == |before|
    && ok == (|text| + 1 <= outLength)
    && (ok ==> now[start..start + |text| + 1] == text + ['\0'])
    && now[..start] == before[..start]
    && now[start + outLength..] == before[start + outLength..]
  }

  /** The outcome both widths must reach. */
  ghost predicate PrintedInto(n: nat, base: u32, before: string, now: string, start: nat, outLength: u32, ok: bool)
    requires start + outLength <= |before|
  {
    if 2 <= base <= 16 then TextInto(Numeral(n, base), before, now, start, outLength, ok)
    else !ok && now == before
  }

  /** Two printers that reach this outcome agree on success and on the text,
      whatever their width and their buffers held before; and the text is the
      canonical numeral of the value. */
  lemma PrintersAgree(n: nat, base: u32, outLength: u32,
                      before1: string, now1: string, start1: nat, ok1: bool,
                      before2: string, now2: string, start2: nat, ok2: bool) returns (d: nat)
    requires start1 + outLength <= |before1| && start2 + outLength <= |before2|
    requires PrintedInto(n, base, before1, now1, start1, outLength, ok1)
    requires PrintedInto(n, base, before2, now2, start2, outLength, ok2)
    ensures ok1 == ok2
    ensures ok1 ==>
      && 0 < d < outLength && start1 + d < |now1| && start2 + d < |now2|
      && Parse(now1[start1..start1 + d], base) == Some(n) && Canonical(now1[start1..start1 + d])
      && now1[start1..start1 + d] == now2[start2..start2 + d]
      && now1[start1 + d] == now2[start2 + d] == '\0'
  {
    hide Numeral, Parse;
    d := 0;
    if ok1 {
      d := |Numeral(n, base)|;
      ParseNumeral(n, base);
      NumeralCanonical(n, base);
      TextHeld(Numeral(n, base), now1, start1);
      TextHeld(Numeral(n, base), now2, start2);
    }
  }

  lemma TextHeld(text: string, now: string, start: nat)
    requires start + |text| < |now| && now[start..start + |text| + 1] == text + ['\0']
    ensures now[start..start + |text|] == text && now[start + |text|] == '\0'
  {
    var d := |text|;
    assert now[start..start + d] == now[start..start + d + 1][..d];
    assert now[start + d] == now[start..start + d + 1][d];
  }

  /** The cast (uint8_t) LOWER(LOWER(x)). */
  function LowByte256(x: U256): (b: u8)
    reads x.upper, x.lower
    ensures x.Val() < 0x100 ==> b == x.Val()
  {
    x.lower.lo % 0x100
  }

  function LowByte128(x: U128): (b: u8)
    reads x
    ensures x.Val() < 0x100 ==> b == x.Val()
  {
    x.lo % 0x100
  }

  /** One turn of the printing loop: divide in place, store the remainder digit. */
  method EmitDigit256(ghost n: nat, rDiv: U256, base: U256, rMod: U256, out: array<char>, start: nat, offset: nat)
    requires Distinct3(rDiv, base, rMod)
    requires 2 <= base.Val() <= 16 && start + offset < out.Length
    requires rDiv.Val() > 0 || offset == 0
    requires Printed(n, base.Val(), rDiv.Val(), out[start..start + offset])
    modifies rDiv.upper, rDiv.lower, rMod.upper, rMod.lower, out
    ensures base.Val() == old(base.Val())
    ensures Printed(n, base.Val(), rDiv.Val(), out[start..start + offset + 1])
    ensures out[..] == old(out[..])[start + offset := out[start + offset]]
  {
    hide Printed, U256.Val, U128.Val, Numeral;
    ghost var left, b, written := rDiv.Val(), base.Val(), out[start..start + offset];
    PrintDigit(n, b, left, written);
    DivMod256(rDiv, base, rDiv, rMod);
    var digit := LowByte256(rMod);
    assert digit == left % b;
    out[start + offset] := HEX_DIGITS[digit];
    assert out[start..start + offset + 1] == written + [HEX_DIGITS[digit]];
  }

  ghost predicate Distinct3(a: U256, b: U256, c: U256) {
    && a.Valid() && b.Valid() && c.Valid()
    && a != b && a != c && b != c
    && Apart(a, b) && Apart(a, c) && Apart(b, c)
  }

  /** What tostring256 leaves in a buffer that is too small. */
  method Truncated(out: array<char>, start: nat, outLength: u32)
    requires 0 < outLength && start + outLength <= out.Length
    modifies out
    ensures outLength > 3 ==> out[start..start + 4] == "...\0"
    ensures outLength <= 3 ==> out[start] == '\0'
    ensures out[..start] == old(out[..start])
    ensures out[start + outLength..] == old(out[start + outLength..])
  {
    if outLength > 3 {
      out[start], out[start + 1], out[start + 2], out[start + 3] := '.', '.', '.', '\0';
    } else {
      out[start] := '\0';
    }
  }

  /** The end of both printers: terminate the digits and reverse them in place. */
  method Terminate(ghost n: nat, base: u32, out: array<char>, start: nat, offset: nat, outLength: u32)
    requires 2 <= base <= 16 && 0 < offset < outLength && start + outLength <= out.Length
    requires Printed(n, base, 0, out[start..start + offset])
    modifies out
    ensures PrintedInto(n, base, old(out[..]), out[..], start, outLength, true)
  {
    hide Numeral, Rev;
    ghost var before, digits := out[..], out[start..start + offset];
    out[start + offset] := '\0';
    ReverseString(out, start, offset);
    assert out[start..start + offset] == Rev(digits);
    assert out[start..start + offset + 1] == Numeral(n, base) + ['\0'];
    assert out[..start] == before[..start];
    assert out[start + outLength..] == before[start + outLength..];
  }

  method ToString256(number: U256, baseParam: u32, out: array<char>, start: nat, outLength: u32)
      returns (ok: bool)
    requires number.Valid() && start + outLength <= out.Length
    modifies out
    ensures PrintedInto(number.Val(), baseParam, old(out[..]), out[..], start, outLength, ok)
    ensures !ok && 2 <= baseParam <= 16 && outLength > 3 ==> out[start..start + 4] == "...\0"
    ensures !ok && 2 <= baseParam <= 16 && 0 < outLength <= 3 ==> out[start] == '\0'
  {
    hide Numeral, Rev, U256.Val, U128.Val;
    ghost var n, before := number.Val(), out[..];
    var rDiv := new U256(0);
    var rMod := new U256(0);
    Copy256(rDiv, number);
    if outLength == 0 || baseParam < 2 || baseParam > 16 {
      return false;
    }
    var base := new U256(baseParam);
    var offset := 0;
    var more := true;
    while more
      invariant base.Val() == baseParam
      invariant 0 <= offset <= outLength && (more ==> offset < outLength)
      invariant Printed(n, baseParam, rDiv.Val(), out[start..start + offset])
      invariant more ==> rDiv.Val() > 0 || offset == 0
      invariant !more ==> offset > 0 && (rDiv.Val() == 0 || offset == outLength)
      invariant out[..start] == before[..start]
      invariant out[start + outLength..] == before[start + outLength..]
      decreases outLength - offset, more
    {
      EmitDigit256(n, rDiv, base, rMod, out, start, offset);
      offset := offset + 1;
      more := !rDiv.IsZero() && offset < outLength;
    }
    if offset == outLength {
      Truncated(out, start, outLength);
      return false;
    }
    Terminate(n, baseParam, out, start, offset, outLength);
    return true;
  }

  method EmitDigit128(ghost n: nat, rDiv: U128, base: U128, rMod: U128, out: array<char>, start: nat, offset: nat)
    requires rDiv != base && rDiv != rMod && base != rMod
    requires 2 <= base.Val() <= 16 && start + offset < out.Length
    requires rDiv.Val() > 0 || offset == 0
    requires Printed(n, base.Val(), rDiv.Val(), out[start..start + offset])
    modifies rDiv, rMod, out
    ensures base.Val() == old(base.Val())
    ensures Printed(n, base.Val(), rDiv.Val(), out[start..start + offset + 1])
    ensures out[..] == old(out[..])[start + offset := out[start + offset]]
  {
    hide Printed, U128.Val, Numeral;
    ghost var left, b, written := rDiv.Val(), base.Val(), out[start..start + offset];
    PrintDigit(n, b, left, written);
    DivMod128(rDiv, base, rDiv, rMod);
    var digit := LowByte128(rMod);
    assert digit == left % b;
    out[start + offset] := HEX_DIGITS[digit];
    assert out[start..start + offset + 1] == written + [HEX_DIGITS[digit]];
  }

  method ToString128(number: U128, baseParam: u32, out: array<char>, start: nat, outLength: u32)
      returns (ok: bool)
    requires start + outLength <= out.Length
    modifies out
    ensures PrintedInto(number.Val(), baseParam, old(out[..]), out[..], start, outLength, ok)
  {
    hide Numeral, Rev, U128.Val;
    ghost var n, before := number.Val(), out[..];
    var rDiv := new U128(0, 0);
    Copy128(rDiv, number);
    var rMod := new U128(0, 0);
    if outLength == 0 || baseParam < 2 || baseParam > 16 {
      return false;
    }
    var base := new U128(0, baseParam);
    assert base.Val() == baseParam by { SmallVal(base); }
    var offset := 0;
    var more := true;
    while more
      invariant base.Val() == baseParam
      invariant 0 <= offset <= outLength
      invariant Printed(n, baseParam, rDiv.Val(), out[start..start + offset])
      invariant more ==> rDiv.Val() > 0 || offset == 0
      invariant !more ==> offset > 0 && rDiv.Val() == 0
      invariant out[..start] == before[..start]
      invariant out[start + outLength..] == before[start + outLength..]
      decreases outLength - offset, more
    {
      if offset > outLength - 1 {
        return false;
      }
      EmitDigit128(n, rDiv, base, rMod, out, start, offset);
      offset := offset + 1;
      more := !rDiv.IsZero();
    }
    if offset > outLength - 1 {
      return false;
    }
    Terminate(n, baseParam, out, start, offset, outLength);
    return true;
  }

  lemma SmallVal(x: U128)
    requires x.hi == 0
    ensures x.Val() == x.lo
  {
  }

  /* ---- Signed printing ---- */

  /** The two's-complement reading of n in a register of w values. */
  function Signed(n: nat, w: nat): int {
    if 2 * n >= w then n - w else n
  }

  lemma NegativeText(n: nat, w: nat)
    requires n < w <= 2 * n
    ensures Signed(n, w) < 0
    ensures Decimal(Signed(n, w)) == "-" + Numeral(w - n, 10)
  {
  }

  lemma MinusPrefix(text: string, before: string, mid: string, now: string, start: nat, outLength: u32, ok: bool)
    requires outLength >= 2 && start + outLength <= |before|
    requires |mid| == |before| && mid == before[start := '-']
    requires TextInto(text, mid, now, start + 1, outLength - 1, ok)
    ensures TextInto("-" + text, before, now, start, outLength, ok)
  {
    assert now[..start] == now[..start + 1][..start] == mid[..start];
    if ok {
      assert now[start] == now[..start + 1][start] == '-';
      assert now[start..start + |text| + 2] == [now[start]] + now[start + 1..start + |text| + 2];
    }
  }

  lemma AllOnes(x: U256)
    requires x.upper.hi == x.upper.lo == x.lower.hi == x.lower.lo == W64 - 1
    ensures x.Val() == W256 - 1
  {
    assert x.upper.Val() == W128 - 1 && x.lower.Val() == W128 - 1;
  }

  lemma HalfOf(w: nat)
    requires w > 0 && w % 2 == 0
    ensures (w - 1) / 2 == w / 2 - 1
  {
  }

  /** max_unsigned_val and max_signed_val: 2^256 - 1 and its half. */
  method Bounds256() returns (maxUnsigned: U256, maxSigned: U256)
    ensures maxUnsigned.Valid() && fresh(maxUnsigned.upper) && fresh(maxUnsigned.lower)
    ensures maxSigned.Valid() && fresh(maxSigned.upper) && fresh(maxSigned.lower)
    ensures maxUnsigned.Val() == W256 - 1 && maxSigned.Val() == W256 / 2 - 1
  {
    hide U256.Val, U128.Val;
    maxUnsigned := new U256(0);
    maxUnsigned.upper.hi, maxUnsigned.upper.lo := W64 - 1, W64 - 1;
    maxUnsigned.lower.hi, maxUnsigned.lower.lo := W64 - 1, W64 - 1;
    AllOnes(maxUnsigned);
    maxSigned := new U256(0);
    var tmp := new U256(0);
    var two := new U256(2);
    HalfOf(W256);
    DivMod256(maxUnsigned, two, maxSigned, tmp);
  }

  /** The magnitude of a negative number: 2^256 - 1 - n + 1. */
  method Magnitude256(maxUnsigned: U256, number: U256) returns (tmp: U256)
    requires maxUnsigned.Valid() && number.Valid() && maxUnsigned.Val() == W256 - 1
    requires 0 < number.Val()
    ensures tmp.Valid() && fresh(tmp.upper) && fresh(tmp.lower)
    ensures tmp.Val() == W256 - number.Val()
  {
    hide U256.Val, U128.Val, AddMod, SubMod;
    Halves(number);
    ghost var n := number.Val();
    var one := new U256(1);
    tmp := new U256(0);
    NoWrap(W256 - 1, n, W256);
    NoWrap(W256 - 1 - n, 1, W256);
    Sub256(maxUnsigned, number, tmp);
    Add256(tmp, one, tmp);
  }

  method ToString256Signed(number: U256, base: u32, out: array<char>, start: nat, outLength: u32)
      returns (ok: bool)
    requires number.Valid() && start + outLength <= out.Length
    modifies out
    ensures base == 10 ==>
      TextInto(Decimal(Signed(number.Val(), W256)), old(out[..]), out[..], start, outLength, ok)
    ensures base != 10 ==> PrintedInto(number.Val(), base, old(out[..]), out[..], start, outLength, ok)
  {
    hide Numeral, U256.Val, U128.Val;
    Halves(number);
    ghost var n, before := number.Val(), out[..];
    if outLength == 0 {
      return false;
    }
    if base == 10 {
      var maxUnsigned, maxSigned := Bounds256();
      if number.Greater(maxSigned) {
        NegativeText(n, W256);
        if outLength < 2 {
          out[start] := '\0';
          return false;
        }
        var tmp := Magnitude256(maxUnsigned, number);
        out[start] := '-';
        ghost var mid := out[..];
        ok := ToString256(tmp, base, out, start + 1, outLength - 1);
        MinusPrefix(Numeral(W256 - n, 10), before, mid, out[..], start, outLength, ok);
        return ok;
      }
    }
    ok := ToString256(number, base, out, start, outLength);
  }

  method Bounds128() returns (maxUnsigned: U128, maxSigned: U128)
    ensures fresh(maxUnsigned) && fresh(maxSigned)
    ensures maxUnsigned.Val() == W128 - 1 && maxSigned.Val() == W128 / 2 - 1
  {
    maxUnsigned := new U128(W64 - 1, W64 - 1);
    maxSigned := new U128(0, 0);
    var tmp := new U128(0, 0);
    var two := new U128(0, 2);
    DivMod128(maxUnsigned, two, maxSigned, tmp);
  }

  method Magnitude128(maxUnsigned: U128, number: U128) returns (tmp: U128)
    requires maxUnsigned.Val() == W128 - 1
    requires 0 < number.Val()
    ensures fresh(tmp)
    ensures tmp.Val() == W128 - number.Val()
  {
    ghost var n := number.Val();
    var one := new U128(0, 1);
    SmallVal(one);
    hide U128.Val, AddMod, SubMod;
    tmp := new U128(0, 0);
    NoWrap(W128 - 1, n, W128);
    NoWrap(W128 - 1 - n, 1, W128);
    Sub128(maxUnsigned, number, tmp);
    Add128(tmp, one, tmp);
  }

  method ToString128Signed(number: U128, base: u32, out: array<char>, start: nat, outLength: u32)
      returns (ok: bool)
    requires start + outLength <= out.Length
    modifies out
    ensures base == 10 ==>
      TextInto(Decimal(Signed(number.Val(), W128)), old(out[..]), out[..], start, outLength, ok)
    ensures base != 10 ==> PrintedInto(number.Val(), base, old(out[..]), out[..], start, outLength, ok)
  {
    hide Numeral, U128.Val;
    ghost var n, before := number.Val(), out[..];
    if outLength == 0 {
      return false;
    }
    if base == 10 {
      var maxUnsigned, maxSigned := Bounds128();
      if number.Greater(maxSigned) {
        NegativeText(n, W128);
        if outLength < 2 {
          out[start] := '\0';
          return false;
        }
        var tmp := Magnitude128(maxUnsigned, number);
        out[start] := '-';
        ghost var mid := out[..];
        ok := ToString128(tmp, base, out, start + 1, outLength - 1);
        MinusPrefix(Numeral(W128 - n, 10), before, mid, out[..], start, outLength, ok);
        return ok;
      }
    }
    ok := ToString128(number, base, out, start, outLength);
  }
}
