/** format_signed_int_be (src/utils/utils.c) and the big-endian readers it uses. */
module SignedInt {
  import opened Powers
  import opened BigEndian
  import opened Numerals
  import opened UInt128
  import opened UInt256
  import opened Printing

  /** read_u64_be of eight bytes. */
  function ReadU64(s: bytes): (x: u64)
    requires |s| == 8
  {
    Read64Fits(s);
    BE(s)
  }

  lemma Read64Fits(s: bytes)
    requires |s| == 8
    ensures BE(s) < W64
  {
    hide Pow256;
    Pow256Widths();
    BEBound(s);
  }

  method ReadU128BE(buffer: bytes, target: U128)
    requires |buffer| == 16
    modifies target
    ensures target.Val() == BE(buffer)
  {
    JoinedRead(buffer);
    hide BE;
    target.hi := ReadU64(buffer[..8]);
    target.lo := ReadU64(buffer[8..]);
  }

  lemma JoinedRead(buffer: bytes)
    requires |buffer| == 16
    ensures Join64(ReadU64(buffer[..8]), ReadU64(buffer[8..])) == BE(buffer)
  {
    hide BE, Pow256;
    Pow256Widths();
    BEConcat(buffer[..8], buffer[8..]);
    assert buffer == buffer[..8] + buffer[8..];
  }

  method ReadU256BE(buffer: bytes, target: U256)
    requires |buffer| == 32 && target.Valid()
    modifies target.upper, target.lower
    ensures target.Val() == BE(buffer)
  {
    assert Join(BE(buffer[..16]), BE(buffer[16..])) == BE(buffer) by {
      hide BE, Pow256;
      Pow256Widths();
      BEConcat(buffer[..16], buffer[16..]);
      assert buffer == buffer[..16] + buffer[16..];
    }
    hide BE, Join, U128.Val;
    ReadU128BE(buffer[..16], target.upper);
    ReadU128BE(buffer[16..], target.lower);
  }

  /** convertUint256BE: right-aligns up to 32 bytes in a word; refuses an empty
      or a longer input and then leaves the target alone. */
  method ConvertUint256BE(data: bytes, target: U256) returns (ok: bool)
    requires target.Valid()
    modifies target.upper, target.lower
    ensures ok == (1 <= |data| <= 32)
    ensures ok ==> target.Val() == BE(data)
    ensures !ok ==> target.Val() == old(target.Val())
  {
    if |data| == 0 || |data| > 32 {
      return false;
    }
    ZeroExtend(32 - |data|, data);
    ReadU256BE(Fill(32 - |data|, 0) + data, target);
    return true;
  }

  /** convertUint128BE returns nothing: an unsuitable input leaves the target. */
  method ConvertUint128BE(data: bytes, target: U128)
    modifies target
    ensures target.Val() == if 1 <= |data| <= 16 then BE(data) else old(target.Val())
  {
    if |data| == 0 || |data| > 16 {
      return;
    }
    ZeroExtend(16 - |data|, data);
    ReadU128BE(Fill(16 - |data|, 0) + data, target);
  }

  /** The SDK function uint256_to_decimal: the decimal numeral of up to 32 bytes. */
  method Uint256ToDecimal(data: bytes, out: array<char>, start: nat, outLength: u32)
      returns (ok: bool)
    requires start + outLength <= out.Length
    modifies out
    ensures |data| > 32 ==> !ok
    ensures |data| <= 32 ==> TextInto(Decimal(BE(data)), old(out[..]), out[..], start, outLength, ok)
  {
    hide BE, Numeral, U256.Val, U128.Val;
    var value := new U256(0);
    if |data| > 32 { return false; }
    ZeroExtend(32 - |data|, data);
    ReadU256BE(Fill(32 - |data|, 0) + data, value);
    ok := ToString256(value, 10, out, start, outLength);
  }

  /** The SDK function format_i64, on the 64-bit pattern of its argument. */
  method FormatI64(pattern: u64, out: array<char>, start: nat, outLength: u32) returns (ok: bool)
    requires start + outLength <= out.Length
    modifies out
    ensures TextInto(Decimal(Signed(pattern, W64)), old(out[..]), out[..], start, outLength, ok)
  {
    var value := new U128(if 2 * pattern >= W64 then W64 - 1 else 0, pattern);
    assert Signed(value.Val(), W128) == Signed(pattern, W64);
    hide Numeral;
    ok := ToString128Signed(value, 10, out, start, outLength);
  }

  /** The integer that data stands for in a type of typeSize bytes: negative only
      at full width with the top bit set. */
  function SignedValue(data: bytes, typeSize: nat): int {
    if |data| == typeSize && data != [] && data[0] >= 0x80 then BE(data) - Pow256(|data|) else BE(data)
  }

  /** That integer is the two's-complement reading at full width, and exactly the
      unsigned value of a shorter string. */
  lemma SignedValueRange(data: bytes, typeSize: nat)
    requires 0 < |data| <= typeSize
    ensures |data| == typeSize ==> SignedValue(data, typeSize) == Signed(BE(data), Pow256(typeSize))
    ensures |data| < typeSize ==> SignedValue(data, typeSize) == BE(data)
    ensures 0 <= 2 * SignedValue(data, typeSize) + Pow256(typeSize)
  {
    TopBit(data);
    BEBound(data);
  }

  /** z is in the two's-complement range of a register of w values and congruent,
      modulo w, to its content n. */
  predicate TwosComplement(z: int, n: nat, w: int)
    requires w > 0
  {
    -w <= 2 * z < w && (z - n) % w == 0
  }

  /** The printed integer is the only one in the range of the type that is
      congruent to the data, zero-extended to the width of the type. */
  lemma SignedValueUnique(data: bytes, typeSize: nat, z: int)
    requires 0 < |data| <= typeSize
    ensures z == SignedValue(data, typeSize) <==>
      TwosComplement(z, BE(Fill(typeSize - |data|, 0) + data), Pow256(typeSize))
  {
    hide BE;
    var w, n := Pow256(typeSize), BE(data);
    ZeroExtend(typeSize - |data|, data);
    BEBound(data);
    if |data| == typeSize {
      TopBit(data);
    } else {
      ShorterIsSmall(|data|, typeSize);
    }
    hide Pow256;
    CongruentOnce(SignedValue(data, typeSize), z, n, w);
  }

  lemma {:induction false} ShorterIsSmall(a: nat, b: nat)
    requires a < b
    ensures 0x100 * Pow256(a) <= Pow256(b)
  {
    if a + 1 < b { ShorterIsSmall(a, b - 1); }
  }

  lemma CongruentOnce(z: int, y: int, n: nat, w: int)
    requires w > 0 && -w <= 2 * z < w && (z == n || z == n - w)
    ensures y == z <==> TwosComplement(y, n, w)
  {
    if z == n { DivUnique(0, w, 0, 0); } else { DivUnique(-w, w, -1, 0); }
    if TwosComplement(y, n, w) {
      var q := (y - n) / w;
      assert y - n == q * w;
      if z != n { OneMore(q, w); }
      SmallMultiple(if z == n then q else q + 1, w, y - z);
    }
  }

  lemma OneMore(q: int, w: int)
    ensures (q + 1) * w == q * w + w
  {
  }

  lemma SmallMultiple(k: int, w: int, d: int)
    requires d == k * w && -w < d < w
    ensures d == 0
  {
    if k >= 1 { MulMono(1, k, w); } else if k <= -1 { MulMono(k, -1, w); }
  }

  /** The signed forms of both widths print that integer too. */
  lemma SignedUnique(n: nat, half: nat, z: int)
    requires n < 2 * half
    ensures z == Signed(n, 2 * half) <==> TwosComplement(z, n, 2 * half)
  {
    CongruentOnce(Signed(n, 2 * half), z, n, 2 * half);
  }

  /** Sign extension into a container of `width` bytes keeps the value. */
  lemma ContainerKeepsValue(data: bytes, width: nat)
    requires 0 < |data| <= width && data[0] >= 0x80
    ensures var wide := Fill(width - |data|, 0xFF) + data;
      |wide| == width && Signed(BE(wide), Pow256(width)) == SignedValue(data, |data|)
  {
    hide BE, Pow256;
    var wide := Fill(width - |data|, 0xFF) + data;
    SignExtend(width - |data|, data);
    TopBit(wide);
    assert wide[0] >= 0x80;
  }

  /** format_signed_int_be succeeds exactly when the input has 1 to typeSize
      bytes, at most 32, and its decimal form fits; and that is what it prints. */
  method FormatSignedIntBE(data: bytes, typeSize: u8, out: array<char>, start: nat, outLength: u32)
      returns (ok: bool)
    requires start + outLength <= out.Length
    modifies out
    ensures !(1 <= |data| <= typeSize && |data| <= 32) ==> !ok
    ensures 1 <= |data| <= typeSize && |data| <= 32 ==>
      TextInto(Decimal(SignedValue(data, typeSize)), old(out[..]), out[..], start, outLength, ok)
  {
    hide BE, Pow256, Numeral, U128.Val, U256.Val;
    if |data| == 0 || |data| > typeSize {
      return false;
    }
    if |data| != typeSize || data[0] < 0x80 {
      ok := Uint256ToDecimal(data, out, start, outLength);
      return ok;
    }
    Pow256Widths();
    if typeSize <= 8 {
      ContainerKeepsValue(data, 8);
      ok := FormatI64(ReadU64(Fill(8 - |data|, 0xFF) + data), out, start, outLength);
    } else if typeSize <= 16 {
      ContainerKeepsValue(data, 16);
      var value := new U128(0, 0);
      ConvertUint128BE(Fill(16 - |data|, 0xFF) + data, value);
      ok := ToString128Signed(value, 10, out, start, outLength);
    } else if typeSize <= 32 {
      ContainerKeepsValue(data, 32);
      var value := new U256(0);
      var converted := ConvertUint256BE(Fill(32 - |data|, 0xFF) + data, value);
      if !converted { return false; }
      ok := ToString256Signed(value, 10, out, start, outLength);
    } else {
      ok := false;
    }
  }
}
