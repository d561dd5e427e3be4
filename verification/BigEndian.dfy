/** Big-endian byte strings as numbers, with zero and sign extension. */
module BigEndian {
  import opened Powers

  type bytes = seq<u8>

  function BE(s: bytes): (n: nat) {
    if s == [] then 0 else BE(s[..|s| - 1]) * 0x100 + s[|s| - 1]
  }

  function Pow256(n: nat): (p: nat)
    ensures p > 0
  {
    if n == 0 then 1 else 0x100 * Pow256(n - 1)
  }

  lemma {:induction false} Pow256Add(a: nat, b: nat)
    ensures Pow256(a + b) == Pow256(a) * Pow256(b)
  {
    if b > 0 {
      Pow256Add(a, b - 1);
      MulByte(Pow256(a), Pow256(b - 1));
    }
  }

  lemma MulByte(a: int, b: int)
    ensures a * (0x100 * b) == 0x100 * (a * b)
  {
  }

  lemma {:induction false} Pow256IsPow2(n: nat)
    ensures Pow256(n) == Pow2(8 * n)
  {
    if n > 0 {
      Pow256IsPow2(n - 1);
      Pow2Add(8, 8 * (n - 1));
      assert Pow2(8) == 0x100 by { Pow2Square(1, 2); Pow2Square(2, 4); Pow2Square(4, 16); }
    }
  }

  lemma Pow256Widths()
    ensures Pow256(8) == W64 && Pow256(16) == W128 && Pow256(32) == W256
  {
    hide Pow2, Pow256;
    Pow256IsPow2(8);
    Pow256IsPow2(16);
    Pow256IsPow2(32);
    Pow2Widths();
  }

  lemma {:induction false} BEBound(s: bytes)
    ensures BE(s) < Pow256(|s|)
  {
    if s != [] { BEBound(s[..|s| - 1]); }
  }

  lemma {:induction false} BEConcat(a: bytes, b: bytes)
    ensures BE(a + b) == BE(a) * Pow256(|b|) + BE(b)
  {
    if b == [] {
      assert a + b == a;
    } else {
      var n := |b| - 1;
      BEConcat(a, b[..n]);
      assert (a + b)[..|a + b| - 1] == a + b[..n];
      MulByte(BE(a), Pow256(n));
    }
  }

  function Fill(n: nat, b: u8): (s: bytes)
    ensures |s| == n && forall i :: 0 <= i < n ==> s[i] == b
  {
    seq(n, i => b)
  }

  lemma {:induction false} BEZeros(n: nat)
    ensures BE(Fill(n, 0)) == 0
  {
    if n > 0 {
      assert Fill(n, 0)[..n - 1] == Fill(n - 1, 0);
      BEZeros(n - 1);
    }
  }

  lemma {:induction false} BEOnes(n: nat)
    ensures BE(Fill(n, 0xFF)) == Pow256(n) - 1
  {
    if n > 0 {
      assert Fill(n, 0xFF)[..n - 1] == Fill(n - 1, 0xFF);
      BEOnes(n - 1);
    }
  }

  lemma ZeroExtend(n: nat, s: bytes)
    ensures BE(Fill(n, 0) + s) == BE(s)
  {
    BEConcat(Fill(n, 0), s);
    BEZeros(n);
  }

  /** Padding with 0xFF keeps the two's-complement value at the wider width. */
  lemma SignExtend(n: nat, s: bytes)
    ensures BE(Fill(n, 0xFF) + s) - Pow256(n + |s|) == BE(s) - Pow256(|s|)
  {
    hide BE, Pow256;
    BEConcat(Fill(n, 0xFF), s);
    BEOnes(n);
    Pow256Add(n, |s|);
    OneLess(Pow256(n), Pow256(|s|));
  }

  lemma OneLess(p: int, q: int)
    ensures (p - 1) * q == p * q - q
  {
  }

  /** The top bit of the first byte splits the range in two halves. */
  lemma TopBit(s: bytes)
    requires s != []
    ensures s[0] >= 0x80 <==> 2 * BE(s) >= Pow256(|s|)
  {
    assert s == [s[0]] + s[1..];
    BEConcat([s[0]], s[1..]);
    BEBound(s[1..]);
    assert BE([s[0]]) == s[0] by { assert [s[0]][..0] == []; }
    var p := Pow256(|s| - 1);
    if s[0] >= 0x80 {
      MulMono(0x80, s[0], p);
    } else {
      MulMono(s[0], 0x7F, p);
    }
  }

  /** Equal-length byte strings with the same value are the same. */
  lemma {:induction false} BEInjective(a: bytes, b: bytes)
    requires |a| == |b| && BE(a) == BE(b)
    ensures a == b
  {
    if a != [] {
      var n := |a| - 1;
      var x, y := BE(a[..n]), BE(b[..n]);
      assert 0x100 * x + a[n] == 0x100 * y + b[n];
      BEInjective(a[..n], b[..n]);
      assert a == a[..n] + [a[n]] && b == b[..n] + [b[n]];
    }
  }

  lemma {:induction false} BEZeroIff(s: bytes)
    ensures BE(s) == 0 <==> forall i :: 0 <= i < |s| ==> s[i] == 0
  {
    if s != [] {
      var n := |s| - 1;
      BEZeroIff(s[..n]);
      assert (forall i :: 0 <= i < |s| ==> s[i] == 0) <==> (s[n] == 0 && forall i :: 0 <= i < n ==> s[..n][i] == 0);
    }
  }

  lemma TwoBytes(s: bytes)
    requires |s| == 2
    ensures BE(s) == (s[0] as int) * 0x100 + s[1]
  {
    assert s[..1][..0] == [] && s[..1][0] == s[0];
    assert BE(s[..1]) == s[0];
  }
}
