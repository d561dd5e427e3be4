/** Recursive length prefix, as Appendix B of the Ethereum Yellow Paper defines
    it, with the decoder that inverts it; and the encoder of
    src/features/sign_authorization_eip7702/rlp_encode.c. */
module Rlp {
  import opened Powers
  import opened BigEndian
  import opened Numerals

  datatype Item = Str(data: bytes) | List(items: seq<Item>)

  /** The big-endian bytes of a number, without leading zeros. */
  function Minimal(n: nat): (s: bytes) {
    if n == 0 then [] else Minimal(n / 0x100) + [n % 0x100]
  }

  /** The prefix of a payload of len bytes. */
  function Header(base: u8, len: nat): (h: bytes)
    requires base <= 0xC0 && len < W64
    ensures |h| >= 1
  {
    if len < 56 then [base + len]
    else MinimalWidth(len, 8); [base + 55 + |Minimal(len)|] + Minimal(len)
  }

  lemma MinimalWidth(n: nat, k: nat)
    requires k == 8 && n < W64
    ensures |Minimal(n)| <= 8
  {
    hide Minimal, Pow256;
    Pow256Widths();
    MinimalLength(n, 8);
  }

  lemma {:induction false} MinimalLength(n: nat, k: nat)
    ensures n < Pow256(k) <==> |Minimal(n)| <= k
    decreases n
  {
    if n > 0 && k > 0 {
      MinimalLength(n / 0x100, k - 1);
      assert n < 0x100 * Pow256(k - 1) <==> n / 0x100 < Pow256(k - 1);
    }
  }

  lemma {:induction false} MinimalValue(n: nat)
    ensures BE(Minimal(n)) == n
    ensures n > 0 ==> |Minimal(n)| > 0 && Minimal(n)[0] != 0
    decreases n
  {
    if n > 0 {
      MinimalValue(n / 0x100);
      var s := Minimal(n / 0x100);
      assert (s + [n % 0x100])[..|s|] == s;
    }
  }

  /** A byte string without leading zero is the minimal form of its value. */
  lemma {:induction false} MinimalUnique(s: bytes)
    requires s != [] ==> s[0] != 0
    ensures Minimal(BE(s)) == s
    decreases |s|
  {
    if s != [] {
      var n := |s| - 1;
      MinimalUnique(s[..n]);
      assert s == s[..n] + [s[n]];
      assert n > 0 ==> BE(s[..n]) > 0 by { if n > 0 { BEZeroIff(s[..n]); } }
    }
  }

  function Encode(x: Item): (r: Option<bytes>)
    ensures r.Some? ==> |r.value| >= 1
    decreases x, 1
  {
    match x
    case Str(data) =>
      if |data| == 1 && data[0] < 0x80 then Some(data)
      else if |data| >= W64 then None
      else Some(Header(0x80, |data|) + data)
    case List(items) =>
      var p := EncodeAll(items);
      if p.None? || |p.value| >= W64 then None else Some(Header(0xC0, |p.value|) + p.value)
  }

  function EncodeAll(xs: seq<Item>): Option<bytes>
    decreases xs, 0
  {
    if xs == [] then Some([])
    else
      var first, rest := Encode(xs[0]), EncodeAll(xs[1..]);
      if first.None? || rest.None? then None else Some(first.value + rest.value)
  }

  /** The lengths of the prefix and of the payload, when the prefix is the
      shortest one for it. */
  function ReadHeader(s: bytes, base: u8): (r: Option<(nat, nat)>)
    requires s != [] && base <= s[0] < base + 0x40
    ensures r.Some? ==> 1 <= r.value.0 <= |s|
  {
    var k := s[0] - base;
    if k < 56 then Some((1, k))
    else if |s| < 1 + (k - 55) || s[1] == 0 then None
    else
      var len := BE(s[1..1 + (k - 55)]);
      if len < 56 then None else Some((1 + (k - 55), len))
  }

  /** The item at the front of a string, and the bytes it takes. */
  function Decode(s: bytes): (r: Option<(Item, nat)>)
    ensures r.Some? ==> 1 <= r.value.1 <= |s|
    decreases |s|, 0
  {
    if s == [] then None
    else if s[0] < 0x80 then Some((Str(s[..1]), 1))
    else if s[0] < 0xC0 then
      var h := ReadHeader(s, 0x80);
      if h.None? || h.value.0 + h.value.1 > |s| then None
      else
        var data := s[h.value.0..h.value.0 + h.value.1];
        if |data| == 1 && data[0] < 0x80 then None else Some((Str(data), h.value.0 + h.value.1))
    else
      var h := ReadHeader(s, 0xC0);
      if h.None? || h.value.0 + h.value.1 > |s| then None
      else
        var items := DecodeAll(s[h.value.0..h.value.0 + h.value.1]);
        if items.None? then None else Some((List(items.value), h.value.0 + h.value.1))
  }

  function DecodeAll(s: bytes): Option<seq<Item>>
    decreases |s|, 1
  {
    if s == [] then Some([])
    else
      var first := Decode(s);
      if first.None? then None
      else
        var rest := DecodeAll(s[first.value.1..]);
        if rest.None? then None else Some([first.value.0] + rest.value)
  }

  lemma HeaderRoundTrip(base: u8, len: nat, rest: bytes)
    requires base <= 0xC0 && len < W64
    ensures var s := Header(base, len) + rest;
      base <= s[0] < base + 0x40 && ReadHeader(s, base) == Some((|Header(base, len)|, len))
  {
    hide Minimal, BE;
    if len >= 56 {
      MinimalWidth(len, 8);
      MinimalValue(len);
      var s, m := Header(base, len) + rest, Minimal(len);
      assert s[1..1 + |m|] == m;
      assert s[1] == m[0];
    }
  }

  /** Decoding a list is decoding its payload. */
  lemma DecodeList(s: bytes, h: nat, p: bytes)
    requires s != [] && s[0] >= 0xC0 && ReadHeader(s, 0xC0) == Some((h, |p|)) && h + |p| <= |s| && s[h..h + |p|] == p
    ensures Decode(s) == if DecodeAll(p).None? then None else Some((List(DecodeAll(p).value), h + |p|))
  {
    hide ReadHeader, DecodeAll;
  }

  lemma Sandwich(h: bytes, p: bytes, rest: bytes)
    ensures (h + p) + rest == h + (p + rest) && ((h + p) + rest)[|h|..|h| + |p|] == p
  {
  }

  lemma StrRoundTrip(data: bytes, rest: bytes)
    requires Encode(Str(data)).Some?
    ensures Decode(Encode(Str(data)).value + rest) == Some((Str(data), |Encode(Str(data)).value|))
  {
    var s := Encode(Str(data)).value + rest;
    if |data| == 1 && data[0] < 0x80 {
      assert s[..1] == data;
    } else {
      var h := Header(0x80, |data|);
      HeaderRoundTrip(0x80, |data|, data + rest);
      hide Header, ReadHeader, DecodeAll, EncodeAll;
      Sandwich(h, data, rest);
    }
  }

  lemma ListRoundTrip(items: seq<Item>, rest: bytes)
    requires Encode(List(items)).Some? && DecodeAll(EncodeAll(items).value) == Some(items)
    ensures Decode(Encode(List(items)).value + rest) == Some((List(items), |Encode(List(items)).value|))
  {
    var s, p := Encode(List(items)).value + rest, EncodeAll(items).value;
    var h := Header(0xC0, |p|);
    hide Header, ReadHeader, DecodeAll, EncodeAll, Decode;
    assert s == (h + p) + rest;
    hide Encode;
    HeaderRoundTrip(0xC0, |p|, p + rest);
    Sandwich(h, p, rest);
    DecodeList(s, |h|, p);
  }

  /** Decoding undoes encoding, whatever follows. */
  lemma {:induction false} RoundTrip(x: Item, rest: bytes)
    requires Encode(x).Some?
    ensures Decode(Encode(x).value + rest) == Some((x, |Encode(x).value|))
    decreases x, 1
  {
    hide DecodeAll, Decode, Header;
    match x
    case Str(data) => StrRoundTrip(data, rest);
    case List(items) =>
      RoundTripAll(items);
      ListRoundTrip(items, rest);
  }

  lemma {:induction false} RoundTripAll(xs: seq<Item>)
    requires EncodeAll(xs).Some?
    ensures DecodeAll(EncodeAll(xs).value) == Some(xs)
    decreases xs, 0
  {
    hide Encode, Decode;
    if xs != [] {
      var first, rest := Encode(xs[0]).value, EncodeAll(xs[1..]).value;
      RoundTrip(xs[0], rest);
      RoundTripAll(xs[1..]);
      assert (first + rest)[|first|..] == rest;
      assert [xs[0]] + xs[1..] == xs;
    }
  }

  lemma HeaderCanonical(s: bytes, base: u8)
    requires base <= 0xC0 && s != [] && base <= s[0] < base + 0x40 && ReadHeader(s, base).Some?
    ensures var (h, len) := ReadHeader(s, base).value; len < W64 && s[..h] == Header(base, len)
  {
    hide Minimal, BE, Pow256;
    var (h, len) := ReadHeader(s, base).value;
    if s[0] - base >= 56 {
      var m := s[1..h];
      MinimalUnique(m);
      BEBound(m);
      Pow256Widths();
      Pow256Grows(|m|, 8);
      assert s[..h] == [s[0]] + m;
    } else {
      assert s[..1] == [s[0]];
    }
  }

  lemma {:induction false} Pow256Grows(a: nat, b: nat)
    requires a <= b
    ensures Pow256(a) <= Pow256(b)
  {
    if a < b { Pow256Grows(a, b - 1); }
  }

  /** The decoder accepts nothing but encodings. */
  lemma {:induction false} DecodedIsEncoded(s: bytes)
    requires Decode(s).Some?
    ensures var (x, n) := Decode(s).value; Encode(x) == Some(s[..n])
    decreases |s|, 0
  {
    if s[0] < 0xC0 {
      StrDecoded(s);
    } else {
      ListDecoded(s);
      hide Decode, Encode, DecodeAll, EncodeAll, Header, ReadHeader;
      var (h, len) := ReadHeader(s, 0xC0).value;
      AllDecodedIsEncoded(s[h..h + len]);
      EncodeListIs(DecodeAll(s[h..h + len]).value, s, h, len);
    }
  }

  lemma StrDecoded(s: bytes)
    requires s != [] && s[0] < 0xC0 && Decode(s).Some?
    ensures var (x, n) := Decode(s).value; Encode(x) == Some(s[..n])
  {
    hide DecodeAll, EncodeAll, Header, ReadHeader;
    if s[0] >= 0x80 {
      HeaderCanonical(s, 0x80);
      var (h, len) := ReadHeader(s, 0x80).value;
      assert s[..h + len] == s[..h] + s[h..h + len];
    }
  }

  lemma ListDecoded(s: bytes)
    requires s != [] && s[0] >= 0xC0 && Decode(s).Some?
    ensures ReadHeader(s, 0xC0).Some? && var (h, len) := ReadHeader(s, 0xC0).value;
      h + len <= |s| && DecodeAll(s[h..h + len]).Some? && Decode(s).value == (List(DecodeAll(s[h..h + len]).value), h + len)
  {
    hide DecodeAll, ReadHeader;
  }

  lemma EncodeListIs(items: seq<Item>, s: bytes, h: nat, len: nat)
    requires s != [] && s[0] >= 0xC0 && ReadHeader(s, 0xC0) == Some((h, len)) && h + len <= |s|
    requires EncodeAll(items) == Some(s[h..h + len])
    ensures Encode(List(items)) == Some(s[..h + len])
  {
    hide EncodeAll, ReadHeader, Header;
    HeaderCanonical(s, 0xC0);
    assert s[..h + len] == s[..h] + s[h..h + len];
  }

  lemma {:induction false} AllDecodedIsEncoded(s: bytes)
    requires DecodeAll(s).Some?
    ensures EncodeAll(DecodeAll(s).value) == Some(s)
    decreases |s|, 1
  {
    hide Encode, Decode;
    if s != [] {
      DecodedIsEncoded(s);
      var (x, n) := Decode(s).value;
      AllDecodedIsEncoded(s[n..]);
      var rest := DecodeAll(s[n..]).value;
      assert ([x] + rest)[1..] == rest;
      assert s == s[..n] + s[n..];
    }
  }

  /** Different items, or different sequences of items, have different encodings. */
  lemma EncodeInjective(x: Item, y: Item)
    requires Encode(x).Some? && Encode(x) == Encode(y)
    ensures x == y
  {
    hide Encode, Decode;
    RoundTrip(x, []);
    RoundTrip(y, []);
  }

  /** Encodings given with the definition: the empty string and list, a small
      byte, 1024, and the list of "cat" and "dog". */
  lemma KnownEncodings()
    ensures Encode(Str([])) == Some([0x80]) && Encode(List([])) == Some([0xC0])
    ensures Encode(Str([0x0F])) == Some([0x0F]) && Encode(Str(Minimal(1024))) == Some([0x82, 0x04, 0x00])
    ensures Encode(List([Str([0x63, 0x61, 0x74]), Str([0x64, 0x6F, 0x67])]))
         == Some([0xC8, 0x83, 0x63, 0x61, 0x74, 0x83, 0x64, 0x6F, 0x67])
  {
    ListEncoding([]);
    KnownPrefixes();
    hide Minimal, Header, EncodeAll;
    StrEncoding([]);
    StrEncoding([0x04, 0x00]);
    assert [0x80] + [] == [0x80] && [0xC0] + [] == [0xC0] && [0x82] + [0x04, 0x00] == [0x82, 0x04, 0x00];
    CatAndDog();
  }

  /** The prefixes of a 56-byte string and of a list of 1024 bytes. */
  lemma KnownPrefixes()
    ensures Minimal(1024) == [0x04, 0x00] && Header(0x80, 56) == [0xB8, 0x38] && Header(0xC0, 1024) == [0xF9, 0x04, 0x00]
  {
    SmallMinimal(4);
    SmallMinimal(56);
    assert Minimal(1024) == [0x04] + [0x00];
    hide Minimal;
    assert [0xB8] + [0x38] == [0xB8, 0x38] && [0xF9] + [0x04, 0x00] == [0xF9, 0x04, 0x00];
  }

  lemma CatAndDog()
    ensures Encode(List([Str([0x63, 0x61, 0x74]), Str([0x64, 0x6F, 0x67])]))
         == Some([0xC8, 0x83, 0x63, 0x61, 0x74, 0x83, 0x64, 0x6F, 0x67])
  {
    hide Encode, Header, Minimal;
    var cat, dog := Str([0x63, 0x61, 0x74]), Str([0x64, 0x6F, 0x67]);
    StrEncoding(cat.data);
    StrEncoding(dog.data);
    assert [cat, dog][1..] == [dog] && [dog][1..] == [];
    var d := [0x83] + dog.data;
    assert d + [] == d;
    assert EncodeAll([dog]) == Some(d);
    assert EncodeAll([cat, dog]) == Some([0x83] + cat.data + d);
    ListEncoding([cat, dog]);
    assert [0xC8] + ([0x83] + cat.data + d) == [0xC8, 0x83, 0x63, 0x61, 0x74, 0x83, 0x64, 0x6F, 0x67];
  }

  lemma StrEncoding(data: bytes)
    requires |data| < 56 && |data| != 1
    ensures Encode(Str(data)) == Some([0x80 + |data|] + data)
  {
  }

  lemma ListEncoding(items: seq<Item>)
    requires EncodeAll(items).Some? && |EncodeAll(items).value| < 56
    ensures var p := EncodeAll(items).value; Encode(List(items)) == Some([0xC0 + |p|] + p)
  {
  }

  /* ---- The encoder of the application ---- */

  /** What rlpEncodeNumber writes. */
  function Encoded(number: bytes): (r: bytes)
    requires |number| < 0x100
    ensures |r| >= 1
  {
    if |number| == 1 then
      if number[0] == 0 then [0x80] else if number[0] <= 0x7F then number else [0x81] + number
    else [(0x80 + |number|) % 0x100] + number
  }

  /** That is the encoding of the byte string exactly for strings of at most 55
      bytes other than a single zero, which is taken for the number zero. */
  lemma EncodedIsRlp(number: bytes)
    requires |number| < 0x100
    ensures Encode(Str(number)) == Some(Encoded(number)) <==> |number| <= 55 && number != [0]
  {
    hide Minimal;
    if |number| >= 56 {
      MinimalLength(|number|, 1);
      MinimalLength(|number|, 0);
      assert Pow256(1) == 0x100 && Pow256(0) == 1;
      assert |Encode(Str(number)).value| == |number| + 2;
    }
  }

  /** Any uint64, given by its minimal bytes, is encoded as the Yellow Paper
      encodes that number, and decodes back to it. */
  lemma NumberRoundTrip(n: u64, rest: bytes)
    ensures |Minimal(n)| <= 8 && Encode(Str(Minimal(n))) == Some(Encoded(Minimal(n)))
    ensures Decode(Encoded(Minimal(n)) + rest) == Some((Str(Minimal(n)), |Encoded(Minimal(n))|))
    ensures BE(Minimal(n)) == n
  {
    MinimalWidth(n, 8);
    MinimalValue(n);
    assert Minimal(n) != [0];
    hide Minimal, Encode, Decode, Encoded, BE;
    EncodedIsRlp(Minimal(n));
    RoundTrip(Str(Minimal(n)), rest);
  }

  /** A reader that also accepts prefixes and numbers that are not minimal. */
  function ReadLoosely(s: bytes): Option<bytes> {
    if s == [] || s[0] >= 0xC0 then None
    else if s[0] < 0x80 then if |s| == 1 then Some(s) else None
    else if s[0] < 0xB8 then if |s| == 1 + (s[0] - 0x80) then Some(s[1..]) else None
    else
      var ll := s[0] - 0xB7;
      if |s| > ll && BE(s[1..1 + ll]) == |s| - 1 - ll then Some(s[1 + ll..]) else None
  }

  /** No string that could be read as the number is shorter. */
  lemma NumberShortest(n: u64, s: bytes)
    requires ReadLoosely(s).Some? && BE(ReadLoosely(s).value) == n
    ensures |Minimal(n)| <= 8 && |Encoded(Minimal(n))| <= |s|
  {
    var d := ReadLoosely(s).value;
    MinimalWidth(n, 8);
    BEBound(d);
    MinimalLength(n, |d|);
    hide Pow256;
    if s[0] < 0x80 {
      assert d[..0] == [];
      assert BE(d) == d[0] <= 0x7F;
      assert |Minimal(n)| == 1 ==> Minimal(n) == [n] by { SmallMinimal(n); }
    }
  }

  lemma SmallMinimal(n: nat)
    requires n < 0x100
    ensures Minimal(n) == if n == 0 then [] else [n]
  {
    if n > 0 { assert Minimal(n / 0x100) == []; }
  }

  /** A buffer with some bytes written at a position. */
  function Written(before: bytes, start: nat, data: bytes): (r: bytes)
    requires start + |data| <= |before|
    ensures |r| == |before|
  {
    before[..start] + data + before[start + |data|..]
  }

  method Write(output: array<u8>, start: nat, data: bytes)
    requires start + |data| <= output.Length
    modifies output
    ensures output[..] == Written(old(output[..]), start, data)
  {
    forall i | 0 <= i < |data| { output[start + i] := data[i]; }
  }

  /** rlpEncodeNumber into the `size` bytes of a buffer from a position on. The
      length it returns is a byte. */
  method EncodeNumber(number: bytes, output: array<u8>, start: nat, size: nat) returns (n: u8)
    requires |number| < 0x100 && start + size <= output.Length
    modifies output
    ensures size < |number| + 2 ==> n == 0 && output[..] == old(output[..])
    ensures size >= |number| + 2 ==>
      n == |Encoded(number)| % 0x100 && output[..] == Written(old(output[..]), start, Encoded(number))
  {
    if size < |number| + 2 { return 0; }
    if |number| == 1 {
      if number[0] == 0 {
        Write(output, start, [0x80]);
        return 1;
      }
      if number[0] <= 0x7F {
        Write(output, start, [number[0]]);
        assert number == [number[0]];
        return 1;
      }
      Write(output, start, [0x81, number[0]]);
      assert [0x81, number[0]] == [0x81] + number;
      return 2;
    }
    Write(output, start, [(0x80 + |number|) % 0x100] + number);
    return (|number| + 1) % 0x100;
  }

  /** rlpGetEncodedNumberLength. */
  function EncodedNumberLength(number: bytes): (n: u8)
    requires |number| < 0x100
    ensures n == |Encoded(number)| % 0x100
  {
    if |number| == 1 && number[0] <= 0x7F then 1 else (|number| + 1) % 0x100
  }

  /** rlpGetSmallestNumber64EncodingSize. */
  method SmallestEncodingSize(number: u64) returns (size: u8)
    ensures size == |Minimal(number)| <= 8
  {
    MinimalWidth(number, 8);
    size := 1;
    var n: u64 := number;
    while n != 0
      invariant 1 <= size <= 9
      invariant n == 0 ==> number == 0
      invariant |Minimal(number)| == |Minimal(n)| + size - 1
      decreases n
    {
      ghost var m := n;
      n := n / 0x100;
      if n == 0 { return; }
      MinimalPositive(n);
      size := size + 1;
    }
    size := 0;
  }

  lemma MinimalPositive(n: nat)
    requires n > 0
    ensures |Minimal(n)| >= 1
  {
  }

  /** rlpGetEncodedNumber64Length predicts the length of the encoding. */
  method EncodedNumber64Length(number: u64) returns (n: u8)
    ensures |Minimal(number)| <= 8 && n == |Encoded(Minimal(number))|
  {
    var size := SmallestEncodingSize(number);
    assert size == 1 ==> number < 0x100 && Minimal(number) == [number] by {
      MinimalLength(number, 1);
      assert Pow256(1) == 0x100 by { assert Pow256(0) == 1; }
      if number < 0x100 { SmallMinimal(number); }
    }
    hide Minimal;
    if size == 1 && number <= 0x7F { return 1; }
    return size + 1;
  }

  /** rlpEncodeListHeader8: the prefix of a list of up to 255 bytes. */
  method EncodeListHeader8(size: u8, output: array<u8>, start: nat, room: nat) returns (n: u8)
    requires start + room <= output.Length
    modifies output
    ensures room < 2 ==> n == 0 && output[..] == old(output[..])
    ensures room >= 2 ==>
      n == |Header(0xC0, size)| <= 2 && output[..] == Written(old(output[..]), start, Header(0xC0, size))
  {
    if room < 2 { return 0; }
    if size <= 55 {
      Write(output, start, [0xC0 + size]);
      return 1;
    }
    SmallMinimal(size);
    Write(output, start, [0xC0 + 55 + 1, size]);
    assert [0xC0 + 55 + 1, size] == [0xC0 + 55 + 1] + [size];
    return 2;
  }
}
