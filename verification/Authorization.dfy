/** The bytes signed for an EIP-7702 authorization
    (src/features/sign_authorization_eip7702/commands_7702.c). */
module Authorization {
  import opened Powers
  import opened BigEndian
  import opened Numerals
  import opened Rlp

  const MAGIC: u8 := 5
  const ADDRESS_LENGTH: nat := 20

  type Address = s: bytes | |s| == 20 witness Fill(20, 0)

  function Tuple(chainId: u64, delegate: Address, nonce: u64): Item {
    List([Str(Minimal(chainId)), Str(delegate), Str(Minimal(nonce))])
  }

  /** write_u64_be */
  function Wide(n: u64): (s: bytes)
    ensures |Minimal(n)| <= 8 && |s| == 8 && s[8 - |Minimal(n)|..] == Minimal(n) && BE(s) == n
  {
    MinimalWidth(n, 8);
    MinimalValue(n);
    ZeroExtend(8 - |Minimal(n)|, Minimal(n));
    Fill(8 - |Minimal(n)|, 0) + Minimal(n)
  }

  /** The three encodings one after the other. */
  lemma TupleEncoding(chainId: u64, delegate: Address, nonce: u64)
    ensures |Minimal(chainId)| <= 8 && |Minimal(nonce)| <= 8
    ensures var body := Encoded(Minimal(chainId)) + Encoded(delegate) + Encoded(Minimal(nonce));
      |body| <= 55 && Encode(Tuple(chainId, delegate, nonce)) == Some(Header(0xC0, |body|) + body)
  {
    hide Minimal, Decode, Header, Encode, EncodeAll;
    NumberRoundTrip(chainId, []);
    NumberRoundTrip(nonce, []);
    EncodedIsRlp(delegate);
    ThreeItems(Str(Minimal(chainId)), Str(delegate), Str(Minimal(nonce)));
    var body := Encoded(Minimal(chainId)) + Encoded(delegate) + Encoded(Minimal(nonce));
    EncodedLength(Minimal(chainId));
    EncodedLength(delegate);
    EncodedLength(Minimal(nonce));
    hide Encoded;
    ListIsHeaderAndBody([Str(Minimal(chainId)), Str(delegate), Str(Minimal(nonce))], body);
  }

  lemma EncodedLength(number: bytes)
    requires |number| < 0x100
    ensures |Encoded(number)| <= |number| + 1
  {
  }

  lemma ListIsHeaderAndBody(items: seq<Item>, body: bytes)
    requires EncodeAll(items) == Some(body) && |body| < W64
    ensures Encode(List(items)) == Some(Header(0xC0, |body|) + body)
  {
    hide EncodeAll, Header;
  }

  lemma ThreeItems(a: Item, b: Item, c: Item)
    requires Encode(a).Some? && Encode(b).Some? && Encode(c).Some?
    ensures EncodeAll([a, b, c]) == Some(Encode(a).value + Encode(b).value + Encode(c).value)
  {
    hide Encode;
    assert [a, b, c][1..] == [b, c] && [b, c][1..] == [c] && [c][1..] == [];
    var x, y, z := Encode(a).value, Encode(b).value, Encode(c).value;
    assert z + [] == z;
    assert EncodeAll([c]) == Some(z);
    assert EncodeAll([b, c]) == Some(y + z);
    assert x + (y + z) == x + y + z;
  }

  /** hashRLP: the encoding of a byte string joins what is hashed. */
  method HashRlp(hashed: bytes, data: bytes, tmp: array<u8>) returns (ok: bool, r: bytes)
    requires |data| <= 20 && tmp.Length == 40
    modifies tmp
    ensures ok && r == hashed + Encoded(data)
  {
    var n := EncodeNumber(data, tmp, 0, tmp.Length);
    if n == 0 { return false, hashed; }
    assert tmp[..n] == Encoded(data);
    return true, hashed + tmp[..n];
  }

  /** hash_RLP64 */
  method HashRlp64(hashed: bytes, data: u64, tmp: array<u8>) returns (ok: bool, r: bytes)
    requires tmp.Length == 40
    modifies tmp
    ensures ok && |Minimal(data)| <= 8 && r == hashed + Encoded(Minimal(data))
  {
    var size := SmallestEncodingSize(data);
    var wide := Wide(data);
    ok, r := HashRlp(hashed, wide[8 - size..], tmp);
  }

  /** What is hashed for an authorization is the magic byte and the encoding of
      the list of its three fields. */
  method Preimage(chainId: u64, delegate: Address, nonce: u64) returns (ok: bool, hashed: bytes)
    ensures ok && Encode(Tuple(chainId, delegate, nonce)).Some?
    ensures hashed == [MAGIC] + Encode(Tuple(chainId, delegate, nonce)).value
  {
    hide Minimal, Encode, Header, Encoded, Tuple;
    TupleEncoding(chainId, delegate, nonce);
    var tmp := new u8[40];
    var a := EncodedNumber64Length(chainId);
    var b := EncodedNumberLength(delegate);
    var c := EncodedNumber64Length(nonce);
    var size: u8 := a + b + c;
    tmp[0] := MAGIC;
    var n := EncodeListHeader8(size, tmp, 1, 39);
    if n == 0 { return false, []; }
    assert tmp[..n + 1] == [MAGIC] + Header(0xC0, size);
    hashed := tmp[..n + 1];
    ok, hashed := HashRlp64(hashed, chainId, tmp);
    if !ok { return; }
    ok, hashed := HashRlp(hashed, delegate, tmp);
    if !ok { return; }
    ok, hashed := HashRlp64(hashed, nonce, tmp);
  }

  /** Read back by the decoder, what is hashed is a list of three strings: the
      chain and the nonce as big-endian numbers around the delegate. */
  lemma PreimageDecodes(chainId: u64, delegate: Address, nonce: u64)
    ensures Encode(Tuple(chainId, delegate, nonce)).Some?
    ensures var decoded := Decode(Encode(Tuple(chainId, delegate, nonce)).value);
      && decoded.Some? && decoded.value.0.List? && |decoded.value.0.items| == 3
      && var items := decoded.value.0.items;
        && items[0].Str? && BE(items[0].data) == chainId
        && items[1] == Str(delegate)
        && items[2].Str? && BE(items[2].data) == nonce
  {
    hide Minimal, Encode, Decode, BE;
    TupleEncoding(chainId, delegate, nonce);
    var e := Encode(Tuple(chainId, delegate, nonce)).value;
    RoundTrip(Tuple(chainId, delegate, nonce), []);
    assert e + [] == e;
    MinimalValue(chainId);
    MinimalValue(nonce);
  }

  /** A signed authorization determines its chain, its delegate and its nonce. */
  lemma PreimageBinds(c1: u64, d1: Address, n1: u64, c2: u64, d2: Address, n2: u64)
    requires Encode(Tuple(c1, d1, n1)).Some? && Encode(Tuple(c1, d1, n1)) == Encode(Tuple(c2, d2, n2))
    ensures c1 == c2 && d1 == d2 && n1 == n2
  {
    hide Minimal, Encode;
    EncodeInjective(Tuple(c1, d1, n1), Tuple(c2, d2, n2));
    var a, b := Tuple(c1, d1, n1).items, Tuple(c2, d2, n2).items;
    assert a[0] == b[0] && a[1] == b[1] && a[2] == b[2];
    MinimalValue(c1);
    MinimalValue(c2);
    MinimalValue(n1);
    MinimalValue(n2);
  }
}
