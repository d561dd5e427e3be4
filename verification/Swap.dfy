/** How a swap binds the value of a transaction to the amount validated in the
    Exchange application (src/swap). */
module Swap {
  import opened Powers
  import opened BigEndian
  import opened Numerals

  const WORD: nat := 32

  /** amountToString: bytes, decimals and a ticker to a text, if it fits. */
  type Formatter = (bytes, nat, string) -> Option<string>

  /** What Exchange passes on, and what its configuration says of the assets. */
  datatype Params = Params(amount: bytes, crosschain: bool, hasToken: bool,
                           decimals: nat, ticker: string, feeDecimals: nat, nativeTicker: string)

  datatype ValueCheck = CheckAmount | CheckZero

  /** What tells one asset from another. */
  datatype Asset = Asset(hasToken: bool, decimals: nat, ticker: string)

  function SwappedAsset(p: Params): Asset {
    Asset(p.hasToken, p.decimals, p.ticker)
  }

  /** The currency of the network: no token, the decimals and ticker of fees. */
  function NativeAsset(p: Params): Asset {
    Asset(false, p.feeDecimals, p.nativeTicker)
  }

  /** A crosschain swap whose asset is not the native currency. */
  predicate SpendsToken(p: Params) {
    p.crosschain && SwappedAsset(p) != NativeAsset(p)
  }

  /** The text a staged swap expects: no native value for a token, else the amount. */
  function ExpectedText(p: Params, format: Formatter): Option<string> {
    if SpendsToken(p) then format([0], p.feeDecimals, p.nativeTicker) else format(p.amount, p.decimals, p.ticker)
  }

  /** allzeroes */
  method AllZeroes(data: bytes) returns (r: bool)
    ensures r <==> BE(data) == 0
  {
    BEZeroIff(data);
    hide BE;
    for i := 0 to |data|
      invariant forall j :: 0 <= j < i ==> data[j] == 0
    {
      if data[i] != 0 { return false; }
    }
    return true;
  }

  /** Right-aligns bytes in a zeroed word. */
  method Align(data: bytes) returns (word: array<u8>)
    requires |data| <= WORD
    ensures fresh(word) && word.Length == WORD && BE(word[..]) == BE(data)
  {
    word := new u8[WORD](i => 0);
    forall i | 0 <= i < |data| { word[WORD - |data| + i] := data[i]; }
    assert word[..] == Fill(WORD - |data|, 0) + data;
    ZeroExtend(WORD - |data|, data);
  }

  /** memcmp of two words, as an equality; equal bytes are equal numbers. */
  method SameWord(a: array<u8>, b: array<u8>) returns (r: bool)
    requires a.Length == b.Length
    ensures r <==> BE(a[..]) == BE(b[..])
  {
    hide BE;
    r := true;
    for i := 0 to a.Length
      invariant r <==> a[..i] == b[..i]
    {
      assert a[..i + 1] == a[..i] + [a[i]] && b[..i + 1] == b[..i] + [b[i]];
      if a[i] != b[i] { r := false; }
    }
    assert a[..a.Length] == a[..] && b[..b.Length] == b[..];
    if BE(a[..]) == BE(b[..]) { BEInjective(a[..], b[..]); }
  }

  /** The globals a swap leaves for the signature. */
  class Expectation {
    var check: ValueCheck
    var value: array<u8>
    var fullAmount: string

    constructor ()
      ensures fresh(value)
    {
      check, fullAmount := CheckAmount, "";
      value := new u8[WORD](i => 0);
    }

    /** These globals are those of a staged swap. */
    ghost predicate StagedFor(p: Params, format: Formatter)
      reads this, value
    {
      && value.Length == WORD && BE(value[..]) == BE(p.amount)
      && (check.CheckZero? <==> SpendsToken(p))
      && Some(fullAmount) == ExpectedText(p, format)
    }

    /** copy_transaction_parameters, as far as the value goes. */
    method Stage(p: Params, format: Formatter) returns (ok: bool)
      modifies this
      ensures ok <==> |p.amount| <= WORD && ExpectedText(p, format).Some?
      ensures ok ==> StagedFor(p, format) && fresh(value)
      ensures !ok ==> unchanged(this)
    {
      if |p.amount| > WORD { return false; }
      var mode := CheckAmount;
      var text: Option<string>;
      if p.crosschain && (p.hasToken || p.decimals != p.feeDecimals || p.nativeTicker != p.ticker) {
        mode := CheckZero;
        text := format([0], p.feeDecimals, p.nativeTicker);
      } else {
        text := format(p.amount, p.decimals, p.ticker);
      }
      if text.None? { return false; }
      var word := Align(p.amount);
      check, value, fullAmount := mode, word, text.value;
      return true;
    }

    /** swap_check_value: whether the signature goes on; otherwise the application
        exits. For values and amounts of any length, the comparison is of the
        numbers; a token swap must carry none. */
    method CheckValue(formatted: string, raw: bytes, ghost p: Params, ghost format: Formatter) returns (goesOn: bool)
      requires StagedFor(p, format)
      ensures goesOn <==>
        && |raw| <= WORD
        && if SpendsToken(p) then BE(raw) == 0
           else BE(raw) == BE(p.amount) && format(p.amount, p.decimals, p.ticker) == Some(formatted)
    {
      if |raw| > WORD { return false; }
      var zero := AllZeroes(raw);
      var observed := Align(raw);
      match check {
        case CheckZero => return zero;
        case CheckAmount =>
          var same := SameWord(observed, value);
          if !same { return false; }
          return fullAmount == formatted;
      }
    }
  }
}
