/** Visibility constraints of RAW parameters with integer values
    (src/features/generic_tx_parser/gtp_param_raw.c). */
module Visibility {
  import opened Powers
  import opened BigEndian
  import opened Numerals
  import opened UInt128
  import opened UInt256
  import opened Printing
  import opened SignedInt

  datatype Rule = Always | MustBe | IfNotIn

  datatype Family = Uint | Int(typeSize: u8)

  /** A RAW field: its rule, its constraints, and whether a separator precedes
      each value. */
  datatype Field = Field(rule: Rule, constraints: seq<bytes>, family: Family, separated: bool)

  datatype Row = Separator(index: nat) | Text(text: string)

  /** sizeof(strings.tmp.tmp) */
  const BUFFER_SIZE: u32 := 380

  /** The integer a constraint stands for; one of unusable length stands for none. */
  function Meaning(family: Family, data: bytes): Option<int> {
    match family
    case Uint => if 1 <= |data| <= 32 then Some(BE(data)) else None
    case Int(size) => if 1 <= |data| <= size && |data| <= 32 then Some(SignedValue(data, size)) else None
  }

  /** The integer a value stands for; here an unsigned value may be empty. */
  function ValueOf(family: Family, data: bytes): Option<int> {
    match family
    case Uint => if |data| <= 32 then Some(BE(data)) else None
    case Int(_) => Meaning(family, data)
  }

  /** A number is in the constraint set. */
  ghost predicate InSet(f: Field, z: int) {
    exists i :: 0 <= i < |f.constraints| && Meaning(f.family, f.constraints[i]) == Some(z)
  }

  /** A value can be formatted and does not break a MUST_BE rule. */
  ghost predicate Acceptable(f: Field, data: bytes) {
    ValueOf(f.family, data).Some? && (f.rule.MustBe? ==> InSet(f, ValueOf(f.family, data).value))
  }

  ghost predicate Visible(f: Field, z: int) {
    f.rule.Always? || (f.rule.IfNotIn? && !InSet(f, z))
  }

  /** apply_visibility_constraint. */
  function ApplyRule(rule: Rule, matched: bool): (r: (bool, bool)) {
    match rule
    case MustBe => (matched, false)
    case IfNotIn => (true, !matched)
    case Always => (true, true)
  }

  ghost function Display(f: Field, data: bytes): seq<string>
    requires Acceptable(f, data)
  {
    var z := ValueOf(f.family, data).value;
    if Visible(f, z) then [Decimal(z)] else []
  }

  /** The texts shown for values, in order. */
  ghost function Shown(f: Field, values: seq<bytes>): seq<string>
    requires forall i :: 0 <= i < |values| ==> Acceptable(f, values[i])
  {
    if values == [] then []
    else
      var n := |values| - 1;
      Shown(f, values[..n]) + Display(f, values[n])
  }

  function Texts(rows: seq<Row>): seq<string> {
    if rows == [] then []
    else
      var n := |rows| - 1;
      Texts(rows[..n]) + if rows[n].Text? then [rows[n].text] else []
  }

  /* ---- Texts fit their buffer and hold no NUL ---- */

  lemma {:induction false} NumeralLength(n: nat, b: nat)
    requires b >= 1 && n < Pow2(b)
    ensures |Numeral(n, 10)| <= b
    decreases n
  {
    if n >= 10 {
      QuotientShrinks(n, 10);
      assert n / 10 < Pow2(b - 1);
      assert b >= 2;
      NumeralLength(n / 10, b - 1);
    }
  }

  lemma DecimalFits(z: int)
    requires -W256 <= z < W256
    ensures |Decimal(z)| + 1 <= BUFFER_SIZE
  {
    assert Pow2(257) == 2 * Pow2(256);
    hide Numeral, Pow2;
    Pow2Widths();
    NumeralLength(if z >= 0 then z else -z, 257);
  }

  predicate NoNul(s: string) {
    forall i :: 0 <= i < |s| ==> s[i] != '\0'
  }

  lemma DecimalNoNul(z: int)
    ensures NoNul(Decimal(z))
  {
    var n := if z >= 0 then z else -z;
    NumeralDigits(n, 10);
    var s := Numeral(n, 10);
    forall i | 0 <= i < |s| ensures s[i] != '\0' { assert DigitValue(s[i]).Some?; }
  }

  /** A meaning is in the range its text has room for. */
  lemma MeaningFits(family: Family, data: bytes)
    requires ValueOf(family, data).Some?
    ensures |Decimal(ValueOf(family, data).value)| + 1 <= BUFFER_SIZE
  {
    hide BE, Pow256, Numeral, Pow2;
    BEBound(data);
    Pow256Within(|data|);
    DecimalFits(ValueOf(family, data).value);
  }

  lemma Pow256Within(n: nat)
    requires n <= 32
    ensures Pow256(n) <= W256
  {
    hide Pow2, Pow256;
    Pow256IsPow2(n);
    Pow2Monotone(8 * n, 256);
    Pow2Widths();
  }

  /* ---- The code ---- */

  /** A C string in a buffer. */
  ghost predicate Holds(buf: string, text: string) {
    |text| < |buf| && buf[..|text| + 1] == text + ['\0'] && NoNul(text)
  }

  /** strcmp of two buffers, as an equality. */
  method StringsEqual(a: array<char>, b: array<char>, ghost s: string, ghost t: string) returns (r: bool)
    requires Holds(a[..], s) && Holds(b[..], t)
    ensures r <==> s == t
  {
    var i := 0;
    while a[i] == b[i] && a[i] != '\0'
      invariant 0 <= i <= |s| && i <= |t| && s[..i] == t[..i]
      decreases |s| - i
    {
      assert a[i] == (s + ['\0'])[i] && b[i] == (t + ['\0'])[i];
      i := i + 1;
    }
    assert a[i] == (s + ['\0'])[i] && b[i] == (t + ['\0'])[i];
    return a[i] == b[i];
  }

  /** check_uint_constraint. */
  method CheckUint(f: Field, value: U256) returns (matched: bool)
    requires f.family.Uint? && value.Valid()
    ensures matched <==> InSet(f, value.Val())
  {
    hide BE, U256.Val;
    for i := 0 to |f.constraints|
      invariant forall j :: 0 <= j < i ==> Meaning(f.family, f.constraints[j]) != Some(value.Val())
    {
      var constraint := new U256(0);
      var ok := ConvertUint256BE(f.constraints[i], constraint);
      if ok && value.Equals(constraint) { return true; }
    }
    return false;
  }

  /** check_int_constraint: compares decimal strings, which is comparing integers. */
  method CheckInt(f: Field, formatted: array<char>, ghost z: int) returns (matched: bool)
    requires f.family.Int? && Holds(formatted[..], Decimal(z))
    ensures matched <==> InSet(f, z)
  {
    hide BE, Decimal, SignedValue, NoNul;
    var buf := new char[BUFFER_SIZE];
    for i := 0 to |f.constraints|
      invariant forall j :: 0 <= j < i ==> Meaning(f.family, f.constraints[j]) != Some(z)
    {
      var ok := FormatSignedIntBE(f.constraints[i], f.family.typeSize, buf, 0, BUFFER_SIZE);
      ghost var m := Meaning(f.family, f.constraints[i]);
      if m.Some? {
        MeaningFits(f.family, f.constraints[i]);
        DecimalNoNul(m.value);
        DecimalInjective(z, m.value);
        assert buf[..] == buf[0..];
      }
      if ok {
        var same := StringsEqual(formatted, buf, Decimal(z), Decimal(m.value));
        if same { return true; }
      }
    }
    return false;
  }

  /** format_uint: the text is only written for a value that is shown. */
  method FormatUint(f: Field, data: bytes, buf: array<char>) returns (ok: bool, shown: bool)
    requires f.family.Uint? && buf.Length == BUFFER_SIZE
    modifies buf
    ensures ok <==> Acceptable(f, data)
    ensures ok ==> ValueOf(f.family, data).Some? && var z := ValueOf(f.family, data).value;
      (shown <==> Visible(f, z)) && (shown ==> Holds(buf[..], Decimal(z)))
  {
    hide BE, Decimal, NoNul, U256.Val, InSet;
    shown := true;
    var bytes := if data == [] then [0] else data;
    var value := new U256(0);
    ok := ConvertUint256BE(bytes, value);
    if !ok { return; }
    ZeroIsEmpty();
    ghost var z := ValueOf(f.family, data).value;
    assert value.Val() == z;
    var matched := CheckUint(f, value);
    var (accepted, display) := ApplyRule(f.rule, matched);
    ok, shown := accepted, display;
    if ok && shown {
      MeaningFits(f.family, data);
      DecimalNoNul(z);
      ok := Uint256ToDecimal(bytes, buf, 0, BUFFER_SIZE);
      assert buf[0..] == buf[..];
    }
  }

  lemma ZeroIsEmpty()
    ensures BE([0]) == 0 == BE([])
  {
    assert [0][..0] == [];
  }

  /** format_int: the text is written first, and matched as a text. */
  method FormatInt(f: Field, data: bytes, buf: array<char>) returns (ok: bool, shown: bool)
    requires f.family.Int? && buf.Length == BUFFER_SIZE
    modifies buf
    ensures ok <==> Acceptable(f, data)
    ensures ok ==> ValueOf(f.family, data).Some? && var z := ValueOf(f.family, data).value;
      (shown <==> Visible(f, z)) && (shown ==> Holds(buf[..], Decimal(z)))
  {
    hide BE, Decimal, NoNul, InSet, SignedValue;
    shown := true;
    ok := FormatSignedIntBE(data, f.family.typeSize, buf, 0, BUFFER_SIZE);
    ghost var m := ValueOf(f.family, data);
    if m.Some? {
      MeaningFits(f.family, data);
      DecimalNoNul(m.value);
      assert buf[0..] == buf[..];
    }
    if !ok { return; }
    var matched := CheckInt(f, buf, m.value);
    var (accepted, display) := ApplyRule(f.rule, matched);
    ok, shown := accepted, display;
  }

  /** One turn of format_param_raw; `full` tells that the field table refused a row. */
  method FormatOne(f: Field, data: bytes, index: nat, buf: array<char>) returns (ok: bool, rows: seq<Row>, full: bool)
    requires buf.Length == BUFFER_SIZE
    modifies buf
    ensures full ==> !ok
    ensures !full ==> (ok <==> Acceptable(f, data))
    ensures ok ==> Acceptable(f, data) && Texts(rows) == Display(f, data)
    ensures ok ==> rows == (if f.separated && rows != [] then [Separator(index)] else []) + rows[|rows| - |Texts(rows)|..]
  {
    hide Decimal, InSet, ValueOf, NoNul;
    var shown;
    rows, full := [], false;
    if f.family.Uint? {
      ok, shown := FormatUint(f, data, buf);
    } else {
      ok, shown := FormatInt(f, data, buf);
    }
    if !ok || !shown { return; }
    if f.separated {
      full := *;
      if full { return false, [], true; }
      rows := [Separator(index)];
    }
    full := *;
    if full { return false, [], true; }
    var text := CString(buf, Decimal(ValueOf(f.family, data).value));
    TextsSnoc([], Separator(index));
    TextsSnoc(rows, Text(text));
    rows := rows + [Text(text)];
  }

  /** format_param_raw on integer values: unless the table is full it succeeds
      exactly when every value is acceptable, and the texts it adds are those of
      the visible values, in order. */
  method FormatParamRaw(f: Field, values: seq<bytes>) returns (ok: bool, rows: seq<Row>, full: bool)
    ensures full ==> !ok
    ensures !full ==> (ok <==> forall i :: 0 <= i < |values| ==> Acceptable(f, values[i]))
    ensures ok ==> Texts(rows) == Shown(f, values)
  {
    hide Decimal, Acceptable, Display;
    ok, rows, full := true, [], false;
    var buf := new char[BUFFER_SIZE];
    var i := 0;
    while i < |values| && ok
      invariant 0 <= i <= |values|
      invariant full ==> !ok
      invariant ok ==> forall j :: 0 <= j < i ==> Acceptable(f, values[j])
      invariant !ok && !full ==> exists j :: 0 <= j < |values| && !Acceptable(f, values[j])
      invariant ok ==> Texts(rows) == Shown(f, values[..i])
      decreases |values| - i
    {
      var more;
      ok, more, full := FormatOne(f, values[i], i + 1, buf);
      if ok {
        TextsConcat(rows, more);
        ShownSnoc(f, values, i);
      }
      rows := rows + more;
      i := i + 1;
    }
    assert values[..|values|] == values;
  }

  /** The string a buffer holds. */
  method CString(buf: array<char>, ghost text: string) returns (s: string)
    requires Holds(buf[..], text)
    ensures s == text
  {
    var i := 0;
    while buf[i] != '\0'
      invariant 0 <= i <= |text|
      decreases |text| - i
    {
      assert buf[i] == (text + ['\0'])[i];
      i := i + 1;
    }
    assert buf[i] == (text + ['\0'])[i];
    assert buf[..i] == buf[..][..|text| + 1][..i];
    return buf[..i];
  }

  lemma TextsSnoc(rows: seq<Row>, r: Row)
    ensures Texts(rows + [r]) == Texts(rows) + if r.Text? then [r.text] else []
  {
    assert (rows + [r])[..|rows|] == rows;
  }

  lemma {:induction false} TextsConcat(a: seq<Row>, b: seq<Row>)
    ensures Texts(a + b) == Texts(a) + Texts(b)
  {
    if b == [] {
      assert a + b == a;
    } else {
      var n := |b| - 1;
      TextsConcat(a, b[..n]);
      TextsSnoc(a + b[..n], b[n]);
      assert a + b == (a + b[..n]) + [b[n]];
    }
  }

  lemma ShownSnoc(f: Field, values: seq<bytes>, i: nat)
    requires i < |values| && forall j :: 0 <= j < i + 1 ==> Acceptable(f, values[j])
    ensures Acceptable(f, values[i]) && Shown(f, values[..i + 1]) == Shown(f, values[..i]) + Display(f, values[i])
  {
    assert values[..i + 1][..i] == values[..i];
  }

  /* ---- What the three rules come to ---- */

  /** The numbers of values. */
  ghost function Numbers(f: Field, values: seq<bytes>): (r: seq<int>)
    requires forall i :: 0 <= i < |values| ==> Acceptable(f, values[i])
    ensures |r| == |values|
  {
    seq(|values|, i requires 0 <= i < |values| => assert Acceptable(f, values[i]); ValueOf(f.family, values[i]).value)
  }

  ghost function Filter(f: Field, zs: seq<int>): seq<int> {
    if zs == [] then []
    else Filter(f, zs[..|zs| - 1]) + if InSet(f, zs[|zs| - 1]) then [] else [zs[|zs| - 1]]
  }

  ghost function Decimals(zs: seq<int>): (r: seq<string>)
    ensures |r| == |zs|
  {
    seq(|zs|, i requires 0 <= i < |zs| => Decimal(zs[i]))
  }

  /** ALWAYS shows every number; IF_NOT_IN exactly those outside the set, in
      order; MUST_BE shows nothing, every number being in the set. */
  lemma {:induction false} RulesAreFilters(f: Field, values: seq<bytes>)
    requires forall i :: 0 <= i < |values| ==> Acceptable(f, values[i])
    ensures f.rule.Always? ==> Shown(f, values) == Decimals(Numbers(f, values))
    ensures f.rule.IfNotIn? ==> Shown(f, values) == Decimals(Filter(f, Numbers(f, values)))
    ensures f.rule.MustBe? ==> Shown(f, values) == [] && forall i :: 0 <= i < |values| ==> InSet(f, Numbers(f, values)[i])
  {
    hide InSet, Decimal, ValueOf;
    if values != [] {
      var n := |values| - 1;
      RulesAreFilters(f, values[..n]);
      var zs := Numbers(f, values);
      assert Numbers(f, values[..n]) == zs[..n];
      assert Acceptable(f, values[n]) && zs[n] == ValueOf(f.family, values[n]).value;
      assert Decimals(zs) == Decimals(zs[..n]) + [Decimal(zs[n])];
      var kept := Filter(f, zs[..n]);
      assert Decimals(kept + [zs[n]]) == Decimals(kept) + [Decimal(zs[n])];
      assert kept + [] == kept;
      if f.rule.MustBe? {
        forall i | 0 <= i < |values| ensures InSet(f, zs[i]) { assert Acceptable(f, values[i]); }
      }
    }
  }
}
