/** The Solidity contract ABI encoding of a value ("Formal Specification of the
    Encoding" in the Contract ABI Specification), and the data path that reads a
    selected part of it back. */
module Abi {
  import opened Powers
  import opened BigEndian
  import opened Numerals
  import opened Calldata
  import opened PathSemantics
  import opened NestedLoops

  /** Types by the shape of their encoding.  Every one-word static type is a
      word; bytes and string are byte strings; T[k] is encoded as a tuple. */
  datatype Ty = TWord | TBytes | TTuple(fields: seq<Ty>) | TArray(elem: Ty)

  datatype Val = VWord(word: Word) | VBytes(data: bytes) | VTuple(items: seq<Val>) | VArray(elems: seq<Val>)

  ghost predicate HasType(v: Val, t: Ty)
    decreases v
  {
    match v
    case VWord(_) => t.TWord?
    case VBytes(_) => t.TBytes?
    case VTuple(items) =>
      t.TTuple? && |items| == |t.fields| && forall i :: 0 <= i < |items| ==> HasType(items[i], t.fields[i])
    case VArray(elems) => t.TArray? && forall i :: 0 <= i < |elems| ==> HasType(elems[i], t.elem)
  }

  predicate Dynamic(t: Ty)
    decreases t, 1
  {
    match t
    case TWord => false
    case TBytes => true
    case TArray(_) => true
    case TTuple(ts) => AnyDynamic(ts)
  }

  predicate AnyDynamic(ts: seq<Ty>)
    decreases ts, 0
  {
    ts != [] && (Dynamic(ts[0]) || AnyDynamic(ts[1..]))
  }

  /** The words a component takes in the head of its parent. */
  function HeadWords(t: Ty): nat
    decreases t, 1
  {
    match t
    case TTuple(ts) => if Dynamic(t) then 1 else Heads(ts)
    case _ => 1
  }

  function Heads(ts: seq<Ty>): nat
    decreases ts, 0
  {
    if ts == [] then 0 else HeadWords(ts[0]) + Heads(ts[1..])
  }

  /** n as a big-endian byte string of a given length. */
  function ToBE(n: nat, len: nat): (s: bytes)
    ensures |s| == len
  {
    if len == 0 then [] else ToBE(n / 0x100, len - 1) + [n % 0x100]
  }

  function Num(n: nat): Word {
    ToBE(n, CHUNK_SIZE)
  }

  /** Bytes padded with zeros on the right to whole words. */
  function Pad(data: bytes): seq<Word> {
    if data == [] then []
    else if |data| <= CHUNK_SIZE then [data + Fill(CHUNK_SIZE - |data|, 0)]
    else [data[..CHUNK_SIZE]] + Pad(data[CHUNK_SIZE..])
  }

  function Rep(t: Ty, n: nat): (ts: seq<Ty>)
    ensures |ts| == n && forall i :: 0 <= i < n ==> ts[i] == t
  {
    seq(n, _ => t)
  }

  ghost predicate HaveTypes(vs: seq<Val>, ts: seq<Ty>) {
    |vs| == |ts| && forall i :: 0 <= i < |vs| ==> HasType(vs[i], ts[i])
  }

  /** enc(v). */
  ghost function Enc(v: Val, t: Ty): seq<Word>
    requires HasType(v, t)
    decreases v, 1
  {
    match v
    case VWord(w) => [w]
    case VBytes(data) => [Num(|data|)] + Pad(data)
    case VTuple(items) => EncSeq(items, t.fields)
    case VArray(elems) => [Num(|elems|)] + EncSeq(elems, Rep(t.elem, |elems|))
  }

  /** head(v0) ... head(vn) tail(v0) ... tail(vn). */
  ghost function EncSeq(vs: seq<Val>, ts: seq<Ty>): seq<Word>
    requires HaveTypes(vs, ts)
    decreases vs, 1
  {
    HeadPart(vs, ts, Heads(ts)) + TailPart(vs, ts)
  }

  /** The heads, when the next tail goes to word pos. */
  ghost function HeadPart(vs: seq<Val>, ts: seq<Ty>, pos: nat): seq<Word>
    requires HaveTypes(vs, ts)
    decreases vs, 0
  {
    if vs == [] then []
    else if Dynamic(ts[0]) then [Num(CHUNK_SIZE * pos)] + HeadPart(vs[1..], ts[1..], pos + |Enc(vs[0], ts[0])|)
    else Enc(vs[0], ts[0]) + HeadPart(vs[1..], ts[1..], pos)
  }

  ghost function TailPart(vs: seq<Val>, ts: seq<Ty>): seq<Word>
    requires HaveTypes(vs, ts)
    decreases vs, 0
  {
    if vs == [] then []
    else (if Dynamic(ts[0]) then Enc(vs[0], ts[0]) else []) + TailPart(vs[1..], ts[1..])
  }

  /** A part of a value: this leaf, sliced any number of times, a field of a
      tuple, or the elements of an array between two bounds. */
  datatype Sel = Here(cuts: seq<Bounds>) | Field(i: nat, rest: Sel) | Each(bounds: Bounds, rest: Sel)

  /** The bytes that bounds select, one by one. */
  function Sliced(data: bytes, b: Bounds): (r: Option<bytes>) {
    match Select(b, |data|)
    case None => None
    case Some((lo, hi)) => Some(seq(hi - lo, i requires 0 <= i < hi - lo => data[lo + i]))
  }

  function SlicedAll(data: bytes, cuts: seq<Bounds>): Option<bytes>
    decreases |cuts|
  {
    if cuts == [] then Some(data)
    else
      match Sliced(data, cuts[0])
      case None => None
      case Some(d) => SlicedAll(d, cuts[1..])
  }

  /** The leaves a selection picks, in order. */
  function Pick(v: Val, sel: Sel): Option<seq<bytes>>
    decreases sel, 0, 0
  {
    match sel
    case Here(cuts) =>
      (match LeafOf(v)
       case None => None
       case Some(data) => OneValue(SlicedAll(data, cuts)))
    case Field(i, rest) => if v.VTuple? && i < |v.items| then Pick(v.items[i], rest) else None
    case Each(bounds, rest) =>
      if !v.VArray? then None else
      (match Select(bounds, |v.elems|)
       case None => None
       case Some((lo, hi)) => PickAll(v.elems[lo..hi], rest))
  }

  function LeafOf(v: Val): Option<bytes> {
    match v
    case VWord(w) => Some(w)
    case VBytes(data) => Some(data)
    case _ => None
  }

  function OneValue(data: Option<bytes>): Option<seq<bytes>> {
    if data.Some? then Some([data.value]) else None
  }

  function PickAll(vs: seq<Val>, sel: Sel): Option<seq<bytes>>
    decreases sel, 1, |vs|
  {
    if vs == [] then Some([]) else Cat(Pick(vs[0], sel), PickAll(vs[1..], sel))
  }

  function Slices(cuts: seq<Bounds>): (path: Path)
    ensures |path| == |cuts| && forall i :: 0 <= i < |cuts| ==> path[i] == Slice(cuts[i])
  {
    seq(|cuts|, i requires 0 <= i < |cuts| => Slice(cuts[i]))
  }

  function Deref(t: Ty): Path {
    if Dynamic(t) then [Ref] else []
  }

  /** The path that reads a selection, if its offsets and weights are
      representable in the elements of a path. */
  function Compile(t: Ty, sel: Sel): Option<Path>
    decreases sel
  {
    match sel
    case Here(cuts) =>
      (match t
       case TWord => Some([Leaf(LeafStatic)] + Slices(cuts))
       case TBytes => Some([Leaf(LeafDynamic)] + Slices(cuts))
       case _ => None)
    case Field(i, rest) =>
      if !t.TTuple? || i >= |t.fields| || Heads(t.fields[..i]) >= 0x1_0000 then None
      else Cat(Some([Tuple(Heads(t.fields[..i]))] + Deref(t.fields[i])), Compile(t.fields[i], rest))
    case Each(bounds, rest) =>
      if !t.TArray? || !(0 < HeadWords(t.elem) < 0x100) then None
      else Cat(Some([Array(HeadWords(t.elem), bounds)] + Deref(t.elem)), Compile(t.elem, rest))
  }

  function EachDepth(sel: Sel): nat {
    match sel
    case Here(_) => 0
    case Field(_, rest) => EachDepth(rest)
    case Each(_, rest) => 1 + EachDepth(rest)
  }

  /* ---- Words and places ---- */

  /** The words ws stand at word p. */
  ghost predicate At(mem: seq<Word>, p: nat, ws: seq<Word>) {
    p + |ws| <= |mem| && mem[p..p + |ws|] == ws
  }

  lemma AtSplit(mem: seq<Word>, p: nat, a: seq<Word>, b: seq<Word>)
    requires At(mem, p, a + b)
    ensures At(mem, p, a) && At(mem, p + |a|, b)
  {
    var c := a + b;
    assert mem[p..p + |a|] == mem[p..p + |c|][..|a|] == c[..|a|] == a;
    assert mem[p + |a|..p + |c|] == mem[p..p + |c|][|a|..] == c[|a|..] == b;
  }

  lemma {:induction false} ToBEZero(len: nat)
    ensures ToBE(0, len) == Fill(len, 0)
  {
    if len > 0 {
      ToBEZero(len - 1);
      assert Fill(len, 0) == Fill(len - 1, 0) + [0];
    }
  }

  /** A 16-bit number survives its 32-byte encoding. */
  lemma SmallNum(n: nat)
    requires n < 0x1_0000
    ensures Small(Num(n)) == Some(n)
  {
    ToBEZero(30);
    var hi := n / 0x100;
    assert ToBE(n, 32) == ToBE(hi, 31) + [n % 0x100];
    assert ToBE(hi, 31) == ToBE(hi / 0x100, 30) + [hi % 0x100];
    var w := Num(n);
    assert w[..30] == ToBE(0, 30);
  }

  lemma {:induction false} PadSize(data: bytes)
    ensures |data| <= CHUNK_SIZE * |Pad(data)|
  {
    if |data| > CHUNK_SIZE { PadSize(data[CHUNK_SIZE..]); }
  }

  lemma {:induction false} ReadPadded(mem: seq<Word>, p: nat, data: bytes)
    requires At(mem, p, Pad(data))
    ensures ReadBytes(mem, p, |data|) == Some(data)
    decreases |data|
  {
    if data == [] {
    } else if |data| <= CHUNK_SIZE {
      assert mem[p] == mem[p..p + 1][0] == data + Fill(CHUNK_SIZE - |data|, 0);
      assert mem[p][..|data|] == data;
    } else {
      AtSplit(mem, p, [data[..CHUNK_SIZE]], Pad(data[CHUNK_SIZE..]));
      ReadPadded(mem, p + 1, data[CHUNK_SIZE..]);
      assert mem[p] == mem[p..p + 1][0] == data[..CHUNK_SIZE];
      assert data == data[..CHUNK_SIZE] + data[CHUNK_SIZE..];
    }
  }

  /* ---- The layout of an encoding ---- */

  lemma {:induction false} StaticSize(v: Val, t: Ty)
    requires HasType(v, t) && !Dynamic(t)
    ensures |Enc(v, t)| == HeadWords(t)
    decreases v, 1
  {
    match v
    case VWord(_) =>
    case VBytes(_) =>
    case VArray(_) =>
    case VTuple(items) =>
      StaticSizes(items, t.fields);
      HeadSize(items, t.fields, Heads(t.fields));
  }

  lemma {:induction false} StaticSizes(vs: seq<Val>, ts: seq<Ty>)
    requires HaveTypes(vs, ts) && !AnyDynamic(ts)
    ensures TailPart(vs, ts) == []
    decreases vs, 2
  {
    if vs != [] { StaticSizes(vs[1..], ts[1..]); }
  }

  lemma {:induction false} HeadSize(vs: seq<Val>, ts: seq<Ty>, pos: nat)
    requires HaveTypes(vs, ts)
    ensures |HeadPart(vs, ts, pos)| == Heads(ts)
    decreases vs, 0
  {
    if vs != [] {
      if Dynamic(ts[0]) {
        HeadSize(vs[1..], ts[1..], pos + |Enc(vs[0], ts[0])|);
        DynamicHead(ts[0]);
      } else {
        StaticSize(vs[0], ts[0]);
        HeadSize(vs[1..], ts[1..], pos);
      }
    }
  }

  lemma DynamicHead(t: Ty)
    requires Dynamic(t)
    ensures HeadWords(t) == 1
  {
  }

  /** The words of the dynamic components before the i-th. */
  ghost function TailLength(vs: seq<Val>, ts: seq<Ty>, i: nat): nat
    requires HaveTypes(vs, ts) && i <= |vs|
  {
    if i == 0 then 0
    else (if Dynamic(ts[0]) then |Enc(vs[0], ts[0])| else 0) + TailLength(vs[1..], ts[1..], i - 1)
  }

  /** The head of the i-th component, where a parent places it. */
  lemma {:induction false} HeadAt(mem: seq<Word>, q: nat, vs: seq<Val>, ts: seq<Ty>, pos: nat, i: nat)
    requires HaveTypes(vs, ts) && i < |vs| && At(mem, q, HeadPart(vs, ts, pos))
    ensures At(mem, q + Heads(ts[..i]),
               if Dynamic(ts[i]) then [Num(CHUNK_SIZE * (pos + TailLength(vs, ts, i)))] else Enc(vs[i], ts[i]))
    decreases i
  {
    hide At, Enc, HasType, Dynamic, HeadWords, Num;
    var first := if Dynamic(ts[0]) then [Num(CHUNK_SIZE * pos)] else Enc(vs[0], ts[0]);
    var pos' := if Dynamic(ts[0]) then pos + |Enc(vs[0], ts[0])| else pos;
    assert HeadPart(vs, ts, pos) == first + HeadPart(vs[1..], ts[1..], pos');
    HeadsStep(ts, i);
    hide HeadPart, Heads;
    AtSplit(mem, q, first, HeadPart(vs[1..], ts[1..], pos'));
    if i > 0 {
      assert |first| == HeadWords(ts[0]) by {
        if Dynamic(ts[0]) { DynamicHead(ts[0]); } else { StaticSize(vs[0], ts[0]); }
      }
      HeadAt(mem, q + |first|, vs[1..], ts[1..], pos', i - 1);
    }
  }

  lemma HeadsStep(ts: seq<Ty>, i: nat)
    requires i < |ts|
    ensures Heads(ts[..i]) == if i == 0 then 0 else HeadWords(ts[0]) + Heads(ts[1..][..i - 1])
  {
    hide HeadWords;
    if i > 0 { assert ts[..i][1..] == ts[1..][..i - 1]; }
  }

  lemma {:induction false} TailAt(mem: seq<Word>, q: nat, vs: seq<Val>, ts: seq<Ty>, i: nat)
    requires HaveTypes(vs, ts) && i < |vs| && Dynamic(ts[i]) && At(mem, q, TailPart(vs, ts))
    ensures At(mem, q + TailLength(vs, ts, i), Enc(vs[i], ts[i]))
    decreases i
  {
    hide At, Enc, HasType, Dynamic;
    var first := if Dynamic(ts[0]) then Enc(vs[0], ts[0]) else [];
    AtSplit(mem, q, first, TailPart(vs[1..], ts[1..]));
    if i > 0 {
      TailAt(mem, q + |first|, vs[1..], ts[1..], i - 1);
    }
  }

  /** Following a component from its parent: inline if static, else through the
      offset in its head, counted from the parent. */
  lemma ComponentAt(mem: seq<Word>, q: nat, vs: seq<Val>, ts: seq<Ty>, i: nat) returns (at: nat)
    requires HaveTypes(vs, ts) && i < |vs| && At(mem, q, EncSeq(vs, ts))
    ensures At(mem, at, Enc(vs[i], ts[i]))
    ensures !Dynamic(ts[i]) ==> at == q + Heads(ts[..i])
    ensures Dynamic(ts[i]) ==> at >= q && At(mem, q + Heads(ts[..i]), [Num(CHUNK_SIZE * (at - q))])
  {
    hide Enc, HasType, Dynamic, HeadWords, Heads, HeadPart, TailPart, At;
    AtSplit(mem, q, HeadPart(vs, ts, Heads(ts)), TailPart(vs, ts));
    HeadSize(vs, ts, Heads(ts));
    HeadAt(mem, q, vs, ts, Heads(ts), i);
    if Dynamic(ts[i]) {
      TailAt(mem, q + Heads(ts), vs, ts, i);
      at := q + Heads(ts) + TailLength(vs, ts, i);
    } else {
      at := q + Heads(ts[..i]);
    }
  }

  lemma DynamicNonEmpty(v: Val, t: Ty)
    requires HasType(v, t) && Dynamic(t)
    ensures |Enc(v, t)| >= 1
  {
    if v.VTuple? {
      HeadSize(v.items, t.fields, Heads(t.fields));
      DynamicHeads(t.fields);
    }
  }

  lemma {:induction false} DynamicHeads(ts: seq<Ty>)
    requires AnyDynamic(ts)
    ensures Heads(ts) >= 1
  {
    if Dynamic(ts[0]) { DynamicHead(ts[0]); } else { DynamicHeads(ts[1..]); }
  }

  lemma {:induction false} RepHeads(t: Ty, n: nat, i: nat)
    requires i <= n
    ensures Heads(Rep(t, n)[..i]) == i * HeadWords(t)
  {
    if i == 0 {
      assert Rep(t, n)[..0] == [];
    } else {
      RepHeads(t, n - 1, i - 1);
      assert Rep(t, n)[..i][1..] == Rep(t, n - 1)[..i - 1];
    }
  }

  /* ---- The path reads the selection ---- */

  /** Calldata below 2^16 bytes. */
  const MAX_WORDS: nat := 2047

  lemma ReadNum(mem: seq<Word>, p: nat, n: nat)
    requires At(mem, p, [Num(n)]) && n < 0x1_0000
    ensures ReadSmall(mem, p) == Some(n)
  {
    assert mem[p] == mem[p..p + 1][0];
    SmallNum(n);
  }

  /** The Ref element, when there is one, leads to the component. */
  lemma DerefReaches(mem: seq<Word>, q: nat, vs: seq<Val>, ts: seq<Ty>, i: nat, rest: Path, depth: nat, coll: seq<bytes>)
      returns (at: nat, ref: nat)
    requires HaveTypes(vs, ts) && i < |vs| && At(mem, q, EncSeq(vs, ts)) && |mem| <= MAX_WORDS
    ensures At(mem, at, Enc(vs[i], ts[i]))
    ensures Nested(mem, Deref(ts[i]) + rest, Cursor(q + Heads(ts[..i]), q), depth, coll)
         == Nested(mem, rest, Cursor(at, ref), depth, coll)
  {
    hide EncSeq, HasType, Small, Num, Enc;
    at := ComponentAt(mem, q, vs, ts, i);
    ref := q;
    if Dynamic(ts[i]) {
      DynamicNonEmpty(vs[i], ts[i]);
      ReadNum(mem, q + Heads(ts[..i]), CHUNK_SIZE * (at - q));
      assert (CHUNK_SIZE * (at - q)) / CHUNK_SIZE == at - q && (CHUNK_SIZE * (at - q)) % CHUNK_SIZE == 0;
      assert ([Ref] + rest)[1..] == rest;
    } else {
      assert [] + rest == rest;
    }
  }

  /** Picked leaves join the collection while it has room. */
  function Limit(coll: seq<bytes>, picked: Option<seq<bytes>>): Option<seq<bytes>> {
    if picked.Some? && |coll| + |picked.value| <= MAX_COLLECTION then Some(coll + picked.value) else None
  }

  lemma {:induction false} PickNonEmpty(v: Val, sel: Sel)
    requires Pick(v, sel).Some?
    ensures |Pick(v, sel).value| >= 1
    decreases sel, 0, 0
  {
    match sel
    case Here(_) =>
    case Field(i, rest) => PickNonEmpty(v.items[i], rest);
    case Each(bounds, rest) =>
      var (lo, hi) := Select(bounds, |v.elems|).value;
      PickAllAtLeast(v.elems[lo..hi], rest);
  }

  lemma {:induction false} PickAllAtLeast(vs: seq<Val>, sel: Sel)
    requires PickAll(vs, sel).Some?
    ensures |PickAll(vs, sel).value| >= |vs|
    decreases sel, 1, |vs|
  {
    if vs != [] {
      PickNonEmpty(vs[0], sel);
      PickAllAtLeast(vs[1..], sel);
    }
  }

  /** The compiled path, run as nested loops where the encoding of v stands,
      collects what the selection picks from v. */
  lemma {:induction false} ReadsBack(mem: seq<Word>, p: nat, r: nat, v: Val, t: Ty, sel: Sel, depth: nat, coll: seq<bytes>)
    requires HasType(v, t) && At(mem, p, Enc(v, t)) && |mem| <= MAX_WORDS
    requires Compile(t, sel).Some? && depth + EachDepth(sel) <= MAX_ARRAYS && |coll| <= MAX_COLLECTION
    ensures Nested(mem, Compile(t, sel).value, Cursor(p, r), depth, coll) == Limit(coll, Pick(v, sel))
    decreases sel, 2, 0
  {
    hide Enc, EncSeq, At, HasType, HeadWords, Heads, Dynamic, Select;
    match sel
    case Here(cuts) => ReadsLeaf(mem, p, r, v, t, cuts, depth, coll);
    case Field(i, rest) =>
      var h := Heads(t.fields[..i]);
      var inner := Compile(t.fields[i], rest).value;
      var path := [Tuple(h)] + Deref(t.fields[i]) + inner;
      assert Compile(t, sel) == Some(path);
      assert path[1..] == Deref(t.fields[i]) + inner;
      TupleLayout(mem, p, v, t);
      var at, ref := DerefReaches(mem, p, v.items, t.fields, i, inner, depth, coll);
      ReadsBack(mem, at, ref, v.items[i], t.fields[i], rest, depth, coll);
    case Each(bounds, rest) =>
      ReadsArray(mem, p, r, v, t, bounds, rest, depth, coll);
  }

  lemma TupleLayout(mem: seq<Word>, p: nat, v: Val, t: Ty)
    requires HasType(v, t) && t.TTuple? && At(mem, p, Enc(v, t))
    ensures v.VTuple? && HaveTypes(v.items, t.fields) && At(mem, p, EncSeq(v.items, t.fields))
  {
  }

  lemma ArrayLayout(mem: seq<Word>, p: nat, v: Val, t: Ty)
    requires HasType(v, t) && t.TArray? && At(mem, p, Enc(v, t))
    requires HeadWords(t.elem) >= 1 && |mem| <= MAX_WORDS
    ensures v.VArray? && HaveTypes(v.elems, Rep(t.elem, |v.elems|))
    ensures ReadSmall(mem, p) == Some(|v.elems|)
    ensures At(mem, p + 1, EncSeq(v.elems, Rep(t.elem, |v.elems|)))
  {
    var n, ts := |v.elems|, Rep(t.elem, |v.elems|);
    AtSplit(mem, p, [Num(n)], EncSeq(v.elems, ts));
    hide EncSeq, At, Num, Enc;
    ArrayCount(mem, p + 1, v.elems, t.elem);
    ReadNum(mem, p, n);
  }

  /** Slices after a leaf cut the value just collected and no other. */
  lemma {:induction false} ReadsSlices(mem: seq<Word>, cur: Cursor, cuts: seq<Bounds>, depth: nat, coll: seq<bytes>, data: bytes)
    ensures Nested(mem, Slices(cuts), cur, depth, coll + [data]) ==
      match SlicedAll(data, cuts) {
        case None => None
        case Some(d) => Some(coll + [d])
      }
    decreases |cuts|
  {
    if cuts != [] {
      var all := coll + [data];
      assert Slices(cuts)[1..] == Slices(cuts[1..]);
      assert all[|all| - 1] == data && all[..|all| - 1] == coll;
      match Select(cuts[0], |data|)
      case None =>
      case Some((lo, hi)) =>
        SlicedIs(data, cuts[0]);
        ReadsSlices(mem, cur, cuts[1..], depth, coll, data[lo..hi]);
    }
  }

  /** A leaf and its slices, where the leaf's bytes can be read. */
  lemma ReadsSliced(mem: seq<Word>, cur: Cursor, kind: LeafKind, cuts: seq<Bounds>, depth: nat, coll: seq<bytes>, data: bytes)
    requires |coll| <= MAX_COLLECTION && LeafBytes(mem, kind, cur.off) == Some(data) && Move(mem, Leaf(kind), cur).Some?
    ensures Nested(mem, [Leaf(kind)] + Slices(cuts), cur, depth, coll) == Limit(coll, OneValue(SlicedAll(data, cuts)))
  {
    hide LeafBytes, SlicedAll;
    var path := [Leaf(kind)] + Slices(cuts);
    assert path[0] == Leaf(kind) && path[1..] == Slices(cuts);
    if |coll| < MAX_COLLECTION {
      ReadsSlices(mem, Move(mem, Leaf(kind), cur).value, cuts, depth, coll, data);
    }
  }

  lemma ReadsLeaf(mem: seq<Word>, p: nat, r: nat, v: Val, t: Ty, cuts: seq<Bounds>, depth: nat, coll: seq<bytes>)
    requires HasType(v, t) && At(mem, p, Enc(v, t)) && |mem| <= MAX_WORDS
    requires Compile(t, Here(cuts)).Some? && |coll| <= MAX_COLLECTION
    ensures Nested(mem, Compile(t, Here(cuts)).value, Cursor(p, r), depth, coll) == Limit(coll, Pick(v, Here(cuts)))
  {
    hide Nested, SlicedAll;
    match v
    case VWord(w) =>
      assert mem[p] == mem[p..p + 1][0] == w;
      assert mem[p][..CHUNK_SIZE] == w;
      ReadsSliced(mem, Cursor(p, r), LeafStatic, cuts, depth, coll, w);
    case VBytes(data) =>
      AtSplit(mem, p, [Num(|data|)], Pad(data));
      PadSize(data);
      ReadNum(mem, p, |data|);
      ReadPadded(mem, p + 1, data);
      ReadsSliced(mem, Cursor(p, r), LeafDynamic, cuts, depth, coll, data);
    case _ =>
  }

  lemma {:induction false} ReadsArray(mem: seq<Word>, p: nat, r: nat, v: Val, t: Ty, bounds: Bounds, rest: Sel, depth: nat, coll: seq<bytes>)
    requires HasType(v, t) && At(mem, p, Enc(v, t)) && |mem| <= MAX_WORDS
    requires Compile(t, Each(bounds, rest)).Some? && depth + 1 + EachDepth(rest) <= MAX_ARRAYS && |coll| <= MAX_COLLECTION
    ensures Nested(mem, Compile(t, Each(bounds, rest)).value, Cursor(p, r), depth, coll)
         == Limit(coll, Pick(v, Each(bounds, rest)))
    decreases Each(bounds, rest), 1, 0
  {
    hide Enc, EncSeq, At, HasType, HeadWords, Dynamic, Select, ReadSmall, NestedLoop;
    ArrayLayout(mem, p, v, t);
    var n, path := |v.elems|, Compile(t, Each(bounds, rest)).value;
    match Select(bounds, n)
    case None =>
    case Some((lo, hi)) =>
      if hi - lo <= MAX_PASSES {
        ReadsElements(mem, p, r, v, t, bounds, rest, depth, lo, hi - lo, 0, coll);
      } else if PickAll(v.elems[lo..hi], rest).Some? {
        PickAllAtLeast(v.elems[lo..hi], rest);
      }
  }

  /** An array whose elements take words cannot have more elements than words. */
  lemma ArrayCount(mem: seq<Word>, q: nat, vs: seq<Val>, t: Ty)
    requires HaveTypes(vs, Rep(t, |vs|)) && At(mem, q, EncSeq(vs, Rep(t, |vs|))) && HeadWords(t) >= 1
    ensures |vs| <= |mem|
  {
    hide Enc, HasType, Dynamic, HeadWords, Heads, HeadPart, TailPart;
    var ts := Rep(t, |vs|);
    HeadSize(vs, ts, Heads(ts));
    RepHeads(t, |vs|, |vs|);
    assert ts[..|vs|] == ts;
    MulMono(1, HeadWords(t), |vs|);
  }

  /** The loop over the elements from the k-th on. */
  lemma {:induction false} ReadsElements(mem: seq<Word>, p: nat, r: nat, v: Val, t: Ty, bounds: Bounds, rest: Sel,
                                         depth: nat, lo: nat, n: nat, k: nat, coll: seq<bytes>)
    requires v.VArray? && t.TArray? && HaveTypes(v.elems, Rep(t.elem, |v.elems|)) && |mem| <= MAX_WORDS
    requires At(mem, p + 1, EncSeq(v.elems, Rep(t.elem, |v.elems|)))
    requires Compile(t, Each(bounds, rest)).Some? && depth + 1 + EachDepth(rest) <= MAX_ARRAYS && |coll| <= MAX_COLLECTION
    requires k <= n && lo + n <= |v.elems|
    ensures NestedLoop(mem, Compile(t, Each(bounds, rest)).value, Cursor(p, r), depth, lo, n, k, coll)
         == Limit(coll, PickAll(v.elems[lo + k..lo + n], rest))
    decreases Each(bounds, rest), 0, n - k
  {
    hide Enc, EncSeq, At, HasType, HeadWords, Dynamic, Select, ReadSmall, Nested, Heads;
    var es := v.elems[lo + k..lo + n];
    if k == n {
      assert es == [] && coll + [] == coll;
    } else {
      var ts := Rep(t.elem, |v.elems|);
      var inner := Compile(t.elem, rest).value;
      var path := [Array(HeadWords(t.elem), bounds)] + Deref(t.elem) + inner;
      assert path[1..] == Deref(t.elem) + inner;
      RepHeads(t.elem, |v.elems|, lo + k);
      var at, ref := DerefReaches(mem, p + 1, v.elems, ts, lo + k, inner, depth + 1, coll);
      ReadsBack(mem, at, ref, v.elems[lo + k], t.elem, rest, depth + 1, coll);
      assert es[0] == v.elems[lo + k] && es[1..] == v.elems[lo + k + 1..lo + n];
      LimitCat(coll, Pick(es[0], rest), PickAll(es[1..], rest));
      match Limit(coll, Pick(es[0], rest))
      case None =>
      case Some(c) => ReadsElements(mem, p, r, v, t, bounds, rest, depth, lo, n, k + 1, c);
    }
  }

  lemma LimitCat(coll: seq<bytes>, a: Option<seq<bytes>>, b: Option<seq<bytes>>)
    ensures Limit(coll, Cat(a, b)) ==
      match Limit(coll, a) {
        case None => None
        case Some(c) => Limit(c, b)
      }
  {
    if a.Some? && b.Some? {
      assert coll + (a.value + b.value) == (coll + a.value) + b.value;
    }
  }

  /* ---- The round trip ---- */

  lemma {:induction false} CompileEmitsLast(t: Ty, sel: Sel)
    requires Compile(t, sel).Some?
    ensures EmitsLast(Compile(t, sel).value)
  {
    match sel
    case Here(cuts) =>
      var path := Compile(t, sel).value;
      assert path[1..] == Slices(cuts);
      SlicesOpenNothing(cuts);
    case Field(i, rest) =>
      CompileEmitsLast(t.fields[i], rest);
      QuietPrefix([Tuple(Heads(t.fields[..i]))] + Deref(t.fields[i]), Compile(t.fields[i], rest).value);
    case Each(bounds, rest) =>
      CompileEmitsLast(t.elem, rest);
      QuietPrefix([Array(HeadWords(t.elem), bounds)] + Deref(t.elem), Compile(t.elem, rest).value);
  }

  lemma {:induction false} SlicesOpenNothing(cuts: seq<Bounds>)
    ensures CountArrays(Slices(cuts)) == 0
    decreases |cuts|
  {
    if cuts != [] {
      assert Slices(cuts)[1..] == Slices(cuts[1..]);
      SlicesOpenNothing(cuts[1..]);
    }
  }

  lemma {:induction false} QuietPrefix(a: Path, b: Path)
    requires (forall i :: 0 <= i < |a| ==> Quiet(a[i])) && EmitsLast(b)
    ensures EmitsLast(a + b)
  {
    if a == [] {
      assert a + b == b;
    } else {
      QuietPrefix(a[1..], b);
      assert (a + b)[0] == a[0] && (a + b)[1..] == a[1..] + b;
    }
  }

  /** The bytes of an encoding, cut into words again. */
  lemma {:induction false} WordsOfFlat(ws: seq<Word>)
    ensures |Flatten(ws)| == CHUNK_SIZE * |ws|
    ensures Words(Flatten(ws)) == ws
  {
    if ws != [] {
      var n := |ws| - 1;
      var front, last := ws[..n], ws[n];
      WordsOfFlat(front);
      var flat := Flatten(ws);
      assert flat == Flatten(front) + last;
      forall i | 0 <= i < |ws| ensures Words(flat)[i] == ws[i] {
        if i < n {
          WordStable(Flatten(front), last, i);
          assert Words(Flatten(front))[i] == front[i];
        } else {
          assert WordAt(flat, n) == last;
        }
      }
    }
  }

  /** Evaluating the compiled path over the encoding of a value gives exactly the
      selected leaves, for every type, value and selection: it fails only when
      the selection leaves an array or picks more than sixteen leaves. */
  lemma AbiRoundTrip(v: Val, t: Ty, sel: Sel)
    requires HasType(v, t) && Compile(t, sel).Some?
    requires |Enc(v, t)| <= MAX_WORDS && EachDepth(sel) <= MAX_ARRAYS
    ensures Evaluate(Words(Flatten(Enc(v, t))), Compile(t, sel).value) == Limit([], Pick(v, sel))
  {
    hide Enc, HasType, Nested, Evaluate, Pick;
    var mem := Enc(v, t);
    WordsOfFlat(mem);
    assert At(mem, 0, mem) by { assert mem[0..|mem|] == mem; }
    CompileEmitsLast(t, sel);
    EvaluateIsNested(mem, Compile(t, sel).value);
    ReadsBack(mem, 0, 0, v, t, sel, 0, []);
  }

  /** The case of one dynamic argument: [TUPLE, REF, LEAF] returns its bytes. */
  lemma DynamicArgument(args: Val, ts: seq<Ty>, k: nat)
    requires HasType(args, TTuple(ts)) && k < |ts| && ts[k].TBytes? && Heads(ts[..k]) < 0x1_0000
    requires |Enc(args, TTuple(ts))| <= MAX_WORDS
    ensures args.VTuple? && k < |args.items| && args.items[k].VBytes?
    ensures Evaluate(Words(Flatten(Enc(args, TTuple(ts)))), [Tuple(Heads(ts[..k])), Ref, Leaf(LeafDynamic)])
         == Some([args.items[k].data])
  {
    var sel := Field(k, Here([]));
    var h := Heads(ts[..k]);
    assert HasType(args.items[k], ts[k]);
    assert Slices([]) == [];
    assert ([Tuple(h)] + [Ref]) + ([Leaf(LeafDynamic)] + []) == [Tuple(h), Ref, Leaf(LeafDynamic)];
    assert Pick(args, sel) == Some([args.items[k].data]) by {
      assert Pick(args.items[k], Here([])) == Some([args.items[k].data]);
    }
    assert [] + [args.items[k].data] == [args.items[k].data];
    assert Compile(ts[k], Here([])) == Some([Leaf(LeafDynamic)] + []);
    assert Compile(TTuple(ts), sel) == Some([Tuple(Heads(ts[..k])), Ref, Leaf(LeafDynamic)]);
    AbiRoundTrip(args, TTuple(ts), sel);
  }

  /** A slice of a static argument, such as the address in the last twenty bytes
      of its word: exactly the bytes between the bounds. */
  lemma SlicedArgument(args: Val, ts: seq<Ty>, k: nat, lo: nat)
    requires HasType(args, TTuple(ts)) && k < |ts| && ts[k].TWord? && Heads(ts[..k]) < 0x1_0000
    requires |Enc(args, TTuple(ts))| <= MAX_WORDS && lo < CHUNK_SIZE
    ensures args.VTuple? && k < |args.items| && args.items[k].VWord?
    ensures Evaluate(Words(Flatten(Enc(args, TTuple(ts)))), [Tuple(Heads(ts[..k])), Leaf(LeafStatic), Slice(Bounds(true, lo, false, 0))])
         == Some([args.items[k].word[lo..]])
  {
    var cut := Bounds(true, lo, false, 0);
    var sel, h := Field(k, Here([cut])), Heads(ts[..k]);
    assert HasType(args.items[k], ts[k]);
    var w := args.items[k].word;
    assert Slices([cut]) == [Slice(cut)] && [cut][1..] == [];
    assert ([Tuple(h)] + []) + ([Leaf(LeafStatic)] + [Slice(cut)]) == [Tuple(h), Leaf(LeafStatic), Slice(cut)];
    SlicedIs(w, cut);
    assert Select(cut, |w|) == Some((lo, |w|)) && w[lo..|w|] == w[lo..];
    assert Pick(args, sel) == Some([w[lo..]]) by {
      OneSlice(w, cut);
      assert Pick(args.items[k], Here([cut])) == Some([w[lo..]]);
    }
    assert [] + [w[lo..]] == [w[lo..]];
    assert Compile(ts[k], Here([cut])) == Some([Leaf(LeafStatic)] + [Slice(cut)]);
    assert Compile(TTuple(ts), sel) == Some([Tuple(h), Leaf(LeafStatic), Slice(cut)]);
    AbiRoundTrip(args, TTuple(ts), sel);
  }

  /* ---- Slices ---- */

  /** The bytes of a slice, by index. */
  lemma SlicedBytes(data: bytes, b: Bounds)
    requires Sliced(data, b).Some?
    ensures var (lo, hi) := Select(b, |data|).value; var r := Sliced(data, b).value;
      |r| == hi - lo && forall i :: 0 <= i < |r| ==> r[i] == data[lo + i] && Between(b, |data|, lo + i)
  {
    SelectMeans(b, |data|);
  }

  /** Two slices in a row are one slice at the summed offset. */
  lemma SlicesCompose(data: bytes, a: Bounds, b: Bounds)
    requires SlicedAll(data, [a, b]).Some?
    ensures var (lo, hi) := Select(a, |data|).value;
      hi <= |data| && Select(b, hi - lo).Some? &&
      var (lo2, hi2) := Select(b, hi - lo).value;
      && lo + hi2 <= hi && SlicedAll(data, [a, b]) == Some(data[lo + lo2..lo + hi2])
      && (lo + hi2 < 0x8000 ==> SlicedAll(data, [a, b]) == Sliced(data, Bounds(true, lo + lo2, true, lo + hi2)))
  {
    TwoSlices(data, a, b);
    SlicedIs(data, a);
    hide SlicedAll, Sliced, Select;
    var (lo, hi) := Select(a, |data|).value;
    SlicedIs(data[lo..hi], b);
    var (lo2, hi2) := Select(b, hi - lo).value;
    assert data[lo..hi] == data[lo..lo + (hi - lo)];
    SubSlice(data, lo, hi - lo, lo2, hi2);
    if lo + hi2 < 0x8000 { ExplicitSlice(data, lo + lo2, lo + hi2); }
  }

  lemma OneSlice(data: bytes, b: Bounds)
    ensures SlicedAll(data, [b]) == Sliced(data, b)
  {
    hide Sliced;
    assert [b][1..] == [];
  }

  lemma TwoSlices(data: bytes, a: Bounds, b: Bounds)
    ensures SlicedAll(data, [a, b]) == match Sliced(data, a) { case None => None case Some(d) => Sliced(d, b) }
  {
    hide Sliced;
    assert [a, b][1..] == [b];
    if Sliced(data, a).Some? { OneSlice(Sliced(data, a).value, b); }
  }

  lemma SlicedIs(data: bytes, b: Bounds)
    ensures Sliced(data, b).Some? <==> Select(b, |data|).Some?
    ensures Sliced(data, b).Some? ==> Sliced(data, b).value == data[Select(b, |data|).value.0..Select(b, |data|).value.1]
  {
  }

  lemma ExplicitSlice(data: bytes, lo: nat, hi: nat)
    requires lo < hi <= |data| && hi < 0x8000
    ensures Sliced(data, Bounds(true, lo, true, hi)) == Some(data[lo..hi])
  {
    SlicedIs(data, Bounds(true, lo, true, hi));
  }
}
