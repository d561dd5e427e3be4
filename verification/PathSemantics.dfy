/** The meaning of a data path (src/features/generic_tx_parser/gtp_data_path.c)
    over the 32-byte words of the calldata: which index vectors its arrays
    enumerate, and what one run along an index vector adds to the collection. */
module PathSemantics {
  import opened Powers
  import opened BigEndian
  import opened Numerals
  import opened Calldata

  const PATH_MAX_SIZE: nat := 16
  const MAX_COLLECTION: nat := 16
  const MAX_ARRAYS: nat := 8
  const MAX_PASSES: nat := 255

  type i16 = x: int | -0x8000 <= x < 0x8000

  /** Optional signed bounds, as ARRAY and SLICE elements carry them. */
  datatype Bounds = Bounds(hasStart: bool, start: i16, hasEnd: bool, end: i16)

  datatype LeafKind = LeafArray | LeafTuple | LeafStatic | LeafDynamic

  datatype Element =
    | Tuple(value: u16)
    | Array(weight: u8, bounds: Bounds)
    | Ref
    | Leaf(kind: LeafKind)
    | Slice(slice: Bounds)

  type Path = seq<Element>

  /** The word offset a path has reached and the offset references start from. */
  datatype Cursor = Cursor(off: nat, ref: nat)

  /** An index for each array of a path, outermost first. */
  type Vec = seq<nat>

  /** A word that holds a 16-bit number: thirty zero bytes, then the number. */
  function Small(w: Word): Option<u16> {
    if w[..30] == Fill(30, 0) then Some((w[30] as int) * 0x100 + w[31]) else None
  }

  function ReadSmall(mem: seq<Word>, off: nat): Option<u16> {
    if off < |mem| then Small(mem[off]) else None
  }

  /** The half-open interval that bounds select in n elements, if it is not empty
      and lies inside them. */
  function Select(b: Bounds, n: nat): (r: Option<(nat, nat)>)
    ensures r.Some? ==> r.value.0 < r.value.1 <= n
  {
    var s := Resolve(b.hasStart, b.start, n, 0);
    var e := Resolve(b.hasEnd, b.end, n, n);
    if 0 <= s < e <= n then Some((s, e)) else None
  }

  /** A negative bound counts from the end. */
  function Resolve(has: bool, bound: int, n: nat, default: nat): int {
    if !has then default else if bound < 0 then n + bound else bound
  }

  /** Index i is neither before the start nor at or after the end, counting a
      negative bound back from the end. */
  predicate Between(b: Bounds, n: nat, i: nat) {
    && i < n
    && (b.hasStart ==> if b.start >= 0 then b.start <= i else n - i <= 0 - b.start as int)
    && (b.hasEnd ==> if b.end >= 0 then i < b.end else n - i > 0 - b.end as int)
  }

  /** A start before the first element, or an end behind the last. */
  predicate Outside(b: Bounds, n: nat) {
    (b.hasStart && n + b.start < 0) || (b.hasEnd && b.end > n)
  }

  /** Bounds inside n elements select exactly the indices between them, and
      nothing is selected only for bounds outside or with nothing between. */
  lemma SelectMeans(b: Bounds, n: nat)
    ensures Select(b, n).Some? <==> !Outside(b, n) && exists i: nat :: Between(b, n, i)
    ensures Select(b, n).Some? ==> forall i: nat :: Between(b, n, i) <==> Select(b, n).value.0 <= i < Select(b, n).value.1
  {
    match Select(b, n)
    case Some((lo, hi)) => assert Between(b, n, lo);
    case None =>
  }

  /** len bytes starting at a word. */
  function ReadBytes(mem: seq<Word>, off: nat, len: nat): Option<bytes>
    decreases len
  {
    if len == 0 then Some([])
    else if off >= |mem| then None
    else if len <= CHUNK_SIZE then Some(mem[off][..len])
    else
      match ReadBytes(mem, off + 1, len - CHUNK_SIZE)
      case None => None
      case Some(rest) => Some(mem[off] + rest)
  }

  lemma SubSlice<T>(s: seq<T>, a: nat, n: nat, c: nat, d: nat)
    requires a + n <= |s| && c <= d <= n
    ensures s[a..a + n][c..d] == s[a + c..a + d]
  {
    var l, r := s[a..a + n][c..d], s[a + c..a + d];
    assert |l| == |r|;
    forall i | 0 <= i < |l| ensures l[i] == r[i] {
      assert l[i] == s[a..a + n][c + i];
    }
  }

  /* ---- One element ---- */

  /** The first index and the number of indices that bounds select in the array
      whose length word is at an offset. */
  function Extent(mem: seq<Word>, bounds: Bounds, off: nat): Option<(nat, nat)> {
    match ReadSmall(mem, off)
    case None => None
    case Some(n) =>
      match Select(bounds, n)
      case None => None
      case Some((s, t)) => Some((s, t - s))
  }

  /** The same for an array that may be opened: at most eight of them are nested
      and each is passed over at most 255 times. */
  function Window(mem: seq<Word>, e: Element, off: nat, depth: nat): Option<(nat, nat)>
    requires e.Array?
  {
    if depth >= MAX_ARRAYS then None else
    match Extent(mem, e.bounds, off)
    case None => None
    case Some((s, n)) => if n <= MAX_PASSES then Some((s, n)) else None
  }

  function Enter(e: Element, cur: Cursor, start: nat, k: nat): Cursor
    requires e.Array?
  {
    Cursor(cur.off + 1 + (start + k) * e.weight, cur.off + 1)
  }

  /** Where an element other than an array leads. */
  function Move(mem: seq<Word>, e: Element, cur: Cursor): Option<Cursor>
    requires !e.Array?
  {
    match e
    case Tuple(value) => Some(Cursor(cur.off + value, cur.off))
    case Ref =>
      (match ReadSmall(mem, cur.off)
       case None => None
       case Some(raw) =>
         if raw % CHUNK_SIZE != 0 then None else Some(Cursor(raw / CHUNK_SIZE + cur.ref, cur.ref)))
    case Leaf(kind) =>
      (match kind
       case LeafStatic => Some(cur)
       case LeafDynamic => if ReadSmall(mem, cur.off).Some? then Some(Cursor(cur.off + 1, cur.ref)) else None
       case _ => None)
    case Slice(_) => Some(cur)
  }

  /** What an element other than an array does to the collection. */
  function Emit(mem: seq<Word>, e: Element, cur: Cursor, coll: seq<bytes>): Option<seq<bytes>> {
    match e
    case Leaf(kind) =>
      if |coll| >= MAX_COLLECTION then None else
      (match LeafBytes(mem, kind, cur.off)
       case None => None
       case Some(b) => Some(coll + [b]))
    case Slice(bounds) =>
      if coll == [] then None else
      var last := coll[|coll| - 1];
      (match Select(bounds, |last|)
       case None => None
       case Some((s, t)) => Some(coll[..|coll| - 1] + [last[s..t]]))
    case _ => Some(coll)
  }

  /** A slice succeeds when there is a value and the bounds are inside it; it
      changes the last value only, to the bytes between the bounds. */
  lemma SliceOfLast(mem: seq<Word>, b: Bounds, cur: Cursor, coll: seq<bytes>)
    ensures Emit(mem, Slice(b), cur, coll).Some? <==>
      coll != [] && var n := |coll[|coll| - 1]|; !Outside(b, n) && exists i: nat :: Between(b, n, i)
    ensures Emit(mem, Slice(b), cur, coll).Some? ==> SlicedAt(b, coll, Emit(mem, Slice(b), cur, coll).value)
  {
    if coll != [] { SelectMeans(b, |coll[|coll| - 1]|); }
  }

  /** The last value cut down to the bytes between the bounds, by index. */
  predicate SlicedAt(b: Bounds, coll: seq<bytes>, now: seq<bytes>) {
    && |now| == |coll| > 0 && now[..|now| - 1] == coll[..|coll| - 1]
    && var whole, cut := coll[|coll| - 1], now[|now| - 1];
      && Select(b, |whole|).Some?
      && var (lo, hi) := Select(b, |whole|).value;
        |cut| == hi - lo && forall i :: 0 <= i < |cut| ==> cut[i] == whole[lo + i]
  }

  function LeafBytes(mem: seq<Word>, kind: LeafKind, off: nat): Option<bytes> {
    match kind
    case LeafStatic => ReadBytes(mem, off, CHUNK_SIZE)
    case LeafDynamic =>
      (match ReadSmall(mem, off)
       case None => None
       case Some(len) => ReadBytes(mem, off + 1, len))
    case _ => None
  }

  /* ---- What elements read, in terms of the calldata itself ---- */

  /** A word is taken for a number exactly when that number is below 2^16. */
  lemma SmallMeans(w: Word)
    ensures Small(w).Some? <==> BE(w) < 0x1_0000
    ensures Small(w).Some? ==> Small(w).value == BE(w)
  {
    hide BE, Pow256;
    var hi, lo := w[..30], w[30..];
    assert w == hi + lo;
    BEConcat(hi, lo);
    assert Pow256(2) == 0x1_0000 by { PowTwo(); }
    TwoBytes(lo);
    assert hi == Fill(30, 0) <==> BE(hi) == 0 by {
      BEZeroIff(hi);
      if BE(hi) == 0 { assert forall i :: 0 <= i < 30 ==> hi[i] == Fill(30, 0)[i]; }
    }
  }

  lemma PowTwo()
    ensures Pow256(2) == 0x1_0000
  {
    assert Pow256(0) == 1 && Pow256(1) == 0x100;
  }

  /** REF succeeds exactly on a word below 2^16 that is a whole number of words,
      and leads that many bytes behind the reference base. */
  lemma RefMeans(mem: seq<Word>, cur: Cursor)
    ensures Move(mem, Ref, cur).Some? <==> cur.off < |mem| && BE(mem[cur.off]) < 0x1_0000 && BE(mem[cur.off]) % CHUNK_SIZE == 0
    ensures Move(mem, Ref, cur).Some? ==>
      var to := Move(mem, Ref, cur).value;
      to.ref == cur.ref && CHUNK_SIZE * to.off == CHUNK_SIZE * cur.ref + BE(mem[cur.off])
  {
    hide Small, BE;
    if cur.off < |mem| { SmallMeans(mem[cur.off]); }
  }

  /** Reading bytes from a word on succeeds exactly when the calldata is long
      enough, and gives those bytes of it. */
  lemma {:induction false} ReadBytesMeans(mem: seq<Word>, off: nat, len: nat)
    requires len > 0
    ensures |Flatten(mem)| == CHUNK_SIZE * |mem|
    ensures ReadBytes(mem, off, len).Some? <==> CHUNK_SIZE * off + len <= |Flatten(mem)|
    ensures ReadBytes(mem, off, len).Some? ==>
      ReadBytes(mem, off, len).value == Flatten(mem)[CHUNK_SIZE * off..CHUNK_SIZE * off + len]
    decreases len
  {
    FlatLength(mem);
    if off < |mem| {
      FlatWord(mem, off);
      hide Flatten;
      var flat, at := Flatten(mem), CHUNK_SIZE * off;
      if len <= CHUNK_SIZE {
        assert flat[at..at + CHUNK_SIZE][..len] == flat[at..at + len];
      } else {
        ReadBytesMeans(mem, off + 1, len - CHUNK_SIZE);
        if at + len <= |flat| {
          assert flat[at..at + len] == flat[at..at + CHUNK_SIZE] + flat[at + CHUNK_SIZE..at + len];
        }
      }
    }
  }

  lemma {:induction false} FlatLength(mem: seq<Word>)
    ensures |Flatten(mem)| == CHUNK_SIZE * |mem|
  {
    if mem != [] { FlatLength(mem[..|mem| - 1]); }
  }

  lemma {:induction false} FlatWord(mem: seq<Word>, i: nat)
    requires i < |mem|
    ensures |Flatten(mem)| == CHUNK_SIZE * |mem|
    ensures Flatten(mem)[CHUNK_SIZE * i..CHUNK_SIZE * (i + 1)] == mem[i]
  {
    FlatLength(mem);
    var n := |mem| - 1;
    var front := mem[..n];
    FlatLength(front);
    if i < n {
      FlatWord(front, i);
      assert Flatten(mem)[CHUNK_SIZE * i..CHUNK_SIZE * (i + 1)] == Flatten(front)[CHUNK_SIZE * i..CHUNK_SIZE * (i + 1)];
    }
  }

  /** A dynamic leaf: the word is the length of the bytes behind it. */
  lemma DynamicLeafMeans(mem: seq<Word>, off: nat)
    ensures LeafBytes(mem, LeafDynamic, off).Some? <==>
      off < |mem| && BE(mem[off]) < 0x1_0000 && CHUNK_SIZE * (off + 1) + BE(mem[off]) <= |Flatten(mem)|
    ensures LeafBytes(mem, LeafDynamic, off).Some? ==>
      LeafBytes(mem, LeafDynamic, off).value == Flatten(mem)[CHUNK_SIZE * (off + 1)..CHUNK_SIZE * (off + 1) + BE(mem[off])]
  {
    FlatLength(mem);
    hide Small, BE, Flatten;
    if off < |mem| {
      SmallMeans(mem[off]);
      if 0 < BE(mem[off]) < 0x1_0000 { ReadBytesMeans(mem, off + 1, BE(mem[off])); }
    }
  }

  /* ---- The index vectors of a path ---- */

  function Cat<T>(a: Option<seq<T>>, b: Option<seq<T>>): Option<seq<T>> {
    if a.Some? && b.Some? then Some(a.value + b.value) else None
  }

  function Prefix(k: nat, vs: seq<Vec>): (r: seq<Vec>)
    ensures |r| == |vs| && forall i :: 0 <= i < |vs| ==> r[i] == [k] + vs[i]
  {
    seq(|vs|, i requires 0 <= i < |vs| => [k] + vs[i])
  }

  function PrefixAll(k: nat, a: Option<seq<Vec>>): Option<seq<Vec>> {
    if a.Some? then Some(Prefix(k, a.value)) else None
  }

  function HeadOf(pre: Vec): nat {
    if pre == [] then 0 else pre[0]
  }

  function TailOf(pre: Vec): Vec {
    if pre == [] then [] else pre[1..]
  }

  /** The index vectors from pre (completed with zeros) on, in lexicographic
      order; the bounds of an inner array are read anew under each outer index. */
  function Enumerate(mem: seq<Word>, path: Path, cur: Cursor, depth: nat, pre: Vec): Option<seq<Vec>>
    decreases |path|, 1, 0
  {
    if path == [] then Some([[]])
    else if path[0].Array? then
      match Window(mem, path[0], cur.off, depth)
      case None => None
      case Some((start, n)) =>
        var k := HeadOf(pre);
        if k >= n then None
        else
          Cat(PrefixAll(k, Enumerate(mem, path[1..], Enter(path[0], cur, start, k), depth + 1, TailOf(pre))),
              EnumerateRest(mem, path, cur, depth, start, n, k + 1))
    else
      match Move(mem, path[0], cur)
      case None => None
      case Some(next) => Enumerate(mem, path[1..], next, depth, pre)
  }

  /** The vectors whose first index is k or more. */
  function EnumerateRest(mem: seq<Word>, path: Path, cur: Cursor, depth: nat, start: nat, n: nat, k: nat): Option<seq<Vec>>
    requires path != [] && path[0].Array?
    decreases |path|, 0, n - k
  {
    if k >= n then Some([])
    else
      Cat(PrefixAll(k, Enumerate(mem, path[1..], Enter(path[0], cur, start, k), depth + 1, [])),
          EnumerateRest(mem, path, cur, depth, start, n, k + 1))
  }

  /** One run of the path along an index vector. */
  function RunAlong(mem: seq<Word>, path: Path, cur: Cursor, depth: nat, v: Vec, coll: seq<bytes>): Option<seq<bytes>>
    decreases |path|
  {
    if path == [] then Some(coll)
    else if path[0].Array? then
      match Window(mem, path[0], cur.off, depth)
      case None => None
      case Some((start, n)) =>
        if v == [] || v[0] >= n then None
        else RunAlong(mem, path[1..], Enter(path[0], cur, start, v[0]), depth + 1, v[1..], coll)
    else
      match Move(mem, path[0], cur)
      case None => None
      case Some(next) =>
        match Emit(mem, path[0], cur, coll)
        case None => None
        case Some(c) => RunAlong(mem, path[1..], next, depth, v, c)
  }

  const ORIGIN := Cursor(0, 0)

  /** The runs along a list of index vectors, one after the other. */
  function RunAll(mem: seq<Word>, path: Path, cur: Cursor, depth: nat, vs: seq<Vec>, coll: seq<bytes>): Option<seq<bytes>>
    decreases |vs|
  {
    if vs == [] then Some(coll)
    else
      match RunAlong(mem, path, cur, depth, vs[0], coll)
      case None => None
      case Some(c) => RunAll(mem, path, cur, depth, vs[1..], c)
  }

  /** What remains to be collected from pre on. */
  function Outcome(mem: seq<Word>, path: Path, pre: Vec, coll: seq<bytes>): Option<seq<bytes>> {
    match Enumerate(mem, path, ORIGIN, 0, pre)
    case None => None
    case Some(vs) => RunAll(mem, path, ORIGIN, 0, vs, coll)
  }

  /** The value of a path: every index vector in lexicographic order. */
  function Evaluate(mem: seq<Word>, path: Path): Option<seq<bytes>> {
    Outcome(mem, path, [], [])
  }

  /* ---- One pass of the odometer ---- */

  datatype PassResult = PassResult(v: Vec, passes: Vec, coll: seq<bytes>)

  /** One pass: arrays already open take their index from pre, the others start
      at zero; reports the indices used and how many each array has. */
  function Pass(mem: seq<Word>, path: Path, cur: Cursor, depth: nat, pre: Vec, coll: seq<bytes>): Option<PassResult>
    decreases |path|
  {
    if path == [] then Some(PassResult([], [], coll))
    else if path[0].Array? then
      match Window(mem, path[0], cur.off, depth)
      case None => None
      case Some((start, n)) =>
        var k := HeadOf(pre);
        if k >= n then None
        else OpenArray(k, n, Pass(mem, path[1..], Enter(path[0], cur, start, k), depth + 1, TailOf(pre), coll))
    else
      match Move(mem, path[0], cur)
      case None => None
      case Some(next) =>
        match Emit(mem, path[0], cur, coll)
        case None => None
        case Some(c) => Pass(mem, path[1..], next, depth, pre, c)
  }

  function OpenArray(k: nat, n: nat, r: Option<PassResult>): Option<PassResult> {
    if r.Some? then Some(PassResult([k] + r.value.v, [n] + r.value.passes, r.value.coll)) else None
  }

  /** The odometer: the next prefix to run from, after the vector v. */
  function Next(v: Vec, passes: Vec): Option<Vec>
    requires |v| == |passes|
  {
    if v == [] then None
    else
      match Next(v[1..], passes[1..])
      case Some(t) => Some([v[0]] + t)
      case None => if v[0] + 1 < passes[0] then Some([v[0] + 1]) else None
  }

  lemma {:induction false} PassShape(mem: seq<Word>, path: Path, cur: Cursor, depth: nat, pre: Vec, coll: seq<bytes>)
    ensures var r := Pass(mem, path, cur, depth, pre, coll);
      r.Some? ==>
        && |r.value.v| == |r.value.passes| <= (if depth < MAX_ARRAYS then MAX_ARRAYS - depth else 0)
        && forall j :: 0 <= j < |r.value.v| ==> r.value.v[j] < r.value.passes[j] <= MAX_PASSES
    decreases |path|
  {
    if path != [] && Pass(mem, path, cur, depth, pre, coll).Some? {
      if path[0].Array? {
        var (start, n) := Window(mem, path[0], cur.off, depth).value;
        PassShape(mem, path[1..], Enter(path[0], cur, start, HeadOf(pre)), depth + 1, TailOf(pre), coll);
      } else {
        PassShape(mem, path[1..], Move(mem, path[0], cur).value, depth, pre,
                  Emit(mem, path[0], cur, coll).value);
      }
    }
  }

  /* ---- A pass is the first vector, run ---- */

  datatype FirstResult = FirstResult(v: Vec, passes: Vec)

  /** The first index vector from pre on, with the number of passes of each array. */
  function First(mem: seq<Word>, path: Path, cur: Cursor, depth: nat, pre: Vec): Option<FirstResult>
    decreases |path|
  {
    if path == [] then Some(FirstResult([], []))
    else if path[0].Array? then
      match Window(mem, path[0], cur.off, depth)
      case None => None
      case Some((start, n)) =>
        var k := HeadOf(pre);
        if k >= n then None
        else
          match First(mem, path[1..], Enter(path[0], cur, start, k), depth + 1, TailOf(pre))
          case None => None
          case Some(f) => Some(FirstResult([k] + f.v, [n] + f.passes))
    else
      match Move(mem, path[0], cur)
      case None => None
      case Some(next) => First(mem, path[1..], next, depth, pre)
  }

  lemma {:induction false} PassIsFirstRun(mem: seq<Word>, path: Path, cur: Cursor, depth: nat, pre: Vec, coll: seq<bytes>)
    ensures Pass(mem, path, cur, depth, pre, coll) ==
      match First(mem, path, cur, depth, pre) {
        case None => None
        case Some(f) =>
          (match RunAlong(mem, path, cur, depth, f.v, coll)
           case None => None
           case Some(c) => Some(PassResult(f.v, f.passes, c)))
      }
    decreases |path|
  {
    if path == [] {
    } else if path[0].Array? {
      match Window(mem, path[0], cur.off, depth)
      case None =>
      case Some((start, n)) =>
        var k := HeadOf(pre);
        var inner := Enter(path[0], cur, start, k);
        if k < n {
          PassIsFirstRun(mem, path[1..], inner, depth + 1, TailOf(pre), coll);
          match First(mem, path[1..], inner, depth + 1, TailOf(pre)) {
            case None =>
            case Some(f) => assert ([k] + f.v)[1..] == f.v;
          }
        }
    } else {
      match Move(mem, path[0], cur)
      case None =>
      case Some(next) =>
        match Emit(mem, path[0], cur, coll)
        case None =>
        case Some(c) => PassIsFirstRun(mem, path[1..], next, depth, pre, c);
    }
  }

  lemma {:induction false} FirstShape(mem: seq<Word>, path: Path, cur: Cursor, depth: nat, pre: Vec)
    ensures var f := First(mem, path, cur, depth, pre);
      f.Some? ==> |f.value.v| == |f.value.passes|
    decreases |path|
  {
    if path != [] {
      if path[0].Array? {
        match Window(mem, path[0], cur.off, depth)
        case None =>
        case Some((start, n)) =>
          FirstShape(mem, path[1..], Enter(path[0], cur, start, HeadOf(pre)), depth + 1, TailOf(pre));
      } else {
        match Move(mem, path[0], cur)
        case None =>
        case Some(next) => FirstShape(mem, path[1..], next, depth, pre);
      }
    }
  }

  /** The vectors left after the one just run. */
  function Remaining(mem: seq<Word>, path: Path, cur: Cursor, depth: nat, next: Option<Vec>): Option<seq<Vec>> {
    match next
    case None => Some([])
    case Some(pre) => Enumerate(mem, path, cur, depth, pre)
  }

  lemma CatAssoc<T>(x: T, a: Option<seq<T>>, b: Option<seq<T>>)
    ensures Cat(Cat(Some([x]), a), b) == Cat(Some([x]), Cat(a, b))
  {
    if a.Some? && b.Some? {
      assert ([x] + a.value) + b.value == [x] + (a.value + b.value);
    }
  }

  lemma PrefixCat(k: nat, v: Vec, a: Option<seq<Vec>>)
    ensures PrefixAll(k, Cat(Some([v]), a)) == Cat(Some([[k] + v]), PrefixAll(k, a))
  {
    if a.Some? {
      assert Prefix(k, [v] + a.value) == [[k] + v] + Prefix(k, a.value);
    }
  }

  /** The odometer step: the enumeration from pre is its first vector followed by
      the enumeration from the next prefix, and it fails where the first does. */
  lemma {:induction false} EnumerateStep(mem: seq<Word>, path: Path, cur: Cursor, depth: nat, pre: Vec)
    ensures First(mem, path, cur, depth, pre).None? ==> Enumerate(mem, path, cur, depth, pre).None?
    ensures First(mem, path, cur, depth, pre).Some? ==>
      var f := First(mem, path, cur, depth, pre).value;
      && |f.v| == |f.passes|
      && Enumerate(mem, path, cur, depth, pre)
         == Cat(Some([f.v]), Remaining(mem, path, cur, depth, Next(f.v, f.passes)))
    decreases |path|
  {
    FirstShape(mem, path, cur, depth, pre);
    if path == [] {
      var only: seq<Vec> := [[]];
      assert only + [] == only;
    } else if path[0].Array? {
      match Window(mem, path[0], cur.off, depth)
      case None =>
      case Some((start, n)) =>
        EnumerateStep(mem, path[1..], Enter(path[0], cur, start, HeadOf(pre)), depth + 1, TailOf(pre));
        if HeadOf(pre) < n && First(mem, path, cur, depth, pre).Some? {
          EnumerateArrayStep(mem, path, cur, depth, pre, start, n);
        }
    } else {
      match Move(mem, path[0], cur)
      case None =>
      case Some(next) =>
        EnumerateStep(mem, path[1..], next, depth, pre);
    }
  }

  lemma EnumerateArrayStep(mem: seq<Word>, path: Path, cur: Cursor, depth: nat, pre: Vec, start: nat, n: nat)
    requires path != [] && path[0].Array? && Window(mem, path[0], cur.off, depth) == Some((start, n))
    requires HeadOf(pre) < n
    requires var inner := First(mem, path[1..], Enter(path[0], cur, start, HeadOf(pre)), depth + 1, TailOf(pre));
      && inner.Some? && |inner.value.v| == |inner.value.passes|
      && Enumerate(mem, path[1..], Enter(path[0], cur, start, HeadOf(pre)), depth + 1, TailOf(pre))
         == Cat(Some([inner.value.v]),
                Remaining(mem, path[1..], Enter(path[0], cur, start, HeadOf(pre)), depth + 1,
                          Next(inner.value.v, inner.value.passes)))
    ensures First(mem, path, cur, depth, pre).Some?
    ensures var f := First(mem, path, cur, depth, pre).value;
      |f.v| == |f.passes| &&
      Enumerate(mem, path, cur, depth, pre)
         == Cat(Some([f.v]), Remaining(mem, path, cur, depth, Next(f.v, f.passes)))
  {
    var k := HeadOf(pre);
    var at := Enter(path[0], cur, start, k);
    var g := First(mem, path[1..], at, depth + 1, TailOf(pre)).value;
    var v, p := [k] + g.v, [n] + g.passes;
    assert v[1..] == g.v && p[1..] == g.passes;
    var rest := EnumerateRest(mem, path, cur, depth, start, n, k + 1);
    var inner := Remaining(mem, path[1..], at, depth + 1, Next(g.v, g.passes));
    PrefixCat(k, g.v, inner);
    CatAssoc(v, PrefixAll(k, inner), rest);
    match Next(g.v, g.passes)
    case Some(t) =>
      assert ([k] + t)[1..] == t;
    case None =>
      assert PrefixAll(k, inner) == Some([]);
      assert Cat(Some([]), rest) == rest by { if rest.Some? { assert [] + rest.value == rest.value; } }
      if k + 1 < n {
        assert [k + 1][1..] == [];
      }
  }

  /** One pass against the outcome: a failed pass means a failed outcome, and a
      successful one leaves the outcome of the next prefix. */
  lemma OutcomeStep(mem: seq<Word>, path: Path, pre: Vec, coll: seq<bytes>)
    ensures Pass(mem, path, ORIGIN, 0, pre, coll).None? ==> Outcome(mem, path, pre, coll).None?
    ensures Pass(mem, path, ORIGIN, 0, pre, coll).Some? ==>
      var r := Pass(mem, path, ORIGIN, 0, pre, coll).value;
      && |r.v| == |r.passes|
      && Outcome(mem, path, pre, coll) ==
         (match Next(r.v, r.passes)
          case None => Some(r.coll)
          case Some(p) => Outcome(mem, path, p, r.coll))
  {
    EnumerateStep(mem, path, ORIGIN, 0, pre);
    PassIsFirstRun(mem, path, ORIGIN, 0, pre, coll);
    match First(mem, path, ORIGIN, 0, pre)
    case None =>
    case Some(f) =>
      var rest := Remaining(mem, path, ORIGIN, 0, Next(f.v, f.passes));
      if rest.Some? {
        var vs := [f.v] + rest.value;
        assert vs[0] == f.v && vs[1..] == rest.value;
        assert Outcome(mem, path, pre, coll) == RunAll(mem, path, ORIGIN, 0, vs, coll);
        match RunAlong(mem, path, ORIGIN, 0, f.v, coll) {
          case None => assert RunAll(mem, path, ORIGIN, 0, vs, coll).None?;
          case Some(c) =>
            assert RunAll(mem, path, ORIGIN, 0, vs, coll) == RunAll(mem, path, ORIGIN, 0, rest.value, c);
            if Next(f.v, f.passes).None? { assert RunAll(mem, path, ORIGIN, 0, [], c) == Some(c); }
        }
      }
  }

  function CountArrays(path: Path): nat {
    if path == [] then 0 else (if path[0].Array? then 1 else 0) + CountArrays(path[1..])
  }

  /* ---- Open arrays keep their bounds ---- */

  /** Re-reading the arrays that pre has open finds the extents recorded in
      passes: the length words seen under the indices of pre. */
  ghost predicate SameExtents(mem: seq<Word>, path: Path, cur: Cursor, pre: Vec, passes: Vec)
    requires |pre| == |passes|
    decreases |path|
  {
    if path == [] || pre == [] then true
    else if path[0].Array? then
      match Extent(mem, path[0].bounds, cur.off)
      case None => true
      case Some((start, n)) =>
        n == passes[0] && SameExtents(mem, path[1..], Enter(path[0], cur, start, pre[0]), pre[1..], passes[1..])
    else
      match Move(mem, path[0], cur)
      case None => true
      case Some(next) => SameExtents(mem, path[1..], next, pre, passes)
  }

  lemma {:induction false} NextShape(v: Vec, passes: Vec)
    requires |v| == |passes|
    ensures var t := Next(v, passes);
      t.Some? ==>
        && 0 < |t.value| <= |v|
        && t.value[..|t.value| - 1] == v[..|t.value| - 1]
        && t.value[|t.value| - 1] == v[|t.value| - 1] + 1 < passes[|t.value| - 1]
  {
    if v != [] {
      NextShape(v[1..], passes[1..]);
      match Next(v[1..], passes[1..])
      case None =>
      case Some(t) =>
        var r := [v[0]] + t;
        assert r[..|r| - 1] == [v[0]] + t[..|t| - 1];
        assert v[..|r| - 1] == [v[0]] + v[1..][..|t| - 1];
    }
  }

  /** After a pass, the arrays that stay open still have the extents they had:
      only the innermost open index changed, and its own length word is reached
      through the outer indices alone. */
  lemma {:induction false} NextKeepsExtents(mem: seq<Word>, path: Path, cur: Cursor, depth: nat, pre: Vec)
    requires First(mem, path, cur, depth, pre).Some?
    ensures var f := First(mem, path, cur, depth, pre).value;
      |f.v| == |f.passes| &&
      (Next(f.v, f.passes).Some? ==>
         var t := Next(f.v, f.passes).value;
         |t| <= |f.passes| && SameExtents(mem, path, cur, t, f.passes[..|t|]))
    decreases |path|
  {
    FirstShape(mem, path, cur, depth, pre);
    if path == [] {
    } else if path[0].Array? {
      var (start, n) := Window(mem, path[0], cur.off, depth).value;
      var k := HeadOf(pre);
      var at := Enter(path[0], cur, start, k);
      NextKeepsExtents(mem, path[1..], at, depth + 1, TailOf(pre));
      var g := First(mem, path[1..], at, depth + 1, TailOf(pre)).value;
      var v, p := [k] + g.v, [n] + g.passes;
      assert v[1..] == g.v && p[1..] == g.passes;
      match Next(g.v, g.passes)
      case None =>
      case Some(t) =>
        NextShape(g.v, g.passes);
        assert ([k] + t)[1..] == t && p[..|t| + 1][1..] == g.passes[..|t|];
    } else {
      NextKeepsExtents(mem, path[1..], Move(mem, path[0], cur).value, depth, pre);
    }
  }
}
