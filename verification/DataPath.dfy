/** data_path_get and its helpers (src/features/generic_tx_parser/gtp_data_path.c):
    the odometer that restarts the path on each pass, over an explicit heap. */
module DataPath {
  import opened Powers
  import opened BigEndian
  import opened Numerals
  import opened Calldata
  import opened PathSemantics

  const U16: int := 0x1_0000
  const U32: int := 0x1_0000_0000

  /** The dynamic memory: live blocks by identity.  An allocation may fail. */
  class Heap {
    var live: map<nat, bytes>
    var next: nat
    /** Some allocation has failed. */
    ghost var exhausted: bool

    ghost predicate Valid()
      reads this
    {
      forall id :: id in live ==> id < next
    }

    constructor ()
      ensures Valid() && live == map[] && !exhausted
    {
      live, next, exhausted := map[], 0, false;
    }

    method Alloc(size: nat) returns (id: Option<nat>)
      requires Valid()
      modifies this
      ensures Valid()
      ensures id.None? ==> live == old(live) && exhausted
      ensures id.Some? ==>
        && id.value !in old(live) && exhausted == old(exhausted)
        && id.value in live && |live[id.value]| == size
        && live == old(live)[id.value := live[id.value]]
    {
      if * {
        exhausted := true;
        return None;
      }
      live := live[next := Fill(size, 0)];
      id := Some(next);
      next := next + 1;
    }

    /** Only a live block may be freed, and only through its base address. */
    method Free(id: nat, pos: int)
      requires Valid() && id in live && pos == 0
      modifies this
      ensures Valid() && live == old(live) - {id} && exhausted == old(exhausted)
    {
      live := live - {id};
    }

    /** memcpy into a live block. */
    method Write(id: nat, pos: nat, data: bytes)
      requires Valid() && id in live && pos + |data| <= |live[id]|
      modifies this
      ensures Valid() && exhausted == old(exhausted) && id in live
      ensures live == old(live)[id := live[id]]
      ensures live[id] == old(live[id])[..pos] + data + old(live[id])[pos + |data|..]
    {
      live := live[id := live[id][..pos] + data + live[id][pos + |data|..]];
    }
  }

  /** s_parsed_value: ptr is a block and a displacement inside it, or null. */
  datatype Value = Value(block: Option<nat>, pos: nat, size: u16, offset: u16, length: u16)

  /** A value points into its own block, displaced by exactly its offset, with
      offset + length inside the allocated size; null only when empty. */
  ghost predicate ValueOk(v: Value, live: map<nat, bytes>) {
    match v.block
    case None => v.size == v.offset == v.length == 0
    case Some(id) =>
      id in live && |live[id]| == v.size && v.pos == v.offset && v.length > 0 && v.offset + v.length <= v.size
  }

  ghost function Content(v: Value, live: map<nat, bytes>): bytes
    requires ValueOk(v, live)
  {
    if v.block.None? then [] else live[v.block.value][v.pos..v.pos + v.length]
  }

  ghost function Blocks(vs: seq<Value>): set<nat> {
    set v | v in vs && v.block.Some? :: v.block.value
  }

  ghost predicate Owns(vs: seq<Value>, live: map<nat, bytes>) {
    && |vs| <= MAX_COLLECTION
    && (forall i :: 0 <= i < |vs| ==> ValueOk(vs[i], live))
    && (forall i, j :: 0 <= i < j < |vs| && vs[i].block.Some? ==> vs[i].block != vs[j].block)
  }

  ghost function Contents(vs: seq<Value>, live: map<nat, bytes>): (r: seq<bytes>)
    requires Owns(vs, live)
    ensures |r| == |vs|
  {
    seq(|vs|, i requires 0 <= i < |vs| => Content(vs[i], live))
  }

  /** s_parsed_value_collection. */
  class Collection {
    var values: seq<Value>

    constructor ()
      ensures values == []
    {
      values := [];
    }
  }

  /** The words visible through a calldata pointer that may be null. */
  ghost function Visible(cd: Store?): seq<Word>
    reads cd
  {
    if cd == null then [] else cd.View()
  }

  ghost predicate StoreOk(cd: Store?)
    reads cd, if cd == null then {} else {cd.chunk}
  {
    cd != null ==> cd.Valid()
  }

  ghost function Scratch(cd: Store?): set<object> {
    if cd == null then {} else {cd.chunk}
  }

  /** calldata_get_chunk through a pointer that may be null; the word is the
      content of the scratch buffer at that moment. */
  method FetchWord(cd: Store?, idx: u32) returns (w: Option<Word>)
    requires StoreOk(cd)
    modifies Scratch(cd)
    ensures StoreOk(cd)
    ensures w == if idx < |Visible(cd)| then Some(Visible(cd)[idx]) else None
  {
    if cd == null { return None; }
    var ok := cd.GetChunk(idx);
    if !ok { return None; }
    return Some(cd.chunk[..]);
  }

  /** A word read as a 16-bit number, as path_ref, path_leaf and path_array do. */
  method FetchSmall(cd: Store?, idx: u32) returns (n: Option<u16>)
    requires StoreOk(cd)
    modifies Scratch(cd)
    ensures StoreOk(cd)
    ensures n == ReadSmall(Visible(cd), idx)
  {
    var w := FetchWord(cd, idx);
    if w.None? { return None; }
    n := Small(w.value);
  }

  /* ---- Slices ---- */

  /** The conversion of an int32_t to uint16_t. */
  function Narrow(x: int): u16 {
    x % U16
  }

  /** path_slice, with both bounds narrowed to uint16_t as in the source. */
  method PathSlice(slice: Bounds, coll: Collection, heap: Heap) returns (ok: bool)
    requires heap.Valid() && Owns(coll.values, heap.live)
    modifies coll
    ensures Owns(coll.values, heap.live) && Blocks(coll.values) == Blocks(old(coll.values))
    ensures var r := Emit([], Slice(slice), ORIGIN, old(Contents(coll.values, heap.live)));
      ok == r.Some? && (ok ==> Contents(coll.values, heap.live) == r.value)
    ensures ok ==> SlicedAt(slice, old(Contents(coll.values, heap.live)), Contents(coll.values, heap.live))
    ensures !ok ==> coll.values == old(coll.values)
  {
    hide Narrow, Blocks, Owns, Content, Select;
    var n := |coll.values|;
    if n == 0 { return false; }
    assert ValueOk(coll.values[n - 1], heap.live) by { LastOk(coll.values, heap.live); }
    LastLength(coll.values, heap.live);
    var last := coll.values[n - 1];
    var valueLength := last.length;
    var start := if slice.hasStart then
                   (if slice.start < 0 then Narrow(valueLength as int + slice.start) else slice.start as int)
                 else 0;
    var end := if slice.hasEnd then
                 (if slice.end < 0 then Narrow(valueLength as int + slice.end) else slice.end as int)
               else valueLength as int;
    NarrowedBounds(slice, valueLength, start, end);
    SliceOfLast([], slice, ORIGIN, Contents(coll.values, heap.live));
    hide SlicedAt;
    if start >= end || end > valueLength {
      return false;
    }
    var cut := last.(pos := last.pos + start, length := end - start, offset := last.offset + start);
    SlicedContents(coll.values, heap.live, cut, start, end);
    coll.values := coll.values[n - 1 := cut];
    return true;
  }

  /** A bound that wraps when narrowed to 16 bits is always rejected, so the
      narrowed test accepts exactly the intervals inside the value. */
  lemma NarrowedBounds(b: Bounds, n: u16, start: int, end: int)
    requires start == if b.hasStart then (if b.start < 0 then Narrow(n as int + b.start) else b.start) else 0
    requires end == if b.hasEnd then (if b.end < 0 then Narrow(n as int + b.end) else b.end) else n
    ensures (start >= end || end > n) <==> Select(b, n).None?
    ensures Select(b, n).Some? ==> Select(b, n) == Some((start, end))
  {
  }

  lemma LastOk(vs: seq<Value>, live: map<nat, bytes>)
    requires Owns(vs, live) && vs != []
    ensures ValueOk(vs[|vs| - 1], live)
  {
  }

  lemma LastLength(vs: seq<Value>, live: map<nat, bytes>)
    requires Owns(vs, live) && vs != []
    ensures |Contents(vs, live)[|vs| - 1]| == vs[|vs| - 1].length
  {
    assert ValueOk(vs[|vs| - 1], live);
  }

  lemma SlicedContents(vs: seq<Value>, live: map<nat, bytes>, cut: Value, start: nat, end: nat)
    requires vs != [] && Owns(vs, live) && start < end <= vs[|vs| - 1].length
    requires var last := vs[|vs| - 1];
      cut == Value(last.block, last.pos + start, last.size, last.offset + start, end - start)
    ensures var now := vs[|vs| - 1 := cut];
      && Owns(now, live) && Blocks(now) == Blocks(vs)
      && Contents(now, live) == Contents(vs, live)[..|vs| - 1] + [Contents(vs, live)[|vs| - 1][start..end]]
  {
    var n := |vs| - 1;
    var last, now := vs[n], vs[n := cut];
    assert ValueOk(last, live);
    assert Content(cut, live) == Content(last, live)[start..end] by {
      if last.block.Some? { SubSlice(live[last.block.value], last.pos, last.length, start, end); }
    }
    SameBlocks(now, vs);
  }

  lemma SameBlocks(a: seq<Value>, b: seq<Value>)
    requires |a| == |b| && forall i :: 0 <= i < |a| ==> a[i].block == b[i].block
    ensures Blocks(a) == Blocks(b)
  {
    forall v | v in a && v.block.Some? ensures v.block.value in Blocks(b) {
      var i :| 0 <= i < |a| && a[i] == v;
      assert b[i] in b;
    }
    forall v | v in b && v.block.Some? ensures v.block.value in Blocks(a) {
      var i :| 0 <= i < |b| && b[i] == v;
      assert a[i] in a;
    }
  }

  /* ---- Leaves ---- */

  /** Offsets stay far below 2^32, so no 32-bit addition in the walk wraps. */
  const STEP: nat := 0x100_0000
  const OFFSET_LIMIT: nat := PATH_MAX_SIZE * STEP

  /** The blocks that do not belong to a collection. */
  ghost function Others(live: map<nat, bytes>, vs: seq<Value>): map<nat, bytes> {
    live - Blocks(vs)
  }

  /** One turn of the copy loop of path_leaf. */
  method CopyWord(cd: Store?, idx: u32, heap: Heap, id: nat, pos: nat, cpyLength: nat) returns (ok: bool)
    requires StoreOk(cd) && heap.Valid() && id in heap.live
    requires cpyLength <= CHUNK_SIZE && pos + cpyLength <= |heap.live[id]|
    modifies Scratch(cd), heap
    ensures StoreOk(cd) && heap.Valid() && heap.exhausted == old(heap.exhausted) && Visible(cd) == old(Visible(cd))
    ensures ok == (idx < |Visible(cd)|)
    ensures id in heap.live && heap.live == old(heap.live)[id := heap.live[id]]
    ensures |heap.live[id]| == |old(heap.live[id])|
    ensures ok ==> heap.live[id][..pos + cpyLength] == old(heap.live[id])[..pos] + Visible(cd)[idx][..cpyLength]
  {
    var w := FetchWord(cd, idx);
    if w.None? { return false; }
    heap.Write(id, pos, w.value[..cpyLength]);
    return true;
  }

  /** After c words: the block starts with them, and what is still to be read
      completes it to the bytes wanted. */
  ghost predicate Copied(want: Option<bytes>, mem: seq<Word>, off: nat, length: nat, c: nat, block: bytes) {
    && |block| == length
    && (if c * CHUNK_SIZE < length then
          want == Behind(block[..c * CHUNK_SIZE], ReadBytes(mem, off + c, length - c * CHUNK_SIZE))
        else want == Some(block))
  }

  lemma StartCopying(mem: seq<Word>, off: nat, length: nat, block: bytes)
    requires |block| == length
    ensures Copied(ReadBytes(mem, off, length), mem, off, length, 0, block)
  {
    var want := ReadBytes(mem, off, length);
    if want.Some? { assert [] + want.value == want.value; }
    assert block[..0] == [];
  }

  lemma KeepCopying(want: Option<bytes>, mem: seq<Word>, off: nat, length: nat, c: nat, block: bytes, block': bytes, cpy: nat)
    requires Copied(want, mem, off, length, c, block) && c * CHUNK_SIZE < length && off + c < |mem|
    requires |block'| == length
    requires cpy == if length - c * CHUNK_SIZE < CHUNK_SIZE then length - c * CHUNK_SIZE else CHUNK_SIZE
    requires block'[..c * CHUNK_SIZE + cpy] == block[..c * CHUNK_SIZE] + mem[off + c][..cpy]
    ensures Copied(want, mem, off, length, c + 1, block')
  {
    hide ReadBytes;
    BehindStep(block[..c * CHUNK_SIZE], mem, off + c, length - c * CHUNK_SIZE);
    if (c + 1) * CHUNK_SIZE >= length {
      assert block'[..length] == block';
    }
  }

  lemma CannotCopy(want: Option<bytes>, mem: seq<Word>, off: nat, length: nat, c: nat, block: bytes)
    requires Copied(want, mem, off, length, c, block) && c * CHUNK_SIZE < length && off + c >= |mem|
    ensures want.None?
  {
  }

  /** The copy loop of path_leaf. */
  method CopyWords(cd: Store?, offset: u32, heap: Heap, id: nat, length: u16) returns (ok: bool)
    requires StoreOk(cd) && heap.Valid() && id in heap.live && |heap.live[id]| == length
    requires offset <= OFFSET_LIMIT + 1
    modifies Scratch(cd), heap
    ensures StoreOk(cd) && heap.Valid() && heap.exhausted == old(heap.exhausted) && Visible(cd) == old(Visible(cd))
    ensures id in heap.live && heap.live == old(heap.live)[id := heap.live[id]]
    ensures |heap.live[id]| == length
    ensures ok == ReadBytes(Visible(cd), offset, length).Some?
    ensures ok ==> heap.live[id] == ReadBytes(Visible(cd), offset, length).value
  {
    hide ReadBytes, Copied, Store.Valid, Store.View;
    ghost var mem := Visible(cd);
    ghost var want := ReadBytes(mem, offset, length);
    ghost var before := heap.live;
    StartCopying(mem, offset, length, heap.live[id]);
    var chunkIdx := 0;
    while chunkIdx * CHUNK_SIZE < length
      invariant 0 <= chunkIdx <= 2048
      invariant StoreOk(cd) && heap.Valid() && Visible(cd) == mem && heap.exhausted == old(heap.exhausted)
      invariant id in heap.live && |heap.live[id]| == length && heap.live == before[id := heap.live[id]]
      invariant Copied(want, mem, offset, length, chunkIdx, heap.live[id])
    {
      var pos := chunkIdx * CHUNK_SIZE;
      var cpyLength := if length - pos < CHUNK_SIZE then length - pos else CHUNK_SIZE;
      ghost var block := heap.live[id];
      var copied := CopyWord(cd, (offset + chunkIdx) % U32, heap, id, pos, cpyLength);
      if !copied {
        assert |mem| <= offset + chunkIdx;
        CannotCopy(want, mem, offset, length, chunkIdx, block);
        return false;
      }
      KeepCopying(want, mem, offset, length, chunkIdx, block, heap.live[id], cpyLength);
      chunkIdx := chunkIdx + 1;
    }
    DoneCopying(want, mem, offset, length, chunkIdx, heap.live[id]);
    return true;
  }

  lemma DoneCopying(want: Option<bytes>, mem: seq<Word>, off: nat, length: nat, c: nat, block: bytes)
    requires Copied(want, mem, off, length, c, block) && c * CHUNK_SIZE >= length
    ensures want == Some(block)
  {
  }

  function Behind(done: bytes, rest: Option<bytes>): Option<bytes> {
    if rest.Some? then Some(done + rest.value) else None
  }

  lemma NothingToRead(mem: seq<Word>, off: nat)
    ensures ReadBytes(mem, off, 0) == Some([])
  {
  }

  lemma BehindStep(done: bytes, mem: seq<Word>, off: nat, len: nat)
    requires off < |mem| && len > 0
    ensures len <= CHUNK_SIZE ==> Behind(done, ReadBytes(mem, off, len)) == Some(done + mem[off][..len])
    ensures len > CHUNK_SIZE ==>
      Behind(done, ReadBytes(mem, off, len)) == Behind(done + mem[off], ReadBytes(mem, off + 1, len - CHUNK_SIZE))
    ensures mem[off][..CHUNK_SIZE] == mem[off]
  {
    if len > CHUNK_SIZE && ReadBytes(mem, off + 1, len - CHUNK_SIZE).Some? {
      var r := ReadBytes(mem, off + 1, len - CHUNK_SIZE).value;
      assert done + (mem[off] + r) == (done + mem[off]) + r;
    }
  }

  /** path_leaf: allocates exactly the value's length and appends it; a failure
      after the allocation gives the block back. */
  method PathLeaf(kind: LeafKind, offset: u32, ghost ref: nat, cd: Store?, coll: Collection, heap: Heap)
      returns (ok: bool, offset': u32)
    requires StoreOk(cd) && heap.Valid() && Owns(coll.values, heap.live) && offset <= OFFSET_LIMIT
    modifies Scratch(cd), heap, coll
    ensures StoreOk(cd) && heap.Valid() && Owns(coll.values, heap.live) && Visible(cd) == old(Visible(cd))
    ensures Others(heap.live, coll.values) == old(Others(heap.live, coll.values))
    ensures var mem, cur := Visible(cd), Cursor(offset, ref);
      && (ok ==>
            && Move(mem, Leaf(kind), cur) == Some(Cursor(offset', ref))
            && Emit(mem, Leaf(kind), cur, old(Contents(coll.values, heap.live)))
               == Some(Contents(coll.values, heap.live)))
      && (!ok ==>
            || heap.exhausted
            || Move(mem, Leaf(kind), cur).None?
            || Emit(mem, Leaf(kind), cur, old(Contents(coll.values, heap.live))).None?)
    ensures old(heap.exhausted) ==> heap.exhausted
  {
    hide ReadBytes, Small, Blocks, Owns, Content, Store.Valid, Store.View, Others;
    ok, offset' := false, offset;
    if |coll.values| >= MAX_COLLECTION {
      return;
    }
    var length: u16;
    match kind {
      case LeafStatic =>
        length := CHUNK_SIZE;
      case LeafDynamic =>
        var n := FetchSmall(cd, offset);
        if n.None? { return; }
        length := n.value;
        offset' := (offset + 1) % U32;
      case _ => return;
    }
    if length > 0 {
      ok := AppendLeaf(offset', length, cd, coll, heap);
    } else {
      NothingToRead(Visible(cd), offset');
      AddEmpty(coll.values, heap.live);
      coll.values := coll.values + [Value(None, 0, 0, 0, 0)];
      ok := true;
    }
  }

  /** The part of path_leaf that allocates, copies and appends. */
  method AppendLeaf(offset: u32, length: u16, cd: Store?, coll: Collection, heap: Heap) returns (ok: bool)
    requires StoreOk(cd) && heap.Valid() && Owns(coll.values, heap.live)
    requires offset <= OFFSET_LIMIT + 1 && length > 0 && |coll.values| < MAX_COLLECTION
    modifies Scratch(cd), heap, coll
    ensures StoreOk(cd) && heap.Valid() && Owns(coll.values, heap.live) && Visible(cd) == old(Visible(cd))
    ensures Others(heap.live, coll.values) == old(Others(heap.live, coll.values))
    ensures old(heap.exhausted) ==> heap.exhausted
    ensures ok ==>
      && ReadBytes(Visible(cd), offset, length).Some?
      && Contents(coll.values, heap.live)
         == old(Contents(coll.values, heap.live)) + [ReadBytes(Visible(cd), offset, length).value]
    ensures !ok ==> heap.exhausted || ReadBytes(Visible(cd), offset, length).None?
  {
    ghost var live0 := heap.live;
    ok := false;
    var id := heap.Alloc(length);
    if id.None? { return; }
    var copied := CopyWords(cd, offset, heap, id.value, length);
    if !copied {
      heap.Free(id.value, 0);
      assert heap.live == live0;
      return;
    }
    AddBlock(coll.values, live0, heap.live, id.value, length);
    coll.values := coll.values + [Value(Some(id.value), 0, length, 0, length)];
    ok := true;
  }

  lemma AddEmpty(vs: seq<Value>, live: map<nat, bytes>)
    requires Owns(vs, live) && |vs| < MAX_COLLECTION
    ensures var now := vs + [Value(None, 0, 0, 0, 0)];
      && Owns(now, live) && Contents(now, live) == Contents(vs, live) + [[]]
      && Others(live, now) == Others(live, vs)
  {
    var now := vs + [Value(None, 0, 0, 0, 0)];
    assert Blocks(now) == Blocks(vs);
  }

  lemma AddBlock(vs: seq<Value>, live0: map<nat, bytes>, live: map<nat, bytes>, id: nat, length: u16)
    requires Owns(vs, live0) && |vs| < MAX_COLLECTION && length > 0
    requires id !in live0 && id in live && |live[id]| == length && live == live0[id := live[id]]
    ensures var now := vs + [Value(Some(id), 0, length, 0, length)];
      && Owns(now, live) && Contents(now, live) == Contents(vs, live0) + [live[id]]
      && Others(live, now) == Others(live0, vs)
  {
    var v := Value(Some(id), 0, length, 0, length);
    var now := vs + [v];
    assert live[id][0..length] == live[id];
    forall i | 0 <= i < |vs| ensures ValueOk(vs[i], live) && Content(vs[i], live) == Content(vs[i], live0) && vs[i].block != Some(id) {
      assert ValueOk(vs[i], live0);
    }
    assert Blocks(now) == Blocks(vs) + {id} by {
      assert now[|vs|] == v && v in now;
      assert forall x :: x in now <==> x in vs || x == v;
    }
  }

  /* ---- References and arrays ---- */

  method PathRef(offset: u32, refOffset: u32, cd: Store?) returns (ok: bool, offset': u32)
    requires StoreOk(cd) && refOffset <= OFFSET_LIMIT
    modifies Scratch(cd)
    ensures StoreOk(cd) && Visible(cd) == old(Visible(cd))
    ensures var r := Move(Visible(cd), Ref, Cursor(offset, refOffset));
      ok == r.Some? && (ok ==> r.value == Cursor(offset', refOffset))
  {
    hide Small, Store.Valid, Store.View;
    ok, offset' := false, offset;
    var raw := FetchSmall(cd, offset);
    if raw.None? || raw.value % CHUNK_SIZE != 0 {
      return;
    }
    if raw.value / CHUNK_SIZE + refOffset >= U32 {
      return;  // __builtin_add_overflow
    }
    ok, offset' := true, raw.value / CHUNK_SIZE + refOffset;
  }

  /** Counters left, each the passes of an array less the index it is at. */
  ghost predicate Left(left: seq<u8>, v: Vec, passes: Vec)
    requires |v| == |passes| <= |left|
  {
    forall j :: 0 <= j < |v| ==> v[j] < passes[j] <= MAX_PASSES && left[j] == passes[j] - v[j]
  }

  /** s_arrays_info. */
  class ArraysInfo {
    var depth: nat
    var index: nat
    const passesRemaining: array<u8>

    constructor ()
      ensures depth == 0 && index == 0 && fresh(passesRemaining) && passesRemaining.Length == MAX_ARRAYS
    {
      depth, index := 0, 0;
      passesRemaining := new u8[MAX_ARRAYS](i => 0);
    }
  }

  /** The bounds of path_array, computed as 32-bit signed numbers. */
  method ReadExtent(bounds: Bounds, offset: u32, cd: Store?) returns (extent: Option<(nat, nat)>)
    requires StoreOk(cd)
    modifies Scratch(cd)
    ensures StoreOk(cd) && Visible(cd) == old(Visible(cd))
    ensures extent == Extent(Visible(cd), bounds, offset)
    ensures extent.Some? ==> extent.value.1 > 0 && extent.value.0 + extent.value.1 < U16
  {
    hide Small, Store.Valid, Store.View;
    var size := FetchSmall(cd, offset);
    if size.None? {
      return None;
    }
    var arraySize := size.value;
    var start := if bounds.hasStart then
                   (if bounds.start < 0 then arraySize as int + bounds.start else bounds.start as int)
                 else 0;
    var end := if bounds.hasEnd then
                 (if bounds.end < 0 then arraySize as int + bounds.end else bounds.end as int)
               else arraySize as int;
    if start < 0 || end < 0 || start > arraySize || end > arraySize || end <= start {
      return None;
    }
    return Some((start, end - start));
  }

  /** path_array.  Reopening an array that is already open (index below depth)
      relies on reading the extent it was opened with. */
  method PathArray(e: Element, offset: u32, cd: Store?, info: ArraysInfo, ghost k: nat)
      returns (ok: bool, offset': u32, refOffset': u32)
    requires e.Array? && StoreOk(cd) && offset < OFFSET_LIMIT && info.passesRemaining.Length == MAX_ARRAYS
    requires info.passesRemaining !in Scratch(cd)
    requires info.index <= info.depth <= MAX_ARRAYS
    requires info.index == info.depth ==> k == 0
    requires info.index < info.depth ==>
      match Extent(Visible(cd), e.bounds, offset)
      case None => true
      case Some((start, n)) => k < n <= MAX_PASSES && info.passesRemaining[info.index] == n - k
    modifies Scratch(cd), info, info.passesRemaining
    ensures StoreOk(cd) && Visible(cd) == old(Visible(cd))
    ensures var w := Window(Visible(cd), e, offset, old(info.index));
      ok == w.Some? &&
      (ok ==>
         var (start, n) := w.value;
         && k < n
         && Cursor(offset', refOffset') == Enter(e, Cursor(offset, 0), start, k)
         && offset' < offset + STEP && refOffset' < offset + STEP
         && info.index == old(info.index) + 1
         && info.depth == (if old(info.depth) < info.index then info.index else old(info.depth))
         && info.passesRemaining[..] == old(info.passesRemaining[..])[old(info.index) := n - k])
  {
    hide Small, Store.Valid, Store.View, Extent;
    ok, offset', refOffset' := false, offset, 0;
    if info.index >= MAX_ARRAYS {
      return;
    }
    var extent := ReadExtent(e.bounds, offset, cd);
    if extent.None? {
      return;
    }
    var (start, passes) := extent.value;
    offset' := (offset + 1) % U32;
    if info.index == info.depth {
      if passes > 255 {
        return;
      }
      info.passesRemaining[info.index] := passes;
      info.depth := info.depth + 1;
    }
    var idx := (start + (passes - info.passesRemaining[info.index])) % U16;
    IndexFits(start, passes, info.passesRemaining[info.index], idx, e.weight);
    refOffset' := offset';
    var product := idx * e.weight;
    if product >= U32 || offset' + product >= U32 {
      return;
    }
    offset' := offset' + product;
    info.index := info.index + 1;
    ok := true;
  }

  lemma IndexFits(start: int, passes: int, remaining: int, idx: int, weight: u8)
    requires 0 <= start && 0 < remaining <= passes && start + passes < U16
    requires idx == (start + (passes - remaining)) % U16
    ensures idx == start + (passes - remaining)
    ensures 0 <= idx * weight < STEP - 1
  {
    MulMono(idx, 0xFFFF, weight);
    MulMono(0, idx, weight);
  }

  /* ---- The odometer ---- */

  /** arrays_update: counts the innermost open array down and closes the
      exhausted ones. */
  method ArraysUpdate(info: ArraysInfo, ghost v: Vec, ghost passes: Vec)
    requires info.passesRemaining.Length == MAX_ARRAYS
    requires info.depth == |v| == |passes| <= MAX_ARRAYS && Left(info.passesRemaining[..], v, passes)
    modifies info, info.passesRemaining
    ensures info.index == old(info.index)
    ensures match Next(v, passes)
      case None => info.depth == 0
      case Some(t) =>
        && info.depth == |t| <= |v| && |t| > 0
        && Left(info.passesRemaining[..], t, passes[..|t|])
        && info.passesRemaining[|t| - 1] < old(info.passesRemaining[|t| - 1])
        && forall j :: 0 <= j < |t| - 1 ==> info.passesRemaining[j] == old(info.passesRemaining[j])
  {
    ghost var before := info.passesRemaining[..];
    assert v[..info.depth] == v && passes[..info.depth] == passes;
    while info.depth > 0
      invariant 0 <= info.depth <= |v| && info.index == old(info.index)
      invariant Next(v, passes) == Next(v[..info.depth], passes[..info.depth])
      invariant forall j :: 0 <= j < info.depth ==> info.passesRemaining[j] == before[j]
      decreases info.depth
    {
      var d := info.depth - 1;
      NextFromBack(v[..d + 1], passes[..d + 1]);
      assert v[..d + 1][..d] == v[..d] && passes[..d + 1][..d] == passes[..d];
      info.passesRemaining[d] := info.passesRemaining[d] - 1;
      if info.passesRemaining[d] > 0 {
        break;
      }
      info.depth := info.depth - 1;
    }
  }

  /** The odometer read from its last wheel. */
  lemma {:induction false} NextFromBack(v: Vec, passes: Vec)
    requires |v| == |passes| > 0
    ensures var d := |v| - 1;
      Next(v, passes) == if v[d] + 1 < passes[d] then Some(v[..d] + [v[d] + 1]) else Next(v[..d], passes[..d])
  {
    var d := |v| - 1;
    if d > 0 {
      NextFromBack(v[1..], passes[1..]);
      assert v[1..][..d - 1] == v[..d][1..] && passes[1..][..d - 1] == passes[..d][1..];
      assert [v[0]] + (v[1..][..d - 1] + [v[d] + 1]) == v[..d] + [v[d] + 1];
    } else {
      assert v[..0] + [v[0] + 1] == [v[0] + 1];
      assert Next(v[1..], passes[1..]).None?;
    }
  }

  /* ---- One pass ---- */

  function Drop(s: Vec, n: nat): Vec {
    if n <= |s| then s[n..] else []
  }

  function Prepend(vs: Vec, ps: Vec, r: Option<PassResult>): Option<PassResult> {
    if r.Some? then Some(PassResult(vs + r.value.v, ps + r.value.passes, r.value.coll)) else None
  }

  /** After i elements: the arrays met so far took the indices vs out of ps, and
      the rest of the pass runs from cur with the collection as it stands. */
  ghost predicate Progress(mem: seq<Word>, path: Path, pre: Vec, coll0: seq<bytes>,
                           i: nat, cur: Cursor, vs: Vec, ps: Vec, coll: seq<bytes>)
    requires i <= |path|
  {
    && |vs| == |ps|
    && Pass(mem, path, ORIGIN, 0, pre, coll0)
       == Prepend(vs, ps, Pass(mem, path[i..], cur, |vs|, Drop(pre, |vs|), coll))
  }

  lemma ProgressStart(mem: seq<Word>, path: Path, pre: Vec, coll: seq<bytes>)
    ensures Progress(mem, path, pre, coll, 0, ORIGIN, [], [], coll)
  {
    assert path[0..] == path && Drop(pre, 0) == pre;
    var r := Pass(mem, path, ORIGIN, 0, pre, coll);
    if r.Some? { assert [] + r.value.v == r.value.v && [] + r.value.passes == r.value.passes; }
  }

  lemma ProgressArray(mem: seq<Word>, path: Path, pre: Vec, coll0: seq<bytes>,
                      i: nat, cur: Cursor, vs: Vec, ps: Vec, coll: seq<bytes>)
    requires i < |path| && path[i].Array? && Progress(mem, path, pre, coll0, i, cur, vs, ps, coll)
    ensures var w := Window(mem, path[i], cur.off, |vs|);
      var k := HeadOf(Drop(pre, |vs|));
      if w.None? || k >= w.value.1 then Pass(mem, path, ORIGIN, 0, pre, coll0).None?
      else
        var (start, n) := w.value;
        Progress(mem, path, pre, coll0, i + 1, Enter(path[i], cur, start, k), vs + [k], ps + [n], coll)
  {
    assert path[i..][0] == path[i] && path[i..][1..] == path[i + 1..];
    PassArray(mem, path[i..], cur, |vs|, Drop(pre, |vs|), coll);
    assert TailOf(Drop(pre, |vs|)) == Drop(pre, |vs| + 1);
    hide Pass, OpenArray, Window, Enter, TailOf, HeadOf, Drop;
    var w := Window(mem, path[i], cur.off, |vs|);
    var k := HeadOf(Drop(pre, |vs|));
    if w.Some? && k < w.value.1 {
      var (start, n) := w.value;
      PrependOpen(vs, ps, k, n, Pass(mem, path[i + 1..], Enter(path[i], cur, start, k), |vs| + 1, Drop(pre, |vs| + 1), coll));
    }
  }

  lemma PassArray(mem: seq<Word>, path: Path, cur: Cursor, depth: nat, pre: Vec, coll: seq<bytes>)
    requires path != [] && path[0].Array?
    ensures var w := Window(mem, path[0], cur.off, depth);
      Pass(mem, path, cur, depth, pre, coll) ==
        if w.None? || HeadOf(pre) >= w.value.1 then None
        else OpenArray(HeadOf(pre), w.value.1,
                       Pass(mem, path[1..], Enter(path[0], cur, w.value.0, HeadOf(pre)), depth + 1, TailOf(pre), coll))
  {
    hide Window, OpenArray, Enter, HeadOf, TailOf;
  }

  lemma PrependOpen(vs: Vec, ps: Vec, k: nat, n: nat, r: Option<PassResult>)
    ensures Prepend(vs, ps, OpenArray(k, n, r)) == Prepend(vs + [k], ps + [n], r)
  {
    if r.Some? {
      assert vs + ([k] + r.value.v) == (vs + [k]) + r.value.v;
      assert ps + ([n] + r.value.passes) == (ps + [n]) + r.value.passes;
    }
  }

  lemma ProgressMove(mem: seq<Word>, path: Path, pre: Vec, coll0: seq<bytes>,
                     i: nat, cur: Cursor, vs: Vec, ps: Vec, coll: seq<bytes>)
    requires i < |path| && !path[i].Array? && Progress(mem, path, pre, coll0, i, cur, vs, ps, coll)
    ensures var m, c := Move(mem, path[i], cur), Emit(mem, path[i], cur, coll);
      if m.None? || c.None? then Pass(mem, path, ORIGIN, 0, pre, coll0).None?
      else Progress(mem, path, pre, coll0, i + 1, m.value, vs, ps, c.value)
  {
    assert path[i..][1..] == path[i + 1..];
  }

  lemma ProgressDone(mem: seq<Word>, path: Path, pre: Vec, coll0: seq<bytes>,
                     cur: Cursor, vs: Vec, ps: Vec, coll: seq<bytes>)
    requires Progress(mem, path, pre, coll0, |path|, cur, vs, ps, coll)
    ensures Pass(mem, path, ORIGIN, 0, pre, coll0) == Some(PassResult(vs, ps, coll))
  {
    assert path[|path|..] == [] && vs + [] == vs && ps + [] == ps;
  }

  lemma ExtentsArray(mem: seq<Word>, path: Path, i: nat, cur: Cursor, pre: Vec, passes: Vec, m: nat)
    requires i < |path| && path[i].Array? && |pre| == |passes|
    requires SameExtents(mem, path[i..], cur, Drop(pre, m), Drop(passes, m))
    ensures m < |pre| ==>
      match Extent(mem, path[i].bounds, cur.off)
      case None => true
      case Some((start, n)) =>
        n == passes[m] &&
        SameExtents(mem, path[i + 1..], Enter(path[i], cur, start, pre[m]), Drop(pre, m + 1), Drop(passes, m + 1))
    ensures m >= |pre| ==> Drop(pre, m + 1) == Drop(passes, m + 1) == []
  {
    assert path[i..][1..] == path[i + 1..];
    if m < |pre| {
      assert Drop(pre, m)[1..] == Drop(pre, m + 1) && Drop(passes, m)[1..] == Drop(passes, m + 1);
    }
  }

  lemma ExtentsMove(mem: seq<Word>, path: Path, i: nat, cur: Cursor, pre: Vec, passes: Vec)
    requires i < |path| && !path[i].Array? && |pre| == |passes|
    requires SameExtents(mem, path[i..], cur, pre, passes) && Move(mem, path[i], cur).Some?
    ensures SameExtents(mem, path[i + 1..], Move(mem, path[i], cur).value, pre, passes)
  {
    assert path[i..][1..] == path[i + 1..];
  }

  /** The cases of the switch in data_path_get other than arrays. */
  method PathElement(e: Element, offset: u32, refOffset: u32, cd: Store?, coll: Collection, heap: Heap)
      returns (ok: bool, offset': u32, refOffset': u32)
    requires !e.Array? && StoreOk(cd) && heap.Valid() && Owns(coll.values, heap.live)
    requires offset < OFFSET_LIMIT && refOffset < OFFSET_LIMIT
    modifies Scratch(cd), heap, coll
    ensures StoreOk(cd) && heap.Valid() && Owns(coll.values, heap.live) && Visible(cd) == old(Visible(cd))
    ensures Others(heap.live, coll.values) == old(Others(heap.live, coll.values))
    ensures old(heap.exhausted) ==> heap.exhausted
    ensures var m := Move(Visible(cd), e, Cursor(offset, refOffset));
      var c := Emit(Visible(cd), e, Cursor(offset, refOffset), old(Contents(coll.values, heap.live)));
      && (ok ==> m == Some(Cursor(offset', refOffset')) && c == Some(Contents(coll.values, heap.live)))
      && (!ok ==> heap.exhausted || m.None? || c.None?)
    ensures ok ==> offset' < Max(offset, refOffset) + STEP && refOffset' < Max(offset, refOffset) + STEP
  {
    hide ReadBytes, Small, Blocks, Owns, Content, Store.Valid, Store.View, Others;
    ok, offset', refOffset' := true, offset, refOffset;
    match e {
      case Tuple(value) =>
        refOffset' := offset;
        offset' := (offset + value) % U32;
      case Ref =>
        ok, offset' := PathRef(offset, refOffset, cd);
      case Leaf(kind) =>
        ok, offset' := PathLeaf(kind, offset, refOffset, cd, coll, heap);
      case Slice(slice) =>
        ok := PathSlice(slice, coll, heap);
        SliceIsLocal(Visible(cd), slice, offset, refOffset, old(Contents(coll.values, heap.live)));
        SameOthers(heap.live, coll.values, old(coll.values));
      case Array(_, _) =>
    }
  }

  function Max(a: nat, b: nat): nat {
    if a < b then b else a
  }

  lemma SliceIsLocal(mem: seq<Word>, slice: Bounds, off: nat, ref: nat, coll: seq<bytes>)
    ensures Emit(mem, Slice(slice), Cursor(off, ref), coll) == Emit([], Slice(slice), ORIGIN, coll)
  {
  }

  lemma SameOthers(live: map<nat, bytes>, a: seq<Value>, b: seq<Value>)
    requires Blocks(a) == Blocks(b)
    ensures Others(live, a) == Others(live, b)
  {
  }

  /** The state of a pass after i elements, counters included: an array open
      before the pass still shows the counter it started the pass with. */
  ghost predicate InPass(mem: seq<Word>, path: Path, pre: Vec, passes: Vec, coll0: seq<bytes>,
                         i: nat, cur: Cursor, v: Vec, ps: Vec, coll: seq<bytes>, left: seq<u8>, depth: nat)
  {
    && i <= |path| && |left| == MAX_ARRAYS && |v| == |ps| && |pre| == |passes|
    && depth == Max(|pre|, |v|) <= MAX_ARRAYS
    && Progress(mem, path, pre, coll0, i, cur, v, ps, coll)
    && SameExtents(mem, path[i..], cur, Drop(pre, |v|), Drop(passes, |v|))
    && Left(left, v, ps) && Left(left, pre, passes)
    && |v| + CountArrays(path[i..]) == CountArrays(path)
  }

  lemma InPassStart(mem: seq<Word>, path: Path, pre: Vec, passes: Vec, coll0: seq<bytes>, left: seq<u8>)
    requires |left| == MAX_ARRAYS && |pre| == |passes| <= MAX_ARRAYS && Left(left, pre, passes)
    requires SameExtents(mem, path, ORIGIN, pre, passes)
    ensures InPass(mem, path, pre, passes, coll0, 0, ORIGIN, [], [], coll0, left, |pre|)
  {
    ProgressStart(mem, path, pre, coll0);
    assert path[0..] == path && Drop(pre, 0) == pre && Drop(passes, 0) == passes;
  }

  /** Meeting an array in a pass: its counter is known if it is open. */
  lemma InPassArray(mem: seq<Word>, path: Path, pre: Vec, passes: Vec, coll0: seq<bytes>,
                    i: nat, cur: Cursor, v: Vec, ps: Vec, coll: seq<bytes>, left: seq<u8>, depth: nat)
    requires InPass(mem, path, pre, passes, coll0, i, cur, v, ps, coll, left, depth)
    requires i < |path| && path[i].Array?
    ensures |v| < depth ==>
      match Extent(mem, path[i].bounds, cur.off)
      case None => true
      case Some((start, n)) => HeadOf(Drop(pre, |v|)) < n <= MAX_PASSES && left[|v|] == n - HeadOf(Drop(pre, |v|))
    ensures |v| == depth ==> HeadOf(Drop(pre, |v|)) == 0
    ensures |v| <= depth
    ensures Window(mem, path[i], cur.off, |v|).None? ==> Pass(mem, path, ORIGIN, 0, pre, coll0).None?
  {
    hide Pass, SameExtents;
    ProgressArray(mem, path, pre, coll0, i, cur, v, ps, coll);
    ExtentsArray(mem, path, i, cur, pre, passes, |v|);
  }

  /** Setting the counter of an array that is entered. */
  lemma LeftEnter(left: seq<u8>, pre: Vec, passes: Vec, v: Vec, ps: Vec, k: nat, n: nat)
    requires |left| == MAX_ARRAYS && |v| == |ps| < MAX_ARRAYS && |pre| == |passes| <= MAX_ARRAYS && Left(left, v, ps) && Left(left, pre, passes)
    requires k < n <= MAX_PASSES && (|v| < |pre| ==> left[|v|] == n - k)
    ensures Left(left[|v| := n - k], v + [k], ps + [n]) && Left(left[|v| := n - k], pre, passes)
  {
  }

  lemma InPassEnter(mem: seq<Word>, path: Path, pre: Vec, passes: Vec, coll0: seq<bytes>,
                    i: nat, cur: Cursor, v: Vec, ps: Vec, coll: seq<bytes>, left: seq<u8>, depth: nat, start: nat, n: nat)
    requires InPass(mem, path, pre, passes, coll0, i, cur, v, ps, coll, left, depth)
    requires i < |path| && path[i].Array? && Window(mem, path[i], cur.off, |v|) == Some((start, n))
    requires HeadOf(Drop(pre, |v|)) < n
    ensures |v| < MAX_ARRAYS
    ensures var k := HeadOf(Drop(pre, |v|));
      InPass(mem, path, pre, passes, coll0, i + 1, Enter(path[i], cur, start, k), v + [k], ps + [n], coll,
             left[|v| := n - k], Max(depth, |v| + 1))
  {
    var k := HeadOf(Drop(pre, |v|));
    WindowDepth(mem, path[i], cur.off, |v|);
    ProgressArray(mem, path, pre, coll0, i, cur, v, ps, coll);
    ExtentsEnter(mem, path, i, cur, pre, passes, |v|, start, n);
    CountStep(path, i);
    hide Pass, SameExtents, Progress, Window, Enter, CountArrays, HeadOf, Drop;
    CounterAgrees(pre, passes, v, left, n);
    LeftEnter(left, pre, passes, v, ps, k, n);
    hide Left;
  }

  lemma WindowDepth(mem: seq<Word>, e: Element, off: nat, depth: nat)
    requires e.Array? && Window(mem, e, off, depth).Some?
    ensures depth < MAX_ARRAYS && Window(mem, e, off, depth).value.1 <= MAX_PASSES
    ensures Extent(mem, e.bounds, off) == Window(mem, e, off, depth)
  {
  }

  lemma CountStep(path: Path, i: nat)
    requires i < |path|
    ensures CountArrays(path[i..]) == (if path[i].Array? then 1 else 0) + CountArrays(path[i + 1..])
  {
    assert path[i..][0] == path[i] && path[i..][1..] == path[i + 1..];
  }

  /** The counter of an array that is open is that of its extent. */
  lemma CounterAgrees(pre: Vec, passes: Vec, v: Vec, left: seq<u8>, n: nat)
    requires |pre| == |passes| <= |left| && Left(left, pre, passes) && (|v| < |pre| ==> passes[|v|] == n)
    ensures |v| < |pre| ==> left[|v|] == n - HeadOf(Drop(pre, |v|))
  {
  }

  lemma ExtentsEnter(mem: seq<Word>, path: Path, i: nat, cur: Cursor, pre: Vec, passes: Vec, m: nat, start: nat, n: nat)
    requires i < |path| && path[i].Array? && |pre| == |passes|
    requires SameExtents(mem, path[i..], cur, Drop(pre, m), Drop(passes, m))
    requires Extent(mem, path[i].bounds, cur.off) == Some((start, n))
    ensures m < |pre| ==> passes[m] == n
    ensures |Drop(pre, m + 1)| == |Drop(passes, m + 1)|
    ensures SameExtents(mem, path[i + 1..], Enter(path[i], cur, start, HeadOf(Drop(pre, m))), Drop(pre, m + 1), Drop(passes, m + 1))
  {
    hide SameExtents, Extent;
    ExtentsArray(mem, path, i, cur, pre, passes, m);
    if m >= |pre| { NoExtents(mem, path[i + 1..], Enter(path[i], cur, start, HeadOf(Drop(pre, m)))); }
  }

  lemma InPassMove(mem: seq<Word>, path: Path, pre: Vec, passes: Vec, coll0: seq<bytes>,
                   i: nat, cur: Cursor, v: Vec, ps: Vec, coll: seq<bytes>, left: seq<u8>, depth: nat)
    requires InPass(mem, path, pre, passes, coll0, i, cur, v, ps, coll, left, depth)
    requires i < |path| && !path[i].Array?
    ensures var m, c := Move(mem, path[i], cur), Emit(mem, path[i], cur, coll);
      if m.None? || c.None? then Pass(mem, path, ORIGIN, 0, pre, coll0).None?
      else InPass(mem, path, pre, passes, coll0, i + 1, m.value, v, ps, c.value, left, depth)
  {
    hide Pass, SameExtents, Move, Emit;
    ProgressMove(mem, path, pre, coll0, i, cur, v, ps, coll);
    assert path[i..][1..] == path[i + 1..];
    if Move(mem, path[i], cur).Some? {
      ExtentsMove(mem, path, i, cur, Drop(pre, |v|), Drop(passes, |v|));
    }
  }

  lemma InPassEnd(mem: seq<Word>, path: Path, pre: Vec, passes: Vec, coll0: seq<bytes>,
                  cur: Cursor, v: Vec, ps: Vec, coll: seq<bytes>, left: seq<u8>, depth: nat)
    requires InPass(mem, path, pre, passes, coll0, |path|, cur, v, ps, coll, left, depth)
    requires |pre| <= CountArrays(path)
    ensures Pass(mem, path, ORIGIN, 0, pre, coll0) == Some(PassResult(v, ps, coll))
    ensures depth == |v| == |ps| == CountArrays(path) <= MAX_ARRAYS && |left| == MAX_ARRAYS && Left(left, v, ps)
  {
    ProgressDone(mem, path, pre, coll0, cur, v, ps, coll);
    assert path[|path|..] == [];
  }

  lemma NoExtents(mem: seq<Word>, path: Path, cur: Cursor)
    ensures SameExtents(mem, path, cur, [], [])
  {
  }

  /** One pass over the path: it takes the indices the odometer shows, opens the
      arrays it does not have open yet, and extends the collection as the
      functional pass does. */
  method RunPass(path: Path, cd: Store?, coll: Collection, heap: Heap, info: ArraysInfo,
                 ghost pre: Vec, ghost passes: Vec)
      returns (ok: bool, ghost v: Vec, ghost passes': Vec)
    requires |path| <= PATH_MAX_SIZE
    requires StoreOk(cd) && heap.Valid() && Owns(coll.values, heap.live)
    requires info.passesRemaining.Length == MAX_ARRAYS && info.passesRemaining !in Scratch(cd)
    requires info.depth == |pre| == |passes| <= MAX_ARRAYS && Left(info.passesRemaining[..], pre, passes)
    requires SameExtents(Visible(cd), path, ORIGIN, pre, passes) && |pre| <= CountArrays(path)
    modifies Scratch(cd), heap, coll, info, info.passesRemaining
    ensures StoreOk(cd) && heap.Valid() && Owns(coll.values, heap.live) && Visible(cd) == old(Visible(cd))
    ensures Others(heap.live, coll.values) == old(Others(heap.live, coll.values))
    ensures old(heap.exhausted) ==> heap.exhausted
    ensures !ok ==>
      heap.exhausted || Pass(Visible(cd), path, ORIGIN, 0, pre, old(Contents(coll.values, heap.live))).None?
    ensures ok ==>
      && Pass(Visible(cd), path, ORIGIN, 0, pre, old(Contents(coll.values, heap.live)))
         == Some(PassResult(v, passes', Contents(coll.values, heap.live)))
      && info.depth == |v| == |passes'| == CountArrays(path) <= MAX_ARRAYS && Left(info.passesRemaining[..], v, passes')
      && forall j :: 0 <= j < |pre| ==> info.passesRemaining[j] == old(info.passesRemaining[j])
  {
    hide Pass, InPass, SameExtents, Window, Extent, Move, Emit, Owns, Others, Contents, Content;
    hide Store.Valid, Store.View, CountArrays, Left;
    ghost var left0 := info.passesRemaining[..];
    ghost var mem, coll0 := Visible(cd), Contents(coll.values, heap.live);
    ghost var cur := ORIGIN;
    v, passes' := [], [];
    info.index := 0;
    var offset: u32, refOffset: u32 := 0, 0;
    InPassStart(mem, path, pre, passes, coll0, info.passesRemaining[..]);
    var i := 0;
    while i < |path|
      invariant 0 <= i <= |path|
      invariant StoreOk(cd) && heap.Valid() && Owns(coll.values, heap.live) && Visible(cd) == mem
      invariant Others(heap.live, coll.values) == old(Others(heap.live, coll.values))
      invariant old(heap.exhausted) ==> heap.exhausted
      invariant cur == Cursor(offset, refOffset) && offset <= i * STEP && refOffset <= i * STEP
      invariant info.index == |v|
      invariant InPass(mem, path, pre, passes, coll0, i, cur, v, passes', Contents(coll.values, heap.live),
                       info.passesRemaining[..], info.depth)
    {
      ghost var now, left := Contents(coll.values, heap.live), info.passesRemaining[..];
      if path[i].Array? {
        InPassArray(mem, path, pre, passes, coll0, i, cur, v, passes', now, left, info.depth);
        ghost var k, depth := HeadOf(Drop(pre, |v|)), info.depth;
        InPassDepth(mem, path, pre, passes, coll0, i, cur, v, passes', now, left, info.depth);
        ok, offset, refOffset := PathArray(path[i], offset, cd, info, k);
        if !ok { return; }
        ghost var (start, n) := Window(mem, path[i], cur.off, |v|).value;
        InPassEnter(mem, path, pre, passes, coll0, i, cur, v, passes', now, left, depth, start, n);
        v, passes' := v + [k], passes' + [n];
      } else {
        InPassMove(mem, path, pre, passes, coll0, i, cur, v, passes', now, left, info.depth);
        ok, offset, refOffset := PathElement(path[i], offset, refOffset, cd, coll, heap);
        if !ok { return; }
      }
      cur := Cursor(offset, refOffset);
      i := i + 1;
    }
    InPassEnd(mem, path, pre, passes, coll0, cur, v, passes', Contents(coll.values, heap.live),
              info.passesRemaining[..], info.depth);
    InPassKept(mem, path, pre, passes, coll0, i, cur, v, passes', Contents(coll.values, heap.live),
               info.passesRemaining[..], info.depth, left0);
    ok := true;
  }

  lemma InPassDepth(mem: seq<Word>, path: Path, pre: Vec, passes: Vec, coll0: seq<bytes>,
                    i: nat, cur: Cursor, v: Vec, ps: Vec, coll: seq<bytes>, left: seq<u8>, depth: nat)
    requires InPass(mem, path, pre, passes, coll0, i, cur, v, ps, coll, left, depth)
    ensures |v| <= depth <= MAX_ARRAYS && |v| == |ps|
  {
  }

  lemma InPassKept(mem: seq<Word>, path: Path, pre: Vec, passes: Vec, coll0: seq<bytes>,
                   i: nat, cur: Cursor, v: Vec, ps: Vec, coll: seq<bytes>, left: seq<u8>, depth: nat, left0: seq<u8>)
    requires InPass(mem, path, pre, passes, coll0, i, cur, v, ps, coll, left, depth)
    requires |pre| == |passes| <= |left0| && Left(left0, pre, passes)
    ensures |left| >= |pre| && forall j :: 0 <= j < |pre| ==> left[j] == left0[j]
  {
  }

  /* ---- The whole evaluation ---- */

  /** The termination measure of the odometer, wheel by wheel: a wheel that is
      not open counts 256, more than any open one can show. */
  ghost function Wheel(left: seq<u8>, depth: nat, j: nat): nat
    requires j < |left|
  {
    if j < depth then left[j] else 256
  }

  /** The odometer turned: some wheel went down and no wheel before it changed. */
  ghost predicate Turned(left: seq<u8>, depth: nat, left': seq<u8>, depth': nat)
    requires |left| == |left'| == MAX_ARRAYS
  {
    exists d :: 0 <= d < MAX_ARRAYS
      && Wheel(left', depth', d) < Wheel(left, depth, d)
      && forall j :: 0 <= j < d ==> Wheel(left', depth', j) == Wheel(left, depth, j)
  }

  /** A pass followed by an update turns the odometer. */
  lemma PassTurns(left: seq<u8>, mid: seq<u8>, left': seq<u8>, pre: nat, all: nat, t: nat)
    requires |left| == |mid| == |left'| == MAX_ARRAYS && pre <= all <= MAX_ARRAYS && 0 < t <= all
    requires forall j :: 0 <= j < pre ==> mid[j] == left[j]
    requires left'[t - 1] < mid[t - 1] && forall j :: 0 <= j < t - 1 ==> left'[j] == mid[j]
    ensures Turned(left, pre, left', t)
  {
    var d := if t <= pre then t - 1 else pre;
    assert Wheel(left', t, d) < Wheel(left, pre, d);
  }

  /** data_path_get: succeeds exactly when the path has a value (unless memory
      runs out), and then adds that value, in order, to the collection. */
  method DataPathGet(path: Path, cd: Store?, coll: Collection, heap: Heap) returns (ok: bool)
    requires |path| <= PATH_MAX_SIZE
    requires StoreOk(cd) && heap.Valid() && Owns(coll.values, heap.live)
    modifies Scratch(cd), heap, coll
    ensures StoreOk(cd) && heap.Valid() && Owns(coll.values, heap.live) && Visible(cd) == old(Visible(cd))
    ensures Others(heap.live, coll.values) == old(Others(heap.live, coll.values))
    ensures ok ==>
      Outcome(Visible(cd), path, [], old(Contents(coll.values, heap.live))) == Some(Contents(coll.values, heap.live))
    ensures !ok ==>
      heap.exhausted || Outcome(Visible(cd), path, [], old(Contents(coll.values, heap.live))).None?
  {
    hide SameExtents, Owns, Others, Contents, Content, Store.Valid, Store.View, Outcome, OpenAt, CountArrays;
    var info := new ArraysInfo();
    ghost var mem, coll0 := Visible(cd), Contents(coll.values, heap.live);
    ghost var pre: Vec, passes: Vec := [], [];
    NothingOpen(mem, path, info.passesRemaining[..]);
    var more := true;
    while more
      invariant fresh(info) && fresh(info.passesRemaining) && info.passesRemaining.Length == MAX_ARRAYS
      invariant StoreOk(cd) && heap.Valid() && Owns(coll.values, heap.live) && Visible(cd) == mem
      invariant Others(heap.live, coll.values) == old(Others(heap.live, coll.values))
      invariant more ==>
        && OpenAt(mem, path, info.depth, info.passesRemaining[..], pre, passes)
        && Outcome(mem, path, [], coll0) == Outcome(mem, path, pre, Contents(coll.values, heap.live))
      invariant !more ==> Outcome(mem, path, [], coll0) == Some(Contents(coll.values, heap.live))
      decreases more,
        Wheel(info.passesRemaining[..], info.depth, 0), Wheel(info.passesRemaining[..], info.depth, 1),
        Wheel(info.passesRemaining[..], info.depth, 2), Wheel(info.passesRemaining[..], info.depth, 3),
        Wheel(info.passesRemaining[..], info.depth, 4), Wheel(info.passesRemaining[..], info.depth, 5),
        Wheel(info.passesRemaining[..], info.depth, 6), Wheel(info.passesRemaining[..], info.depth, 7)
    {
      ok, more, pre, passes := Turn(path, cd, coll, heap, info, pre, passes, coll0);
      if !ok { return; }
    }
    ok := true;
  }

  /** One turn of the outer loop: a pass and an update of the odometer. */
  method Turn(path: Path, cd: Store?, coll: Collection, heap: Heap, info: ArraysInfo,
              ghost pre: Vec, ghost passes: Vec, ghost coll0: seq<bytes>)
      returns (ok: bool, more: bool, ghost pre': Vec, ghost passes': Vec)
    requires |path| <= PATH_MAX_SIZE
    requires StoreOk(cd) && heap.Valid() && Owns(coll.values, heap.live)
    requires info.passesRemaining.Length == MAX_ARRAYS && info.passesRemaining !in Scratch(cd)
    requires OpenAt(Visible(cd), path, info.depth, info.passesRemaining[..], pre, passes)
    requires Outcome(Visible(cd), path, [], coll0) == Outcome(Visible(cd), path, pre, Contents(coll.values, heap.live))
    modifies Scratch(cd), heap, coll, info, info.passesRemaining
    ensures StoreOk(cd) && heap.Valid() && Owns(coll.values, heap.live) && Visible(cd) == old(Visible(cd))
    ensures Others(heap.live, coll.values) == old(Others(heap.live, coll.values))
    ensures !ok ==> heap.exhausted || Outcome(Visible(cd), path, [], coll0).None?
    ensures ok && more ==>
      && OpenAt(Visible(cd), path, info.depth, info.passesRemaining[..], pre', passes')
      && Outcome(Visible(cd), path, [], coll0) == Outcome(Visible(cd), path, pre', Contents(coll.values, heap.live))
      && Turned(old(info.passesRemaining[..]), old(info.depth), info.passesRemaining[..], info.depth)
    ensures ok && !more ==> Outcome(Visible(cd), path, [], coll0) == Some(Contents(coll.values, heap.live))
  {
    hide Pass, SameExtents, Owns, Others, Contents, Content, Store.Valid, Store.View, Outcome, Next, Turned, CountArrays;
    ghost var mem := Visible(cd);
    ghost var now, left := Contents(coll.values, heap.live), info.passesRemaining[..];
    OutcomeStep(mem, path, pre, now);
    ghost var v;
    more, pre' := false, pre;
    ok, v, passes' := RunPass(path, cd, coll, heap, info, pre, passes);
    if !ok { return; }
    ghost var mid := info.passesRemaining[..];
    AfterPass(mem, path, pre, now);
    ArraysUpdate(info, v, passes');
    more := info.depth > 0;
    if more {
      pre' := Next(v, passes').value;
      PassTurns(left, mid, info.passesRemaining[..], |pre|, |v|, |pre'|);
      passes' := passes'[..|pre'|];
    }
  }

  lemma NothingOpen(mem: seq<Word>, path: Path, left: seq<u8>)
    requires |left| == MAX_ARRAYS
    ensures OpenAt(mem, path, 0, left, [], [])
  {
    NoExtents(mem, path, ORIGIN);
  }

  /** The odometer stands at pre, its counters and the calldata agreeing. */
  ghost predicate OpenAt(mem: seq<Word>, path: Path, depth: nat, left: seq<u8>, pre: Vec, passes: Vec) {
    && depth == |pre| == |passes| <= MAX_ARRAYS == |left|
    && |pre| <= CountArrays(path)
    && Left(left, pre, passes)
    && SameExtents(mem, path, ORIGIN, pre, passes)
  }

  lemma AfterPass(mem: seq<Word>, path: Path, pre: Vec, coll: seq<bytes>)
    requires Pass(mem, path, ORIGIN, 0, pre, coll).Some?
    ensures var r := Pass(mem, path, ORIGIN, 0, pre, coll).value;
      |r.v| == |r.passes| &&
      match Next(r.v, r.passes)
      case None => true
      case Some(t) => |t| <= |r.passes| && SameExtents(mem, path, ORIGIN, t, r.passes[..|t|])
  {
    hide SameExtents, Next;
    PassIsFirstRun(mem, path, ORIGIN, 0, pre, coll);
    NextKeepsExtents(mem, path, ORIGIN, 0, pre);
  }

  /** data_path_cleanup: frees every block of the collection exactly once and at
      its base, however far the evaluation got. */
  method DataPathCleanup(coll: Collection, heap: Heap)
    requires heap.Valid() && Owns(coll.values, heap.live)
    modifies heap
    ensures heap.Valid() && heap.live == old(Others(heap.live, coll.values))
  {
    ghost var vs, live0 := coll.values, heap.live;
    var i := 0;
    assert vs[..0] == [] && live0 - Blocks([]) == live0;
    while i < |coll.values|
      invariant 0 <= i <= |vs| && coll.values == vs
      invariant heap.Valid() && heap.live == Others(live0, vs[..i])
    {
      var v := coll.values[i];
      BlocksStep(vs, live0, i);
      if v.block.Some? {
        heap.Free(v.block.value, v.pos - v.offset);
      }
      i := i + 1;
    }
    assert vs[..i] == vs;
  }

  lemma BlocksStep(vs: seq<Value>, live: map<nat, bytes>, i: nat)
    requires i < |vs| && Owns(vs, live)
    ensures ValueOk(vs[i], live)
    ensures vs[i].block.Some? ==> vs[i].block.value in Others(live, vs[..i])
    ensures Others(live, vs[..i + 1])
         == if vs[i].block.Some? then Others(live, vs[..i]) - {vs[i].block.value} else Others(live, vs[..i])
  {
    assert vs[..i + 1] == vs[..i] + [vs[i]];
    assert Blocks(vs[..i + 1]) == Blocks(vs[..i]) + (if vs[i].block.Some? then {vs[i].block.value} else {});
  }
}
