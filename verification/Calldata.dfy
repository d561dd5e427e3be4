/** src/features/generic_tx_parser/calldata.c: calldata received in pieces, cut
    into 32-byte words, each stored without its leading or trailing zeros, and
    read back through the same scratch buffer that collects the next word. */
module Calldata {
  import opened Powers
  import opened BigEndian

  const CHUNK_SIZE: nat := 32
  const SIZE_LIMIT: nat := 0x1_0000_0000  // size_t is 32 bits wide

  type Word = w: bytes | |w| == CHUNK_SIZE witness Fill(CHUNK_SIZE, 0)

  datatype StripDir = StripLeft | StripRight

  /** s_calldata_chunk, with buf holding `size` bytes. */
  datatype Chunk = Chunk(dir: StripDir, buf: bytes)

  function LeadingZeros(w: bytes): (n: nat)
    ensures n <= |w| && w[..n] == Fill(n, 0) && (n < |w| ==> w[n] != 0)
  {
    if w == [] || w[0] != 0 then 0
    else
      var n := 1 + LeadingZeros(w[1..]);
      assert w[..n] == [w[0]] + w[1..][..n - 1];
      n
  }

  function TrailingZeros(w: bytes): (n: nat)
    ensures n <= |w| && w[|w| - n..] == Fill(n, 0) && (n < |w| ==> w[|w| - n - 1] != 0)
  {
    if w == [] || w[|w| - 1] != 0 then 0
    else
      var v := w[..|w| - 1];
      var n := 1 + TrailingZeros(v);
      assert w[|w| - n..] == v[|w| - n..] + [0];
      n
  }

  /** compress_chunk: drop the longer run of zeros, the left one on a tie. */
  function Compress(w: bytes): (c: Chunk)
    ensures |c.buf| <= |w|
  {
    var l, r := LeadingZeros(w), TrailingZeros(w);
    if l >= r then Chunk(StripLeft, w[l..]) else Chunk(StripRight, w[..|w| - r])
  }

  /** decompress_chunk, into a word of 32 bytes. */
  function Decompress(c: Chunk): (w: bytes)
    requires |c.buf| <= CHUNK_SIZE
    ensures |w| == CHUNK_SIZE
  {
    var diff := CHUNK_SIZE - |c.buf|;
    if |c.buf| == 0 then Fill(CHUNK_SIZE, 0)
    else if c.dir.StripLeft? then Fill(diff, 0) + c.buf
    else c.buf + Fill(diff, 0)
  }

  /** Decompressing undoes compressing, for every word. */
  lemma DecompressCompress(w: bytes)
    requires |w| == CHUNK_SIZE
    ensures Decompress(Compress(w)) == w
  {
    hide LeadingZeros, TrailingZeros;
    var l, r := LeadingZeros(w), TrailingZeros(w);
    assert w == w[..l] + w[l..];
    assert w == w[..|w| - r] + w[|w| - r..];
  }

  /** The i-th 32-byte word of a byte string. */
  function WordAt(data: bytes, i: nat): (w: Word)
    requires (i + 1) * CHUNK_SIZE <= |data|
  {
    data[i * CHUNK_SIZE..(i + 1) * CHUNK_SIZE]
  }

  /** All whole words of a byte string. */
  function Words(data: bytes): (ws: seq<Word>)
    ensures |ws| == |data| / CHUNK_SIZE
  {
    seq(|data| / CHUNK_SIZE, i requires 0 <= i < |data| / CHUNK_SIZE => WordAt(data, i))
  }

  /** Stored words of a growing byte string do not move. */
  lemma WordStable(data: bytes, more: bytes, i: nat)
    requires (i + 1) * CHUNK_SIZE <= |data|
    ensures WordAt(data + more, i) == WordAt(data, i)
  {
  }

  ghost predicate Stored(chunks: seq<Chunk>, data: bytes) {
    && |chunks| == |data| / CHUNK_SIZE
    && forall i :: 0 <= i < |chunks| ==>
         |chunks[i].buf| <= CHUNK_SIZE && Decompress(chunks[i]) == WordAt(data, i)
  }

  /** The bytes after the last whole word. */
  function Tail(data: bytes): (t: bytes)
    ensures |t| == |data| % CHUNK_SIZE
  {
    data[|data| - |data| % CHUNK_SIZE..]
  }

  /** A piece that does not complete the word extends the tail. */
  lemma TailGrows(data: bytes, piece: bytes)
    requires |Tail(data)| + |piece| < CHUNK_SIZE
    ensures Tail(data + piece) == Tail(data) + piece
    ensures |data + piece| / CHUNK_SIZE == |data| / CHUNK_SIZE
  {
    var q, m := |data| / CHUNK_SIZE, |data| % CHUNK_SIZE;
    assert |data + piece| == q * CHUNK_SIZE + (m + |piece|);
  }

  /** A piece that completes the word makes the tail the next stored word. */
  lemma WordCompletes(data: bytes, piece: bytes)
    requires |Tail(data)| + |piece| == CHUNK_SIZE
    ensures |data + piece| / CHUNK_SIZE == |data| / CHUNK_SIZE + 1 && |data + piece| % CHUNK_SIZE == 0
    ensures Tail(data + piece) == []
    ensures WordAt(data + piece, |data| / CHUNK_SIZE) == Tail(data) + piece
  {
    var q, m := |data| / CHUNK_SIZE, |data| % CHUNK_SIZE;
    assert |data + piece| == (q + 1) * CHUNK_SIZE;
  }

  lemma StoredGrows(chunks: seq<Chunk>, data: bytes, piece: bytes)
    requires Stored(chunks, data) && |Tail(data)| + |piece| == CHUNK_SIZE
    ensures Stored(chunks + [Compress(Tail(data) + piece)], data + piece)
  {
    hide Compress, Decompress, LeadingZeros, TrailingZeros;
    WordCompletes(data, piece);
    DecompressCompress(Tail(data) + piece);
    forall i | 0 <= i < |chunks|
      ensures WordAt(data + piece, i) == WordAt(data, i)
    {
      WordStable(data, piece, i);
    }
  }

  lemma StoredStays(chunks: seq<Chunk>, data: bytes, piece: bytes)
    requires Stored(chunks, data) && |Tail(data)| + |piece| < CHUNK_SIZE
    ensures Stored(chunks, data + piece)
  {
    hide Compress, Decompress, LeadingZeros, TrailingZeros;
    TailGrows(data, piece);
    forall i | 0 <= i < |chunks|
      ensures WordAt(data + piece, i) == WordAt(data, i)
    {
      WordStable(data, piece, i);
    }
  }

  method CountLeading(chunk: array<u8>) returns (n: nat)
    requires chunk.Length == CHUNK_SIZE
    ensures n == LeadingZeros(chunk[..])
  {
    n := 0;
    assert chunk[..] == chunk[n..];
    while n < CHUNK_SIZE && chunk[n] == 0
      invariant 0 <= n <= CHUNK_SIZE
      invariant LeadingZeros(chunk[..]) == n + LeadingZeros(chunk[n..])
    {
      assert chunk[n..][1..] == chunk[n + 1..];
      n := n + 1;
    }
    assert LeadingZeros(chunk[n..]) == 0;
  }

  lemma TrailingStep(w: bytes)
    ensures w == [] || w[|w| - 1] != 0 ==> TrailingZeros(w) == 0
    ensures w != [] && w[|w| - 1] == 0 ==> TrailingZeros(w) == 1 + TrailingZeros(w[..|w| - 1])
  {
  }

  method CountTrailing(chunk: array<u8>) returns (n: nat)
    requires chunk.Length == CHUNK_SIZE
    ensures n == TrailingZeros(chunk[..])
  {
    hide TrailingZeros;
    ghost var w := chunk[..];
    n := 0;
    assert w[..CHUNK_SIZE - n] == w;
    while n < CHUNK_SIZE && chunk[CHUNK_SIZE - 1 - n] == 0
      invariant 0 <= n <= CHUNK_SIZE
      invariant TrailingZeros(w) == n + TrailingZeros(w[..CHUNK_SIZE - n])
    {
      TrailingStep(w[..CHUNK_SIZE - n]);
      assert w[..CHUNK_SIZE - n][..CHUNK_SIZE - n - 1] == w[..CHUNK_SIZE - n - 1];
      n := n + 1;
    }
    TrailingStep(w[..CHUNK_SIZE - n]);
  }

  /** compress_chunk up to its allocations: counts the zeros from both ends. */
  method CompressChunk(chunk: array<u8>) returns (c: Chunk)
    requires chunk.Length == CHUNK_SIZE
    ensures c == Compress(chunk[..])
  {
    hide LeadingZeros, TrailingZeros;
    var stripLeft := CountLeading(chunk);
    var stripRight := CountTrailing(chunk);
    if stripLeft >= stripRight {
      c := Chunk(StripLeft, chunk[stripLeft..]);
    } else {
      c := Chunk(StripRight, chunk[..CHUNK_SIZE - stripRight]);
    }
  }

  /** decompress_chunk. */
  method DecompressChunk(c: Chunk, out: array<u8>)
    requires |c.buf| <= CHUNK_SIZE && out.Length == CHUNK_SIZE
    modifies out
    ensures out[..] == Decompress(c)
  {
    if |c.buf| == 0 {
      forall i | 0 <= i < CHUNK_SIZE { out[i] := 0; }
      return;
    }
    var diff := CHUNK_SIZE - |c.buf|;
    if c.dir.StripLeft? {
      forall i | 0 <= i < diff { out[i] := 0; }
      forall i | diff <= i < CHUNK_SIZE { out[i] := c.buf[i - diff]; }
    } else {
      forall i | 0 <= i < |c.buf| { out[i] := c.buf[i]; }
      forall i | |c.buf| <= i < CHUNK_SIZE { out[i] := 0; }
    }
  }

  class Store {
    const expectedSize: nat
    const selector: bytes
    var receivedSize: nat
    var chunks: seq<Chunk>
    const chunk: array<u8>
    var chunkSize: nat
    /** Every byte accepted so far. */
    ghost var data: bytes
    /** An allocation failed in the middle of an append; every caller then drops
        the object, whose counters lag behind the bytes it was given. */
    ghost var broken: bool

    ghost predicate Valid()
      reads this, chunk
    {
      && chunk.Length == CHUNK_SIZE
      && expectedSize < SIZE_LIMIT
      && (broken ==> receivedSize < expectedSize)
      && (!broken ==>
            && |data| == receivedSize <= expectedSize
            && Stored(chunks, data)
            && chunkSize == |Tail(data)|
            && (receivedSize < expectedSize ==> chunk[..chunkSize] == Tail(data)))
    }

    /** The words a reader can see: none until everything has arrived. */
    ghost function View(): seq<Word>
      reads this
    {
      if receivedSize == expectedSize then Words(data) else []
    }

    constructor (size: nat, sel: bytes)
      requires size < SIZE_LIMIT
      ensures Valid() && data == [] && !broken && expectedSize == size && selector == sel && fresh(chunk)
    {
      expectedSize, selector := size, sel;
      receivedSize, chunks, chunkSize := 0, [], 0;
      chunk := new u8[CHUNK_SIZE](i => 0);
      data, broken := [], false;
    }

    /** calldata_append: refuses what would exceed the announced size, and
        otherwise adds exactly the given bytes unless memory runs out. */
    method Append(buffer: bytes) returns (ok: bool)
      requires Valid() && !broken && |buffer| < SIZE_LIMIT
      modifies this, chunk
      ensures Valid()
      ensures |old(data)| + |buffer| > expectedSize ==> !ok && !broken && data == old(data) && chunk[..] == old(chunk[..])
      ensures |old(data)| + |buffer| <= expectedSize ==> ok == !broken
      ensures ok ==> data == old(data) + buffer
    {
      if receivedSize + |buffer| >= SIZE_LIMIT || receivedSize + |buffer| > expectedSize {
        return false;
      }
      var pos := 0;
      while pos < |buffer|
        invariant 0 <= pos <= |buffer|
        invariant Valid() && !broken
        invariant data == old(data) + buffer[..pos]
      {
        var room := CHUNK_SIZE - chunkSize;
        var cpyLength := if |buffer| - pos < room then |buffer| - pos else room;
        ghost var before := data;
        var fed := Feed(buffer[pos..pos + cpyLength]);
        if !fed { return false; }
        assert before + buffer[pos..pos + cpyLength] == old(data) + buffer[..pos + cpyLength];
        pos := pos + cpyLength;
      }
      return true;
    }

    /** One turn of the append loop: bytes that fit the current word. */
    method Feed(piece: bytes) returns (ok: bool)
      requires Valid() && !broken && |piece| > 0
      requires |Tail(data)| + |piece| <= CHUNK_SIZE && |data| + |piece| <= expectedSize
      modifies this, chunk
      ensures Valid() && ok == !broken
      ensures ok ==> data == old(data) + piece
    {
      hide Decompress, Compress, LeadingZeros, TrailingZeros;
      forall i | 0 <= i < |piece| { chunk[chunkSize + i] := piece[i]; }
      assert chunk[..chunkSize + |piece|] == Tail(data) + piece;
      chunkSize := chunkSize + |piece|;
      if chunkSize == CHUNK_SIZE {
        var c := CompressChunk(chunk);
        if * {
          broken := true;  // one of the two allocations of compress_chunk failed
          return false;
        }
        StoredGrows(chunks, data, piece);
        WordCompletes(data, piece);
        assert chunk[..] == Tail(data) + piece;
        chunks := chunks + [c];
        chunkSize := 0;
      } else {
        StoredStays(chunks, data, piece);
        TailGrows(data, piece);
      }
      receivedSize := receivedSize + |piece|;
      data := data + piece;
      return true;
    }

    /** calldata_get_chunk: the idx-th word, through the scratch buffer; nothing
        before the calldata is complete or past its last whole word. */
    method GetChunk(idx: u32) returns (ok: bool)
      requires Valid()
      modifies chunk
      ensures Valid()
      ensures ok == (idx < |View()|)
      ensures ok ==> chunk[..] == View()[idx]
    {
      if receivedSize != expectedSize || |chunks| == 0 {
        return false;
      }
      var i := 0;
      while i < idx
        invariant 0 <= i <= idx && i < |chunks|
      {
        if i + 1 == |chunks| { return false; }
        i := i + 1;
      }
      DecompressChunk(chunks[i], chunk);
      return true;
    }
  }

  /** Any way of cutting the data into appended pieces. */
  function Flatten(pieces: seq<bytes>): bytes {
    if pieces == [] then [] else Flatten(pieces[..|pieces| - 1]) + pieces[|pieces| - 1]
  }

  lemma {:induction false} FlattenPrefix(pieces: seq<bytes>, i: nat)
    requires i <= |pieces|
    ensures |Flatten(pieces[..i])| <= |Flatten(pieces)|
    decreases |pieces| - i
  {
    if i < |pieces| {
      assert pieces[..i + 1][..i] == pieces[..i];
      FlattenPrefix(pieces, i + 1);
    } else {
      assert pieces[..i] == pieces;
    }
  }

  /** Streaming is invisible: after any series of successful appends that reaches
      the announced size, the visible words are those of the whole data. */
  method Receive(size: nat, sel: bytes, pieces: seq<bytes>) returns (store: Store, ok: bool)
    requires size < SIZE_LIMIT && forall p :: p in pieces ==> |p| < SIZE_LIMIT
    ensures fresh(store) && fresh(store.chunk) && store.Valid()
    ensures ok ==> store.data == Flatten(pieces)
    ensures !ok ==> store.broken || |Flatten(pieces)| > size
    ensures ok && |Flatten(pieces)| == size ==> store.View() == Words(Flatten(pieces))
    ensures ok && |Flatten(pieces)| != size ==> store.View() == []
  {
    store := new Store(size, sel);
    ok := true;
    var i := 0;
    while i < |pieces|
      invariant 0 <= i <= |pieces|
      invariant fresh(store) && fresh(store.chunk) && store.Valid() && !store.broken
      invariant store.expectedSize == size && store.data == Flatten(pieces[..i])
    {
      assert pieces[..i + 1][..i] == pieces[..i];
      FlattenPrefix(pieces, i + 1);
      ok := store.Append(pieces[i]);
      if !ok { return; }
      i := i + 1;
    }
    assert pieces[..i] == pieces;
  }
}
