/** Store and path together: calldata that arrives in any pieces, then a path
    evaluated over the store by the odometer. */
module AbiReading {
  import opened Powers
  import opened BigEndian
  import opened Numerals
  import opened Calldata
  import opened PathSemantics
  import opened DataPath
  import opened Abi

  /** However the encoding of v is cut into appended pieces, the values collected
      are the selected leaves of v; the only failures are a selection outside an
      array, more than sixteen leaves, or exhausted memory. */
  method ReceiveAndRead(size: nat, pieces: seq<bytes>, sel: bytes, ghost v: Val, ghost t: Ty, ghost part: Sel, path: Path, heap: Heap)
      returns (ok: bool, coll: Collection, ghost outOfMemory: bool)
    requires heap.Valid() && (forall p :: p in pieces ==> |p| < SIZE_LIMIT)
    requires HasType(v, t) && |Enc(v, t)| <= MAX_WORDS && Flatten(pieces) == Flatten(Enc(v, t))
    requires size == |Flatten(pieces)|
    requires Compile(t, part) == Some(path) && |path| <= PATH_MAX_SIZE && EachDepth(part) <= MAX_ARRAYS
    modifies heap
    ensures heap.Valid() && fresh(coll) && Owns(coll.values, heap.live)
    ensures Others(heap.live, coll.values) == old(heap.live)
    ensures ok ==> Limit([], Pick(v, part)) == Some(Contents(coll.values, heap.live))
    ensures !ok ==> outOfMemory || Limit([], Pick(v, part)).None?
    ensures outOfMemory ==> !ok
  {
    hide Enc, HasType, Compile, Pick, Limit, Evaluate, Words, Outcome;
    coll := new Collection();
    assert Owns([], heap.live) && Others(heap.live, []) == heap.live && Contents([], heap.live) == [] by {
      assert Blocks([]) == {};
    }
    WordsOfFlat(Enc(v, t));
    AbiRoundTrip(v, t, part);
    var store, received := Receive(size, sel, pieces);
    outOfMemory := !received;
    if !received { return false, coll, true; }
    ok := DataPathGet(path, store, coll, heap);
    outOfMemory := !ok && heap.exhausted;
    assert Evaluate(store.View(), path) == Outcome(store.View(), path, [], []) by { EvaluateIs(store.View(), path); }
  }

  lemma EvaluateIs(mem: seq<Word>, path: Path)
    ensures Evaluate(mem, path) == Outcome(mem, path, [], [])
  {
  }
}
