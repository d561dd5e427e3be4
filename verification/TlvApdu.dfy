/** Reassembly of TLV payloads sent over several commands (src/tlv_apdu.c). Only
    one payload can be in reception, whatever command it is for. */
module TlvApdu {
  import opened Powers
  import opened BigEndian
  import opened Numerals
  import Calldata

  /** Payload handlers are only compared and called. */
  type Handler = nat

  datatype Ret = Error | Pending | Success

  /** One call of tlv_from_apdu. `memory` tells whether an allocation succeeds,
      `verdict` what the handler answers if it is called. */
  datatype Call = Call(first: bool, data: Option<bytes>, handler: Option<Handler>, memory: bool, verdict: bool)

  type Chunk = c: Call | c.data.Some? ==> |c.data.value| < 0x100
    witness Call(true, None, None, true, true)

  /** What is being received. */
  datatype Reception = Idle | Open(handler: Handler, size: nat, got: bytes)

  datatype Delivery = Delivery(handler: Handler, payload: bytes)

  datatype Outcome = Outcome(state: Reception, ret: Ret, delivery: Option<Delivery>)

  const Failure := Outcome(Idle, Error, None)

  predicate Usable(c: Chunk) {
    c.data.Some? && c.handler.Some? && (c.first ==> |c.data.value| >= 2)
  }

  /** The length a first chunk announces. */
  function Announced(c: Chunk): (n: u16)
    requires Usable(c) && c.first
  {
    (c.data.value[0] as int) * 0x100 + c.data.value[1]
  }

  /** The payload bytes of a chunk. */
  function Body(c: Chunk): bytes
    requires Usable(c)
  {
    if c.first then c.data.value[2..] else c.data.value
  }

  /** What one call does. */
  function Receive(s: Reception, c: Chunk): Outcome {
    if !Usable(c) then Failure
    else if c.first then
      if s.Open? || (Announced(c) > |Body(c)| && !c.memory) then Failure
      else Continue(c, Announced(c), [])
    else if s.Idle? || c.handler.value != s.handler then Failure
    else Continue(c, s.size, s.got)
  }

  function Continue(c: Chunk, size: nat, got: bytes): Outcome
    requires Usable(c)
  {
    var all := got + Body(c);
    if size == 0 || |all| > size then Failure
    else if |all| < size then Outcome(Open(c.handler.value, size, all), Pending, None)
    else Outcome(Idle, if c.verdict then Success else Error, Some(Delivery(c.handler.value, all)))
  }

  /** The outcome of the last call of a run that started idle. */
  function Last(cs: seq<Chunk>): Outcome
    decreases |cs|
  {
    if cs == [] then Outcome(Idle, Error, None)
    else Receive(Last(cs[..|cs| - 1]).state, cs[|cs| - 1])
  }

  /* ---- Series of chunks ---- */

  /** The position of the most recent first chunk. */
  function LastFirst(cs: seq<Chunk>): (i: nat)
    ensures i <= |cs|
    ensures i < |cs| ==> cs[i].first
    ensures forall j :: i < j < |cs| ==> !cs[j].first
    ensures i == |cs| ==> forall j :: 0 <= j < |cs| ==> !cs[j].first
    decreases |cs|
  {
    if cs == [] then 0
    else if cs[|cs| - 1].first then |cs| - 1
    else
      var i := LastFirst(cs[..|cs| - 1]);
      if i == |cs| - 1 then |cs| else i
  }

  /** A first chunk followed by others, all for one handler. */
  predicate Chain(cs: seq<Chunk>) {
    && cs != [] && cs[0].first
    && (forall j :: 0 <= j < |cs| ==> Usable(cs[j]) && cs[j].handler == cs[0].handler)
    && (forall j :: 0 < j < |cs| ==> !cs[j].first)
  }

  function Bodies(cs: seq<Chunk>): bytes
    requires forall j :: 0 <= j < |cs| ==> Usable(cs[j])
    decreases |cs|
  {
    if cs == [] then [] else Bodies(cs[..|cs| - 1]) + Body(cs[|cs| - 1])
  }

  /** A chain that is still short of the announced length. */
  predicate Partial(cs: seq<Chunk>) {
    Chain(cs) && cs[0].memory && |Bodies(cs)| < Announced(cs[0])
  }

  /** A chain whose last chunk brings it to exactly the announced length. */
  predicate Complete(cs: seq<Chunk>) {
    && Chain(cs) && 0 < |Bodies(cs)| == Announced(cs[0])
    && (|cs| > 1 ==> Partial(cs[..|cs| - 1]))
  }

  /** What the chunks since a first one have come to. */
  function ReadChain(chain: seq<Chunk>): Outcome
    requires chain != []
  {
    if Partial(chain) then
      Outcome(Open(chain[0].handler.value, Announced(chain[0]), Bodies(chain)), Pending, None)
    else if Complete(chain) then
      Outcome(Idle, if chain[|chain| - 1].verdict then Success else Error, Some(Delivery(chain[0].handler.value, Bodies(chain))))
    else Failure
  }

  /** What a run has come to, read off the calls alone: only the chunks since the
      most recent first chunk matter. */
  function Reading(cs: seq<Chunk>): Outcome
    requires cs != []
  {
    var i := LastFirst(cs);
    if i == |cs| || Last(cs[..i]).state.Open? then Failure else ReadChain(cs[i..])
  }

  lemma SingleChunk(c: Chunk)
    ensures Chain([c]) <==> Usable(c) && c.first
    ensures Usable(c) ==> Bodies([c]) == Body(c)
  {
    if Usable(c) { assert [c][..0] == []; }
  }

  lemma ChainGrows(cs: seq<Chunk>, c: Chunk)
    requires cs != []
    ensures Chain(cs + [c]) <==> Chain(cs) && Usable(c) && !c.first && c.handler == cs[0].handler
    ensures Chain(cs + [c]) ==> Bodies(cs + [c]) == Bodies(cs) + Body(c)
  {
    var all := cs + [c];
    assert all[..|cs|] == cs && all[|cs|] == c;
    assert forall j :: 0 <= j < |cs| ==> all[j] == cs[j];
  }

  /** A further chunk keeps a partial chain partial, or completes it. */
  predicate Follows(cs: seq<Chunk>, c: Chunk) {
    Partial(cs) && Usable(c) && !c.first && c.handler == cs[0].handler
  }

  lemma PartialGrows(cs: seq<Chunk>, c: Chunk)
    requires cs != []
    ensures Partial(cs + [c]) <==> Follows(cs, c) && |Bodies(cs)| + |Body(c)| < Announced(cs[0])
    ensures Complete(cs + [c]) <==> Follows(cs, c) && |Bodies(cs)| + |Body(c)| == Announced(cs[0])
    ensures Follows(cs, c) ==> Chain(cs + [c]) && Bodies(cs + [c]) == Bodies(cs) + Body(c)
  {
    ChainGrows(cs, c);
    assert (cs + [c])[..|cs|] == cs && (cs + [c])[0] == cs[0];
    hide Chain, Bodies, Announced;
  }

  /** In every run, however its calls interleave, a call leaves exactly the chain
      of chunks that began at the most recent first chunk: the state is idle, or
      holds its bytes so far; a handler is called exactly when that chain is
      complete, and with its bytes. */
  lemma {:induction false} Reassembly(cs: seq<Chunk>)
    requires cs != []
    ensures Last(cs) == Reading(cs)
    decreases |cs|
  {
    var n := |cs| - 1;
    var c, before := cs[n], cs[..n];
    if c.first {
      assert LastFirst(cs) == n && cs[n..] == [c];
      FirstChunk(c);
    } else if before != [] {
      Reassembly(before);
      LaterChunk(before, c);
      assert cs == before + [c];
    }
  }

  lemma FirstChunk(c: Chunk)
    requires c.first
    ensures Receive(Idle, c) == ReadChain([c])
  {
    SingleChunk(c);
    assert Usable(c) ==> [] + Body(c) == Body(c);
    hide Chain, Bodies;
  }

  lemma LaterChunk(before: seq<Chunk>, c: Chunk)
    requires before != [] && !c.first && Last(before) == Reading(before)
    ensures Receive(Last(before).state, c) == Reading(before + [c])
  {
    var i, cs := LastFirst(before), before + [c];
    assert cs[..|before|] == before && cs[|before|] == c;
    if i < |before| {
      assert LastFirst(cs) == i && cs[..i] == before[..i];
      assert cs[i..] == before[i..] + [c];
      hide LastFirst, Last, ReadChain, Receive;
      ChainStep(before[i..], c);
      FailureStays(c);
    }
  }

  lemma FailureStays(c: Chunk)
    requires !c.first
    ensures Receive(Idle, c) == Failure
  {
  }

  lemma ChainStep(chain: seq<Chunk>, c: Chunk)
    requires chain != [] && !c.first
    ensures Receive(ReadChain(chain).state, c) == ReadChain(chain + [c])
  {
    PartialGrows(chain, c);
    hide Chain, Bodies, Announced, Complete;
  }

  /** A complete chain for a handler, begun at position i on an idle state, ends
      with the last call. */
  predicate EndsHere(cs: seq<Chunk>, i: nat, h: Handler, payload: bytes) {
    i < |cs| && Last(cs[..i]).state.Idle? && Complete(cs[i..]) && cs[i].handler == Some(h) && payload == Bodies(cs[i..])
  }

  /** The statement for handlers alone: one is called with a payload exactly when
      a complete chain for it, begun on an idle state, ends at this call. */
  lemma HandlerCalls(cs: seq<Chunk>, h: Handler, payload: bytes)
    requires cs != []
    ensures Last(cs).delivery == Some(Delivery(h, payload)) <==> exists i: nat :: EndsHere(cs, i, h, payload)
  {
    Reassembly(cs);
    CompleteNotPartial(cs[LastFirst(cs)..]);
    hide LastFirst, Last, Chain, Complete, Partial, Bodies, Announced;
    if Last(cs).delivery == Some(Delivery(h, payload)) {
      assert EndsHere(cs, LastFirst(cs), h, payload);
    }
    if i: nat :| EndsHere(cs, i, h, payload) {
      CompleteNotPartial(cs[i..]);
      ChainStart(cs, i);
    }
  }

  /** No handler is ever called with nothing, or with more than 65535 bytes. */
  lemma DeliveredSize(cs: seq<Chunk>)
    requires cs != [] && Last(cs).delivery.Some?
    ensures 0 < |Last(cs).delivery.value.payload| < 0x1_0000
  {
    Reassembly(cs);
    hide Last, LastFirst;
  }

  lemma CompleteNotPartial(cs: seq<Chunk>)
    ensures !(Complete(cs) && Partial(cs))
    ensures Complete(cs) ==> Chain(cs) && cs[0].handler.Some?
  {
  }

  lemma ChainStart(cs: seq<Chunk>, i: nat)
    requires i < |cs| && Chain(cs[i..])
    ensures i == LastFirst(cs)
  {
    hide Usable;
    var f := LastFirst(cs);
    assert cs[i..][0] == cs[i];
    assert i <= f < |cs|;
    assert cs[i..][f - i] == cs[f];
  }

  /* ---- The sender's side ---- */

  /** Calls that send a payload in pieces: the first carries the length of the
      payload in two big-endian bytes and then its piece, the others their piece
      alone. */
  predicate Sends(cs: seq<Chunk>, h: Handler, pieces: seq<bytes>, payload: bytes) {
    && |cs| == |pieces| > 0 && Calldata.Flatten(pieces) == payload
    && (forall j :: 0 <= j < |cs| ==> cs[j].handler == Some(h) && cs[j].memory && cs[j].data.Some?)
    && cs[0].first && |cs[0].data.value| >= 2
    && BE(cs[0].data.value[..2]) == |payload| && cs[0].data.value[2..] == pieces[0]
    && (forall j :: 0 < j < |cs| ==> !cs[j].first && cs[j].data.value == pieces[j])
  }

  /** After k of the calls, the first k pieces are held. */
  lemma {:induction false} SendingHolds(before: seq<Chunk>, cs: seq<Chunk>, h: Handler, pieces: seq<bytes>, payload: bytes, k: nat)
    requires Last(before).state.Idle? && Sends(cs, h, pieces, payload) && pieces[|pieces| - 1] != [] && 0 < k < |cs|
    ensures Last(before + cs[..k]) == Outcome(Open(h, |payload|, Calldata.Flatten(pieces[..k])), Pending, None)
    decreases k
  {
    hide Last, Announced, Body, Receive;
    assert before + cs[..k] == (before + cs[..k - 1]) + [cs[k - 1]];
    LastSnoc(before + cs[..k - 1], cs[k - 1]);
    if k == 1 {
      assert before + cs[..0] == before;
      OpeningPiece(cs, h, pieces, payload);
    } else {
      SendingHolds(before, cs, h, pieces, payload, k - 1);
      MiddlePiece(cs, h, pieces, payload, k);
    }
  }

  lemma OpeningPiece(cs: seq<Chunk>, h: Handler, pieces: seq<bytes>, payload: bytes)
    requires Sends(cs, h, pieces, payload) && pieces[|pieces| - 1] != [] && |cs| > 1
    ensures Receive(Idle, cs[0]) == Outcome(Open(h, |payload|, Calldata.Flatten(pieces[..1])), Pending, None)
  {
    FirstPiece(cs, h, pieces, payload);
    PiecesLeft(pieces, 1);
    assert pieces[..1][..0] == [] && pieces[..1][0] == pieces[0];
    assert [] + pieces[0] == pieces[0];
    assert Calldata.Flatten(pieces[..1]) == Calldata.Flatten(pieces[..1][..0]) + pieces[0];
    hide Announced, Body;
  }

  lemma MiddlePiece(cs: seq<Chunk>, h: Handler, pieces: seq<bytes>, payload: bytes, k: nat)
    requires Sends(cs, h, pieces, payload) && pieces[|pieces| - 1] != [] && 1 < k < |cs|
    ensures Receive(Open(h, |payload|, Calldata.Flatten(pieces[..k - 1])), cs[k - 1])
      == Outcome(Open(h, |payload|, Calldata.Flatten(pieces[..k])), Pending, None)
  {
    PiecesLeft(pieces, k);
    assert pieces[..k][..k - 1] == pieces[..k - 1];
    assert Usable(cs[k - 1]) && Body(cs[k - 1]) == pieces[k - 1];
    assert Calldata.Flatten(pieces[..k]) == Calldata.Flatten(pieces[..k - 1]) + pieces[k - 1];
    hide Announced, Body, Calldata.Flatten;
  }

  lemma FirstPiece(cs: seq<Chunk>, h: Handler, pieces: seq<bytes>, payload: bytes)
    requires Sends(cs, h, pieces, payload)
    ensures Usable(cs[0]) && Announced(cs[0]) == |payload| && Body(cs[0]) == pieces[0]
  {
    var data := cs[0].data.value;
    TwoBytes(data[..2]);
  }

  lemma PiecesLeft(pieces: seq<bytes>, k: nat)
    requires k < |pieces| && pieces[|pieces| - 1] != []
    ensures |Calldata.Flatten(pieces[..k])| < |Calldata.Flatten(pieces)|
  {
    var n := |pieces| - 1;
    Calldata.FlattenPrefix(pieces[..n], k);
    assert pieces[..n][..k] == pieces[..k];
  }

  /** Whatever happened before, once the state is idle every payload sent in any
      pieces, of which the last is not empty, is delivered whole at the last call
      and not earlier. */
  lemma SentIsDelivered(before: seq<Chunk>, cs: seq<Chunk>, h: Handler, pieces: seq<bytes>, payload: bytes)
    requires Last(before).state.Idle? && Sends(cs, h, pieces, payload) && pieces[|pieces| - 1] != []
    ensures var verdict := cs[|cs| - 1].verdict;
      Last(before + cs) == Outcome(Idle, if verdict then Success else Error, Some(Delivery(h, payload)))
    ensures forall k :: 0 < k < |cs| ==> Last(before + cs[..k]).ret == Pending && Last(before + cs[..k]).delivery.None?
  {
    forall k | 0 < k < |cs| ensures Last(before + cs[..k]).ret == Pending && Last(before + cs[..k]).delivery.None? {
      SendingHolds(before, cs, h, pieces, payload, k);
    }
    LastPiece(before, cs, h, pieces, payload);
  }

  lemma LastPiece(before: seq<Chunk>, cs: seq<Chunk>, h: Handler, pieces: seq<bytes>, payload: bytes)
    requires Last(before).state.Idle? && Sends(cs, h, pieces, payload) && pieces[|pieces| - 1] != []
    ensures var verdict := cs[|cs| - 1].verdict;
      Last(before + cs) == Outcome(Idle, if verdict then Success else Error, Some(Delivery(h, payload)))
  {
    hide Last, Announced, Body, Receive;
    var n := |cs| - 1;
    assert before + cs == (before + cs[..n]) + [cs[n]];
    LastSnoc(before + cs[..n], cs[n]);
    if n == 0 {
      assert before + cs[..0] == before;
      WholePiece(cs, h, pieces, payload);
    } else {
      SendingHolds(before, cs, h, pieces, payload, n);
      ClosingPiece(cs, h, pieces, payload);
    }
  }

  lemma WholePiece(cs: seq<Chunk>, h: Handler, pieces: seq<bytes>, payload: bytes)
    requires Sends(cs, h, pieces, payload) && pieces[|pieces| - 1] != [] && |cs| == 1
    ensures Receive(Idle, cs[0]) == Outcome(Idle, if cs[0].verdict then Success else Error, Some(Delivery(h, payload)))
  {
    FirstPiece(cs, h, pieces, payload);
    assert pieces[..0] == [] && [] + pieces[0] == pieces[0];
    assert payload == Calldata.Flatten(pieces[..0]) + pieces[0];
    hide Announced, Body, Receive;
    CloseFirst(cs[0], h, payload);
  }

  lemma ClosingPiece(cs: seq<Chunk>, h: Handler, pieces: seq<bytes>, payload: bytes)
    requires Sends(cs, h, pieces, payload) && pieces[|pieces| - 1] != [] && |cs| > 1
    ensures var n := |cs| - 1;
      Receive(Open(h, |payload|, Calldata.Flatten(pieces[..n])), cs[n])
      == Outcome(Idle, if cs[n].verdict then Success else Error, Some(Delivery(h, payload)))
  {
    var n := |cs| - 1;
    assert payload == Calldata.Flatten(pieces[..n]) + pieces[n];
    assert Usable(cs[n]) && Body(cs[n]) == pieces[n];
    hide Announced, Body, Receive, Calldata.Flatten;
    CloseLater(cs[n], h, Calldata.Flatten(pieces[..n]), payload);
  }

  lemma LastSnoc(before: seq<Chunk>, c: Chunk)
    ensures Last(before + [c]) == Receive(Last(before).state, c)
  {
    assert (before + [c])[..|before|] == before;
  }

  lemma CloseFirst(c: Chunk, h: Handler, payload: bytes)
    requires Usable(c) && c.first && c.handler == Some(h) && Announced(c) == |payload| > 0 && Body(c) == payload
    ensures Receive(Idle, c) == Outcome(Idle, if c.verdict then Success else Error, Some(Delivery(h, payload)))
  {
    assert [] + Body(c) == Body(c);
  }

  lemma CloseLater(c: Chunk, h: Handler, got: bytes, payload: bytes)
    requires Usable(c) && !c.first && c.handler == Some(h) && got + Body(c) == payload != []
    ensures Receive(Open(h, |payload|, got), c) == Outcome(Idle, if c.verdict then Success else Error, Some(Delivery(h, payload)))
  {
  }

  /** The calls for given pieces. */
  function Frames(h: Handler, pieces: seq<bytes>, length: u16): (cs: seq<Chunk>)
    requires forall j :: 0 <= j < |pieces| ==> |pieces[j]| < if j == 0 then 0xFE else 0x100
    ensures |cs| == |pieces|
  {
    seq(|pieces|, j requires 0 <= j < |pieces| =>
      Call(j == 0, Some((if j == 0 then [length / 0x100, length % 0x100] else []) + pieces[j]), Some(h), true, true))
  }

  /** Every payload of 1 to 65535 bytes can be sent so, in any pieces that fit. */
  lemma FramesSend(h: Handler, pieces: seq<bytes>, payload: bytes)
    requires pieces != [] && forall j :: 0 <= j < |pieces| ==> |pieces[j]| < if j == 0 then 0xFE else 0x100
    requires Calldata.Flatten(pieces) == payload && |payload| < 0x1_0000
    ensures Sends(Frames(h, pieces, |payload|), h, pieces, payload)
  {
    var cs := Frames(h, pieces, |payload|);
    var data := cs[0].data.value;
    assert data[..2] == [|payload| / 0x100, |payload| % 0x100] && data[2..] == pieces[0];
    TwoBytes(data[..2]);
    forall j | 0 < j < |cs| ensures cs[j].data.value == pieces[j] {
      assert [] + pieces[j] == pieces[j];
    }
  }

  /* ---- The state as it is kept ---- */

  class Receiver {
    var payload: array?<u8>
    var size: u16
    var pos: u16
    var handler: Option<Handler>

    /** All zero, or pending: a buffer of the announced size, not yet full. */
    ghost predicate Valid()
      reads this
    {
      if payload == null then size == 0 && pos == 0 && handler.None?
      else payload.Length == size && pos < size && handler.Some?
    }

    ghost function View(): Reception
      requires Valid()
      reads this, payload
    {
      if payload == null then Idle else Open(handler.value, size, payload[..pos])
    }

    constructor ()
      ensures Valid() && View() == Idle
    {
      payload, size, pos, handler := null, 0, 0, None;
    }

    method Reset()
      modifies this
      ensures Valid() && payload == null
    {
      payload, size, pos, handler := null, 0, 0, None;
    }

    /** tlv_from_apdu; the handler call is the delivery. */
    method FromApdu(c: Chunk) returns (ret: Ret, delivery: Option<Delivery>)
      requires Valid()
      modifies this, payload
      ensures Valid() && (payload == null || payload == old(payload) || fresh(payload))
      ensures Outcome(View(), ret, delivery) == Receive(old(View()), c)
    {
      delivery := None;
      if c.data.None? || c.handler.None? {
        Reset();
        return Error, None;
      }
      var data := c.data.value;
      var offset := 0;
      if c.first {
        if payload != null {
          Reset();
          return Error, None;
        }
        if 2 > |data| { return Error, None; }
        offset := 2;
        if data[0] * 0x100 + data[1] > |data| - offset && !c.memory {
          Reset();
          return Error, None;
        }
        size := data[0] * 0x100 + data[1];
        pos := 0;
        if size > |data| - offset { payload := new u8[size]; }
        handler := c.handler;
      } else if c.handler != handler {
        Reset();
        return Error, None;
      }
      ret, delivery := Feed(c, data[offset..]);
    }

    /** The second half of tlv_from_apdu: the bytes of a chunk join the others. */
    method Feed(c: Chunk, body: bytes) returns (ret: Ret, delivery: Option<Delivery>)
      requires Usable(c) && body == Body(c) && handler == c.handler
      requires payload == null ==> pos == 0 && size <= |body|
      requires payload != null ==> payload.Length == size && pos < size
      modifies this, payload
      ensures Valid() && (payload == null || payload == old(payload))
      ensures Outcome(View(), ret, delivery)
        == Continue(c, old(size), if old(payload) == null then [] else old(payload[..pos]))
    {
      hide Body;
      if size == 0 || pos + |body| > size {
        Reset();
        return Error, None;
      }
      ghost var got := if payload == null then [] else payload[..pos];
      if payload != null {
        CopyInto(payload, pos, body);
        assert payload[..pos + |body|] == got + body;
      }
      pos := pos + |body|;
      if pos == size {
        var whole := if payload != null then payload[..] else body[..size];
        assert whole == got + body;
        Reset();
        return if c.verdict then Success else Error, Some(Delivery(c.handler.value, whole));
      }
      return Pending, None;
    }
  }

  /** memcpy to a position of the buffer. */
  method CopyInto(a: array<u8>, start: nat, data: bytes)
    requires start + |data| <= a.Length
    modifies a
    ensures a[..] == old(a[..start]) + data + old(a[start + |data|..])
  {
    forall i | 0 <= i < |data| { a[start + i] := data[i]; }
  }
}
