/** Over whole runs, a TX_INFO describes exactly the call it names: the next one
    in order, by its selector, its chain, and the contract at its address or
    behind the proxy there. */
module TxDescriptors {
  import opened Powers
  import opened BigEndian
  import opened Numerals
  import opened TxProtocol
  import opened TxHistory

  /** A descriptor, with the proxies known when it came. */
  datatype Descriptor = Descriptor(info: TxInfo, lookup: Lookup)

  /** The descriptors a list of commands carries, in order. */
  function Descriptors(cs: seq<Command>): seq<Descriptor> {
    if |cs| == 0 then []
    else (if cs[0].Info? then [Descriptor(cs[0].info, cs[0].lookup)] else []) + Descriptors(cs[1..])
  }

  /** A descriptor names a call: by its selector and chain, and by the contract
      registered as the implementation for that chain, address and selector, or
      by the address itself when none is. */
  predicate Names(d: Descriptor, c: Ctx) {
    && c.calldata == Some(d.info.selector)
    && c.chainId == d.info.chainId
    && match d.lookup(c.chainId, c.to, d.info.selector) {
         case Some(implementation) => d.info.contract == implementation
         case None => d.info.contract == c.to
       }
  }

  /** What a context is described with is the descriptor that went to it. */
  predicate Backed(c: Ctx, attached: seq<nat>, ds: seq<Descriptor>) {
    |attached| == |ds| &&
    (c.info.Some? ==> exists k :: 0 <= k < |attached| && attached[k] == c.id && ds[k].info == c.info.value)
  }

  predicate AllBacked(list: seq<Ctx>, attached: seq<nat>, ds: seq<Descriptor>) {
    forall i :: 0 <= i < |list| ==> Backed(list[i], attached, ds)
  }

  /** Those in the list and those that left. */
  predicate Sound(s: State, ds: seq<Descriptor>) {
    && AllBacked(s.list, s.attached, ds)
    && forall k :: 0 <= k < |s.departed| ==> Backed(s.departed[k].ctx, s.attached, ds)
  }

  /** Each descriptor names the call it went to. */
  predicate Named(created: seq<Ctx>, attached: seq<nat>, ds: seq<Descriptor>) {
    |attached| == |ds| && forall k :: 0 <= k < |ds| ==> attached[k] < |created| && Names(ds[k], created[attached[k]])
  }

  lemma NamedStays(before: seq<Ctx>, after: seq<Ctx>, attached: seq<nat>, ds: seq<Descriptor>)
    requires Named(before, attached, ds) && before <= after
    ensures Named(after, attached, ds)
  {
  }

  lemma BackedStays(c: Ctx, attached: seq<nat>, ds: seq<Descriptor>, id: nat, d: Descriptor)
    requires Backed(c, attached, ds)
    ensures Backed(c, attached + [id], ds + [d])
  {
    if c.info.Some? {
      var k :| 0 <= k < |attached| && attached[k] == c.id && ds[k].info == c.info.value;
      assert (attached + [id])[k] == c.id && (ds + [d])[k] == ds[k];
    }
  }

  lemma BackedNew(c: Ctx, attached: seq<nat>, ds: seq<Descriptor>, d: Descriptor)
    requires |attached| == |ds| && c.info == Some(d.info)
    ensures Backed(c, attached + [c.id], ds + [d])
  {
    assert (attached + [c.id])[|ds|] == c.id && (ds + [d])[|ds|] == d;
  }

  /* ---- Each step ---- */

  lemma PushSound(s: State, n: NewCtx, ds: seq<Descriptor>)
    requires Sound(s, ds) && |s.attached| == |ds|
    ensures Sound(Push(s, n), ds)
  {
    var t := Push(s, n);
    assert Backed(t.list[|s.list|], s.attached, ds);
    hide Backed;
  }

  lemma {:induction false} PushAllSound(s: State, ns: seq<NewCtx>, ds: seq<Descriptor>)
    requires Sound(s, ds) && |s.attached| == |ds|
    ensures Sound(PushAll(s, ns), ds) && PushAll(s, ns).attached == s.attached
    decreases |ns|
  {
    hide Sound;
    if ns != [] {
      PushSound(s, ns[0], ds);
      PushAllSound(Push(s, ns[0]), ns[1..], ds);
    }
  }

  lemma RenderSound(s: State, i: nat, ds: seq<Descriptor>)
    requires Sound(s, ds) && i < |s.list|
    ensures Sound(Render(s, i), ds)
  {
    hide Backed, EmptyRows;
  }

  lemma {:induction false} RenderBeforeSound(s: State, i: nat, ds: seq<Descriptor>)
    requires Sound(s, ds) && i <= |s.list|
    ensures Sound(RenderBefore(s, i), ds)
    decreases i
  {
    hide Sound;
    if i > 0 && s.list[i - 1].calldata.None? {
      RenderSound(s, i - 1, ds);
      RenderBeforeSound(Render(s, i - 1), i - 1, ds);
    }
  }

  lemma {:induction false} RenderAfterSound(s: State, i: nat, ds: seq<Descriptor>)
    requires Sound(s, ds)
    ensures Sound(RenderAfter(s, i), ds)
    decreases |s.list|
  {
    hide Sound;
    if i < |s.list| && s.list[i].calldata.None? {
      RenderSound(s, i, ds);
      RenderAfterSound(Render(s, i), i, ds);
    }
  }

  lemma PopSound(s: State, ds: seq<Descriptor>)
    requires Sound(s, ds) && HasCurrent(s)
    ensures Sound(Pop(s), ds)
  {
    hide Backed, Find;
  }

  lemma {:induction false} PopMatchedSound(s: State, hash: Hash, ds: seq<Descriptor>)
    requires Sound(s, ds)
    ensures Sound(PopMatched(s, hash), ds) && PopMatched(s, hash).attached == s.attached
    decreases |s.list|
  {
    hide Sound, IsRoot;
    if MayPop(s, hash) {
      var r := RenderAfter(s, At(s) + 1);
      RenderAfterKeepsFront(s, At(s) + 1);
      RenderAfterSound(s, At(s) + 1, ds);
      if HasCurrent(r) {
        PopSound(r, ds);
        PopMatchedSound(Pop(r), hash, ds);
      }
    }
  }

  lemma AttachSound(s: State, info: TxInfo, ds: seq<Descriptor>, d: Descriptor)
    requires Sound(s, ds) && HasCurrent(s) && |s.attached| == |ds| && d.info == info
    ensures Sound(Attach(s, info), ds + [d])
  {
    var t, i := Attach(s, info), At(s);
    hide Backed, Find;
    BackedNew(t.list[i], s.attached, ds, d);
    forall j | 0 <= j < |t.list| ensures Backed(t.list[j], t.attached, ds + [d]) {
      if j != i { BackedStays(s.list[j], s.attached, ds, s.list[i].id, d); }
    }
    forall k | 0 <= k < |t.departed| ensures Backed(t.departed[k].ctx, t.attached, ds + [d]) {
      BackedStays(s.departed[k].ctx, s.attached, ds, s.list[i].id, d);
    }
  }

  /** A descriptor that is accepted names the call it goes to. */
  lemma AcceptedNames(s: State, d: Descriptor, hash: Hash)
    requires Inv(s, hash) && Matches(s, d.info, d.lookup)
    ensures Expected(s.list) < |s.list| && var c := s.list[Expected(s.list)]; c.id < |s.created| && Names(d, s.created[c.id])
  {
    assert Genuine(s.list[Expected(s.list)], s.created);
  }

  lemma DescribeSound(s: State, d: Descriptor, hash: Hash, ds: seq<Descriptor>)
    requires Inv(s, hash) && Sound(s, ds) && |s.attached| == |ds| && Expected(s.list) < |s.list|
    ensures Sound(Describe(s, d.info, hash), ds + [d])
  {
    var e := Expected(s.list);
    ApproachShape(s, hash);
    RenderBeforeSound(s, e, ds);
    var p := Approach(s);
    assert Sound(p, ds);
    hide Sound, Inv, Approach, RenderBefore, Lead, Expected;
    AttachSound(p, d.info, ds, d);
    var a := Attach(p, d.info);
    if HasCurrent(a) { PopSound(a, ds + [d]); }
  }

  lemma DescribeNamed(s: State, d: Descriptor, hash: Hash, ds: seq<Descriptor>)
    requires Inv(s, hash) && Named(s.created, s.attached, ds) && Matches(s, d.info, d.lookup)
    ensures var t := Describe(s, d.info, hash); Named(t.created, t.attached, ds + [d])
  {
    hide Inv, Describe, Names, Matches, Named, Expected;
    MatchesExpected(s, d.info, d.lookup);
    AcceptedNames(s, d, hash);
    DescribeKeeps(s, d.info, hash);
    NamedSnoc(s.created, s.attached, ds, s.list[Expected(s.list)].id, d);
  }

  lemma NamedSnoc(created: seq<Ctx>, attached: seq<nat>, ds: seq<Descriptor>, id: nat, d: Descriptor)
    requires Named(created, attached, ds) && id < |created| && Names(d, created[id])
    ensures Named(created, attached + [id], ds + [d])
  {
    hide Names;
  }

  lemma FieldSound(s: State, payload: bytes, nested: seq<NewCtx>, texts: seq<string>, hash: Hash, ds: seq<Descriptor>)
    requires Sound(s, ds) && HasCurrent(s) && |s.attached| == |ds|
    ensures Sound(Field(s, payload, nested, texts, hash), ds)
  {
    var a := Absorb(s, payload);
    assert Sound(a, ds);
    hide Sound, Absorb;
    PushAllSound(a, nested, ds);
    var b := PushAll(a, nested);
    RowsSound(b, FieldRows(texts), ds);
    PopMatchedSound(b.(rows := b.rows + FieldRows(texts)), hash, ds);
  }

  lemma RowsSound(s: State, rows: seq<Row>, ds: seq<Descriptor>)
    requires Sound(s, ds)
    ensures Sound(s.(rows := s.rows + rows), ds)
  {
  }

  lemma StepSound(s: State, c: Command, hash: Hash, ds: seq<Descriptor>)
    requires Inv(s, hash) && Sound(s, ds) && Named(s.created, s.attached, ds) && Step(s, c, hash).Some?
    ensures var t := Step(s, c, hash).value;
      Sound(t, ds + Descriptors([c])) && Named(t.created, t.attached, ds + Descriptors([c]))
  {
    assert [c][1..] == [] && Descriptors([c][1..]) == [];
    hide Inv, Sound, Names, Matches, Describe, Field;
    match c
    case Queue(n) =>
      assert ds + Descriptors([c]) == ds;
      PushSound(s, n, ds);
      NamedStays(s.created, Push(s, n).created, s.attached, ds);
    case Info(info, lookup) =>
      assert Descriptors([c]) == [Descriptor(info, lookup)];
      MatchesExpected(s, info, lookup);
      DescribeSound(s, Descriptor(info, lookup), hash, ds);
      DescribeNamed(s, Descriptor(info, lookup), hash, ds);
    case FieldOf(payload, nested, texts) =>
      assert ds + Descriptors([c]) == ds;
      FieldSound(s, payload, nested, texts, hash, ds);
      FieldKeeps(s, payload, nested, texts, hash);
      StepHistory(s, c, hash);
      GrownIsPrefix(s.created, Step(s, c, hash).value.created, Calls([c]));
      NamedStays(s.created, Step(s, c, hash).value.created, s.attached, ds);
  }

  lemma GrownIsPrefix(before: seq<Ctx>, after: seq<Ctx>, calls: seq<NewCtx>)
    requires Grown(before, after, calls)
    ensures before <= after
  {
  }

  lemma {:induction false} RunSound(s: State, cs: seq<Command>, hash: Hash, ds: seq<Descriptor>)
    requires Inv(s, hash) && Sound(s, ds) && Named(s.created, s.attached, ds) && Run(s, cs, hash).Some?
    ensures var t := Run(s, cs, hash).value;
      Sound(t, ds + Descriptors(cs)) && Named(t.created, t.attached, ds + Descriptors(cs))
    decreases |cs|
  {
    hide Inv, Sound, Named, Step;
    if |cs| == 0 {
      assert ds + Descriptors(cs) == ds;
    } else {
      StepKeeps(s, cs[0], hash);
      StepSound(s, cs[0], hash, ds);
      RunSound(Step(s, cs[0], hash).value, cs[1..], hash, ds + Descriptors([cs[0]]));
      DescriptorsCons(cs);
      assert (ds + Descriptors([cs[0]])) + Descriptors(cs[1..]) == ds + Descriptors(cs);
    }
  }

  lemma DescriptorsCons(cs: seq<Command>)
    requires |cs| > 0
    ensures Descriptors(cs) == Descriptors([cs[0]]) + Descriptors(cs[1..])
  {
    assert [cs[0]][1..] == [] && Descriptors([cs[0]][1..]) == [];
  }

  /** In every run the k-th descriptor names the call it went to, and what a call
      is described with, listed or gone, is the descriptor that went to it. */
  lemma DescriptionsFit(eip712: bool, cs: seq<Command>, hash: Hash)
    requires Run(Initial(eip712), cs, hash).Some?
    ensures var s := Run(Initial(eip712), cs, hash).value;
      Named(s.created, s.attached, Descriptors(cs)) && Sound(s, Descriptors(cs))
  {
    InitialInv(eip712, hash);
    RunSound(Initial(eip712), cs, hash, []);
    assert [] + Descriptors(cs) == Descriptors(cs);
  }

  /* ---- Which descriptors are accepted ---- */

  /** The next call to describe is the first of those still waiting. */
  lemma {:induction false} ExpectedIsFirstCall(list: seq<Ctx>)
    requires forall i :: 0 <= i < |list| ==> list[i].info.None?
    ensures Expected(list) < |list| <==> CallIds(list) != []
    ensures Expected(list) < |list| ==> list[Expected(list)].id == CallIds(list)[0]
  {
    if list != [] { ExpectedIsFirstCall(list[1..]); }
  }

  lemma {:induction false} ExpectedSkips(list: seq<Ctx>, d: nat)
    requires d <= |list| && forall i :: 0 <= i < d ==> list[i].info.Some?
    ensures Expected(list) == d + Expected(list[d..])
  {
    if d > 0 {
      ExpectedSkips(list[1..], d - 1);
      assert list[1..][d - 1..] == list[d..];
    } else {
      assert list[0..] == list;
    }
  }

  lemma NextCall(s: State, hash: Hash)
    requires Inv(s, hash)
    ensures Expected(s.list) < |s.list| <==> |s.attached| < |CallIds(s.created)|
    ensures Expected(s.list) < |s.list| ==>
      var c := s.list[Expected(s.list)]; c.id == CallIds(s.created)[|s.attached|] && Genuine(c, s.created)
  {
    var d := Lead(s.list);
    var waiting := s.list[d..];
    ExpectedSkips(s.list, d);
    ExpectedIsFirstCall(waiting);
    assert CallIds(s.created) == s.attached + CallIds(waiting);
    if Expected(s.list) < |s.list| {
      assert s.list[Expected(s.list)] == waiting[Expected(waiting)];
      assert Genuine(s.list[Expected(s.list)], s.created);
    }
  }

  /** After any run a descriptor is accepted exactly when it names the next call:
      the first call ever carried with calldata that no descriptor went to. */
  lemma AcceptedExactly(eip712: bool, cs: seq<Command>, hash: Hash, d: Descriptor)
    requires Run(Initial(eip712), cs, hash).Some?
    ensures var s := Run(Initial(eip712), cs, hash).value;
      var calls, k := CallPositions(Calls(cs), 0), |Descriptors(cs)|;
      Step(s, Info(d.info, d.lookup), hash).Some? <==>
        k < |calls| && calls[k] < |s.created| && Names(d, s.created[calls[k]])
  {
    hide Run, Calls, CallPositions, Descriptors, AllQueued, Sound, CallIds, Inv, Names, Matches, Describe;
    InitialInv(eip712, hash);
    RunKeeps(Initial(eip712), cs, hash);
    DescriptionsFit(eip712, cs, hash);
    CallsAreQueued(eip712, cs, hash);
    AcceptedNext(Run(Initial(eip712), cs, hash).value, d, hash);
  }

  lemma AcceptedNext(s: State, d: Descriptor, hash: Hash)
    requires Inv(s, hash)
    ensures Matches(s, d.info, d.lookup) <==>
      var k := |s.attached|;
      k < |CallIds(s.created)| && CallIds(s.created)[k] < |s.created| && Names(d, s.created[CallIds(s.created)[k]])
  {
    hide Inv, CallIds, Expected;
    NextCall(s, hash);
  }

  /** The review of an empty call shows where it goes, the amount exactly when
      there is one, and its network exactly when it is not the root's. */
  lemma EmptyCallShown(c: Ctx, rootChain: u64)
    ensures var r := EmptyRows(c, rootChain);
      && ToRow(c.to, c.chainId) in r
      && (forall a, n :: AmountRow(a, n) in r <==> c.amount == Some(a) && n == c.chainId)
      && (forall n :: NetworkRow(n) in r <==> n == c.chainId && n != rootChain)
      && (Intent("Send") in r <==> c.amount.Some?)
  {
    assert "Send"[0] != "Empty transaction"[0];
    var r := EmptyRows(c, rootChain);
    if c.amount.Some? {
      assert r[0] == Intent("Send") && r[1] == AmountRow(c.amount.value, c.chainId) && r[2] == ToRow(c.to, c.chainId);
      assert c.chainId != rootChain ==> r[3] == NetworkRow(c.chainId);
    } else {
      assert r[1] == ToRow(c.to, c.chainId);
      assert c.chainId != rootChain ==> r[2] == NetworkRow(c.chainId);
    }
  }

  /** A call queued without a chain of its own inherits that of the context being
      described, else that of the last one queued. */
  lemma NestedChain(s: State, n: NewCtx, hash: Hash)
    requires Inv(s, hash) && s.list != []
    ensures var c := Push(s, n).created[|s.created|];
      c.chainId == (if n.chainId.Some? then n.chainId.value
                    else if Lead(s.list) > 0 then s.list[Lead(s.list) - 1].chainId
                    else s.list[|s.list| - 1].chainId)
  {
    CurrentIsLast(s, hash);
  }
}
