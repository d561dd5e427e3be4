/** What the rows of a review say over whole runs: the texts of all fields in
    order, one intent for every nested call, and a network for exactly the empty
    calls that are not on the chain of the root. */
module TxRows {
  import opened Powers
  import opened BigEndian
  import opened Numerals
  import opened TxProtocol
  import opened TxHistory
  import opened TxDescriptors

  /** The texts of the fields among rows. */
  function Fields(rows: seq<Row>): seq<string> {
    if rows == [] then []
    else Fields(rows[..|rows| - 1]) + if rows[|rows| - 1].FieldRow? then [rows[|rows| - 1].text] else []
  }

  /** The intents among rows. */
  function Intents(rows: seq<Row>): seq<string> {
    if rows == [] then []
    else Intents(rows[..|rows| - 1]) + if rows[|rows| - 1].Intent? then [rows[|rows| - 1].text] else []
  }

  /** The texts of the fields a list of commands carries. */
  function Texts(cs: seq<Command>): seq<string> {
    if |cs| == 0 then [] else (if cs[0].FieldOf? then cs[0].texts else []) + Texts(cs[1..])
  }

  /** The intent of a call without calldata. */
  function EmptyIntent(c: Ctx): string {
    if c.amount.Some? then "Send" else "Empty transaction"
  }

  function EmptyIntents(ds: seq<Departure>): seq<string> {
    if ds == [] then []
    else
      var d := ds[|ds| - 1];
      EmptyIntents(ds[..|ds| - 1]) + if d.Rendered? then [EmptyIntent(d.ctx)] else []
  }

  function Operation(d: Descriptor): string {
    d.info.operation
  }

  /** The operations of the descriptors, but for the first `skipped`. */
  function Operations(ds: seq<Descriptor>, skipped: nat): (r: seq<string>)
    ensures |r| == if |ds| <= skipped then 0 else |ds| - skipped
  {
    if |ds| <= skipped then [] else seq(|ds| - skipped, i requires 0 <= i < |ds| - skipped => Operation(ds[skipped + i]))
  }

  lemma {:induction false} FieldsConcat(a: seq<Row>, b: seq<Row>)
    ensures Fields(a + b) == Fields(a) + Fields(b)
    ensures Intents(a + b) == Intents(a) + Intents(b)
  {
    if b == [] {
      assert a + b == a;
    } else {
      var n := |b| - 1;
      FieldsConcat(a, b[..n]);
      assert (a + b)[..|a + b| - 1] == a + b[..n];
      assert (a + b)[|a + b| - 1] == b[n];
    }
  }

  lemma {:induction false} FieldsOfTexts(texts: seq<string>)
    ensures Fields(FieldRows(texts)) == texts && Intents(FieldRows(texts)) == []
  {
    if texts != [] {
      var n := |texts| - 1;
      FieldsOfTexts(texts[..n]);
      assert FieldRows(texts)[..n] == FieldRows(texts[..n]);
      assert texts == texts[..n] + [texts[n]];
    }
  }

  lemma OneRow(r: Row)
    ensures Fields([r]) == if r.FieldRow? then [r.text] else []
    ensures Intents([r]) == if r.Intent? then [r.text] else []
  {
    assert [r][..0] == [];
  }

  lemma TwoRows(a: Row, b: Row)
    ensures Fields([a, b]) == Fields([a]) + Fields([b]) && Intents([a, b]) == Intents([a]) + Intents([b])
  {
    hide Fields, Intents;
    assert [a, b] == [a] + [b];
    FieldsConcat([a], [b]);
  }

  /** The rows of an empty call before its destination. */
  function Opening(c: Ctx): seq<Row> {
    if c.amount.Some? then [Intent("Send"), AmountRow(c.amount.value, c.chainId)] else [Intent("Empty transaction")]
  }

  lemma FieldsOfOpening(c: Ctx)
    ensures Fields(Opening(c)) == [] && Intents(Opening(c)) == [EmptyIntent(c)]
  {
    hide Fields, Intents;
    OneRow(Opening(c)[0]);
    if c.amount.Some? {
      OneRow(Opening(c)[1]);
      TwoRows(Opening(c)[0], Opening(c)[1]);
    }
  }

  lemma FieldsOfEmpty(c: Ctx, chain: u64)
    ensures Fields(EmptyRows(c, chain)) == [] && Intents(EmptyRows(c, chain)) == [EmptyIntent(c)]
  {
    hide Fields, Intents, EmptyRows, Opening;
    EmptyRowsParts(c, chain);
    FieldsOfOpening(c);
    FieldsOfNetwork(c, chain);
    OneRow(ToRow(c.to, c.chainId));
    FieldsConcat(Opening(c), [ToRow(c.to, c.chainId)]);
    FieldsConcat(Opening(c) + [ToRow(c.to, c.chainId)], Network(c, chain));
  }

  function Network(c: Ctx, chain: u64): seq<Row> {
    if c.chainId != chain then [NetworkRow(c.chainId)] else []
  }

  lemma EmptyRowsParts(c: Ctx, chain: u64)
    ensures EmptyRows(c, chain) == Opening(c) + [ToRow(c.to, c.chainId)] + Network(c, chain)
  {
  }

  lemma FieldsOfNetwork(c: Ctx, chain: u64)
    ensures Fields(Network(c, chain)) == [] && Intents(Network(c, chain)) == []
  {
    OneRow(NetworkRow(c.chainId));
  }

  /* ---- Each step ---- */

  /** The rows show these field texts in order, and these intents beside those of
      the empty calls. */
  predicate Shows(s: State, texts: seq<string>, intents: seq<string>) {
    && Fields(s.rows) == texts
    && multiset(Intents(s.rows)) == multiset(EmptyIntents(s.departed)) + multiset(intents)
  }

  lemma EmptyIntentsSnoc(ds: seq<Departure>, d: Departure)
    ensures EmptyIntents(ds + [d]) == EmptyIntents(ds) + if d.Rendered? then [EmptyIntent(d.ctx)] else []
  {
    assert (ds + [d])[..|ds|] == ds;
  }

  lemma RenderShows(s: State, i: nat, texts: seq<string>, intents: seq<string>)
    requires Shows(s, texts, intents) && i < |s.list|
    ensures Shows(Render(s, i), texts, intents)
  {
    hide Fields, Intents, EmptyRows, EmptyIntents;
    var c, chain := s.list[i], s.list[0].chainId;
    FieldsConcat(s.rows, EmptyRows(c, chain));
    FieldsOfEmpty(c, chain);
    EmptyIntentsSnoc(s.departed, Rendered(c, |s.rows|, chain));
  }

  lemma {:induction false} RenderBeforeShows(s: State, i: nat, texts: seq<string>, intents: seq<string>)
    requires Shows(s, texts, intents) && i <= |s.list|
    ensures Shows(RenderBefore(s, i), texts, intents)
    decreases i
  {
    hide Shows;
    if i > 0 && s.list[i - 1].calldata.None? {
      RenderShows(s, i - 1, texts, intents);
      RenderBeforeShows(Render(s, i - 1), i - 1, texts, intents);
    }
  }

  lemma {:induction false} RenderAfterShows(s: State, i: nat, texts: seq<string>, intents: seq<string>)
    requires Shows(s, texts, intents)
    ensures Shows(RenderAfter(s, i), texts, intents)
    decreases |s.list|
  {
    hide Shows;
    if i < |s.list| && s.list[i].calldata.None? {
      RenderShows(s, i, texts, intents);
      RenderAfterShows(Render(s, i), i, texts, intents);
    }
  }

  lemma PopShows(s: State, texts: seq<string>, intents: seq<string>)
    requires Shows(s, texts, intents) && HasCurrent(s)
    ensures Shows(Pop(s), texts, intents)
  {
    hide Fields, Intents, Find, EmptyIntents;
    EmptyIntentsSnoc(s.departed, Matched(s.list[At(s)]));
  }

  lemma {:induction false} PopMatchedShows(s: State, hash: Hash, texts: seq<string>, intents: seq<string>)
    requires Shows(s, texts, intents)
    ensures Shows(PopMatched(s, hash), texts, intents)
    decreases |s.list|
  {
    hide Shows, IsRoot;
    if MayPop(s, hash) {
      var r := RenderAfter(s, At(s) + 1);
      RenderAfterKeepsFront(s, At(s) + 1);
      RenderAfterShows(s, At(s) + 1, texts, intents);
      if HasCurrent(r) {
        PopShows(r, texts, intents);
        PopMatchedShows(Pop(r), hash, texts, intents);
      }
    }
  }

  lemma FieldShows(s: State, payload: bytes, nested: seq<NewCtx>, more: seq<string>, hash: Hash, texts: seq<string>, intents: seq<string>)
    requires Shows(s, texts, intents) && HasCurrent(s)
    ensures Shows(Field(s, payload, nested, more, hash), texts + more, intents)
  {
    hide Fields, Intents, EmptyIntents;
    var a := Absorb(s, payload);
    PushAllGrows(a, nested);
    var b := PushAll(a, nested);
    FieldsConcat(b.rows, FieldRows(more));
    FieldsOfTexts(more);
    assert Shows(b.(rows := b.rows + FieldRows(more)), texts + more, intents) by {
      assert Intents(b.rows) + [] == Intents(b.rows);
    }
    hide Shows, PushAll, PopMatched;
    PopMatchedShows(b.(rows := b.rows + FieldRows(more)), hash, texts + more, intents);
  }

  /** The intent a descriptor adds: none for the root of a transaction. */
  function Added(s: State, info: TxInfo): seq<string> {
    if s.eip712 || !IsRoot(s) then [info.operation] else []
  }

  lemma AttachShows(s: State, info: TxInfo, texts: seq<string>, intents: seq<string>)
    requires Shows(s, texts, intents) && HasCurrent(s)
    ensures Shows(Attach(s, info), texts, intents + Added(s, info))
  {
    hide Fields, Intents, Find, EmptyIntents;
    var more: seq<Row> := if s.eip712 || !IsRoot(s) then [Intent(info.operation)] else [];
    FieldsConcat(s.rows, more);
    OneRow(Intent(info.operation));
    if more == [] { assert s.rows + more == s.rows && intents + [] == intents; }
  }

  /** A transaction whose root has calldata. */
  predicate CallRoot(s: State) {
    !s.eip712 && s.created != [] && s.created[0].calldata.Some?
  }

  /** The first description of such a transaction is that of its root, and no
      other is. */
  lemma RootApproached(s: State, hash: Hash)
    requires Inv(s, hash) && Expected(s.list) < |s.list| && CallRoot(s)
    ensures IsRoot(Approach(s)) <==> s.attached == []
  {
    ApproachShape(s, hash);
    var t := RenderBefore(s, Expected(s.list));
    RootDescribedFirst(t, hash);
    CurrentIsLast(t, hash);
    assert Ascending(t.list);
    hide Inv, Approach, RenderBefore, Expected, Find;
  }

  lemma DescribeShows(s: State, info: TxInfo, hash: Hash, texts: seq<string>, intents: seq<string>)
    requires Inv(s, hash) && Expected(s.list) < |s.list| && Shows(s, texts, intents) && (s.eip712 || CallRoot(s))
    ensures Shows(Describe(s, info, hash), texts, intents + if s.eip712 || s.attached != [] then [info.operation] else [])
  {
    hide Inv, Approach, Expected, Shows, HasCurrent, IsRoot, Attach;
    var p := Approach(s);
    ApproachShows(s, hash, texts, intents);
    if !s.eip712 { RootApproached(s, hash); }
    AttachShows(p, info, texts, intents);
    var a := Attach(p, info);
    if HasCurrent(a) { PopShows(a, texts, intents + Added(p, info)); }
  }

  lemma ApproachShows(s: State, hash: Hash, texts: seq<string>, intents: seq<string>)
    requires Inv(s, hash) && Expected(s.list) < |s.list| && Shows(s, texts, intents)
    ensures Shows(Approach(s), texts, intents) && HasCurrent(Approach(s)) && Approach(s).eip712 == s.eip712
  {
    hide Inv, Approach, RenderBefore, Expected, Lead, Fields, Intents, EmptyIntents;
    ApproachShape(s, hash);
    RenderBeforeShows(s, Expected(s.list), texts, intents);
  }

  /* ---- Whole runs ---- */

  function Skipped(s: State): nat {
    if s.eip712 then 0 else 1
  }

  lemma OperationsSnoc(ds: seq<Descriptor>, d: Descriptor, skipped: nat)
    ensures Operations(ds + [d], skipped) == Operations(ds, skipped) + if |ds| >= skipped then [d.info.operation] else []
  {
    var l, r := Operations(ds + [d], skipped), Operations(ds, skipped) + if |ds| >= skipped then [d.info.operation] else [];
    assert |l| == |r|;
    forall i | 0 <= i < |l| ensures l[i] == r[i] { assert l[i] == Operation((ds + [d])[skipped + i]); }
  }

  lemma QueueShows(s: State, n: NewCtx, texts: seq<string>, intents: seq<string>)
    requires Shows(s, texts, intents)
    ensures Shows(Push(s, n), texts, intents)
  {
  }

  lemma StepShows(s: State, c: Command, hash: Hash, texts: seq<string>, ds: seq<Descriptor>)
    requires Inv(s, hash) && Shows(s, texts, Operations(ds, Skipped(s))) && |s.attached| == |ds|
    requires s.eip712 || s.created == [] || CallRoot(s)
    requires Step(s, c, hash).Some?
    ensures var t := Step(s, c, hash).value;
      Shows(t, texts + (if c.FieldOf? then c.texts else []), Operations(ds + Descriptors([c]), Skipped(s)))
  {
    DescriptorsOne(c);
    hide Inv, Matches, Describe, Field, Operations, Shows, Push, HasCurrent, Descriptors, Skipped, CallRoot;
    assert texts + [] == texts && ds + [] == ds;
    match c
    case Queue(n) =>
      QueueShows(s, n, texts, Operations(ds, Skipped(s)));
    case Info(info, lookup) =>
      MatchesExpected(s, info, lookup);
      InfoShows(s, Descriptor(info, lookup), hash, texts, ds);
    case FieldOf(payload, nested, more) =>
      FieldShows(s, payload, nested, more, hash, texts, Operations(ds, Skipped(s)));
  }

  lemma InfoShows(s: State, d: Descriptor, hash: Hash, texts: seq<string>, ds: seq<Descriptor>)
    requires Inv(s, hash) && Shows(s, texts, Operations(ds, Skipped(s))) && |s.attached| == |ds|
    requires (s.eip712 || s.created == [] || CallRoot(s)) && Expected(s.list) < |s.list|
    ensures Shows(Describe(s, d.info, hash), texts, Operations(ds + [d], Skipped(s)))
  {
    hide Inv, Describe, Operations, Shows, Expected;
    ListedAreCreated(s, hash);
    DescribeShows(s, d.info, hash, texts, Operations(ds, Skipped(s)));
    OperationsSnoc(ds, d, Skipped(s));
  }

  lemma ListedAreCreated(s: State, hash: Hash)
    requires Inv(s, hash)
    ensures s.list != [] ==> s.created != []
  {
    if s.list != [] { assert Genuine(s.list[0], s.created); }
  }

  /** What a run adds to the rows, given that the root of a transaction turns out
      to have calldata. */
  lemma {:induction false} RunShows(s: State, cs: seq<Command>, hash: Hash, texts: seq<string>, ds: seq<Descriptor>)
    requires Inv(s, hash) && Shows(s, texts, Operations(ds, Skipped(s))) && |s.attached| == |ds|
    requires Run(s, cs, hash).Some?
    requires var t := Run(s, cs, hash).value; s.eip712 || t.created == [] || CallRoot(t)
    ensures Shows(Run(s, cs, hash).value, texts + Texts(cs), Operations(ds + Descriptors(cs), Skipped(s)))
    decreases |cs|
  {
    hide Inv, Step, Shows, Operations, Descriptors, Texts;
    if |cs| == 0 {
      NothingCarried(cs);
      assert texts + [] == texts && ds + [] == ds;
    } else {
      var m := Step(s, cs[0], hash).value;
      StepKeeps(s, cs[0], hash);
      SameRoot(s, cs, hash);
      StepShows(s, cs[0], hash, texts, ds);
      var more := if cs[0].FieldOf? then cs[0].texts else [];
      TextsCons(cs);
      DescriptorsOne(cs[0]);
      RunShows(m, cs[1..], hash, texts + more, ds + Descriptors([cs[0]]));
      DescriptorsCons(cs);
      assert (texts + more) + Texts(cs[1..]) == texts + Texts(cs);
      assert (ds + Descriptors([cs[0]])) + Descriptors(cs[1..]) == ds + Descriptors(cs);
    }
  }

  lemma NothingCarried(cs: seq<Command>)
    requires |cs| == 0
    ensures Descriptors(cs) == [] && Texts(cs) == []
  {
  }

  lemma TextsCons(cs: seq<Command>)
    requires |cs| > 0
    ensures Texts(cs) == (if cs[0].FieldOf? then cs[0].texts else []) + Texts(cs[1..])
  {
  }

  lemma DescriptorsOne(c: Command)
    ensures Descriptors([c]) == if c.Info? then [Descriptor(c.info, c.lookup)] else []
  {
    assert [c][1..] == [] && Descriptors([c][1..]) == [];
  }

  /** The root of a run is the one it started with. */
  lemma SameRoot(s: State, cs: seq<Command>, hash: Hash)
    requires Inv(s, hash) && Run(s, cs, hash).Some?
    ensures var t := Run(s, cs, hash).value;
      s.eip712 == t.eip712 && (s.created != [] ==> t.created != [] && t.created[0] == s.created[0])
  {
    hide Inv;
    RunKeeps(s, cs, hash);
    RunHistory(s, cs, hash);
    var t := Run(s, cs, hash).value;
    GrownIsPrefix(s.created, t.created, Calls(cs));
    hide Run, Calls, Grown;
  }

  /** In every run the field rows are the texts of all fields carried, in order;
      and the intents are those of the empty calls gone, and the operations of
      the descriptors: of all of them for a message, of all but the first, which
      is that of the root, for a transaction. */
  lemma RowsOfRun(eip712: bool, cs: seq<Command>, hash: Hash)
    requires Run(Initial(eip712), cs, hash).Some?
    requires eip712 || Calls(cs) == [] || Calls(cs)[0].calldata.Some?
    ensures var s := Run(Initial(eip712), cs, hash).value;
      && Fields(s.rows) == Texts(cs)
      && multiset(Intents(s.rows))
         == multiset(EmptyIntents(s.departed)) + multiset(Operations(Descriptors(cs), if eip712 then 0 else 1))
  {
    hide Inv, Run, Calls, Fields, Intents, Operations, EmptyIntents, AllQueued, Texts, Descriptors, CallPositions, CallIds;
    InitialInv(eip712, hash);
    CallsAreQueued(eip712, cs, hash);
    RunKeeps(Initial(eip712), cs, hash);
    var s := Run(Initial(eip712), cs, hash).value;
    SameLength(s.created, Calls(cs));
    if Calls(cs) != [] { RootOfCalls(s.created, Calls(cs)); }
    NothingShown(eip712);
    RunShows(Initial(eip712), cs, hash, [], []);
    assert [] + Texts(cs) == Texts(cs) && [] + Descriptors(cs) == Descriptors(cs);
  }

  lemma SameLength(created: seq<Ctx>, calls: seq<NewCtx>)
    requires AllQueued(created, calls)
    ensures |created| == |calls|
  {
  }

  lemma NothingShown(eip712: bool)
    ensures Shows(Initial(eip712), [], Operations([], Skipped(Initial(eip712))))
  {
  }

  /* ---- Networks ---- */

  /** The chain the empty calls gone were compared with is that of the root. */
  predicate RootChain(s: State) {
    forall k :: 0 <= k < |s.departed| && s.departed[k].Rendered? ==>
      s.created != [] && s.departed[k].rootChain == s.created[0].chainId
  }

  lemma RenderRootChain(s: State, i: nat, hash: Hash)
    requires Inv(s, hash) && CallRoot(s) && RootChain(s) && i < |s.list|
    ensures RootChain(Render(s, i)) && CallRoot(Render(s, i))
  {
    assert Genuine(s.list[0], s.created);
    hide EmptyRows, Lead, CallIds;
  }

  lemma {:induction false} RenderBeforeRootChain(s: State, i: nat, hash: Hash)
    requires Inv(s, hash) && CallRoot(s) && RootChain(s) && i <= |s.list|
    ensures RootChain(RenderBefore(s, i))
    decreases i
  {
    hide Inv, RootChain, CallRoot;
    if i > 0 && s.list[i - 1].calldata.None? {
      RenderKeeps(s, i - 1, hash);
      RenderRootChain(s, i - 1, hash);
      RenderBeforeRootChain(Render(s, i - 1), i - 1, hash);
    }
  }

  lemma {:induction false} RenderAfterRootChain(s: State, i: nat, hash: Hash)
    requires Inv(s, hash) && CallRoot(s) && RootChain(s)
    ensures RootChain(RenderAfter(s, i))
    decreases |s.list|
  {
    hide Inv, RootChain, CallRoot;
    if i < |s.list| && s.list[i].calldata.None? {
      RenderKeeps(s, i, hash);
      RenderRootChain(s, i, hash);
      RenderAfterRootChain(Render(s, i), i, hash);
    }
  }

  lemma PopRootChain(s: State)
    requires RootChain(s) && HasCurrent(s)
    ensures RootChain(Pop(s))
  {
    hide Find;
  }

  lemma {:induction false} PopMatchedRootChain(s: State, hash: Hash)
    requires Inv(s, hash) && CallRoot(s) && RootChain(s)
    ensures RootChain(PopMatched(s, hash))
    decreases |s.list|
  {
    hide Inv, RootChain, IsRoot;
    if MayPop(s, hash) {
      var r := RenderAfter(s, At(s) + 1);
      RenderAfterKeepsFront(s, At(s) + 1);
      RoundKeeps(s, hash);
      RenderAfterRootChain(s, At(s) + 1, hash);
      PopKeeps(r, hash);
      PopRootChain(r);
      PopMatchedRootChain(Pop(r), hash);
    }
  }

  lemma DescribeRootChain(s: State, info: TxInfo, hash: Hash)
    requires Inv(s, hash) && CallRoot(s) && RootChain(s) && Expected(s.list) < |s.list|
    ensures RootChain(Describe(s, info, hash))
  {
    ApproachShape(s, hash);
    var e, p := Expected(s.list), Approach(s);
    RenderBeforeRootChain(s, e, hash);
    var a := Attach(p, info);
    assert RootChain(a);
    hide Inv, RootChain, Approach, RenderBefore, Expected, Lead, Attach, Find;
    if HasCurrent(a) { PopRootChain(a); }
  }

  lemma FieldRootChain(s: State, payload: bytes, nested: seq<NewCtx>, texts: seq<string>, hash: Hash)
    requires Inv(s, hash) && HasCurrent(s) && CallRoot(s) && RootChain(s)
    ensures RootChain(Field(s, payload, nested, texts, hash))
  {
    AbsorbKeeps(s, payload, hash);
    var a := Absorb(s, payload);
    PushAllKeeps(a, nested, hash);
    PushAllGrows(a, nested);
    PushAllFrame(a, nested);
    var b := PushAll(a, nested);
    GrownIsPrefix(a.created, b.created, nested);
    var c := b.(rows := b.rows + FieldRows(texts));
    RowsKeepInv(b, FieldRows(texts), hash);
    assert CallRoot(c) && RootChain(c) by { assert c.created[0] == s.created[0]; }
    hide Inv, RootChain, PushAll, PopMatched;
    PopMatchedRootChain(c, hash);
  }

  lemma PushRootChain(s: State, n: NewCtx)
    requires RootChain(s)
    ensures RootChain(Push(s, n))
  {
  }

  /** Before the root is queued nothing can have left. */
  lemma NothingBeforeRoot(s: State, hash: Hash)
    requires Inv(s, hash)
    ensures s.list != [] || s.departed != [] ==> s.created != []
  {
    if s.list != [] { assert Genuine(s.list[0], s.created); }
    if s.departed != [] { assert Genuine(s.departed[0].ctx, s.created); }
  }

  lemma {:induction false} RunRootChain(s: State, cs: seq<Command>, hash: Hash)
    requires Inv(s, hash) && RootChain(s) && Run(s, cs, hash).Some?
    requires CallRoot(Run(s, cs, hash).value)
    ensures RootChain(Run(s, cs, hash).value)
    decreases |cs|
  {
    hide Inv, RootChain, Matches, Describe, Field, Push;
    if |cs| > 0 {
      StepKeeps(s, cs[0], hash);
      SameRoot(s, cs, hash);
      NothingBeforeRoot(s, hash);
      match cs[0] {
        case Queue(n) => PushRootChain(s, n);
        case Info(info, lookup) =>
          MatchesExpected(s, info, lookup);
          DescribeRootChain(s, info, hash);
        case FieldOf(payload, nested, texts) => FieldRootChain(s, payload, nested, texts, hash);
      }
      RunRootChain(Step(s, cs[0], hash).value, cs[1..], hash);
    }
  }

  /** In every run of a transaction whose root has calldata, the rows of an empty
      call that is gone name its network exactly when its chain is not that of
      the root. */
  lemma NetworkShown(cs: seq<Command>, hash: Hash, k: nat)
    requires Run(Initial(false), cs, hash).Some?
    requires Calls(cs) != [] && Calls(cs)[0].calldata.Some?
    requires k < |Run(Initial(false), cs, hash).value.departed| && Run(Initial(false), cs, hash).value.departed[k].Rendered?
    ensures var s := Run(Initial(false), cs, hash).value;
      var d := s.departed[k];
      && s.created != []
      && var shown := EmptyRows(d.ctx, s.created[0].chainId);
        && d.at + |shown| <= |s.rows| && s.rows[d.at..d.at + |shown|] == shown
        && (forall n :: NetworkRow(n) in shown <==> n == d.ctx.chainId && n != s.created[0].chainId)
  {
    hide Run, Calls, AllQueued, EmptyRows, Inv, CallIds, CallPositions, RootChain;
    var s := Run(Initial(false), cs, hash).value;
    CallsAreQueued(false, cs, hash);
    RootOfCalls(s.created, Calls(cs));
    InitialInv(false, hash);
    RunKeeps(Initial(false), cs, hash);
    NothingGone();
    RunRootChain(Initial(false), cs, hash);
    NetworkOf(s, k, hash);
    EmptyCallShown(s.departed[k].ctx, s.created[0].chainId);
  }

  lemma NothingGone()
    ensures RootChain(Initial(false))
  {
  }

  lemma NetworkOf(s: State, k: nat, hash: Hash)
    requires Inv(s, hash) && RootChain(s) && k < |s.departed| && s.departed[k].Rendered? && s.created != []
    ensures var d := s.departed[k];
      var shown := EmptyRows(d.ctx, s.created[0].chainId);
      d.at + |shown| <= |s.rows| && s.rows[d.at..d.at + |shown|] == shown
  {
    assert Accounted(s.departed[k], s.rows, s.accepted, hash);
    hide Inv, EmptyRows;
  }
}
