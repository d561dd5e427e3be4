/** The protocol of nested transaction contexts (tx_ctx.c, cmd_tx_info.c and
    cmd_field.c of src/features/generic_tx_parser) as steps on a state, with the
    history of the run beside it. */
module TxProtocol {
  import opened Powers
  import opened BigEndian
  import opened Numerals

  /** A digest of the bytes fed to a running hash. */
  type Hash = bytes -> bytes

  /** The implementation registered for a proxy, by chain, address and selector. */
  type Lookup = (u64, bytes, bytes) -> Option<bytes>

  /** What a TX_INFO descriptor claims about a call. */
  datatype TxInfo = TxInfo(contract: bytes, selector: bytes, chainId: u64, fieldsHash: bytes, operation: string)

  /** s_tx_ctx: calldata is the selector of the call, or nothing for a plain
      transfer; absorbed is what its fields hash has been fed. */
  datatype Ctx = Ctx(id: nat, calldata: Option<bytes>, info: Option<TxInfo>, absorbed: bytes,
                     to: bytes, amount: Option<bytes>, chainId: u64)

  /** The arguments of tx_ctx_init. */
  datatype NewCtx = NewCtx(calldata: Option<bytes>, to: bytes, amount: Option<bytes>, chainId: Option<u64>)

  datatype Row =
    | Intent(text: string)
    | AmountRow(amount: bytes, chainId: u64)
    | ToRow(to: bytes, chainId: u64)
    | NetworkRow(chainId: u64)
    | FieldRow(text: string)

  /** How a context left the list: with its fields hash matched, or as a call
      without calldata whose rows start at a position of the review. */
  datatype Departure = Matched(ctx: Ctx) | Rendered(ctx: Ctx, at: nat, rootChain: u64)

  datatype State = State(
    eip712: bool,
    list: seq<Ctx>,
    current: Option<nat>,
    rows: seq<Row>,
    // the history of the run
    created: seq<Ctx>,
    attached: seq<nat>,
    accepted: seq<(nat, bytes)>,
    departed: seq<Departure>)

  function Initial(eip712: bool): State {
    State(eip712, [], None, [], [], [], [], [])
  }

  function Ids(list: seq<Ctx>): (r: seq<nat>)
    ensures |r| == |list|
  {
    seq(|list|, i requires 0 <= i < |list| => list[i].id)
  }

  predicate HasId(list: seq<Ctx>, id: nat) {
    exists i :: 0 <= i < |list| && list[i].id == id
  }

  /** The position of a context in the list. */
  function Find(list: seq<Ctx>, id: nat): (i: nat)
    ensures i <= |list|
    ensures i < |list| ==> list[i].id == id
    ensures forall j :: 0 <= j < i ==> list[j].id != id
  {
    if list == [] || list[0].id == id then 0 else 1 + Find(list[1..], id)
  }

  /* ---- Steps ---- */

  /** tx_ctx_init: a context at the back of the list, inheriting the chain of the
      context being described, or of the last one queued. */
  function Push(s: State, n: NewCtx): State {
    var parentChain :=
      if s.list == [] then 0
      else if s.current.Some? && Find(s.list, s.current.value) < |s.list| then s.list[Find(s.list, s.current.value)].chainId
      else s.list[|s.list| - 1].chainId;
    var c := Ctx(|s.created|, n.calldata, None, [], n.to, n.amount, if n.chainId.Some? then n.chainId.value else parentChain);
    s.(list := s.list + [c], created := s.created + [c])
  }

  function PushAll(s: State, ns: seq<NewCtx>): State
    decreases |ns|
  {
    if ns == [] then s else PushAll(Push(s, ns[0]), ns[1..])
  }

  /** The rows process_empty_tx adds for a call without calldata. */
  function EmptyRows(c: Ctx, rootChain: u64): (r: seq<Row>)
    ensures |r| >= 2
  {
    (if c.amount.Some? then [Intent("Send"), AmountRow(c.amount.value, c.chainId)] else [Intent("Empty transaction")])
    + [ToRow(c.to, c.chainId)]
    + (if c.chainId != rootChain then [NetworkRow(c.chainId)] else [])
  }

  function RemoveAt(list: seq<Ctx>, i: nat): seq<Ctx>
    requires i < |list|
  {
    list[..i] + list[i + 1..]
  }

  /** process_empty_tx on the i-th context. */
  function Render(s: State, i: nat): State
    requires i < |s.list|
  {
    var c, chain := s.list[i], s.list[0].chainId;
    s.(rows := s.rows + EmptyRows(c, chain),
       list := RemoveAt(s.list, i),
       departed := s.departed + [Rendered(c, |s.rows|, chain)])
  }

  /** process_empty_txs_before, walking back from position i. */
  function RenderBefore(s: State, i: nat): State
    requires i <= |s.list|
    decreases i
  {
    if i == 0 || s.list[i - 1].calldata.Some? then s else RenderBefore(Render(s, i - 1), i - 1)
  }

  /** process_empty_txs_after, walking on from position i. */
  function RenderAfter(s: State, i: nat): State
    decreases |s.list|
  {
    if i >= |s.list| || s.list[i].calldata.Some? then s else RenderAfter(Render(s, i), i)
  }

  predicate IsRoot(s: State) {
    s.list != [] && s.current == Some(s.list[0].id)
  }

  /** The current context is in the list. */
  predicate HasCurrent(s: State) {
    s.current.Some? && Find(s.list, s.current.value) < |s.list|
  }

  /** The position of the current context. */
  function At(s: State): (i: nat)
    requires HasCurrent(s)
    ensures i < |s.list| && s.list[i].id == s.current.value
  {
    Find(s.list, s.current.value)
  }

  /** validate_instruction_hash. */
  predicate Validates(s: State, hash: Hash) {
    && HasCurrent(s)
    && var c := s.list[At(s)];
      c.info.Some? && hash(c.absorbed) == c.info.value.fieldsHash
  }

  /** tx_ctx_pop: the current context goes, the one before it becomes current. */
  function Pop(s: State): State
    requires HasCurrent(s)
  {
    var i := At(s);
    s.(current := if i == 0 then None else Some(s.list[i - 1].id),
       list := RemoveAt(s.list, i),
       departed := s.departed + [Matched(s.list[i])])
  }

  /** The first context with calldata and no TX_INFO. */
  function Expected(list: seq<Ctx>): (i: nat)
    ensures i <= |list|
    ensures i < |list| ==> list[i].info.None? && list[i].calldata.Some?
    ensures forall j :: 0 <= j < i ==> list[j].info.Some? || list[j].calldata.None?
  {
    if list == [] || (list[0].info.None? && list[0].calldata.Some?) then 0 else 1 + Expected(list[1..])
  }

  /** The contract behind a proxy, or the address itself. */
  function Target(proxy: Option<bytes>, to: bytes): bytes {
    if proxy.Some? then proxy.value else to
  }

  /** find_matching_tx_ctx, given the proxies known to the application. */
  predicate Matches(s: State, info: TxInfo, lookup: Lookup) {
    var e := Expected(s.list);
    && e < |s.list|
    && Target(lookup(info.chainId, s.list[e].to, info.selector), s.list[e].to) == info.contract
    && info.selector == s.list[e].calldata.value
    && info.chainId == s.list[e].chainId
  }

  /** The context that matches becomes current, and the empty calls before it are
      rendered. */
  function Approach(s: State): State
    requires Expected(s.list) < |s.list|
  {
    var e := Expected(s.list);
    RenderBefore(s.(current := Some(s.list[e].id)), e)
  }

  /** The current context receives its TX_INFO. */
  function Attach(s: State, info: TxInfo): State
    requires HasCurrent(s)
  {
    var i := At(s);
    s.(list := s.list[i := s.list[i].(info := Some(info))],
       attached := s.attached + [s.list[i].id],
       rows := s.rows + (if s.eip712 || !IsRoot(s) then [Intent(info.operation)] else []))
  }

  /** set_tx_info_into_tx_ctx: a nested call whose descriptor announces no field
      is popped at once. */
  function SetInfo(s: State, info: TxInfo, hash: Hash): State
    requires HasCurrent(s)
  {
    var a := Attach(s, info);
    if (s.eip712 || !IsRoot(s)) && hash([]) == info.fieldsHash && HasCurrent(a) then Pop(a) else a
  }

  /** The TX_INFO command on the context it matches. */
  function Describe(s: State, info: TxInfo, hash: Hash): State
    requires Expected(s.list) < |s.list|
  {
    var d := Approach(s);
    if HasCurrent(d) then SetInfo(d, info, hash) else d
  }

  /** A field payload is hashed into the current context. */
  function Absorb(s: State, payload: bytes): State
    requires HasCurrent(s)
  {
    var i := At(s);
    s.(list := s.list[i := s.list[i].(absorbed := s.list[i].absorbed + payload)],
       accepted := s.accepted + [(s.list[i].id, payload)])
  }

  predicate MayPop(s: State, hash: Hash) {
    (s.eip712 || !IsRoot(s)) && Validates(s, hash)
  }

  /** The loop that pops every context whose fields hash is reached, rendering
      the empty calls behind it. */
  function PopMatched(s: State, hash: Hash): State
    decreases |s.list|
  {
    if !MayPop(s, hash) then s
    else
      RenderAfterKeepsFront(s, At(s) + 1);
      var r := RenderAfter(s, At(s) + 1);
      if HasCurrent(r) then PopMatched(Pop(r), hash) else r
  }

  lemma {:induction false} RenderAfterKeepsFront(s: State, i: nat)
    ensures var r := RenderAfter(s, i);
      && |r.list| <= |s.list| && r.current == s.current && r.attached == s.attached && r.created == s.created
      && r.eip712 == s.eip712 && r.accepted == s.accepted
      && (i <= |s.list| ==> i <= |r.list| && r.list[..i] == s.list[..i])
    decreases |s.list|
  {
    if i < |s.list| && s.list[i].calldata.None? {
      RenderAfterKeepsFront(Render(s, i), i);
      assert RemoveAt(s.list, i)[..i] == s.list[..i];
    }
  }

  /** The field command: hash the payload, let its formatting queue nested calls
      and add rows, pop what is complete. */
  function Field(s: State, payload: bytes, nested: seq<NewCtx>, texts: seq<string>, hash: Hash): State
    requires HasCurrent(s)
  {
    var a := PushAll(Absorb(s, payload), nested);
    PopMatched(a.(rows := a.rows + FieldRows(texts)), hash)
  }

  /** The rows of the texts a field is formatted to. */
  function FieldRows(texts: seq<string>): (rows: seq<Row>)
    ensures |rows| == |texts| && forall i :: 0 <= i < |texts| ==> rows[i] == FieldRow(texts[i])
  {
    seq(|texts|, i requires 0 <= i < |texts| => FieldRow(texts[i]))
  }

  /** Commands that succeed; a failed command ends the run, since the application
      state is reset. */
  datatype Command =
    | Queue(call: NewCtx)
    | Info(info: TxInfo, lookup: Lookup)
    | FieldOf(payload: bytes, nested: seq<NewCtx>, texts: seq<string>)

  function Step(s: State, c: Command, hash: Hash): Option<State> {
    match c
    case Queue(n) => Some(Push(s, n))
    case Info(info, lookup) => if Matches(s, info, lookup) then Some(Describe(s, info, hash)) else None
    case FieldOf(payload, nested, texts) =>
      if HasCurrent(s) && s.list[At(s)].info.Some? then Some(Field(s, payload, nested, texts, hash)) else None
  }

  function Run(s: State, cs: seq<Command>, hash: Hash): Option<State>
    decreases |cs|
  {
    if |cs| == 0 then Some(s)
    else
      var t := Step(s, cs[0], hash);
      if t.None? then None else Run(t.value, cs[1..], hash)
  }

  /* ---- What every run keeps ---- */

  /** The described contexts at the front of the list. */
  function Lead(list: seq<Ctx>): (d: nat)
    ensures d <= |list|
    ensures forall i :: 0 <= i < d ==> list[i].info.Some?
    ensures d < |list| ==> list[d].info.None?
  {
    if list == [] || list[0].info.None? then 0 else 1 + Lead(list[1..])
  }

  /** The identities of the contexts with calldata, in order. */
  function CallIds(list: seq<Ctx>): seq<nat> {
    if list == [] then []
    else (if list[0].calldata.Some? then [list[0].id] else []) + CallIds(list[1..])
  }

  predicate Ascending(list: seq<Ctx>) {
    forall i, j :: 0 <= i < j < |list| ==> list[i].id < list[j].id
  }

  /** Only the description and the digest of a context ever change. */
  predicate SameCall(c: Ctx, d: Ctx) {
    c.id == d.id && c.calldata == d.calldata && c.to == d.to && c.amount == d.amount && c.chainId == d.chainId
  }

  predicate Numbered(s: State) {
    forall i :: 0 <= i < |s.created| ==> s.created[i].id == i
  }

  /** A context of this run, as it was created. */
  predicate Genuine(c: Ctx, created: seq<Ctx>) {
    c.id < |created| && SameCall(c, created[c.id])
  }

  predicate Holds(list: seq<Ctx>, created: seq<Ctx>) {
    Ascending(list) && forall i :: 0 <= i < |list| ==> Genuine(list[i], created)
  }

  /** The list holds created contexts, oldest first; those that left were created too. */
  predicate Listed(s: State) {
    Holds(s.list, s.created) && forall k :: 0 <= k < |s.departed| ==> Genuine(s.departed[k].ctx, s.created)
  }

  /** The described contexts form a prefix of the list, they all have calldata,
      no other context has hashed anything, and the current context is the last
      described one. */
  predicate Described(s: State) {
    var d := Lead(s.list);
    && (forall i :: 0 <= i < d ==> s.list[i].calldata.Some?)
    && (forall i :: d <= i < |s.list| ==> s.list[i].info.None? && s.list[i].absorbed == [])
    && s.current == (if d == 0 then None else Some(s.list[d - 1].id))
  }

  /** The TX_INFOs went to the calls in the order of their creation: those
      described so far, followed by those still waiting, are all calls ever
      created. */
  predicate InOrder(s: State) {
    s.attached + CallIds(s.list[Lead(s.list)..]) == CallIds(s.created)
  }

  function DepartedIds(ds: seq<Departure>): (r: seq<nat>)
    ensures |r| == |ds|
  {
    seq(|ds|, i requires 0 <= i < |ds| => ds[i].ctx.id)
  }

  /** Every context ever created is in the list or has left it, exactly once. */
  predicate Census(s: State) {
    multiset(Ids(s.created)) == multiset(Ids(s.list)) + multiset(DepartedIds(s.departed))
  }

  /** The payloads accepted for a context, concatenated. */
  function Payloads(accepted: seq<(nat, bytes)>, id: nat): bytes {
    if accepted == [] then []
    else
      var n := |accepted| - 1;
      Payloads(accepted[..n], id) + (if accepted[n].0 == id then accepted[n].1 else [])
  }

  /** A digest has been fed the payloads accepted for its context. */
  predicate Digests(s: State) {
    && (forall i :: 0 <= i < |s.list| ==> s.list[i].absorbed == Payloads(s.accepted, s.list[i].id))
    && (forall k :: 0 <= k < |s.accepted| ==> s.accepted[k].0 < |s.created|)
  }

  /** A context left for a reason: the hash of its accepted payloads is the one
      its descriptor announced, or it had no calldata and its rows are shown. */
  predicate Accounted(d: Departure, rows: seq<Row>, accepted: seq<(nat, bytes)>, hash: Hash) {
    match d
    case Matched(c) => c.info.Some? && c.calldata.Some? && hash(Payloads(accepted, c.id)) == c.info.value.fieldsHash
    case Rendered(c, at, chain) =>
      && c.info.None? && c.calldata.None?
      && at + |EmptyRows(c, chain)| <= |rows| && rows[at..at + |EmptyRows(c, chain)|] == EmptyRows(c, chain)
  }

  predicate Justified(s: State, hash: Hash) {
    forall k :: 0 <= k < |s.departed| ==> Accounted(s.departed[k], s.rows, s.accepted, hash)
  }

  /** In transaction mode a root with calldata stays at the front. */
  predicate RootStays(s: State) {
    !s.eip712 && s.created != [] && s.created[0].calldata.Some? ==> s.list != [] && s.list[0].id == 0
  }

  predicate Inv(s: State, hash: Hash) {
    && Numbered(s) && Listed(s) && Described(s) && InOrder(s)
    && Census(s) && Digests(s) && Justified(s, hash) && RootStays(s)
  }

  /* ---- Lists ---- */

  lemma {:induction false} CallIdsConcat(a: seq<Ctx>, b: seq<Ctx>)
    ensures CallIds(a + b) == CallIds(a) + CallIds(b)
  {
    if a == [] {
      assert a + b == b;
    } else {
      CallIdsConcat(a[1..], b);
      assert (a + b)[0] == a[0] && (a + b)[1..] == a[1..] + b;
      var h := if a[0].calldata.Some? then [a[0].id] else [];
      assert h + (CallIds(a[1..]) + CallIds(b)) == (h + CallIds(a[1..])) + CallIds(b);
    }
  }

  lemma {:induction false} LeadIs(list: seq<Ctx>, d: nat)
    requires d <= |list| && (forall i :: 0 <= i < d ==> list[i].info.Some?) && (d < |list| ==> list[d].info.None?)
    ensures Lead(list) == d
  {
    if d > 0 { LeadIs(list[1..], d - 1); }
  }

  lemma FindIs(list: seq<Ctx>, i: nat)
    requires Ascending(list) && i < |list|
    ensures Find(list, list[i].id) == i
  {
  }

  lemma IdsRemove(list: seq<Ctx>, i: nat)
    requires i < |list|
    ensures multiset(Ids(list)) == multiset(Ids(RemoveAt(list, i))) + multiset{list[i].id}
  {
    assert Ids(list) == Ids(list[..i]) + [list[i].id] + Ids(list[i + 1..]);
    assert Ids(RemoveAt(list, i)) == Ids(list[..i]) + Ids(list[i + 1..]);
  }

  lemma DepartedAppend(ds: seq<Departure>, d: Departure)
    ensures multiset(DepartedIds(ds + [d])) == multiset(DepartedIds(ds)) + multiset{d.ctx.id}
  {
    assert DepartedIds(ds + [d]) == DepartedIds(ds) + [d.ctx.id];
  }

  /** Who has left is not in the list any more. */
  lemma NotListed(s: State, k: nat, i: nat)
    requires Numbered(s) && Census(s) && k < |s.departed| && i < |s.list|
    ensures s.departed[k].ctx.id != s.list[i].id
  {
    var x := s.list[i].id;
    assert x == Ids(s.list)[i] && DepartedIds(s.departed)[k] == s.departed[k].ctx.id;
    if s.departed[k].ctx.id == x {
      assert multiset(Ids(s.list))[x] >= 1 && multiset(DepartedIds(s.departed))[x] >= 1;
      IdsOnce(s.created, x);
    }
  }

  lemma {:induction false} IdsOnce(created: seq<Ctx>, x: nat)
    requires forall i :: 0 <= i < |created| ==> created[i].id == i
    ensures multiset(Ids(created))[x] == if x < |created| then 1 else 0
  {
    if created != [] {
      var n := |created| - 1;
      IdsOnce(created[..n], x);
      assert Ids(created) == Ids(created[..n]) + [n];
    }
  }

  /* ---- Each step keeps the invariant ---- */

  lemma GenuineStays(c: Ctx, created: seq<Ctx>, d: Ctx)
    requires Genuine(c, created)
    ensures Genuine(c, created + [d])
  {
  }

  lemma HoldsPush(list: seq<Ctx>, created: seq<Ctx>, c: Ctx)
    requires Holds(list, created) && c.id == |created|
    ensures Holds(list + [c], created + [c])
  {
    forall i | 0 <= i < |list| ensures Genuine(list[i], created + [c]) { GenuineStays(list[i], created, c); }
  }

  lemma HoldsRemove(list: seq<Ctx>, created: seq<Ctx>, i: nat)
    requires Holds(list, created) && i < |list|
    ensures Holds(RemoveAt(list, i), created)
  {
    hide Genuine;
    var t := RemoveAt(list, i);
    assert forall j :: 0 <= j < |t| ==> t[j] == if j < i then list[j] else list[j + 1];
  }

  lemma HoldsUpdate(list: seq<Ctx>, created: seq<Ctx>, i: nat, c: Ctx)
    requires Holds(list, created) && i < |list| && SameCall(c, list[i])
    ensures Holds(list[i := c], created)
  {
  }

  lemma PushListed(s: State, n: NewCtx)
    requires Numbered(s) && Listed(s) && RootStays(s)
    ensures Numbered(Push(s, n)) && Listed(Push(s, n)) && RootStays(Push(s, n))
  {
    var t := Push(s, n);
    HoldsPush(s.list, s.created, t.created[|s.created|]);
    forall k | 0 <= k < |t.departed| ensures Genuine(t.departed[k].ctx, t.created) {
      GenuineStays(s.departed[k].ctx, s.created, t.created[|s.created|]);
    }
    hide Holds, Genuine;
  }

  lemma PushDescribed(s: State, n: NewCtx)
    requires Described(s)
    ensures Described(Push(s, n)) && Lead(Push(s, n).list) == Lead(s.list)
  {
    LeadIs(Push(s, n).list, Lead(s.list));
  }

  lemma PushOrder(s: State, n: NewCtx)
    requires InOrder(s) && Lead(Push(s, n).list) == Lead(s.list)
    ensures InOrder(Push(s, n))
  {
    hide Lead;
    var t := Push(s, n);
    var c, d := t.list[|s.list|], Lead(s.list);
    assert t.list[d..] == s.list[d..] + [c];
    CallIdsConcat(s.list[d..], [c]);
    CallIdsConcat(s.created, [c]);
    hide CallIds;
  }

  lemma PushCensus(s: State, n: NewCtx)
    requires Census(s)
    ensures Census(Push(s, n))
  {
    var t := Push(s, n);
    var c := t.list[|s.list|];
    assert Ids(t.list) == Ids(s.list) + [c.id] && Ids(t.created) == Ids(s.created) + [c.id];
  }

  lemma PushLedger(s: State, n: NewCtx, hash: Hash)
    requires Digests(s) && Justified(s, hash)
    ensures Digests(Push(s, n)) && Justified(Push(s, n), hash)
  {
    PayloadsOfUnknown(s.accepted, |s.created|);
  }

  lemma PushKeeps(s: State, n: NewCtx, hash: Hash)
    requires Inv(s, hash)
    ensures Inv(Push(s, n), hash) && Lead(Push(s, n).list) == Lead(s.list)
  {
    hide Numbered, Listed, Described, InOrder, Census, Digests, Justified, RootStays, Lead, Push;
    PushListed(s, n);
    PushDescribed(s, n);
    PushOrder(s, n);
    PushCensus(s, n);
    PushLedger(s, n, hash);
  }

  lemma {:induction false} PayloadsOfUnknown(accepted: seq<(nat, bytes)>, id: nat)
    requires forall k :: 0 <= k < |accepted| ==> accepted[k].0 != id
    ensures Payloads(accepted, id) == []
  {
    if accepted != [] { PayloadsOfUnknown(accepted[..|accepted| - 1], id); }
  }

  lemma {:induction false} PushAllKeeps(s: State, ns: seq<NewCtx>, hash: Hash)
    requires Inv(s, hash)
    ensures Inv(PushAll(s, ns), hash) && PushAll(s, ns).current == s.current
    ensures Lead(PushAll(s, ns).list) == Lead(s.list)
    decreases |ns|
  {
    hide Numbered, Listed, Described, InOrder, Census, Digests, Justified, RootStays, Lead;
    if ns != [] {
      PushKeeps(s, ns[0], hash);
      PushAllKeeps(Push(s, ns[0]), ns[1..], hash);
    }
  }

  lemma RowsStay(d: Departure, rows: seq<Row>, more: seq<Row>, accepted: seq<(nat, bytes)>, hash: Hash)
    requires Accounted(d, rows, accepted, hash)
    ensures Accounted(d, rows + more, accepted, hash)
  {
    if d.Rendered? {
      var e := d.at + |EmptyRows(d.ctx, d.rootChain)|;
      assert (rows + more)[d.at..e] == rows[d.at..e];
    }
  }

  lemma RowsKeep(s: State, rows: seq<Row>, hash: Hash)
    requires Justified(s, hash)
    ensures Justified(s.(rows := s.rows + rows), hash)
  {
    hide Accounted;
    var t := s.(rows := s.rows + rows);
    forall k | 0 <= k < |t.departed| ensures Accounted(t.departed[k], t.rows, t.accepted, hash) {
      RowsStay(s.departed[k], s.rows, rows, s.accepted, hash);
    }
  }

  /** Rows of formatted fields change nothing else. */
  lemma RowsKeepInv(s: State, rows: seq<Row>, hash: Hash)
    requires Inv(s, hash)
    ensures Inv(s.(rows := s.rows + rows), hash)
  {
    hide Accounted, Lead, CallIds, Payloads, Holds, Genuine;
    RowsKeep(s, rows, hash);
  }

  /* Rendering a call without calldata, wherever it stands. */

  lemma RenderListed(s: State, i: nat)
    requires Numbered(s) && Listed(s) && RootStays(s) && i < |s.list| && s.list[i].calldata.None?
    ensures Numbered(Render(s, i)) && Listed(Render(s, i)) && RootStays(Render(s, i))
  {
    HoldsRemove(s.list, s.created, i);
    assert Genuine(s.list[i], s.created);
    assert i == 0 ==> Genuine(s.list[0], s.created);
    hide Holds, EmptyRows;
  }

  lemma RenderOrder(s: State, i: nat)
    requires InOrder(s) && i < |s.list| && s.list[i].calldata.None? && Lead(Render(s, i).list) == Lead(s.list) <= i
    ensures InOrder(Render(s, i))
  {
    hide Lead, CallIds, EmptyRows;
    CallsWithoutEmpty(s.list, i, Lead(s.list));
  }

  lemma CallsWithoutEmpty(list: seq<Ctx>, i: nat, d: nat)
    requires d <= i < |list| && list[i].calldata.None?
    ensures CallIds(RemoveAt(list, i)[d..]) == CallIds(list[d..])
  {
    var a, b := list[d..i], list[i + 1..];
    assert list[d..] == a + ([list[i]] + b);
    assert RemoveAt(list, i)[d..] == a + b;
    CallIdsConcat(a, b);
    CallIdsConcat(a, [list[i]] + b);
    CallIdsConcat([list[i]], b);
  }

  lemma RenderDescribed(s: State, i: nat)
    requires Described(s) && i < |s.list| && s.list[i].calldata.None?
    ensures Described(Render(s, i)) && Lead(Render(s, i).list) == Lead(s.list) <= i
  {
    var t := Render(s, i).list;
    assert forall j :: 0 <= j < |t| ==> t[j] == if j < i then s.list[j] else s.list[j + 1];
    LeadIs(t, Lead(s.list));
    hide Lead, EmptyRows;
  }

  lemma RenderCensus(s: State, i: nat)
    requires Census(s) && i < |s.list|
    ensures Census(Render(s, i))
  {
    var t := Render(s, i);
    IdsRemove(s.list, i);
    DepartedAppend(s.departed, t.departed[|s.departed|]);
  }

  lemma RenderDigests(s: State, i: nat)
    requires Digests(s) && i < |s.list|
    ensures Digests(Render(s, i))
  {
  }

  lemma RenderJustified(s: State, i: nat, hash: Hash)
    requires Justified(s, hash) && i < |s.list| && s.list[i].calldata.None? && s.list[i].info.None?
    ensures Justified(Render(s, i), hash)
  {
    hide Accounted, EmptyRows;
    var t, c := Render(s, i), s.list[i];
    var rows := EmptyRows(c, s.list[0].chainId);
    RowsKeep(s, rows, hash);
    RenderedAccounted(c, s.list[0].chainId, s.rows, s.accepted, hash);
  }

  lemma RenderedAccounted(c: Ctx, chain: u64, rows: seq<Row>, accepted: seq<(nat, bytes)>, hash: Hash)
    requires c.info.None? && c.calldata.None?
    ensures Accounted(Rendered(c, |rows|, chain), rows + EmptyRows(c, chain), accepted, hash)
  {
  }

  lemma RenderKeeps(s: State, i: nat, hash: Hash)
    requires Inv(s, hash) && i < |s.list| && s.list[i].calldata.None?
    ensures Inv(Render(s, i), hash)
    ensures Lead(Render(s, i).list) == Lead(s.list) <= i
  {
    RenderedUndescribed(s, i);
    hide Numbered, Listed, Described, InOrder, Census, Digests, Justified, RootStays, Lead, Render;
    RenderListed(s, i);
    RenderDescribed(s, i);
    RenderOrder(s, i);
    RenderCensus(s, i);
    RenderDigests(s, i);
    RenderJustified(s, i, hash);
  }

  lemma RenderedUndescribed(s: State, i: nat)
    requires Described(s) && i < |s.list| && s.list[i].calldata.None?
    ensures s.list[i].info.None?
  {
  }

  lemma {:induction false} RenderBeforeKeeps(s: State, i: nat, hash: Hash)
    requires Inv(s, hash) && i <= |s.list|
    ensures Inv(RenderBefore(s, i), hash)
    ensures Lead(RenderBefore(s, i).list) == Lead(s.list)
    decreases i
  {
    hide Numbered, Listed, Described, InOrder, Census, Digests, Justified, RootStays, Lead;
    if i > 0 && s.list[i - 1].calldata.None? {
      RenderKeeps(s, i - 1, hash);
      RenderBeforeKeeps(Render(s, i - 1), i - 1, hash);
    }
  }

  lemma {:induction false} RenderAfterKeeps(s: State, i: nat, hash: Hash)
    requires Inv(s, hash)
    ensures Inv(RenderAfter(s, i), hash)
    ensures Lead(RenderAfter(s, i).list) == Lead(s.list)
    decreases |s.list|
  {
    hide Numbered, Listed, Described, InOrder, Census, Digests, Justified, RootStays, Lead;
    if i < |s.list| && s.list[i].calldata.None? {
      RenderKeeps(s, i, hash);
      RenderAfterKeeps(Render(s, i), i, hash);
    }
  }

  /* Describing. */

  /** Rendering back from the next call to describe reaches the described ones:
      the call stands right behind them. */
  lemma {:induction false} RenderBeforeReaches(s: State, d: nat, e: nat)
    requires d <= e < |s.list|
    requires forall j :: 0 <= j < d ==> s.list[j].calldata.Some?
    requires forall j :: d <= j < e ==> s.list[j].calldata.None?
    ensures d < |RenderBefore(s, e).list| && RenderBefore(s, e).list[d] == s.list[e]
    decreases e
  {
    hide EmptyRows;
    if d < e {
      var t := Render(s, e - 1);
      assert forall j :: 0 <= j < e - 1 ==> t.list[j] == s.list[j];
      assert t.list[e - 1] == s.list[e];
      RenderBeforeReaches(t, d, e - 1);
    }
  }

  lemma {:induction false} RenderBeforeFrame(s: State, e: nat)
    requires e <= |s.list|
    ensures var t := RenderBefore(s, e); t.attached == s.attached && t.created == s.created && t.eip712 == s.eip712 && t.accepted == s.accepted
    decreases e
  {
    if e > 0 && s.list[e - 1].calldata.None? { RenderBeforeFrame(Render(s, e - 1), e - 1); }
  }

  lemma DescribedAreCalls(s: State)
    requires Described(s)
    ensures forall i :: 0 <= i < Lead(s.list) ==> s.list[i].calldata.Some?
  {
  }

  /** The next call to describe, with only empty calls between it and the
      described ones. */
  lemma ExpectedBehindLead(s: State)
    requires Described(s) && Expected(s.list) < |s.list|
    ensures Lead(s.list) <= Expected(s.list)
    ensures forall j :: Lead(s.list) <= j < Expected(s.list) ==> s.list[j].calldata.None?
  {
  }

  lemma {:induction false} RenderBeforeCurrent(s: State, i: nat, c: Option<nat>)
    requires i <= |s.list|
    ensures RenderBefore(s.(current := c), i) == RenderBefore(s, i).(current := c)
    decreases i
  {
    if i > 0 && s.list[i - 1].calldata.None? {
      RenderBeforeCurrent(Render(s, i - 1), i - 1, c);
      assert Render(s.(current := c), i - 1) == Render(s, i - 1).(current := c);
    }
  }

  /** The state in which a TX_INFO is attached: that of the invariant, but for
      the current context, which is the first one after those described. */
  lemma ApproachShape(s: State, hash: Hash)
    requires Inv(s, hash) && Expected(s.list) < |s.list|
    ensures var t := RenderBefore(s, Expected(s.list));
      && Inv(t, hash) && Lead(t.list) < |t.list| && t.attached == s.attached && t.created == s.created && t.eip712 == s.eip712
      && t.list[Lead(t.list)].calldata.Some? && t.list[Lead(t.list)] == s.list[Expected(s.list)]
      && Approach(s) == t.(current := Some(t.list[Lead(t.list)].id))
      && HasCurrent(Approach(s)) && At(Approach(s)) == Lead(t.list)
  {
    var e := Expected(s.list);
    ExpectedBehindLead(s);
    RenderBeforeKeeps(s, e, hash);
    DescribedAreCalls(s);
    RenderBeforeReaches(s, Lead(s.list), e);
    RenderBeforeFrame(s, e);
    RenderBeforeCurrent(s, e, Some(s.list[e].id));
    var t := RenderBefore(s, e);
    ListedAscending(t);
    hide Numbered, Listed, Described, InOrder, Census, Digests, Justified, RootStays, Lead, RenderBefore, Expected;
    FindIs(t.list, Lead(t.list));
  }

  lemma ListedAscending(s: State)
    requires Listed(s)
    ensures Ascending(s.list)
  {
  }

  /** Attaching to the first context that is not described. */
  lemma AttachKeeps(s: State, t: State, info: TxInfo, hash: Hash)
    requires Inv(s, hash) && Lead(s.list) < |s.list| && s.list[Lead(s.list)].calldata.Some?
    requires t == s.(current := Some(s.list[Lead(s.list)].id))
    requires HasCurrent(t) && At(t) == Lead(s.list)
    ensures Inv(Attach(t, info), hash) && Lead(Attach(t, info).list) == Lead(s.list) + 1
  {
    var a := Attach(t, info);
    AttachListed(s, t, info);
    AttachDescribed(s, t, info);
    AttachCensus(s, t, info);
    AttachLedger(s, t, info, hash);
    hide Numbered, Listed, Described, InOrder, Census, Digests, Justified, RootStays, Lead, Attach;
  }

  lemma AttachListed(s: State, t: State, info: TxInfo)
    requires Numbered(s) && Listed(s) && RootStays(s) && HasCurrent(t) && t == s.(current := t.current)
    ensures Numbered(Attach(t, info)) && Listed(Attach(t, info)) && RootStays(Attach(t, info))
  {
    HoldsUpdate(s.list, s.created, At(t), s.list[At(t)].(info := Some(info)));
    hide Holds, Genuine, Find;
  }

  lemma AttachDescribed(s: State, t: State, info: TxInfo)
    requires Described(s) && InOrder(s) && Lead(s.list) < |s.list| && s.list[Lead(s.list)].calldata.Some?
    requires t == s.(current := Some(s.list[Lead(s.list)].id)) && HasCurrent(t) && At(t) == Lead(s.list)
    ensures Described(Attach(t, info)) && InOrder(Attach(t, info)) && Lead(Attach(t, info).list) == Lead(s.list) + 1
  {
    var a, d := Attach(t, info), Lead(s.list);
    LeadIs(a.list, d + 1);
    assert s.list[d..][1..] == s.list[d + 1..] == a.list[d + 1..];
    assert a.attached + CallIds(s.list[d + 1..]) == s.attached + ([s.list[d].id] + CallIds(s.list[d + 1..]));
  }

  lemma AttachCensus(s: State, t: State, info: TxInfo)
    requires Census(s) && HasCurrent(t) && t == s.(current := t.current)
    ensures Census(Attach(t, info))
  {
    assert Ids(Attach(t, info).list) == Ids(s.list);
  }

  lemma AttachLedger(s: State, t: State, info: TxInfo, hash: Hash)
    requires Digests(s) && Justified(s, hash) && HasCurrent(t) && t == s.(current := t.current)
    ensures Digests(Attach(t, info)) && Justified(Attach(t, info), hash)
  {
    hide Accounted, Payloads;
    var more: seq<Row> := if t.eip712 || !IsRoot(t) then [Intent(info.operation)] else [];
    RowsKeep(s, more, hash);
  }

  /* Popping. */

  /** The current context is the last described one. */
  lemma CurrentIsLast(s: State, hash: Hash)
    requires Inv(s, hash)
    ensures HasCurrent(s) <==> Lead(s.list) > 0
    ensures s.current.Some? <==> Lead(s.list) > 0
    ensures Lead(s.list) > 0 ==> At(s) == Lead(s.list) - 1 && s.list[At(s)].info.Some? && s.list[At(s)].calldata.Some?
    ensures IsRoot(s) <==> Lead(s.list) == 1
  {
    var d := Lead(s.list);
    if d > 0 { FindIs(s.list, d - 1); }
  }

  lemma PopListed(s: State)
    requires Numbered(s) && Listed(s) && RootStays(s) && HasCurrent(s) && (s.eip712 || At(s) > 0)
    ensures Numbered(Pop(s)) && Listed(Pop(s)) && RootStays(Pop(s))
  {
    HoldsRemove(s.list, s.created, At(s));
    assert Genuine(s.list[At(s)], s.created);
    hide Holds, Genuine, Find;
  }

  lemma PopDescribed(s: State)
    requires Described(s) && HasCurrent(s) && At(s) + 1 == Lead(s.list)
    ensures Described(Pop(s)) && Lead(Pop(s).list) + 1 == Lead(s.list)
  {
    var t, i := Pop(s).list, At(s);
    assert forall j :: 0 <= j < |t| ==> t[j] == if j < i then s.list[j] else s.list[j + 1];
    LeadIs(t, i);
    hide Lead, Find;
  }

  lemma PopOrder(s: State)
    requires InOrder(s) && HasCurrent(s) && At(s) + 1 == Lead(s.list) == Lead(Pop(s).list) + 1
    ensures InOrder(Pop(s))
  {
    hide Lead, CallIds, Find;
    assert Pop(s).list[At(s)..] == s.list[At(s) + 1..];
  }

  lemma PopCensus(s: State)
    requires Census(s) && HasCurrent(s)
    ensures Census(Pop(s))
  {
    IdsRemove(s.list, At(s));
    DepartedAppend(s.departed, Matched(s.list[At(s)]));
  }

  lemma PopLedger(s: State, hash: Hash)
    requires Digests(s) && Justified(s, hash) && Validates(s, hash) && s.list[At(s)].calldata.Some?
    ensures Digests(Pop(s)) && Justified(Pop(s), hash)
  {
    var d := Matched(s.list[At(s)]);
    assert Accounted(d, s.rows, s.accepted, hash);
    hide Accounted, Payloads;
    var t := Pop(s);
    forall k | 0 <= k < |t.departed| ensures Accounted(t.departed[k], t.rows, t.accepted, hash) {
      if k < |s.departed| { assert t.departed[k] == s.departed[k]; }
    }
  }

  lemma PopKeeps(s: State, hash: Hash)
    requires Inv(s, hash) && MayPop(s, hash)
    ensures Inv(Pop(s), hash) && Lead(Pop(s).list) + 1 == Lead(s.list)
  {
    CurrentIsLast(s, hash);
    if !IsRoot(s) { RootIsFirst(s); }
    hide Numbered, Listed, Described, InOrder, Census, Digests, Justified, RootStays, Lead, Pop;
    PopListed(s);
    PopDescribed(s);
    PopOrder(s);
    PopCensus(s);
    PopLedger(s, hash);
  }

  lemma RootIsFirst(s: State)
    requires HasCurrent(s) && !IsRoot(s)
    ensures At(s) > 0
  {
  }

  /** A TX_INFO that matches keeps the invariant, and is the next one in order. */
  lemma DescribeKeeps(s: State, info: TxInfo, hash: Hash)
    requires Inv(s, hash) && Expected(s.list) < |s.list|
    ensures Inv(Describe(s, info, hash), hash)
    ensures Describe(s, info, hash).attached == s.attached + [s.list[Expected(s.list)].id]
    ensures Describe(s, info, hash).eip712 == s.eip712 && Describe(s, info, hash).created == s.created
  {
    ApproachShape(s, hash);
    var t := RenderBefore(s, Expected(s.list));
    var p := Approach(s);
    AttachKeeps(t, p, info, hash);
    var a := Attach(p, info);
    CurrentIsLast(a, hash);
    FreshDigest(t);
    hide Numbered, Listed, Described, InOrder, Census, Digests, Justified, RootStays, Lead, RenderBefore, Expected, Approach;
    if (a.eip712 || !IsRoot(a)) && hash([]) == info.fieldsHash {
      assert MayPop(a, hash);
      PopKeeps(a, hash);
    }
  }

  lemma FreshDigest(s: State)
    requires Described(s) && Lead(s.list) < |s.list|
    ensures s.list[Lead(s.list)].absorbed == []
  {
  }

  /* Fields. */

  lemma AbsorbListed(s: State, payload: bytes)
    requires Numbered(s) && Listed(s) && RootStays(s) && HasCurrent(s)
    ensures Numbered(Absorb(s, payload)) && Listed(Absorb(s, payload)) && RootStays(Absorb(s, payload))
  {
    HoldsUpdate(s.list, s.created, At(s), s.list[At(s)].(absorbed := s.list[At(s)].absorbed + payload));
    hide Holds, Genuine, Find;
  }

  lemma AbsorbDescribed(s: State, payload: bytes)
    requires Described(s) && InOrder(s) && HasCurrent(s) && At(s) + 1 == Lead(s.list)
    ensures Described(Absorb(s, payload)) && InOrder(Absorb(s, payload))
    ensures Lead(Absorb(s, payload).list) == Lead(s.list)
  {
    var t, d := Absorb(s, payload), Lead(s.list);
    LeadIs(t.list, d);
    assert t.list[d..] == s.list[d..];
  }

  lemma AbsorbCensus(s: State, payload: bytes)
    requires Census(s) && HasCurrent(s)
    ensures Census(Absorb(s, payload))
  {
    assert Ids(Absorb(s, payload).list) == Ids(s.list);
  }

  lemma AbsorbDigests(s: State, payload: bytes)
    requires Listed(s) && Digests(s) && HasCurrent(s)
    ensures Digests(Absorb(s, payload))
  {
    var t, i := Absorb(s, payload), At(s);
    assert t.accepted[..|s.accepted|] == s.accepted;
    assert forall j :: 0 <= j < |s.list| && j != i ==> s.list[j].id != s.list[i].id;
  }

  lemma AcceptedElsewhere(d: Departure, rows: seq<Row>, accepted: seq<(nat, bytes)>, a: (nat, bytes), hash: Hash)
    requires Accounted(d, rows, accepted, hash) && a.0 != d.ctx.id
    ensures Accounted(d, rows, accepted + [a], hash)
  {
    assert (accepted + [a])[..|accepted|] == accepted;
    assert Payloads(accepted, d.ctx.id) + [] == Payloads(accepted, d.ctx.id);
  }

  lemma AbsorbJustified(s: State, payload: bytes, hash: Hash)
    requires Numbered(s) && Census(s) && Justified(s, hash) && HasCurrent(s)
    ensures Justified(Absorb(s, payload), hash)
  {
    hide Census, Numbered, Accounted, Payloads;
    var t := Absorb(s, payload);
    forall k | 0 <= k < |t.departed| ensures Accounted(t.departed[k], t.rows, t.accepted, hash) {
      NotListed(s, k, At(s));
      AcceptedElsewhere(s.departed[k], s.rows, s.accepted, (s.current.value, payload), hash);
    }
  }

  lemma AbsorbKeeps(s: State, payload: bytes, hash: Hash)
    requires Inv(s, hash) && HasCurrent(s)
    ensures Inv(Absorb(s, payload), hash) && Lead(Absorb(s, payload).list) == Lead(s.list)
  {
    CurrentIsLast(s, hash);
    hide Numbered, Listed, Described, InOrder, Census, Digests, Justified, RootStays, Lead, Absorb;
    AbsorbListed(s, payload);
    AbsorbDescribed(s, payload);
    AbsorbCensus(s, payload);
    AbsorbDigests(s, payload);
    AbsorbJustified(s, payload, hash);
  }

  /** Rendering the empty calls behind a complete context leaves it complete. */
  lemma RoundKeeps(s: State, hash: Hash)
    requires Inv(s, hash) && Validates(s, hash)
    ensures var r := RenderAfter(s, At(s) + 1); Inv(r, hash) && Validates(r, hash) && IsRoot(r) == IsRoot(s)
  {
    CurrentIsLast(s, hash);
    RenderAfterKeeps(s, At(s) + 1, hash);
    RenderAfterKeepsFront(s, At(s) + 1);
    var r := RenderAfter(s, At(s) + 1);
    CurrentIsLast(r, hash);
    hide Numbered, Listed, Described, InOrder, Census, Digests, Justified, RootStays, Lead, RenderAfter;
    assert r.list[At(s)] == s.list[..At(s) + 1][At(s)] == s.list[At(s)];
  }

  lemma {:induction false} PopMatchedKeeps(s: State, hash: Hash)
    requires Inv(s, hash)
    ensures Inv(PopMatched(s, hash), hash) && !MayPop(PopMatched(s, hash), hash)
    ensures PopMatched(s, hash).attached == s.attached && PopMatched(s, hash).created == s.created
    ensures PopMatched(s, hash).eip712 == s.eip712
    decreases |s.list|
  {
    hide Numbered, Listed, Described, InOrder, Census, Digests, Justified, RootStays, Lead;
    if MayPop(s, hash) {
      RoundKeeps(s, hash);
      RenderAfterKeepsFront(s, At(s) + 1);
      var r := RenderAfter(s, At(s) + 1);
      PopKeeps(r, hash);
      PopMatchedKeeps(Pop(r), hash);
    }
  }

  lemma FieldKeeps(s: State, payload: bytes, nested: seq<NewCtx>, texts: seq<string>, hash: Hash)
    requires Inv(s, hash) && HasCurrent(s)
    ensures Inv(Field(s, payload, nested, texts, hash), hash)
    ensures Field(s, payload, nested, texts, hash).attached == s.attached
    ensures Field(s, payload, nested, texts, hash).eip712 == s.eip712
  {
    AbsorbKeeps(s, payload, hash);
    var a := Absorb(s, payload);
    PushAllKeeps(a, nested, hash);
    PushAllFrame(a, nested);
    var b := PushAll(a, nested);
    RowsKeepInv(b, FieldRows(texts), hash);
    PopMatchedKeeps(b.(rows := b.rows + FieldRows(texts)), hash);
    hide Numbered, Listed, Described, InOrder, Census, Digests, Justified, RootStays, Lead, PushAll, PopMatched;
  }

  lemma {:induction false} PushAllFrame(s: State, ns: seq<NewCtx>)
    ensures PushAll(s, ns).attached == s.attached && PushAll(s, ns).eip712 == s.eip712
    decreases |ns|
  {
    if ns != [] { PushAllFrame(Push(s, ns[0]), ns[1..]); }
  }

  /* ---- Whole runs ---- */

  function Infos(cs: seq<Command>): nat {
    if |cs| == 0 then 0 else (if cs[0].Info? then 1 else 0) + Infos(cs[1..])
  }

  lemma StepKeeps(s: State, c: Command, hash: Hash)
    requires Inv(s, hash) && Step(s, c, hash).Some?
    ensures Inv(Step(s, c, hash).value, hash)
    ensures |Step(s, c, hash).value.attached| == |s.attached| + if c.Info? then 1 else 0
    ensures Step(s, c, hash).value.eip712 == s.eip712
  {
    hide Numbered, Listed, Described, InOrder, Census, Digests, Justified, RootStays, Lead, Field, Describe, Matches;
    match c
    case Queue(n) => PushKeeps(s, n, hash);
    case Info(info, lookup) =>
      MatchesExpected(s, info, lookup);
      DescribeKeeps(s, info, hash);
    case FieldOf(payload, nested, texts) => FieldKeeps(s, payload, nested, texts, hash);
  }

  lemma MatchesExpected(s: State, info: TxInfo, lookup: Lookup)
    requires Matches(s, info, lookup)
    ensures Expected(s.list) < |s.list|
  {
  }

  lemma InitialInv(eip712: bool, hash: Hash)
    ensures Inv(Initial(eip712), hash)
  {
  }

  lemma {:induction false} RunKeeps(s: State, cs: seq<Command>, hash: Hash)
    requires Inv(s, hash) && Run(s, cs, hash).Some?
    ensures var t := Run(s, cs, hash).value;
      Inv(t, hash) && |t.attached| == |s.attached| + Infos(cs) && t.eip712 == s.eip712
    decreases |cs|
  {
    hide Numbered, Listed, Described, InOrder, Census, Digests, Justified, RootStays, Step;
    if |cs| != 0 {
      StepKeeps(s, cs[0], hash);
      RunKeeps(Step(s, cs[0], hash).value, cs[1..], hash);
    }
  }

  /** The k-th TX_INFO of any run went to the k-th call ever created. */
  lemma DescriptionOrder(eip712: bool, cs: seq<Command>, hash: Hash)
    requires Run(Initial(eip712), cs, hash).Some?
    ensures var s := Run(Initial(eip712), cs, hash).value;
      && |s.attached| == Infos(cs) <= |CallIds(s.created)|
      && s.attached == CallIds(s.created)[..Infos(cs)]
  {
    InitialInv(eip712, hash);
    RunKeeps(Initial(eip712), cs, hash);
  }

  /** Every context created in a run is in the list or has left it, once in all;
      who has left was accounted for. */
  lemma AccountedOnce(eip712: bool, cs: seq<Command>, hash: Hash, id: nat)
    requires Run(Initial(eip712), cs, hash).Some?
    requires id < |Run(Initial(eip712), cs, hash).value.created|
    ensures var s := Run(Initial(eip712), cs, hash).value;
      && multiset(Ids(s.list))[id] + multiset(DepartedIds(s.departed))[id] == 1
      && forall k :: 0 <= k < |s.departed| ==>
           Accounted(s.departed[k], s.rows, s.accepted, hash) && Genuine(s.departed[k].ctx, s.created)
  {
    InitialInv(eip712, hash);
    RunKeeps(Initial(eip712), cs, hash);
    var s := Run(Initial(eip712), cs, hash).value;
    hide Run, Accounted, Genuine, Described, InOrder, Digests;
    IdsOnce(s.created, id);
  }

  lemma {:induction false} CallIdsFrom(created: seq<Ctx>, from: nat)
    requires forall i :: 0 <= i < |created| ==> created[i].id == from + i
    ensures forall k :: 0 <= k < |CallIds(created)| ==> CallIds(created)[k] >= from
    ensures created != [] && created[0].calldata.Some? ==>
      CallIds(created) != [] && CallIds(created)[0] == from && forall k :: 1 <= k < |CallIds(created)| ==> CallIds(created)[k] > from
  {
    if created != [] { CallIdsFrom(created[1..], from + 1); }
  }

  /** In transaction mode, once a root with calldata exists it is never removed,
      it is the first to be described, and from then on there is always a current
      context, which is in the list. */
  lemma RootAndCurrent(cs: seq<Command>, hash: Hash)
    requires Run(Initial(false), cs, hash).Some?
    requires var s := Run(Initial(false), cs, hash).value; s.created != [] && s.created[0].calldata.Some?
    ensures var s := Run(Initial(false), cs, hash).value;
      && s.list != [] && s.list[0].id == 0
      && (Infos(cs) > 0 <==> s.list[0].info.Some?)
      && (Infos(cs) > 0 <==> s.current.Some?)
      && (s.current.Some? ==> HasCurrent(s))
  {
    InitialInv(false, hash);
    RunKeeps(Initial(false), cs, hash);
    RootDescribedFirst(Run(Initial(false), cs, hash).value, hash);
  }

  lemma RootDescribedFirst(s: State, hash: Hash)
    requires Inv(s, hash) && !s.eip712 && s.created != [] && s.created[0].calldata.Some?
    ensures s.list != [] && s.list[0].id == 0
    ensures s.attached != [] <==> s.list[0].info.Some?
    ensures s.attached != [] <==> s.current.Some?
    ensures s.current.Some? ==> HasCurrent(s)
  {
    CurrentIsLast(s, hash);
    CallIdsFrom(s.created, 0);
    if Lead(s.list) == 0 {
      RootWaits(s);
    } else {
      RootNotWaiting(s);
    }
  }

  lemma RootWaits(s: State)
    requires Numbered(s) && Listed(s) && InOrder(s) && Lead(s.list) == 0 && s.list != [] && s.list[0].id == 0
    requires s.created != [] && s.created[0].calldata.Some?
    ensures s.attached == []
  {
    assert Genuine(s.list[0], s.created);
    CallIdsFrom(s.created, 0);
    assert s.list[0..] == s.list;
    assert CallIds(s.created)[|s.attached|] == CallIds(s.list)[0] == 0;
  }

  lemma RootNotWaiting(s: State)
    requires Numbered(s) && Listed(s) && InOrder(s) && Lead(s.list) > 0
    requires s.created != [] && s.created[0].calldata.Some? && s.list[0].id == 0
    ensures s.attached != []
  {
    CallIdsFrom(s.created, 0);
    var w := s.list[Lead(s.list)..];
    assert forall i :: 0 <= i < |w| ==> w[i].id > 0;
    CallIdsPositive(w);
    assert (s.attached + CallIds(w))[0] == 0;
  }

  lemma {:induction false} CallIdsPositive(list: seq<Ctx>)
    requires forall i :: 0 <= i < |list| ==> list[i].id > 0
    ensures forall k :: 0 <= k < |CallIds(list)| ==> CallIds(list)[k] > 0
  {
    if list != [] { CallIdsPositive(list[1..]); }
  }

  /** The start-flow command: the review may begin. */
  predicate Starts(s: State, hash: Hash) {
    Validates(s, hash) && |RenderAfter(s, At(s) + 1).list| == 1
  }

  /** When the review of a transaction starts, its root is described and the hash
      of its fields is the announced one; every other call of the run has been
      accounted for and is gone; and the descriptions are those of all calls, in
      the order of their creation. */
  lemma ReviewComplete(cs: seq<Command>, hash: Hash)
    requires Run(Initial(false), cs, hash).Some?
    requires var s := Run(Initial(false), cs, hash).value;
      s.created != [] && s.created[0].calldata.Some? && Starts(s, hash)
    ensures var s := Run(Initial(false), cs, hash).value;
      var r := RenderAfter(s, At(s) + 1);
      && r.list[0].id == 0 && r.list[0].info.Some?
      && hash(Payloads(r.accepted, 0)) == r.list[0].info.value.fieldsHash
      && (forall id :: 0 < id < |r.created| ==> multiset(DepartedIds(r.departed))[id] == 1)
      && (forall k :: 0 <= k < |r.departed| ==> Accounted(r.departed[k], r.rows, r.accepted, hash))
      && r.attached == CallIds(r.created) && |r.attached| == Infos(cs)
  {
    InitialInv(false, hash);
    RunKeeps(Initial(false), cs, hash);
    var s := Run(Initial(false), cs, hash).value;
    RenderAfterKeepsFront(s, At(s) + 1);
    RoundKeeps(s, hash);
    CompleteReview(RenderAfter(s, At(s) + 1), hash);
    hide Run, RenderAfter, Accounted, CallIds, Payloads, DepartedIds;
  }

  lemma CompleteReview(r: State, hash: Hash)
    requires Inv(r, hash) && Validates(r, hash) && |r.list| == 1
    requires !r.eip712 && r.created != [] && r.created[0].calldata.Some?
    ensures r.list[0].id == 0 && r.list[0].info.Some? && hash(Payloads(r.accepted, 0)) == r.list[0].info.value.fieldsHash
    ensures forall id :: 0 < id < |r.created| ==> multiset(DepartedIds(r.departed))[id] == 1
    ensures forall k :: 0 <= k < |r.departed| ==> Accounted(r.departed[k], r.rows, r.accepted, hash)
    ensures r.attached == CallIds(r.created)
  {
    CurrentIsLast(r, hash);
    CompleteOrder(r);
    CompleteCensus(r);
    hide Accounted, Described, InOrder, Census, Lead, CallIds;
  }

  lemma CompleteOrder(r: State)
    requires InOrder(r) && |r.list| == 1 && Lead(r.list) == 1
    ensures r.attached == CallIds(r.created)
  {
    assert r.list[1..] == [];
  }

  lemma CompleteCensus(r: State)
    requires Numbered(r) && Census(r) && |r.list| == 1 && r.list[0].id == 0
    ensures forall id :: 0 < id < |r.created| ==> multiset(DepartedIds(r.departed))[id] == 1
  {
    assert Ids(r.list) == [0];
    forall id | 0 < id < |r.created| ensures multiset(DepartedIds(r.departed))[id] == 1 {
      IdsOnce(r.created, id);
    }
  }
}
