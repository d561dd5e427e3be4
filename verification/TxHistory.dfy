/** What a list of commands carries, read off the commands alone, and the proof
    that every run queues exactly those calls and hashes exactly those payloads. */
module TxHistory {
  import opened Powers
  import opened BigEndian
  import opened Numerals
  import opened TxProtocol
  import Calldata

  /** The calls a list of commands carries: those queued directly, and the nested
      calls of each field, in order. */
  function Calls(cs: seq<Command>): seq<NewCtx> {
    if |cs| == 0 then []
    else
      (match cs[0]
       case Queue(n) => [n]
       case Info(_, _) => []
       case FieldOf(_, nested, _) => nested) + Calls(cs[1..])
  }

  /** The payloads of its fields. */
  function FieldPayloads(cs: seq<Command>): seq<bytes> {
    if |cs| == 0 then []
    else (if cs[0].FieldOf? then [cs[0].payload] else []) + FieldPayloads(cs[1..])
  }

  /** The positions of the calls that have calldata. */
  function CallPositions(calls: seq<NewCtx>, from: nat): seq<nat> {
    if calls == [] then []
    else (if calls[0].calldata.Some? then [from] else []) + CallPositions(calls[1..], from + 1)
  }

  /** A context as it is queued for a call: the call's own calldata, destination
      and amount, its chain if it has one, not described and nothing hashed. */
  predicate QueuedFor(c: Ctx, n: NewCtx) {
    && c.calldata == n.calldata && c.to == n.to && c.amount == n.amount
    && (n.chainId.Some? ==> c.chainId == n.chainId.value)
    && c.info.None? && c.absorbed == []
  }

  predicate Grown(before: seq<Ctx>, after: seq<Ctx>, calls: seq<NewCtx>) {
    && |after| == |before| + |calls| && after[..|before|] == before
    && forall i :: 0 <= i < |calls| ==> QueuedFor(after[|before| + i], calls[i])
  }

  lemma GrownTwice(a: seq<Ctx>, b: seq<Ctx>, c: seq<Ctx>, x: seq<NewCtx>, y: seq<NewCtx>)
    requires Grown(a, b, x) && Grown(b, c, y)
    ensures Grown(a, c, x + y)
  {
    hide QueuedFor;
    assert c[..|a|] == c[..|b|][..|a|];
    forall i | 0 <= i < |x + y| ensures QueuedFor(c[|a| + i], (x + y)[i]) {
      if i < |x| {
        assert c[|a| + i] == c[..|b|][|a| + i] == b[|a| + i];
      } else {
        assert c[|a| + i] == c[|b| + (i - |x|)];
      }
    }
  }

  lemma GrownByNone(a: seq<Ctx>)
    ensures Grown(a, a, [])
  {
  }

  lemma {:induction false} PushAllGrows(s: State, ns: seq<NewCtx>)
    ensures Grown(s.created, PushAll(s, ns).created, ns)
    ensures PushAll(s, ns).accepted == s.accepted && PushAll(s, ns).rows == s.rows && PushAll(s, ns).departed == s.departed
    decreases |ns|
  {
    if ns != [] {
      var t := Push(s, ns[0]);
      PushAllGrows(t, ns[1..]);
      assert Grown(s.created, t.created, [ns[0]]);
      hide Grown;
      GrownTwice(s.created, t.created, PushAll(s, ns).created, [ns[0]], ns[1..]);
      assert [ns[0]] + ns[1..] == ns;
    } else {
      GrownByNone(s.created);
    }
  }

  lemma {:induction false} PopMatchedHistory(s: State, hash: Hash)
    ensures PopMatched(s, hash).created == s.created && PopMatched(s, hash).accepted == s.accepted
    decreases |s.list|
  {
    hide IsRoot, Find;
    if MayPop(s, hash) {
      RenderAfterKeepsFront(s, At(s) + 1);
      var r := RenderAfter(s, At(s) + 1);
      if HasCurrent(r) { PopMatchedHistory(Pop(r), hash); }
    }
  }

  lemma DescribeHistory(s: State, info: TxInfo, hash: Hash)
    requires Expected(s.list) < |s.list|
    ensures Describe(s, info, hash).created == s.created && Describe(s, info, hash).accepted == s.accepted
  {
    var e := Expected(s.list);
    RenderBeforeFrame(s.(current := Some(s.list[e].id)), e);
  }

  /** One command: the calls it carries are queued behind the others, and its
      payload goes to the context that was current. */
  lemma StepHistory(s: State, c: Command, hash: Hash)
    requires Step(s, c, hash).Some?
    ensures var t := Step(s, c, hash).value;
      && Grown(s.created, t.created, Calls([c]))
      && t.accepted == s.accepted + (if c.FieldOf? && s.current.Some? then [(s.current.value, c.payload)] else [])
      && (c.FieldOf? ==> s.current.Some?)
  {
    assert [c][1..] == [];
    match c
    case Queue(n) =>
      PushAllGrows(s, [n]);
      assert [n][1..] == [] && Calls([c]) == [n];
      assert PushAll(s, [n]) == PushAll(Push(s, n), []) == Push(s, n);
    case Info(info, lookup) =>
      DescribeHistory(s, info, hash);
      GrownByNone(s.created);
    case FieldOf(payload, nested, texts) =>
      var a := Absorb(s, payload);
      PushAllGrows(a, nested);
      var b := PushAll(a, nested);
      PopMatchedHistory(b.(rows := b.rows + FieldRows(texts)), hash);
      hide PushAll, PopMatched, Grown;
      assert nested + [] == nested;
  }

  /** The payloads of what was accepted. */
  function PayloadsOf(accepted: seq<(nat, bytes)>): (r: seq<bytes>)
    ensures |r| == |accepted|
  {
    seq(|accepted|, i requires 0 <= i < |accepted| => accepted[i].1)
  }

  /** The payloads accepted for one context, in order. */
  function PayloadsFor(accepted: seq<(nat, bytes)>, id: nat): seq<bytes> {
    if accepted == [] then []
    else (if accepted[0].0 == id then [accepted[0].1] else []) + PayloadsFor(accepted[1..], id)
  }

  /** What a digest is fed is those payloads one after the other. */
  lemma {:induction false} PayloadsAreJoined(accepted: seq<(nat, bytes)>, id: nat)
    ensures Payloads(accepted, id) == Calldata.Flatten(PayloadsFor(accepted, id))
  {
    if accepted != [] {
      var n := |accepted| - 1;
      PayloadsAreJoined(accepted[..n], id);
      PayloadsForSnoc(accepted[..n], accepted[n], id);
      assert accepted == accepted[..n] + [accepted[n]];
      var front := PayloadsFor(accepted[..n], id);
      if accepted[n].0 == id {
        assert (front + [accepted[n].1])[..|front|] == front;
      } else {
        assert front + [] == front && Payloads(accepted[..n], id) + [] == Payloads(accepted[..n], id);
      }
    }
  }

  lemma {:induction false} PayloadsForSnoc(accepted: seq<(nat, bytes)>, a: (nat, bytes), id: nat)
    ensures PayloadsFor(accepted + [a], id) == PayloadsFor(accepted, id) + if a.0 == id then [a.1] else []
  {
    if accepted == [] {
      assert [a][1..] == [];
    } else {
      PayloadsForSnoc(accepted[1..], a, id);
      assert (accepted + [a])[1..] == accepted[1..] + [a];
    }
  }

  lemma {:induction false} RunHistory(s: State, cs: seq<Command>, hash: Hash)
    requires Run(s, cs, hash).Some?
    ensures var t := Run(s, cs, hash).value;
      && Grown(s.created, t.created, Calls(cs))
      && PayloadsOf(t.accepted) == PayloadsOf(s.accepted) + FieldPayloads(cs)
    decreases |cs|
  {
    hide Step, Grown, PayloadsOf;
    if |cs| == 0 {
      GrownByNone(s.created);
    } else {
      var m := Step(s, cs[0], hash).value;
      StepHistory(s, cs[0], hash);
      RunHistory(m, cs[1..], hash);
      var t := Run(s, cs, hash).value;
      GrownTwice(s.created, m.created, t.created, Calls([cs[0]]), Calls(cs[1..]));
      CallsCons(cs);
      PayloadsGrow(s.accepted, m.accepted, cs[0], s.current);
    }
  }

  lemma PayloadsGrow(before: seq<(nat, bytes)>, after: seq<(nat, bytes)>, c: Command, current: Option<nat>)
    requires c.FieldOf? ==> current.Some?
    requires after == before + if c.FieldOf? && current.Some? then [(current.value, c.payload)] else []
    ensures PayloadsOf(after) == PayloadsOf(before) + if c.FieldOf? then [c.payload] else []
  {
  }

  lemma CallsCons(cs: seq<Command>)
    requires |cs| > 0
    ensures Calls(cs) == Calls([cs[0]]) + Calls(cs[1..])
  {
    assert [cs[0]][1..] == [];
    assert Calls([cs[0]][1..]) == [];
    var c := match cs[0] case Queue(n) => [n] case Info(_, _) => [] case FieldOf(_, nested, _) => nested;
    assert c + [] == c;
  }

  /** The contexts created for calls, one for one and in order. */
  predicate AllQueued(created: seq<Ctx>, calls: seq<NewCtx>) {
    |created| == |calls| && forall i :: 0 <= i < |calls| ==> created[i].id == i && QueuedFor(created[i], calls[i])
  }

  /** In every run the contexts created are those of the calls the commands carry,
      and the payloads accepted are those of its fields, in order. */
  lemma CallsAreQueued(eip712: bool, cs: seq<Command>, hash: Hash)
    requires Run(Initial(eip712), cs, hash).Some?
    ensures var s := Run(Initial(eip712), cs, hash).value;
      && AllQueued(s.created, Calls(cs))
      && PayloadsOf(s.accepted) == FieldPayloads(cs)
      && CallIds(s.created) == CallPositions(Calls(cs), 0)
  {
    hide Run, Calls, FieldPayloads, QueuedFor, Inv, Grown, AllQueued, CallIds, CallPositions;
    InitialInv(eip712, hash);
    RunKeeps(Initial(eip712), cs, hash);
    RunHistory(Initial(eip712), cs, hash);
    var s := Run(Initial(eip712), cs, hash).value;
    assert PayloadsOf(Initial(eip712).accepted) == [];
    assert [] + FieldPayloads(cs) == FieldPayloads(cs);
    IdsOfCreated(s, hash);
    GrownFromNothing(s.created, Calls(cs));
    PositionsOfAll(s.created, Calls(cs));
  }

  lemma GrownFromNothing(created: seq<Ctx>, calls: seq<NewCtx>)
    requires Grown([], created, calls) && forall i :: 0 <= i < |created| ==> created[i].id == i
    ensures AllQueued(created, calls)
  {
    hide QueuedFor;
    forall i | 0 <= i < |calls| ensures QueuedFor(created[i], calls[i]) { assert created[0 + i] == created[i]; }
  }

  lemma PositionsOfAll(created: seq<Ctx>, calls: seq<NewCtx>)
    requires AllQueued(created, calls)
    ensures CallIds(created) == CallPositions(calls, 0)
  {
    PositionsAreIds(created, calls, 0);
  }

  lemma IdsOfCreated(s: State, hash: Hash)
    requires Inv(s, hash)
    ensures forall i :: 0 <= i < |s.created| ==> s.created[i].id == i
  {
  }

  lemma {:induction false} PositionsAreIds(created: seq<Ctx>, calls: seq<NewCtx>, from: nat)
    requires |created| == |calls|
    requires forall i :: 0 <= i < |calls| ==> created[i].id == from + i && QueuedFor(created[i], calls[i])
    ensures CallIds(created) == CallPositions(calls, from)
    decreases |calls|
  {
    if calls != [] { PositionsAreIds(created[1..], calls[1..], from + 1); }
  }

  /** When the review of a transaction starts, every call its commands carry has
      been dealt with: the root's fields hash is the announced one, each other
      call has left exactly once, as the very call that was carried and for a
      reason, and the calls with calldata were described in the order in which
      the commands carried them. */
  lemma ReviewShowsAll(cs: seq<Command>, hash: Hash)
    requires Run(Initial(false), cs, hash).Some? && Starts(Run(Initial(false), cs, hash).value, hash)
    requires Calls(cs) != [] && Calls(cs)[0].calldata.Some?
    ensures var s := Run(Initial(false), cs, hash).value;
      var r := RenderAfter(s, At(s) + 1);
      && r.list[0].id == 0 && r.list[0].info.Some?
      && hash(Payloads(r.accepted, 0)) == r.list[0].info.value.fieldsHash
      && (forall i :: 0 < i < |Calls(cs)| ==> multiset(DepartedIds(r.departed))[i] == 1)
      && (forall k :: 0 <= k < |r.departed| ==>
            && Accounted(r.departed[k], r.rows, r.accepted, hash)
            && r.departed[k].ctx.id < |Calls(cs)|
            && IsCall(r.departed[k].ctx, Calls(cs)[r.departed[k].ctx.id]))
      && r.attached == CallPositions(Calls(cs), 0)
      && PayloadsOf(r.accepted) == FieldPayloads(cs)
  {
    hide Run, RenderAfter, Calls, FieldPayloads, Accounted, Inv, CallIds, CallPositions, Payloads, DepartedIds, AllQueued;
    CallsAreQueued(false, cs, hash);
    var s := Run(Initial(false), cs, hash).value;
    RootOfCalls(s.created, Calls(cs));
    ReviewComplete(cs, hash);
    InitialInv(false, hash);
    RunKeeps(Initial(false), cs, hash);
    RoundKeeps(s, hash);
    RenderAfterKeepsFront(s, At(s) + 1);
    DepartedAreCalls(RenderAfter(s, At(s) + 1), Calls(cs), hash);
  }

  lemma RootOfCalls(created: seq<Ctx>, calls: seq<NewCtx>)
    requires AllQueued(created, calls) && calls != []
    ensures created != [] && created[0].calldata == calls[0].calldata && |created| == |calls|
  {
  }

  lemma DepartedAreCalls(s: State, calls: seq<NewCtx>, hash: Hash)
    requires Inv(s, hash) && AllQueued(s.created, calls)
    ensures forall k :: 0 <= k < |s.departed| ==> s.departed[k].ctx.id < |calls| && IsCall(s.departed[k].ctx, calls[s.departed[k].ctx.id])
  {
    assert forall k :: 0 <= k < |s.departed| ==> Genuine(s.departed[k].ctx, s.created);
    hide Inv;
  }

  /** A context is that of a call. */
  predicate IsCall(c: Ctx, n: NewCtx) {
    && c.calldata == n.calldata && c.to == n.to && c.amount == n.amount
    && (n.chainId.Some? ==> c.chainId == n.chainId.value)
  }

  /* ---- When a review may start ---- */

  lemma {:induction false} RenderAfterCalls(s: State, i: nat)
    ensures CallIds(RenderAfter(s, i).list) == CallIds(s.list)
    decreases |s.list|
  {
    hide EmptyRows;
    if i < |s.list| && s.list[i].calldata.None? {
      CallsWithoutEmpty(s.list, i, 0);
      assert s.list[0..] == s.list && RemoveAt(s.list, i)[0..] == RemoveAt(s.list, i);
      RenderAfterCalls(Render(s, i), i);
    }
  }

  lemma {:induction false} RenderAfterAll(s: State, i: nat)
    requires i <= |s.list| && forall j :: i <= j < |s.list| ==> s.list[j].calldata.None?
    ensures |RenderAfter(s, i).list| == i
    decreases |s.list|
  {
    hide EmptyRows;
    if i < |s.list| {
      var t := Render(s, i);
      assert forall j :: i <= j < |t.list| ==> t.list[j] == s.list[j + 1];
      RenderAfterAll(t, i);
    }
  }

  lemma {:induction false} NoCalls(list: seq<Ctx>)
    ensures CallIds(list) == [] <==> forall i :: 0 <= i < |list| ==> list[i].calldata.None?
  {
    if list != [] {
      NoCalls(list[1..]);
      assert forall i :: 1 <= i < |list| ==> list[i] == list[1..][i - 1];
    }
  }

  /** The review of a transaction may start exactly when the fields of its root
      are complete and no other call is left in the list. */
  lemma StartsExactly(s: State, hash: Hash)
    requires Inv(s, hash)
    ensures Starts(s, hash) <==>
      Validates(s, hash) && IsRoot(s) && forall i :: 1 <= i < |s.list| ==> s.list[i].calldata.None?
  {
    if Validates(s, hash) && IsRoot(s) && forall j :: 1 <= j < |s.list| ==> s.list[j].calldata.None? {
      CurrentIsLast(s, hash);
      hide Inv, Lead, RenderAfter, Find;
      RenderAfterAll(s, 1);
    }
    if Starts(s, hash) {
      CurrentIsLast(s, hash);
      hide Inv, RenderAfter, Find;
      RenderAfterKeepsFront(s, At(s) + 1);
      var r := RenderAfter(s, At(s) + 1);
      assert At(s) == 0;
      RenderAfterCalls(s, 1);
      assert r.list[0] == r.list[..1][0] == s.list[..1][0];
      OnlyRoot(s.list, r.list);
    }
  }

  lemma OnlyRoot(list: seq<Ctx>, one: seq<Ctx>)
    requires |list| >= 1 && |one| == 1 && one[0] == list[0] && list[0].calldata.Some? && CallIds(one) == CallIds(list)
    ensures forall j :: 1 <= j < |list| ==> list[j].calldata.None?
  {
    assert one[1..] == [];
    NoCalls(list[1..]);
    assert |CallIds(list)| == 1 + |CallIds(list[1..])|;
    assert forall j :: 1 <= j < |list| ==> list[j] == list[1..][j - 1];
  }

  /** A transaction whose root has no calldata can never be described: without
      further calls queued from outside, no descriptor and no field is accepted. */
  lemma EmptyRootEnds(root: NewCtx, cs: seq<Command>, hash: Hash)
    requires root.calldata.None? && forall i :: 0 <= i < |cs| ==> !cs[i].Queue?
    ensures Run(Initial(false), [Queue(root)] + cs, hash).Some? ==> |cs| == 0
  {
    RunCons(Initial(false), Queue(root), cs, hash);
    assert Step(Initial(false), Queue(root), hash) == Some(Push(Initial(false), root));
    hide Step, Push;
    if |cs| > 0 { EmptyRootRefuses(root, cs[0], hash); }
  }

  lemma RunCons(s: State, c: Command, cs: seq<Command>, hash: Hash)
    ensures var t := Step(s, c, hash);
      Run(s, [c] + cs, hash) == if t.None? then None else Run(t.value, cs, hash)
  {
    hide Step;
    var all := [c] + cs;
    assert all[0] == c && all[1..] == cs;
  }

  lemma EmptyRootRefuses(root: NewCtx, c: Command, hash: Hash)
    requires root.calldata.None? && !c.Queue?
    ensures Step(Push(Initial(false), root), c, hash).None?
  {
    var s := Push(Initial(false), root);
    assert |s.list| == 1 && s.current.None?;
    assert s.list[1..] == [];
    assert Expected(s.list) == 1;
  }
}
