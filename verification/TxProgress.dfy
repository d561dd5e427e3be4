/** A nested call leaves as soon as its fields are complete: after every command,
    the only context whose fields hash may be reached is the root of a
    transaction. */
module TxProgress {
  import opened Powers
  import opened BigEndian
  import opened Numerals
  import opened TxProtocol

  /** The fields of a described context are not complete. */
  predicate Unfinished(c: Ctx, hash: Hash) {
    c.info.Some? && hash(c.absorbed) != c.info.value.fieldsHash
  }

  /** The first n contexts are unfinished, save the root of a transaction. */
  predicate WaitingTo(eip712: bool, list: seq<Ctx>, n: nat, hash: Hash) {
    n <= |list| && forall i :: 0 <= i < n && (eip712 || i > 0) ==> Unfinished(list[i], hash)
  }

  predicate Waiting(s: State, hash: Hash) {
    WaitingTo(s.eip712, s.list, Lead(s.list), hash)
  }

  /** All described contexts but the current one. */
  predicate WaitingButLast(s: State, hash: Hash) {
    WaitingTo(s.eip712, s.list, if Lead(s.list) > 0 then Lead(s.list) - 1 else 0, hash)
  }

  lemma WaitingPrefix(eip712: bool, a: seq<Ctx>, b: seq<Ctx>, n: nat, hash: Hash)
    requires WaitingTo(eip712, a, n, hash) && n <= |b| && a[..n] == b[..n]
    ensures WaitingTo(eip712, b, n, hash)
  {
    hide Unfinished;
    assert forall i :: 0 <= i < n ==> b[i] == b[..n][i] && a[i] == a[..n][i];
  }

  lemma PushWaiting(s: State, n: NewCtx, hash: Hash)
    requires Inv(s, hash)
    ensures Waiting(s, hash) ==> Waiting(Push(s, n), hash)
    ensures WaitingButLast(s, hash) ==> WaitingButLast(Push(s, n), hash)
  {
    PushKeeps(s, n, hash);
    hide Inv, Lead, Unfinished;
  }

  lemma {:induction false} PushAllWaiting(s: State, ns: seq<NewCtx>, hash: Hash)
    requires Inv(s, hash) && WaitingButLast(s, hash)
    ensures WaitingButLast(PushAll(s, ns), hash)
    decreases |ns|
  {
    hide Inv, Lead, Unfinished, WaitingButLast;
    if ns != [] {
      PushKeeps(s, ns[0], hash);
      PushWaiting(s, ns[0], hash);
      PushAllWaiting(Push(s, ns[0]), ns[1..], hash);
    }
  }

  /** When nothing may be popped, the current context is unfinished too. */
  lemma LastWaits(s: State, hash: Hash)
    requires Inv(s, hash) && WaitingButLast(s, hash) && !MayPop(s, hash)
    ensures Waiting(s, hash)
  {
    CurrentIsLast(s, hash);
    hide Inv, Lead;
  }

  lemma PopWaits(s: State, hash: Hash)
    requires Inv(s, hash) && MayPop(s, hash) && WaitingButLast(s, hash)
    ensures var r := RenderAfter(s, At(s) + 1); HasCurrent(r) && Inv(Pop(r), hash) && WaitingButLast(Pop(r), hash)
  {
    hide Inv, Lead, Unfinished, RenderAfter, Find, Pop, WaitingTo;
    RoundKeeps(s, hash);
    RenderAfterKeepsFront(s, At(s) + 1);
    CurrentIsLast(s, hash);
    var d, r := At(s), RenderAfter(s, At(s) + 1);
    CurrentIsLast(r, hash);
    RenderAfterKeeps(s, d + 1, hash);
    PopKeeps(r, hash);
    SameBefore(s.list, r, d);
    WaitingPrefix(s.eip712, s.list, Pop(r).list, d, hash);
    Fewer(s.eip712, Pop(r).list, d, hash);
  }

  lemma SameBefore(list: seq<Ctx>, r: State, d: nat)
    requires HasCurrent(r) && At(r) == d < |list| && d < |r.list| && r.list[..d + 1] == list[..d + 1]
    ensures d <= |Pop(r).list| && Pop(r).list[..d] == list[..d] && Pop(r).eip712 == r.eip712
  {
    hide Find;
    assert r.list[..d] == r.list[..d + 1][..d] == list[..d + 1][..d] == list[..d];
    assert Pop(r).list[..d] == r.list[..d];
  }

  lemma Fewer(eip712: bool, list: seq<Ctx>, n: nat, hash: Hash)
    requires WaitingTo(eip712, list, n, hash)
    ensures n > 0 ==> WaitingTo(eip712, list, n - 1, hash)
  {
  }

  lemma {:induction false} PopMatchedWaits(s: State, hash: Hash)
    requires Inv(s, hash) && WaitingButLast(s, hash)
    ensures Waiting(PopMatched(s, hash), hash)
    decreases |s.list|
  {
    hide Inv, Lead, Unfinished, WaitingButLast, Waiting;
    if MayPop(s, hash) {
      PopWaits(s, hash);
      RenderAfterKeepsFront(s, At(s) + 1);
      PopMatchedWaits(Pop(RenderAfter(s, At(s) + 1)), hash);
    } else {
      LastWaits(s, hash);
    }
  }

  lemma FieldWaits(s: State, payload: bytes, nested: seq<NewCtx>, texts: seq<string>, hash: Hash)
    requires Inv(s, hash) && HasCurrent(s) && Waiting(s, hash)
    ensures Waiting(Field(s, payload, nested, texts, hash), hash)
  {
    var a := Absorb(s, payload);
    AbsorbKeeps(s, payload, hash);
    CurrentIsLast(s, hash);
    AbsorbWaits(s, payload, hash);
    PushAllKeeps(a, nested, hash);
    PushAllWaiting(a, nested, hash);
    var b := PushAll(a, nested);
    RowsKeepInv(b, FieldRows(texts), hash);
    PopMatchedWaits(b.(rows := b.rows + FieldRows(texts)), hash);
    hide Inv, Lead, PushAll, PopMatched, Unfinished;
  }

  lemma AbsorbWaits(s: State, payload: bytes, hash: Hash)
    requires HasCurrent(s) && At(s) == Lead(s.list) - 1 && Waiting(s, hash)
    requires Lead(Absorb(s, payload).list) == Lead(s.list)
    ensures WaitingButLast(Absorb(s, payload), hash)
  {
    hide Lead, Unfinished, Find;
  }

  lemma DescribeWaits(s: State, info: TxInfo, hash: Hash)
    requires Inv(s, hash) && Expected(s.list) < |s.list| && Waiting(s, hash)
    ensures Waiting(Describe(s, info, hash), hash)
  {
    ApproachShape(s, hash);
    var e := Expected(s.list);
    var t, p := RenderBefore(s, e), Approach(s);
    AttachKeeps(t, p, info, hash);
    var a := Attach(p, info);
    CurrentIsLast(a, hash);
    FreshDigest(t);
    ExpectedBehindLead(s);
    RenderBeforeFront(s, Lead(s.list), e);
    RenderBeforeKeeps(s, e, hash);
    hide Inv, Lead, Expected, Approach, RenderBefore, Unfinished;
    var d := Lead(s.list);
    assert a.list[..d] == s.list[..d];
    WaitingPrefix(s.eip712, s.list, a.list, d, hash);
    if MayPop(a, hash) {
      PopKeeps(a, hash);
      hide Inv, Lead, Unfinished;
      assert Pop(a).list[..d] == s.list[..d];
      WaitingPrefix(s.eip712, s.list, Pop(a).list, d, hash);
    } else {
      LastWaits(a, hash);
    }
  }

  lemma {:induction false} RenderBeforeFront(s: State, d: nat, i: nat)
    requires d <= i <= |s.list| && forall j :: 0 <= j < d ==> s.list[j].calldata.Some?
    ensures d <= |RenderBefore(s, i).list| && RenderBefore(s, i).list[..d] == s.list[..d]
    decreases i
  {
    hide EmptyRows;
    if i > d && s.list[i - 1].calldata.None? {
      assert Render(s, i - 1).list[..d] == s.list[..d];
      assert forall j :: 0 <= j < d ==> Render(s, i - 1).list[j] == s.list[j];
      RenderBeforeFront(Render(s, i - 1), d, i - 1);
    }
  }

  lemma {:induction false} RunWaits(s: State, cs: seq<Command>, hash: Hash)
    requires Inv(s, hash) && Waiting(s, hash) && Run(s, cs, hash).Some?
    ensures Waiting(Run(s, cs, hash).value, hash)
    decreases |cs|
  {
    hide Inv, Waiting, Matches, Describe, Field;
    if |cs| != 0 {
      StepKeeps(s, cs[0], hash);
      match cs[0] {
        case Queue(n) => PushWaiting(s, n, hash);
        case Info(info, lookup) =>
          MatchesExpected(s, info, lookup);
          DescribeWaits(s, info, hash);
        case FieldOf(payload, nested, texts) => FieldWaits(s, payload, nested, texts, hash);
      }
      RunWaits(Step(s, cs[0], hash).value, cs[1..], hash);
    }
  }

  /** In every run, a context whose fields are complete is gone, unless it is the
      root of a transaction; so a review can only start on the root's own hash. */
  lemma CompleteCallsLeave(eip712: bool, cs: seq<Command>, hash: Hash)
    requires Run(Initial(eip712), cs, hash).Some?
    ensures var s := Run(Initial(eip712), cs, hash).value;
      && (forall i :: 0 <= i < |s.list| && s.list[i].info.Some? && (eip712 || i > 0) ==> Unfinished(s.list[i], hash))
      && (Validates(s, hash) ==> !eip712 && IsRoot(s))
  {
    InitialInv(eip712, hash);
    RunKeeps(Initial(eip712), cs, hash);
    RunWaits(Initial(eip712), cs, hash);
    WaitingMeans(Run(Initial(eip712), cs, hash).value, hash);
    hide Run, Inv;
  }

  lemma WaitingMeans(s: State, hash: Hash)
    requires Inv(s, hash) && Waiting(s, hash)
    ensures forall i :: 0 <= i < |s.list| && s.list[i].info.Some? && (s.eip712 || i > 0) ==> Unfinished(s.list[i], hash)
    ensures Validates(s, hash) ==> !s.eip712 && IsRoot(s)
  {
    CurrentIsLast(s, hash);
    assert forall i :: Lead(s.list) <= i < |s.list| ==> s.list[i].info.None?;
    hide Inv, Lead;
  }

  /* ---- Empty calls behind a complete one ---- */

  lemma {:induction false} RenderAfterStops(s: State, i: nat)
    ensures var r := RenderAfter(s, i); i < |r.list| ==> r.list[i].calldata.Some?
    decreases |s.list|
  {
    if i < |s.list| && s.list[i].calldata.None? { RenderAfterStops(Render(s, i), i); }
  }

  /** The first context that is not described is a call with calldata. */
  predicate NextIsCall(s: State) {
    Lead(s.list) < |s.list| ==> s.list[Lead(s.list)].calldata.Some?
  }

  lemma PopNextIsCall(s: State, hash: Hash)
    requires Inv(s, hash) && MayPop(s, hash)
    ensures var r := RenderAfter(s, At(s) + 1); HasCurrent(r) && Inv(Pop(r), hash) && NextIsCall(Pop(r))
  {
    hide Inv, Lead, RenderAfter, Find;
    CurrentIsLast(s, hash);
    RoundKeeps(s, hash);
    RenderAfterStops(s, At(s) + 1);
    RenderAfterKeepsFront(s, At(s) + 1);
    RenderAfterKeeps(s, At(s) + 1, hash);
    var r := RenderAfter(s, At(s) + 1);
    CurrentIsLast(r, hash);
    PopKeeps(r, hash);
  }

  /** A field that completes a context also shows the empty calls right behind it. */
  lemma {:induction false} CompletionShowsEmpties(s: State, hash: Hash)
    requires Inv(s, hash)
    ensures MayPop(s, hash) ==> NextIsCall(PopMatched(s, hash))
    decreases |s.list|
  {
    hide Inv, NextIsCall, IsRoot;
    if MayPop(s, hash) {
      var r := RenderAfter(s, At(s) + 1);
      PopNextIsCall(s, hash);
      RenderAfterKeepsFront(s, At(s) + 1);
      CompletionShowsEmpties(Pop(r), hash);
    }
  }
}
