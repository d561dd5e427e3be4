/** The transaction contexts as the application keeps them: a list and a current
    context that the commands update in place (tx_ctx.c, cmd_tx_info.c,
    cmd_field.c). Memory and the field table may fail at any time. */
module TxContext {
  import opened Powers
  import opened BigEndian
  import opened Numerals
  import opened TxProtocol

  class Contexts {
    const hash: Hash
    const eip712: bool
    var list: seq<Ctx>
    var current: Option<nat>
    var rows: seq<Row>
    ghost var created: seq<Ctx>
    ghost var attached: seq<nat>
    ghost var accepted: seq<(nat, bytes)>
    ghost var departed: seq<Departure>
    // an allocation has failed, of a context or of a row
    ghost var starved: bool
    // the number of contexts created so far, standing for their addresses
    var next: nat

    ghost function View(): State
      reads this
    {
      State(eip712, list, current, rows, created, attached, accepted, departed)
    }

    ghost predicate Valid()
      reads this
    {
      next == |created|
    }

    constructor (hash: Hash, eip712: bool)
      ensures Valid() && View() == Initial(eip712) && this.hash == hash && !starved
    {
      this.hash, this.eip712 := hash, eip712;
      list, current, rows, next := [], None, [], 0;
      created, attached, accepted, departed, starved := [], [], [], [], false;
    }

    /** tx_ctx_init. */
    method Init(n: NewCtx) returns (ok: bool)
      requires Valid()
      modifies this
      ensures Valid()
      ensures View() == old(View()) || View() == Push(old(View()), n)
      ensures ok ==> View() == Push(old(View()), n) && starved == old(starved)
      ensures !ok ==> starved
    {
      ok := *;
      if !ok { starved := true; return; }
      var chain: u64 := 0;
      if |list| > 0 {
        // the context being formatted when known, else the last one queued
        var parent := |list| - 1;
        if current.Some? && Find(list, current.value) < |list| { parent := Find(list, current.value); }
        chain := list[parent].chainId;
      }
      if n.chainId.Some? { chain := n.chainId.value; }
      var node := Ctx(next, n.calldata, None, [], n.to, n.amount, chain);
      list := list + [node];
      created := created + [node];
      next := next + 1;
      // the field table of the root may not be allocated
      ok := *;
      if !ok { starved := true; }
    }

    method AddRow(row: Row) returns (ok: bool)
      modifies this`rows, this`starved
      ensures rows == if ok then old(rows) + [row] else old(rows)
      ensures if ok then starved == old(starved) else starved
    {
      ok := *;
      if ok { rows := rows + [row]; } else { starved := true; }
    }

    /** process_empty_tx. */
    method ProcessEmpty(i: nat) returns (ok: bool)
      requires Valid() && i < |list|
      modifies this`rows, this`list, this`departed, this`starved
      ensures Valid() && if ok then starved == old(starved) else starved
      ensures ok ==> View() == Render(old(View()), i)
      ensures !ok ==> old(rows) <= rows && View() == old(View()).(rows := rows)
    {
      var c, chain := list[i], list[0].chainId;
      ghost var before := rows;
      if c.amount.Some? {
        ok := AddRow(Intent("Send"));
        if !ok { return; }
        ok := AddRow(AmountRow(c.amount.value, c.chainId));
        if !ok { return; }
      } else {
        ok := AddRow(Intent("Empty transaction"));
        if !ok { return; }
      }
      ok := AddRow(ToRow(c.to, c.chainId));
      if !ok { return; }
      if c.chainId != chain {
        ok := AddRow(NetworkRow(c.chainId));
        if !ok { return; }
      }
      assert rows == before + EmptyRows(c, chain);
      list := RemoveAt(list, i);
      departed := departed + [Rendered(c, |before|, chain)];
    }

    /** process_empty_txs_before. */
    method ProcessEmptiesBefore() returns (ok: bool)
      requires Valid() && HasCurrent(View())
      modifies this`rows, this`list, this`departed, this`starved
      ensures Valid() && if ok then starved == old(starved) else starved
      ensures ok ==> View() == RenderBefore(old(View()), At(old(View())))
    {
      var i: nat := Find(list, current.value);
      while i > 0 && list[i - 1].calldata.None?
        invariant Valid() && i <= |list| && starved == old(starved)
        invariant RenderBefore(View(), i) == RenderBefore(old(View()), At(old(View())))
      {
        ok := ProcessEmpty(i - 1);
        if !ok { return; }
        i := i - 1;
      }
      ok := true;
    }

    /** process_empty_txs_after; a failure leaves an accounted state too. */
    method ProcessEmptiesAfter() returns (ok: bool)
      requires Valid() && HasCurrent(View()) && Inv(View(), hash)
      modifies this`rows, this`list, this`departed, this`starved
      ensures Valid() && Inv(View(), hash) && if ok then starved == old(starved) else starved
      ensures ok ==> View() == RenderAfter(old(View()), At(old(View())) + 1)
    {
      hide Inv;
      var i := Find(list, current.value) + 1;
      while i < |list| && list[i].calldata.None?
        invariant Valid() && Inv(View(), hash) && starved == old(starved)
        invariant RenderAfter(View(), i) == RenderAfter(old(View()), At(old(View())) + 1)
        decreases |list|
      {
        ghost var s := View();
        RenderKeeps(s, i, hash);
        ok := ProcessEmpty(i);
        if !ok {
          ghost var more := rows[|s.rows|..];
          assert rows == s.rows + more;
          RowsKeepInv(s, more, hash);
          return;
        }
      }
      ok := true;
    }

    /** find_matching_tx_ctx, with the proxies known to the application. */
    method FindMatching(info: TxInfo, lookup: Lookup) returns (ok: bool)
      requires Valid()
      modifies this`current
      ensures Valid()
      ensures ok <==> Matches(old(View()), info, lookup)
      ensures View() == old(View()).(current := if ok then Some(list[Expected(list)].id) else old(current))
    {
      var i := 0;
      while i < |list| && !(list[i].info.None? && list[i].calldata.Some?)
        invariant i <= |list|
        invariant forall j :: 0 <= j < i ==> list[j].info.Some? || list[j].calldata.None?
      {
        i := i + 1;
      }
      ExpectedIs(list, i);
      if i == |list| { return false; }
      var implem := lookup(info.chainId, list[i].to, info.selector);
      ok := (if implem.Some? then implem.value else list[i].to) == info.contract
        && info.selector == list[i].calldata.value && info.chainId == list[i].chainId;
      if ok { current := Some(list[i].id); }
    }

    method PopCurrent()
      requires Valid() && HasCurrent(View())
      modifies this`current, this`list, this`departed
      ensures Valid() && View() == Pop(old(View()))
    {
      var i := Find(list, current.value);
      departed := departed + [Matched(list[i])];
      current := if i == 0 then None else Some(list[i - 1].id);
      list := RemoveAt(list, i);
    }

    /** set_tx_info_into_tx_ctx. */
    method SetTxInfo(info: TxInfo) returns (ok: bool)
      requires Valid() && HasCurrent(View())
      modifies this
      ensures Valid()
      ensures ok ==> View() == SetInfo(old(View()), info, hash)
      ensures if ok then starved == old(starved) else starved
    {
      ghost var s := View();
      var i := Find(list, current.value);
      var nested := eip712 || list[0].id != current.value;
      attached := attached + [list[i].id];
      list := list[i := list[i].(info := Some(info))];
      FindUpdate(s.list, current.value, list[i]);
      if nested {
        ok := AddRow(Intent(info.operation));
        if !ok { return; }
      } else {
        assert rows == s.rows + [];
      }
      assert View() == Attach(s, info);
      if nested && hash([]) == info.fieldsHash { PopCurrent(); }
      ok := true;
    }

    /** The TX_INFO command once its descriptor is parsed and verified. */
    method HandleTxInfo(info: TxInfo, lookup: Lookup) returns (ok: bool)
      requires Valid() && Inv(View(), hash)
      modifies this
      ensures Valid()
      ensures ok ==> Step(old(View()), Info(info, lookup), hash) == Some(View()) && Inv(View(), hash) && starved == old(starved)
      ensures Step(old(View()), Info(info, lookup), hash).None? ==> !ok && View() == old(View())
      ensures !ok ==> starved || Step(old(View()), Info(info, lookup), hash).None?
    {
      hide Inv, SetInfo;
      ghost var s := View();
      ok := FindMatching(info, lookup);
      if !ok { return; }
      ApproachShape(s, hash);
      assert HasCurrent(View()) && At(View()) == Expected(s.list) by { CurrentOf(s, hash, Expected(s.list)); }
      ok := ProcessEmptiesBefore();
      if !ok { return; }
      ok := SetTxInfo(info);
      if ok { StepKeeps(s, Info(info, lookup), hash); }
    }

    /** What formatting a field does to the contexts: it queues the nested calls it
        finds and adds rows. The field may turn out not to be formattable. */
    method FormatField(nested: seq<NewCtx>, texts: seq<string>, formattable: bool) returns (ok: bool)
      requires Valid() && Inv(View(), hash)
      modifies this
      ensures Valid() && Inv(View(), hash) && current == old(current) && accepted == old(accepted)
      ensures old(list) <= list
      ensures ok ==> formattable && var a := PushAll(old(View()), nested); View() == a.(rows := a.rows + FieldRows(texts))
      ensures if ok then starved == old(starved) else starved || !formattable
    {
      hide Inv;
      ghost var s := View();
      var k := 0;
      assert nested[0..] == nested;
      while k < |nested|
        invariant 0 <= k <= |nested| && Valid() && Inv(View(), hash) && starved == old(starved)
        invariant PushAll(View(), nested[k..]) == PushAll(s, nested)
        invariant current == s.current && accepted == s.accepted && s.list <= list
      {
        ghost var t := View();
        PushKeeps(t, nested[k], hash);
        ok := Init(nested[k]);
        if !ok { return; }
        assert nested[k..][1..] == nested[k + 1..];
        k := k + 1;
      }
      if !formattable { return false; }
      ok := *;
      if !ok { starved := true; return; }
      ghost var t := View();
      RowsKeepInv(t, FieldRows(texts), hash);
      rows := rows + FieldRows(texts);
    }

    /** The field command once its structure is parsed and verified. */
    method HandleField(payload: bytes, nested: seq<NewCtx>, texts: seq<string>, formattable: bool) returns (ok: bool)
      requires Valid() && Inv(View(), hash)
      modifies this
      ensures Valid()
      ensures ok ==> Step(old(View()), FieldOf(payload, nested, texts), hash) == Some(View()) && Inv(View(), hash)
      ensures ok ==> formattable && starved == old(starved)
      ensures Step(old(View()), FieldOf(payload, nested, texts), hash).None? ==> !ok && View() == old(View())
      ensures !ok ==> starved || !formattable || Step(old(View()), FieldOf(payload, nested, texts), hash).None?
    {
      hide Inv;
      ghost var s := View();
      CurrentIsLast(s, hash);
      if current.None? { return false; }
      // the backup of the digest
      ok := *;
      if !ok { starved := true; return; }
      ok := AbsorbAndFormat(payload, nested, texts, formattable);
      if !ok { return; }
      ok := PopComplete();
      if ok { StepKeeps(s, FieldOf(payload, nested, texts), hash); }
    }

    /** Hashing, formatting, and rolling the digest back when the formatting fails:
        a rejected field leaves no trace in any digest. */
    method AbsorbAndFormat(payload: bytes, nested: seq<NewCtx>, texts: seq<string>, formattable: bool) returns (ok: bool)
      requires Valid() && Inv(View(), hash) && HasCurrent(View())
      modifies this
      ensures Valid() && current == old(current)
      ensures ok ==> Inv(View(), hash) && var a := PushAll(Absorb(old(View()), payload), nested); View() == a.(rows := a.rows + FieldRows(texts))
      ensures if ok then formattable && starved == old(starved) else starved || !formattable
      ensures !ok ==> accepted == old(accepted) && old(list) <= list
    {
      hide Inv;
      ghost var s := View();
      var i := Find(list, current.value);
      var backup := list[i].absorbed;
      AbsorbKeeps(s, payload, hash);
      list := list[i := list[i].(absorbed := list[i].absorbed + payload)];
      accepted := accepted + [(list[i].id, payload)];
      ghost var a := View();
      assert a == Absorb(s, payload);
      ok := FormatField(nested, texts, formattable);
      if !ok {
        list := list[i := list[i].(absorbed := backup)];
        accepted := accepted[..|accepted| - 1];
        assert list[i] == s.list[i] && accepted == s.accepted;
      }
    }

    /** The loop at the end of a field. */
    method PopComplete() returns (ok: bool)
      requires Valid() && Inv(View(), hash)
      modifies this`rows, this`list, this`departed, this`current, this`starved
      ensures Valid() && Inv(View(), hash) && if ok then starved == old(starved) else starved
      ensures ok ==> View() == PopMatched(old(View()), hash)
    {
      hide Inv, PopMatched, RenderAfter, Pop;
      while (eip712 || !(list != [] && current == Some(list[0].id))) && ValidateHash()
        invariant Valid() && Inv(View(), hash) && starved == old(starved)
        invariant PopMatched(View(), hash) == PopMatched(old(View()), hash)
        decreases |list|
      {
        PopMatchedStep(View(), hash);
        ok := PopOne();
        if !ok { return; }
      }
      PopMatchedEnds(View(), hash);
      ok := true;
    }

    /** One round of that loop. */
    method PopOne() returns (ok: bool)
      requires Valid() && Inv(View(), hash) && MayPop(View(), hash)
      modifies this`rows, this`list, this`departed, this`current, this`starved
      ensures Valid() && Inv(View(), hash) && if ok then starved == old(starved) else starved
      ensures ok ==> var r := RenderAfter(old(View()), At(old(View())) + 1); HasCurrent(r) && View() == Pop(r)
    {
      hide Inv, RenderAfter, Pop;
      ghost var s := View();
      RoundKeeps(s, hash);
      RenderAfterKeepsFront(s, At(s) + 1);
      ok := ProcessEmptiesAfter();
      if !ok { return; }
      PopKeeps(View(), hash);
      PopCurrent();
    }

    /** validate_instruction_hash. */
    predicate ValidateHash()
      reads this
      ensures ValidateHash() == Validates(View(), hash)
    {
      && current.Some?
      && Find(list, current.value) < |list|
      && list[Find(list, current.value)].info.Some?
      && hash(list[Find(list, current.value)].absorbed) == list[Find(list, current.value)].info.value.fieldsHash
    }

    /** The start-flow mode of the signing command. */
    method StartFlow() returns (ok: bool)
      requires Valid() && Inv(View(), hash)
      modifies this`rows, this`list, this`departed, this`starved
      ensures Valid() && Inv(View(), hash)
      ensures !ok ==> starved || !Starts(old(View()), hash)
      ensures ok ==> Starts(old(View()), hash) && View() == RenderAfter(old(View()), At(old(View())) + 1)
      ensures !Validates(old(View()), hash) ==> !ok && View() == old(View())
    {
      hide Inv;
      if !ValidateHash() { return false; }
      ok := ProcessEmptiesAfter();
      if ok { ok := |list| == 1; }
    }
  }

  lemma {:induction false} ExpectedIs(list: seq<Ctx>, i: nat)
    requires i <= |list| && (forall j :: 0 <= j < i ==> list[j].info.Some? || list[j].calldata.None?)
    requires i < |list| ==> list[i].info.None? && list[i].calldata.Some?
    ensures Expected(list) == i
  {
    if i > 0 { ExpectedIs(list[1..], i - 1); }
  }

  lemma FindUpdate(list: seq<Ctx>, id: nat, c: Ctx)
    requires Find(list, id) < |list| && c.id == id
    ensures Find(list[Find(list, id) := c], id) == Find(list, id)
  {
    var f := Find(list, id);
    var updated := list[f := c];
    var g := Find(updated, id);
    assert g <= f by { assert updated[f].id == id; }
    assert forall j :: 0 <= j < f ==> updated[j] == list[j];
  }

  lemma PopMatchedEnds(s: State, hash: Hash)
    ensures !MayPop(s, hash) ==> PopMatched(s, hash) == s
  {
  }

  lemma PopMatchedStep(s: State, hash: Hash)
    requires Inv(s, hash) && MayPop(s, hash)
    ensures var r := RenderAfter(s, At(s) + 1);
      HasCurrent(r) && PopMatched(s, hash) == PopMatched(Pop(r), hash) && |Pop(r).list| < |s.list|
  {
    RoundKeeps(s, hash);
    RenderAfterKeepsFront(s, At(s) + 1);
    hide Inv, RenderAfter;
  }

  lemma CurrentOf(s: State, hash: Hash, i: nat)
    requires Inv(s, hash) && i < |s.list|
    ensures var t := s.(current := Some(s.list[i].id)); HasCurrent(t) && At(t) == i
  {
    FindIs(s.list, i);
  }
}
