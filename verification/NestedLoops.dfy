/** The value of a path as nested loops, and what the enumeration of index
    vectors contains. */
module NestedLoops {
  import opened Powers
  import opened BigEndian
  import opened Numerals
  import opened Calldata
  import opened PathSemantics

  /** An array is a loop over the rest of the path. */
  function Nested(mem: seq<Word>, path: Path, cur: Cursor, depth: nat, coll: seq<bytes>): Option<seq<bytes>>
    decreases |path|, 1, 0
  {
    if path == [] then Some(coll)
    else if path[0].Array? then
      match Window(mem, path[0], cur.off, depth)
      case None => None
      case Some((start, n)) => NestedLoop(mem, path, cur, depth, start, n, 0, coll)
    else
      match Move(mem, path[0], cur)
      case None => None
      case Some(next) =>
        match Emit(mem, path[0], cur, coll)
        case None => None
        case Some(c) => Nested(mem, path[1..], next, depth, c)
  }

  function NestedLoop(mem: seq<Word>, path: Path, cur: Cursor, depth: nat, start: nat, n: nat, k: nat, coll: seq<bytes>): Option<seq<bytes>>
    requires path != [] && path[0].Array?
    decreases |path|, 0, n - k
  {
    if k >= n then Some(coll)
    else
      match Nested(mem, path[1..], Enter(path[0], cur, start, k), depth + 1, coll)
      case None => None
      case Some(c) => NestedLoop(mem, path, cur, depth, start, n, k + 1, c)
  }

  predicate Quiet(e: Element) {
    e.Tuple? || e.Ref? || e.Array?
  }

  /** Nothing is emitted before the last array. */
  predicate EmitsLast(path: Path) {
    path == [] || (if Quiet(path[0]) then EmitsLast(path[1..]) else CountArrays(path) == 0)
  }

  function RunFound(mem: seq<Word>, path: Path, cur: Cursor, depth: nat, vs: Option<seq<Vec>>, coll: seq<bytes>): Option<seq<bytes>> {
    match vs
    case None => None
    case Some(l) => RunAll(mem, path, cur, depth, l, coll)
  }

  lemma {:induction false} RunAllConcat(mem: seq<Word>, path: Path, cur: Cursor, depth: nat, a: seq<Vec>, b: seq<Vec>, coll: seq<bytes>)
    ensures RunAll(mem, path, cur, depth, a + b, coll) ==
      match RunAll(mem, path, cur, depth, a, coll) {
        case None => None
        case Some(c) => RunAll(mem, path, cur, depth, b, c)
      }
    decreases |a|
  {
    if a == [] {
      assert a + b == b;
    } else {
      assert (a + b)[0] == a[0] && (a + b)[1..] == a[1..] + b;
      match RunAlong(mem, path, cur, depth, a[0], coll)
      case None =>
      case Some(c) => RunAllConcat(mem, path, cur, depth, a[1..], b, c);
    }
  }

  lemma {:induction false} RunAllMove(mem: seq<Word>, path: Path, cur: Cursor, depth: nat, vs: seq<Vec>, coll: seq<bytes>)
    requires path != [] && Quiet(path[0]) && !path[0].Array? && Move(mem, path[0], cur).Some?
    ensures RunAll(mem, path, cur, depth, vs, coll)
         == RunAll(mem, path[1..], Move(mem, path[0], cur).value, depth, vs, coll)
    decreases |vs|
  {
    if vs != [] {
      match RunAlong(mem, path, cur, depth, vs[0], coll)
      case None =>
      case Some(c) => RunAllMove(mem, path, cur, depth, vs[1..], c);
    }
  }

  lemma {:induction false} RunAllEnter(mem: seq<Word>, path: Path, cur: Cursor, depth: nat, start: nat, n: nat, k: nat, vs: seq<Vec>, coll: seq<bytes>)
    requires path != [] && path[0].Array? && Window(mem, path[0], cur.off, depth) == Some((start, n)) && k < n
    ensures RunAll(mem, path, cur, depth, Prefix(k, vs), coll)
         == RunAll(mem, path[1..], Enter(path[0], cur, start, k), depth + 1, vs, coll)
    decreases |vs|
  {
    if vs != [] {
      assert Prefix(k, vs)[1..] == Prefix(k, vs[1..]);
      assert Prefix(k, vs)[0][1..] == vs[0];
      match RunAlong(mem, path, cur, depth, Prefix(k, vs)[0], coll)
      case None =>
      case Some(c) => RunAllEnter(mem, path, cur, depth, start, n, k, vs[1..], c);
    }
  }

  lemma {:induction false} NoArrays(mem: seq<Word>, path: Path, cur: Cursor, depth: nat, pre: Vec, coll: seq<bytes>)
    requires CountArrays(path) == 0
    ensures Nested(mem, path, cur, depth, coll) == RunAlong(mem, path, cur, depth, [], coll)
    ensures Enumerate(mem, path, cur, depth, pre) == Some([[]])
      || (Enumerate(mem, path, cur, depth, pre).None? && RunAlong(mem, path, cur, depth, [], coll).None?)
    decreases |path|
  {
    if path != [] {
      match Move(mem, path[0], cur)
      case None =>
      case Some(next) =>
        match Emit(mem, path[0], cur, coll)
        case None => NoArrays(mem, path[1..], next, depth, pre, coll);
        case Some(c) => NoArrays(mem, path[1..], next, depth, pre, c);
    }
  }

  /** Running every index vector is running the nested loops. */
  lemma {:induction false} VectorsAreLoops(mem: seq<Word>, path: Path, cur: Cursor, depth: nat, coll: seq<bytes>)
    requires EmitsLast(path)
    ensures RunFound(mem, path, cur, depth, Enumerate(mem, path, cur, depth, []), coll)
         == Nested(mem, path, cur, depth, coll)
    decreases |path|, 1, 0
  {
    if path == [] || !Quiet(path[0]) {
      assert CountArrays(path) == 0;
      NoArrays(mem, path, cur, depth, [], coll);
      OneVector(mem, path, cur, depth, coll);
    } else if path[0].Array? {
      match Window(mem, path[0], cur.off, depth)
      case None =>
      case Some((start, n)) =>
        WindowNonEmpty(mem, path[0], cur.off, depth);
        RestIsLoop(mem, path, cur, depth, start, n, 0, coll);
    } else {
      match Move(mem, path[0], cur)
      case None =>
      case Some(next) =>
        VectorsAreLoops(mem, path[1..], next, depth, coll);
        var vs := Enumerate(mem, path, cur, depth, []);
        if vs.Some? { RunAllMove(mem, path, cur, depth, vs.value, coll); }
    }
  }

  lemma OneVector(mem: seq<Word>, path: Path, cur: Cursor, depth: nat, coll: seq<bytes>)
    ensures RunAll(mem, path, cur, depth, [[]], coll) == RunAlong(mem, path, cur, depth, [], coll)
  {
    var one: seq<Vec> := [[]];
    assert one[1..] == [];
  }

  lemma WindowNonEmpty(mem: seq<Word>, e: Element, off: nat, depth: nat)
    requires e.Array? && Window(mem, e, off, depth).Some?
    ensures Window(mem, e, off, depth).value.1 > 0
  {
  }

  lemma {:induction false} RestIsLoop(mem: seq<Word>, path: Path, cur: Cursor, depth: nat, start: nat, n: nat, k: nat, coll: seq<bytes>)
    requires path != [] && path[0].Array? && EmitsLast(path)
    requires Window(mem, path[0], cur.off, depth) == Some((start, n))
    ensures RunFound(mem, path, cur, depth, EnumerateRest(mem, path, cur, depth, start, n, k), coll)
         == NestedLoop(mem, path, cur, depth, start, n, k, coll)
    decreases |path|, 0, n - k
  {
    if k < n {
      var at := Enter(path[0], cur, start, k);
      var inner := Enumerate(mem, path[1..], at, depth + 1, []);
      var rest := EnumerateRest(mem, path, cur, depth, start, n, k + 1);
      VectorsAreLoops(mem, path[1..], at, depth + 1, coll);
      match inner
      case None =>
      case Some(vs) =>
        RunAllEnter(mem, path, cur, depth, start, n, k, vs, coll);
        match Nested(mem, path[1..], at, depth + 1, coll) {
          case None =>
            if rest.Some? { RunAllConcat(mem, path, cur, depth, Prefix(k, vs), rest.value, coll); }
          case Some(c) =>
            RestIsLoop(mem, path, cur, depth, start, n, k + 1, c);
            if rest.Some? { RunAllConcat(mem, path, cur, depth, Prefix(k, vs), rest.value, coll); }
        }
    }
  }

  /** The value of a path that emits after its last array is the nested loops. */
  lemma EvaluateIsNested(mem: seq<Word>, path: Path)
    requires EmitsLast(path)
    ensures Evaluate(mem, path) == Nested(mem, path, ORIGIN, 0, [])
  {
    VectorsAreLoops(mem, path, ORIGIN, 0, []);
  }

  /* ---- What the enumeration contains ---- */

  /** An index vector that the arrays of the path allow, each bound read under
      the indices before it. */
  ghost predicate Admissible(mem: seq<Word>, path: Path, cur: Cursor, depth: nat, v: Vec)
    decreases |path|
  {
    if path == [] then v == []
    else if path[0].Array? then
      match Window(mem, path[0], cur.off, depth)
      case None => false
      case Some((start, n)) =>
        v != [] && v[0] < n && Admissible(mem, path[1..], Enter(path[0], cur, start, v[0]), depth + 1, v[1..])
    else
      match Move(mem, path[0], cur)
      case None => false
      case Some(next) => Admissible(mem, path[1..], next, depth, v)
  }

  ghost predicate Before(a: Vec, b: Vec) {
    a != [] && b != [] && (a[0] < b[0] || (a[0] == b[0] && Before(a[1..], b[1..])))
  }

  ghost predicate Ordered(vs: seq<Vec>) {
    forall i, j :: 0 <= i < j < |vs| ==> Before(vs[i], vs[j])
  }

  /** The enumeration holds exactly the admissible vectors. */
  lemma {:induction false} EnumerateMembers(mem: seq<Word>, path: Path, cur: Cursor, depth: nat, v: Vec)
    requires Enumerate(mem, path, cur, depth, []).Some?
    ensures v in Enumerate(mem, path, cur, depth, []).value <==> Admissible(mem, path, cur, depth, v)
    decreases |path|, 1, 0
  {
    if path == [] {
    } else if path[0].Array? {
      var (start, n) := Window(mem, path[0], cur.off, depth).value;
      RestMembers(mem, path, cur, depth, start, n, 0, v);
    } else {
      EnumerateMembers(mem, path[1..], Move(mem, path[0], cur).value, depth, v);
    }
  }

  lemma {:induction false} RestMembers(mem: seq<Word>, path: Path, cur: Cursor, depth: nat, start: nat, n: nat, k: nat, v: Vec)
    requires path != [] && path[0].Array? && EnumerateRest(mem, path, cur, depth, start, n, k).Some?
    ensures v in EnumerateRest(mem, path, cur, depth, start, n, k).value <==>
      v != [] && k <= v[0] < n && Admissible(mem, path[1..], Enter(path[0], cur, start, v[0]), depth + 1, v[1..])
    decreases |path|, 0, n - k
  {
    if k < n {
      var inner := Enumerate(mem, path[1..], Enter(path[0], cur, start, k), depth + 1, []).value;
      RestMembers(mem, path, cur, depth, start, n, k + 1, v);
      if v != [] {
        EnumerateMembers(mem, path[1..], Enter(path[0], cur, start, k), depth + 1, v[1..]);
      }
      InPrefix(k, inner, v);
    }
  }

  lemma InPrefix(k: nat, vs: seq<Vec>, v: Vec)
    ensures v in Prefix(k, vs) <==> v != [] && v[0] == k && v[1..] in vs
  {
    if v in Prefix(k, vs) {
      var i :| 0 <= i < |vs| && Prefix(k, vs)[i] == v;
      assert v[1..] == vs[i];
    }
    if v != [] && v[0] == k && v[1..] in vs {
      var i :| 0 <= i < |vs| && vs[i] == v[1..];
      assert Prefix(k, vs)[i] == [k] + v[1..] == v;
    }
  }

  /** ... in strictly increasing lexicographic order, so each exactly once. */
  lemma {:induction false} EnumerateOrdered(mem: seq<Word>, path: Path, cur: Cursor, depth: nat)
    requires Enumerate(mem, path, cur, depth, []).Some?
    ensures Ordered(Enumerate(mem, path, cur, depth, []).value)
    decreases |path|, 1, 0
  {
    if path == [] {
    } else if path[0].Array? {
      var (start, n) := Window(mem, path[0], cur.off, depth).value;
      RestOrdered(mem, path, cur, depth, start, n, 0);
    } else {
      EnumerateOrdered(mem, path[1..], Move(mem, path[0], cur).value, depth);
    }
  }

  lemma {:induction false} RestOrdered(mem: seq<Word>, path: Path, cur: Cursor, depth: nat, start: nat, n: nat, k: nat)
    requires path != [] && path[0].Array? && EnumerateRest(mem, path, cur, depth, start, n, k).Some?
    ensures var vs := EnumerateRest(mem, path, cur, depth, start, n, k).value;
      Ordered(vs) && forall i :: 0 <= i < |vs| ==> vs[i] != [] && vs[i][0] >= k
    decreases |path|, 0, n - k
  {
    if k < n {
      var inner := Enumerate(mem, path[1..], Enter(path[0], cur, start, k), depth + 1, []).value;
      EnumerateOrdered(mem, path[1..], Enter(path[0], cur, start, k), depth + 1);
      RestOrdered(mem, path, cur, depth, start, n, k + 1);
      OrderedConcat(k, inner, EnumerateRest(mem, path, cur, depth, start, n, k + 1).value);
    }
  }

  lemma OrderedConcat(k: nat, inner: seq<Vec>, rest: seq<Vec>)
    requires Ordered(inner) && Ordered(rest)
    requires forall i :: 0 <= i < |rest| ==> rest[i] != [] && rest[i][0] >= k + 1
    ensures Ordered(Prefix(k, inner) + rest)
  {
    var vs := Prefix(k, inner) + rest;
    forall i, j | 0 <= i < j < |vs| ensures Before(vs[i], vs[j]) {
      if j < |inner| {
        assert vs[i][1..] == inner[i] && vs[j][1..] == inner[j];
      }
    }
  }

  /* ---- How many passes a path with a leaf can make ---- */

  predicate HasLeaf(path: Path) {
    path != [] && (path[0].Leaf? || HasLeaf(path[1..]))
  }

  lemma {:induction false} RunGrows(mem: seq<Word>, path: Path, cur: Cursor, depth: nat, v: Vec, coll: seq<bytes>)
    requires RunAlong(mem, path, cur, depth, v, coll).Some?
    ensures var c := RunAlong(mem, path, cur, depth, v, coll).value;
      && |c| >= |coll| + (if HasLeaf(path) then 1 else 0)
      && (|coll| <= MAX_COLLECTION ==> |c| <= MAX_COLLECTION)
    decreases |path|
  {
    if path != [] {
      if path[0].Array? {
        var (start, n) := Window(mem, path[0], cur.off, depth).value;
        RunGrows(mem, path[1..], Enter(path[0], cur, start, v[0]), depth + 1, v[1..], coll);
      } else {
        RunGrows(mem, path[1..], Move(mem, path[0], cur).value, depth, v, Emit(mem, path[0], cur, coll).value);
      }
    }
  }

  /** A path with a leaf succeeds on at most sixteen index vectors. */
  lemma {:induction false} LeafBoundsPasses(mem: seq<Word>, path: Path, vs: seq<Vec>, coll: seq<bytes>)
    requires HasLeaf(path) && |coll| <= MAX_COLLECTION && RunAll(mem, path, ORIGIN, 0, vs, coll).Some?
    ensures |coll| + |vs| <= |RunAll(mem, path, ORIGIN, 0, vs, coll).value| <= MAX_COLLECTION
    decreases |vs|
  {
    if vs != [] {
      RunGrows(mem, path, ORIGIN, 0, vs[0], coll);
      LeafBoundsPasses(mem, path, vs[1..], RunAlong(mem, path, ORIGIN, 0, vs[0], coll).value);
    }
  }
}
