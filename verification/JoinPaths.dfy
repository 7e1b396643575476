/** Paths of relations through a schema: their keys, where parseExprs ends on them, which of them loopDepth
    collects, and what holds of the list of their join tables. */
module JoinPaths {
  import opened Wrappers
  import opened OrmModels
  import opened JoinSchema

  // ---- names joined with two underscores ----

  function Key(names: seq<string>): string {
    if names == [] then []
    else if |names| == 1 then names[0]
    else names[0] + "__" + Key(names[1..])
  }

  lemma KeyStarts(names: seq<string>, s: string)
    requires names != [] && GoodName(names[0]) && s == Key(names)
    ensures |names[0]| <= |s| && s[..|names[0]|] == names[0]
    ensures |names| > 1 ==>
      |s| >= |names[0]| + 2 && s[|names[0]|] == '_' && s[|names[0]| + 1] == '_'
      && s[|names[0]| + 2..] == Key(names[1..])
    ensures |names| == 1 ==> s == names[0]
  {
  }

  // The first name is no longer than that of any other list with the same key.
  lemma FirstNameFits(a: seq<string>, b: seq<string>)
    requires a != [] && b != [] && (forall n | n in a :: GoodName(n)) && forall n | n in b :: GoodName(n)
    requires Key(a) == Key(b)
    ensures |b[0]| <= |a[0]|
  {
    var s := Key(a);
    assert a[0] in a && b[0] in b;
    KeyStarts(a, s);
    KeyStarts(b, s);
    if |a| > 1 {
      SecondNameStarts(a, s);
    }
  }

  // After the first name and the separator comes a letter.
  lemma SecondNameStarts(a: seq<string>, s: string)
    requires |a| > 1 && (forall n | n in a :: GoodName(n)) && s == Key(a)
    ensures |s| > |a[0]| + 2 && s[|a[0]| + 2] != '_'
  {
    var tail := a[1..];
    assert a[0] in a && a[1] in a && tail[0] == a[1];
    KeyStarts(a, s);
    KeyStarts(tail, Key(tail));
    assert s[|a[0]| + 2..][0] == a[1][0];
  }

  lemma KeyLength(names: seq<string>)
    requires names != [] && names[0] != []
    ensures |Key(names)| >= 1
  {
  }

  lemma KeyEmpty(names: seq<string>)
    requires forall n | n in names :: GoodName(n)
    ensures Key(names) == [] <==> names == []
  {
    if names != [] {
      assert names[0] in names;
      KeyLength(names);
    }
  }

  /** Different paths have different keys. */
  lemma {:induction false} KeyInjective(a: seq<string>, b: seq<string>)
    requires (forall n | n in a :: GoodName(n)) && (forall n | n in b :: GoodName(n))
    requires Key(a) == Key(b)
    ensures a == b
  {
    KeyEmpty(a);
    KeyEmpty(b);
    if a != [] && b != [] {
      assert a[0] in a && b[0] in b;
      FirstNameFits(a, b);
      FirstNameFits(b, a);
      KeyStarts(a, Key(a));
      KeyStarts(b, Key(b));
      if |a| > 1 || |b| > 1 {
        KeyInjective(a[1..], b[1..]);
        assert a == [a[0]] + a[1..] && b == [b[0]] + b[1..];
      }
    }
  }

  // ---- paths through the schema ----

  // The model that a path of canonical field names leads to.
  function WalkModel(s: Schema, root: Model, ns: seq<string>): Option<Model>
    decreases |ns|, 1
  {
    if ns == [] then Some(root)
    else
      match LastField(s, root, ns)
      case None => None
      case Some(f) => Some(if f.IsRel() then f.target else WalkModel(s, root, ns[..|ns| - 1]).value)
  }

  function LastField(s: Schema, root: Model, ns: seq<string>): (r: Option<FieldInfo>)
    requires ns != []
    ensures r.Some? ==> WalkModel(s, root, ns[..|ns| - 1]).Some?
    decreases |ns|, 0
  {
    match WalkModel(s, root, ns[..|ns| - 1])
    case None => None
    case Some(m) => if (m, ns[|ns| - 1]) in s.fields then Some(s.fields[(m, ns[|ns| - 1])]) else None
  }

  // The length of the longest prefix that ends in a relation; that prefix names a join table.
  function LastRel(s: Schema, root: Model, ns: seq<string>): (k: nat)
    ensures k <= |ns|
  {
    if ns == [] then 0
    else if LastField(s, root, ns).Some? && LastField(s, root, ns).value.IsRel() then |ns|
    else LastRel(s, root, ns[..|ns| - 1])
  }

  lemma {:induction false} WalkNames(s: Schema, root: Model, ns: seq<string>)
    requires s.Valid() && WalkModel(s, root, ns).Some?
    ensures forall n | n in ns :: GoodName(n)
  {
    if ns != [] {
      WalkNames(s, root, ns[..|ns| - 1]);
      assert s.FieldOk((WalkModel(s, root, ns[..|ns| - 1]).value, ns[|ns| - 1]));
      assert ns == ns[..|ns| - 1] + [ns[|ns| - 1]];
    }
  }

  // ---- the table list ----

  datatype Table = Table(id: nat, names: seq<string>, sel: bool, inner: bool, model: Model, parent: Option<nat>)

  // The parent position of a path: the table of its longest relation prefix.
  predicate Placed(s: Schema, root: Model, positions: map<string, nat>, ns: seq<string>, parent: Option<nat>) {
    var k := LastRel(s, root, ns);
    if k == 0 then parent.None? else Key(ns[..k]) in positions && parent == Some(positions[Key(ns[..k])])
  }

  // No relation on the path is nullable.
  predicate Required(s: Schema, root: Model, ns: seq<string>) {
    ns == [] ||
    (Required(s, root, ns[..|ns| - 1]) &&
     (LastField(s, root, ns).Some? && LastField(s, root, ns).value.IsRel() ==> !LastField(s, root, ns).value.nullable))
  }

  // The table of the path is inner-joined; with skipEnd none is.
  predicate Inner(s: Schema, root: Model, skip: bool, ns: seq<string>) {
    Required(s, root, ns) && !skip
  }

  // The flag of a loop over a path, which skipEnd reaches only at the first relation.
  predicate InnerSoFar(s: Schema, root: Model, skip: bool, ns: seq<string>, inner: bool) {
    if skip then true else inner == Required(s, root, ns)
  }

  // That table, when the path needs one.
  function TableOf(s: Schema, root: Model, positions: map<string, nat>, ns: seq<string>): Option<nat> {
    var k := LastRel(s, root, ns);
    if k == 0 || Key(ns[..k]) !in positions then None else Some(positions[Key(ns[..k])])
  }

  predicate Declared(s: Schema, root: Model, positions: map<string, nat>, ns: seq<string>) {
    Placed(s, root, positions, ns, TableOf(s, root, positions, ns))
  }

  // A field that is no relation stands in the table of the path before it.
  lemma PlacedBelow(s: Schema, root: Model, positions: map<string, nat>, ns: seq<string>, parent: Option<nat>)
    requires ns != [] && LastField(s, root, ns).Some? && !LastField(s, root, ns).value.IsRel()
    requires Placed(s, root, positions, ns[..|ns| - 1], parent)
    ensures Placed(s, root, positions, ns, parent)
  {
    var k := LastRel(s, root, ns[..|ns| - 1]);
    assert ns[..|ns| - 1][..k] == ns[..k];
  }

  lemma PlacedAtRel(s: Schema, root: Model, positions: map<string, nat>, ns: seq<string>)
    requires ns != [] && LastRel(s, root, ns) == |ns| && Key(ns) in positions
    ensures Placed(s, root, positions, ns, Some(positions[Key(ns)]))
  {
    assert ns[..|ns|] == ns;
  }

  // The outcome of parseExprs: no such field, a nil table, or the position of a table (None is T0) with the column to
  // ask it for and the model that column belongs to.
  datatype Parsed = Failed | Panicked | Alias(pos: Option<nat>, owner: Model, column: string)

  // The label loopEnd of parseExprs, for the field at position i.
  function EndOfPath(s: Schema, fi: FieldInfo, i: nat, jtl: Option<nat>): (r: Parsed)
    ensures !r.Failed?
  {
    if fi.Reverse() then (if jtl.None? then Panicked else Alias(jtl, fi.target, s.Pk(fi.target)))
    else Alias(if i == 0 then None else jtl, fi.owner, fi.column)
  }

  lemma StepWalk(s: Schema, root: Model, names: seq<string>, m: Model, fi: FieldInfo)
    requires WalkModel(s, root, names) == Some(m) && (m, fi.name) in s.fields && s.fields[(m, fi.name)] == fi
    ensures var ns := names + [fi.name];
      && WalkModel(s, root, ns) == Some(if fi.IsRel() then fi.target else m)
      && LastRel(s, root, ns) == (if fi.IsRel() then |ns| else LastRel(s, root, names))
      && ns[..|ns| - 1] == names
      && (!fi.IsRel() ==> ns[..LastRel(s, root, ns)] == names[..LastRel(s, root, names)])
  {
    var ns := names + [fi.name];
    assert ns[..|ns| - 1] == names;
    assert LastField(s, root, ns) == Some(fi);
  }

  // The canonical names of the fields of a path, and the model that it leads to.
  function Walk(s: Schema, root: Model, exs: seq<string>): (r: Option<(seq<string>, Model)>)
    ensures r.Some? ==> |r.value.0| == |exs|
  {
    if exs == [] then Some(([], root))
    else
      match Walk(s, root, exs[..|exs| - 1])
      case None => None
      case Some((names, m)) =>
        var f := s.GetByAny(m, exs[|exs| - 1]);
        if f.Some? then Some((names + [f.value.name], if f.value.IsRel() then f.value.target else m)) else None
  }

  lemma WalkStep(s: Schema, root: Model, exs: seq<string>, i: nat)
    requires i < |exs| && Walk(s, root, exs[..i]).Some?
    ensures var (names, m) := Walk(s, root, exs[..i]).value;
      var f := s.GetByAny(m, exs[i]);
      Walk(s, root, exs[..i + 1]) ==
        if f.Some? then Some((names + [f.value.name], if f.value.IsRel() then f.value.target else m)) else None
  {
    assert exs[..i + 1][..i] == exs[..i] && exs[..i + 1][i] == exs[i];
  }

  lemma ExprStep(s: Schema, root: Model, exs: seq<string>, i: nat, names: seq<string>, m: Model, fi: FieldInfo)
    requires s.Valid() && i < |exs| && Walk(s, root, exs[..i]) == Some((names, m))
      && WalkModel(s, root, names) == Some(m)
    requires s.GetByAny(m, exs[i]) == Some(fi)
    ensures var ns, next := names + [fi.name], if fi.IsRel() then fi.target else m;
      && Walk(s, root, exs[..i + 1]) == Some((ns, next)) && WalkModel(s, root, ns) == Some(next)
      && LastField(s, root, ns) == Some(fi) && ns[..|ns| - 1] == names
  {
    WalkStep(s, root, exs, i);
    StepWalk(s, root, names, m, fi);
  }

  lemma {:induction false} WalkStops(s: Schema, root: Model, exs: seq<string>, i: nat)
    requires i <= |exs| && Walk(s, root, exs[..i]).None?
    ensures Walk(s, root, exs).None?
    decreases |exs|
  {
    if i == |exs| {
      assert exs[..i] == exs;
    } else {
      assert exs[..|exs| - 1][..i] == exs[..i];
      WalkStops(s, root, exs[..|exs| - 1], i);
    }
  }

  // The field at place i of a path, when the path gets that far.
  function FieldAt(s: Schema, root: Model, exs: seq<string>, i: nat): Option<FieldInfo> {
    if i >= |exs| || Walk(s, root, exs[..i]).None? then None
    else s.GetByAny(Walk(s, root, exs[..i]).value.1, exs[i])
  }

  // The place, from i on, at which parseExprs ends: the last field, or one whose key may be taken from the
  // table that refers to it. None stands for an unknown field.
  function StopAt(s: Schema, root: Model, exs: seq<string>, skipEnd: bool, i: nat): (r: Option<nat>)
    ensures r.Some? ==> i <= r.value < |exs| && FieldAt(s, root, exs, r.value).Some?
    decreases |exs| - i
  {
    if i >= |exs| || FieldAt(s, root, exs, i).None? then None
    else if i == |exs| - 1 || KeyFollows(s, root, exs, skipEnd, i) then Some(i)
    else StopAt(s, root, exs, skipEnd, i + 1)
  }

  predicate KeyFollows(s: Schema, root: Model, exs: seq<string>, skipEnd: bool, i: nat) {
    && skipEnd && FieldAt(s, root, exs, i).Some? && FieldAt(s, root, exs, i).value.IsRel()
    && FieldAt(s, root, exs, i + 1).Some? && FieldAt(s, root, exs, i + 1).value.pk
  }

  // Whether a field at the end of a path gets a table of its own.
  predicate HasTableAtEnd(f: FieldInfo, skipEnd: bool) {
    f.IsRel() && !skipEnd && !f.inThrough
  }

  // The path whose table parseExprs holds when it ends at place k: with field k only if that got a table.
  function Reached(s: Schema, root: Model, exs: seq<string>, skipEnd: bool, k: nat): seq<string>
    requires FieldAt(s, root, exs, k).Some?
  {
    var names, f := Walk(s, root, exs[..k]).value.0, FieldAt(s, root, exs, k).value;
    if HasTableAtEnd(f, skipEnd) then names + [f.name] else names
  }

  // What parseExprs returns, given the positions of the tables at its end.
  function Outcome(s: Schema, root: Model, positions: map<string, nat>, exs: seq<string>, skipEnd: bool): Parsed {
    match StopAt(s, root, exs, skipEnd, 0)
    case None => Failed
    case Some(k) =>
      EndOfPath(s, FieldAt(s, root, exs, k).value, k, TableOf(s, root, positions, Reached(s, root, exs, skipEnd, k)))
  }

  // parseExprs ends at a reverse field of a foreign key for which it has not added a table, and no field
  // before that one is a relation: it then dereferences a nil table.
  ghost predicate NilTable(s: Schema, root: Model, exs: seq<string>, skipEnd: bool) {
    var k := StopAt(s, root, exs, skipEnd, 0);
    && k.Some?
    && (var f := FieldAt(s, root, exs, k.value).value; f.Reverse() && (skipEnd || f.inThrough))
    && NoRelBefore(s, root, exs, k.value)
  }

  ghost predicate NoRelBefore(s: Schema, root: Model, exs: seq<string>, k: nat) {
    forall j: nat | j < k :: FieldAt(s, root, exs, j).Some? ==> !FieldAt(s, root, exs, j).value.IsRel()
  }

  lemma {:induction false} WalkPrefix(s: Schema, root: Model, exs: seq<string>, k: nat)
    requires k < |exs| && Walk(s, root, exs[..k + 1]).Some?
    ensures Walk(s, root, exs[..k]).Some? && FieldAt(s, root, exs, k).Some?
  {
    assert exs[..k + 1][..k] == exs[..k];
  }

  // No field of a path is a relation exactly when the path has no relation prefix.
  lemma {:induction false} NoRelIsNoTable(s: Schema, root: Model, exs: seq<string>, k: nat)
    requires s.Valid() && k <= |exs| && Walk(s, root, exs[..k]).Some?
    ensures var (names, m) := Walk(s, root, exs[..k]).value;
      WalkModel(s, root, names) == Some(m) && (LastRel(s, root, names) == 0 <==> NoRelBefore(s, root, exs, k))
  {
    if k > 0 {
      WalkPrefix(s, root, exs, k - 1);
      NoRelIsNoTable(s, root, exs, k - 1);
      var (names, m) := Walk(s, root, exs[..k - 1]).value;
      NoRelStep(s, root, exs, k - 1, names, m, FieldAt(s, root, exs, k - 1).value);
    }
  }

  lemma NoRelStep(s: Schema, root: Model, exs: seq<string>, k: nat, names: seq<string>, m: Model, f: FieldInfo)
    requires s.Valid() && k < |exs| && Walk(s, root, exs[..k]) == Some((names, m))
      && WalkModel(s, root, names) == Some(m)
    requires FieldAt(s, root, exs, k) == Some(f)
    ensures var ns, next := names + [f.name], if f.IsRel() then f.target else m;
      && Walk(s, root, exs[..k + 1]) == Some((ns, next)) && WalkModel(s, root, ns) == Some(next)
      && (LastRel(s, root, ns) == 0 <==> LastRel(s, root, names) == 0 && !f.IsRel())
    ensures NoRelBefore(s, root, exs, k + 1) <==> NoRelBefore(s, root, exs, k) && !f.IsRel()
  {
    ExprStep(s, root, exs, k, names, m, f);
    StepWalk(s, root, names, m, f);
  }

  /** The answer r of parseExprs: the one that the path determines, with a declared alias, and a nil table
      exactly where a caller can see one coming. */
  ghost predicate Answers(s: Schema, root: Model, positions: map<string, nat>, exs: seq<string>, skipEnd: bool,
                          r: Parsed, n: nat) {
    && r == Outcome(s, root, positions, exs, skipEnd)
    && (r.Alias? && r.pos.Some? ==> r.pos.value < n)
    && (r.Panicked? <==> NilTable(s, root, exs, skipEnd))
    && Prepared(s, root, positions, exs, skipEnd)
  }

  // The path up to the place where parseExprs ends has its table.
  ghost predicate Prepared(s: Schema, root: Model, positions: map<string, nat>, exs: seq<string>, skipEnd: bool) {
    var k := StopAt(s, root, exs, skipEnd, 0);
    k.Some? ==> Declared(s, root, positions, Reached(s, root, exs, skipEnd, k.value))
  }

  // The loop of parseExprs at place i, with the names and the model of the path so far.
  ghost predicate OnPath(s: Schema, root: Model, exs: seq<string>, skipEnd: bool, i: nat, names: seq<string>,
                         m: Model) {
    && i <= |exs| && Walk(s, root, exs[..i]) == Some((names, m)) && WalkModel(s, root, names) == Some(m)
    && StopAt(s, root, exs, skipEnd, 0) == StopAt(s, root, exs, skipEnd, i)
  }

  // The model that a path goes on with behind a field.
  function Onward(fi: FieldInfo, m: Model): Model {
    if fi.IsRel() then fi.target else m
  }

  // The field that the loop looks up ahead.
  function NextField(s: Schema, exs: seq<string>, i: nat, m: Model): Option<FieldInfo> {
    if i + 1 < |exs| then s.GetByAny(m, exs[i + 1]) else None
  }

  lemma PathStep(s: Schema, root: Model, exs: seq<string>, skipEnd: bool, i: nat, names: seq<string>, m: Model,
                 fi: FieldInfo)
    requires s.Valid() && i < |exs| && OnPath(s, root, exs, skipEnd, i, names, m) && s.GetByAny(m, exs[i]) == Some(fi)
    ensures var ns := names + [fi.name];
      WalkModel(s, root, ns) == Some(Onward(fi, m)) && LastField(s, root, ns) == Some(fi) && ns[..|ns| - 1] == names
    ensures var ahead := NextField(s, exs, i, Onward(fi, m));
      if i == |exs| - 1 || (fi.IsRel() && skipEnd && ahead.Some? && ahead.value.pk)
      then StopAt(s, root, exs, skipEnd, 0) == Some(i)
      else OnPath(s, root, exs, skipEnd, i + 1, names + [fi.name], Onward(fi, m))
  {
    ExprStep(s, root, exs, i, names, m, fi);
    assert FieldAt(s, root, exs, i) == Some(fi);
    assert FieldAt(s, root, exs, i + 1) == NextField(s, exs, i, Onward(fi, m));
  }

  lemma PathEnds(s: Schema, root: Model, positions: map<string, nat>, exs: seq<string>, skipEnd: bool,
                 i: nat, names: seq<string>, m: Model, fi: FieldInfo, jtl: Option<nat>)
    requires s.Valid() && i < |exs| && OnPath(s, root, exs, skipEnd, i, names, m) && s.GetByAny(m, exs[i]) == Some(fi)
    requires StopAt(s, root, exs, skipEnd, 0) == Some(i)
    requires Placed(s, root, positions, if HasTableAtEnd(fi, skipEnd) then names + [fi.name] else names, jtl)
    ensures EndOfPath(s, fi, i, jtl) == Outcome(s, root, positions, exs, skipEnd)
    ensures EndOfPath(s, fi, i, jtl).Panicked? <==> NilTable(s, root, exs, skipEnd)
    ensures Prepared(s, root, positions, exs, skipEnd)
  {
    assert FieldAt(s, root, exs, i) == Some(fi);
    PanicsOnNilTable(s, root, positions, exs, skipEnd, i);
  }

  lemma PathFails(s: Schema, root: Model, exs: seq<string>, skipEnd: bool, i: nat, names: seq<string>, m: Model)
    requires OnPath(s, root, exs, skipEnd, i, names, m) && (i < |exs| ==> s.GetByAny(m, exs[i]).None?)
    ensures forall positions, n :: Answers(s, root, positions, exs, skipEnd, Failed, n)
  {
  }

  lemma PanicsOnNilTable(s: Schema, root: Model, positions: map<string, nat>, exs: seq<string>, skipEnd: bool, k: nat)
    requires s.Valid() && StopAt(s, root, exs, skipEnd, 0) == Some(k)
    requires Declared(s, root, positions, Reached(s, root, exs, skipEnd, k))
    ensures Outcome(s, root, positions, exs, skipEnd).Panicked? <==> NilTable(s, root, exs, skipEnd)
  {
    var (names, m) := Walk(s, root, exs[..k]).value;
    var f := FieldAt(s, root, exs, k).value;
    NoRelIsNoTable(s, root, exs, k);
    ExprStep(s, root, exs, k, names, m, f);
    StepWalk(s, root, names, m, f);
  }

  // An unknown field, with nothing before it at which parseExprs ends.
  ghost predicate UnknownAt(s: Schema, root: Model, exs: seq<string>, skipEnd: bool, j: nat) {
    && j < |exs| && FieldAt(s, root, exs, j).None?
    && forall i: nat | i < j :: FieldAt(s, root, exs, i).Some? && !KeyFollows(s, root, exs, skipEnd, i)
  }

  /** parseExprs fails exactly on an empty path and on one with an unknown field that it reaches; without skipEnd
      these are the paths that lead nowhere. */
  lemma FailsIff(s: Schema, root: Model, positions: map<string, nat>, exs: seq<string>, skipEnd: bool)
    ensures Outcome(s, root, positions, exs, skipEnd).Failed? <==>
      exs == [] || exists j: nat :: UnknownAt(s, root, exs, skipEnd, j)
    ensures !skipEnd ==> (Outcome(s, root, positions, exs, skipEnd).Failed? <==> exs == [] || Walk(s, root, exs).None?)
  {
    if exs != [] {
      FailsOnUnknown(s, root, exs, skipEnd, 0);
      StopsUnlessUnknown(s, root, exs, skipEnd, 0);
    }
  }

  lemma {:induction false} StopsUnlessUnknown(s: Schema, root: Model, exs: seq<string>, skipEnd: bool, i: nat)
    requires i < |exs|
    requires forall k: nat | k < i :: FieldAt(s, root, exs, k).Some? && !KeyFollows(s, root, exs, skipEnd, k)
    ensures StopAt(s, root, exs, skipEnd, i).None? <==> exists j: nat :: UnknownAt(s, root, exs, skipEnd, j)
    decreases |exs| - i
  {
    if FieldAt(s, root, exs, i).None? {
      assert UnknownAt(s, root, exs, skipEnd, i);
    } else if i == |exs| - 1 || KeyFollows(s, root, exs, skipEnd, i) {
      forall j: nat ensures !UnknownAt(s, root, exs, skipEnd, j) {
        if i < j < |exs| {
          assert !(i < j) || KeyFollows(s, root, exs, skipEnd, i);
        }
      }
    } else {
      StopsUnlessUnknown(s, root, exs, skipEnd, i + 1);
    }
  }

  lemma {:induction false} FailsOnUnknown(s: Schema, root: Model, exs: seq<string>, skipEnd: bool, i: nat)
    requires i < |exs| && Walk(s, root, exs[..i]).Some?
    ensures StopAt(s, root, exs, skipEnd, i).None? ==> Walk(s, root, exs).None?
    ensures !skipEnd && Walk(s, root, exs).None? ==> StopAt(s, root, exs, skipEnd, i).None?
    decreases |exs| - i
  {
    WalkStep(s, root, exs, i);
    if FieldAt(s, root, exs, i).None? {
      WalkStops(s, root, exs, i + 1);
    } else if i == |exs| - 1 {
      assert exs[..|exs|] == exs;
    } else {
      FailsOnUnknown(s, root, exs, skipEnd, i + 1);
    }
  }

  // The canonical names and the model of a path of to-one relations.
  function Resolve(s: Schema, root: Model, exs: seq<string>): (r: Option<(seq<string>, Model)>) {
    if exs == [] then Some(([], root))
    else
      match Resolve(s, root, exs[..|exs| - 1])
      case None => None
      case Some((names, m)) =>
        var f := s.GetByAny(m, exs[|exs| - 1]);
        if f.Some? && f.value.Rel() && !f.value.fieldType.ManyToMany?
        then Some((names + [f.value.name], f.value.target)) else None
  }

  lemma ResolveStep(s: Schema, root: Model, exs: seq<string>, j: nat)
    requires j < |exs| && Resolve(s, root, exs[..j]).Some?
    ensures var (names, m) := Resolve(s, root, exs[..j]).value;
      var f := s.GetByAny(m, exs[j]);
      Resolve(s, root, exs[..j + 1]) ==
        if f.Some? && f.value.Rel() && !f.value.fieldType.ManyToMany?
        then Some((names + [f.value.name], f.value.target)) else None
  {
    assert exs[..j + 1][..j] == exs[..j] && exs[..j + 1][j] == exs[j];
  }

  // A path has a table, which is selected if so asked.
  ghost predicate TableFor(tables: seq<Table>, positions: map<string, nat>, ns: seq<string>, sel: bool) {
    Key(ns) in positions && positions[Key(ns)] < |tables| && (sel ==> tables[positions[Key(ns)]].sel)
  }

  // So has each part of it.
  ghost predicate TablesFor(tables: seq<Table>, positions: map<string, nat>, ns: seq<string>, sel: bool) {
    forall k | 0 < k <= |ns| :: TableFor(tables, positions, ns[..k], sel)
  }

  // No table has gone or lost its selection.
  ghost predicate Extended(a: seq<Table>, pa: map<string, nat>, b: seq<Table>, pb: map<string, nat>) {
    && Grown(pa, pb) && |a| <= |b|
    && forall i | 0 <= i < |a| :: b[i] == a[i].(sel := b[i].sel) && (a[i].sel ==> b[i].sel)
  }

  lemma ExtendedTwice(a: seq<Table>, pa: map<string, nat>, b: seq<Table>, pb: map<string, nat>, c: seq<Table>,
                      pc: map<string, nat>)
    requires Extended(a, pa, b, pb) && Extended(b, pb, c, pc)
    ensures Extended(a, pa, c, pc)
  {
    forall i | 0 <= i < |a| ensures c[i] == a[i].(sel := c[i].sel) && (a[i].sel ==> c[i].sel) {
      assert b[i] == a[i].(sel := b[i].sel);
    }
  }

  lemma TablesForStays(a: seq<Table>, pa: map<string, nat>, b: seq<Table>, pb: map<string, nat>, ns: seq<string>)
    requires Extended(a, pa, b, pb)
    ensures forall sel :: TablesFor(a, pa, ns, sel) ==> TablesFor(b, pb, ns, sel)
  {
    forall sel, k | TablesFor(a, pa, ns, sel) && 0 < k <= |ns| ensures TableFor(b, pb, ns[..k], sel) {
      assert TableFor(a, pa, ns[..k], sel);
    }
  }

  lemma TablesForStep(a: seq<Table>, pa: map<string, nat>, b: seq<Table>, pb: map<string, nat>, ns: seq<string>,
                      n: string, sel: bool)
    requires Extended(a, pa, b, pb) && TablesFor(a, pa, ns, sel) && TableFor(b, pb, ns + [n], sel)
    ensures TablesFor(b, pb, ns + [n], sel)
  {
    TablesForStays(a, pa, b, pb, ns);
    forall k | 0 < k <= |ns| + 1 ensures TableFor(b, pb, (ns + [n])[..k], sel) {
      if k <= |ns| {
        assert (ns + [n])[..k] == ns[..k];
      } else {
        assert (ns + [n])[..k] == ns + [n];
      }
    }
  }

  lemma RequiredStep(s: Schema, root: Model, names: seq<string>, m: Model, fi: FieldInfo)
    requires WalkModel(s, root, names) == Some(m) && (m, fi.name) in s.fields && s.fields[(m, fi.name)] == fi
    ensures Required(s, root, names + [fi.name]) <==> Required(s, root, names) && !(fi.IsRel() && fi.nullable)
  {
    var ns := names + [fi.name];
    assert ns[..|ns| - 1] == names;
    assert LastField(s, root, ns) == Some(fi);
  }

  // ---- the paths that loopDepth collects ----

  // The paths that start with a field and go on for at most depth relations.
  function PathsOf(s: Schema, prefix: seq<string>, fi: FieldInfo, depth: int): seq<seq<string>>
    decreases depth + 1, 1
  {
    if depth < 0 || fi.fieldType.ManyToMany? then []
    else [prefix + [fi.name]] + PathsFrom(s, fi.target, prefix + [fi.name], depth, 0)
  }

  // The paths below a model, from its relation i on, of at most depth relations.
  function PathsFrom(s: Schema, m: Model, prefix: seq<string>, depth: int, i: nat): seq<seq<string>>
    decreases depth + 1, 0, |s.Rels(m)| - i
  {
    if depth <= 0 || i >= |s.Rels(m)| then []
    else PathsOf(s, prefix, s.Rels(m)[i], depth - 1) + PathsFrom(s, m, prefix, depth, i + 1)
  }

  // A path of canonical names of to-one relations.
  predicate ToOnePath(s: Schema, m: Model, p: seq<string>) {
    Resolve(s, m, p).Some? && Resolve(s, m, p).value.0 == p
  }

  predicate IsToOne(f: FieldInfo) { f.Rel() && !f.fieldType.ManyToMany? }

  lemma {:induction false} ResolveCons(s: Schema, m: Model, p: seq<string>)
    requires p != []
    ensures var f := s.GetByAny(m, p[0]);
      Resolve(s, m, p) ==
        if f.None? || !IsToOne(f.value) then None
        else match Resolve(s, f.value.target, p[1..])
             case None => None
             case Some((names, end)) => Some(([f.value.name] + names, end))
    decreases |p|
  {
    var n := |p| - 1;
    if n == 0 {
      assert p[..0] == [] && p[1..] == [];
      assert forall x: string :: [] + [x] == [x] + [];
    } else {
      ResolveCons(s, m, p[..n]);
      var f, tail := s.GetByAny(m, p[0]), p[1..];
      assert p[..n][0] == p[0] && p[..n][1..] == tail[..n - 1] && tail[n - 1] == p[n];
      if f.Some? && IsToOne(f.value) && Resolve(s, f.value.target, tail[..n - 1]).Some? {
        var (names, m2) := Resolve(s, f.value.target, tail[..n - 1]).value;
        assert forall x :: ([f.value.name] + names) + [x] == [f.value.name] + (names + [x]);
      }
    }
  }

  lemma ToOneCons(s: Schema, m: Model, p: seq<string>)
    requires s.Valid() && p != []
    ensures ToOnePath(s, m, p) <==>
      (m, p[0]) in s.fields && IsToOne(s.fields[(m, p[0])]) && ToOnePath(s, s.fields[(m, p[0])].target, p[1..])
  {
    ResolveCons(s, m, p);
    assert s.FieldOk((m, p[0]));
    assert p == [p[0]] + p[1..];
    if (m, p[0]) in s.fields {
      assert s.GetByAny(m, p[0]) == Some(s.fields[(m, p[0])]);
    }
  }

  // Path q goes from the prefix through one of the given relations of the model for at most depth steps.
  ghost predicate Below(s: Schema, m: Model, prefix: seq<string>, depth: int, fields: seq<FieldInfo>, q: seq<string>) {
    && |prefix| < |q| <= |prefix| + depth && q[..|prefix|] == prefix
    && (m, q[|prefix|]) in s.fields && s.fields[(m, q[|prefix|])] in fields
    && ToOnePath(s, m, q[|prefix|..])
  }

  lemma BelowField(s: Schema, m: Model, prefix: seq<string>, fi: FieldInfo, depth: int, q: seq<string>)
    requires s.Valid() && IsToOne(fi) && (m, fi.name) in s.fields && s.fields[(m, fi.name)] == fi && depth >= 0
    ensures var longer := prefix + [fi.name];
      Below(s, m, prefix, depth + 1, [fi], q) <==>
        q == longer || Below(s, fi.target, longer, depth, s.Rels(fi.target), q)
  {
    var longer := prefix + [fi.name];
    assert longer[..|prefix|] == prefix;
    assert |q| > |prefix| ==> s.FieldOk((m, q[|prefix|]));
    if |q| > |prefix| && q[..|prefix|] == prefix && q[|prefix|] == fi.name {
      var p := q[|prefix|..];
      ToOneCons(s, m, p);
      assert q[..|longer|] == longer && p[1..] == q[|longer|..];
      if |q| > |longer| {
        assert s.RelsOk(fi.target) && s.FieldOk((fi.target, q[|longer|]));
        ToOneCons(s, fi.target, p[1..]);
      }
    }
    if |q| >= |longer| && q[..|longer|] == longer {
      assert q[..|prefix|] == q[..|longer|][..|prefix|];
    }
  }

  lemma {:induction false} PathsOfIff(s: Schema, m: Model, prefix: seq<string>, fi: FieldInfo, depth: int,
                                      q: seq<string>)
    requires s.Valid() && fi.Rel() && (m, fi.name) in s.fields && s.fields[(m, fi.name)] == fi
    ensures q in PathsOf(s, prefix, fi, depth) <==> Below(s, m, prefix, depth + 1, [fi], q)
    decreases depth + 1, 1
  {
    if depth >= 0 && !fi.fieldType.ManyToMany? {
      var longer := prefix + [fi.name];
      PathsFromIff(s, fi.target, longer, depth, 0, q);
      assert s.Rels(fi.target)[0..] == s.Rels(fi.target);
      BelowField(s, m, prefix, fi, depth, q);
    } else if |q| > |prefix| {
      ToOneCons(s, m, q[|prefix|..]);
    }
  }

  lemma {:induction false} PathsFromIff(s: Schema, m: Model, prefix: seq<string>, depth: int, i: nat, q: seq<string>)
    requires s.Valid() && i <= |s.Rels(m)|
    ensures q in PathsFrom(s, m, prefix, depth, i) <==> Below(s, m, prefix, depth, s.Rels(m)[i..], q)
    decreases depth + 1, 0, |s.Rels(m)| - i
  {
    if depth > 0 && i < |s.Rels(m)| {
      var fi := s.Rels(m)[i];
      assert s.RelsOk(m) && fi in s.Rels(m);
      PathsOfIff(s, m, prefix, fi, depth - 1, q);
      PathsFromIff(s, m, prefix, depth, i + 1, q);
      assert s.Rels(m)[i..] == [fi] + s.Rels(m)[i + 1..];
    }
  }

  /** loopDepth collects exactly the paths of one up to depth to-one relations. */
  lemma CollectedIff(s: Schema, root: Model, depth: int, p: seq<string>)
    requires s.Valid()
    ensures p in PathsFrom(s, root, [], depth, 0) <==> 0 < |p| <= depth && ToOnePath(s, root, p)
  {
    PathsFromIff(s, root, [], depth, 0, p);
    assert s.Rels(root)[0..] == s.Rels(root);
    if p != [] {
      assert p[0..] == p && s.RelsOk(root) && s.FieldOk((root, p[0]));
      ToOneCons(s, root, p);
    }
  }

  ghost predicate HasTables(s: Schema, root: Model, tables: seq<Table>, positions: map<string, nat>, exs: seq<string>) {
    Resolve(s, root, exs).Some? && TablesFor(tables, positions, Resolve(s, root, exs).value.0, true)
  }

  lemma CollectedResolve(s: Schema, root: Model, depth: int)
    requires s.Valid()
    ensures forall p | p in PathsFrom(s, root, [], depth, 0) :: Resolve(s, root, p).Some?
  {
    forall p | p in PathsFrom(s, root, [], depth, 0) ensures Resolve(s, root, p).Some? {
      CollectedIff(s, root, depth, p);
    }
  }

  lemma RelatedHaveTables(s: Schema, root: Model, tables: seq<Table>, positions: map<string, nat>,
                          rels: seq<seq<string>>, related: seq<seq<string>>, depth: int)
    requires s.Valid() && related == rels + if rels == [] then PathsFrom(s, root, [], depth, 0) else []
    requires forall j | 0 <= j < |related| :: HasTables(s, root, tables, positions, related[j])
    ensures forall r | r in rels :: HasTables(s, root, tables, positions, r)
    ensures rels == [] ==>
      forall p | ToOnePath(s, root, p) && 0 < |p| <= depth :: TablesFor(tables, positions, p, true)
  {
    forall r | r in rels ensures HasTables(s, root, tables, positions, r) {
      assert r in related;
    }
    if rels == [] {
      forall p | ToOnePath(s, root, p) && 0 < |p| <= depth ensures TablesFor(tables, positions, p, true) {
        CollectedIff(s, root, depth, p);
        assert p in related;
        assert HasTables(s, root, tables, positions, p);
      }
    }
  }

  lemma {:induction false} ResolveStops(s: Schema, root: Model, exs: seq<string>, j: nat)
    requires j <= |exs| && Resolve(s, root, exs[..j]).None?
    ensures Resolve(s, root, exs).None?
    decreases |exs|
  {
    if j == |exs| {
      assert exs[..j] == exs;
    } else {
      assert exs[..|exs| - 1][..j] == exs[..j];
      ResolveStops(s, root, exs[..|exs| - 1], j);
    }
  }

  // One entry: alias, path, model, kind of join and link are right, and the linked table stands earlier.
  ghost predicate TableOk(s: Schema, root: Model, skip: bool, positions: map<string, nat>, t: Table, i: nat) {
    && t.id == i + 1 && t.names != [] && WalkModel(s, root, t.names).Some?
    && Key(t.names) in positions && positions[Key(t.names)] == i
    && Placed(s, root, positions, t.names[..|t.names| - 1], t.parent)
    && (t.parent.Some? ==> t.parent.value < i)
    && t.model == WalkModel(s, root, t.names).value && t.inner == Inner(s, root, skip, t.names)
  }

  // List and map agree, the aliases are T1..Tn, every table is linked to the table of its longest
  // relation prefix, and that one stands earlier.
  ghost predicate Consistent(s: Schema, root: Model, skip: bool, tables: seq<Table>, positions: map<string, nat>) {
    && Keyed(tables, positions)
    && (forall i | 0 <= i < |tables| :: TableOk(s, root, skip, positions, tables[i], i))
  }

  // Positions once given stay.
  ghost predicate Grown(a: map<string, nat>, b: map<string, nat>) {
    forall k | k in a :: k in b && b[k] == a[k]
  }

  lemma PlacedGrows(s: Schema, root: Model, a: map<string, nat>, b: map<string, nat>, ns: seq<string>,
                    parent: Option<nat>)
    requires Placed(s, root, a, ns, parent) && Grown(a, b)
    ensures Placed(s, root, b, ns, parent)
  {
  }

  // No path and no alias occurs twice.
  lemma TablesDistinct(s: Schema, root: Model, skip: bool, tables: seq<Table>, positions: map<string, nat>, i: nat,
                       j: nat)
    requires Consistent(s, root, skip, tables, positions) && i < j < |tables|
    ensures tables[i].names != tables[j].names && tables[i].id != tables[j].id
  {
    assert TableOk(s, root, skip, positions, tables[i], i) && TableOk(s, root, skip, positions, tables[j], j);
  }

  // A path that is in the map already is the path of its entry, with the same link.
  lemma KnownPath(s: Schema, root: Model, skip: bool, tables: seq<Table>, positions: map<string, nat>,
                  names: seq<string>, jtl: Option<nat>)
    requires s.Valid() && Consistent(s, root, skip, tables, positions) && names != [] && WalkModel(s, root, names).Some?
    requires Key(names) in positions && Placed(s, root, positions, names[..|names| - 1], jtl)
    ensures var t := tables[positions[Key(names)]];
      && t.names == names && t.parent == jtl
      && Some(t.model) == WalkModel(s, root, names) && t.inner == Inner(s, root, skip, names)
  {
    var t := tables[positions[Key(names)]];
    assert TableOk(s, root, skip, positions, t, positions[Key(names)]);
    WalkNames(s, root, names);
    WalkNames(s, root, t.names);
    KeyInjective(names, t.names);
  }

  lemma NewPath(s: Schema, root: Model, skip: bool, tables: seq<Table>, positions: map<string, nat>, t: Table)
    requires Consistent(s, root, skip, tables, positions) && t.id == |tables| + 1
    requires t.names != [] && WalkModel(s, root, t.names) == Some(t.model) && Key(t.names) !in positions
    requires t.inner == Inner(s, root, skip, t.names)
    requires Placed(s, root, positions, t.names[..|t.names| - 1], t.parent)
      && (t.parent.Some? ==> t.parent.value < |tables|)
    ensures Consistent(s, root, skip, tables + [t], positions[Key(t.names) := |tables|])
  {
    NewTableOk(s, root, skip, |tables|, positions, t);
    forall i | 0 <= i < |tables| ensures TableOk(s, root, skip, positions[Key(t.names) := |tables|], tables[i], i) {
      assert TableOk(s, root, skip, positions, tables[i], i);
      TableStays(s, root, skip, positions, positions[Key(t.names) := |tables|], tables[i], i);
    }
    NewPositions(tables, positions, t);
  }

  lemma NewTableOk(s: Schema, root: Model, skip: bool, n: nat, positions: map<string, nat>, t: Table)
    requires t.id == n + 1 && t.inner == Inner(s, root, skip, t.names)
    requires t.names != [] && WalkModel(s, root, t.names) == Some(t.model) && Key(t.names) !in positions
    requires Placed(s, root, positions, t.names[..|t.names| - 1], t.parent) && (t.parent.Some? ==> t.parent.value < n)
    ensures TableOk(s, root, skip, positions[Key(t.names) := n], t, n)
  {
    PlacedGrows(s, root, positions, positions[Key(t.names) := n], t.names[..|t.names| - 1], t.parent);
  }

  // Each position holds the table of its key.
  ghost predicate Keyed(tables: seq<Table>, positions: map<string, nat>) {
    forall k | k in positions :: positions[k] < |tables| && Key(tables[positions[k]].names) == k
  }

  lemma NewPositions(tables: seq<Table>, positions: map<string, nat>, t: Table)
    requires Keyed(tables, positions) && Key(t.names) !in positions
    ensures Keyed(tables + [t], positions[Key(t.names) := |tables|])
  {
  }

  // An entry stays right when the map grows.
  lemma TableStays(s: Schema, root: Model, skip: bool, a: map<string, nat>, b: map<string, nat>, t: Table, i: nat)
    requires TableOk(s, root, skip, a, t, i) && Grown(a, b)
    ensures TableOk(s, root, skip, b, t, i)
  {
    PlacedGrows(s, root, a, b, t.names[..|t.names| - 1], t.parent);
  }

  // Selecting the columns of an entry changes nothing else.
  lemma SameLinks(s: Schema, root: Model, skip: bool, tables: seq<Table>, positions: map<string, nat>, pos: nat,
                  t: Table)
    requires Consistent(s, root, skip, tables, positions) && pos < |tables|
    requires t == tables[pos].(sel := t.sel)
    ensures Consistent(s, root, skip, tables[pos := t], positions)
  {
    var tables' := tables[pos := t];
    forall i | 0 <= i < |tables| ensures TableOk(s, root, skip, positions, tables'[i], i) {
      assert TableOk(s, root, skip, positions, tables[i], i);
    }
  }

  // ---- a nil table ----

  /** A delete by the comments of a post dereferences a nil table; a query by them does not. */
  lemma DeleteByReverseFieldPanics()
    ensures BLOG.Valid() && NilTable(BLOG, 0, ["Comments"], true) && !NilTable(BLOG, 0, ["Comments"], false)
  {
    BlogIsValid();
    assert ["Comments"][..0] == [];
    assert Walk(BLOG, 0, []) == Some(([], 0));
    assert BLOG.GetByAny(0, "Comments").Some?;
  }
}
