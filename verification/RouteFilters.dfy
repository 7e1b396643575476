/** The filter loop, which saves and restores the parameters of a request. */
module RouteFilters {
  import opened Wrappers
  import opened RouteTree
  import opened RouteParams
  import opened RouteTheorems
  import opened RouteMount
  import opened RequestParams
  import opened RouteLoops

  // ---- execFilter ----

  // A filter. What its function leaves in the context is given by two maps of the parameters: the
  // new parameters, and whether output has been started.
  datatype Filter = Filter(tree: Tree, returnOnOutput: bool, reset: bool, effect: Params -> Params,
                           writes: Params -> bool)

  const TRUE: Object := 1  // the run object true of filter trees

  // The context as far as filters see it.
  datatype Context = Context(params: Params, started: bool)

  // One turn of the loop, when it is not cut short.
  function AfterFilter(lm: LeafMatcher, f: Filter, url: string, c: Context): Context {
    var r := Match(lm, f.tree, url, c.params);
    if r.found != Some(TRUE) then c.(params := r.params)
    else Context(if f.reset then c.params else f.effect(r.params), c.started || f.writes(r.params))
  }

  // The filters up to the one that ends the loop.
  function AfterFilters(lm: LeafMatcher, fs: seq<Filter>, url: string, c: Context): (bool, Context) {
    if fs == [] then (false, c)
    else if fs[0].returnOnOutput && c.started then (true, c)
    else
      var c' := AfterFilter(lm, fs[0], url, c);
      if fs[0].returnOnOutput && c'.started then (true, c') else AfterFilters(lm, fs[1..], url, c')
  }

  // One turn of the loop of execFilter, when it is not cut short.
  method RunFilter(other: LeafMatcher, f: Filter, url: string, store: ParamStore, started: bool) returns (now: bool)
    requires store.Valid()
    modifies store
    ensures store.Valid()
    ensures Context(store.View(), now) == AfterFilter(PlainMatcher(other), f, url, Context(old(store.View()), started))
  {
    now := started;
    var pre: Params := map[];
    if f.reset {
      pre := store.Params();
    }
    var found := MatchPath(other, f.tree, url, store);
    if found == Some(TRUE) {
      var ps := store.Params();
      now := started || f.writes(ps);
      store.Restore(f.effect(ps));  // filterFunc
      if f.reset {
        store.Restore(pre);
      }
    }
  }

  /** execFilter on the parameters of a request and on whether its output has started. */
  method ExecFilter(other: LeafMatcher, filters: seq<Filter>, url: string, store: ParamStore, started: bool)
    returns (stopped: bool, ghost now: bool)
    requires store.Valid()
    modifies store
    ensures store.Valid()
    ensures (stopped, Context(store.View(), now))
      == AfterFilters(PlainMatcher(other), filters, url, Context(old(store.View()), started))
  {
    var isStarted := started;
    ghost var all := AfterFilters(PlainMatcher(other), filters, url, Context(store.View(), started));
    for i := 0 to |filters|
      invariant store.Valid()
      invariant all == AfterFilters(PlainMatcher(other), filters[i..], url, Context(store.View(), isStarted))
    {
      var f := filters[i];
      assert filters[i..][1..] == filters[i + 1..];
      if f.returnOnOutput && isStarted {
        return true, isStarted;
      }
      isStarted := RunFilter(other, f, url, store, isStarted);
      if f.returnOnOutput && isStarted {
        return true, isStarted;
      }
    }
    return false, isStarted;
  }

  // ---- where the loop ends ----

  // All filters one after the other, whatever they write.
  function Through(lm: LeafMatcher, fs: seq<Filter>, url: string, c: Context): Context {
    if fs == [] then c else Through(lm, fs[1..], url, AfterFilter(lm, fs[0], url, c))
  }

  // The filter matches and its function writes.
  predicate Writes(lm: LeafMatcher, f: Filter, url: string, c: Context) {
    var r := Match(lm, f.tree, url, c.params);
    r.found == Some(TRUE) && f.writes(r.params)
  }

  /** Output that has started stays, and a filter that matches and writes starts it. */
  lemma {:induction false} OutputStays(lm: LeafMatcher, fs: seq<Filter>, url: string, c: Context)
    ensures c.started ==> Through(lm, fs, url, c).started
    ensures fs != [] && Writes(lm, fs[0], url, c) ==> Through(lm, fs, url, c).started
    decreases |fs|
  {
    if fs != [] {
      OutputStays(lm, fs[1..], url, AfterFilter(lm, fs[0], url, c));
    }
  }

  // Filter j asks to stop on output, and there is some after it; if there was some before it, it does not run.
  ghost predicate StopsAt(lm: LeafMatcher, fs: seq<Filter>, url: string, c: Context, j: nat, r: Context)
    requires j < |fs|
  {
    var before, after := Through(lm, fs[..j], url, c), Through(lm, fs[..j + 1], url, c);
    && fs[j].returnOnOutput && (before.started || after.started)
    && r == if before.started then before else after
  }

  // No filter up to n that asks to stop on output has seen any.
  ghost predicate Quiet(lm: LeafMatcher, fs: seq<Filter>, url: string, c: Context, n: nat)
    requires n <= |fs|
  {
    forall i | 0 <= i < n && fs[i].returnOnOutput ::
      !Through(lm, fs[..i], url, c).started && !Through(lm, fs[..i + 1], url, c).started
  }

  lemma ThroughCons(lm: LeafMatcher, fs: seq<Filter>, url: string, c: Context, n: nat)
    requires 0 < n <= |fs|
    ensures Through(lm, fs[..n], url, c) == Through(lm, fs[1..][..n - 1], url, AfterFilter(lm, fs[0], url, c))
  {
    assert fs[..n][0] == fs[0] && fs[..n][1..] == fs[1..][..n - 1];
  }

  /** The loop ends early exactly at the first filter that asks to stop on output and sees some, before it or after
      it; otherwise all filters have run. */
  lemma {:induction false} LoopEndsAtOutput(lm: LeafMatcher, fs: seq<Filter>, url: string, c: Context)
    ensures var (stopped, r) := AfterFilters(lm, fs, url, c);
      if stopped then exists j: nat :: j < |fs| && StopsAt(lm, fs, url, c, j, r) && Quiet(lm, fs, url, c, j)
      else r == Through(lm, fs, url, c) && Quiet(lm, fs, url, c, |fs|)
    decreases |fs|
  {
    if fs != [] {
      var c' := AfterFilter(lm, fs[0], url, c);
      assert fs[..0] == [] && fs[1..][..0] == [];
      ThroughCons(lm, fs, url, c, 1);
      var (stopped, r) := AfterFilters(lm, fs, url, c);
      if fs[0].returnOnOutput && (c.started || c'.started) {
        assert StopsAt(lm, fs, url, c, 0, r) && Quiet(lm, fs, url, c, 0);
      } else {
        LoopEndsAtOutput(lm, fs[1..], url, c');
        if stopped {
          var j: nat :| j < |fs| - 1 && StopsAt(lm, fs[1..], url, c', j, r) && Quiet(lm, fs[1..], url, c', j);
          QuietCons(lm, fs, url, c, j + 1);
          ThroughCons(lm, fs, url, c, j + 1);
          ThroughCons(lm, fs, url, c, j + 2);
          assert StopsAt(lm, fs, url, c, j + 1, r);
        } else {
          QuietCons(lm, fs, url, c, |fs|);
        }
      }
    }
  }

  lemma QuietCons(lm: LeafMatcher, fs: seq<Filter>, url: string, c: Context, n: nat)
    requires 0 < n <= |fs| && Quiet(lm, fs[1..], url, AfterFilter(lm, fs[0], url, c), n - 1)
    requires fs[0].returnOnOutput ==> !c.started && !AfterFilter(lm, fs[0], url, c).started
    ensures Quiet(lm, fs, url, c, n)
  {
    var c', rest := AfterFilter(lm, fs[0], url, c), fs[1..];
    forall i | 0 <= i < n && fs[i].returnOnOutput
      ensures !Through(lm, fs[..i], url, c).started && !Through(lm, fs[..i + 1], url, c).started
    {
      ThroughCons(lm, fs, url, c, i + 1);
      if i == 0 {
        assert fs[..0] == [] && rest[..0] == [];
      } else {
        ThroughCons(lm, fs, url, c, i);
        assert rest[i - 1] == fs[i];
      }
    }
  }

  // ---- filters that reset parameters ----

  // Every leaf of the tree holds the object.
  ghost predicate Holds(t: Tree, obj: Object) {
    && (forall l | l in t.leaves :: l.runObject == obj)
    && (forall c | c in t.fixRouters :: Holds(c, obj))
    && (t.wildCard.Some? ==> Holds(t.wildCard.value, obj))
  }

  predicate FindsOnly(r: Result, obj: Object) { r.found.Some? ==> r.found.value == obj }

  lemma {:induction false} LeavesFind(lm: LeafMatcher, leaves: seq<Leaf>, tp: string, vs: seq<string>, ps: Params,
                                      obj: Object)
    requires forall l | l in leaves :: l.runObject == obj
    ensures FindsOnly(TryLeaves(lm, leaves, tp, vs, ps), obj)
  {
    if leaves != [] {
      assert leaves[0] in leaves;
      LeavesFind(lm, leaves[1..], tp, vs, lm(leaves[0], tp, vs, ps).1, obj);
    }
  }

  lemma {:induction false} FixedFinds(lm: LeafMatcher, t: Tree, i: nat, seg: string, rest: string, vs: seq<string>,
                                      ps: Params, obj: Object)
    requires Holds(t, obj) && i <= |t.fixRouters|
    ensures FindsOnly(TryFixed(lm, t, i, seg, rest, vs, ps), obj)
    decreases t, |t.fixRouters| - i
  {
    if i < |t.fixRouters| {
      assert t.fixRouters[i] in t.fixRouters;
      NodeFinds(lm, t.fixRouters[i], Below(rest), rest, vs, ps, obj);
      FixedFinds(lm, t, i + 1, seg, rest, vs, MatchNode(lm, t.fixRouters[i], Below(rest), rest, vs, ps).params, obj);
      FixedFinds(lm, t, i + 1, seg, rest, vs, ps, obj);
    }
  }

  lemma {:induction false} ExtensionFinds(lm: LeafMatcher, t: Tree, i: nat, seg: string, ext: string, tp: string,
                                          rest: string, vs: seq<string>, sofar: Result, obj: Object)
    requires Holds(t, obj) && i <= |t.fixRouters| && ext != [] && FindsOnly(sofar, obj)
    ensures FindsOnly(TryExtension(lm, t, i, seg, ext, tp, rest, vs, sofar), obj)
    decreases t, |t.fixRouters| - i
  {
    if i < |t.fixRouters| {
      assert t.fixRouters[i] in t.fixRouters;
      NodeFinds(lm, t.fixRouters[i], tp, rest, vs, sofar.params, obj);
      var r := WithExtension(MatchNode(lm, t.fixRouters[i], tp, rest, vs, sofar.params), ext);
      ExtensionFinds(lm, t, i + 1, seg, ext, tp, rest, vs, r, obj);
      ExtensionFinds(lm, t, i + 1, seg, ext, tp, rest, vs, sofar, obj);
    }
  }

  lemma {:induction false} ExtensionsFind(lm: LeafMatcher, t: Tree, k: nat, seg: string, tp: string,
                                          rest: string, vs: seq<string>, sofar: Result, obj: Object)
    requires Holds(t, obj) && k <= |EXTENSIONS| && FindsOnly(sofar, obj)
    ensures FindsOnly(TryExtensions(lm, t, k, seg, tp, rest, vs, sofar), obj)
    decreases t, |t.fixRouters| + 1, |EXTENSIONS| - k
  {
    if k < |EXTENSIONS| {
      ExtensionFinds(lm, t, 0, seg, EXTENSIONS[k], tp, rest, vs, sofar, obj);
      var r := TryExtension(lm, t, 0, seg, EXTENSIONS[k], tp, rest, vs, sofar);
      ExtensionsFind(lm, t, k + 1, seg, tp, rest, vs, r, obj);
      ExtensionsFind(lm, t, k + 1, seg, tp, rest, vs, sofar, obj);
    }
  }

  /** A search finds only what is stored. */
  lemma {:induction false} NodeFinds(lm: LeafMatcher, t: Tree, tp: string, pattern: string, vs: seq<string>, ps: Params,
                                     obj: Object)
    requires Holds(t, obj)
    ensures FindsOnly(MatchNode(lm, t, tp, pattern, vs, ps), obj)
    decreases t, |t.fixRouters| + 3
  {
    var p := SkipSlashes(pattern);
    if p == [] {
      var r := TryLeaves(lm, t.leaves, tp, vs, ps);
      LeavesFind(lm, t.leaves, tp, vs, ps, obj);
      if t.wildCard.Some? {
        LeavesFind(lm, t.wildCard.value.leaves, tp, vs, r.params, obj);
      }
    } else {
      var seg := FirstSegment(p);
      var rest := p[|seg|..];
      var tp' := if HasChild(t, seg) then Below(rest) else tp;
      var fixed := TryFixed(lm, t, 0, seg, rest, vs, ps);
      FixedFinds(lm, t, 0, seg, rest, vs, ps, obj);
      ExtensionsFind(lm, t, 0, seg, tp', rest, vs, fixed, obj);
      var ext := if fixed.found.None? then TryExtensions(lm, t, 0, seg, tp', rest, vs, fixed) else fixed;
      if t.wildCard.Some? {
        NodeFinds(lm, t.wildCard.value, tp', rest, vs + [seg], ext.params, obj);
      }
      var wild := if ext.found.None? && t.wildCard.Some?
                  then MatchNode(lm, t.wildCard.value, tp', rest, vs + [seg], ext.params) else ext;
      LeavesFind(lm, t.leaves, tp', AllValues(vs, seg, rest), wild.params, obj);
    }
  }

  // A filter that resets parameters, over a tree that holds the object true and has unique child prefixes.
  ghost predicate ResetFilter(f: Filter) {
    f.reset && UniquePrefixes(f.tree) && Holds(f.tree, TRUE)
  }

  lemma {:induction false} AddSegHolds(t: Tree, p: Pattern, obj: Object, wildcards: seq<string>)
    requires Holds(t, obj)
    ensures Holds(AddSeg(t, p, obj, wildcards), obj)
    decreases |p|
  {
    if p != [] {
      match p[0] {
        case Wild(name) =>
          AddSegHolds(if t.wildCard.Some? then t.wildCard.value else NEW_TREE, p[1..], obj, wildcards + [name]);
        case Fixed(text) =>
          var i := ChildIndex(t.fixRouters, text);
          assert i < |t.fixRouters| ==> t.fixRouters[i] in t.fixRouters;
          AddSegHolds(Child(t, text), p[1..], obj, wildcards);
      }
    }
  }

  /** insertFilterRouter: the tree that AddRouter builds for the patterns of a filter is one of a reset filter. */
  lemma {:induction false} BuiltFilterResets(f: Filter, routes: seq<Route>)
    requires f.reset && f.tree == Build(routes) && forall r | r in routes :: r.obj == TRUE
    ensures ResetFilter(f)
  {
    BuildUnique(routes);
    BuiltHolds(routes, TRUE);
  }

  lemma {:induction false} BuiltHolds(routes: seq<Route>, obj: Object)
    requires forall r | r in routes :: r.obj == obj
    ensures Holds(Build(routes), obj)
  {
    if routes != [] {
      var n := |routes| - 1;
      BuiltHolds(routes[..n], obj);
      assert routes[n] in routes;
      AddSegHolds(Build(routes[..n]), routes[n].pattern, obj, []);
    }
  }

  lemma {:induction false} FilteredKeeps(t: Tree, obj: Object)
    ensures Holds(t, obj) ==> Holds(Filtered(t), obj)
    ensures UniquePrefixes(t) ==> UniquePrefixes(Filtered(t))
    ensures Filtered(t).prefix == t.prefix
  {
    var f := Filtered(t);
    forall i | 0 <= i < |t.fixRouters|
      ensures (Holds(t.fixRouters[i], obj) ==> Holds(f.fixRouters[i], obj))
        && (UniquePrefixes(t.fixRouters[i]) ==> UniquePrefixes(f.fixRouters[i]))
        && f.fixRouters[i].prefix == t.fixRouters[i].prefix && t.fixRouters[i] in t.fixRouters
    {
      FilteredKeeps(t.fixRouters[i], obj);
    }
    if t.wildCard.Some? {
      FilteredKeeps(t.wildCard.value, obj);
    }
    forall l | l in f.leaves && Holds(t, obj) ensures l.runObject == obj {
      var i :| 0 <= i < |f.leaves| && f.leaves[i] == l;
      assert t.leaves[i] in t.leaves;
    }
  }

  /** AddNamespace mounts the tree of each filter under its prefix in a new tree: it stays one of a reset filter. */
  lemma {:induction false} MountedFilterResets(t: Tree, segs: seq<string>, tree: Tree)
    requires t.fixRouters == [] && t.wildCard.None? && t.leaves == [] && segs != []
    requires UniquePrefixes(tree) && Holds(tree, TRUE)
    ensures UniquePrefixes(AddSegments(t, segs, tree)) && Holds(AddSegments(t, segs, tree), TRUE)
    decreases |segs|
  {
    var m := AddSegments(t, segs, tree);
    var c := m.fixRouters[0];
    assert m.fixRouters == [c];
    if |segs| == 1 {
      FilteredKeeps(tree, TRUE);
      PrefixKeeps(Filtered(tree), segs[0], TRUE);
      assert c == Filtered(tree).(prefix := segs[0]);
    } else {
      MountedFilterResets(NEW_TREE.(prefix := segs[0]), segs[1..], tree);
      assert c == AddSegments(NEW_TREE.(prefix := segs[0]), segs[1..], tree);
    }
    OnlyChildKeeps(m, c, TRUE);
  }

  lemma PrefixKeeps(t: Tree, prefix: string, obj: Object)
    requires UniquePrefixes(t) && Holds(t, obj)
    ensures UniquePrefixes(t.(prefix := prefix)) && Holds(t.(prefix := prefix), obj)
  {
  }

  lemma OnlyChildKeeps(t: Tree, c: Tree, obj: Object)
    requires t.fixRouters == [c] && t.wildCard.None? && t.leaves == [] && UniquePrefixes(c) && Holds(c, obj)
    ensures UniquePrefixes(t) && Holds(t, obj)
  {
  }

  /** Filters that reset parameters leave the parameters as they were, whether they match or not and
      whatever their functions do. */
  lemma {:induction false} ResetFiltersKeepParams(lm: LeafMatcher, fs: seq<Filter>, url: string, c: Context)
    requires FailsCleanly(lm) && forall f | f in fs :: ResetFilter(f)
    ensures AfterFilters(lm, fs, url, c).1.params == c.params
  {
    if fs != [] {
      assert fs[0] in fs;
      var f, c' := fs[0], AfterFilter(lm, fs[0], url, c);
      if url != [] && url[0] == '/' {
        NodeFinds(lm, f.tree, url[1..], url, [], c.params, TRUE);
      }
      if Match(lm, f.tree, url, c.params).found.None? {
        FailedMatchKeepsParams(lm, f.tree, url, c.params);
      }
      ResetFiltersKeepParams(lm, fs[1..], url, c');
    }
  }
}
