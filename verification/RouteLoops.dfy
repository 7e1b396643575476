/** The loops of tree.go over a request's parameters, and the router that holds a tree. */
module RouteLoops {
  import opened Wrappers
  import opened Text
  import opened RouteTree
  import opened RouteTheorems
  import opened RouteParams
  import opened RouteSegments
  import opened RouteTexts
  import opened RouteMount
  import opened RequestParams

  // ---- leafInfo.match ----

  method MatchLeaf(other: LeafMatcher, leaf: Leaf, treePattern: string, values: seq<string>, store: ParamStore)
    returns (ok: bool)
    requires store.Valid()
    modifies store
    ensures store.Valid() && (ok, store.View()) == LeafMatch(other, leaf, treePattern, values, old(store.View()))
  {
    if leaf.regexp.None? {
      if values == [] && leaf.wildcards == [] {
        return true;
      }
      if leaf.wildcards == [":splat"] {
        store.SetParam(":splat", treePattern);
        return true;
      }
      if !EndsInPathExt(leaf.wildcards) {
        if |leaf.wildcards| != |values| {
          return false;
        }
        BindAll(leaf.wildcards, values, store);
        return true;
      }
    }
    var ps := store.Params();
    var (matched, after) := other(leaf, treePattern, values, ps);
    store.Restore(after);
    ok := matched;
  }

  method BindAll(names: seq<string>, values: seq<string>, store: ParamStore)
    requires store.Valid() && |names| == |values|
    modifies store
    ensures store.Valid() && store.View() == Bind(old(store.View()), names, values)
  {
    for j := 0 to |names|
      invariant store.Valid()
      invariant Bind(old(store.View()), names, values) == Bind(store.View(), names[j..], values[j..])
    {
      assert names[j..][1..] == names[j + 1..] && values[j..][1..] == values[j + 1..];
      store.SetParam(names[j], values[j]);
    }
  }

  method MatchLeaves(other: LeafMatcher, leaves: seq<Leaf>, treePattern: string, values: seq<string>, store: ParamStore)
    returns (found: Option<Object>)
    requires store.Valid()
    modifies store
    ensures store.Valid()
    ensures Result(found, store.View())
      == TryLeaves(PlainMatcher(other), leaves, treePattern, values, old(store.View()))
  {
    ghost var all := TryLeaves(PlainMatcher(other), leaves, treePattern, values, store.View());
    for i := 0 to |leaves|
      invariant store.Valid()
      invariant all == TryLeaves(PlainMatcher(other), leaves[i..], treePattern, values, store.View())
    {
      assert leaves[i..][1..] == leaves[i + 1..];
      var ok := MatchLeaf(other, leaves[i], treePattern, values, store);
      if ok {
        return Some(leaves[i].runObject);
      }
    }
    return None;
  }

  // ---- match ----

  method SkipSlashesLoop(pattern: string) returns (r: string)
    ensures r == SkipSlashes(pattern)
  {
    var i := 0;
    while i < |pattern| && pattern[i] == '/'
      invariant i <= |pattern| && SkipSlashes(pattern) == SkipSlashes(pattern[i..])
    {
      assert pattern[i..][1..] == pattern[i + 1..];
      i := i + 1;
    }
    r := pattern[i..];
  }

  method FirstSegmentLoop(pattern: string) returns (i: nat)
    ensures i <= |pattern| && pattern[..i] == FirstSegment(pattern)
  {
    i := 0;
    while i < |pattern| && pattern[i] != '/'
      invariant i <= |pattern| && '/' !in pattern[..i]
    {
      i := i + 1;
    }
    SegmentThenRest(pattern[..i], pattern[i..]);
    assert pattern[..i] + pattern[i..] == pattern;
  }

  // The values found in rest[..i], where the last one began at start.
  ghost predicate ValuesSoFar(rest: string, start: int, i: int, r: seq<string>) {
    && 0 <= start <= i <= |rest|
    && if start == 0 then i == 0 && r == []
       else Split(rest[1..], '/') == r + Split(rest[start..], '/') && '/' !in rest[start..i]
  }

  lemma NextValue(rest: string, start: int, i: int, r: seq<string>)
    requires ValuesSoFar(rest, start, i, r) && 0 < start && i < |rest| && rest[i] == '/'
    ensures ValuesSoFar(rest, i + 1, i + 1, r + [rest[start..i]])
  {
    assert rest[start..] == rest[start..i] + ['/'] + rest[i + 1..];
    SplitFirst(rest[start..i], rest[i + 1..], '/');
  }

  lemma LastValue(rest: string, start: int, r: seq<string>)
    requires ValuesSoFar(rest, start, |rest|, r) && 0 < start
    ensures Split(rest[1..], '/') == r + [rest[start..]]
  {
    assert rest[start..] == rest[start..|rest|];
    SplitWord(rest[start..], '/');
  }

  // The wildcard values after the next segment, one for each further segment.
  method RestValues(rest: string) returns (r: seq<string>)
    requires rest == [] || rest[0] == '/'
    ensures r == if rest == [] then [] else Split(Below(rest), '/')
  {
    r := [];
    var start := 0;
    for i := 0 to |rest|
      invariant ValuesSoFar(rest, start, i, r)
    {
      if rest[i] == '/' {
        if i != 0 && start < |rest| {
          NextValue(rest, start, i, r);
          r := r + [rest[start..i]];
        }
        start := i + 1;
      }
    }
    if start > 0 {
      LastValue(rest, start, r);
      r := r + [rest[start..]];
    }
  }

  /** Match. */
  method MatchPath(other: LeafMatcher, t: Tree, path: string, store: ParamStore) returns (found: Option<Object>)
    requires store.Valid()
    modifies store
    ensures store.Valid()
    ensures Result(found, store.View()) == Match(PlainMatcher(other), t, path, old(store.View()))
  {
    if path == [] || path[0] != '/' {
      return None;
    }
    found := MatchLoop(other, t, path[1..], path, [], store);
  }

  method MatchLoop(other: LeafMatcher, t: Tree, treePattern: string, pattern: string, values: seq<string>,
                   store: ParamStore)
    returns (found: Option<Object>)
    requires store.Valid()
    modifies store
    ensures store.Valid()
    ensures Result(found, store.View())
      == MatchNode(PlainMatcher(other), t, treePattern, pattern, values, old(store.View()))
    decreases t, 3
  {
    var p := SkipSlashesLoop(pattern);
    if p == [] {
      found := MatchLeaves(other, t.leaves, treePattern, values, store);
      if found.None? && t.wildCard.Some? {
        found := MatchLeaves(other, t.wildCard.value.leaves, treePattern, values, store);
      }
      return;
    }
    var i := FirstSegmentLoop(p);
    found := SegmentLoop(other, t, treePattern, p[..i], p[i..], values, store);
  }

  method SegmentLoop(other: LeafMatcher, t: Tree, treePattern: string, seg: string, rest: string, values: seq<string>,
                     store: ParamStore)
    returns (found: Option<Object>)
    requires store.Valid() && (rest == [] || rest[0] == '/')
    modifies store
    ensures store.Valid()
    ensures Result(found, store.View())
      == MatchSegment(PlainMatcher(other), t, treePattern, seg, rest, values, old(store.View()))
    decreases t, 2
  {
    var tp;
    found, tp := FixedLoop(other, t, treePattern, seg, rest, values, store);
    if found.None? {
      found := ExtensionsLoop(other, t, tp, seg, rest, values, store);
    }
    if found.None? && t.wildCard.Some? {
      found := MatchLoop(other, t.wildCard.value, tp, rest, values + [seg], store);
    }
    if found.None? && t.leaves != [] {
      var more := RestValues(rest);
      found := MatchLeaves(other, t.leaves, tp, values + [seg] + more, store);
    }
  }

  // The loop over the fixed children; it leaves treePattern shortened when one has the prefix.
  method FixedLoop(other: LeafMatcher, t: Tree, treePattern: string, seg: string, rest: string, values: seq<string>,
                   store: ParamStore)
    returns (found: Option<Object>, tp: string)
    requires store.Valid()
    modifies store
    ensures store.Valid()
    ensures Result(found, store.View()) == TryFixed(PlainMatcher(other), t, 0, seg, rest, values, old(store.View()))
    ensures tp == if HasChild(t, seg) then Below(rest) else treePattern
    decreases t, 1
  {
    ghost var all := TryFixed(PlainMatcher(other), t, 0, seg, rest, values, store.View());
    tp := treePattern;
    for i := 0 to |t.fixRouters|
      invariant store.Valid()
      invariant all == TryFixed(PlainMatcher(other), t, i, seg, rest, values, store.View())
      invariant tp == if exists k :: 0 <= k < i && t.fixRouters[k].prefix == seg then Below(rest) else treePattern
    {
      var c := t.fixRouters[i];
      if c.prefix == seg {
        tp := Below(rest);
        found := MatchLoop(other, c, tp, rest, values, store);
        if found.Some? {
          return;
        }
      }
    }
    found := None;
  }

  // The loops over extensions and children; a hit does not end them.
  method ExtensionsLoop(other: LeafMatcher, t: Tree, tp: string, seg: string, rest: string, values: seq<string>,
                        store: ParamStore)
    returns (found: Option<Object>)
    requires store.Valid()
    modifies store
    ensures store.Valid()
    ensures Result(found, store.View())
      == TryExtensions(PlainMatcher(other), t, 0, seg, tp, rest, values, Result(None, old(store.View())))
    decreases t, 1
  {
    ghost var all := TryExtensions(PlainMatcher(other), t, 0, seg, tp, rest, values, Result(None, store.View()));
    found := None;
    if t.fixRouters == [] {
      NoExtensionChild(PlainMatcher(other), t, 0, seg, tp, rest, values, Result(None, store.View()));
      return;
    }
    for k := 0 to |EXTENSIONS|
      invariant store.Valid()
      invariant all == TryExtensions(PlainMatcher(other), t, k, seg, tp, rest, values, Result(found, store.View()))
    {
      if HasSuffix(seg, EXTENSIONS[k]) {
        found := ExtensionLoop(other, t, tp, seg, EXTENSIONS[k], rest, values, store, found);
      }
    }
  }

  method ExtensionLoop(other: LeafMatcher, t: Tree, tp: string, seg: string, ext: string, rest: string,
                       values: seq<string>, store: ParamStore, sofar: Option<Object>)
    returns (found: Option<Object>)
    requires store.Valid() && ext != [] && HasSuffix(seg, ext)
    modifies store
    ensures store.Valid()
    ensures Result(found, store.View())
      == TryExtension(PlainMatcher(other), t, 0, seg, ext, tp, rest, values, Result(sofar, old(store.View())))
    decreases t, 0
  {
    ghost var all := TryExtension(PlainMatcher(other), t, 0, seg, ext, tp, rest, values, Result(sofar, store.View()));
    found := sofar;
    for i := 0 to |t.fixRouters|
      invariant store.Valid()
      invariant all == TryExtension(PlainMatcher(other), t, i, seg, ext, tp, rest, values, Result(found, store.View()))
    {
      var c := t.fixRouters[i];
      StemPrefix(c.prefix, seg, ext);
      if c.prefix == seg[..|seg| - |ext|] {
        found := MatchLoop(other, c, tp, rest, values, store);
        if found.Some? {
          store.SetParam(":ext", ext[1..]);
        }
      }
    }
  }

  // ---- addSeg and the router ----

  method GroupsLoop(names: seq<string>) returns (rr: string)
    ensures rr == Groups(names)
  {
    rr := [];
    for i := 0 to |names|
      invariant rr == Groups(names[..i])
    {
      assert names[..i + 1][..i] == names[..i];
      rr := rr + if names[i] == ":splat" then "(.+)/" else "([^/]+)/";
    }
    assert names[..|names|] == names;
  }

  // The first part of addSeg: what a segment stands for behind these names and this expression.
  method ReadStep(seg: string, wildcards: seq<string>, reg: string) returns (s: Step)
    ensures s == StepOf(seg, wildcards, reg)
  {
    var p := SplitSegment(seg);
    var isWild, names, expr := p.isWild, p.params, p.reg;
    var optional := names != [] && names[0] == ":";
    if optional {
      names := names[1..];
    }
    if !isWild && ":splat" in wildcards {
      isWild, expr := true, seg;
    }
    if seg == "*" && wildcards != [] && reg == [] {
      expr := "(.+)";
    }
    if !isWild {
      return Step(optional, false, [], []);
    }
    if expr != [] {
      if reg == [] {
        var rr := GroupsLoop(wildcards);
        expr := rr + expr;
      } else {
        expr := "/" + expr;
      }
    } else if seg == "*.*" {
      expr, names := if reg == [] then [] else PATH_EXT_GROUPS, names[1..];
    } else if reg != [] {
      for i := 0 to |names|
        invariant expr == LaterGroups(i)
      {
        expr := "/([^/]+)" + expr;
      }
    }
    s := Step(optional, true, names, expr);
  }

  method AddTextLoop(t: Tree, segs: seq<string>, obj: Object, wildcards: seq<string>, reg: string) returns (r: Tree)
    ensures r == AddText(t, segs, obj, wildcards, reg)
    decreases |segs|
  {
    if segs == [] {
      return t.(leaves := t.leaves + [Leaf(wildcards, if reg == [] then None else Some("^" + reg + "$"), obj)]);
    }
    var seg := segs[0];
    var s := ReadStep(seg, wildcards, reg);
    r := t;
    if s.optional {
      r := AddTextLoop(r, segs[1..], obj, wildcards, reg);
    }
    if s.isWild {
      var w := if r.wildCard.Some? then r.wildCard.value else NEW_TREE;
      w := AddTextLoop(w, segs[1..], obj, wildcards + s.names, reg + s.reg);
      return r.(wildCard := Some(w));
    }
    var i := 0;
    while i < |r.fixRouters| && r.fixRouters[i].prefix != seg
      invariant i <= |r.fixRouters| && forall j | 0 <= j < i :: r.fixRouters[j].prefix != seg
    {
      i := i + 1;
    }
    ChildIndexOf(r.fixRouters, i, seg);
    var sub := if i < |r.fixRouters| then r.fixRouters[i] else NEW_TREE.(prefix := seg);
    sub := AddTextLoop(sub, segs[1..], obj, wildcards, reg);
    r := r.(fixRouters := if i < |r.fixRouters| then r.fixRouters[i := sub] else r.fixRouters + [sub]);
  }

  // An answer as the list of routes gives it: nothing, and no parameter set, exactly when no route fits; otherwise
  // what the scan selects.
  ghost predicate ServesScan(routes: seq<Route>, path: string, ps: Params, r: Result) {
    && (path == [] || path[0] != '/' ==> r.found.None?)
    && (r.found.None? ==> r.params == ps)
    && (path != [] && path[0] == '/' && r.found.None? ==> forall k :: !Fits(routes, k, PathSegments(path)))
    && (r.found.Some? ==> exists k :: ScanAnswers(routes, PathSegments(path), k, ps, r))
  }

  lemma ScanServes(other: LeafMatcher, routes: seq<Route>, path: string, ps: Params)
    requires PlainRoutes(routes)
    ensures ServesScan(routes, path, ps, Match(PlainMatcher(other), Build(routes), path, ps))
  {
    if path != [] && path[0] == '/' {
      MatchIsScan(other, routes, path, ps);
    }
  }

  lemma CleanlyServed(other: LeafMatcher, entries: seq<Entry>, path: string, ps: Params)
    ensures FailsCleanly(other) ==> Clean(Match(PlainMatcher(other), BuildTexts(entries), path, ps), ps)
  {
    if FailsCleanly(other) && Match(PlainMatcher(other), BuildTexts(entries), path, ps).found.None? {
      TextsUnique(entries);
      FailedMatchKeepsParams(PlainMatcher(other), BuildTexts(entries), path, ps);
    }
  }

  /** A router, which holds the tree of everything registered. For plain patterns it answers like a scan of them. */
  class Router {
    var tree: Tree
    ghost var entries: seq<Entry>

    ghost predicate Valid()
      reads this
    {
      tree == BuildTexts(entries)
    }

    constructor ()
      ensures Valid() && entries == []
    {
      tree, entries := NEW_TREE, [];
    }

    method AddRouter(pattern: string, obj: Object)
      requires Valid()
      modifies this
      ensures Valid() && entries == old(entries) + [Entry(pattern, obj)]
    {
      var segs := SplitPath(pattern);
      tree := AddTextLoop(tree, segs, obj, [], []);
      entries := entries + [Entry(pattern, obj)];
      assert entries[..|entries| - 1] == old(entries);
    }

    method Serve(other: LeafMatcher, path: string, store: ParamStore) returns (found: Option<Object>)
      requires Valid() && store.Valid()
      modifies store
      ensures store.Valid()
      ensures Result(found, store.View()) == Match(PlainMatcher(other), BuildTexts(entries), path, old(store.View()))
      ensures FailsCleanly(other) && found.None? ==> store.View() == old(store.View())
      ensures PlainEntries(entries) ==>
        ServesScan(RoutesOf(entries), path, old(store.View()), Result(found, store.View()))
    {
      CleanlyServed(other, entries, path, store.View());
      if PlainEntries(entries) {
        TextsBuild(entries);
        ScanServes(other, RoutesOf(entries), path, store.View());
      }
      found := MatchPath(other, tree, path, store);
    }
  }
}
