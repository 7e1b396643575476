/** The routing tree agrees with a scan of the registered patterns. */
module RouteTheorems {
  import opened Wrappers
  import opened RouteTree
  import opened RouteParams

  // ---- segments of a path ----

  // The parts between slashes that are not empty.
  function PathSegments(s: string): seq<string>
    decreases |s|
  {
    var p := SkipSlashes(s);
    if p == [] then []
    else
      var seg := FirstSegment(p);
      assert seg != [] by { assert p[0] != '/'; }
      [seg] + PathSegments(p[|seg|..])
  }

  lemma {:induction false} SegmentThenRest(seg: string, rest: string)
    requires '/' !in seg && (rest == [] || rest[0] == '/')
    ensures FirstSegment(seg + rest) == seg
  {
    if seg == [] {
      assert seg + rest == rest;
    } else {
      assert (seg + rest)[1..] == seg[1..] + rest;
      SegmentThenRest(seg[1..], rest);
      assert [seg[0]] + seg[1..] == seg;
    }
  }

  // ---- AddRouter for fixed and :name segments ----

  datatype Segment = Fixed(text: string) | Wild(name: string)

  type Pattern = seq<Segment>

  // addSeg: a wild segment goes to the wildCard child, a fixed one to the child of that prefix.
  function AddSeg(t: Tree, p: Pattern, obj: Object, wildcards: seq<string>): Tree
    decreases |p|
  {
    if p == [] then t.(leaves := t.leaves + [Leaf(wildcards, None, obj)])
    else
      match p[0]
      case Wild(name) =>
        var w := if t.wildCard.Some? then t.wildCard.value else NEW_TREE;
        t.(wildCard := Some(AddSeg(w, p[1..], obj, wildcards + [name])))
      case Fixed(text) =>
        WithChild(t, text, AddSeg(Child(t, text), p[1..], obj, wildcards))
  }

  // The child for a fixed text, or a new one.
  function Child(t: Tree, text: string): Tree {
    var i := ChildIndex(t.fixRouters, text);
    if i < |t.fixRouters| then t.fixRouters[i] else NEW_TREE.(prefix := text)
  }

  function WithChild(t: Tree, text: string, c: Tree): Tree {
    var i := ChildIndex(t.fixRouters, text);
    if i < |t.fixRouters| then t.(fixRouters := t.fixRouters[i := c]) else t.(fixRouters := t.fixRouters + [c])
  }

  // The first child with the prefix, or the number of children.
  function ChildIndex(cs: seq<Tree>, text: string): (i: nat)
    ensures i <= |cs| && (i < |cs| ==> cs[i].prefix == text)
    ensures forall j | 0 <= j < i :: cs[j].prefix != text
  {
    if cs == [] then 0 else if cs[0].prefix == text then 0 else 1 + ChildIndex(cs[1..], text)
  }

  datatype Route = Route(pattern: Pattern, obj: Object)

  function Build(routes: seq<Route>): Tree {
    if routes == [] then NEW_TREE
    else AddSeg(Build(routes[..|routes| - 1]), routes[|routes| - 1].pattern, routes[|routes| - 1].obj, [])
  }

  // ---- what is stored where ----

  // The way through the tree that a pattern takes: fixed texts, and None for a wild segment.
  type Shape = seq<Option<string>>

  function ShapeOf(p: Pattern): (s: Shape)
    ensures |s| == |p|
  {
    seq(|p|, i requires 0 <= i < |p| => if p[i].Fixed? then Some(p[i].text) else None)
  }

  function Names(p: Pattern): seq<string> {
    if p == [] then [] else (if p[0].Wild? then [p[0].name] else []) + Names(p[1..])
  }

  function Lookup(t: Tree, s: Shape): seq<Leaf>
    decreases |s|
  {
    if s == [] then t.leaves
    else
      match s[0]
      case None => if t.wildCard.Some? then Lookup(t.wildCard.value, s[1..]) else []
      case Some(text) =>
        var i := ChildIndex(t.fixRouters, text);
        if i < |t.fixRouters| then Lookup(t.fixRouters[i], s[1..]) else []
  }

  lemma {:induction false} LookupNew(prefix: string, s: Shape)
    ensures Lookup(NEW_TREE.(prefix := prefix), s) == []
  {
  }

  lemma AddSegPrefix(t: Tree, p: Pattern, obj: Object, wildcards: seq<string>)
    ensures AddSeg(t, p, obj, wildcards).prefix == t.prefix
  {
  }

  lemma {:induction false} ChildIndexOf(cs: seq<Tree>, i: nat, text: string)
    requires i <= |cs| && (i < |cs| ==> cs[i].prefix == text) && forall j | 0 <= j < i :: cs[j].prefix != text
    ensures ChildIndex(cs, text) == i
  {
  }

  lemma WithChildIndex(t: Tree, text: string, c: Tree, x: string)
    requires c.prefix == text
    ensures var t' := WithChild(t, text, c);
      var i := ChildIndex(t'.fixRouters, x);
      if x == text then i < |t'.fixRouters| && t'.fixRouters[i] == c
      else var k := ChildIndex(t.fixRouters, x);
        (k < |t.fixRouters| <==> i < |t'.fixRouters|) && (k < |t.fixRouters| ==> t'.fixRouters[i] == t.fixRouters[k])
  {
    var cs := t.fixRouters;
    var cs' := WithChild(t, text, c).fixRouters;
    var k := ChildIndex(cs, x);
    ChildIndexOf(cs', if k == |cs| && x != text then |cs'| else k, x);
  }

  lemma WithChildLookup(t: Tree, text: string, c: Tree, s: Shape)
    requires c.prefix == text
    ensures Lookup(WithChild(t, text, c), s)
      == if s != [] && s[0] == Some(text) then Lookup(c, s[1..]) else Lookup(t, s)
  {
    if s != [] && s[0].Some? {
      WithChildIndex(t, text, c, s[0].value);
    }
  }

  lemma ChildLookup(t: Tree, text: string, s: Shape)
    requires s != [] && s[0] == Some(text)
    ensures Lookup(Child(t, text), s[1..]) == Lookup(t, s)
  {
    LookupNew(text, s[1..]);
  }

  lemma ShapeHead(p: Pattern, s: Shape)
    requires p != []
    ensures s == ShapeOf(p) <==> s != [] && s[0] == ShapeOf(p)[0] && s[1..] == ShapeOf(p[1..])
  {
    if s != [] {
      assert s == [s[0]] + s[1..];
      assert ShapeOf(p) == [ShapeOf(p)[0]] + ShapeOf(p[1..]);
    }
  }

  /** Adding a pattern appends one leaf at its own shape and changes no other. */
  lemma {:induction false} AddSegLookup(t: Tree, p: Pattern, obj: Object, wildcards: seq<string>, s: Shape)
    ensures Lookup(AddSeg(t, p, obj, wildcards), s)
      == Lookup(t, s) + if s == ShapeOf(p) then [Leaf(wildcards + Names(p), None, obj)] else []
    decreases |p|
  {
    if p == [] {
      assert wildcards + Names(p) == wildcards;
    } else {
      ShapeHead(p, s);
      match p[0] {
        case Wild(name) =>
          if s != [] {
            var w := if t.wildCard.Some? then t.wildCard.value else NEW_TREE;
            AddSegLookup(w, p[1..], obj, wildcards + [name], s[1..]);
            LookupNew("", s[1..]);
          }
          assert wildcards + [name] + Names(p[1..]) == wildcards + Names(p);
        case Fixed(text) =>
          var c := Child(t, text);
          AddSegPrefix(c, p[1..], obj, wildcards);
          WithChildLookup(t, text, AddSeg(c, p[1..], obj, wildcards), s);
          if s != [] && s[0] == Some(text) {
            AddSegLookup(c, p[1..], obj, wildcards, s[1..]);
            ChildLookup(t, text, s);
          }
          assert Names(p) == Names(p[1..]);
      }
    }
  }

  // The leaves of the routes with a given shape, in the order of registration.
  function Stored(routes: seq<Route>, s: Shape): seq<Leaf> {
    if routes == [] then []
    else
      var n := |routes| - 1;
      Stored(routes[..n], s) +
      if ShapeOf(routes[n].pattern) == s then [Leaf(Names(routes[n].pattern), None, routes[n].obj)] else []
  }

  lemma {:induction false} BuildLookup(routes: seq<Route>, s: Shape)
    ensures Lookup(Build(routes), s) == Stored(routes, s)
  {
    if routes == [] {
      LookupNew("", s);
    } else {
      var n := |routes| - 1;
      BuildLookup(routes[..n], s);
      AddSegLookup(Build(routes[..n]), routes[n].pattern, routes[n].obj, [], s);
      assert [] + Names(routes[n].pattern) == Names(routes[n].pattern);
    }
  }

  lemma {:induction false} AddSegUnique(t: Tree, p: Pattern, obj: Object, wildcards: seq<string>)
    requires UniquePrefixes(t)
    ensures UniquePrefixes(AddSeg(t, p, obj, wildcards))
    decreases |p|
  {
    if p != [] {
      match p[0] {
        case Wild(name) =>
          AddSegUnique(if t.wildCard.Some? then t.wildCard.value else NEW_TREE, p[1..], obj, wildcards + [name]);
        case Fixed(text) =>
          AddSegUnique(Child(t, text), p[1..], obj, wildcards);
          AddSegPrefix(Child(t, text), p[1..], obj, wildcards);
      }
    }
  }

  /** Trees built by AddRouter have unique child prefixes. */
  lemma {:induction false} BuildUnique(routes: seq<Route>)
    ensures UniquePrefixes(Build(routes))
  {
    if routes != [] {
      var n := |routes| - 1;
      BuildUnique(routes[..n]);
      AddSegUnique(Build(routes[..n]), routes[n].pattern, routes[n].obj, []);
    }
  }

  // ---- the tree search by shapes ----

  function WildCount(s: Shape): nat {
    if s == [] then 0 else (if s[0].None? then 1 else 0) + WildCount(s[1..])
  }

  // The segments that the wild places of a shape stand for.
  function WildValues(s: Shape, segs: seq<string>): (r: seq<string>)
    requires |s| == |segs|
    ensures |r| == WildCount(s)
  {
    if s == [] then [] else (if s[0].None? then [segs[0]] else []) + WildValues(s[1..], segs[1..])
  }

  // The first shape in order of preference that fits and has a leaf.
  function Pick(t: Tree, segs: seq<string>): (r: Option<Shape>)
    ensures r.Some? ==> |r.value| == |segs| && Lookup(t, r.value) != []
    decreases |segs|, 1
  {
    if segs == [] then (if t.leaves != [] then Some([]) else None)
    else
      var exact := PickFixed(t, segs[0], segs);
      var stem := if ExtensionOf(segs[0]) != [] then PickFixed(t, Stem(segs[0]), segs) else None;
      if exact.Some? then exact
      else if stem.Some? then stem
      else
        var wild := if t.wildCard.Some? then Pick(t.wildCard.value, segs[1..]) else None;
        if wild.Some? then
          assert ([None] + wild.value)[1..] == wild.value;
          Some([None] + wild.value)
        else None
  }

  // The same through the child for a fixed text.
  function PickFixed(t: Tree, text: string, segs: seq<string>): (r: Option<Shape>)
    requires segs != []
    ensures r.Some? ==> |r.value| == |segs| && Lookup(t, r.value) != [] && r.value[0] == Some(text)
    decreases |segs|, 0
  {
    var i := ChildIndex(t.fixRouters, text);
    var s := if i < |t.fixRouters| then Pick(t.fixRouters[i], segs[1..]) else None;
    if s.Some? then
      assert ([Some(text)] + s.value)[1..] == s.value;
      Some([Some(text)] + s.value)
    else None
  }

  // A leaf of fixed and :name segments only.
  predicate PlainNames(names: seq<string>) {
    ":splat" !in names && !EndsInPathExt(names)
  }

  // Every leaf is plain and has as many names as wild segments on the way to it.
  ghost predicate Counted(t: Tree, b: nat) {
    forall s, l :: l in Lookup(t, s) ==> CountedLeaf(l, b + WildCount(s))
  }

  ghost predicate CountedLeaf(l: Leaf, n: nat) {
    l.regexp.None? && PlainNames(l.wildcards) && |l.wildcards| == n
  }

  lemma CountedChild(t: Tree, b: nat, text: string)
    requires Counted(t, b) && ChildIndex(t.fixRouters, text) < |t.fixRouters|
    ensures Counted(t.fixRouters[ChildIndex(t.fixRouters, text)], b)
  {
    var c := t.fixRouters[ChildIndex(t.fixRouters, text)];
    forall s, l | l in Lookup(c, s) ensures CountedLeaf(l, b + WildCount(s)) {
      var s' := [Some(text)] + s;
      assert s'[1..] == s && l in Lookup(t, s');
    }
  }

  lemma CountedWild(t: Tree, b: nat)
    requires Counted(t, b) && t.wildCard.Some?
    ensures Counted(t.wildCard.value, b + 1)
  {
    forall s, l | l in Lookup(t.wildCard.value, s) ensures CountedLeaf(l, b + 1 + WildCount(s)) {
      var s': Shape := [None] + s;
      assert s'[1..] == s && l in Lookup(t, s');
    }
  }

  function PlainMatcher(other: LeafMatcher): LeafMatcher {
    (l, tp, vs, ps) => LeafMatch(other, l, tp, vs, ps)
  }

  lemma {:induction false} LeavesMiss(other: LeafMatcher, leaves: seq<Leaf>, n: nat, tp: string, vs: seq<string>,
                                      ps: Params)
    requires (forall l | l in leaves :: CountedLeaf(l, n)) && n != |vs|
    ensures TryLeaves(PlainMatcher(other), leaves, tp, vs, ps) == Result(None, ps)
  {
    if leaves != [] {
      assert leaves[0] in leaves;
      LeavesMiss(other, leaves[1..], n, tp, vs, ps);
    }
  }

  lemma LeavesHit(other: LeafMatcher, leaves: seq<Leaf>, tp: string, vs: seq<string>, ps: Params)
    requires leaves != [] && CountedLeaf(leaves[0], |vs|)
    ensures TryLeaves(PlainMatcher(other), leaves, tp, vs, ps)
      == Result(Some(leaves[0].runObject), Bind(ps, leaves[0].wildcards, vs))
  {
    var names := leaves[0].wildcards;
    assert names == [":splat"] ==> ":splat" in names;
  }

  lemma {:induction false} FixedIsChild(lm: LeafMatcher, t: Tree, i: nat, seg: string, rest: string, vs: seq<string>,
                                        ps: Params)
    requires UniquePrefixes(t) && i <= |t.fixRouters|
    ensures TryFixed(lm, t, i, seg, rest, vs, ps) ==
      var k := ChildIndex(t.fixRouters, seg);
      if i <= k < |t.fixRouters| then MatchNode(lm, t.fixRouters[k], Below(rest), rest, vs, ps) else Result(None, ps)
    decreases |t.fixRouters| - i
  {
    if i < |t.fixRouters| {
      var k := ChildIndex(t.fixRouters, seg);
      if i == k {
        FixedIsChild(lm, t, i + 1, seg, rest, vs, MatchNode(lm, t.fixRouters[i], Below(rest), rest, vs, ps).params);
      } else {
        FixedIsChild(lm, t, i + 1, seg, rest, vs, ps);
      }
    }
  }

  // ---- extensions ----

  predicate NoExtension(seg: string) {
    forall k | 0 <= k < |EXTENSIONS| :: !HasSuffix(seg, EXTENSIONS[k])
  }

  // The extension of a segment, or nothing.
  function ExtensionOf(seg: string): (e: string)
    ensures if e == [] then NoExtension(seg) else e in EXTENSIONS && HasSuffix(seg, e)
  {
    if HasSuffix(seg, EXTENSIONS[0]) then EXTENSIONS[0]
    else if HasSuffix(seg, EXTENSIONS[1]) then EXTENSIONS[1]
    else if HasSuffix(seg, EXTENSIONS[2]) then EXTENSIONS[2]
    else []
  }

  function Stem(seg: string): string {
    seg[..|seg| - |ExtensionOf(seg)|]
  }

  lemma {:induction false} ExtensionsInert(lm: LeafMatcher, t: Tree, k: nat, seg: string, tp: string,
                                           rest: string, vs: seq<string>, sofar: Result)
    requires k <= |EXTENSIONS| && forall j | k <= j < |EXTENSIONS| :: !HasSuffix(seg, EXTENSIONS[j])
    ensures TryExtensions(lm, t, k, seg, tp, rest, vs, sofar) == sofar
    decreases |EXTENSIONS| - k
  {
    if k < |EXTENSIONS| {
      ExtensionsInert(lm, t, k + 1, seg, tp, rest, vs, sofar);
    }
  }

  // A hit under a stem also sets :ext.
  function WithExtension(r: Result, ext: string): Result
    requires ext != []
  {
    if r.found.Some? then Result(r.found, r.params[":ext" := ext[1..]]) else r
  }

  lemma StemPrefix(prefix: string, seg: string, ext: string)
    requires HasSuffix(seg, ext)
    ensures prefix + ext == seg <==> prefix == seg[..|seg| - |ext|]
  {
    assert seg == seg[..|seg| - |ext|] + ext;
    if prefix + ext == seg {
      assert prefix == seg[..|seg| - |ext|];
    }
  }

  // With unique prefixes the loop for one extension looks at one child.
  lemma {:induction false} ExtensionIsChild(lm: LeafMatcher, t: Tree, i: nat, seg: string, ext: string, tp: string,
                                            rest: string, vs: seq<string>, ps: Params)
    requires UniquePrefixes(t) && i <= |t.fixRouters| && ext != [] && HasSuffix(seg, ext)
    ensures TryExtension(lm, t, i, seg, ext, tp, rest, vs, Result(None, ps)) ==
      var k := ChildIndex(t.fixRouters, seg[..|seg| - |ext|]);
      if i <= k < |t.fixRouters| then WithExtension(MatchNode(lm, t.fixRouters[k], tp, rest, vs, ps), ext)
      else Result(None, ps)
    decreases |t.fixRouters| - i
  {
    if i < |t.fixRouters| {
      var k := ChildIndex(t.fixRouters, seg[..|seg| - |ext|]);
      StemPrefix(t.fixRouters[i].prefix, seg, ext);
      if t.fixRouters[i].prefix + ext == seg {
        var r := WithExtension(MatchNode(lm, t.fixRouters[i], tp, rest, vs, ps), ext);
        forall j | i + 1 <= j < |t.fixRouters| ensures t.fixRouters[j].prefix + ext != seg {
          StemPrefix(t.fixRouters[j].prefix, seg, ext);
          assert t.fixRouters[j].prefix != t.fixRouters[i].prefix;
        }
        ExtensionSkips(lm, t, i + 1, seg, ext, tp, rest, vs, r);
        ChildIndexOf(t.fixRouters, i, seg[..|seg| - |ext|]);
      } else {
        ExtensionIsChild(lm, t, i + 1, seg, ext, tp, rest, vs, ps);
      }
    }
  }

  // What the loops over extensions come to.
  function ByExtension(lm: LeafMatcher, t: Tree, seg: string, tp: string, rest: string, vs: seq<string>,
                       ps: Params): Result {
    var k := ChildIndex(t.fixRouters, Stem(seg));
    if ExtensionOf(seg) == [] || k == |t.fixRouters| then Result(None, ps)
    else WithExtension(MatchNode(lm, t.fixRouters[k], tp, rest, vs, ps), ExtensionOf(seg))
  }

  lemma OnlyExtension(seg: string, k: nat)
    requires k < |EXTENSIONS| && HasSuffix(seg, EXTENSIONS[k])
    ensures ExtensionOf(seg) == EXTENSIONS[k] && forall j | k < j < |EXTENSIONS| :: !HasSuffix(seg, EXTENSIONS[j])
  {
    forall j | k < j < |EXTENSIONS| ensures !HasSuffix(seg, EXTENSIONS[j]) {
      OneExtension(seg, k, j);
    }
    if k == 1 {
      OneExtensionBack(seg, 0, 1);
    } else if k == 2 {
      OneExtensionBack(seg, 0, 2);
      OneExtensionBack(seg, 1, 2);
    }
  }

  lemma OneExtensionBack(seg: string, j: nat, k: nat)
    requires j < k < |EXTENSIONS| && HasSuffix(seg, EXTENSIONS[k])
    ensures !HasSuffix(seg, EXTENSIONS[j])
  {
    if HasSuffix(seg, EXTENSIONS[j]) {
      OneExtension(seg, j, k);
    }
  }

  lemma ExtensionHits(lm: LeafMatcher, t: Tree, k: nat, seg: string, ext: string, tp: string,
                      rest: string, vs: seq<string>, ps: Params)
    requires UniquePrefixes(t) && k < |EXTENSIONS| && ext == EXTENSIONS[k] && HasSuffix(seg, ext)
    ensures TryExtensions(lm, t, k, seg, tp, rest, vs, Result(None, ps)) == ByExtension(lm, t, seg, tp, rest, vs, ps)
  {
    OnlyExtension(seg, k);
    ExtensionIsChild(lm, t, 0, seg, ext, tp, rest, vs, ps);
    var r := TryExtension(lm, t, 0, seg, ext, tp, rest, vs, Result(None, ps));
    ExtensionsInert(lm, t, k + 1, seg, tp, rest, vs, r);
    assert TryExtensions(lm, t, k, seg, tp, rest, vs, Result(None, ps)) == r;
  }

  lemma {:induction false} ExtensionsIsChild(lm: LeafMatcher, t: Tree, k: nat, seg: string, tp: string,
                                             rest: string, vs: seq<string>, ps: Params)
    requires UniquePrefixes(t) && k <= |EXTENSIONS| && forall j | 0 <= j < k :: !HasSuffix(seg, EXTENSIONS[j])
    ensures TryExtensions(lm, t, k, seg, tp, rest, vs, Result(None, ps)) == ByExtension(lm, t, seg, tp, rest, vs, ps)
    decreases |EXTENSIONS| - k
  {
    if k < |EXTENSIONS| {
      if HasSuffix(seg, EXTENSIONS[k]) {
        ExtensionHits(lm, t, k, seg, EXTENSIONS[k], tp, rest, vs, ps);
      } else {
        ExtensionsIsChild(lm, t, k + 1, seg, tp, rest, vs, ps);
      }
    }
  }

  // Places of a shape that stand for a segment without its extension set :ext, the first of them last.
  function SetExtensions(ps: Params, s: Shape, segs: seq<string>): Params
    requires |s| == |segs|
  {
    if s == [] then ps
    else
      var inner := SetExtensions(ps, s[1..], segs[1..]);
      if s[0].Some? && s[0].value != segs[0] && ExtensionOf(segs[0]) != []
      then inner[":ext" := ExtensionOf(segs[0])[1..]] else inner
  }

  // The outcome for a shape: the first leaf stored there, with its names bound.
  function Chosen(t: Tree, s: Shape, segs: seq<string>, vs: seq<string>, ps: Params): Result
    requires |s| == |segs| && Lookup(t, s) != [] && |Lookup(t, s)[0].wildcards| == |vs| + WildCount(s)
  {
    var l := Lookup(t, s)[0];
    Result(Some(l.runObject), SetExtensions(Bind(ps, l.wildcards, vs + WildValues(s, segs)), s, segs))
  }

  ghost predicate PicksRight(t: Tree, segs: seq<string>, vs: seq<string>, ps: Params, r: Result) {
    match Pick(t, segs)
    case None => r == Result(None, ps)
    case Some(s) => |Lookup(t, s)[0].wildcards| == |vs| + WildCount(s) && r == Chosen(t, s, segs, vs, ps)
  }

  lemma ChosenBelowFixed(t: Tree, text: string, s: Shape, segs: seq<string>, vs: seq<string>, ps: Params)
    requires |s| + 1 == |segs| && ChildIndex(t.fixRouters, text) < |t.fixRouters|
    requires text == segs[0] || (ExtensionOf(segs[0]) != [] && text == Stem(segs[0]))
    requires var c := t.fixRouters[ChildIndex(t.fixRouters, text)];
      Lookup(c, s) != [] && |Lookup(c, s)[0].wildcards| == |vs| + WildCount(s)
    ensures var s' := [Some(text)] + s;
      && Lookup(t, s') != [] && |Lookup(t, s')[0].wildcards| == |vs| + WildCount(s')
      && var below := Chosen(t.fixRouters[ChildIndex(t.fixRouters, text)], s, segs[1..], vs, ps);
      Chosen(t, s', segs, vs, ps) == if text == segs[0] then below else WithExtension(below, ExtensionOf(segs[0]))
  {
    var s' := [Some(text)] + s;
    assert s'[1..] == s;
    assert WildValues(s', segs) == WildValues(s, segs[1..]);
  }

  lemma ChosenBelowWild(t: Tree, s: Shape, segs: seq<string>, vs: seq<string>, ps: Params)
    requires |s| + 1 == |segs| && t.wildCard.Some?
    requires Lookup(t.wildCard.value, s) != [] && |Lookup(t.wildCard.value, s)[0].wildcards| == |vs| + 1 + WildCount(s)
    ensures var s': Shape := [None] + s;
      && Lookup(t, s') != [] && |Lookup(t, s')[0].wildcards| == |vs| + WildCount(s')
      && Chosen(t, s', segs, vs, ps) == Chosen(t.wildCard.value, s, segs[1..], vs + [segs[0]], ps)
  {
    var s': Shape := [None] + s;
    assert s'[1..] == s;
    assert vs + [segs[0]] + WildValues(s, segs[1..]) == vs + WildValues(s', segs);
  }

  lemma LeavesCounted(t: Tree, b: nat)
    requires Counted(t, b)
    ensures forall l | l in t.leaves :: CountedLeaf(l, b)
  {
    forall l | l in t.leaves ensures CountedLeaf(l, b) {
      assert l in Lookup(t, []);
    }
  }

  lemma AllValuesLonger(vs: seq<string>, seg: string, rest: string)
    ensures |AllValues(vs, seg, rest)| > |vs|
  {
  }

  /** The backtracking search of match finds the leaf that Pick describes. */
  lemma {:induction false} MatchPicks(other: LeafMatcher, t: Tree, tp: string, pattern: string, vs: seq<string>,
                                      ps: Params)
    requires UniquePrefixes(t) && Counted(t, |vs|)
    ensures PicksRight(t, PathSegments(pattern), vs, ps, MatchNode(PlainMatcher(other), t, tp, pattern, vs, ps))
    decreases t, 3
  {
    var lm, p, segs := PlainMatcher(other), SkipSlashes(pattern), PathSegments(pattern);
    LeavesCounted(t, |vs|);
    if p == [] {
      if t.leaves != [] {
        assert t.leaves[0] in t.leaves;
        LeavesHit(other, t.leaves, tp, vs, ps);
        assert vs + WildValues([], []) == vs;
      }
      if t.wildCard.Some? {
        CountedWild(t, |vs|);
        LeavesCounted(t.wildCard.value, |vs| + 1);
        LeavesMiss(other, t.wildCard.value.leaves, |vs| + 1, tp, vs, ps);
      }
    } else {
      var seg := FirstSegment(p);
      var rest := p[|seg|..];
      assert segs == [seg] + PathSegments(rest);
      StepPicks(other, t, tp, seg, rest, vs, ps);
    }
  }

  // The search below the child for a text, for its exact segment or its stem.
  lemma {:induction false} ChildPicks(other: LeafMatcher, t: Tree, text: string, seg: string, tp: string, rest: string,
                                      vs: seq<string>, ps: Params) returns (k: nat)
    requires UniquePrefixes(t) && Counted(t, |vs|)
    requires text == seg || (ExtensionOf(seg) != [] && text == Stem(seg))
    ensures k == ChildIndex(t.fixRouters, text)
    ensures var segs := [seg] + PathSegments(rest);
      var found := PickFixed(t, text, segs);
      k < |t.fixRouters| ==>
        var r := MatchNode(PlainMatcher(other), t.fixRouters[k], tp, rest, vs, ps);
        match found
        case None => r == Result(None, ps)
        case Some(s) =>
          && |Lookup(t, s)[0].wildcards| == |vs| + WildCount(s)
          && Chosen(t, s, segs, vs, ps) == if text == seg then r else WithExtension(r, ExtensionOf(seg))
    decreases t, 0
  {
    k := ChildIndex(t.fixRouters, text);
    if k < |t.fixRouters| {
      var segs, below := [seg] + PathSegments(rest), PathSegments(rest);
      assert segs[1..] == below;
      CountedChild(t, |vs|, text);
      MatchPicks(other, t.fixRouters[k], tp, rest, vs, ps);
      var s := Pick(t.fixRouters[k], below);
      if s.Some? {
        ChosenBelowFixed(t, text, s.value, segs, vs, ps);
      }
    }
  }

  // Pick came to nothing and the search as well, or both came to the same leaf.
  ghost predicate Agrees(t: Tree, picked: Option<Shape>, segs: seq<string>, vs: seq<string>, ps: Params, r: Result) {
    match picked
    case None => r == Result(None, ps)
    case Some(s) =>
      && |s| == |segs| && Lookup(t, s) != [] && |Lookup(t, s)[0].wildcards| == |vs| + WildCount(s)
      && r == Chosen(t, s, segs, vs, ps)
  }

  lemma {:induction false} ExactPicks(other: LeafMatcher, t: Tree, seg: string, rest: string, vs: seq<string>,
                                      ps: Params)
    requires UniquePrefixes(t) && Counted(t, |vs|)
    ensures var segs := [seg] + PathSegments(rest);
      Agrees(t, PickFixed(t, seg, segs), segs, vs, ps, TryFixed(PlainMatcher(other), t, 0, seg, rest, vs, ps))
    decreases t, 1
  {
    FixedIsChild(PlainMatcher(other), t, 0, seg, rest, vs, ps);
    var i := ChildPicks(other, t, seg, seg, Below(rest), rest, vs, ps);
  }

  lemma {:induction false} StemPicks(other: LeafMatcher, t: Tree, tp: string, seg: string, rest: string,
                                     vs: seq<string>, ps: Params)
    requires UniquePrefixes(t) && Counted(t, |vs|)
    ensures var segs := [seg] + PathSegments(rest);
      Agrees(t, if ExtensionOf(seg) != [] then PickFixed(t, Stem(seg), segs) else None, segs, vs, ps,
             TryExtensions(PlainMatcher(other), t, 0, seg, tp, rest, vs, Result(None, ps)))
    decreases t, 1
  {
    ExtensionsIsChild(PlainMatcher(other), t, 0, seg, tp, rest, vs, ps);
    if ExtensionOf(seg) != [] {
      assert Stem(seg) != seg;
      var j := ChildPicks(other, t, Stem(seg), seg, tp, rest, vs, ps);
    }
  }

  lemma {:induction false} StepPicks(other: LeafMatcher, t: Tree, tp: string, seg: string, rest: string,
                                     vs: seq<string>, ps: Params)
    requires UniquePrefixes(t) && Counted(t, |vs|)
    ensures var r := MatchSegment(PlainMatcher(other), t, tp, seg, rest, vs, ps);
      PicksRight(t, [seg] + PathSegments(rest), vs, ps, r)
    decreases t, 2
  {
    var segs := [seg] + PathSegments(rest);
    assert segs[1..] == PathSegments(rest);
    var tp' := if HasChild(t, seg) then Below(rest) else tp;
    ExactPicks(other, t, seg, rest, vs, ps);
    StemPicks(other, t, tp', seg, rest, vs, ps);
    WildPicks(other, t, tp', seg, rest, vs, ps);
  }

  // What is left when no fixed child leads to a leaf.
  lemma {:induction false} WildPicks(other: LeafMatcher, t: Tree, tp: string, seg: string, rest: string,
                                     vs: seq<string>, ps: Params)
    requires UniquePrefixes(t) && Counted(t, |vs|)
    ensures var segs, lm: LeafMatcher := [seg] + PathSegments(rest), PlainMatcher(other);
      var found := if t.wildCard.Some? then Pick(t.wildCard.value, PathSegments(rest)) else None;
      var wild := if t.wildCard.Some? then MatchNode(lm, t.wildCard.value, tp, rest, vs + [seg], ps)
                  else Result(None, ps);
      match found
      case None => wild == Result(None, ps)
        && TryLeaves(lm, t.leaves, tp, AllValues(vs, seg, rest), ps) == Result(None, ps)
      case Some(s) =>
        var s': Shape := [None] + s;
        && Lookup(t, s') != [] && |Lookup(t, s')[0].wildcards| == |vs| + WildCount(s')
        && wild == Chosen(t, s', segs, vs, ps)
    decreases t, 0
  {
    var segs := [seg] + PathSegments(rest);
    assert segs[1..] == PathSegments(rest);
    if t.wildCard.Some? {
      CountedWild(t, |vs|);
      MatchPicks(other, t.wildCard.value, tp, rest, vs + [seg], ps);
      var s := Pick(t.wildCard.value, PathSegments(rest));
      if s.Some? {
        ChosenBelowWild(t, s.value, segs, vs, ps);
      }
    }
    LeavesCounted(t, |vs|);
    AllValuesLonger(vs, seg, rest);
    LeavesMiss(other, t.leaves, |vs|, tp, AllValues(vs, seg, rest), ps);
  }

  // ---- the scan ----

  // How well a place of a shape suits a segment: its text, its text without an extension, or any text.
  function Rank(place: Option<string>, seg: string): nat {
    if place.None? then 2 else if place.value == seg then 0 else 1
  }

  predicate PlaceFits(place: Option<string>, seg: string) {
    place.Some? ==> place.value == seg || (ExtensionOf(seg) != [] && place.value == Stem(seg))
  }

  ghost predicate ShapeFits(s: Shape, segs: seq<string>) {
    |s| == |segs| && forall i | 0 <= i < |s| :: PlaceFits(s[i], segs[i])
  }

  // Fixed over wild at the first difference, and the whole segment over its stem.
  ghost predicate Prefers(a: Shape, b: Shape, segs: seq<string>) {
    exists i :: 0 <= i < |segs| && PrefersAt(a, b, segs, i)
  }

  ghost predicate PrefersAt(a: Shape, b: Shape, segs: seq<string>, i: nat) {
    i < |a| && i < |b| && i < |segs| && a[..i] == b[..i] && Rank(a[i], segs[i]) < Rank(b[i], segs[i])
  }

  lemma PrefersBelow(a: Shape, b: Shape, h: Option<string>, segs: seq<string>)
    requires segs != [] && Prefers(a, b, segs[1..])
    ensures Prefers([h] + a, [h] + b, segs)
  {
    var i :| 0 <= i < |segs[1..]| && PrefersAt(a, b, segs[1..], i);
    assert ([h] + a)[..i + 1] == [h] + a[..i] && ([h] + b)[..i + 1] == [h] + b[..i];
    assert PrefersAt([h] + a, [h] + b, segs, i + 1);
  }

  // Of all shapes that fit and have a leaf, s is the preferred one.
  ghost predicate Preferred(t: Tree, segs: seq<string>, s: Shape) {
    ShapeFits(s, segs) && forall s' | ShapeFits(s', segs) && Lookup(t, s') != [] :: s' == s || Prefers(s, s', segs)
  }

  // What Pick found below a node is the preferred shape there, and nothing means that nothing fits.
  ghost predicate Best(t: Tree, segs: seq<string>) {
    match Pick(t, segs)
    case Some(s) => Preferred(t, segs, s)
    case None => forall s' | ShapeFits(s', segs) :: Lookup(t, s') == []
  }

  lemma {:induction false} PickIsPreferred(t: Tree, segs: seq<string>)
    ensures Best(t, segs)
    decreases |segs|
  {
    if segs != [] {
      forall i | 0 <= i < |t.fixRouters| ensures Best(t.fixRouters[i], segs[1..]) {
        PickIsPreferred(t.fixRouters[i], segs[1..]);
      }
      if t.wildCard.Some? {
        PickIsPreferred(t.wildCard.value, segs[1..]);
      }
      PickFits(t, segs);
      forall s' | ShapeFits(s', segs) && Lookup(t, s') != []
        ensures Pick(t, segs).Some? && (s' == Pick(t, segs).value || Prefers(Pick(t, segs).value, s', segs))
      {
        PickBeats(t, segs, s');
      }
    }
  }

  lemma ShapeFitsTail(s: Shape, segs: seq<string>)
    requires s != [] && segs != []
    ensures ShapeFits(s, segs) <==> PlaceFits(s[0], segs[0]) && ShapeFits(s[1..], segs[1..])
  {
    if PlaceFits(s[0], segs[0]) && ShapeFits(s[1..], segs[1..]) {
      forall i | 0 <= i < |s| ensures PlaceFits(s[i], segs[i]) {
        if i > 0 {
          assert PlaceFits(s[1..][i - 1], segs[1..][i - 1]);
        }
      }
    }
    if ShapeFits(s, segs) {
      forall i | 0 <= i < |s| - 1 ensures PlaceFits(s[1..][i], segs[1..][i]) {
        assert PlaceFits(s[i + 1], segs[i + 1]);
      }
    }
  }

  ghost predicate BestBelow(t: Tree, segs: seq<string>) {
    && (forall i | 0 <= i < |t.fixRouters| :: Best(t.fixRouters[i], segs))
    && (t.wildCard.Some? ==> Best(t.wildCard.value, segs))
  }

  lemma PickFits(t: Tree, segs: seq<string>)
    requires segs != [] && BestBelow(t, segs[1..])
    ensures Pick(t, segs).Some? ==> ShapeFits(Pick(t, segs).value, segs)
  {
    PickFixedFits(t, segs[0], segs);
    if ExtensionOf(segs[0]) != [] {
      PickFixedFits(t, Stem(segs[0]), segs);
    }
    if t.wildCard.Some? && Pick(t.wildCard.value, segs[1..]).Some? {
      PlaceBefore(None, Pick(t.wildCard.value, segs[1..]).value, segs);
    }
  }

  lemma PickFixedFits(t: Tree, text: string, segs: seq<string>)
    requires segs != [] && BestBelow(t, segs[1..]) && PlaceFits(Some(text), segs[0])
    ensures PickFixed(t, text, segs).Some? ==> ShapeFits(PickFixed(t, text, segs).value, segs)
  {
    var i := ChildIndex(t.fixRouters, text);
    if i < |t.fixRouters| && Pick(t.fixRouters[i], segs[1..]).Some? {
      assert Best(t.fixRouters[i], segs[1..]);
      PlaceBefore(Some(text), Pick(t.fixRouters[i], segs[1..]).value, segs);
    }
  }

  lemma PlaceBefore(place: Option<string>, s: Shape, segs: seq<string>)
    requires segs != [] && PlaceFits(place, segs[0]) && ShapeFits(s, segs[1..])
    ensures ShapeFits([place] + s, segs)
  {
    assert ([place] + s)[1..] == s;
    ShapeFitsTail([place] + s, segs);
  }

  // A stored shape that starts with a fixed text is found through the child of that text, or beaten there.
  lemma PickFixedBeats(t: Tree, text: string, segs: seq<string>, s': Shape)
    requires segs != [] && BestBelow(t, segs[1..]) && |s'| == |segs| && s'[0] == Some(text)
    requires Lookup(t, s') != [] && ShapeFits(s'[1..], segs[1..])
    ensures var r := PickFixed(t, text, segs); r.Some? && (s' == r.value || Prefers(r.value, s', segs))
  {
    var i := ChildIndex(t.fixRouters, text);
    assert i < |t.fixRouters| && Best(t.fixRouters[i], segs[1..]);
    assert s' == [Some(text)] + s'[1..];
    var below := Pick(t.fixRouters[i], segs[1..]);
    assert below.Some?;
    if below.value != s'[1..] {
      PrefersBelow(below.value, s'[1..], Some(text), segs);
    }
  }

  lemma PickBeats(t: Tree, segs: seq<string>, s': Shape)
    requires segs != [] && BestBelow(t, segs[1..]) && ShapeFits(s', segs) && Lookup(t, s') != []
    ensures Pick(t, segs).Some? && (s' == Pick(t, segs).value || Prefers(Pick(t, segs).value, s', segs))
  {
    ShapeFitsTail(s', segs);
    if s'[0].Some? {
      PickFixedBeats(t, s'[0].value, segs, s');
    } else {
      PickWildBeats(t, segs, s');
    }
    var s := Pick(t, segs).value;
    if s[0] != s'[0] {
      HeadsRanked(t, segs, s');
      assert PrefersAt(s, s', segs, 0);
    }
  }

  // A stored shape that starts wild is found, or beaten below the wild child, unless a fixed one comes first.
  lemma PickWildBeats(t: Tree, segs: seq<string>, s': Shape)
    requires segs != [] && t.wildCard.Some? && Best(t.wildCard.value, segs[1..]) && |s'| == |segs| && s'[0].None?
    requires Lookup(t.wildCard.value, s'[1..]) != [] && ShapeFits(s'[1..], segs[1..])
    ensures Pick(t, segs).Some?
    ensures Pick(t, segs).value[0].None? ==> s' == Pick(t, segs).value || Prefers(Pick(t, segs).value, s', segs)
  {
    assert s' == [None] + s'[1..];
    var below := Pick(t.wildCard.value, segs[1..]);
    assert below.Some?;
    if below.value != s'[1..] {
      PrefersBelow(below.value, s'[1..], None, segs);
    }
  }

  lemma HeadsRanked(t: Tree, segs: seq<string>, s': Shape)
    requires segs != [] && Pick(t, segs).Some? && |s'| == |segs| && PlaceFits(s'[0], segs[0])
    requires s'[0].Some? ==> PickFixed(t, s'[0].value, segs).Some?
    requires Pick(t, segs).value[0] != s'[0]
    ensures Rank(Pick(t, segs).value[0], segs[0]) < Rank(s'[0], segs[0])
  {
  }

  // ---- routes ----

  ghost predicate Fits(routes: seq<Route>, k: int, segs: seq<string>) {
    0 <= k < |routes| && ShapeFits(ShapeOf(routes[k].pattern), segs)
  }

  /** Route k is the one a scan selects: it fits, and every other route that fits is wild where k is fixed at
      their first difference, or fits only without the extension there, or has the same shape and came later. */
  ghost predicate Selected(routes: seq<Route>, segs: seq<string>, k: int) {
    Fits(routes, k, segs) && forall j | Fits(routes, j, segs) :: j == k || Beats(routes, segs, k, j)
  }

  ghost predicate Beats(routes: seq<Route>, segs: seq<string>, k: int, j: int)
    requires 0 <= k < |routes| && 0 <= j < |routes|
  {
    var a, b := ShapeOf(routes[k].pattern), ShapeOf(routes[j].pattern);
    Prefers(a, b, segs) || (a == b && k < j)
  }

  lemma PrefersIsStrict(a: Shape, b: Shape, segs: seq<string>)
    requires Prefers(a, b, segs)
    ensures a != b && !Prefers(b, a, segs)
  {
    var i :| 0 <= i < |segs| && PrefersAt(a, b, segs, i);
    forall j | 0 <= j < |segs| ensures !PrefersAt(b, a, segs, j) {
      SameSlices(a, b, i, j);
      SameSlices(a, b, j, i);
    }
  }

  lemma SameSlices(a: Shape, b: Shape, i: nat, j: nat)
    ensures i < j <= |a| && j <= |b| && a[..j] == b[..j] ==> a[i] == b[i]
  {
    if i < j <= |a| && j <= |b| {
      assert a[..j][i] == a[i] && b[..j][i] == b[i];
    }
  }

  lemma SelectedIsUnique(routes: seq<Route>, segs: seq<string>, j: int, k: int)
    requires Selected(routes, segs, j) && Selected(routes, segs, k)
    ensures j == k
  {
    if j != k {
      assert Beats(routes, segs, k, j) && Beats(routes, segs, j, k);
      var a, b := ShapeOf(routes[k].pattern), ShapeOf(routes[j].pattern);
      if Prefers(a, b, segs) {
        PrefersIsStrict(a, b, segs);
      }
    }
  }

  lemma {:induction false} NamesCount(p: Pattern)
    ensures |Names(p)| == WildCount(ShapeOf(p))
  {
    if p != [] {
      NamesCount(p[1..]);
      assert ShapeOf(p)[1..] == ShapeOf(p[1..]);
    }
  }

  lemma {:induction false} StoredComesFrom(routes: seq<Route>, s: Shape, l: Leaf) returns (k: int)
    requires l in Stored(routes, s)
    ensures 0 <= k < |routes| && ShapeOf(routes[k].pattern) == s
    ensures l == Leaf(Names(routes[k].pattern), None, routes[k].obj)
  {
    var n := |routes| - 1;
    if l in Stored(routes[..n], s) {
      k := StoredComesFrom(routes[..n], s, l);
    } else {
      k := n;
    }
  }

  // The first leaf of a shape belongs to the first route of that shape.
  lemma {:induction false} StoredFirst(routes: seq<Route>, s: Shape) returns (k: int)
    ensures 0 <= k <= |routes| && forall j | 0 <= j < k :: ShapeOf(routes[j].pattern) != s
    ensures k == |routes| ==> Stored(routes, s) == []
    ensures k < |routes| ==> ShapeOf(routes[k].pattern) == s && Stored(routes, s) != []
    ensures k < |routes| ==> Stored(routes, s)[0] == Leaf(Names(routes[k].pattern), None, routes[k].obj)
  {
    if routes == [] {
      k := 0;
    } else {
      var n := |routes| - 1;
      k := StoredFirst(routes[..n], s);
      assert forall j | 0 <= j < n :: routes[..n][j] == routes[j];
      if k == n && ShapeOf(routes[n].pattern) != s {
        k := |routes|;
      }
    }
  }

  ghost predicate PlainRoutes(routes: seq<Route>) {
    forall r | r in routes :: PlainNames(Names(r.pattern))
  }

  lemma BuildCounted(routes: seq<Route>)
    requires PlainRoutes(routes)
    ensures Counted(Build(routes), 0)
  {
    forall s, l | l in Lookup(Build(routes), s) ensures CountedLeaf(l, WildCount(s)) {
      BuildLookup(routes, s);
      var k := StoredComesFrom(routes, s, l);
      assert routes[k] in routes;
      NamesCount(routes[k].pattern);
    }
  }

  // What the scan returns for route k.
  ghost function ScanResult(routes: seq<Route>, segs: seq<string>, k: int, ps: Params): Result
    requires Fits(routes, k, segs)
  {
    var p := routes[k].pattern;
    NamesCount(p);
    Result(Some(routes[k].obj),
           SetExtensions(Bind(ps, Names(p), WildValues(ShapeOf(p), segs)), ShapeOf(p), segs))
  }

  ghost predicate ScanAnswers(routes: seq<Route>, segs: seq<string>, k: int, ps: Params, r: Result) {
    Selected(routes, segs, k) && r == ScanResult(routes, segs, k, ps)
  }

  lemma NothingPicked(routes: seq<Route>, segs: seq<string>)
    requires Pick(Build(routes), segs).None?
    ensures forall k :: !Fits(routes, k, segs)
  {
    PickIsPreferred(Build(routes), segs);
    forall k ensures !Fits(routes, k, segs) {
      if Fits(routes, k, segs) {
        RouteIsStored(routes, k);
      }
    }
  }

  lemma PickedIsSelected(routes: seq<Route>, segs: seq<string>) returns (k: int)
    requires Pick(Build(routes), segs).Some?
    ensures Selected(routes, segs, k) && ShapeOf(routes[k].pattern) == Pick(Build(routes), segs).value
    ensures Lookup(Build(routes), Pick(Build(routes), segs).value)[0]
      == Leaf(Names(routes[k].pattern), None, routes[k].obj)
  {
    var s := Pick(Build(routes), segs).value;
    PickIsPreferred(Build(routes), segs);
    BuildLookup(routes, s);
    k := StoredFirst(routes, s);
    forall j | Fits(routes, j, segs) ensures j == k || Beats(routes, segs, k, j) {
      RouteIsStored(routes, j);
    }
  }

  /** Match on a tree built from plain patterns answers like a scan of the patterns, for every path: it fails
      exactly when none fits, and otherwise returns the selected route, binds its names and sets :ext. */
  lemma MatchIsScan(other: LeafMatcher, routes: seq<Route>, path: string, ps: Params)
    requires PlainRoutes(routes) && path != [] && path[0] == '/'
    ensures var segs, r := PathSegments(path), Match(PlainMatcher(other), Build(routes), path, ps);
      && (r.found.None? ==> r.params == ps && forall k :: !Fits(routes, k, segs))
      && (r.found.Some? ==> exists k :: ScanAnswers(routes, segs, k, ps, r))
  {
    var t, segs := Build(routes), PathSegments(path);
    BuildUnique(routes);
    BuildCounted(routes);
    MatchPicks(other, t, path[1..], path, [], ps);
    if Pick(t, segs).None? {
      NothingPicked(routes, segs);
    } else {
      PickedAnswers(other, routes, path, ps);
    }
  }

  lemma PickedAnswers(other: LeafMatcher, routes: seq<Route>, path: string, ps: Params)
    requires PlainRoutes(routes) && path != [] && path[0] == '/'
    requires Pick(Build(routes), PathSegments(path)).Some?
    ensures exists k ::
      ScanAnswers(routes, PathSegments(path), k, ps, Match(PlainMatcher(other), Build(routes), path, ps))
  {
    var t, segs := Build(routes), PathSegments(path);
    BuildUnique(routes);
    BuildCounted(routes);
    MatchPicks(other, t, path[1..], path, [], ps);
    var k := PickedIsSelected(routes, segs);
    var s := Pick(t, segs).value;
    assert [] + WildValues(s, segs) == WildValues(s, segs);
    assert ScanAnswers(routes, segs, k, ps, Match(PlainMatcher(other), t, path, ps));
  }

  lemma RouteIsStored(routes: seq<Route>, k: int)
    requires 0 <= k < |routes|
    ensures Lookup(Build(routes), ShapeOf(routes[k].pattern)) != []
  {
    BuildLookup(routes, ShapeOf(routes[k].pattern));
    var j := StoredFirst(routes, ShapeOf(routes[k].pattern));
  }

  // ---- binding ----

  lemma {:induction false} BindOthers(ps: Params, names: seq<string>, values: seq<string>, n: string)
    requires |names| <= |values| && n !in names
    ensures (n in Bind(ps, names, values) <==> n in ps) && (n in ps ==> Bind(ps, names, values)[n] == ps[n])
    decreases names
  {
    if names != [] {
      BindOthers(ps[names[0] := values[0]], names[1..], values[1..], n);
    }
  }

  lemma {:induction false} BindEach(ps: Params, names: seq<string>, values: seq<string>, i: nat)
    requires |names| <= |values| && i < |names| && forall j | i < j < |names| :: names[j] != names[i]
    ensures names[i] in Bind(ps, names, values) && Bind(ps, names, values)[names[i]] == values[i]
    decreases names
  {
    if i == 0 {
      BindOthers(ps[names[0] := values[0]], names[1..], values[1..], names[0]);
    } else {
      BindEach(ps[names[0] := values[0]], names[1..], values[1..], i - 1);
    }
  }

  /** Each name of a pattern is bound to its own segment of the path; of two places with one name
      the later wins. */
  lemma {:induction false} BindsOwnSegment(ps: Params, p: Pattern, segs: seq<string>, i: nat)
    requires |p| == |segs| && i < |p| && p[i].Wild? && p[i].name !in Names(p[i + 1..])
    ensures |Names(p)| == |WildValues(ShapeOf(p), segs)|
    ensures var r := Bind(ps, Names(p), WildValues(ShapeOf(p), segs)); p[i].name in r && r[p[i].name] == segs[i]
    decreases |p|
  {
    NamesCount(p);
    assert ShapeOf(p)[1..] == ShapeOf(p[1..]);
    NamesCount(p[1..]);
    if i == 0 {
      BindOthers(ps[p[0].name := segs[0]], Names(p[1..]), WildValues(ShapeOf(p[1..]), segs[1..]), p[0].name);
    } else {
      assert p[1..][i..] == p[i + 1..];
      if p[0].Wild? {
        BindsOwnSegment(ps[p[0].name := segs[0]], p[1..], segs[1..], i - 1);
      } else {
        assert Names(p) == Names(p[1..]) && WildValues(ShapeOf(p), segs) == WildValues(ShapeOf(p[1..]), segs[1..]);
        BindsOwnSegment(ps, p[1..], segs[1..], i - 1);
      }
    }
  }

  lemma {:induction false} ExtensionsKeepNames(ps: Params, s: Shape, segs: seq<string>, n: string)
    requires |s| == |segs| && n != ":ext"
    ensures (n in SetExtensions(ps, s, segs) <==> n in ps) && (n in ps ==> SetExtensions(ps, s, segs)[n] == ps[n])
  {
    if s != [] {
      ExtensionsKeepNames(ps, s[1..], segs[1..], n);
    }
  }

  /** The same of what a scan returns. */
  lemma ScanBinds(routes: seq<Route>, segs: seq<string>, k: int, ps: Params, i: nat)
    requires Fits(routes, k, segs) && i < |segs|
    requires var p := routes[k].pattern; p[i].Wild? && p[i].name !in Names(p[i + 1..]) && p[i].name != ":ext"
    ensures var n := routes[k].pattern[i].name;
      n in ScanResult(routes, segs, k, ps).params && ScanResult(routes, segs, k, ps).params[n] == segs[i]
  {
    var p := routes[k].pattern;
    BindsOwnSegment(ps, p, segs, i);
    ExtensionsKeepNames(Bind(ps, Names(p), WildValues(ShapeOf(p), segs)), ShapeOf(p), segs, p[i].name);
  }
}
