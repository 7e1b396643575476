/** Mounting: AddTree under a static prefix, as AddNamespace does, with filterTreeWithPrefix. */
module RouteMount {
  import opened Wrappers
  import opened RouteTree
  import opened RouteParams
  import opened RouteTheorems
  import opened RouteSegments

  // ---- filterTreeWithPrefix ----

  const ANCHORS: set<char> := {'^', '$'}

  // A compiled expression is taken apart and anchored again.
  function Reanchored(r: string): string {
    "^" + Trim(r, ANCHORS) + "$"
  }

  // filterTreeWithPrefix for a prefix without parameters.
  function Filtered(t: Tree): Tree {
    Tree(t.prefix,
         seq(|t.fixRouters|, i requires 0 <= i < |t.fixRouters| => Filtered(t.fixRouters[i])),
         if t.wildCard.Some? then Some(Filtered(t.wildCard.value)) else None,
         FilteredLeaves(t.leaves))
  }

  function FilteredLeaves(leaves: seq<Leaf>): (r: seq<Leaf>)
    ensures |r| == |leaves|
    ensures forall i | 0 <= i < |leaves| :: r[i] == FilteredLeaf(leaves[i])
  {
    seq(|leaves|, i requires 0 <= i < |leaves| => FilteredLeaf(leaves[i]))
  }

  function FilteredLeaf(l: Leaf): Leaf {
    if l.regexp.Some? then l.(regexp := Some(Reanchored(l.regexp.value))) else l
  }

  // Every expression of the tree is its own re-anchored form.
  ghost predicate AnchorsStay(t: Tree) {
    && (forall c | c in t.fixRouters :: AnchorsStay(c))
    && (t.wildCard.Some? ==> AnchorsStay(t.wildCard.value))
    && (forall l | l in t.leaves :: l.regexp.Some? ==> Reanchored(l.regexp.value) == l.regexp.value)
  }

  /** Mounting changes the tree exactly when some expression has an anchor of its own at an end. */
  lemma {:induction false} FilteredIsSameIff(t: Tree)
    ensures Filtered(t) == t <==> AnchorsStay(t)
  {
    var f := Filtered(t);
    forall i | 0 <= i < |t.fixRouters|
      ensures Filtered(t.fixRouters[i]) == t.fixRouters[i] <==> AnchorsStay(t.fixRouters[i])
    {
      FilteredIsSameIff(t.fixRouters[i]);
    }
    if t.wildCard.Some? {
      FilteredIsSameIff(t.wildCard.value);
    }
    if AnchorsStay(t) {
      assert forall i | 0 <= i < |t.fixRouters| ::
        t.fixRouters[i] in t.fixRouters && f.fixRouters[i] == t.fixRouters[i];
      assert forall i | 0 <= i < |t.leaves| :: t.leaves[i] in t.leaves && f.leaves[i] == t.leaves[i];
      assert f.fixRouters == t.fixRouters && f.leaves == t.leaves;
    }
    if f == t {
      assert forall i | 0 <= i < |t.fixRouters| :: f.fixRouters[i] == t.fixRouters[i];
      assert forall i | 0 <= i < |t.leaves| :: f.leaves[i] == t.leaves[i];
    }
  }

  /** An expression as addSeg compiles it survives exactly when it has no anchor at an end. */
  lemma ReanchoredIff(reg: string)
    requires reg != []
    ensures Reanchored("^" + reg + "$") == "^" + reg + "$" <==> reg[0] !in ANCHORS && reg[|reg| - 1] !in ANCHORS
  {
    var r, inner := "^" + reg + "$", Trim("^" + reg + "$", ANCHORS);
    assert r[1..] == reg + "$";
    if reg[0] !in ANCHORS && reg[|reg| - 1] !in ANCHORS {
      assert (reg + "$")[..|reg|] == reg;
      assert TrimLeft(r, ANCHORS) == reg + "$";
      assert TrimRight(reg, ANCHORS) == reg;
      assert TrimRight(reg + "$", ANCHORS) == TrimRight((reg + "$")[..|reg|], ANCHORS);
    }
    if Reanchored(r) == r {
      assert inner == ("^" + inner + "$")[1..|inner| + 1] && reg == r[1..|reg| + 1];
      assert |Reanchored(r)| == |inner| + 2 && |r| == |reg| + 2;
    }
  }

  // ---- AddTree ----

  // addTree for static segments: each becomes a new child, the last one is the mounted tree.
  function AddSegments(t: Tree, segs: seq<string>, tree: Tree): (r: Tree)
    requires segs != []
    ensures r.prefix == t.prefix && r.wildCard == t.wildCard && r.leaves == t.leaves
    ensures |r.fixRouters| == |t.fixRouters| + 1 && r.fixRouters[|t.fixRouters|].prefix == segs[0]
    decreases |segs|
  {
    var sub := if |segs| == 1 then Filtered(tree).(prefix := segs[0])
               else AddSegments(NEW_TREE.(prefix := segs[0]), segs[1..], tree);
    t.(fixRouters := t.fixRouters + [sub])
  }

  // AddTree; None stands for the panic on a prefix without path.
  function AddTree(t: Tree, prefix: string, tree: Tree): Option<Tree> {
    var segs := SplitPath(prefix);
    if segs == [] then None else Some(AddSegments(t, segs, tree))
  }

  // ---- a node's own prefix does not matter to it ----

  lemma {:induction false} FixedIgnoresPrefix(lm: LeafMatcher, t: Tree, x: string, i: nat, seg: string, rest: string,
                                              vs: seq<string>, ps: Params)
    requires i <= |t.fixRouters|
    ensures TryFixed(lm, t.(prefix := x), i, seg, rest, vs, ps) == TryFixed(lm, t, i, seg, rest, vs, ps)
    decreases |t.fixRouters| - i
  {
    if i < |t.fixRouters| {
      FixedIgnoresPrefix(lm, t, x, i + 1, seg, rest, vs, ps);
      var r := MatchNode(lm, t.fixRouters[i], Below(rest), rest, vs, ps);
      FixedIgnoresPrefix(lm, t, x, i + 1, seg, rest, vs, r.params);
    }
  }

  lemma {:induction false} ExtensionIgnoresPrefix(lm: LeafMatcher, t: Tree, x: string, i: nat, seg: string, ext: string,
                                                  tp: string, rest: string, vs: seq<string>, sofar: Result)
    requires i <= |t.fixRouters| && ext != []
    ensures TryExtension(lm, t.(prefix := x), i, seg, ext, tp, rest, vs, sofar)
      == TryExtension(lm, t, i, seg, ext, tp, rest, vs, sofar)
    decreases |t.fixRouters| - i
  {
    if i < |t.fixRouters| {
      ExtensionIgnoresPrefix(lm, t, x, i + 1, seg, ext, tp, rest, vs, sofar);
      var r := MatchNode(lm, t.fixRouters[i], tp, rest, vs, sofar.params);
      var r' := if r.found.Some? then Result(r.found, r.params[":ext" := ext[1..]]) else r;
      ExtensionIgnoresPrefix(lm, t, x, i + 1, seg, ext, tp, rest, vs, r');
    }
  }

  lemma {:induction false} ExtensionsIgnorePrefix(lm: LeafMatcher, t: Tree, x: string, k: nat, seg: string, tp: string,
                                                  rest: string, vs: seq<string>, sofar: Result)
    requires k <= |EXTENSIONS|
    ensures TryExtensions(lm, t.(prefix := x), k, seg, tp, rest, vs, sofar)
      == TryExtensions(lm, t, k, seg, tp, rest, vs, sofar)
    decreases |EXTENSIONS| - k
  {
    if k < |EXTENSIONS| {
      ExtensionIgnoresPrefix(lm, t, x, 0, seg, EXTENSIONS[k], tp, rest, vs, sofar);
      var r := if HasSuffix(seg, EXTENSIONS[k])
               then TryExtension(lm, t, 0, seg, EXTENSIONS[k], tp, rest, vs, sofar) else sofar;
      ExtensionsIgnorePrefix(lm, t, x, k + 1, seg, tp, rest, vs, r);
    }
  }

  lemma NodeIgnoresPrefix(lm: LeafMatcher, t: Tree, x: string, tp: string, pattern: string, vs: seq<string>, ps: Params)
    ensures MatchNode(lm, t.(prefix := x), tp, pattern, vs, ps) == MatchNode(lm, t, tp, pattern, vs, ps)
  {
    var p := SkipSlashes(pattern);
    if p != [] {
      var seg := FirstSegment(p);
      var rest := p[|seg|..];
      var tp' := if HasChild(t, seg) then Below(rest) else tp;
      FixedIgnoresPrefix(lm, t, x, 0, seg, rest, vs, ps);
      ExtensionsIgnorePrefix(lm, t, x, 0, seg, tp', rest, vs, TryFixed(lm, t, 0, seg, rest, vs, ps));
    }
  }

  // ---- an only child answers for its parent ----

  lemma {:induction false} NoExtensionChild(lm: LeafMatcher, t: Tree, k: nat, seg: string, tp: string, rest: string,
                                            vs: seq<string>, sofar: Result)
    requires k <= |EXTENSIONS| && forall c | c in t.fixRouters :: c.prefix == seg
    ensures TryExtensions(lm, t, k, seg, tp, rest, vs, sofar) == sofar
    decreases |EXTENSIONS| - k
  {
    if k < |EXTENSIONS| {
      forall j | 0 <= j < |t.fixRouters| ensures t.fixRouters[j].prefix + EXTENSIONS[k] != seg {
        assert t.fixRouters[j] in t.fixRouters;
        assert |t.fixRouters[j].prefix + EXTENSIONS[k]| > |seg|;
      }
      ExtensionSkips(lm, t, 0, seg, EXTENSIONS[k], tp, rest, vs, sofar);
      NoExtensionChild(lm, t, k + 1, seg, tp, rest, vs, sofar);
    }
  }

  lemma OnlyChildAnswers(lm: LeafMatcher, t: Tree, c: Tree, tp: string, seg: string, rest: string, vs: seq<string>,
                         ps: Params)
    requires t.fixRouters == [c] && t.wildCard.None? && t.leaves == [] && c.prefix == seg
    ensures MatchSegment(lm, t, tp, seg, rest, vs, ps) == MatchNode(lm, c, Below(rest), rest, vs, ps)
  {
    var r := MatchNode(lm, c, Below(rest), rest, vs, ps);
    assert c in t.fixRouters;
    assert TryFixed(lm, t, 1, seg, rest, vs, r.params) == Result(None, r.params);
    assert TryFixed(lm, t, 0, seg, rest, vs, ps) == r;
    NoExtensionChild(lm, t, 0, seg, Below(rest), rest, vs, r);
  }

  lemma SkipOneSlash(q: string)
    requires q != [] && q[0] != '/'
    ensures SkipSlashes(['/'] + q) == q
  {
    assert (['/'] + q)[1..] == q;
  }

  lemma PathHead(segs: seq<string>, p: string)
    requires segs != [] && Static(segs[0]) && p != [] && p[0] == '/'
    ensures var q := segs[0] + (PathOf(segs[1..]) + p);
      SkipSlashes(PathOf(segs) + p) == q && FirstSegment(q) == segs[0] && q[|segs[0]|..] == PathOf(segs[1..]) + p
  {
    var rest := PathOf(segs[1..]) + p;
    PathOfSplit(segs, p);
    NotSlash(segs[0], rest);
    SkipOneSlash(segs[0] + rest);
    SegmentThenRest(segs[0], rest);
  }

  lemma PathOfSplit(segs: seq<string>, p: string)
    requires segs != []
    ensures PathOf(segs) + p == ['/'] + (segs[0] + (PathOf(segs[1..]) + p))
    ensures p != [] && p[0] == '/' ==> (PathOf(segs[1..]) + p)[0] == '/'
  {
  }

  lemma NotSlash(seg: string, rest: string)
    requires seg != [] && '/' !in seg
    ensures seg + rest != [] && (seg + rest)[0] != '/'
    ensures (seg + rest)[|seg|..] == rest
  {
    assert seg[0] in seg;
  }

  lemma {:induction false} MountedNode(lm: LeafMatcher, t: Tree, segs: seq<string>, tree: Tree, tp: string, p: string,
                                       vs: seq<string>, ps: Params)
    requires t.fixRouters == [] && t.wildCard.None? && t.leaves == []
    requires segs != [] && (forall g | g in segs :: Static(g)) && p != [] && p[0] == '/'
    ensures MatchNode(lm, AddSegments(t, segs, tree), tp, PathOf(segs) + p, vs, ps)
      == MatchNode(lm, Filtered(tree), p[1..], p, vs, ps)
    decreases |segs|
  {
    var m, path := AddSegments(t, segs, tree), PathOf(segs) + p;
    var seg, rest := segs[0], PathOf(segs[1..]) + p;
    PathHead(segs, p);
    var c := m.fixRouters[0];
    assert m.fixRouters == [c];
    OnlyChildAnswers(lm, m, c, tp, seg, rest, vs, ps);
    if |segs| == 1 {
      assert segs[1..] == [] && rest == p;
      NodeIgnoresPrefix(lm, Filtered(tree), seg, p[1..], p, vs, ps);
    } else {
      MountedNode(lm, NEW_TREE.(prefix := seg), segs[1..], tree, Below(rest), p, vs, ps);
    }
  }

  /** A tree mounted under a static prefix in a new tree routes prefix + p exactly as the tree with its
      expressions anchored again routes p, with the same object and the same parameters, whatever its leaves do. */
  lemma MountRoutes(lm: LeafMatcher, segs: seq<string>, tree: Tree, p: string, ps: Params)
    requires segs != [] && (forall g | g in segs :: Static(g)) && p != [] && p[0] == '/'
    ensures var mounted := AddTree(NEW_TREE, PathOf(segs), tree);
      mounted.Some? && Match(lm, mounted.value, PathOf(segs) + p, ps) == Match(lm, Filtered(tree), p, ps)
  {
    SplitPathOf(segs);
    MountedNode(lm, NEW_TREE, segs, tree, (PathOf(segs) + p)[1..], p, [], ps);
  }

  // ---- two trees under one prefix ----

  lemma OtherExtension(seg: string, j: nat, k: nat)
    requires j < |EXTENSIONS| && k < |EXTENSIONS| && j != k && HasSuffix(seg, EXTENSIONS[j])
    ensures !HasSuffix(seg, EXTENSIONS[k])
  {
    if j < k {
      OneExtension(seg, j, k);
    } else {
      OneExtensionBack(seg, k, j);
    }
  }

  // The outcome of a search that goes through two children in turn for one extension.
  function Twice(lm: LeafMatcher, a: Tree, b: Tree, ext: string, tp: string, rest: string, vs: seq<string>,
                 ps: Params): Result
    requires ext != []
  {
    var ra := WithExtension(MatchNode(lm, a, tp, rest, vs, ps), ext);
    WithExtension(MatchNode(lm, b, tp, rest, vs, ra.params), ext)
  }

  lemma TwoChildren(lm: LeafMatcher, t: Tree, g: string, ext: string, tp: string, rest: string, vs: seq<string>,
                    ps: Params)
    requires |t.fixRouters| == 2 && t.fixRouters[0].prefix == t.fixRouters[1].prefix == g && ext != []
    ensures TryExtension(lm, t, 0, g + ext, ext, tp, rest, vs, Result(None, ps))
      == Twice(lm, t.fixRouters[0], t.fixRouters[1], ext, tp, rest, vs, ps)
  {
    var a, b := t.fixRouters[0], t.fixRouters[1];
    var ra := WithExtension(MatchNode(lm, a, tp, rest, vs, ps), ext);
    var rb := WithExtension(MatchNode(lm, b, tp, rest, vs, ra.params), ext);
    assert TryExtension(lm, t, 2, g + ext, ext, tp, rest, vs, rb) == rb;
    assert TryExtension(lm, t, 1, g + ext, ext, tp, rest, vs, ra) == rb;
  }

  lemma {:induction false} TwoChildrenExtensions(lm: LeafMatcher, t: Tree, g: string, j: nat, k: nat, tp: string,
                                                 rest: string, vs: seq<string>, ps: Params)
    requires |t.fixRouters| == 2 && t.fixRouters[0].prefix == t.fixRouters[1].prefix == g
    requires j <= k < |EXTENSIONS|
    ensures TryExtensions(lm, t, j, g + EXTENSIONS[k], tp, rest, vs, Result(None, ps))
      == Twice(lm, t.fixRouters[0], t.fixRouters[1], EXTENSIONS[k], tp, rest, vs, ps)
    decreases k - j
  {
    var ext := EXTENSIONS[k];
    var seg := g + ext;
    assert HasSuffix(seg, ext);
    if j < k {
      OtherExtension(seg, k, j);
      TwoChildrenExtensions(lm, t, g, j + 1, k, tp, rest, vs, ps);
    } else {
      TwoChildren(lm, t, g, ext, tp, rest, vs, ps);
      forall i | k < i < |EXTENSIONS| ensures !HasSuffix(seg, EXTENSIONS[i]) {
        OtherExtension(seg, k, i);
      }
      var r := Twice(lm, t.fixRouters[0], t.fixRouters[1], ext, tp, rest, vs, ps);
      ExtensionsInert(lm, t, k + 1, seg, tp, rest, vs, r);
    }
  }

  // AddTree twice with the same one-segment prefix.
  function TwiceMounted(g: string, a: Tree, b: Tree): Tree {
    AddSegments(AddSegments(NEW_TREE, [g], a), [g], b)
  }

  lemma TwiceSegment(lm: LeafMatcher, g: string, a: Tree, b: Tree, k: nat, tp: string, rest: string, ps: Params)
    requires Static(g) && k < |EXTENSIONS|
    ensures MatchSegment(lm, TwiceMounted(g, a, b), tp, g + EXTENSIONS[k], rest, [], ps)
      == Twice(lm, Filtered(a).(prefix := g), Filtered(b).(prefix := g), EXTENSIONS[k], tp, rest, [], ps)
  {
    var t, seg := TwiceMounted(g, a, b), g + EXTENSIONS[k];
    assert t.fixRouters == [Filtered(a).(prefix := g), Filtered(b).(prefix := g)];
    assert |seg| > |g|;
    assert TryFixed(lm, t, 2, seg, rest, [], ps) == Result(None, ps);
    assert TryFixed(lm, t, 1, seg, rest, [], ps) == Result(None, ps);
    assert TryFixed(lm, t, 0, seg, rest, [], ps) == Result(None, ps);
    assert !HasChild(t, seg);
    TwoChildrenExtensions(lm, t, g, 0, k, tp, rest, [], ps);
  }

  // The path of a segment and what follows it.
  lemma SegmentPath(seg: string, rest: string)
    requires seg != [] && '/' !in seg && (rest == [] || rest[0] == '/')
    ensures var p := seg + rest;
      SkipSlashes(['/'] + p) == p && p != [] && FirstSegment(p) == seg && p[|seg|..] == rest
  {
    NotSlash(seg, rest);
    SkipOneSlash(seg + rest);
    SegmentThenRest(seg, rest);
  }

  lemma ExtensionHasNoSlash(k: nat)
    requires k < |EXTENSIONS|
    ensures '/' !in EXTENSIONS[k]
  {
    assert EXTENSIONS[0] == ".json" && EXTENSIONS[1] == ".xml" && EXTENSIONS[2] == ".html";
  }

  /** Two trees under one prefix, whatever they hold: behind an extension the second alone decides. A page that the
      first has is lost exactly when the second has none, and :ext then stays set although nothing matched. */
  lemma SecondTreeDecides(lm: LeafMatcher, g: string, a: Tree, b: Tree, k: nat, rest: string, ps: Params)
    requires Static(g) && k < |EXTENSIONS| && (rest == [] || rest[0] == '/')
    ensures var path, ext := ['/'] + (g + EXTENSIONS[k] + rest), EXTENSIONS[k];
      var r := Match(lm, TwiceMounted(g, a, b), path, ps);
      var ra := MatchNode(lm, Filtered(a), path[1..], rest, [], ps);
      var rb := MatchNode(lm, Filtered(b), path[1..], rest, [], WithExtension(ra, ext).params);
      && r == WithExtension(rb, ext)
      && (ra.found.Some? ==> (r.found.None? <==> rb.found.None?))
      && (ra.found.Some? && rb.found.None? && FailsCleanly(lm) && UniquePrefixes(Filtered(b)) ==>
            r == Result(None, ra.params[":ext" := ext[1..]]))
  {
    var ext := EXTENSIONS[k];
    var seg := g + ext;
    var path := ['/'] + (seg + rest);
    ExtensionHasNoSlash(k);
    SegmentPath(seg, rest);
    assert path[1..] == seg + rest;
    TwiceSegment(lm, g, a, b, k, path[1..], rest, ps);
    var ra := MatchNode(lm, Filtered(a), path[1..], rest, [], ps);
    NodeIgnoresPrefix(lm, Filtered(a), g, path[1..], rest, [], ps);
    NodeIgnoresPrefix(lm, Filtered(b), g, path[1..], rest, [], WithExtension(ra, ext).params);
    if FailsCleanly(lm) && UniquePrefixes(Filtered(b)) {
      MatchClean(lm, Filtered(b), path[1..], rest, [], WithExtension(ra, ext).params);
    }
  }

  const PAGE := Tree("", [], None, [Leaf([], None, 1)])

  /** One such pair: a page and an empty tree. */
  lemma DuplicatePrefixLosesPage(other: LeafMatcher, g: string, ps: Params)
    requires Static(g)
    ensures MatchSegment(PlainMatcher(other), TwiceMounted(g, PAGE, NEW_TREE), g, g, [], [], ps).found == Some(1)
    ensures Match(PlainMatcher(other), TwiceMounted(g, PAGE, NEW_TREE), ['/'] + (g + ".json"), ps)
      == Result(None, ps[":ext" := "json"])
    ensures !UniquePrefixes(TwiceMounted(g, PAGE, NEW_TREE))
  {
    var lm, t := PlainMatcher(other), TwiceMounted(g, PAGE, NEW_TREE);
    var path := ['/'] + (g + ".json");
    assert t.fixRouters[0].prefix == t.fixRouters[1].prefix == g;
    assert t.fixRouters[0].leaves == [Leaf([], None, 1)];
    assert TryFixed(lm, t, 0, g, [], [], ps) == Result(Some(1), ps);
    SecondTreeDecides(lm, g, PAGE, NEW_TREE, 0, [], ps);
    assert g + ".json" + [] == g + ".json" && ".json"[1..] == "json";
    assert Filtered(PAGE).leaves == [Leaf([], None, 1)] && Filtered(NEW_TREE) == NEW_TREE;
    assert MatchNode(lm, Filtered(PAGE), path[1..], [], [], ps) == Result(Some(1), ps);
  }
}
