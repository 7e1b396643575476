/** What mounting does to routing: nothing for tidy expressions, and a wider match for one that ends in an escaped
    dollar sign. */
module RouteAnchors {
  import opened Wrappers
  import opened Text
  import opened RouteTree
  import opened RouteTheorems
  import opened RouteSegments
  import opened RouteLeaves
  import opened RouteExpressions
  import opened RouteTexts
  import opened RouteMount

  // ---- matchers that ignore repeated anchors ----

  predicate Quantifier(c: char) { c in {'*', '+', '?', '{'} }

  // The matcher makes no difference between two expressions for a leaf.
  ghost predicate SameFor(lm: LeafMatcher, l: Leaf, a: string, b: string) {
    forall tp, vs, ps :: lm(l.(regexp := Some(a)), tp, vs, ps) == lm(l.(regexp := Some(b)), tp, vs, ps)
  }

  ghost predicate FrontOk(lm: LeafMatcher, l: Leaf, u: string) {
    u == [] || !Quantifier(u[0]) ==> SameFor(lm, l, "^^" + u, "^" + u)
  }

  ghost predicate BackOk(lm: LeafMatcher, l: Leaf, u: string) {
    !Dangling(u) ==> SameFor(lm, l, u + "$$", u + "$")
  }

  /** A second ^ at the front and a second $ at the back, unless quantified or escaped, change nothing. */
  ghost predicate IgnoresRepeats(lm: LeafMatcher) {
    forall l, u :: FrontOk(lm, l, u) && BackOk(lm, l, u)
  }

  /** The engine is such a matcher, and so is leafInfo.match with it. */
  lemma EngineIgnoresRepeats()
    ensures IgnoresRepeats(Engine()) && IgnoresRepeats(PlainMatcher(Engine()))
  {
    forall l: Leaf, u: string
      ensures FrontOk(Engine(), l, u) && BackOk(Engine(), l, u)
      ensures FrontOk(PlainMatcher(Engine()), l, u) && BackOk(PlainMatcher(Engine()), l, u)
    {
      forall vs: seq<string> ensures Find("^^" + u, PathJoin(vs)) == Find("^" + u, PathJoin(vs)) {
        FindIgnoresBegin(u, PathJoin(vs));
      }
      forall vs: seq<string> ensures !Dangling(u) ==> Find(u + "$$", PathJoin(vs)) == Find(u + "$", PathJoin(vs)) {
        if !Dangling(u) {
          FindIgnoresEnd(u, PathJoin(vs));
        }
      }
    }
  }

  // ---- tidy expressions ----

  function Times(c: char, n: nat): string {
    if n == 0 then [] else Times(c, n - 1) + [c]
  }

  // An expression with its anchors around a core that has none at its ends.
  function Anchored(m: nat, x: string, n: nat): string {
    Times('^', m) + x + Times('$', n)
  }

  ghost predicate TidyAs(r: string, m: nat, x: string, n: nat) {
    && r == Anchored(m, x, n) && m >= 1 && n >= 1
    && (x != [] ==> x[0] !in ANCHORS && x[|x| - 1] !in ANCHORS)
    && (m > 1 && x != [] ==> !Quantifier(x[0])) && (n > 1 ==> !Dangling(Times('^', m) + x))
  }

  // Only ^ at the front and $ at the back, where repeated ones are not quantified and not escaped.
  ghost predicate Tidy(r: string) {
    exists m: nat, x: string, n: nat :: TidyAs(r, m, x, n)
  }

  lemma {:induction false} TimesFront(c: char, n: nat)
    ensures |Times(c, n)| == n && forall i | 0 <= i < n :: Times(c, n)[i] == c
    ensures n > 0 ==> Times(c, n) == [c] + Times(c, n - 1)
  {
    if n > 0 {
      TimesFront(c, n - 1);
    }
  }

  lemma {:induction false} TrimLeftTimes(m: nat, y: string)
    requires y == [] || y[0] !in ANCHORS
    ensures TrimLeft(Times('^', m) + y, ANCHORS) == y
  {
    if m == 0 {
      assert Times('^', 0) + y == y;
    } else {
      TimesFront('^', m);
      assert (Times('^', m) + y)[1..] == Times('^', m - 1) + y;
      TrimLeftTimes(m - 1, y);
    }
  }

  lemma {:induction false} TrimRightTimes(x: string, n: nat)
    requires x == [] || x[|x| - 1] !in ANCHORS
    ensures TrimRight(x + Times('$', n), ANCHORS) == x
  {
    if n == 0 {
      assert x + Times('$', 0) == x;
    } else {
      var y := x + Times('$', n);
      assert y[..|y| - 1] == x + Times('$', n - 1);
      TrimRightTimes(x, n - 1);
    }
  }

  lemma {:induction false} TrimLeftDollars(n: nat)
    ensures TrimLeft(Times('$', n), ANCHORS) == []
  {
    if n > 0 {
      TimesFront('$', n);
      assert Times('$', n)[1..] == Times('$', n - 1);
      TrimLeftDollars(n - 1);
    }
  }

  lemma {:induction false} TrimLeftBoth(m: nat, n: nat)
    ensures TrimLeft(Times('^', m) + Times('$', n), ANCHORS) == []
  {
    if m == 0 {
      assert Times('^', 0) + Times('$', n) == Times('$', n);
      TrimLeftDollars(n);
    } else {
      TimesFront('^', m);
      assert (Times('^', m) + Times('$', n))[1..] == Times('^', m - 1) + Times('$', n);
      TrimLeftBoth(m - 1, n);
    }
  }

  // Mounting leaves one anchor at each end.
  lemma TidyReanchored(r: string, m: nat, x: string, n: nat)
    requires TidyAs(r, m, x, n)
    ensures Reanchored(r) == Anchored(1, x, 1)
  {
    assert Times('^', 0) == [] && Times('$', 0) == [];
    assert Times('^', 1) == "^" && Times('$', 1) == "$";
    if x == [] {
      assert r == Times('^', m) + Times('$', n);
      TrimLeftBoth(m, n);
    } else {
      assert r == Times('^', m) + (x + Times('$', n));
      TrimLeftTimes(m, x + Times('$', n));
      TrimRightTimes(x, n);
    }
  }

  lemma {:induction false} DanglingAppend(u: string, c: char)
    requires !Dangling(u) && c != '\\'
    ensures !Dangling(u + [c])
    decreases |u|
  {
    if u == [] {
      assert (u + [c])[1..] == [];
    } else if u[0] == '\\' {
      assert (u + [c])[2..] == u[2..] + [c];
      DanglingAppend(u[2..], c);
    } else {
      assert (u + [c])[1..] == u[1..] + [c];
      DanglingAppend(u[1..], c);
    }
  }

  lemma {:induction false} DanglingTimes(u: string, n: nat)
    requires !Dangling(u)
    ensures !Dangling(u + Times('$', n))
  {
    if n == 0 {
      assert u + Times('$', 0) == u;
    } else {
      DanglingTimes(u, n - 1);
      DanglingAppend(u + Times('$', n - 1), '$');
      assert u + Times('$', n) == u + Times('$', n - 1) + ['$'];
    }
  }

  lemma {:induction false} FrontFolds(lm: LeafMatcher, l: Leaf, m: nat, y: string)
    requires IgnoresRepeats(lm) && m >= 1 && (m > 1 && y != [] ==> !Quantifier(y[0]))
    ensures SameFor(lm, l, Times('^', m) + y, "^" + y)
  {
    assert Times('^', 0) == [] && Times('^', 1) == "^";
    if m > 1 {
      var u := Times('^', m - 2) + y;
      TimesFront('^', m);
      TimesFront('^', m - 1);
      TimesFront('^', m - 2);
      assert Times('^', m) + y == "^^" + u && Times('^', m - 1) + y == "^" + u;
      assert FrontOk(lm, l, u);
      FrontFolds(lm, l, m - 1, y);
    }
  }

  lemma {:induction false} BackFolds(lm: LeafMatcher, l: Leaf, y: string, n: nat)
    requires IgnoresRepeats(lm) && n >= 1 && (n > 1 ==> !Dangling(y))
    ensures SameFor(lm, l, y + Times('$', n), y + "$")
  {
    assert Times('$', 0) == [] && Times('$', 1) == "$";
    if n > 1 {
      var u := y + Times('$', n - 2);
      assert Times('$', n) == Times('$', n - 2) + "$$" && Times('$', n - 1) == Times('$', n - 2) + "$";
      assert y + Times('$', n) == u + "$$" && y + Times('$', n - 1) == u + "$";
      DanglingTimes(y, n - 2);
      assert BackOk(lm, l, u);
      BackFolds(lm, l, y, n - 1);
    }
  }

  lemma TidySame(lm: LeafMatcher, l: Leaf, r: string)
    requires IgnoresRepeats(lm) && Tidy(r)
    ensures SameFor(lm, l, Reanchored(r), r)
  {
    var m: nat, x: string, n: nat :| TidyAs(r, m, x, n);
    TidyReanchored(r, m, x, n);
    assert Times('^', 0) == [] && Times('$', 0) == [];
    assert Times('^', 1) == "^" && Times('$', 1) == "$";
    var back := Times('^', m) + x;
    BackFolds(lm, l, back, n);
    assert back + Times('$', n) == r;
    assert back + "$" == Times('^', m) + (x + "$");
    FrontFolds(lm, l, m, x + "$");
    assert "^" + (x + "$") == Anchored(1, x, 1);
  }

  // ---- routing ----

  // The matcher makes no difference between the leaves of the tree and those of the mounted one.
  ghost predicate Alike(lm: LeafMatcher, t: Tree) {
    && (forall l | l in t.leaves :: AlikeLeaf(lm, l))
    && (forall c | c in t.fixRouters :: Alike(lm, c))
    && (t.wildCard.Some? ==> Alike(lm, t.wildCard.value))
  }

  ghost predicate AlikeLeaf(lm: LeafMatcher, l: Leaf) {
    forall tp, vs, ps :: lm(FilteredLeaf(l), tp, vs, ps) == lm(l, tp, vs, ps)
  }

  lemma {:induction false} LeavesRoute(lm: LeafMatcher, leaves: seq<Leaf>, tp: string, vs: seq<string>, ps: Params)
    requires forall l | l in leaves :: AlikeLeaf(lm, l)
    ensures TryLeaves(lm, FilteredLeaves(leaves), tp, vs, ps) == TryLeaves(lm, leaves, tp, vs, ps)
  {
    if leaves != [] {
      assert leaves[0] in leaves && AlikeLeaf(lm, leaves[0]);
      assert FilteredLeaves(leaves)[1..] == FilteredLeaves(leaves[1..]);
      LeavesRoute(lm, leaves[1..], tp, vs, lm(leaves[0], tp, vs, ps).1);
    }
  }

  lemma {:induction false} FixedRoutes(lm: LeafMatcher, t: Tree, i: nat, seg: string, rest: string, vs: seq<string>,
                                       ps: Params)
    requires Alike(lm, t) && i <= |t.fixRouters|
    ensures TryFixed(lm, Filtered(t), i, seg, rest, vs, ps) == TryFixed(lm, t, i, seg, rest, vs, ps)
    decreases t, |t.fixRouters| - i
  {
    if i < |t.fixRouters| {
      var c := t.fixRouters[i];
      assert c in t.fixRouters && Filtered(t).fixRouters[i] == Filtered(c);
      NodeRoutes(lm, c, Below(rest), rest, vs, ps);
      FixedRoutes(lm, t, i + 1, seg, rest, vs, MatchNode(lm, c, Below(rest), rest, vs, ps).params);
      FixedRoutes(lm, t, i + 1, seg, rest, vs, ps);
    }
  }

  lemma {:induction false} ExtensionRoutes(lm: LeafMatcher, t: Tree, i: nat, seg: string, ext: string, tp: string,
                                           rest: string, vs: seq<string>, sofar: Result)
    requires Alike(lm, t) && i <= |t.fixRouters| && ext != []
    ensures TryExtension(lm, Filtered(t), i, seg, ext, tp, rest, vs, sofar)
      == TryExtension(lm, t, i, seg, ext, tp, rest, vs, sofar)
    decreases t, |t.fixRouters| - i
  {
    if i < |t.fixRouters| {
      var c := t.fixRouters[i];
      assert c in t.fixRouters && Filtered(t).fixRouters[i] == Filtered(c);
      NodeRoutes(lm, c, tp, rest, vs, sofar.params);
      var r := WithExtension(MatchNode(lm, c, tp, rest, vs, sofar.params), ext);
      ExtensionRoutes(lm, t, i + 1, seg, ext, tp, rest, vs, r);
      ExtensionRoutes(lm, t, i + 1, seg, ext, tp, rest, vs, sofar);
    }
  }

  lemma {:induction false} ExtensionsRoute(lm: LeafMatcher, t: Tree, k: nat, seg: string, tp: string, rest: string,
                                           vs: seq<string>, sofar: Result)
    requires Alike(lm, t) && k <= |EXTENSIONS|
    ensures TryExtensions(lm, Filtered(t), k, seg, tp, rest, vs, sofar)
      == TryExtensions(lm, t, k, seg, tp, rest, vs, sofar)
    decreases t, |t.fixRouters| + 1, |EXTENSIONS| - k
  {
    if k < |EXTENSIONS| {
      ExtensionRoutes(lm, t, 0, seg, EXTENSIONS[k], tp, rest, vs, sofar);
      var r := TryExtension(lm, t, 0, seg, EXTENSIONS[k], tp, rest, vs, sofar);
      ExtensionsRoute(lm, t, k + 1, seg, tp, rest, vs, r);
      ExtensionsRoute(lm, t, k + 1, seg, tp, rest, vs, sofar);
    }
  }

  lemma FilteredChild(t: Tree, seg: string)
    ensures HasChild(Filtered(t), seg) <==> HasChild(t, seg)
  {
    var f := Filtered(t);
    if HasChild(t, seg) {
      var c :| c in t.fixRouters && c.prefix == seg;
      var i :| 0 <= i < |t.fixRouters| && t.fixRouters[i] == c;
      assert f.fixRouters[i] == Filtered(c) && f.fixRouters[i] in f.fixRouters;
    }
    if HasChild(f, seg) {
      var c :| c in f.fixRouters && c.prefix == seg;
      var i :| 0 <= i < |f.fixRouters| && f.fixRouters[i] == c;
      assert f.fixRouters[i] == Filtered(t.fixRouters[i]) && t.fixRouters[i] in t.fixRouters;
    }
  }

  lemma {:induction false} NodeRoutes(lm: LeafMatcher, t: Tree, tp: string, pattern: string, vs: seq<string>,
                                      ps: Params)
    requires Alike(lm, t)
    ensures MatchNode(lm, Filtered(t), tp, pattern, vs, ps) == MatchNode(lm, t, tp, pattern, vs, ps)
    decreases t, |t.fixRouters| + 3
  {
    var p := SkipSlashes(pattern);
    if p == [] {
      LeavesRoute(lm, t.leaves, tp, vs, ps);
      if t.wildCard.Some? {
        LeavesRoute(lm, t.wildCard.value.leaves, tp, vs, TryLeaves(lm, t.leaves, tp, vs, ps).params);
      }
    } else {
      var seg := FirstSegment(p);
      SegmentRoutes(lm, t, tp, seg, p[|seg|..], vs, ps);
    }
  }

  lemma {:induction false} SegmentRoutes(lm: LeafMatcher, t: Tree, tp: string, seg: string, rest: string,
                                         vs: seq<string>, ps: Params)
    requires Alike(lm, t)
    ensures MatchSegment(lm, Filtered(t), tp, seg, rest, vs, ps) == MatchSegment(lm, t, tp, seg, rest, vs, ps)
    decreases t, |t.fixRouters| + 2
  {
    FilteredChild(t, seg);
    var tp' := if HasChild(t, seg) then Below(rest) else tp;
    FixedRoutes(lm, t, 0, seg, rest, vs, ps);
    var fixed := TryFixed(lm, t, 0, seg, rest, vs, ps);
    ExtensionsRoute(lm, t, 0, seg, tp', rest, vs, fixed);
    var ext := if fixed.found.None? then TryExtensions(lm, t, 0, seg, tp', rest, vs, fixed) else fixed;
    if t.wildCard.Some? {
      NodeRoutes(lm, t.wildCard.value, tp', rest, vs + [seg], ext.params);
    }
    var wild := if ext.found.None? && t.wildCard.Some?
                then MatchNode(lm, t.wildCard.value, tp', rest, vs + [seg], ext.params) else ext;
    LeavesRoute(lm, t.leaves, tp', AllValues(vs, seg, rest), wild.params);
  }

  // Every expression of the tree is tidy.
  ghost predicate TidyTree(t: Tree) {
    && (forall l | l in t.leaves :: l.regexp.Some? ==> Tidy(l.regexp.value))
    && (forall c | c in t.fixRouters :: TidyTree(c))
    && (t.wildCard.Some? ==> TidyTree(t.wildCard.value))
  }

  lemma {:induction false} TidyIsAlike(lm: LeafMatcher, t: Tree)
    requires IgnoresRepeats(lm) && TidyTree(t)
    ensures Alike(lm, t)
  {
    forall l | l in t.leaves ensures AlikeLeaf(lm, l) {
      if l.regexp.Some? {
        TidySame(lm, l, l.regexp.value);
        assert l == l.(regexp := Some(l.regexp.value));
        forall tp, vs, ps ensures lm(FilteredLeaf(l), tp, vs, ps) == lm(l, tp, vs, ps) {
          assert lm(l.(regexp := Some(Reanchored(l.regexp.value))), tp, vs, ps) == lm(l, tp, vs, ps);
        }
      }
    }
    forall c | c in t.fixRouters ensures Alike(lm, c) {
      TidyIsAlike(lm, c);
    }
    if t.wildCard.Some? {
      TidyIsAlike(lm, t.wildCard.value);
    }
  }

  /** A tree mounted under a static prefix in a new tree routes prefix + p exactly as it routed p before, with the same
      object and the same parameters: for any matcher if its expressions stay as they are, and for every matcher that
      ignores repeated anchors if they are tidy. */
  lemma MountPreservesRouting(lm: LeafMatcher, segs: seq<string>, tree: Tree, p: string, ps: Params)
    requires segs != [] && (forall g | g in segs :: Static(g)) && p != [] && p[0] == '/'
    requires AnchorsStay(tree) || (IgnoresRepeats(lm) && TidyTree(tree))
    ensures var mounted := AddTree(NEW_TREE, PathOf(segs), tree);
      mounted.Some? && Match(lm, mounted.value, PathOf(segs) + p, ps) == Match(lm, tree, p, ps)
  {
    MountRoutes(lm, segs, tree, p, ps);
    if AnchorsStay(tree) {
      FilteredIsSameIff(tree);
    } else {
      TidyIsAlike(lm, tree);
      NodeRoutes(lm, tree, p[1..], p, [], ps);
    }
  }

  // ---- an escaped dollar sign ----

  lemma DollarParts(name: string)
    requires IsName(name)
    ensures PartsOf(":" + name + "\\$") == Parts(true, [":" + name], "(.+)\\$")
  {
    var key, n := ":" + name + "\\$", |name| + 1;
    assert |key| == n + 2 && key[0] == ':' && key[1..n] == name && key[n] == '\\' && key[n + 1] == '$';
    ScanToName(key, name);
    BackslashEndsName(key, n, name);
  }

  lemma BackslashEndsName(key: string, n: nat, name: string)
    requires 0 < n == |key| - 2 && key[n - 1] != '\\' && key[n] == '\\' && key[n + 1] == '$'
    ensures ScanFrom(key, n, SCAN_START.(start := true, param := name))
      == Scan(0, false, false, [], [], [":" + name], "(.+)\\$", 1)
  {
    var s := Scan(0, false, false, [], [], [":" + name], "(.+)\\", 1);
    assert ScanChar(key, n, SCAN_START.(start := true, param := name)) == s;
    var s2 := s.(out := "(.+)\\$");
    assert ScanChar(key, n + 1, s) == s2;
    assert ScanFrom(key, n + 1, s) == ScanFrom(key, n + 2, s2) == s2;
  }

  // The pattern of a parameter and an escaped dollar sign.
  function DollarText(name: string): string {
    PathOf([":" + name + "\\$"])
  }

  // What addSeg makes of a pattern of one segment with an expression.
  lemma OneWildStep(seg: string, names: seq<string>, reg: string)
    requires PartsOf(seg) == Parts(true, names, reg) && seg != [] && seg[0] != '*' && reg != []
    requires names != [] && names[0] != ":"
    ensures StepOf(seg, [], []) == Step(false, true, names, reg)
  {
    assert Groups([]) + reg == reg;
  }

  lemma OneWildSegment(seg: string, names: seq<string>, reg: string, obj: Object)
    requires Whole(seg) && StepOf(seg, [], []) == Step(false, true, names, reg) && reg != []
    ensures BuildTexts([Entry(PathOf([seg]), obj)])
      == Tree("", [], Some(Tree("", [], None, [Leaf(names, Some("^" + reg + "$"), obj)])), [])
  {
    var e, segs := Entry(PathOf([seg]), obj), [seg];
    SplitPathOf(segs);
    assert segs[1..] == [] && [e][..0] == [];
    assert [] + names == names && [] + reg == reg;
    assert AddText(NEW_TREE, [], obj, names, reg) == NEW_TREE.(leaves := [Leaf(names, Some("^" + reg + "$"), obj)]);
  }

  lemma DollarTree(name: string, obj: Object)
    requires IsName(name)
    ensures BuildTexts([Entry(DollarText(name), obj)])
      == Tree("", [], Some(Tree("", [], None, [Leaf([":" + name], Some(DOLLAR), obj)])), [])
  {
    var seg := ":" + name + "\\$";
    DollarParts(name);
    assert ":" + name != ":";
    OneWildStep(seg, [":" + name], "(.+)\\$");
    OneWildSegment(seg, [":" + name], "(.+)\\$", obj);
    assert "^" + "(.+)\\$" + "$" == DOLLAR;
  }

  const DOLLAR := "^(.+)\\$$"
  const MOUNTED_DOLLAR := "^(.+)\\$"

  /** Mounting takes the end anchor off. */
  lemma DollarReanchored()
    ensures Reanchored(DOLLAR) == MOUNTED_DOLLAR
  {
    assert DOLLAR[1..] == "(.+)\\$$";
    assert TrimLeft(DOLLAR, ANCHORS) == "(.+)\\$$";
    assert "(.+)\\$$"[..6] == "(.+)\\$" && "(.+)\\$"[..5] == "(.+)\\";
    assert TrimRight("(.+)\\", ANCHORS) == "(.+)\\";
    assert TrimRight("(.+)\\$", ANCHORS) == "(.+)\\";
  }

  lemma DollarTokens()
    ensures Tokens(DOLLAR) == Some([Begin, Group(Dot), Literal('$'), End])
    ensures Tokens(MOUNTED_DOLLAR) == Some([Begin, Group(Dot), Literal('$')])
  {
    TailTokens("$");
    TailTokens([]);
    assert Tokens([]) == Some([]) && "$"[1..] == [];
    assert Tokens("$") == Some([End] + []);
    assert DOLLAR == "^" + ("(.+)" + ("\\$" + "$")) && MOUNTED_DOLLAR == "^" + ("(.+)" + ("\\$" + []));
    assert [Begin] + ([Group(Dot)] + ([Literal('$')] + ([End] + []))) == [Begin, Group(Dot), Literal('$'), End];
    assert [Begin] + ([Group(Dot)] + ([Literal('$')] + [])) == [Begin, Group(Dot), Literal('$')];
  }

  lemma TailTokens(u: string)
    ensures Tokens("^" + ("(.+)" + ("\\$" + u)))
      == Prepend(Begin, Prepend(Group(Dot), Prepend(Literal('$'), Tokens(u))))
  {
    var a := "\\$" + u;
    assert a[0] == '\\' && a[1] == '$' && a[2..] == u;
    assert Tokens(a) == Prepend(Literal('$'), Tokens(u));
    var b := "(.+)" + a;
    assert b[0] == '(' && b[1] == '.' && b[2] == '+' && b[3] == ')' && b[4..] == a;
    assert Tokens(b) == Prepend(Group(Dot), Tokens(a));
    var c := "^" + b;
    assert c[0] == '^' && c[1..] == b;
  }

  // Anchored at its end, the expression needs a dollar sign there.
  lemma {:induction false} GroupNeedsDollar(s: string, j: nat)
    requires j <= |s| && (s != [] ==> s[|s| - 1] != '$')
    ensures MatchGroup(Dot, [Literal('$'), End], s, 0, j) == None
  {
    if j > 0 {
      var ts := [Literal('$'), End];
      assert ts[1..] == [End];
      assert MatchAt(ts, s, j) == None;
      GroupNeedsDollar(s, j - 1);
    }
  }

  lemma {:induction false} SearchNeedsDollar(s: string, i: nat)
    requires i <= |s| && (s != [] ==> s[|s| - 1] != '$')
    ensures Search([Begin, Group(Dot), Literal('$'), End], s, i) == None
    decreases |s| - i
  {
    var ts := [Begin, Group(Dot), Literal('$'), End];
    assert ts[1..] == [Group(Dot), Literal('$'), End] && ts[1..][1..] == [Literal('$'), End];
    GroupNeedsDollar(s, |s|);
    assert MatchAt(ts, s, i) == None;
    if i < |s| {
      SearchNeedsDollar(s, i + 1);
    }
  }

  // Without the anchor a dollar sign anywhere behind something is enough.
  lemma {:induction false} GroupFindsDollar(s: string, k: nat, j: nat)
    requires 0 < k <= j <= |s| && k < |s| && s[k] == '$' && '\n' !in s
    ensures MatchGroup(Dot, [Literal('$')], s, 0, j).Some?
    decreases j
  {
    var ts := [Literal('$')];
    assert ts[1..] == [];
    if j == k {
      assert MatchAt(ts, s, k).Some?;
    } else {
      GroupFindsDollar(s, k, j - 1);
    }
  }

  lemma DollarFinds(s: string, k: nat)
    requires 0 < k < |s| - 1 && s[k] == '$' && s[|s| - 1] != '$' && '\n' !in s
    ensures Find(DOLLAR, s).None? && Find(MOUNTED_DOLLAR, s).Some?
  {
    DollarTokens();
    SearchNeedsDollar(s, 0);
    var ts := [Begin, Group(Dot), Literal('$')];
    assert ts[1..] == [Group(Dot), Literal('$')] && ts[1..][1..] == [Literal('$')];
    GroupFindsDollar(s, k, |s|);
    assert MatchAt(ts, s, 0).Some?;
  }

  lemma OneLeafAnswers(lm: LeafMatcher, l: Leaf, tp: string, vs: seq<string>, ps: Params)
    ensures TryLeaves(lm, [l], tp, vs, ps).found == if lm(l, tp, vs, ps).0 then Some(l.runObject) else None
  {
    var (ok, ps') := lm(l, tp, vs, ps);
    assert [l][1..] == [];
    assert TryLeaves(lm, [], tp, vs, ps') == Result(None, ps');
  }

  lemma OnlyWildAnswers(lm: LeafMatcher, t: Tree, w: Tree, tp: string, seg: string, ps: Params)
    requires t.fixRouters == [] && t.leaves == [] && t.wildCard == Some(w)
    ensures MatchSegment(lm, t, tp, seg, [], [], ps) == MatchNode(lm, w, tp, [], [seg], ps)
  {
    NoExtensionChild(lm, t, 0, seg, tp, [], [], Result(None, ps));
    assert TryFixed(lm, t, 0, seg, [], [], ps) == Result(None, ps);
    assert !HasChild(t, seg);
    assert [] + [seg] == [seg];
  }

  // A tree of one wild leaf, asked for a path of one segment.
  lemma WildLeafAnswers(lm: LeafMatcher, t: Tree, l: Leaf, s: string, ps: Params)
    requires t.fixRouters == [] && t.leaves == [] && t.wildCard.Some?
    requires var w := t.wildCard.value; w.fixRouters == [] && w.wildCard.None? && w.leaves == [l]
    requires s != [] && '/' !in s
    ensures Match(lm, t, ['/'] + s, ps).found == if lm(l, s, [s], ps).0 then Some(l.runObject) else None
  {
    var path, w := ['/'] + s, t.wildCard.value;
    SegmentPath(s, []);
    assert s + [] == s && path[1..] == s && s[|s|..] == [];
    assert Match(lm, t, path, ps) == MatchSegment(lm, t, s, s, [], [], ps);
    OnlyWildAnswers(lm, t, w, s, s, ps);
    OneLeafAnswers(lm, l, s, [s], ps);
    assert MatchNode(lm, w, s, [], [s], ps) == TryLeaves(lm, w.leaves, s, [s], ps);
  }

  lemma FilteredWildLeaf(names: seq<string>, r: string, obj: Object)
    ensures Filtered(Tree("", [], Some(Tree("", [], None, [Leaf(names, Some(r), obj)])), []))
      == Tree("", [], Some(Tree("", [], None, [Leaf(names, Some(Reanchored(r)), obj)])), [])
  {
    var w := Tree("", [], None, [Leaf(names, Some(r), obj)]);
    assert Filtered(w) == Tree("", [], None, [Leaf(names, Some(Reanchored(r)), obj)]);
    assert Filtered(Tree("", [], Some(w), [])) == Tree("", [], Some(Filtered(w)), []);
  }

  // With the engine it answers as its expression does.
  lemma ExpressionAnswers(t: Tree, names: seq<string>, r: string, obj: Object, s: string, ps: Params)
    requires t == Tree("", [], Some(Tree("", [], None, [Leaf(names, Some(r), obj)])), [])
    requires s != [] && '/' !in s
    ensures Match(PlainMatcher(Engine()), t, ['/'] + s, ps).found == if Find(r, s).Some? then Some(obj) else None
  {
    var l := Leaf(names, Some(r), obj);
    assert [s][1..] == [] && NonEmpty([s]) == [s] + NonEmpty([]) && PathJoin([s]) == s;
    assert PlainMatcher(Engine())(l, s, [s], ps).0 == Find(r, s).Some?;
    WildLeafAnswers(PlainMatcher(Engine()), t, l, s, ps);
  }

  /** A parameter followed by an escaped dollar sign, as in /:id\$: a path with more behind the dollar sign does not
      match before mounting and matches after it, whatever the name, the prefix and the path. */
  lemma EscapedDollarWidens(name: string, g: string, s: string, k: nat, obj: Object, ps: Params)
    requires IsName(name) && Static(g)
    requires 0 < k < |s| - 1 && s[k] == '$' && s[|s| - 1] != '$' && '\n' !in s && '/' !in s
    ensures var lm, tree := PlainMatcher(Engine()), BuildTexts([Entry(DollarText(name), obj)]);
      var mounted := AddTree(NEW_TREE, PathOf([g]), tree);
      && Match(lm, tree, ['/'] + s, ps).found == None
      && mounted.Some? && Match(lm, mounted.value, PathOf([g]) + (['/'] + s), ps).found == Some(obj)
  {
    var lm, tree := PlainMatcher(Engine()), BuildTexts([Entry(DollarText(name), obj)]);
    DollarTree(name, obj);
    DollarFinds(s, k);
    ExpressionAnswers(tree, [":" + name], DOLLAR, obj, s, ps);
    MountRoutes(lm, [g], tree, ['/'] + s, ps);
    DollarReanchored();
    FilteredWildLeaf([":" + name], DOLLAR, obj);
    ExpressionAnswers(Filtered(tree), [":" + name], MOUNTED_DOLLAR, obj, s, ps);
  }
}
