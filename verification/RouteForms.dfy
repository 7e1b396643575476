/** What the documented forms of a pattern match behind any static prefix, and what they bind: a star, an optional
    parameter, a parameter with an expression, *.* and a star in the middle. */
module RouteForms {
  import opened Wrappers
  import opened Text
  import opened RouteTree
  import opened RouteParams
  import opened RouteTheorems
  import opened RouteSegments
  import opened RouteTexts
  import opened RouteMount
  import opened RouteLeaves
  import opened RouteExpressions

  // ---- a static prefix ----

  // The tree of a static prefix that ends in a node.
  function Chain(prefix: string, segs: seq<string>, end: Tree): (t: Tree)
    ensures t.prefix == prefix
    decreases |segs|
  {
    if segs == [] then end.(prefix := prefix) else Tree(prefix, [Chain(segs[0], segs[1..], end)], None, [])
  }

  lemma {:induction false} AddTextIgnoresPrefix(t: Tree, x: string, segs: seq<string>, obj: Object, ws: seq<string>,
                                                reg: string)
    ensures AddText(t.(prefix := x), segs, obj, ws, reg) == AddText(t, segs, obj, ws, reg).(prefix := x)
    decreases |segs|
  {
    if segs != [] {
      AddTextIgnoresPrefix(t, x, segs[1..], obj, ws, reg);
      var s := StepOf(segs[0], ws, reg);
      var t' := if s.optional then AddText(t, segs[1..], obj, ws, reg) else t;
      var u := if s.optional then AddText(t.(prefix := x), segs[1..], obj, ws, reg) else t.(prefix := x);
      assert u == t'.(prefix := x);
    }
  }

  lemma {:induction false} ChainBuilt(prefix: string, segs: seq<string>, more: seq<string>, obj: Object)
    requires forall g | g in segs :: Static(g)
    ensures AddText(Tree(prefix, [], None, []), segs + more, obj, [], [])
      == Chain(prefix, segs, AddText(NEW_TREE, more, obj, [], []))
    decreases |segs|
  {
    var all := segs + more;
    if segs == [] {
      assert all == more && Tree(prefix, [], None, []) == NEW_TREE.(prefix := prefix);
      AddTextIgnoresPrefix(NEW_TREE, prefix, more, obj, [], []);
    } else {
      assert all[0] == segs[0] && all[1..] == segs[1..] + more;
      StaticParts(segs[0]);
      assert StepOf(segs[0], [], []) == Step(false, false, [], []);
      ChainBuilt(segs[0], segs[1..], more, obj);
    }
  }

  lemma {:induction false} ChainMatches(lm: LeafMatcher, prefix: string, segs: seq<string>, end: Tree, tp: string,
                                        p: string, ps: Params)
    requires (forall g | g in segs :: Static(g)) && p != [] && p[0] == '/'
    ensures MatchNode(lm, Chain(prefix, segs, end), tp, PathOf(segs) + p, [], ps)
      == MatchNode(lm, end, if segs == [] then tp else p[1..], p, [], ps)
    decreases |segs|
  {
    var t := Chain(prefix, segs, end);
    if segs == [] {
      assert PathOf(segs) + p == p;
      NodeIgnoresPrefix(lm, end, prefix, tp, p, [], ps);
    } else {
      var rest := PathOf(segs[1..]) + p;
      PathHead(segs, p);
      OnlyChildAnswers(lm, t, t.fixRouters[0], tp, segs[0], rest, [], ps);
      ChainMatches(lm, segs[0], segs[1..], end, Below(rest), p, ps);
      assert segs[1..] == [] ==> rest == p && Below(rest) == p[1..];
    }
  }

  // The node that the segments behind the prefix make.
  function End(more: seq<string>, obj: Object): Tree {
    AddText(NEW_TREE, more, obj, [], [])
  }

  lemma FormTree(segs: seq<string>, more: seq<string>, obj: Object)
    requires (forall g | g in segs :: Static(g)) && more != [] && (forall g | g in more :: Whole(g))
    ensures BuildTexts([Entry(PathOf(segs + more), obj)]) == Chain("", segs, End(more, obj))
  {
    var e := Entry(PathOf(segs + more), obj);
    forall g | g in segs + more ensures Whole(g) {
      assert g in segs || g in more;
    }
    SplitPathOf(segs + more);
    assert [e][..0] == [] && BuildTexts([]) == NEW_TREE;
    ChainBuilt("", segs, more, obj);
  }

  lemma FormMatches(lm: LeafMatcher, segs: seq<string>, more: seq<string>, obj: Object, p: string, ps: Params)
    requires (forall g | g in segs :: Static(g)) && more != [] && (forall g | g in more :: Whole(g))
    requires p != [] && p[0] == '/'
    ensures Match(lm, BuildTexts([Entry(PathOf(segs + more), obj)]), PathOf(segs) + p, ps)
      == MatchNode(lm, End(more, obj), p[1..], p, [], ps)
  {
    var path := PathOf(segs) + p;
    FormTree(segs, more, obj);
    assert path[0] == '/' && (segs == [] ==> path[1..] == p[1..]);
    ChainMatches(lm, "", segs, End(more, obj), path[1..], p, ps);
  }

  // ---- one wild node ----

  // A node with a wild child that has one leaf.
  function WildEnd(own: seq<Leaf>, leaf: Leaf): Tree {
    Tree("", [], Some(Tree("", [], None, [leaf])), own)
  }

  lemma OneWild(seg: string, names: seq<string>, reg: string, obj: Object)
    requires StepOf(seg, [], []) == Step(false, true, names, reg)
    ensures End([seg], obj) == WildEnd([], Leaf(names, if reg == [] then None else Some("^" + reg + "$"), obj))
  {
    assert [seg][1..] == [] && [] + names == names && [] + reg == reg;
    assert AddText(NEW_TREE, [], obj, names, reg)
      == NEW_TREE.(leaves := [Leaf(names, if reg == [] then None else Some("^" + reg + "$"), obj)]);
  }

  lemma OneLeaf(lm: LeafMatcher, l: Leaf, tp: string, vs: seq<string>, ps: Params)
    ensures var (ok, r) := lm(l, tp, vs, ps);
      TryLeaves(lm, [l], tp, vs, ps) == if ok then Result(Some(l.runObject), r) else Result(None, r)
  {
    assert [l][1..] == [];
    var (ok, r) := lm(l, tp, vs, ps);
    assert TryLeaves(lm, [], tp, vs, r) == Result(None, r);
  }

  // Asked for nothing more, it asks its own leaves and then the wild one, with no values.
  lemma NoMore(lm: LeafMatcher, own: seq<Leaf>, l: Leaf, tp: string, ps: Params)
    ensures var r := TryLeaves(lm, own, tp, [], ps);
      MatchNode(lm, WildEnd(own, l), tp, "/", [], ps)
        == if r.found.Some? then r else TryLeaves(lm, [l], tp, [], r.params)
  {
    assert "/"[1..] == [] && SkipSlashes("/") == SkipSlashes([]) == [];
  }

  // Asked for some segments, it asks the wild leaf with all of them and then its own ones.
  lemma SomeMore(lm: LeafMatcher, own: seq<Leaf>, l: Leaf, rest: string, ps: Params)
    requires rest != [] && rest[0] != '/'
    ensures var seg := FirstSegment(rest);
      var tail := rest[|seg|..];
      var r := TryLeaves(lm, [l], rest, ValuesBelow([seg], tail), ps);
      MatchNode(lm, WildEnd(own, l), rest, "/" + rest, [], ps)
        == if r.found.Some? || own == [] then r else TryLeaves(lm, own, rest, AllValues([], seg, tail), r.params)
  {
    var t, w := WildEnd(own, l), Tree("", [], None, [l]);
    var seg := FirstSegment(rest);
    var tail := rest[|seg|..];
    SkipOneSlash(rest);
    NoChild(lm, t, rest, seg, tail, [], ps);
    assert [] + [seg] == [seg];
    WildNode(lm, w, l, rest, tail, [seg], ps);
  }

  // The values that a wild node asks its leaf with.
  function ValuesBelow(vs: seq<string>, tail: string): seq<string> {
    var p := SkipSlashes(tail);
    if p == [] then vs else AllValues(vs, FirstSegment(p), p[|FirstSegment(p)|..])
  }

  lemma NoChild(lm: LeafMatcher, t: Tree, tp: string, seg: string, tail: string, vs: seq<string>, ps: Params)
    requires t.fixRouters == []
    ensures TryFixed(lm, t, 0, seg, tail, vs, ps) == Result(None, ps) && !HasChild(t, seg)
    ensures TryExtensions(lm, t, 0, seg, tp, tail, vs, Result(None, ps)) == Result(None, ps)
  {
    NoExtensionChild(lm, t, 0, seg, tp, tail, vs, Result(None, ps));
  }

  lemma WildNode(lm: LeafMatcher, w: Tree, l: Leaf, tp: string, tail: string, vs: seq<string>, ps: Params)
    requires w == Tree("", [], None, [l])
    ensures MatchNode(lm, w, tp, tail, vs, ps) == TryLeaves(lm, [l], tp, ValuesBelow(vs, tail), ps)
  {
    var p := SkipSlashes(tail);
    if p != [] {
      NoChild(lm, w, tp, FirstSegment(p), p[|FirstSegment(p)|..], vs, ps);
    }
  }

  // ---- a star ----

  const SPLAT := [":splat"]

  lemma SplatStep()
    ensures StepOf("*", [], []) == Step(false, true, SPLAT, [])
  {
    assert PartsOf("*") == Parts(true, [":splat"], "");
  }

  /** A star behind a static prefix matches every path below the prefix and binds :splat to all of the rest. */
  lemma SplatTakesRest(other: LeafMatcher, segs: seq<string>, obj: Object, rest: string, ps: Params)
    requires (forall g | g in segs :: Static(g)) && (rest == [] || rest[0] != '/')
    ensures Match(PlainMatcher(other), BuildTexts([Entry(PathOf(segs + ["*"]), obj)]), PathOf(segs) + ("/" + rest), ps)
      == Result(Some(obj), ps[":splat" := rest])
  {
    var lm, l := PlainMatcher(other), Leaf(SPLAT, None, obj);
    FormMatches(lm, segs, ["*"], obj, "/" + rest, ps);
    SplatStep();
    OneWild("*", SPLAT, [], obj);
    assert ("/" + rest)[1..] == rest;
    forall vs ensures TryLeaves(lm, [l], rest, vs, ps) == Result(Some(obj), ps[":splat" := rest]) {
      OneLeaf(lm, l, rest, vs, ps);
    }
    if rest == [] {
      assert "/" + rest == "/";
      NoMore(lm, [], l, rest, ps);
    } else {
      SomeMore(lm, [], l, rest, ps);
    }
  }

  // ---- segments as values ----

  // Segments of a path: not empty and without slashes.
  predicate Words(ws: seq<string>) {
    ws != [] && forall i | 0 <= i < |ws| :: ws[i] != [] && '/' !in ws[i]
  }

  lemma JoinHead(ws: seq<string>)
    requires Words(ws)
    ensures var j := Join(ws, '/');
      && j != [] && j[0] != '/' && FirstSegment(j) == ws[0]
      && j[|ws[0]|..] == if |ws| == 1 then [] else "/" + Join(ws[1..], '/')
  {
    var rest := if |ws| == 1 then [] else "/" + Join(ws[1..], '/');
    assert Join(ws, '/') == ws[0] + rest;
    NotSlash(ws[0], rest);
    SegmentThenRest(ws[0], rest);
  }

  /** The values for the segments of a path are these segments. */
  lemma ValuesAreWords(lm: LeafMatcher, own: seq<Leaf>, l: Leaf, ws: seq<string>, ps: Params)
    requires Words(ws)
    ensures var rest := Join(ws, '/');
      var r := TryLeaves(lm, [l], rest, ws, ps);
      MatchNode(lm, WildEnd(own, l), rest, "/" + rest, [], ps)
        == if r.found.Some? || own == [] then r else TryLeaves(lm, own, rest, ws, r.params)
  {
    var rest := Join(ws, '/');
    JoinHead(ws);
    SomeMore(lm, own, l, rest, ps);
    if |ws| == 1 {
      assert [ws[0]] == ws && [] + [ws[0]] + [] == ws && SkipSlashes([]) == [];
    } else {
      TailValues([ws[0]], ws[1..]);
      assert [ws[0]] + ws[1..] == ws;
      WordsSplit(ws[1..]);
      assert Below("/" + Join(ws[1..], '/')) == Join(ws[1..], '/');
      assert [] + [ws[0]] + ws[1..] == ws;
    }
  }

  // ---- an optional parameter ----

  lemma OptionalEnd(name: string, obj: Object)
    requires IsName(name)
    ensures End(["?:" + name], obj) == WildEnd([Leaf([], None, obj)], Leaf([":" + name], None, obj))
  {
    var seg := "?:" + name;
    OptionalParts(name);
    assert [":", ":" + name][1..] == [":" + name];
    assert StepOf(seg, [], []) == Step(true, true, [":" + name], []);
    var none: string := [];
    assert [seg][1..] == [] && [] + [":" + name] == [":" + name] && none + none == none;
    var own := NEW_TREE.(leaves := [Leaf([], None, obj)]);
    assert AddText(NEW_TREE, [], obj, [], []) == own;
    assert AddText(NEW_TREE, [], obj, [":" + name], []) == NEW_TREE.(leaves := [Leaf([":" + name], None, obj)]);
    assert AddText(NEW_TREE, [seg], obj, [], [])
      == own.(wildCard := Some(AddText(NEW_TREE, [seg][1..], obj, [] + [":" + name], none + none)));
  }

  lemma NamedLeaf(other: LeafMatcher, name: string, obj: Object, tp: string, vs: seq<string>, ps: Params)
    requires IsName(name) && name != "splat"
    ensures TryLeaves(PlainMatcher(other), [Leaf([":" + name], None, obj)], tp, vs, ps)
      == if |vs| == 1 then Result(Some(obj), ps[":" + name := vs[0]]) else Result(None, ps)
  {
    var l := Leaf([":" + name], None, obj);
    OneLeaf(PlainMatcher(other), l, tp, vs, ps);
    NotSplat(name);
    assert [":" + name][0] == ":" + name && [":splat"][0] == ":splat";
    assert [":" + name][1..] == [] && !EndsInPathExt([":" + name]);
    if |vs| == 1 {
      assert Bind(ps[":" + name := vs[0]], [], vs[1..]) == ps[":" + name := vs[0]];
    }
  }

  lemma StaticLeaf(other: LeafMatcher, obj: Object, tp: string, vs: seq<string>, ps: Params)
    ensures TryLeaves(PlainMatcher(other), [Leaf([], None, obj)], tp, vs, ps)
      == if vs == [] then Result(Some(obj), ps) else Result(None, ps)
  {
    OneLeaf(PlainMatcher(other), Leaf([], None, obj), tp, vs, ps);
  }

  /** An optional parameter behind a static prefix: the prefix alone matches and binds nothing. */
  lemma OptionalMayBeLeftOut(other: LeafMatcher, segs: seq<string>, name: string, obj: Object, ps: Params)
    requires (forall g | g in segs :: Static(g)) && IsName(name)
    ensures Match(PlainMatcher(other), BuildTexts([Entry(PathOf(segs + ["?:" + name]), obj)]), PathOf(segs) + "/", ps)
      == Result(Some(obj), ps)
  {
    OptionalIsWhole(name);
    FormMatches(PlainMatcher(other), segs, ["?:" + name], obj, "/", ps);
    OptionalEnd(name, obj);
    NoMore(PlainMatcher(other), [Leaf([], None, obj)], Leaf([":" + name], None, obj), "/"[1..], ps);
    StaticLeaf(other, obj, "/"[1..], [], ps);
  }

  lemma OptionalIsWhole(name: string)
    requires IsName(name)
    ensures Whole("?:" + name)
  {
    var seg := "?:" + name;
    assert forall i | 2 <= i < |seg| :: seg[i] == name[i - 2] && NameChar(seg[i]);
  }

  /** One segment more is bound to it, and a path of more segments does not match. */
  lemma OptionalTakesOne(other: LeafMatcher, segs: seq<string>, name: string, obj: Object, ws: seq<string>, ps: Params)
    requires (forall g | g in segs :: Static(g)) && IsName(name) && name != "splat" && Words(ws)
    ensures Match(PlainMatcher(other), BuildTexts([Entry(PathOf(segs + ["?:" + name]), obj)]),
                  PathOf(segs) + ("/" + Join(ws, '/')), ps)
      == if |ws| == 1 then Result(Some(obj), ps[":" + name := ws[0]]) else Result(None, ps)
  {
    var p := "/" + Join(ws, '/');
    OptionalIsWhole(name);
    FormMatches(PlainMatcher(other), segs, ["?:" + name], obj, p, ps);
    OptionalEnd(name, obj);
    assert p[1..] == Join(ws, '/');
    ValuesAreWords(PlainMatcher(other), [Leaf([], None, obj)], Leaf([":" + name], None, obj), ws, ps);
    NamedLeaf(other, name, obj, p[1..], ws, ps);
    StaticLeaf(other, obj, p[1..], ws, ps);
  }

  // ---- a parameter with an expression ----

  lemma ExpressionLeaf(find: Finder, names: seq<string>, r: string, obj: Object, tp: string, vs: seq<string>,
                       ps: Params)
    ensures TryLeaves(PlainMatcher(Others(find, PathJoin)), [Leaf(names, Some(r), obj)], tp, vs, ps)
      == match find(r, PathJoin(vs))
         case None => Result(None, ps)
         case Some(groups) => Result(Some(obj), BindGroups(ps, names, groups))
  {
    OneLeaf(PlainMatcher(Others(find, PathJoin)), Leaf(names, Some(r), obj), tp, vs, ps);
  }

  lemma WordsJoin(ws: seq<string>)
    requires Words(ws)
    ensures PathJoin(ws) == Join(ws, '/')
  {
    NonEmptyAll(ws);
  }

  /** A parameter with an expression matches what the expression, anchored at both ends, finds something in, and is
      bound to its first group. */
  lemma ExpressionDecides(find: Finder, segs: seq<string>, name: string, exp: string, obj: Object, v: string,
                          ps: Params)
    requires (forall g | g in segs :: Static(g)) && IsName(name) && v != [] && '/' !in v
    requires ')' !in exp && '/' !in exp && (exp != [] ==> exp[|exp| - 1] != '\\')
    ensures var seg, found := ":" + name + "(" + exp + ")", find("^" + ("(" + exp + ")") + "$", v);
      Match(PlainMatcher(Others(find, PathJoin)), BuildTexts([Entry(PathOf(segs + [seg]), obj)]),
            PathOf(segs) + ("/" + v), ps)
        == if found.None? then Result(None, ps)
           else Result(Some(obj), if found.value == [] then ps else ps[":" + name := found.value[0]])
  {
    var seg, reg := ":" + name + "(" + exp + ")", "(" + exp + ")";
    ExpressionParts(name, exp);
    assert seg[0] == ':' && seg[|seg| - 1] == ')' && '/' !in name;
    assert StepOf(seg, [], []) == Step(false, true, [":" + name], Groups([]) + reg);
    assert Groups([]) + reg == reg;
    ExpressionMatches(find, segs, seg, name, reg, obj, v, ps);
  }

  lemma ExpressionMatches(find: Finder, segs: seq<string>, seg: string, name: string, reg: string, obj: Object,
                          v: string, ps: Params)
    requires (forall g | g in segs :: Static(g)) && v != [] && '/' !in v && reg != []
    requires Whole(seg) && StepOf(seg, [], []) == Step(false, true, [":" + name], reg)
    ensures var found := find("^" + reg + "$", v);
      Match(PlainMatcher(Others(find, PathJoin)), BuildTexts([Entry(PathOf(segs + [seg]), obj)]),
            PathOf(segs) + ("/" + v), ps)
        == if found.None? then Result(None, ps)
           else Result(Some(obj), if found.value == [] then ps else ps[":" + name := found.value[0]])
  {
    var lm, r := PlainMatcher(Others(find, PathJoin)), "^" + reg + "$";
    FormMatches(lm, segs, [seg], obj, "/" + v, ps);
    OneWild(seg, [":" + name], reg, obj);
    assert Join([v], '/') == v && ("/" + v)[1..] == v;
    ValuesAreWords(lm, [], Leaf([":" + name], Some(r), obj), [v], ps);
    WordsJoin([v]);
    ExpressionLeaf(find, [":" + name], r, obj, v, [v], ps);
    var found := find(r, v);
    if found.Some? && found.value != [] {
      assert [":" + name][1..] == [];
      assert BindGroups(ps[":" + name := found.value[0]], [], found.value[1..]) == ps[":" + name := found.value[0]];
    }
  }

  /** ":name:int" matches a segment of digits and nothing else, and binds it. */
  lemma IntTakesDigits(segs: seq<string>, name: string, obj: Object, v: string, ps: Params)
    requires (forall g | g in segs :: Static(g)) && IsName(name) && v != [] && '/' !in v
    ensures Match(PlainMatcher(Engine()), BuildTexts([Entry(PathOf(segs + [":" + name + ":int"]), obj)]),
                  PathOf(segs) + ("/" + v), ps)
      == if Digits.All(v) then Result(Some(obj), ps[":" + name := v]) else Result(None, ps)
  {
    var seg := ":" + name + ":int";
    IntStep(name);
    ExpressionMatches(Find, segs, seg, name, Digits.Text(), obj, v, ps);
    FindDigits(v);
  }

  lemma FindDigits(v: string)
    ensures Find("^" + Digits.Text() + "$", v) == if v != [] && Digits.All(v) then Some([v]) else None
  {
    assert "^" + (Digits.Text() + ([] + "$")) == "^" + Digits.Text() + "$";
    FindGroupThen(Digits, [], v);
    assert v[..|v|] == v && v[|v|..] == [];
  }

  // ---- two wild nodes ----

  // A node with a wild child that has nothing but a wild child with one leaf.
  function WildTwice(leaf: Leaf): Tree {
    Tree("", [], Some(WildEnd([], leaf)), [])
  }

  lemma TwoWild(a: string, b: string, names: seq<string>, more: seq<string>, reg: string, obj: Object)
    requires StepOf(a, [], []) == Step(false, true, names, []) && StepOf(b, names, []) == Step(false, true, more, reg)
    ensures End([a, b], obj) == WildTwice(Leaf(names + more, if reg == [] then None else Some("^" + reg + "$"), obj))
  {
    var none: string := [];
    assert [a, b][1..] == [b] && [b][1..] == [] && [] + names == names && none + none == none && [] + reg == reg;
    assert AddText(NEW_TREE, [], obj, names + more, reg)
      == NEW_TREE.(leaves := [Leaf(names + more, if reg == [] then None else Some("^" + reg + "$"), obj)]);
    assert AddText(NEW_TREE, [b], obj, names, [])
      == NEW_TREE.(wildCard := Some(AddText(NEW_TREE, [b][1..], obj, names + more, [] + reg)));
  }

  /** Both nodes take a segment, and the leaf is asked with all of them. */
  lemma TwoWildValues(lm: LeafMatcher, l: Leaf, ws: seq<string>, ps: Params)
    requires Words(ws) && |ws| >= 2
    ensures var rest := Join(ws, '/');
      MatchNode(lm, WildTwice(l), rest, "/" + rest, [], ps) == TryLeaves(lm, [l], rest, ws, ps)
  {
    var rest := Join(ws, '/');
    WildStep(lm, WildEnd([], l), rest, ws, [], ps);
    assert [] + [ws[0]] == [ws[0]] && Words(ws[1..]);
    SecondWild(lm, l, rest, ws[0], ws[1..], ps);
    assert [ws[0]] + ws[1..] == ws;
  }

  // A wild node that has nothing but a wild child goes on there.
  lemma WildStep(lm: LeafMatcher, w: Tree, tp: string, ws: seq<string>, vs: seq<string>, ps: Params)
    requires Words(ws)
    ensures var tail := if |ws| == 1 then [] else "/" + Join(ws[1..], '/');
      MatchNode(lm, Tree("", [], Some(w), []), tp, "/" + Join(ws, '/'), vs, ps)
        == MatchNode(lm, w, tp, tail, vs + [ws[0]], ps)
  {
    var t, j := Tree("", [], Some(w), []), Join(ws, '/');
    JoinHead(ws);
    SkipOneSlash(j);
    NoChild(lm, t, tp, ws[0], j[|ws[0]|..], vs, ps);
  }

  lemma SecondWild(lm: LeafMatcher, l: Leaf, tp: string, v: string, ws: seq<string>, ps: Params)
    requires Words(ws)
    ensures MatchNode(lm, WildEnd([], l), tp, "/" + Join(ws, '/'), [v], ps) == TryLeaves(lm, [l], tp, [v] + ws, ps)
  {
    var inner, vs := Tree("", [], None, [l]), [v] + [ws[0]];
    WildStep(lm, inner, tp, ws, [v], ps);
    if |ws| > 1 {
      WildNode(lm, inner, l, tp, "/" + Join(ws[1..], '/'), vs, ps);
      TailValues(vs, ws[1..]);
      AppendHead([v], ws);
    } else {
      WildNode(lm, inner, l, tp, [], vs, ps);
      assert SkipSlashes([]) == [] && vs == [v] + ws;
    }
  }

  lemma WordsSplit(ws: seq<string>)
    requires Words(ws)
    ensures Split(Join(ws, '/'), '/') == ws
  {
    forall w | w in ws ensures '/' !in w {
      var i :| 0 <= i < |ws| && ws[i] == w;
    }
    SplitJoin(ws, '/');
  }

  lemma AppendHead(vs: seq<string>, ws: seq<string>)
    requires ws != []
    ensures vs + [ws[0]] + ws[1..] == vs + ws
  {
  }

  lemma TailValues(vs: seq<string>, ws: seq<string>)
    requires Words(ws)
    ensures ValuesBelow(vs, "/" + Join(ws, '/')) == vs + ws
  {
    JoinHead(ws);
    SkipOneSlash(Join(ws, '/'));
    AppendHead(vs, ws);
    if |ws| > 1 {
      assert Below("/" + Join(ws[1..], '/')) == Join(ws[1..], '/');
      WordsSplit(ws[1..]);
    }
  }

  // ---- a star behind a parameter ----

  lemma ParamStep(name: string)
    requires IsName(name)
    ensures StepOf(":" + name, [], []) == Step(false, true, [":" + name], [])
  {
    ParamParts(name);
    assert (":" + name)[1..] == name && ":"[1..] == [];
  }

  lemma StarStep(name: string)
    ensures StepOf("*", [name], [])
      == Step(false, true, SPLAT, if name == ":splat" then "(.+)/(.+)" else "([^/]+)/(.+)")
  {
    SplatParts();
    assert [name][..0] == [] && Groups([]) == [];
    assert Groups([name]) == if name == ":splat" then "(.+)/" else "([^/]+)/";
    assert "([^/]+)/" + "(.+)" == "([^/]+)/(.+)" && "(.+)/" + "(.+)" == "(.+)/(.+)";
  }

  lemma NotSplat(name: string)
    requires name != "splat"
    ensures ":" + name != ":splat"
  {
    assert (":" + name)[1..] == name && ":splat"[1..] == "splat";
  }

  lemma StarText()
    ensures "^" + "([^/]+)/(.+)" + "$" == "^" + (Piece.Text() + ("/" + (Dot.Text() + "$")))
  {
  }

  lemma StarBehindParam(name: string, obj: Object)
    requires IsName(name) && name != "splat"
    ensures End([":" + name, "*"], obj)
      == WildTwice(Leaf([":" + name, ":splat"], Some("^" + (Piece.Text() + ("/" + (Dot.Text() + "$")))), obj))
  {
    ParamStep(name);
    NotSplat(name);
    StarStep(":" + name);
    TwoWild(":" + name, "*", [":" + name], SPLAT, "([^/]+)/(.+)", obj);
    assert [":" + name] + SPLAT == [":" + name, ":splat"];
    StarText();
  }

  lemma SplatParts()
    ensures PartsOf("*") == Parts(true, SPLAT, "")
  {
  }

  /** A star behind a parameter: the parameter takes one segment and :splat all of the rest. */
  lemma ParamThenRest(segs: seq<string>, name: string, obj: Object, v: string, ws: seq<string>, ps: Params)
    requires (forall g | g in segs :: Static(g)) && IsName(name) && name != "splat"
    requires Words([v] + ws) && ws != [] && Dot.All(Join(ws, '/'))
    ensures Match(PlainMatcher(Engine()), BuildTexts([Entry(PathOf(segs + [":" + name, "*"]), obj)]),
                  PathOf(segs) + ("/" + Join([v] + ws, '/')), ps)
      == Result(Some(obj), ps[":" + name := v][":splat" := Join(ws, '/')])
  {
    var lm, more, all := PlainMatcher(Engine()), [":" + name, "*"], [v] + ws;
    var rest, r := Join(ws, '/'), "^" + (Piece.Text() + ("/" + (Dot.Text() + "$")));
    ParamIsWhole(name);
    FormMatches(lm, segs, more, obj, "/" + Join(all, '/'), ps);
    StarBehindParam(name, obj);
    var l := Leaf([":" + name, ":splat"], Some(r), obj);
    assert ("/" + Join(all, '/'))[1..] == Join(all, '/');
    TwoWildValues(lm, l, all, ps);
    WordsJoin(all);
    assert all[0] == v && all[1..] == ws && Join(all, '/') == v + "/" + rest;
    assert ws[0] == all[1];
    JoinHead(ws);
    assert Piece.All(v);
    FindTwoGroups(Piece, Dot, Join(all, '/'), v, rest);
    ExpressionLeaf(Find, [":" + name, ":splat"], r, obj, Join(all, '/'), all, ps);
    BindTwo(ps, ":" + name, ":splat", v, rest);
  }

  lemma BindTwo(ps: Params, m: string, n: string, v: string, w: string)
    ensures BindGroups(ps, [m, n], [v, w]) == ps[m := v][n := w]
  {
    assert [m, n][1..] == [n] && [v, w][1..] == [w] && [n][1..] == [] && [w][1..] == [];
    assert BindGroups(ps[m := v][n := w], [], []) == ps[m := v][n := w];
    assert BindGroups(ps[m := v], [n], [w]) == ps[m := v][n := w];
  }

  lemma ParamIsWhole(name: string)
    requires IsName(name)
    ensures Whole(":" + name)
  {
    var seg := ":" + name;
    assert forall i | 1 <= i < |seg| :: seg[i] == name[i - 1] && NameChar(seg[i]);
  }

  // ---- a parameter behind an expression ----

  lemma TwoExpressions(a: string, b: string, names: seq<string>, more: seq<string>, first: string, second: string,
                       obj: Object)
    requires StepOf(a, [], []) == Step(false, true, names, first) && first != []
    requires StepOf(b, names, first) == Step(false, true, more, second)
    ensures End([a, b], obj) == WildTwice(Leaf(names + more, Some("^" + (first + second) + "$"), obj))
  {
    assert [a, b][1..] == [b] && [b][1..] == [] && [] + names == names && [] + first == first;
    assert AddText(NEW_TREE, [], obj, names + more, first + second)
      == NEW_TREE.(leaves := [Leaf(names + more, Some("^" + (first + second) + "$"), obj)]);
    assert AddText(NEW_TREE, [b], obj, names, first)
      == NEW_TREE.(wildCard := Some(AddText(NEW_TREE, [b][1..], obj, names + more, first + second)));
  }

  lemma IntStep(name: string)
    requires IsName(name)
    ensures StepOf(":" + name + ":int", [], []) == Step(false, true, [":" + name], Digits.Text())
    ensures Whole(":" + name + ":int")
  {
    var seg := ":" + name + ":int";
    IntParts(name);
    assert seg[0] == ':' && seg[|seg| - 1] == 't' && '/' !in name && '/' !in ":int";
    assert Groups([]) + Digits.Text() == Digits.Text();
  }

  lemma LaterStep(name: string, ws: seq<string>, reg: string)
    requires IsName(name) && reg != []
    ensures StepOf(":" + name, ws, reg) == Step(false, true, [":" + name], "/" + Piece.Text())
  {
    ParamParts(name);
    assert (":" + name)[1..] == name && ":"[1..] == [];
    assert LaterGroups(0) == [] && LaterGroups(1) == "/([^/]+)" + LaterGroups(0) == "/" + Piece.Text();
  }

  lemma DigitsPieceText()
    ensures "^" + (Digits.Text() + ("/" + Piece.Text())) + "$" == "^" + (Digits.Text() + ("/" + (Piece.Text() + "$")))
  {
  }

  /** A parameter behind one of digits: each takes its own segment. */
  lemma IntThenParam(segs: seq<string>, name: string, other: string, obj: Object, v: string, w: string, ps: Params)
    requires (forall g | g in segs :: Static(g)) && IsName(name) && IsName(other)
    requires Words([v, w]) && Digits.All(v)
    ensures Match(PlainMatcher(Engine()), BuildTexts([Entry(PathOf(segs + [":" + name + ":int", ":" + other]), obj)]),
                  PathOf(segs) + ("/" + (v + "/" + w)), ps)
      == Result(Some(obj), ps[":" + name := v][":" + other := w])
  {
    var lm, a, b, all := PlainMatcher(Engine()), ":" + name + ":int", ":" + other, v + "/" + w;
    var names, r := [":" + name, ":" + other], "^" + (Digits.Text() + ("/" + (Piece.Text() + "$")));
    IntStep(name);
    LaterStep(other, [":" + name], Digits.Text());
    ParamIsWhole(other);
    FormMatches(lm, segs, [a, b], obj, "/" + all, ps);
    TwoExpressions(a, b, [":" + name], [":" + other], Digits.Text(), "/" + Piece.Text(), obj);
    assert [":" + name] + [":" + other] == names;
    DigitsPieceText();
    assert ("/" + all)[1..] == all && [v, w][1..] == [w] && Join([v, w], '/') == all;
    TwoWildValues(lm, Leaf(names, Some(r), obj), [v, w], ps);
    WordsJoin([v, w]);
    assert [v, w][1] == w && Piece.All(w);
    FindTwoGroups(Digits, Piece, all, v, w);
    ExpressionLeaf(Find, names, r, obj, all, [v, w], ps);
    BindTwo(ps, ":" + name, ":" + other, v, w);
  }

  lemma LaterPathExtStep(ws: seq<string>, reg: string)
    requires reg != []
    ensures StepOf("*.*", ws, reg) == Step(false, true, PATH_EXT, PATH_EXT_GROUPS)
  {
    assert PartsOf("*.*") == Parts(true, [".", ":path", ":ext"], "") && [".", ":path", ":ext"][1..] == PATH_EXT;
  }

  lemma PathExtText()
    ensures "^" + (Digits.Text() + PATH_EXT_GROUPS) + "$" == "^([0-9]+)/([^.]+).(.+)$"
  {
  }

  /** *.* behind a parameter of digits: the expression of the leaf. */
  lemma PathExtBehindInt(name: string, obj: Object)
    requires IsName(name)
    ensures End([":" + name + ":int", "*.*"], obj)
      == WildTwice(Leaf([":" + name, ":path", ":ext"], Some("^([0-9]+)/([^.]+).(.+)$"), obj))
  {
    IntStep(name);
    LaterPathExtStep([":" + name], Digits.Text());
    TwoExpressions(":" + name + ":int", "*.*", [":" + name], PATH_EXT, Digits.Text(), PATH_EXT_GROUPS, obj);
    assert [":" + name] + PATH_EXT == [":" + name, ":path", ":ext"];
    PathExtText();
  }

  // ---- text behind a star ----

  lemma TextStep(g: string)
    requires IsName(g)
    ensures StepOf(g, SPLAT, []) == Step(false, true, [], "(.+)/" + g)
  {
    assert !NameChar(':') && !NameChar('*');
    assert PartsOf(g) == Parts(false, [], "");
    assert SPLAT[..0] == [] && Groups([]) == [] && Groups(SPLAT) == "(.+)/";
    assert g != "*";
  }

  lemma TextBehindStar(g: string, obj: Object)
    requires IsName(g)
    ensures End(["*", g], obj) == WildTwice(Leaf(SPLAT, Some("^" + (Dot.Text() + (("/" + g) + "$"))), obj))
  {
    SplatStep();
    TextStep(g);
    TwoWild("*", g, SPLAT, [], "(.+)/" + g, obj);
    assert SPLAT + [] == SPLAT;
    assert "^" + ("(.+)/" + g) + "$" == "^" + (Dot.Text() + (("/" + g) + "$"));
  }

  // What the leaf of such a pattern answers.
  lemma StarLeafAnswers(g: string, obj: Object, ws: seq<string>, ps: Params)
    requires IsName(g) && Words(ws) && |ws| >= 2 && Dot.All(Join(ws, '/'))
    ensures var n, l := |ws| - 1, Leaf(SPLAT, Some("^" + (Dot.Text() + (("/" + g) + "$"))), obj);
      TryLeaves(PlainMatcher(Engine()), [l], Join(ws, '/'), ws, ps)
        == if ws[n] == g then Result(Some(obj), ps[":splat" := Join(ws[..n], '/')]) else Result(None, ps)
  {
    var all, n := Join(ws, '/'), |ws| - 1;
    var r, front := "^" + (Dot.Text() + (("/" + g) + "$")), Join(ws[..n], '/');
    NameIsWhole(g);
    WordsJoin(ws);
    assert Plain("/" + g);
    FindGroupThen(Dot, "/" + g, all);
    ExpressionLeaf(Find, SPLAT, r, obj, all, ws, ps);
    JoinEndsIn(ws, g);
    BindOne(ps, ":splat", front);
  }

  lemma BindOne(ps: Params, m: string, v: string)
    ensures BindGroups(ps, [m], [v]) == ps[m := v]
  {
    assert [m][1..] == [] && [v][1..] == [];
    assert BindGroups(ps[m := v], [], []) == ps[m := v];
  }

  /** Text behind a star: a path of more than one segment matches exactly when its last one is the text, and :splat is
      all that stands between. */
  lemma StarThenText(segs: seq<string>, g: string, obj: Object, ws: seq<string>, ps: Params)
    requires (forall s | s in segs :: Static(s)) && IsName(g) && Words(ws) && |ws| >= 2 && Dot.All(Join(ws, '/'))
    ensures var n := |ws| - 1;
      Match(PlainMatcher(Engine()), BuildTexts([Entry(PathOf(segs + ["*", g]), obj)]),
            PathOf(segs) + ("/" + Join(ws, '/')), ps)
        == if ws[n] == g then Result(Some(obj), ps[":splat" := Join(ws[..n], '/')]) else Result(None, ps)
  {
    var lm, all := PlainMatcher(Engine()), Join(ws, '/');
    NameIsWhole(g);
    FormMatches(lm, segs, ["*", g], obj, "/" + all, ps);
    TextBehindStar(g, obj);
    assert ("/" + all)[1..] == all;
    TwoWildValues(lm, Leaf(SPLAT, Some("^" + (Dot.Text() + (("/" + g) + "$"))), obj), ws, ps);
    StarLeafAnswers(g, obj, ws, ps);
  }

  lemma NameIsWhole(g: string)
    requires IsName(g)
    ensures Whole(g) && Whole("*") && '/' !in g
  {
    assert !NameChar('/') && !NameChar(' ');
  }

  // A text behind a slash is the last one of its kind.
  lemma SlashSuffix(front: string, last: string, g: string)
    requires front != [] && '/' !in last && '/' !in g
    ensures var all := front + "/" + last;
      var k := |all| - |g| - 1;
      (k > 0 && all[k..] == "/" + g <==> last == g) && (last == g ==> all[..k] == front)
  {
    var all := front + "/" + last;
    var k := |all| - |g| - 1;
    if |last| < |g| {
      assert k > 0 ==> all[k..][|g| - |last|] == '/';
      assert ("/" + g)[|g| - |last|] == g[|g| - |last| - 1];
    } else if |last| > |g| {
      assert all[k..][0] == last[|last| - |g| - 1];
    } else {
      assert all[k..] == "/" + last && ("/" + last)[1..] == last && ("/" + g)[1..] == g;
    }
  }

  lemma JoinEndsIn(ws: seq<string>, g: string)
    requires Words(ws) && |ws| >= 2 && '/' !in g
    ensures var all, front := Join(ws, '/'), Join(ws[..|ws| - 1], '/');
      var k := |all| - |"/" + g|;
      (k > 0 && all[k..] == "/" + g <==> ws[|ws| - 1] == g) && (ws[|ws| - 1] == g ==> all[..k] == front)
  {
    var n := |ws| - 1;
    assert ws == ws[..n] + [ws[n]] && Words(ws[..n]);
    JoinSnoc(ws[..n], ws[n]);
    JoinHead(ws[..n]);
    SlashSuffix(Join(ws[..n], '/'), ws[n], g);
  }

  // ---- a name and an extension ----

  lemma PathExtStep()
    ensures StepOf("*.*", [], []) == Step(false, true, PATH_EXT, []) && Whole("*.*")
  {
    assert PartsOf("*.*") == Parts(true, [".", ":path", ":ext"], "");
    assert [".", ":path", ":ext"][1..] == PATH_EXT;
  }

  /** A pattern *.* behind a static prefix matches every path of segments below the prefix, and binds :path and :ext
      as its leaf does. */
  lemma PathExtTakesRest(find: Finder, segs: seq<string>, obj: Object, ws: seq<string>, ps: Params)
    requires (forall g | g in segs :: Static(g)) && Words(ws)
    ensures var r := Match(PlainMatcher(Others(find, PathJoin)), BuildTexts([Entry(PathOf(segs + ["*.*"]), obj)]),
                           PathOf(segs) + ("/" + Join(ws, '/')), ps);
      r.found == Some(obj) && PathExtBound([], ws, ps, r.params)
  {
    var lm, all, l := PlainMatcher(Others(find, PathJoin)), Join(ws, '/'), Leaf(PATH_EXT, None, obj);
    PathExtStep();
    FormMatches(lm, segs, ["*.*"], obj, "/" + all, ps);
    OneWild("*.*", PATH_EXT, [], obj);
    assert ("/" + all)[1..] == all;
    ValuesAreWords(lm, [], l, ws, ps);
    assert [] + PATH_EXT == PATH_EXT && AllNonEmpty(ws);
    PathExtRestores(find, [], obj, all, ws, ps);
    OneLeaf(lm, l, all, ws, ps);
  }

  /** Asked for the prefix alone, the search asks its leaf with no values, on which the leaf panics. */
  lemma PathExtPanics(lm: LeafMatcher, segs: seq<string>, obj: Object, ps: Params)
    requires forall g | g in segs :: Static(g)
    ensures Panics(Leaf(PATH_EXT, None, obj), [])
    ensures Match(lm, BuildTexts([Entry(PathOf(segs + ["*.*"]), obj)]), PathOf(segs) + "/", ps)
      == TryLeaves(lm, [Leaf(PATH_EXT, None, obj)], [], [], ps)
  {
    PathExtStep();
    FormMatches(lm, segs, ["*.*"], obj, "/", ps);
    OneWild("*.*", PATH_EXT, [], obj);
    assert "/"[1..] == [];
    NoMore(lm, [], Leaf(PATH_EXT, None, obj), [], ps);
  }

  // ---- a star beside other patterns ----

  // Nothing below the fixed children of a node fits.
  ghost predicate NoFixedFits(lm: LeafMatcher, t: Tree, tp: string, seg: string, tail: string, ps: Params) {
    var tp' := if HasChild(t, seg) then Below(tail) else tp;
    && TryFixed(lm, t, 0, seg, tail, [], ps).found.None?
    && TryExtensions(lm, t, 0, seg, tp', tail, [], Result(None, ps)).found.None?
  }

  /** A star beside fixed patterns of which none fits: :splat is all of the rest exactly when no fixed child has the
      next segment as its prefix; otherwise that segment is missing. */
  lemma SplatBesideFixed(other: LeafMatcher, t: Tree, obj: Object, rest: string, ps: Params)
    requires FailsCleanly(other) && UniquePrefixes(t)
    requires t.wildCard == Some(Tree("", [], None, [Leaf(SPLAT, None, obj)]))
    requires rest != [] && rest[0] != '/'
    requires var seg := FirstSegment(rest); NoFixedFits(PlainMatcher(other), t, rest, seg, rest[|seg|..], ps)
    ensures var seg, r := FirstSegment(rest), Match(PlainMatcher(other), t, "/" + rest, ps);
      && r == Result(Some(obj), ps[":splat" := if HasChild(t, seg) then Below(rest[|seg|..]) else rest])
      && (r.params[":splat"] == rest <==> !HasChild(t, seg))
  {
    var lm, seg := PlainMatcher(other), FirstSegment(rest);
    var tail, w, l := rest[|seg|..], t.wildCard.value, Leaf(SPLAT, None, obj);
    var tp := if HasChild(t, seg) then Below(tail) else rest;
    assert ("/" + rest)[1..] == rest && seg != [];
    SkipOneSlash(rest);
    LeafMatchFailsCleanly(other);
    assert FailsCleanly(lm);
    FixedClean(lm, t, 0, seg, tail, [], ps);
    assert TryFixed(lm, t, 0, seg, tail, [], ps) == Result(None, ps);
    ExtensionsClean(lm, t, 0, seg, tp, tail, [], Result(None, ps));
    assert TryExtensions(lm, t, 0, seg, tp, tail, [], Result(None, ps)) == Result(None, ps);
    assert Match(lm, t, "/" + rest, ps) == MatchSegment(lm, t, rest, seg, tail, [], ps);
    assert [] + [seg] == [seg];
    WildNode(lm, w, l, tp, tail, [seg], ps);
    OneLeaf(lm, l, tp, ValuesBelow([seg], tail), ps);
  }

  // The tree of a page of two static segments and a star.
  function PageAndStar(a: string, b: string, page: Object, obj: Object): Tree {
    var child := Tree(b, [], None, [Leaf([], None, page)]);
    Tree("", [Tree(a, [child], None, [])], Some(Tree("", [], None, [Leaf(SPLAT, None, obj)])), [])
  }

  lemma PageBuilt(a: string, b: string, page: Object)
    requires Static(a) && Static(b)
    ensures BuildTexts([Entry(PathOf([a, b]), page)]) == PageAndStar(a, b, page, 0).(wildCard := None)
  {
    assert [] + [a, b] == [a, b];
    FormTree([], [a, b], page);
    StaticParts(a);
    StaticParts(b);
    assert StepOf(a, [], []) == Step(false, false, [], []) && StepOf(b, [], []) == Step(false, false, [], []);
    assert [a, b][1..] == [b] && [b][1..] == [];
    var leaf := Tree(b, [], None, [Leaf([], None, page)]);
    assert AddText(Tree(b, [], None, []), [], page, [], []) == leaf;
    assert AddText(Tree(a, [], None, []), [b], page, [], []) == Tree(a, [leaf], None, []);
  }

  lemma StarAdded(t: Tree, obj: Object)
    requires t.wildCard.None?
    ensures AddText(t, ["*"], obj, [], []) == t.(wildCard := Some(Tree("", [], None, [Leaf(SPLAT, None, obj)])))
  {
    SplatStep();
    var none: string := [];
    assert ["*"][1..] == [] && [] + SPLAT == SPLAT && none + none == none;
    assert AddText(NEW_TREE, [], obj, SPLAT, []) == NEW_TREE.(leaves := [Leaf(SPLAT, None, obj)]);
    assert AddText(t, ["*"], obj, [], [])
      == t.(wildCard := Some(AddText(NEW_TREE, ["*"][1..], obj, [] + SPLAT, none + none)));
  }

  lemma PageAndStarBuilt(a: string, b: string, page: Object, obj: Object)
    requires Static(a) && Static(b)
    ensures BuildTexts([Entry(PathOf([a, b]), page), Entry("/*", obj)]) == PageAndStar(a, b, page, obj)
  {
    var es := [Entry(PathOf([a, b]), page), Entry("/*", obj)];
    SplitPathOf(["*"]);
    assert PathOf(["*"]) == "/*" && es[..1] == [es[0]];
    PageBuilt(a, b, page);
    StarAdded(BuildTexts(es[..1]), obj);
  }

  // Beside the page there is nothing below its first segment.
  lemma NoOtherPage(other: LeafMatcher, a: string, b: string, c: string, page: Object, ps: Params)
    requires c != [] && '/' !in c && '.' !in c && c != b
    ensures var child := Tree(a, [Tree(b, [], None, [Leaf([], None, page)])], None, []);
      MatchNode(PlainMatcher(other), child, c, "/" + c, [], ps) == Result(None, ps)
  {
    var lm, leaf := PlainMatcher(other), Tree(b, [], None, [Leaf([], None, page)]);
    var child := Tree(a, [leaf], None, []);
    SegmentPath(c, []);
    assert c + [] == c && c[|c|..] == [];
    assert child.fixRouters[0] == leaf && !HasChild(child, c);
    assert TryFixed(lm, child, 1, c, [], [], ps) == Result(None, ps);
    assert TryFixed(lm, child, 0, c, [], [], ps) == Result(None, ps);
    forall k | 0 <= k < |EXTENSIONS| ensures !HasSuffix(c, EXTENSIONS[k]) {
      assert EXTENSIONS[k][0] == '.';
      assert |EXTENSIONS[k]| <= |c| ==> c[|c| - |EXTENSIONS[k]|..][0] in c;
    }
    ExtensionsInert(lm, child, 0, c, c, [], [], Result(None, ps));
  }

  /** A page /a/b and a star: a request for /a/c gets the star, with c instead of a/c as :splat. */
  lemma StarLosesSegment(other: LeafMatcher, a: string, b: string, c: string, page: Object, obj: Object, ps: Params)
    requires FailsCleanly(other) && Static(a) && Static(b) && c != [] && '/' !in c && '.' !in c && c != b
    ensures Match(PlainMatcher(other), BuildTexts([Entry(PathOf([a, b]), page), Entry("/*", obj)]),
                  "/" + (a + ("/" + c)), ps) == Result(Some(obj), ps[":splat" := c])
  {
    var lm, t, rest, tail := PlainMatcher(other), PageAndStar(a, b, page, obj), a + ("/" + c), "/" + c;
    PageAndStarBuilt(a, b, page, obj);
    TextsUnique([Entry(PathOf([a, b]), page), Entry("/*", obj)]);
    NotSlash(a, tail);
    SegmentThenRest(a, tail);
    assert FirstSegment(rest) == a && rest[|a|..] == tail && Below(tail) == c;
    NoOtherPage(other, a, b, c, page, ps);
    assert t.fixRouters[0].prefix == a && HasChild(t, a) by {
      assert t.fixRouters[0] in t.fixRouters;
    }
    assert TryFixed(lm, t, 1, a, tail, [], ps) == Result(None, ps);
    assert TryFixed(lm, t, 0, a, tail, [], ps) == Result(None, ps);
    NoExtensionChild(lm, t, 0, a, c, tail, [], Result(None, ps));
    assert NoFixedFits(lm, t, rest, a, tail, ps);
    SplatBesideFixed(other, t, obj, rest, ps);
  }
}
