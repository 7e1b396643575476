/** leafInfo.match for leaves with an expression and for leaves of *.* patterns. What an expression finds, and how
    path.Join cleans what it joins, are parameters. */
module RouteLeaves {
  import opened Wrappers
  import opened Text
  import opened RouteTree
  import opened RouteParams
  import opened RouteTheorems

  // The groups that an expression finds in a text.
  type Finder = (string, string) -> Option<seq<string>>

  type Joiner = seq<string> -> string

  function BindGroups(ps: Params, names: seq<string>, groups: seq<string>): Params
    decreases names
  {
    if names == [] || groups == [] then ps else BindGroups(ps[names[0] := groups[0]], names[1..], groups[1..])
  }

  // strings.SplitN at the first dot.
  function CutDot(s: string): (r: (string, Option<string>))
    ensures '.' !in r.0 && s == r.0 + if r.1.Some? then "." + r.1.value else ""
  {
    if s == [] then ([], None)
    else if s[0] == '.' then ([], Some(s[1..]))
    else
      var (stem, ext) := CutDot(s[1..]);
      ([s[0]] + stem, ext)
  }

  // The parameters of a *.* leaf: the names before it, the last value's extension, and the rest as the path.
  function PathExtParams(join: Joiner, ps: Params, names: seq<string>, values: seq<string>): Params
    requires |names| >= 2 && values != [] && |names| - 2 <= |values|
  {
    var k, n := |names| - 2, |values| - 1;
    var (stem, ext) := CutDot(values[n]);
    var bound := Bind(ps, names[..k], values);
    var extended := if ext.Some? then bound[":ext" := ext.value] else bound;
    extended[":path" := if k > n then "" else join([join(values[k..n]), stem])]
  }

  // A *.* leaf indexes past the values that it is given.
  predicate Panics(leaf: Leaf, values: seq<string>) {
    && leaf.regexp.None? && EndsInPathExt(leaf.wildcards)
    && if |leaf.wildcards| == 2 then values == [] else 2 <= |values| < |leaf.wildcards| - 2
  }

  // A panic counts as no match here.
  function Others(find: Finder, join: Joiner): LeafMatcher {
    (l: Leaf, tp: string, vs: seq<string>, ps: Params) =>
      if l.regexp.Some? then
        match find(l.regexp.value, join(vs))
        case None => (false, ps)
        case Some(groups) => (true, BindGroups(ps, l.wildcards, groups))
      else if !EndsInPathExt(l.wildcards) || Panics(l, vs) || (|l.wildcards| > 2 && |vs| < 2) then (false, ps)
      else (true, PathExtParams(join, ps, l.wildcards, vs))
  }

  /** A leaf that does not match sets no parameter, whatever expressions find. */
  lemma LeavesFailCleanly(find: Finder, join: Joiner)
    ensures FailsCleanly(PlainMatcher(Others(find, join)))
  {
    assert FailsCleanly(Others(find, join));
    LeafMatchFailsCleanly(Others(find, join));
  }

  // ---- what a *.* leaf binds ----

  // path.Join for words that need no cleaning: empty ones do not count.
  function PathJoin(words: seq<string>): string {
    Join(NonEmpty(words), '/')
  }

  predicate AllNonEmpty(words: seq<string>) {
    forall i | 0 <= i < |words| :: words[i] != []
  }

  lemma NonEmptyAll(words: seq<string>)
    requires AllNonEmpty(words)
    ensures NonEmpty(words) == words
  {
    NonEmptyKeepsAll(words);
  }

  lemma {:induction false} JoinSnoc(words: seq<string>, w: string)
    requires words != []
    ensures Join(words + [w], '/') == Join(words, '/') + "/" + w
  {
    if |words| > 1 {
      JoinSnoc(words[1..], w);
      assert (words + [w])[1..] == words[1..] + [w];
    } else {
      assert (words + [w])[1..] == [w];
    }
  }

  lemma JoinTwo(a: string, b: string)
    ensures PathJoin([a, b]) == if a == [] then b else if b == [] then a else a + "/" + b
  {
    assert [a, b][1..] == [b] && [b][1..] == [] && NonEmpty([]) == [];
    var bs := if b == [] then [] else [b];
    assert NonEmpty([b]) == bs;
    assert NonEmpty([a, b]) == (if a == [] then [] else [a]) + bs;
    assert [a, b] == [a] + [b] && [a] + [] == [a] && [] + bs == bs;
    assert Join([a, b], '/') == a + ['/'] + Join([b], '/');
  }

  // The last value has something in front of its dot, or is the only one.
  predicate HasStem(values: seq<string>)
    requires values != []
  {
    |values| == 1 || values[|values| - 1] == [] || values[|values| - 1][0] != '.'
  }

  // The path that the two parameters of a *.* leaf stand for.
  function Restored(path: string, ext: Option<string>): string {
    if ext.Some? then path + "." + ext.value else path
  }

  lemma JoinedFront(front: seq<string>, last: string)
    requires front != [] && AllNonEmpty(front) && last != []
    ensures PathJoin(front) != [] && PathJoin(front + [last]) == PathJoin(front) + "/" + last
  {
    NonEmptyAll(front);
    NonEmptyAll(front + [last]);
    JoinSnoc(front, last);
    assert PathJoin(front)[..|front[0]|] == front[0];
  }

  lemma PathOfValues(values: seq<string>)
    requires values != [] && AllNonEmpty(values)
    ensures var n := |values| - 1;
      var (stem, ext) := CutDot(values[n]);
      Restored(PathJoin([PathJoin(values[..n]), stem]), ext) == PathJoin(values) <==> HasStem(values)
  {
    var n := |values| - 1;
    var (stem, ext) := CutDot(values[n]);
    var front, joined := values[..n], PathJoin(values[..n]);
    JoinTwo(joined, stem);
    if n == 0 {
      NonEmptyAll(values);
      assert front == [] && joined == [];
    } else {
      assert values == front + [values[n]];
      JoinedFront(front, values[n]);
      if stem == [] {
        assert |Restored(joined, ext)| < |PathJoin(values)|;
      } else {
        assert Restored(joined + "/" + stem, ext) == joined + "/" + values[n];
      }
    }
  }

  const PATH_EXT := [":path", ":ext"]

  // What a *.* leaf with names before it makes of its values, with the last one cut at its dot.
  ghost predicate PathExtBound(before: seq<string>, values: seq<string>, ps: Params, r: Params)
    requires |before| < |values|
  {
    var k, ext := |before|, CutDot(values[|values| - 1]).1;
    && (forall i | 0 <= i < k && before[i] !in before[i + 1..] + PATH_EXT ::
          before[i] in r && r[before[i]] == values[i])
    && (forall key | key !in before + PATH_EXT :: (key in r <==> key in ps) && (key in r ==> r[key] == ps[key]))
    && ":path" in r && (ext.Some? ==> ":ext" in r && r[":ext"] == ext.value)
    && (ext.None? && ":ext" !in before ==> (":ext" in r <==> ":ext" in ps) && (":ext" in r ==> r[":ext"] == ps[":ext"]))
    && (Restored(r[":path"], ext) == PathJoin(values[k..]) <==> HasStem(values[k..]))
  }

  /** A *.* leaf gives each name before it its own value, and its last two names the rest: put together they are the
      path of the rest exactly when its last value is not an extension alone behind others, so that a/.json comes
      back as a.json. Without a dot in the last value an older :ext stays. */
  lemma PathExtRestores(find: Finder, before: seq<string>, obj: Object, tp: string, values: seq<string>, ps: Params)
    requires |before| < |values| && AllNonEmpty(values)
    ensures var (ok, r) := PlainMatcher(Others(find, PathJoin))(Leaf(before + PATH_EXT, None, obj), tp, values, ps);
      ok && PathExtBound(before, values, ps, r)
  {
    PathExtLeaf(find, before, obj, tp, values, ps);
    PathExtPath(before, values, ps);
    PathExtNames(before, values, ps, PathExtParams(PathJoin, ps, before + PATH_EXT, values));
  }

  lemma PathExtLeaf(find: Finder, before: seq<string>, obj: Object, tp: string, values: seq<string>, ps: Params)
    requires |before| < |values|
    ensures PlainMatcher(Others(find, PathJoin))(Leaf(before + PATH_EXT, None, obj), tp, values, ps)
      == (true, PathExtParams(PathJoin, ps, before + PATH_EXT, values))
  {
    var names, k := before + PATH_EXT, |before|;
    assert names[k] == ":path" && names[k + 1] == ":ext";
    assert EndsInPathExt(names) && !Panics(Leaf(names, None, obj), values);
  }

  lemma PathExtPath(before: seq<string>, values: seq<string>, ps: Params)
    requires |before| < |values| && AllNonEmpty(values)
    ensures var r := PathExtParams(PathJoin, ps, before + PATH_EXT, values);
      var ext, rest := CutDot(values[|values| - 1]).1, values[|before|..];
      && ":path" in r && (ext.Some? ==> ":ext" in r && r[":ext"] == ext.value)
      && (Restored(r[":path"], ext) == PathJoin(rest) <==> HasStem(rest))
  {
    var k, n, rest := |before|, |values| - 1, values[|before|..];
    assert values[k..n] == rest[..|rest| - 1] && values[n] == rest[|rest| - 1];
    PathOfValues(rest);
  }

  lemma PathExtNames(before: seq<string>, values: seq<string>, ps: Params, r: Params)
    requires |before| < |values| && AllNonEmpty(values) && r == PathExtParams(PathJoin, ps, before + PATH_EXT, values)
    ensures forall i | 0 <= i < |before| && before[i] !in before[i + 1..] + PATH_EXT ::
      before[i] in r && r[before[i]] == values[i]
    ensures forall key | key !in before + PATH_EXT :: (key in r <==> key in ps) && (key in r ==> r[key] == ps[key])
    ensures CutDot(values[|values| - 1]).1.None? && ":ext" !in before ==>
      (":ext" in r <==> ":ext" in ps) && (":ext" in r ==> r[":ext"] == ps[":ext"])
  {
    assert (before + PATH_EXT)[..|before|] == before;
    forall i | 0 <= i < |before| && before[i] !in before[i + 1..] + PATH_EXT
      ensures before[i] in r && r[before[i]] == values[i]
    {
      assert before[i] !in PATH_EXT && forall j | i < j < |before| :: before[j] == before[i + 1..][j - i - 1];
      assert ":path" in PATH_EXT && ":ext" in PATH_EXT;
      BindEach(ps, before, values, i);
    }
    forall key | key !in before ensures (key in Bind(ps, before, values) <==> key in ps)
      && (key in ps ==> Bind(ps, before, values)[key] == ps[key])
    {
      BindOthers(ps, before, values, key);
    }
    assert ":path" in before + PATH_EXT && ":ext" in before + PATH_EXT;
  }
}
