/** The routing tree of tree.go. Nodes are values; the context is the map of its parameters. */
module RouteTree {
  import opened Wrappers
  import opened Text

  type Object = nat
  type Params = map<string, string>

  // A leaf, with the text of its regular expression if it has one; what an expression matches stays abstract.
  datatype Leaf = Leaf(wildcards: seq<string>, regexp: Option<string>, runObject: Object)

  datatype Tree = Tree(prefix: string, fixRouters: seq<Tree>, wildCard: Option<Tree>, leaves: seq<Leaf>)

  // What a leaf does with the rest of the path, the wildcard values and the context.
  type LeafMatcher = (Leaf, string, seq<string>, Params) -> (bool, Params)

  datatype Result = Result(found: Option<Object>, params: Params)

  const NEW_TREE := Tree("", [], None, [])

  // ---- paths ----

  function SkipSlashes(s: string): (r: string)
    ensures |r| <= |s| && (r != [] ==> r[0] != '/')
  {
    if s != [] && s[0] == '/' then SkipSlashes(s[1..]) else s
  }

  // The characters before the next slash.
  function FirstSegment(s: string): (r: string)
    ensures |r| <= |s| && s[..|r|] == r && '/' !in r && (|r| < |s| ==> s[|r|] == '/')
  {
    if s == [] || s[0] == '/' then [] else [s[0]] + FirstSegment(s[1..])
  }

  predicate HasSuffix(s: string, suffix: string) {
    |suffix| <= |s| && s[|s| - |suffix|..] == suffix
  }

  const EXTENSIONS := [".json", ".xml", ".html"]

  // ---- match ----

  function TryLeaves(lm: LeafMatcher, leaves: seq<Leaf>, treePattern: string, values: seq<string>,
                     params: Params): Result {
    if leaves == [] then Result(None, params)
    else
      var (ok, params') := lm(leaves[0], treePattern, values, params);
      if ok then Result(Some(leaves[0].runObject), params')
      else TryLeaves(lm, leaves[1..], treePattern, values, params')
  }

  // What follows a segment, without its slash: the new treePattern.
  function Below(rest: string): string {
    if rest != [] && rest[0] == '/' then rest[1..] else rest
  }

  // The fixed children from i on whose prefix is the segment; the first hit ends the search.
  function TryFixed(lm: LeafMatcher, t: Tree, i: nat, seg: string, rest: string, values: seq<string>,
                    params: Params): Result
    requires i <= |t.fixRouters|
    decreases t, |t.fixRouters| - i
  {
    if i == |t.fixRouters| then Result(None, params)
    else if t.fixRouters[i].prefix == seg then
      var r := MatchNode(lm, t.fixRouters[i], Below(rest), rest, values, params);
      if r.found.Some? then r else TryFixed(lm, t, i + 1, seg, rest, values, r.params)
    else TryFixed(lm, t, i + 1, seg, rest, values, params)
  }

  predicate HasChild(t: Tree, seg: string) {
    exists c | c in t.fixRouters :: c.prefix == seg
  }

  // The loop over the children for one extension: it does not stop at a hit.
  function TryExtension(lm: LeafMatcher, t: Tree, i: nat, seg: string, ext: string, treePattern: string,
                        rest: string, values: seq<string>, sofar: Result): Result
    requires i <= |t.fixRouters| && ext != []
    decreases t, |t.fixRouters| - i
  {
    if i == |t.fixRouters| then sofar
    else if t.fixRouters[i].prefix + ext == seg then
      var r := MatchNode(lm, t.fixRouters[i], treePattern, rest, values, sofar.params);
      var r' := if r.found.Some? then Result(r.found, r.params[":ext" := ext[1..]]) else r;
      TryExtension(lm, t, i + 1, seg, ext, treePattern, rest, values, r')
    else TryExtension(lm, t, i + 1, seg, ext, treePattern, rest, values, sofar)
  }

  function TryExtensions(lm: LeafMatcher, t: Tree, k: nat, seg: string, treePattern: string,
                         rest: string, values: seq<string>, sofar: Result): Result
    requires k <= |EXTENSIONS|
    decreases t, |t.fixRouters| + 1, |EXTENSIONS| - k
  {
    if k == |EXTENSIONS| then sofar
    else
      var r := if HasSuffix(seg, EXTENSIONS[k])
               then TryExtension(lm, t, 0, seg, EXTENSIONS[k], treePattern, rest, values, sofar) else sofar;
      TryExtensions(lm, t, k + 1, seg, treePattern, rest, values, r)
  }

  // The values for the node's own leaves: the segment and all later ones.
  function AllValues(values: seq<string>, seg: string, rest: string): seq<string> {
    values + [seg] + if rest == [] then [] else Split(Below(rest), '/')
  }

  function MatchNode(lm: LeafMatcher, t: Tree, treePattern: string, pattern: string, values: seq<string>,
                     params: Params): Result
    decreases t, |t.fixRouters| + 3
  {
    var p := SkipSlashes(pattern);
    if p == [] then
      var r := TryLeaves(lm, t.leaves, treePattern, values, params);
      if r.found.None? && t.wildCard.Some?
      then TryLeaves(lm, t.wildCard.value.leaves, treePattern, values, r.params) else r
    else
      var seg := FirstSegment(p);
      MatchSegment(lm, t, treePattern, seg, p[|seg|..], values, params)
  }

  // The part of match after the next segment has been split off.
  function MatchSegment(lm: LeafMatcher, t: Tree, treePattern: string, seg: string, rest: string, values: seq<string>,
                        params: Params): Result
    decreases t, |t.fixRouters| + 2
  {
    // a child with this prefix leaves treePattern shortened, found or not
    var tp := if HasChild(t, seg) then Below(rest) else treePattern;
    var fixed := TryFixed(lm, t, 0, seg, rest, values, params);
    var ext := if fixed.found.None? then TryExtensions(lm, t, 0, seg, tp, rest, values, fixed) else fixed;
    var wild := if ext.found.None? && t.wildCard.Some?
                then MatchNode(lm, t.wildCard.value, tp, rest, values + [seg], ext.params) else ext;
    if wild.found.None? && t.leaves != []
    then TryLeaves(lm, t.leaves, tp, AllValues(values, seg, rest), wild.params) else wild
  }

  function Match(lm: LeafMatcher, t: Tree, path: string, params: Params): Result {
    if path == [] || path[0] != '/' then Result(None, params)
    else MatchNode(lm, t, path[1..], path, [], params)
  }

  // ---- leaves ----

  function Bind(params: Params, names: seq<string>, values: seq<string>): Params
    requires |names| <= |values|
    decreases names
  {
    if names == [] then params else Bind(params[names[0] := values[0]], names[1..], values[1..])
  }

  // Leaves of *.* patterns end in these two names.
  predicate EndsInPathExt(names: seq<string>) {
    |names| >= 2 && names[|names| - 2] == ":path" && names[|names| - 1] == ":ext"
  }

  // leafInfo.match; what regular expressions and *.* leaves do is given by other.
  function LeafMatch(other: LeafMatcher, leaf: Leaf, treePattern: string, values: seq<string>, params: Params)
    : (bool, Params)
  {
    if leaf.regexp.Some? then other(leaf, treePattern, values, params)
    else if values == [] && leaf.wildcards == [] then (true, params)
    else if leaf.wildcards == [":splat"] then (true, params[":splat" := treePattern])
    else if EndsInPathExt(leaf.wildcards) then other(leaf, treePattern, values, params)
    else if |leaf.wildcards| != |values| then (false, params)
    else (true, Bind(params, leaf.wildcards, values))
  }
}
