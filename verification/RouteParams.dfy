/** A failed match leaves the context as it was. */
module RouteParams {
  import opened RouteTree

  // No two children of a node share a prefix.
  ghost predicate UniquePrefixes(t: Tree) {
    && (forall i, j | 0 <= i < j < |t.fixRouters| :: t.fixRouters[i].prefix != t.fixRouters[j].prefix)
    && (forall c | c in t.fixRouters :: UniquePrefixes(c))
    && (t.wildCard.Some? ==> UniquePrefixes(t.wildCard.value))
  }

  // A leaf that does not match sets nothing.
  ghost predicate FailsCleanly(lm: LeafMatcher) {
    forall l, tp, vs, ps :: !lm(l, tp, vs, ps).0 ==> lm(l, tp, vs, ps).1 == ps
  }

  ghost predicate Clean(r: Result, params: Params) {
    r.found.None? ==> r.params == params
  }

  lemma LeafMatchFailsCleanly(other: LeafMatcher)
    requires FailsCleanly(other)
    ensures FailsCleanly((l, tp, vs, ps) => LeafMatch(other, l, tp, vs, ps))
  {
  }

  lemma {:induction false} LeavesClean(lm: LeafMatcher, leaves: seq<Leaf>, tp: string, vs: seq<string>, ps: Params)
    requires FailsCleanly(lm)
    ensures Clean(TryLeaves(lm, leaves, tp, vs, ps), ps)
  {
    if leaves != [] {
      LeavesClean(lm, leaves[1..], tp, vs, ps);
    }
  }

  lemma {:induction false} FixedClean(lm: LeafMatcher, t: Tree, i: nat, seg: string, rest: string, vs: seq<string>,
                                      ps: Params)
    requires FailsCleanly(lm) && UniquePrefixes(t) && i <= |t.fixRouters|
    ensures Clean(TryFixed(lm, t, i, seg, rest, vs, ps), ps)
    decreases t, |t.fixRouters| - i
  {
    if i < |t.fixRouters| {
      MatchClean(lm, t.fixRouters[i], Below(rest), rest, vs, ps);
      FixedClean(lm, t, i + 1, seg, rest, vs, ps);
    }
  }

  // Children without the prefix in question change nothing.
  lemma {:induction false} ExtensionSkips(lm: LeafMatcher, t: Tree, i: nat, seg: string, ext: string, tp: string,
                                          rest: string, vs: seq<string>, sofar: Result)
    requires i <= |t.fixRouters| && ext != []
    requires forall j | i <= j < |t.fixRouters| :: t.fixRouters[j].prefix + ext != seg
    ensures TryExtension(lm, t, i, seg, ext, tp, rest, vs, sofar) == sofar
    decreases |t.fixRouters| - i
  {
    if i < |t.fixRouters| {
      ExtensionSkips(lm, t, i + 1, seg, ext, tp, rest, vs, sofar);
    }
  }

  lemma SamePrefix(a: string, b: string, ext: string)
    requires a + ext == b + ext
    ensures a == b
  {
    assert a == (a + ext)[..|a|] && b == (b + ext)[..|b|];
  }

  lemma {:induction false} ExtensionClean(lm: LeafMatcher, t: Tree, i: nat, seg: string, ext: string, tp: string,
                                          rest: string, vs: seq<string>, sofar: Result)
    requires FailsCleanly(lm) && UniquePrefixes(t) && i <= |t.fixRouters| && ext != [] && sofar.found.None?
    ensures Clean(TryExtension(lm, t, i, seg, ext, tp, rest, vs, sofar), sofar.params)
    decreases t, |t.fixRouters| - i
  {
    if i < |t.fixRouters| {
      if t.fixRouters[i].prefix + ext == seg {
        MatchClean(lm, t.fixRouters[i], tp, rest, vs, sofar.params);
        forall j | i + 1 <= j < |t.fixRouters| ensures t.fixRouters[j].prefix + ext != seg {
          if t.fixRouters[j].prefix + ext == seg {
            SamePrefix(t.fixRouters[i].prefix, t.fixRouters[j].prefix, ext);
          }
        }
        var r := MatchNode(lm, t.fixRouters[i], tp, rest, vs, sofar.params);
        var r' := if r.found.Some? then Result(r.found, r.params[":ext" := ext[1..]]) else r;
        ExtensionSkips(lm, t, i + 1, seg, ext, tp, rest, vs, r');
      } else {
        ExtensionClean(lm, t, i + 1, seg, ext, tp, rest, vs, sofar);
      }
    }
  }

  lemma OneExtension(seg: string, j: nat, k: nat)
    requires j < k < |EXTENSIONS| && HasSuffix(seg, EXTENSIONS[j])
    ensures !HasSuffix(seg, EXTENSIONS[k])
  {
    if HasSuffix(seg, EXTENSIONS[k]) {
      SuffixLetter(seg, EXTENSIONS[j]);
      SuffixLetter(seg, EXTENSIONS[k]);
    }
  }

  // The third letter from the end tells the extensions apart.
  lemma SuffixLetter(seg: string, ext: string)
    requires |ext| >= 3 && HasSuffix(seg, ext)
    ensures |seg| >= 3 && seg[|seg| - 3] == ext[|ext| - 3]
  {
    assert seg[|seg| - |ext|..][|ext| - 3] == seg[|seg| - 3];
  }

  lemma {:induction false} ExtensionsClean(lm: LeafMatcher, t: Tree, k: nat, seg: string, tp: string,
                                           rest: string, vs: seq<string>, sofar: Result)
    requires FailsCleanly(lm) && UniquePrefixes(t) && k <= |EXTENSIONS|
    requires sofar.found.Some? ==> forall j | k <= j < |EXTENSIONS| :: !HasSuffix(seg, EXTENSIONS[j])
    ensures Clean(TryExtensions(lm, t, k, seg, tp, rest, vs, sofar), sofar.params)
    ensures sofar.found.Some? ==> TryExtensions(lm, t, k, seg, tp, rest, vs, sofar) == sofar
    decreases t, |t.fixRouters| + 1, |EXTENSIONS| - k
  {
    if k < |EXTENSIONS| {
      if HasSuffix(seg, EXTENSIONS[k]) {
        ExtensionClean(lm, t, 0, seg, EXTENSIONS[k], tp, rest, vs, sofar);
        forall j | k < j < |EXTENSIONS| ensures !HasSuffix(seg, EXTENSIONS[j]) {
          OneExtension(seg, k, j);
        }
        var r := TryExtension(lm, t, 0, seg, EXTENSIONS[k], tp, rest, vs, sofar);
        ExtensionsClean(lm, t, k + 1, seg, tp, rest, vs, r);
      } else {
        ExtensionsClean(lm, t, k + 1, seg, tp, rest, vs, sofar);
      }
    }
  }

  /** On a tree whose children have unique prefixes, a match that fails has set no parameter. */
  lemma {:induction false} MatchClean(lm: LeafMatcher, t: Tree, tp: string, pattern: string, vs: seq<string>,
                                      ps: Params)
    requires FailsCleanly(lm) && UniquePrefixes(t)
    ensures Clean(MatchNode(lm, t, tp, pattern, vs, ps), ps)
    decreases t, |t.fixRouters| + 3
  {
    var p := SkipSlashes(pattern);
    if p == [] {
      LeavesClean(lm, t.leaves, tp, vs, ps);
      if t.wildCard.Some? {
        LeavesClean(lm, t.wildCard.value.leaves, tp, vs, ps);
      }
    } else {
      var seg := FirstSegment(p);
      var rest := p[|seg|..];
      var tp' := if HasChild(t, seg) then Below(rest) else tp;
      FixedClean(lm, t, 0, seg, rest, vs, ps);
      var fixed := TryFixed(lm, t, 0, seg, rest, vs, ps);
      if fixed.found.None? {
        ExtensionsClean(lm, t, 0, seg, tp', rest, vs, fixed);
        var ext := TryExtensions(lm, t, 0, seg, tp', rest, vs, fixed);
        if ext.found.None? {
          if t.wildCard.Some? {
            MatchClean(lm, t.wildCard.value, tp', rest, vs + [seg], ps);
          }
          LeavesClean(lm, t.leaves, tp', AllValues(vs, seg, rest), ps);
        }
      }
    }
  }

  lemma FailedMatchKeepsParams(lm: LeafMatcher, t: Tree, path: string, ps: Params)
    requires FailsCleanly(lm) && UniquePrefixes(t) && Match(lm, t, path, ps).found.None?
    ensures Match(lm, t, path, ps).params == ps
  {
    if path != [] && path[0] == '/' {
      MatchClean(lm, t, path[1..], path, [], ps);
    }
  }
}
