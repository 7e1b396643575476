/** AddRouter and addSeg: what the text of a pattern puts into a tree. */
module RouteTexts {
  import opened Wrappers
  import opened RouteTree
  import opened RouteParams
  import opened RouteTheorems
  import opened RouteSegments

  // ---- addSeg ----

  // What a segment adds behind the names and the expression of the segments before it.
  datatype Step = Step(optional: bool, isWild: bool, names: seq<string>, reg: string)

  // The groups for the names before the first expression.
  function Groups(names: seq<string>): string {
    if names == [] then []
    else
      var n := |names| - 1;
      Groups(names[..n]) + if names[n] == ":splat" then "(.+)/" else "([^/]+)/"
  }

  // The groups for names without an expression behind one.
  function LaterGroups(n: nat): string {
    if n == 0 then [] else "/([^/]+)" + LaterGroups(n - 1)
  }

  const PATH_EXT_GROUPS := "/([^.]+).(.+)"

  function StepOf(seg: string, wildcards: seq<string>, reg: string): Step {
    var p := PartsOf(seg);
    var optional := p.params != [] && p.params[0] == ":";
    var names := if optional then p.params[1..] else p.params;
    // a fixed segment somewhere behind a star
    var late := !p.isWild && ":splat" in wildcards;
    var expr := if seg == "*" && wildcards != [] && reg == [] then "(.+)" else if late then seg else p.reg;
    if !p.isWild && !late then Step(optional, false, [], [])
    else if expr != [] then Step(optional, true, names, if reg == [] then Groups(wildcards) + expr else "/" + expr)
    else if seg == "*.*" then Step(optional, true, names[1..], if reg == [] then [] else PATH_EXT_GROUPS)
    else Step(optional, true, names, if reg == [] then [] else LaterGroups(|names|))
  }

  // An optional segment is left out first and then put in.
  function AddText(t: Tree, segs: seq<string>, obj: Object, wildcards: seq<string>, reg: string): Tree
    decreases |segs|
  {
    if segs == [] then
      t.(leaves := t.leaves + [Leaf(wildcards, if reg == [] then None else Some("^" + reg + "$"), obj)])
    else
      var s := StepOf(segs[0], wildcards, reg);
      var t' := if s.optional then AddText(t, segs[1..], obj, wildcards, reg) else t;
      if s.isWild then
        var w := if t'.wildCard.Some? then t'.wildCard.value else NEW_TREE;
        t'.(wildCard := Some(AddText(w, segs[1..], obj, wildcards + s.names, reg + s.reg)))
      else
        WithChild(t', segs[0], AddText(Child(t', segs[0]), segs[1..], obj, wildcards, reg))
  }

  // A pattern as it is written, and what it leads to.
  datatype Entry = Entry(text: string, obj: Object)

  function BuildTexts(entries: seq<Entry>): Tree {
    if entries == [] then NEW_TREE
    else
      var n := |entries| - 1;
      AddText(BuildTexts(entries[..n]), SplitPath(entries[n].text), entries[n].obj, [], [])
  }

  lemma {:induction false} AddTextPrefix(t: Tree, segs: seq<string>, obj: Object, wildcards: seq<string>, reg: string)
    ensures AddText(t, segs, obj, wildcards, reg).prefix == t.prefix
    decreases |segs|
  {
    if segs != [] {
      AddTextPrefix(t, segs[1..], obj, wildcards, reg);
    }
  }

  lemma ChildUnique(t: Tree, text: string, sub: Tree)
    requires UniquePrefixes(t)
    ensures UniquePrefixes(Child(t, text)) && Child(t, text).prefix == text
    ensures UniquePrefixes(sub) && sub.prefix == text ==> UniquePrefixes(WithChild(t, text, sub))
  {
  }

  lemma {:induction false} AddTextUnique(t: Tree, segs: seq<string>, obj: Object, wildcards: seq<string>, reg: string)
    requires UniquePrefixes(t)
    ensures UniquePrefixes(AddText(t, segs, obj, wildcards, reg))
    decreases |segs|
  {
    if segs != [] {
      var s := StepOf(segs[0], wildcards, reg);
      AddTextUnique(t, segs[1..], obj, wildcards, reg);
      var t' := if s.optional then AddText(t, segs[1..], obj, wildcards, reg) else t;
      if s.isWild {
        var w := if t'.wildCard.Some? then t'.wildCard.value else NEW_TREE;
        AddTextUnique(w, segs[1..], obj, wildcards + s.names, reg + s.reg);
      } else {
        var c := Child(t', segs[0]);
        ChildUnique(t', segs[0], AddText(c, segs[1..], obj, wildcards, reg));
        AddTextUnique(c, segs[1..], obj, wildcards, reg);
        AddTextPrefix(c, segs[1..], obj, wildcards, reg);
      }
    }
  }

  /** Whatever is registered, a tree that AddRouter built has unique child prefixes. */
  lemma {:induction false} TextsUnique(entries: seq<Entry>)
    ensures UniquePrefixes(BuildTexts(entries))
  {
    if entries != [] {
      var n := |entries| - 1;
      TextsUnique(entries[..n]);
      AddTextUnique(BuildTexts(entries[..n]), SplitPath(entries[n].text), entries[n].obj, [], []);
    }
  }

  // ---- plain patterns ----

  // The plain kinds of segment, as splitSegment reads them; None for all others.
  function SegmentOf(seg: string): Option<Segment> {
    var p := PartsOf(seg);
    if !p.isWild then Some(Fixed(seg))
    else if |p.params| == 1 && p.reg == [] && p.params[0] != ":splat" && p.params[0] != ":" then Some(Wild(p.params[0]))
    else None
  }

  function SegmentsOf(segs: seq<string>): Option<Pattern> {
    if segs == [] then Some([])
    else
      match (SegmentOf(segs[0]), SegmentsOf(segs[1..]))
      case (Some(g), Some(p)) => Some([g] + p)
      case _ => None
  }

  function PatternOf(text: string): Option<Pattern> {
    SegmentsOf(SplitPath(text))
  }

  /** addSeg on the text of a plain pattern is addSeg on the pattern. */
  lemma {:induction false} PlainText(t: Tree, segs: seq<string>, obj: Object, wildcards: seq<string>)
    requires SegmentsOf(segs).Some? && ":splat" !in wildcards
    ensures AddText(t, segs, obj, wildcards, []) == AddSeg(t, SegmentsOf(segs).value, obj, wildcards)
    decreases |segs|
  {
    if segs != [] {
      var p := SegmentsOf(segs).value;
      assert p[1..] == SegmentsOf(segs[1..]).value;
      PlainStep(segs[0], wildcards);
      match p[0] {
        case Fixed(text) =>
          PlainText(Child(t, text), segs[1..], obj, wildcards);
        case Wild(name) =>
          var w := if t.wildCard.Some? then t.wildCard.value else NEW_TREE;
          assert [] + StepOf(segs[0], wildcards, []).reg == [];
          PlainText(w, segs[1..], obj, wildcards + [name]);
      }
    }
  }

  lemma PlainStep(seg: string, wildcards: seq<string>)
    requires SegmentOf(seg).Some? && ":splat" !in wildcards
    ensures StepOf(seg, wildcards, []) ==
      match SegmentOf(seg).value
      case Fixed(_) => Step(false, false, [], [])
      case Wild(name) => Step(false, true, [name], [])
  {
    assert PartsOf("*").params == [":splat"] && |PartsOf("*.*").params| == 3;
    UnwildHasNoParams(seg);
  }

  lemma UnwildHasNoParams(seg: string)
    ensures !PartsOf(seg).isWild ==> PartsOf(seg).params == []
  {
  }

  predicate PlainEntry(e: Entry) {
    PatternOf(e.text).Some? && PlainNames(Names(PatternOf(e.text).value))
  }

  function RouteOf(e: Entry): Route
    requires PlainEntry(e)
  {
    Route(PatternOf(e.text).value, e.obj)
  }

  // All patterns are plain ones.
  ghost predicate PlainEntries(entries: seq<Entry>) {
    forall i | 0 <= i < |entries| :: PlainEntry(entries[i])
  }

  ghost function RoutesOf(entries: seq<Entry>): (r: seq<Route>)
    requires PlainEntries(entries)
    ensures |r| == |entries|
  {
    seq(|entries|, i requires 0 <= i < |entries| => RouteOf(entries[i]))
  }

  lemma AddPlainEntry(t: Tree, e: Entry)
    requires PlainEntry(e)
    ensures AddText(t, SplitPath(e.text), e.obj, [], []) == AddSeg(t, RouteOf(e).pattern, e.obj, [])
  {
    PlainText(t, SplitPath(e.text), e.obj, []);
  }

  /** The tree of plain patterns is the one that the scan is about. */
  lemma {:induction false} TextsBuild(entries: seq<Entry>)
    requires PlainEntries(entries)
    ensures PlainRoutes(RoutesOf(entries)) && BuildTexts(entries) == Build(RoutesOf(entries))
  {
    if entries != [] {
      var n := |entries| - 1;
      TextsBuild(entries[..n]);
      assert RoutesOf(entries)[..n] == RoutesOf(entries[..n]);
      AddPlainEntry(BuildTexts(entries[..n]), entries[n]);
    }
  }

  // ---- patterns of static and :name segments ----

  predicate ParamSegment(seg: string) {
    |seg| >= 2 && seg[0] == ':' && IsName(seg[1..])
  }

  lemma SegmentOfPlain(seg: string)
    requires Static(seg) || (ParamSegment(seg) && seg != ":splat")
    ensures Whole(seg) && SegmentOf(seg) == Some(if Static(seg) then Fixed(seg) else Wild(seg))
  {
    if Static(seg) {
      StaticParts(seg);
    } else {
      assert seg == ":" + seg[1..];
      ParamParts(seg[1..]);
      assert forall i | 1 <= i < |seg| :: NameChar(seg[1..][i - 1]) && seg[i] == seg[1..][i - 1];
      assert seg[|seg| - 1] == seg[1..][|seg| - 2];
    }
  }

  function Plainly(segs: seq<string>): Pattern {
    seq(|segs|, i requires 0 <= i < |segs| => if Static(segs[i]) then Fixed(segs[i]) else Wild(segs[i]))
  }

  lemma {:induction false} SegmentsOfPlain(segs: seq<string>)
    requires forall g | g in segs :: Static(g) || (ParamSegment(g) && g != ":splat")
    ensures SegmentsOf(segs) == Some(Plainly(segs)) && forall g | g in segs :: Whole(g)
  {
    if segs != [] {
      SegmentOfPlain(segs[0]);
      SegmentsOfPlain(segs[1..]);
      assert Plainly(segs) == [Plainly(segs)[0]] + Plainly(segs[1..]);
    } else {
      assert Plainly(segs) == [];
    }
  }

  /** A written pattern is read segment by segment. */
  lemma ParsePatternOf(segs: seq<string>)
    requires forall g | g in segs :: Static(g) || (ParamSegment(g) && g != ":splat")
    ensures PatternOf(PathOf(segs)) == Some(Plainly(segs))
  {
    SegmentsOfPlain(segs);
    if segs != [] {
      SplitPathOf(segs);
    }
  }
}
