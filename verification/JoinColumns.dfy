/** Which column of which table a path asks for, and when that table has the column. */
module JoinColumns {
  import opened Wrappers
  import opened OrmModels
  import opened JoinSchema
  import opened JoinPaths

  // The table at a position, T0 being the table of the root, is the one that a path leads to: it has the names of the
  // path up to its last relation, and holds the model that the path has come to.
  ghost predicate LeadsTo(s: Schema, root: Model, tables: seq<Table>, ns: seq<string>, pos: Option<nat>) {
    match pos
    case None => WalkModel(s, root, ns) == Some(root) && forall j: nat | 0 < j <= |ns| :: PlainAt(s, root, ns, j)
    case Some(p) =>
      && p < |tables| && WalkModel(s, root, ns) == Some(tables[p].model)
      && exists k: nat :: EndsAt(s, root, ns, k) && tables[p].names == ns[..k]
  }

  // The j-th field of a path is no relation.
  ghost predicate PlainAt(s: Schema, root: Model, ns: seq<string>, j: nat)
    requires 0 < j <= |ns|
  {
    LastField(s, root, ns[..j]).Some? && !LastField(s, root, ns[..j]).value.IsRel()
  }

  // The k-th field of a path is its last relation.
  ghost predicate EndsAt(s: Schema, root: Model, ns: seq<string>, k: nat) {
    && 0 < k <= |ns| && LastField(s, root, ns[..k]).Some? && LastField(s, root, ns[..k]).value.IsRel()
    && forall j: nat | k < j <= |ns| :: PlainAt(s, root, ns, j)
  }

  lemma {:induction false} LastRelIs(s: Schema, root: Model, ns: seq<string>)
    requires WalkModel(s, root, ns).Some?
    ensures var k := LastRel(s, root, ns);
      && WalkModel(s, root, ns[..k]) == WalkModel(s, root, ns)
      && (forall j: nat | k < j <= |ns| :: PlainAt(s, root, ns, j))
      && (k > 0 ==> EndsAt(s, root, ns, k))
  {
    var k, n := LastRel(s, root, ns), |ns|;
    assert ns[..n] == ns;
    if k < n {
      var front := ns[..n - 1];
      LastRelIs(s, root, front);
      assert front[..k] == ns[..k];
      PlainBelow(s, root, ns, k);
    }
  }

  lemma PlainBelow(s: Schema, root: Model, ns: seq<string>, k: nat)
    requires k < |ns| && PlainAt(s, root, ns, |ns|)
    requires var front := ns[..|ns| - 1]; forall j: nat | k < j <= |front| :: PlainAt(s, root, front, j)
    ensures forall j: nat | k < j <= |ns| :: PlainAt(s, root, ns, j)
  {
    var front := ns[..|ns| - 1];
    forall j: nat | k < j <= |ns| ensures PlainAt(s, root, ns, j) {
      if j < |ns| {
        assert PlainAt(s, root, front, j) && front[..j] == ns[..j];
      }
    }
  }

  lemma PlacedLeadsTo(s: Schema, root: Model, skip: bool, tables: seq<Table>, positions: map<string, nat>,
                      ns: seq<string>)
    requires s.Valid() && Consistent(s, root, skip, tables, positions) && WalkModel(s, root, ns).Some?
    requires Declared(s, root, positions, ns)
    ensures LeadsTo(s, root, tables, ns, TableOf(s, root, positions, ns))
  {
    var k := LastRel(s, root, ns);
    LastRelIs(s, root, ns);
    if k > 0 {
      var p := positions[Key(ns[..k])];
      assert TableOk(s, root, skip, positions, tables[p], p);
      WalkNames(s, root, ns[..k]);
      WalkNames(s, root, tables[p].names);
      KeyInjective(ns[..k], tables[p].names);
    } else {
      assert ns[..0] == [];
    }
  }

  // The field at place k of a path, with the names and the model before it.
  ghost predicate FieldOn(s: Schema, root: Model, exs: seq<string>, k: nat, names: seq<string>, m: Model,
                          f: FieldInfo) {
    k < |exs| && Walk(s, root, exs[..k]) == Some((names, m)) && s.GetByAny(m, exs[k]) == Some(f)
  }

  lemma StopFields(s: Schema, root: Model, exs: seq<string>, k: nat, names: seq<string>, m: Model, f: FieldInfo)
    requires s.Valid() && FieldOn(s, root, exs, k, names, m, f)
    ensures WalkModel(s, root, names) == Some(m) && f.owner == m
    ensures WalkModel(s, root, names + [f.name]) == Some(if f.IsRel() then f.target else m)
    ensures f.IsRel() ==> LastField(s, root, names + [f.name]) == Some(f)
  {
    NoRelIsNoTable(s, root, exs, k);
    StepWalk(s, root, names, m, f);
    assert s.FieldOk((m, f.name));
    assert (names + [f.name])[..|names|] == names;
  }

  /** The answer of parseExprs, which ends at place k of the path: a plain field is asked of the table that the path
      before it leads to; a reverse field with a table of its own asks that one for its primary key; and a forward
      relation is asked of T0 in first place, but behind other fields of the table behind it, if it has one. */
  lemma AskedTable(s: Schema, root: Model, skip: bool, tables: seq<Table>, positions: map<string, nat>,
                   exs: seq<string>, r: Parsed, k: nat, names: seq<string>, m: Model, f: FieldInfo)
    requires s.Valid() && Consistent(s, root, skip, tables, positions)
    requires Answers(s, root, positions, exs, skip, r, |tables|) && r.Alias?
    requires StopAt(s, root, exs, skip, 0) == Some(k) && FieldOn(s, root, exs, k, names, m, f)
    ensures !f.IsRel() ==> LeadsTo(s, root, tables, names, r.pos) && r.owner == m && r.column == f.column
    ensures !f.IsRel() ==> (r.pos.None? <==> NoRelBefore(s, root, exs, k))
    ensures f.Rel() ==> r.owner == m && r.column == f.column
    ensures f.Rel() && k == 0 ==> r.pos.None? && m == root
    ensures f.Rel() && k > 0 ==>
      LeadsTo(s, root, tables, if HasTableAtEnd(f, skip) then names + [f.name] else names, r.pos)
    ensures f.Reverse() ==> r.owner == f.target && r.column == s.Pk(f.target)
    ensures f.Reverse() ==> LeadsTo(s, root, tables, if HasTableAtEnd(f, skip) then names + [f.name] else names, r.pos)
  {
    assert FieldAt(s, root, exs, k) == Some(f);
    StopFields(s, root, exs, k, names, m, f);
    NoRelIsNoTable(s, root, exs, k);
    PlacedLeadsTo(s, root, skip, tables, positions, Reached(s, root, exs, skip, k));
    if k == 0 {
      assert exs[..0] == [] && names == [];
    }
  }

  // The model of the table at a position.
  function ModelAt(tables: seq<Table>, root: Model, pos: Option<nat>): Model
    requires pos.Some? ==> pos.value < |tables|
  {
    if pos.Some? then tables[pos.value].model else root
  }

  // The table that a path is asked of is not the one its last field belongs to.
  predicate AsksBehind(f: FieldInfo, k: nat, skip: bool) {
    if f.Reverse() then !HasTableAtEnd(f, skip) else f.Rel() && k > 0 && HasTableAtEnd(f, skip)
  }

  /** The table asked for a column has a model with that column exactly when it is not asked behind it, or when the
      relation leads back to its own model. */
  lemma ColumnIsThereIff(s: Schema, root: Model, skip: bool, tables: seq<Table>, positions: map<string, nat>,
                         exs: seq<string>, r: Parsed, k: nat, names: seq<string>, m: Model, f: FieldInfo)
    requires s.Valid() && Consistent(s, root, skip, tables, positions)
    requires Answers(s, root, positions, exs, skip, r, |tables|) && r.Alias?
    requires StopAt(s, root, exs, skip, 0) == Some(k) && FieldOn(s, root, exs, k, names, m, f)
    ensures ModelAt(tables, root, r.pos) == r.owner <==> !AsksBehind(f, k, skip) || f.target == m
  {
    AskedTable(s, root, skip, tables, positions, exs, r, k, names, m, f);
    StopFields(s, root, exs, k, names, m, f);
  }

  // A query ends at the last field of a path that leads somewhere.
  lemma {:induction false} QueryEndsAtLast(s: Schema, root: Model, exs: seq<string>, i: nat)
    requires i < |exs| && Walk(s, root, exs).Some?
    ensures StopAt(s, root, exs, false, i) == Some(|exs| - 1)
    decreases |exs| - i
  {
    if Walk(s, root, exs[..i]).None? {
      WalkStops(s, root, exs, i);
    } else if FieldAt(s, root, exs, i).None? {
      WalkStep(s, root, exs, i);
      WalkStops(s, root, exs, i + 1);
    } else if i < |exs| - 1 {
      QueryEndsAtLast(s, root, exs, i + 1);
    }
  }

  lemma LikesPath()
    ensures var exs := ["Article", "Author"];
      && Walk(MAGAZINE, 2, exs).Some? && StopAt(MAGAZINE, 2, exs, false, 0) == Some(1)
      && FieldOn(MAGAZINE, 2, exs, 1, ["Article"], 1, AUTHOR)
  {
    var exs := ["Article", "Author"];
    assert exs[..0] == [] && exs[..1] == ["Article"] && exs[..1][..0] == [] && exs[..2] == exs;
    assert Walk(MAGAZINE, 2, []) == Some(([], 2));
    assert MAGAZINE.GetByAny(2, "Article") == Some(LIKE_ARTICLE);
    assert [] + ["Article"] == ["Article"];
    assert Walk(MAGAZINE, 2, exs[..1]) == Some((["Article"], 1));
    assert MAGAZINE.GetByAny(1, "Author") == Some(AUTHOR);
    WalkStep(MAGAZINE, 2, exs, 1);
    QueryEndsAtLast(MAGAZINE, 2, exs, 0);
  }

  /** A query of likes by the author of their article asks the table of users for the column of the articles. */
  lemma LikesByAuthor(tables: seq<Table>, positions: map<string, nat>, r: Parsed)
    requires Consistent(MAGAZINE, 2, false, tables, positions)
    requires Answers(MAGAZINE, 2, positions, ["Article", "Author"], false, r, |tables|)
    ensures r.Alias? && r.pos.Some? && tables[r.pos.value].model == 0 && r.owner == 1 && r.column == "author_id"
  {
    var exs := ["Article", "Author"];
    MagazineIsValid();
    LikesPath();
    assert r.Alias?;
    AskedTable(MAGAZINE, 2, false, tables, positions, exs, r, 1, ["Article"], 1, AUTHOR);
    StopFields(MAGAZINE, 2, exs, 1, ["Article"], 1, AUTHOR);
    ColumnIsThereIff(MAGAZINE, 2, false, tables, positions, exs, r, 1, ["Article"], 1, AUTHOR);
  }

  lemma TitlePath()
    ensures var exs := ["Post", "Title"];
      && Walk(BLOG, 1, exs).Some? && StopAt(BLOG, 1, exs, false, 0) == Some(1)
      && FieldOn(BLOG, 1, exs, 1, ["Post"], 0, TITLE)
  {
    var exs := ["Post", "Title"];
    assert exs[..0] == [] && exs[..1] == ["Post"] && exs[..1][..0] == [] && exs[..2] == exs;
    assert Walk(BLOG, 1, []) == Some(([], 1));
    assert BLOG.GetByAny(1, "Post") == Some(POST);
    assert [] + ["Post"] == ["Post"];
    assert Walk(BLOG, 1, exs[..1]) == Some((["Post"], 0));
    assert BLOG.GetByAny(0, "Title") == Some(TITLE);
    WalkStep(BLOG, 1, exs, 1);
    QueryEndsAtLast(BLOG, 1, exs, 0);
  }

  /** A query of comments by the title of their post asks the table of posts for it. */
  lemma CommentsByTitle(tables: seq<Table>, positions: map<string, nat>, r: Parsed)
    requires Consistent(BLOG, 1, false, tables, positions)
    requires Answers(BLOG, 1, positions, ["Post", "Title"], false, r, |tables|)
    ensures r.Alias? && r.pos.Some? && tables[r.pos.value].names == ["Post"] && tables[r.pos.value].model == 0
    ensures r.owner == 0 && r.column == "title"
  {
    var exs := ["Post", "Title"];
    BlogIsValid();
    TitlePath();
    assert r.Alias?;
    AskedTable(BLOG, 1, false, tables, positions, exs, r, 1, ["Post"], 0, TITLE);
    StopFields(BLOG, 1, exs, 1, ["Post"], 0, TITLE);
    assert FieldAt(BLOG, 1, exs, 0) == Some(POST);
    assert !NoRelBefore(BLOG, 1, exs, 1);
  }

  // The j-th field of a path is a relation that may be missing.
  ghost predicate MayMiss(s: Schema, root: Model, ns: seq<string>, j: nat)
    requires 0 < j <= |ns|
  {
    var f := LastField(s, root, ns[..j]);
    f.Some? && f.value.IsRel() && f.value.nullable
  }

  lemma {:induction false} RequiredIff(s: Schema, root: Model, ns: seq<string>)
    ensures Required(s, root, ns) <==> forall j: nat | 0 < j <= |ns| :: !MayMiss(s, root, ns, j)
  {
    if ns != [] {
      var n := |ns|;
      var front := ns[..n - 1];
      RequiredIff(s, root, front);
      assert ns[..n] == ns;
      assert forall j: nat | 0 < j < n :: front[..j] == ns[..j];
      assert forall j: nat | 0 < j < n :: MayMiss(s, root, ns, j) == MayMiss(s, root, front, j);
      assert Required(s, root, ns) <==> Required(s, root, front) && !MayMiss(s, root, ns, n);
    }
  }

  /** A table is inner-joined exactly when none of the relations on its path may be missing; a delete joins none so. */
  lemma InnerJoinIff(s: Schema, root: Model, skip: bool, tables: seq<Table>, positions: map<string, nat>, i: nat)
    requires Consistent(s, root, skip, tables, positions) && i < |tables|
    ensures var ns := tables[i].names;
      tables[i].inner <==> !skip && forall j: nat | 0 < j <= |ns| :: !MayMiss(s, root, ns, j)
  {
    assert TableOk(s, root, skip, positions, tables[i], i);
    RequiredIff(s, root, tables[i].names);
  }
}
