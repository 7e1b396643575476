/** Relation paths become an ordered list of join tables: dbTables.set/add, parseRelated, parseExprs
    and the aliases that getJoinSQL prints. */
module JoinTables {
  import opened Wrappers
  import opened OrmModels
  import opened JoinSchema
  import opened JoinPaths

  // Table i has the alias i + 1 and is joined to an earlier one.
  ghost predicate Linked(tables: seq<Table>) {
    forall i | 0 <= i < |tables| :: tables[i].id == i + 1 && (tables[i].parent.Some? ==> tables[i].parent.value < i)
  }

  lemma ConsistentIsLinked(s: Schema, root: Model, skip: bool, tables: seq<Table>, positions: map<string, nat>)
    requires Consistent(s, root, skip, tables, positions)
    ensures Linked(tables)
  {
    forall i | 0 <= i < |tables|
      ensures tables[i].id == i + 1 && (tables[i].parent.Some? ==> tables[i].parent.value < i)
    {
      assert TableOk(s, root, skip, positions, tables[i], i);
    }
  }

  // INNER or LEFT OUTER JOIN of T<alias> ON T<alias>.column = T<on>.onColumn.
  datatype JoinClause = JoinClause(inner: bool, alias: nat, column: string, on: nat, onColumn: string)

  function ClauseOf(s: Schema, root: Model, t: Table, i: nat): JoinClause {
    var fi := if t.names != [] then LastField(s, root, t.names) else None;
    var (c1, c2) := if fi.Some? then OnColumns(s, fi.value, t.model) else ("", "");
    JoinClause(t.inner, i + 1, c2, if t.parent.Some? then t.parent.value + 1 else 0, c1)
  }

  /** A query for the articles of a user in a magazine whose articles declare their likers before their author: the
      list has one table, and the join compares the users' key with a column that the articles do not have. */
  lemma ArticlesClause(t: Table)
    requires Consistent(MAGAZINE, 0, false, [t], map["Articles" := 0]) && t.names == ["Articles"]
    ensures ClauseOf(MAGAZINE, 0, t, 0) == JoinClause(true, 1, "Likers", 0, "id")
  {
    assert [t][0] == t;
    assert TableOk(MAGAZINE, 0, false, map["Articles" := 0], t, 0);
    assert ["Articles"][..0] == [];
    assert WalkModel(MAGAZINE, 0, []) == Some(0);
    assert LastField(MAGAZINE, 0, ["Articles"]) == Some(ARTICLES);
    assert WalkModel(MAGAZINE, 0, ["Articles"]) == Some(1) && Required(MAGAZINE, 0, ["Articles"]);
    assert LastRel(MAGAZINE, 0, []) == 0 && t.parent == None;
    ArticlesJoinByLikers();
  }

  /** The profile of a person whose primary key has another name. */
  lemma ProfileClause(t: Table)
    requires Consistent(PROFILES, 0, false, [t], map["Profile" := 0]) && t.names == ["Profile"]
    ensures ClauseOf(PROFILES, 0, t, 0) == JoinClause(true, 1, "person_id", 0, "profile_id")
  {
    assert [t][0] == t;
    assert TableOk(PROFILES, 0, false, map["Profile" := 0], t, 0);
    assert ["Profile"][..0] == [];
    assert WalkModel(PROFILES, 0, []) == Some(0);
    assert LastField(PROFILES, 0, ["Profile"]) == Some(PROFILE);
    assert WalkModel(PROFILES, 0, ["Profile"]) == Some(1) && Required(PROFILES, 0, ["Profile"]);
    assert LastRel(PROFILES, 0, []) == 0 && t.parent == None;
    ProfileJoinsByOwnKey();
  }

  class DbTables {
    const schema: Schema
    const root: Model
    const skipEnd: bool
    var tables: seq<Table>
    var tablesM: map<string, nat>  // positions in the list

    ghost predicate Valid()
      reads this
    {
      schema.Valid() && Consistent(schema, root, skipEnd, tables, tablesM)
    }

    constructor (s: Schema, r: Model, skip: bool)
      requires s.Valid()
      ensures Valid() && schema == s && root == r && skipEnd == skip && tables == []
    {
      schema, root, skipEnd, tables, tablesM := s, r, skip, [], map[];
    }

    /** set (with overwrite) or add, followed by the assignment of jtl. What set overwrites is what was there. */
    method PutTable(names: seq<string>, m: Model, inner: bool, jtl: Option<nat>, overwrite: bool) returns (pos: nat)
      requires Valid() && names != [] && WalkModel(schema, root, names) == Some(m)
      requires inner == Inner(schema, root, skipEnd, names)
      requires Placed(schema, root, tablesM, names[..|names| - 1], jtl) && (jtl.Some? ==> jtl.value < |tables|)
      modifies this
      ensures Valid() && Extended(old(tables), old(tablesM), tables, tablesM)
      ensures Key(names) in tablesM && tablesM[Key(names)] == pos < |tables|
      ensures Key(names) !in old(tablesM) ==>
        tables == old(tables) + [Table(|old(tables)| + 1, names, false, inner, m, jtl)]
      ensures Key(names) in old(tablesM) ==> tables == old(tables) && tablesM == old(tablesM)
    {
      var name := Key(names);
      if name in tablesM {
        pos := tablesM[name];
        KnownPath(schema, root, skipEnd, tables, tablesM, names, jtl);
        var t := if overwrite then tables[pos].(model := m, inner := inner) else tables[pos];
        assert t.(parent := jtl) == tables[pos];
        tables := tables[pos := t.(parent := jtl)];
        assert tables == old(tables);
      } else {
        pos := |tables|;
        Append(Table(pos + 1, names, false, inner, m, jtl));
      }
    }

    // The part that set and add share.
    method Append(t: Table)
      requires Valid() && t.id == |tables| + 1
      requires t.names != [] && WalkModel(schema, root, t.names) == Some(t.model) && Key(t.names) !in tablesM
      requires t.inner == Inner(schema, root, skipEnd, t.names)
      requires Placed(schema, root, tablesM, t.names[..|t.names| - 1], t.parent)
        && (t.parent.Some? ==> t.parent.value < |tables|)
      modifies this
      ensures Valid() && Extended(old(tables), old(tablesM), tables, tablesM)
      ensures tables == old(tables) + [t] && tablesM == old(tablesM)[Key(t.names) := |old(tables)|]
    {
      NewPath(schema, root, skipEnd, tables, tablesM, t);
      tablesM := tablesM[Key(t.names) := |tables|];
      tables := tables + [t];
    }

    /** parseExprs: the table that the last field of a path belongs to, adding join tables on the way. */
    method ParseExprs(exprs: seq<string>) returns (r: Parsed)
      requires Valid()
      modifies this
      ensures Valid() && Grown(old(tablesM), tablesM) && |old(tables)| <= |tables|
      ensures Answers(schema, root, tablesM, exprs, skipEnd, r, |tables|)
    {
      var jtl: Option<nat>, fiN: Option<FieldInfo> := None, None;
      var mmi: Model, names: seq<string>, inner := root, [], true;
      for i := 0 to |exprs|
        invariant Valid() && Grown(old(tablesM), tablesM) && |old(tables)| <= |tables|
        invariant i == 0 || fiN.Some? ==> Placed(schema, root, tablesM, names, jtl)
        invariant jtl.Some? ==> jtl.value < |tables|
        invariant OnPath(schema, root, exprs, skipEnd, i, names, mmi) && InnerSoFar(schema, root, skipEnd, names, inner)
        invariant i > 0 ==> fiN == NextField(schema, exprs, i - 1, mmi)
      {
        var found := if i == 0 then schema.GetByAny(mmi, exprs[i]) else fiN;
        if found.None? {
          PathFails(schema, root, exprs, skipEnd, i, names, mmi);
          return Failed;
        }
        var ended;
        ended, names, mmi, fiN, inner, jtl := ExprTurn(exprs, i, names, mmi, found.value, inner, jtl);
        if ended.Some? {
          return ended.value;
        }
      }
      PathFails(schema, root, exprs, skipEnd, |exprs|, names, mmi);
      return Failed;
    }

    // One turn of the loop of parseExprs, for a field that was found.
    method ExprTurn(exprs: seq<string>, i: nat, names0: seq<string>, mmi0: Model, fi: FieldInfo, inner0: bool,
                    jtl0: Option<nat>)
      returns (ended: Option<Parsed>, names: seq<string>, mmi: Model, fiN: Option<FieldInfo>, inner: bool,
        jtl: Option<nat>)
      requires Valid() && i < |exprs| && OnPath(schema, root, exprs, skipEnd, i, names0, mmi0)
      requires schema.GetByAny(mmi0, exprs[i]) == Some(fi)
      requires Placed(schema, root, tablesM, names0, jtl0) && (jtl0.Some? ==> jtl0.value < |tables|)
      requires InnerSoFar(schema, root, skipEnd, names0, inner0)
      modifies this
      ensures Valid() && Grown(old(tablesM), tablesM) && |old(tables)| <= |tables|
      ensures jtl.Some? ==> jtl.value < |tables|
      ensures ended.Some? ==> Answers(schema, root, tablesM, exprs, skipEnd, ended.value, |tables|)
      ensures ended.None? ==>
        OnPath(schema, root, exprs, skipEnd, i + 1, names, mmi) && fiN == NextField(schema, exprs, i, mmi)
      ensures ended.None? ==> InnerSoFar(schema, root, skipEnd, names, inner)
      ensures ended.None? && fiN.Some? ==> Placed(schema, root, tablesM, names, jtl)
    {
      PathStep(schema, root, exprs, skipEnd, i, names0, mmi0, fi);
      var num := |exprs| - 1;
      names := names0 + [fi.name];
      mmi := Onward(fi, mmi0);
      fiN := if i < num then schema.GetByAny(mmi, exprs[i + 1]) else None;
      assert names[..|names| - 1] == names0 && fiN == NextField(schema, exprs, i, mmi);
      var atEnd;
      atEnd, inner, jtl := AddOnPath(names, mmi, fi, fiN, i, num, inner0, jtl0);
      ended := None;
      if atEnd {
        ended := EndTurn(exprs, i, names0, mmi0, fi, jtl);
      }
    }

    method EndTurn(exprs: seq<string>, i: nat, ghost names: seq<string>, ghost mmi: Model, fi: FieldInfo,
                   jtl: Option<nat>)
      returns (ended: Option<Parsed>)
      requires schema.Valid() && i < |exprs| && OnPath(schema, root, exprs, skipEnd, i, names, mmi)
      requires schema.GetByAny(mmi, exprs[i]) == Some(fi) && StopAt(schema, root, exprs, skipEnd, 0) == Some(i)
      requires Placed(schema, root, tablesM, if HasTableAtEnd(fi, skipEnd) then names + [fi.name] else names, jtl)
      requires jtl.Some? ==> jtl.value < |tables|
      ensures ended.Some? && Answers(schema, root, tablesM, exprs, skipEnd, ended.value, |tables|)
    {
      PathEnds(schema, root, tablesM, exprs, skipEnd, i, names, mmi, fi, jtl);
      ended := Some(EndOfPath(schema, fi, i, jtl));
    }

    // The part of the loop of parseExprs that adds a join table.
    method AddOnPath(names: seq<string>, mmi: Model, fi: FieldInfo, fiN: Option<FieldInfo>, i: nat, num: nat,
                     inner0: bool, jtl0: Option<nat>) returns (atEnd: bool, inner: bool, jtl: Option<nat>)
      requires Valid() && names != [] && WalkModel(schema, root, names) == Some(mmi)
      requires LastField(schema, root, names) == Some(fi) && (num == i ==> fiN.None?)
      requires Placed(schema, root, tablesM, names[..|names| - 1], jtl0) && (jtl0.Some? ==> jtl0.value < |tables|)
      requires InnerSoFar(schema, root, skipEnd, names[..|names| - 1], inner0)
      modifies this
      ensures Valid() && Grown(old(tablesM), tablesM) && |old(tables)| <= |tables|
      ensures jtl.Some? ==> jtl.value < |tables|
      ensures atEnd == (num == i || (fi.IsRel() && skipEnd && fiN.Some? && fiN.value.pk))
      ensures atEnd ==>
        Placed(schema, root, tablesM, if HasTableAtEnd(fi, skipEnd) then names else names[..|names| - 1], jtl)
      ensures !atEnd ==> InnerSoFar(schema, root, skipEnd, names, inner)
      ensures !atEnd && fiN.Some? ==> Placed(schema, root, tablesM, names, jtl)
    {
      atEnd, inner, jtl := num == i, inner0, jtl0;
      if !fi.IsRel() {
        PlacedBelow(schema, root, tablesM, names, jtl);
        return;
      }
      if !fi.inThrough || num != i {
        if fi.nullable || skipEnd {
          inner := false;
        }
        if skipEnd && fiN.Some? && fiN.value.pk {
          atEnd := true;
        } else if !skipEnd || fiN.Some? {
          var pos := PutTable(names, mmi, inner, jtl, false);
          jtl := Some(pos);
          PlacedAtRel(schema, root, tablesM, names);
        }
      }
    }

    // One step of parseRelated: the table of a relation below the current path.
    method JoinStep(names: seq<string>, mmi: Model, fi: FieldInfo, inner: bool, jtl: Option<nat>, sel: bool)
      returns (pos: nat)
      requires Valid() && WalkModel(schema, root, names) == Some(mmi)
      requires fi.Rel() && (mmi, fi.name) in schema.fields && schema.fields[(mmi, fi.name)] == fi
      requires Placed(schema, root, tablesM, names, jtl) && (jtl.Some? ==> jtl.value < |tables|)
      requires inner == Inner(schema, root, skipEnd, names + [fi.name])
      modifies this
      ensures Valid() && Extended(old(tables), old(tablesM), tables, tablesM) && pos < |tables|
      ensures WalkModel(schema, root, names + [fi.name]) == Some(fi.target)
      ensures Placed(schema, root, tablesM, names + [fi.name], Some(pos))
      ensures TableFor(tables, tablesM, names + [fi.name], sel)
    {
      StepWalk(schema, root, names, mmi, fi);
      var ns := names + [fi.name];
      assert ns[..|ns| - 1] == names;
      pos := PutTable(ns, fi.target, inner, jtl, true);
      ghost var mid := tables;
      if sel {
        Select(pos);
        ExtendedTwice(old(tables), old(tablesM), mid, tablesM, tables, tablesM);
      }
      PlacedAtRel(schema, root, tablesM, ns);
    }

    method Select(pos: nat)
      requires Valid() && pos < |tables|
      modifies this`tables
      ensures Valid() && tables == old(tables)[pos := old(tables)[pos].(sel := true)]
      ensures Extended(old(tables), tablesM, tables, tablesM)
    {
      SameLinks(schema, root, skipEnd, tables, tablesM, pos, tables[pos].(sel := true));
      tables := tables[pos := tables[pos].(sel := true)];
    }

    // The inner loop of parseRelated for one path; a false result stands for its panic.
    method ParsePath(exs: seq<string>, sel: bool) returns (ok: bool)
      requires Valid()
      modifies this
      ensures Valid() && Extended(old(tables), old(tablesM), tables, tablesM)
      ensures ok <==> Resolve(schema, root, exs).Some?
      ensures ok ==> TablesFor(tables, tablesM, Resolve(schema, root, exs).value.0, sel)
    {
      var jtl: Option<nat> := None;
      var names: seq<string>, mmi: Model, inner := [], root, true;
      for j := 0 to |exs|
        invariant Valid() && Extended(old(tables), old(tablesM), tables, tablesM)
        invariant Resolve(schema, root, exs[..j]) == Some((names, mmi)) && WalkModel(schema, root, names) == Some(mmi)
        invariant Placed(schema, root, tablesM, names, jtl) && (jtl.Some? ==> jtl.value < |tables|)
        invariant InnerSoFar(schema, root, skipEnd, names, inner)
        invariant TablesFor(tables, tablesM, names, sel)
      {
        ResolveStep(schema, root, exs, j);
        var found := schema.GetByAny(mmi, exs[j]);
        if found.None? || !found.value.Rel() || found.value.fieldType.ManyToMany? {
          ResolveStops(schema, root, exs, j + 1);
          return false;
        }
        var fi := found.value;
        if fi.nullable || skipEnd {
          inner := false;
        }
        RequiredStep(schema, root, names, mmi, fi);
        ghost var tables0, tablesM0 := tables, tablesM;
        var pos := JoinStep(names, mmi, fi, inner, jtl, sel);
        TablesForStep(tables0, tablesM0, tables, tablesM, names, fi.name, sel);
        ExtendedTwice(old(tables), old(tablesM), tables0, tablesM0, tables, tablesM);
        names, mmi, jtl := names + [fi.name], fi.target, Some(pos);
      }
      assert exs[..|exs|] == exs;
      ok := true;
    }

    // The collecting part of parseRelated, with loopDepth.
    method CollectRelated(rels: seq<seq<string>>, depth: int) returns (related: seq<seq<string>>)
      ensures related == rels + if rels == [] then PathsFrom(schema, root, [], depth, 0) else []
    {
      related := rels;
      var relDepth := if rels != [] then 0 else depth;
      relDepth := relDepth - 1;
      var fields := schema.Rels(root);
      for i := 0 to |fields|
        invariant related + PathsFrom(schema, root, [], relDepth + 1, i)
          == rels + if rels == [] then PathsFrom(schema, root, [], depth, 0) else []
      {
        ghost var paths := PathsOf(schema, [], fields[i], relDepth);
        ghost var rest := PathsFrom(schema, root, [], relDepth + 1, i + 1);
        assert related + (paths + rest) == (related + paths) + rest;
        related := LoopDepth(relDepth, [], fields[i], related);
      }
    }

    method LoopDepth(depth0: int, prefix0: seq<string>, fi: FieldInfo, related0: seq<seq<string>>)
      returns (related: seq<seq<string>>)
      ensures related == related0 + PathsOf(schema, prefix0, fi, depth0)
      decreases depth0 + 1
    {
      related := related0;
      if depth0 < 0 || fi.fieldType.ManyToMany? {
        return;
      }
      var prefix := prefix0 + [fi.name];
      related := related + [prefix];
      var depth := depth0 - 1;
      var fields := schema.Rels(fi.target);
      for i := 0 to |fields|
        invariant related + PathsFrom(schema, fi.target, prefix, depth0, i)
          == related0 + PathsOf(schema, prefix0, fi, depth0)
      {
        ghost var paths := PathsOf(schema, prefix, fields[i], depth);
        ghost var rest := PathsFrom(schema, fi.target, prefix, depth0, i + 1);
        assert related + (paths + rest) == (related + paths) + rest;
        related := LoopDepth(depth, prefix, fields[i], related);
      }
    }

    /** parseRelated: it panics exactly when one of the given paths does not resolve. Otherwise each of them, or
        without any each path of at most depth to-one relations, has a selected table for every step. */
    method ParseRelated(rels: seq<seq<string>>, depth: int) returns (ok: bool)
      requires Valid()
      modifies this
      ensures Valid() && Extended(old(tables), old(tablesM), tables, tablesM)
      ensures ok <==> forall r | r in rels :: Resolve(schema, root, r).Some?
      ensures ok ==> forall r | r in rels :: TablesFor(tables, tablesM, Resolve(schema, root, r).value.0, true)
      ensures rels == [] ==>
        forall p | ToOnePath(schema, root, p) && 0 < |p| <= depth :: TablesFor(tables, tablesM, p, true)
    {
      var related := CollectRelated(rels, depth);
      if rels == [] {
        CollectedResolve(schema, root, depth);
      }
      for i := 0 to |related|
        invariant Valid() && Extended(old(tables), old(tablesM), tables, tablesM)
        invariant forall j | 0 <= j < i :: HasTables(schema, root, tables, tablesM, related[j])
      {
        ghost var tables0, tablesM0 := tables, tablesM;
        assert related[i] in related;
        ok := ParsePath(related[i], i < |rels| || depth > 0);
        if !ok {
          assert related[i] in rels;
          return;
        }
        ExtendedTwice(old(tables), old(tablesM), tables0, tablesM0, tables, tablesM);
        forall j | 0 <= j < i ensures HasTables(schema, root, tables, tablesM, related[j]) {
          TablesForStays(tables0, tablesM0, tables, tablesM, Resolve(schema, root, related[j]).value.0);
        }
      }
      ok := true;
      RelatedHaveTables(schema, root, tables, tablesM, rels, related, depth);
    }

    /** getJoinSQL: the tables in order, each with its own alias and the alias it is joined to, which is T0
        or was declared before. */
    method JoinClauses() returns (joins: seq<JoinClause>)
      requires Valid()
      ensures |joins| == |tables|
      ensures forall i | 0 <= i < |joins| ::
        joins[i] == ClauseOf(schema, root, tables[i], i) && joins[i].on < joins[i].alias
    {
      ConsistentIsLinked(schema, root, skipEnd, tables, tablesM);
      joins := PrintJoins(schema, root, tables);
    }
  }

  // The loop of getJoinSQL.
  method PrintJoins(schema: Schema, root: Model, tables: seq<Table>) returns (joins: seq<JoinClause>)
    requires Linked(tables)
    ensures |joins| == |tables|
    ensures forall i | 0 <= i < |joins| ::
      joins[i] == ClauseOf(schema, root, tables[i], i) && joins[i].on < joins[i].alias
  {
    joins := [];
    for i := 0 to |tables|
      invariant |joins| == i
      invariant forall k | 0 <= k < i ::
        joins[k] == ClauseOf(schema, root, tables[k], k) && joins[k].on < joins[k].alias
    {
      var t := tables[i];
      var t1 := 0;
      if t.parent.Some? {
        t1 := tables[t.parent.value].id;
      }
      var fi := if t.names != [] then LastField(schema, root, t.names) else None;  // jt.fi
      var c1, c2 := "", "";
      if fi.Some? {
        if fi.value.Many() {
          c1 := schema.Pk(fi.value.owner);
          c2 := FirstRelTo(schema.Rels(t.model), fi.value.owner);
        } else {
          c1, c2 := fi.value.column, schema.Pk(fi.value.relModel);
          if fi.value.Reverse() {
            c1, c2 := schema.Pk(t.model), fi.value.keyColumn;
          }
        }
      }
      joins := joins + [JoinClause(t.inner, t.id, c2, t1, c1)];
    }
  }
}
