/** The models as the ORM knows them after its bootstrap: fields, their pairing, and the columns that join them. */
module JoinSchema {
  import opened Wrappers
  import opened OrmModels

  datatype FieldType = Plain | ForeignKey | OneToOne | ManyToMany | ReverseOne | ReverseMany

  // The parts of a field that paths and joins look at.
  datatype FieldInfo = FieldInfo(
    name: string,
    fieldType: FieldType,
    owner: Model,       // the model of the field
    relModel: Model,    // the model that a relation is declared with
    target: Model,      // the model that a path goes on with: for a many-to-many relation the one in between
    column: string,
    keyColumn: string,  // for a reverse or many-to-many field, the column of the key it is paired with
    nullable: bool,
    pk: bool,
    inThrough: bool)    // the field belongs to a model in between
  {
    predicate Rel() { fieldType.ForeignKey? || fieldType.OneToOne? || fieldType.ManyToMany? }
    predicate Reverse() { fieldType.ReverseOne? || fieldType.ReverseMany? }
    predicate IsRel() { Rel() || Reverse() }
    predicate IsKey() { fieldType.ForeignKey? || fieldType.OneToOne? }
    predicate Many() { fieldType.ManyToMany? || fieldType.ReverseMany? }
  }

  // The first field of a type that refers to a model.
  function FirstOfType(fields: seq<FieldInfo>, ft: FieldType, m: Model): Option<FieldInfo> {
    if fields == [] then None
    else if fields[0].fieldType == ft && fields[0].relModel == m then Some(fields[0])
    else FirstOfType(fields[1..], ft, m)
  }

  // The last foreign key or one-to-one that refers to a model.
  function LastKey(fields: seq<FieldInfo>, m: Model): Option<FieldInfo> {
    if fields == [] then None
    else
      var last := fields[|fields| - 1];
      if last.IsKey() && last.relModel == m then Some(last) else LastKey(fields[..|fields| - 1], m)
  }

  // Fields by model and canonical name; aliases stand for GetByAny.
  datatype Schema = Schema(
    fields: map<(Model, string), FieldInfo>,
    aliases: map<(Model, string), string>,
    rels: map<Model, seq<FieldInfo>>,  // the forward relations of each model, in order
    pks: map<Model, string>)           // the column of the primary key of each model
  {
    ghost predicate Valid() {
      (forall k :: FieldOk(k)) && (forall m :: RelsOk(m)) && (forall m :: ColumnsOk(m)) && (forall k :: PairOk(k))
    }

    // A field stands under its own name, which is a name for it.
    ghost predicate FieldOk(k: (Model, string)) {
      k in fields ==>
        && fields[k].name == k.1 && fields[k].owner == k.0 && GoodName(k.1)
        && k in aliases && aliases[k] == k.1
    }

    ghost predicate RelsOk(m: Model) {
      forall f :: f in Rels(m) <==> f.Rel() && (m, f.name) in fields && fields[(m, f.name)] == f
    }

    // No two relations of a model have one column.
    ghost predicate ColumnsOk(m: Model) {
      forall i, j | 0 <= i < j < |Rels(m)| :: Rels(m)[i].column != Rels(m)[j].column
    }

    // The pairing of the bootstrap: a reverse field goes with the first one-to-one or foreign key to its owner, and
    // without a foreign key with the model in between of a many-to-many relation to its owner; there the last key
    // counts.
    ghost predicate PairOk(k: (Model, string)) {
      k in fields ==>
        var f := fields[k];
        match f.fieldType
        case Plain => true
        case ForeignKey => f.target == f.relModel
        case OneToOne => f.target == f.relModel
        case ManyToMany => PairedBetween(f)
        case ReverseOne =>
          var key := FirstOfType(Rels(f.relModel), OneToOne, f.owner);
          f.target == f.relModel && key.Some? && f.keyColumn == key.value.column
        case ReverseMany =>
          var key := FirstOfType(Rels(f.relModel), ForeignKey, f.owner);
          if key.Some? then f.target == f.relModel && f.keyColumn == key.value.column
          else PairedBetween(f) && exists g :: g in Rels(f.relModel) && IsManyTo(g, f.owner, f.target)
    }

    ghost predicate PairedBetween(f: FieldInfo) {
      LastKey(Rels(f.target), f.owner).Some? && f.keyColumn == LastKey(Rels(f.target), f.owner).value.column
    }

    function Rels(m: Model): seq<FieldInfo> {
      if m in rels then rels[m] else []
    }

    function Pk(m: Model): string {
      if m in pks then pks[m] else ""
    }

    function GetByAny(m: Model, ex: string): (r: Option<FieldInfo>)
      ensures Valid() && r.Some? ==> (m, r.value.name) in fields && fields[(m, r.value.name)] == r.value
    {
      if (m, ex) in aliases && (m, aliases[(m, ex)]) in fields then
        assert Valid() ==> FieldOk((m, aliases[(m, ex)]));
        Some(fields[(m, aliases[(m, ex)])])
      else None
    }
  }

  predicate IsManyTo(g: FieldInfo, m: Model, between: Model) {
    g.fieldType.ManyToMany? && g.relModel == m && g.target == between
  }

  // Go field names of mapped columns start with a letter; two underscores separate path steps.
  predicate GoodName(n: string) {
    n != [] && n[0] != '_' && forall i | 0 <= i < |n| - 1 :: !(n[i] == '_' && n[i + 1] == '_')
  }

  // ---- the columns of a join ----

  // The column of the first relation of any type that refers to a model.
  function FirstRelTo(fields: seq<FieldInfo>, m: Model): string {
    if fields == [] then "" else if fields[0].relModel == m then fields[0].column else FirstRelTo(fields[1..], m)
  }

  // The columns that getJoinSQL compares for a table of the given model: of the table joined to, and its own.
  function OnColumns(s: Schema, f: FieldInfo, m: Model): (string, string) {
    if f.Many() then (s.Pk(f.owner), FirstRelTo(s.Rels(m), f.owner))
    else if f.Reverse() then (s.Pk(m), f.keyColumn)
    else (f.column, s.Pk(f.relModel))
  }

  // The columns that the pairing asks for.
  function KeyColumns(s: Schema, f: FieldInfo): (string, string) {
    if f.IsKey() then (f.column, s.Pk(f.relModel)) else (s.Pk(f.owner), f.keyColumn)
  }

  // No other relation to the owner stands before the first foreign key to it.
  ghost predicate KeyComesFirst(fields: seq<FieldInfo>, m: Model) {
    forall i | 0 <= i < |fields| && fields[i].relModel == m && !fields[i].fieldType.ForeignKey? ::
      exists j :: 0 <= j < i && IsForeignKeyTo(fields[j], m)
  }

  predicate IsForeignKeyTo(f: FieldInfo, m: Model) { f.fieldType.ForeignKey? && f.relModel == m }

  // No other relation to the owner stands before a key to it.
  ghost predicate OnlyOneKey(fields: seq<FieldInfo>, m: Model) {
    forall i, j | 0 <= i < j < |fields| && fields[j].IsKey() && fields[j].relModel == m :: fields[i].relModel != m
  }

  ghost predicate JoinsByKey(s: Schema, f: FieldInfo) {
    match f.fieldType
    case ReverseOne => s.Pk(f.target) == s.Pk(f.owner)
    case ReverseMany =>
      if FirstOfType(s.Rels(f.relModel), ForeignKey, f.owner).Some? then KeyComesFirst(s.Rels(f.relModel), f.owner)
      else OnlyOneKey(s.Rels(f.target), f.owner)
    case ManyToMany => OnlyOneKey(s.Rels(f.target), f.owner)
    case _ => true
  }

  ghost predicate DistinctColumns(fields: seq<FieldInfo>) {
    forall i, j | 0 <= i < j < |fields| :: fields[i].column != fields[j].column
  }

  lemma {:induction false} FirstIsKeyIff(fields: seq<FieldInfo>, m: Model)
    requires DistinctColumns(fields) && FirstOfType(fields, ForeignKey, m).Some?
    ensures FirstRelTo(fields, m) == FirstOfType(fields, ForeignKey, m).value.column <==> KeyComesFirst(fields, m)
  {
    var f, rest := fields[0], fields[1..];
    if IsForeignKeyTo(f, m) {
      forall i | 0 <= i < |fields| && fields[i].relModel == m && !fields[i].fieldType.ForeignKey?
        ensures exists j :: 0 <= j < i && IsForeignKeyTo(fields[j], m)
      {
        assert IsForeignKeyTo(fields[0], m);
      }
    } else if f.relModel == m {
      var k := FirstOfTypeAt(rest, ForeignKey, m);
      assert fields[k + 1].column == FirstOfType(fields, ForeignKey, m).value.column;
      assert !KeyComesFirst(fields, m) by {
        assert fields[0].relModel == m && !fields[0].fieldType.ForeignKey?;
      }
    } else {
      FirstIsKeyIff(rest, m);
      KeyComesFirstTail(fields, m);
    }
  }

  lemma {:induction false} FirstOfTypeAt(fields: seq<FieldInfo>, ft: FieldType, m: Model) returns (k: nat)
    requires FirstOfType(fields, ft, m).Some?
    ensures k < |fields| && fields[k] == FirstOfType(fields, ft, m).value
  {
    if fields[0].fieldType == ft && fields[0].relModel == m {
      k := 0;
    } else {
      k := FirstOfTypeAt(fields[1..], ft, m);
      k := k + 1;
    }
  }

  lemma KeyComesFirstTail(fields: seq<FieldInfo>, m: Model)
    requires fields != [] && fields[0].relModel != m
    ensures KeyComesFirst(fields, m) <==> KeyComesFirst(fields[1..], m)
  {
    var rest := fields[1..];
    if KeyComesFirst(rest, m) {
      forall i | 0 <= i < |fields| && fields[i].relModel == m && !fields[i].fieldType.ForeignKey?
        ensures exists j :: 0 <= j < i && IsForeignKeyTo(fields[j], m)
      {
        assert rest[i - 1] == fields[i];
        var j :| 0 <= j < i - 1 && IsForeignKeyTo(rest[j], m);
        assert IsForeignKeyTo(fields[j + 1], m);
      }
    }
    if KeyComesFirst(fields, m) {
      forall i | 0 <= i < |rest| && rest[i].relModel == m && !rest[i].fieldType.ForeignKey?
        ensures exists j :: 0 <= j < i && IsForeignKeyTo(rest[j], m)
      {
        assert rest[i] == fields[i + 1];
        var j :| 0 <= j < i + 1 && IsForeignKeyTo(fields[j], m);
        assert IsForeignKeyTo(rest[j - 1], m);
      }
    }
  }

  // Where the last key and the first relation stand.
  lemma {:induction false} LastKeyAt(fields: seq<FieldInfo>, m: Model) returns (k: nat)
    requires LastKey(fields, m).Some?
    ensures k < |fields| && fields[k] == LastKey(fields, m).value && fields[k].IsKey() && fields[k].relModel == m
    ensures forall j | k < j < |fields| :: !(fields[j].IsKey() && fields[j].relModel == m)
  {
    var n := |fields| - 1;
    if fields[n].IsKey() && fields[n].relModel == m {
      k := n;
    } else {
      k := LastKeyAt(fields[..n], m);
    }
  }

  lemma {:induction false} FirstRelAt(fields: seq<FieldInfo>, m: Model, k: nat) returns (i: nat)
    requires k < |fields| && fields[k].relModel == m
    ensures i <= k && fields[i].relModel == m && FirstRelTo(fields, m) == fields[i].column
    ensures forall j | 0 <= j < i :: fields[j].relModel != m
  {
    if fields[0].relModel == m {
      i := 0;
    } else {
      i := FirstRelAt(fields[1..], m, k - 1);
      i := i + 1;
    }
  }

  lemma FirstIsLastKeyIff(fields: seq<FieldInfo>, m: Model)
    requires DistinctColumns(fields) && LastKey(fields, m).Some?
    ensures FirstRelTo(fields, m) == LastKey(fields, m).value.column <==> OnlyOneKey(fields, m)
  {
    var k := LastKeyAt(fields, m);
    var i := FirstRelAt(fields, m, k);
    assert fields[i].column == fields[k].column <==> i == k;
    if i == k {
      forall a, b | 0 <= a < b < |fields| && fields[b].IsKey() && fields[b].relModel == m
        ensures fields[a].relModel != m
      {
        assert b <= k;
      }
    }
  }

  /** getJoinSQL joins a field by the key it is paired with exactly when, for a one-to-one, the primary keys of both
      models have one name; for a foreign key, no other relation to the owner is declared before it; and for a
      many-to-many relation, the model in between has no other relation to the owner before its last key. */
  lemma JoinsByKeyIff(s: Schema, k: (Model, string))
    requires s.Valid() && k in s.fields && s.fields[k].IsRel()
    ensures var f := s.fields[k]; OnColumns(s, f, f.target) == KeyColumns(s, f) <==> JoinsByKey(s, f)
  {
    var f := s.fields[k];
    assert s.PairOk(k);
    assert s.ColumnsOk(f.relModel) && s.ColumnsOk(f.target);
    if f.fieldType.ReverseMany? && FirstOfType(s.Rels(f.relModel), ForeignKey, f.owner).Some? {
      FirstIsKeyIff(s.Rels(f.relModel), f.owner);
    } else if f.Many() {
      FirstIsLastKeyIff(s.Rels(f.target), f.owner);
    }
  }

  // ---- two schemas that fail ----

  const LIKERS := FieldInfo("Likers", ManyToMany, 1, 0, 2, "Likers", "article_id", false, false, false)
  const AUTHOR := FieldInfo("Author", ForeignKey, 1, 0, 0, "author_id", "", false, false, false)
  const ARTICLES := FieldInfo("Articles", ReverseMany, 0, 1, 1, "Articles", "author_id", false, false, false)
  const LIKE_ARTICLE := FieldInfo("Article", ForeignKey, 2, 1, 1, "article_id", "", false, false, true)
  const LIKE_USER := FieldInfo("User", ForeignKey, 2, 0, 0, "user_id", "", false, false, true)

  // Users (0) write articles (1) and like them (2); the likers of an article are declared before its author.
  const MAGAZINE := Schema(
    map[(1, "Likers") := LIKERS, (1, "Author") := AUTHOR, (0, "Articles") := ARTICLES,
        (2, "Article") := LIKE_ARTICLE, (2, "User") := LIKE_USER],
    map[(1, "Likers") := "Likers", (1, "Author") := "Author", (0, "Articles") := "Articles",
        (2, "Article") := "Article", (2, "User") := "User"],
    map[1 := [LIKERS, AUTHOR], 2 := [LIKE_ARTICLE, LIKE_USER]],
    map[0 := "id", 1 := "id", 2 := "id"])

  lemma MagazineIsValid()
    ensures MAGAZINE.Valid()
  {
    forall k ensures MAGAZINE.FieldOk(k) {
    }
    forall m ensures MAGAZINE.RelsOk(m) {
      MagazineRels(m);
    }
    forall m ensures MAGAZINE.ColumnsOk(m) {
    }
    forall k ensures MAGAZINE.PairOk(k) {
      MagazinePairs(k);
    }
  }

  lemma MagazineRels(m: Model)
    ensures MAGAZINE.RelsOk(m)
  {
    assert MAGAZINE.Rels(1) == [LIKERS, AUTHOR] && MAGAZINE.Rels(2) == [LIKE_ARTICLE, LIKE_USER];
    assert m != 1 && m != 2 ==> MAGAZINE.Rels(m) == [];
  }

  lemma MagazinePairs(k: (Model, string))
    ensures MAGAZINE.PairOk(k)
  {
    var articles, likes := [LIKERS, AUTHOR], [LIKE_ARTICLE, LIKE_USER];
    assert MAGAZINE.Rels(1) == articles && MAGAZINE.Rels(2) == likes;
    assert articles[1..] == [AUTHOR];
    assert FirstOfType(articles, ForeignKey, 0) == FirstOfType([AUTHOR], ForeignKey, 0) == Some(AUTHOR);
    assert likes[..1] == [LIKE_ARTICLE];
    assert LastKey(likes, 1) == LastKey([LIKE_ARTICLE], 1) == Some(LIKE_ARTICLE);
  }

  /** The articles of a user are joined by a column that is none, the name of the field declared first. */
  lemma ArticlesJoinByLikers()
    ensures OnColumns(MAGAZINE, ARTICLES, 1) == ("id", "Likers")
    ensures KeyColumns(MAGAZINE, ARTICLES) == ("id", "author_id")
  {
    assert MAGAZINE.Rels(1)[0] == LIKERS;
  }

  const PERSON := FieldInfo("Person", OneToOne, 1, 0, 0, "person_id", "", false, false, false)
  const PROFILE := FieldInfo("Profile", ReverseOne, 0, 1, 1, "Profile", "person_id", false, false, false)

  // A profile (1) belongs to a person (0); their primary keys have different names.
  const PROFILES := Schema(
    map[(1, "Person") := PERSON, (0, "Profile") := PROFILE],
    map[(1, "Person") := "Person", (0, "Profile") := "Profile"],
    map[1 := [PERSON]],
    map[0 := "id", 1 := "profile_id"])

  lemma ProfilesAreValid()
    ensures PROFILES.Valid()
  {
    forall k ensures PROFILES.FieldOk(k) {
    }
    forall m ensures PROFILES.RelsOk(m) {
      assert PROFILES.Rels(1) == [PERSON] && (m != 1 ==> PROFILES.Rels(m) == []);
    }
    forall m ensures PROFILES.ColumnsOk(m) {
    }
    forall k ensures PROFILES.PairOk(k) {
      assert FirstOfType(PROFILES.Rels(1), OneToOne, 0) == Some(PERSON);
    }
  }

  /** The profile of a person is joined by a column that the person does not have. */
  lemma ProfileJoinsByOwnKey()
    ensures OnColumns(PROFILES, PROFILE, 1) == ("profile_id", "person_id") && PROFILES.Pk(0) == "id"
  {
  }

  const POST := FieldInfo("Post", ForeignKey, 1, 0, 0, "post_id", "", false, false, false)
  const COMMENTS := FieldInfo("Comments", ReverseMany, 0, 1, 1, "Comments", "post_id", false, false, false)

  const TITLE := FieldInfo("Title", Plain, 0, 0, 0, "title", "", false, false, false)

  // A blog whose posts (0) have comments (1).
  const BLOG := Schema(
    map[(1, "Post") := POST, (0, "Comments") := COMMENTS, (0, "Title") := TITLE],
    map[(1, "Post") := "Post", (0, "Comments") := "Comments", (0, "Title") := "Title"],
    map[1 := [POST]],
    map[0 := "id", 1 := "id"])

  lemma BlogIsValid()
    ensures BLOG.Valid()
  {
    forall k ensures BLOG.FieldOk(k) {
    }
    forall m ensures BLOG.RelsOk(m) {
      assert BLOG.Rels(1) == [POST] && (m != 1 ==> BLOG.Rels(m) == []);
    }
    forall m ensures BLOG.ColumnsOk(m) {
    }
    forall k ensures BLOG.PairOk(k) {
      assert FirstOfType(BLOG.Rels(1), ForeignKey, 0) == Some(POST);
    }
  }
}
