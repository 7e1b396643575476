/** Cascading deletes: deleteRels and DeleteBatch over a database of rows, each SQL statement one
    atomic set operation. */
module Cascade {
  import opened Wrappers
  import opened OrmModels

  type Key = int

  // A foreign key column.
  datatype Field = Field(model: Model, name: string)

  datatype OnDelete = CascadeRule | SetNull | SetDefault(default: Key) | DoNothing

  datatype ForeignKey = ForeignKey(parent: Model, onDelete: OnDelete, nullable: bool)

  // The foreign keys, and for each model the foreign keys that its reverse fields stand for.
  datatype KeySchema = KeySchema(info: map<Field, ForeignKey>, reverse: map<Model, seq<Field>>) {
    ghost predicate Valid() {
      && (forall m, f | m in reverse && f in reverse[m] :: f in info && info[f].parent == m)
      && (forall f | f in info && info[f].onDelete == SetNull :: info[f].nullable)
    }

    function Reverse(m: Model): seq<Field> {
      if m in reverse then reverse[m] else []
    }

    // A foreign key that deleteRels looks at when a row of its parent model goes.
    predicate Followed(f: Field) {
      f in info && f in Reverse(info[f].parent)
    }
  }

  datatype RowId = RowId(model: Model, key: Key)
  type Row = map<string, Option<Key>>
  type Rows = map<RowId, Row>

  // ---- which references are hit ----

  // A foreign key value was handled: the deletion of its parent row set off the rule of the column.
  type Handled = set<(Field, Key)>

  ghost predicate Hit(s: KeySchema, h: Handled, gone: set<RowId>, f: Field, k: Key) {
    (f, k) in h || (s.Followed(f) && RowId(s.info[f].parent, k) in gone)
  }

  // Row r goes with its parent through some cascading column.
  ghost predicate Pulled(s: KeySchema, rows: Rows, h: Handled, gone: set<RowId>, r: RowId) {
    r in rows && exists n :: n in rows[r] && PulledBy(s, rows[r], r.model, h, gone, n)
  }

  ghost predicate PulledBy(s: KeySchema, row: Row, m: Model, h: Handled, gone: set<RowId>, n: string) {
    var f := Field(m, n);
    && n in row && row[n].Some?
    && f in s.info && s.info[f].onDelete == CascadeRule
    && Hit(s, h, gone, f, row[n].value)
  }

  ghost predicate Closed(s: KeySchema, rows: Rows, h: Handled, gone: set<RowId>) {
    gone <= rows.Keys && forall r | Pulled(s, rows, h, gone, r) :: r in gone
  }

  /** The rows that have to go: the least set closed under followed cascading references. */
  ghost predicate Least(s: KeySchema, rows: Rows, h: Handled, gone: set<RowId>) {
    Closed(s, rows, h, gone) && forall d | Closed(s, rows, h, d) :: gone <= d
  }

  // ---- what happens to the rows that stay ----

  // A set_default on a column that is not nullable joins the parent row, which is gone, and so
  // changes nothing.
  ghost function PatchValue(s: KeySchema, h: Handled, gone: set<RowId>, f: Field, v: Option<Key>): Option<Key> {
    if v.None? || f !in s.info || !Hit(s, h, gone, f, v.value) then v
    else
      match s.info[f].onDelete
      case SetNull => None
      case SetDefault(d) => if s.info[f].nullable then Some(d) else v
      case _ => v
  }

  ghost function PatchRow(s: KeySchema, h: Handled, gone: set<RowId>, m: Model, row: Row): Row {
    map n | n in row :: PatchValue(s, h, gone, Field(m, n), row[n])
  }

  ghost function Remaining(s: KeySchema, rows: Rows, h: Handled, gone: set<RowId>): Rows {
    map r | r in rows && r !in gone :: PatchRow(s, h, gone, r.model, rows[r])
  }

  // ---- two deletions in a row ----

  lemma PatchTwice(s: KeySchema, h1: Handled, g1: set<RowId>, h2: Handled, g2: set<RowId>, m: Model, row: Row)
    ensures PatchRow(s, h2, g2, m, PatchRow(s, h1, g1, m, row)) == PatchRow(s, h1 + h2, g1 + g2, m, row)
  {
  }

  lemma PulledAfter(s: KeySchema, rows: Rows, h1: Handled, g1: set<RowId>, h2: Handled, g2: set<RowId>, r: RowId)
    requires r in rows && r !in g1
    ensures Pulled(s, Remaining(s, rows, h1, g1), h2, g2, r) <==> Pulled(s, rows, h2, g2, r)
  {
    var row, row' := rows[r], PatchRow(s, h1, g1, r.model, rows[r]);
    forall n | n in row
      ensures PulledBy(s, row', r.model, h2, g2, n) <==> PulledBy(s, row, r.model, h2, g2, n)
    {
    }
  }

  lemma PulledUnion(s: KeySchema, rows: Rows, h1: Handled, g1: set<RowId>, h2: Handled, g2: set<RowId>, r: RowId)
    ensures Pulled(s, rows, h1 + h2, g1 + g2, r) <==> Pulled(s, rows, h1, g1, r) || Pulled(s, rows, h2, g2, r)
  {
    if r in rows {
      var row := rows[r];
      forall n | n in row
        ensures PulledBy(s, row, r.model, h1 + h2, g1 + g2, n)
          <==> PulledBy(s, row, r.model, h1, g1, n) || PulledBy(s, row, r.model, h2, g2, n)
      {
      }
    }
  }

  lemma PulledMore(s: KeySchema, rows: Rows, h: Handled, g1: set<RowId>, g2: set<RowId>, r: RowId)
    requires Pulled(s, rows, h, g1, r) && g1 <= g2
    ensures Pulled(s, rows, h, g2, r)
  {
    assert g1 + g2 == g2 && h + h == h;
    PulledUnion(s, rows, h, g1, h, g2, r);
  }

  lemma RemainingTwice(s: KeySchema, rows: Rows, h1: Handled, g1: set<RowId>, h2: Handled, g2: set<RowId>)
    ensures Remaining(s, Remaining(s, rows, h1, g1), h2, g2) == Remaining(s, rows, h1 + h2, g1 + g2)
  {
    forall r | r in rows && r !in g1 && r !in g2 {
      PatchTwice(s, h1, g1, h2, g2, r.model, rows[r]);
    }
  }

  /** Deleting for one set of references and then, in what remains, for another deletes for both. */
  lemma LeastTwice(s: KeySchema, rows: Rows, h1: Handled, g1: set<RowId>, h2: Handled, g2: set<RowId>)
    requires Least(s, rows, h1, g1) && Least(s, Remaining(s, rows, h1, g1), h2, g2)
    ensures Least(s, rows, h1 + h2, g1 + g2)
  {
    var rest := Remaining(s, rows, h1, g1);
    forall r | Pulled(s, rows, h1 + h2, g1 + g2, r) ensures r in g1 + g2 {
      PulledUnion(s, rows, h1, g1, h2, g2, r);
      if r !in g1 {
        PulledAfter(s, rows, h1, g1, h2, g2, r);
      }
    }
    forall d | Closed(s, rows, h1 + h2, d) ensures g1 + g2 <= d {
      forall r | Pulled(s, rows, h1, d, r) ensures r in d {
        assert d + d == d;
        PulledUnion(s, rows, h1, d, h2, d, r);
      }
      assert Closed(s, rows, h1, d);
      forall r | Pulled(s, rest, h2, d - g1, r) ensures r in d - g1 {
        PulledAfter(s, rows, h1, g1, h2, d - g1, r);
        PulledMore(s, rows, h2, d - g1, d, r);
        assert d + d == d;
        PulledUnion(s, rows, h1, d, h2, d, r);
      }
      assert Closed(s, rest, h2, d - g1);
    }
  }

  // ---- the deletion of a batch and of what depends on it ----

  function Keys(batch: set<RowId>): set<Key> {
    set r | r in batch :: r.key
  }

  // The references handled by deleteRels for some keys of a model.
  function RelHandled(s: KeySchema, m: Model, keys: set<Key>): Handled {
    FieldsHandled(s.Reverse(m), keys)
  }

  function FieldsHandled(fields: seq<Field>, keys: set<Key>): Handled {
    set f, k | f in fields && k in keys :: (f, k)
  }

  function FieldHandled(f: Field, keys: set<Key>): Handled {
    set k | k in keys :: (f, k)
  }

  lemma RelHandledHit(s: KeySchema, m: Model, batch: set<RowId>, gone: set<RowId>, f: Field, k: Key)
    requires s.Valid() && forall r | r in batch :: r.model == m
    ensures Hit(s, RelHandled(s, m, Keys(batch)), gone, f, k) <==> Hit(s, {}, batch + gone, f, k)
  {
    if k in Keys(batch) {
      assert RowId(m, k) in batch;
    }
    if (f, k) in RelHandled(s, m, Keys(batch)) {
      assert s.Followed(f);
    }
  }

  lemma RelHandledPulled(s: KeySchema, rows: Rows, m: Model, batch: set<RowId>, gone: set<RowId>, r: RowId)
    requires s.Valid() && forall b | b in batch :: b.model == m
    ensures Pulled(s, rows, RelHandled(s, m, Keys(batch)), gone, r) <==> Pulled(s, rows, {}, batch + gone, r)
  {
    if r in rows {
      forall n | n in rows[r]
        ensures PulledBy(s, rows[r], r.model, RelHandled(s, m, Keys(batch)), gone, n)
          <==> PulledBy(s, rows[r], r.model, {}, batch + gone, n)
      {
        if rows[r][n].Some? {
          RelHandledHit(s, m, batch, gone, Field(r.model, n), rows[r][n].value);
        }
      }
    }
  }

  lemma RelHandledRemaining(s: KeySchema, rows: Rows, m: Model, batch: set<RowId>, gone: set<RowId>)
    requires s.Valid() && forall b | b in batch :: b.model == m
    ensures Remaining(s, rows - batch, RelHandled(s, m, Keys(batch)), gone) == Remaining(s, rows, {}, batch + gone)
  {
    var h := RelHandled(s, m, Keys(batch));
    forall r | r in rows && r !in batch + gone
      ensures PatchRow(s, h, gone, r.model, rows[r]) == PatchRow(s, {}, batch + gone, r.model, rows[r])
    {
      forall n | n in rows[r] && rows[r][n].Some?
        ensures Hit(s, h, gone, Field(r.model, n), rows[r][n].value)
          <==> Hit(s, {}, batch + gone, Field(r.model, n), rows[r][n].value)
      {
        RelHandledHit(s, m, batch, gone, Field(r.model, n), rows[r][n].value);
      }
    }
    var a, b := Remaining(s, rows - batch, h, gone), Remaining(s, rows, {}, batch + gone);
    assert a.Keys == b.Keys;
    forall r | r in a ensures a[r] == b[r] {
      assert (rows - batch)[r] == rows[r];
    }
  }

  // The least closed set that contains a batch of rows.
  ghost predicate LeastWith(s: KeySchema, rows: Rows, batch: set<RowId>, gone: set<RowId>) {
    && batch <= gone && Closed(s, rows, {}, gone)
    && forall d | batch <= d && Closed(s, rows, {}, d) :: gone <= d
  }

  /** Removing a batch and then everything that deleteRels finds removes the least closed set around the batch. */
  lemma BatchThenRels(s: KeySchema, rows: Rows, m: Model, batch: set<RowId>, gone: set<RowId>)
    requires s.Valid() && batch <= rows.Keys && forall b | b in batch :: b.model == m
    requires Least(s, rows - batch, RelHandled(s, m, Keys(batch)), gone)
    ensures LeastWith(s, rows, batch, batch + gone)
  {
    var h, rest := RelHandled(s, m, Keys(batch)), rows - batch;
    forall r | Pulled(s, rows, {}, batch + gone, r) ensures r in batch + gone {
      if r !in batch {
        assert rest[r] == rows[r];
        assert Pulled(s, rest, {}, batch + gone, r);
        RelHandledPulled(s, rest, m, batch, gone, r);
      }
    }
    forall d | batch <= d && Closed(s, rows, {}, d) ensures batch + gone <= d {
      forall r | Pulled(s, rest, h, d - batch, r) ensures r in d - batch {
        RelHandledPulled(s, rest, m, batch, d - batch, r);
        assert batch + (d - batch) == d;
        assert Pulled(s, rows, {}, d, r);
      }
      assert Closed(s, rest, h, d - batch);
    }
  }

  // The rows of a table whose column refers to one of the keys.
  function Referring(rows: Rows, f: Field, keys: set<Key>): set<RowId> {
    set r | r in rows && r.model == f.model && f.name in rows[r] && rows[r][f.name].Some?
      && rows[r][f.name].value in keys
  }

  lemma ReferringPulled(s: KeySchema, rows: Rows, f: Field, keys: set<Key>, gone: set<RowId>, r: RowId)
    requires f in s.info && s.info[f].onDelete == CascadeRule
    ensures Pulled(s, rows, FieldHandled(f, keys), gone, r)
      <==> Pulled(s, rows, {}, gone, r) || r in Referring(rows, f, keys)
  {
    if r in rows {
      var h := FieldHandled(f, keys);
      if r in Referring(rows, f, keys) {
        var k := rows[r][f.name].value;
        assert k in keys && (f, k) in h && f == Field(r.model, f.name);
        assert PulledBy(s, rows[r], r.model, h, gone, f.name);
      }
      forall n | n in rows[r] && PulledBy(s, rows[r], r.model, h, gone, n)
        ensures PulledBy(s, rows[r], r.model, {}, gone, n) || r in Referring(rows, f, keys)
      {
      }
      forall n | n in rows[r] && PulledBy(s, rows[r], r.model, {}, gone, n)
        ensures PulledBy(s, rows[r], r.model, h, gone, n)
      {
      }
    }
  }

  // A cascade through one column: the referring rows and the least closed set around them.
  lemma CascadeColumn(s: KeySchema, rows: Rows, f: Field, keys: set<Key>, gone: set<RowId>)
    requires f in s.info && s.info[f].onDelete == CascadeRule
    requires LeastWith(s, rows, Referring(rows, f, keys), gone)
    ensures Least(s, rows, FieldHandled(f, keys), gone)
    ensures Remaining(s, rows, FieldHandled(f, keys), gone) == Remaining(s, rows, {}, gone)
  {
    var h, batch := FieldHandled(f, keys), Referring(rows, f, keys);
    forall r | Pulled(s, rows, h, gone, r) ensures r in gone {
      ReferringPulled(s, rows, f, keys, gone, r);
    }
    forall d | Closed(s, rows, h, d) ensures gone <= d {
      forall r | r in batch || Pulled(s, rows, {}, d, r) ensures r in d {
        ReferringPulled(s, rows, f, keys, d, r);
      }
    }
    forall r | r in rows && r !in gone
      ensures PatchRow(s, h, gone, r.model, rows[r]) == PatchRow(s, {}, gone, r.model, rows[r])
    {
    }
    var a, b := Remaining(s, rows, h, gone), Remaining(s, rows, {}, gone);
    assert a.Keys == b.Keys;
  }

  // A column that does not cascade removes nothing.
  lemma UpdateColumn(s: KeySchema, rows: Rows, f: Field, keys: set<Key>)
    requires f in s.info && s.info[f].onDelete != CascadeRule
    ensures Least(s, rows, FieldHandled(f, keys), {})
  {
    forall r | Pulled(s, rows, FieldHandled(f, keys), {}, r) ensures false {
    }
  }

  // ---- the statements and the two procedures ----

  // A row matches the UPDATE of a column when it refers to one of the keys; a column that is not
  // nullable is inner-joined with its parent table, so the parent row has to exist as well.
  function Updated(s: KeySchema, rows: Rows, f: Field, keys: set<Key>): set<RowId>
    requires f in s.info
  {
    set r | r in Referring(rows, f, keys)
      && (s.info[f].nullable || RowId(s.info[f].parent, rows[r][f.name].value) in rows)
  }

  class Database {
    const schema: KeySchema
    var rows: Rows

    constructor (s: KeySchema, initial: Rows)
      ensures schema == s && rows == initial
    {
      schema, rows := s, initial;
    }

    // UpdateBatch: one UPDATE of a foreign key column.
    method UpdateColumnTo(f: Field, keys: set<Key>, value: Option<Key>)
      requires f in schema.info
      modifies this
      ensures rows == map r | r in old(rows) ::
        if r in Updated(schema, old(rows), f, keys) then old(rows)[r][f.name := value] else old(rows)[r]
    {
      var hit := Updated(schema, rows, f, keys);
      rows := map r | r in rows :: if r in hit then rows[r][f.name := value] else rows[r];
    }

    /** deleteRels, called after the rows with these keys have been deleted. */
    method DeleteRels(m: Model, keys: set<Key>) returns (ghost gone: set<RowId>)
      requires schema.Valid() && forall k | k in keys :: RowId(m, k) !in rows
      modifies this
      ensures Least(schema, old(rows), RelHandled(schema, m, keys), gone)
      ensures rows == Remaining(schema, old(rows), RelHandled(schema, m, keys), gone)
      decreases |rows|, 1
    {
      var fields := schema.Reverse(m);
      gone := {};
      NothingHandled(schema, rows);
      assert FieldsHandled([], keys) == {};
      for i := 0 to |fields|
        invariant Least(schema, old(rows), FieldsHandled(fields[..i], keys), gone)
        invariant rows == Remaining(schema, old(rows), FieldsHandled(fields[..i], keys), gone)
      {
        CardinalityLe(rows.Keys, old(rows).Keys);
        ghost var more := DeleteColumn(fields[i], keys);
        FieldsHandledStep(schema, old(rows), fields, i, keys, gone, more);
        gone := gone + more;
      }
      assert fields[..|fields|] == fields;
    }

    // One turn of the loop of deleteRels: the rule of one foreign key.
    method DeleteColumn(f: Field, keys: set<Key>) returns (ghost gone: set<RowId>)
      requires schema.Valid() && f in schema.info && forall k | k in keys :: RowId(schema.info[f].parent, k) !in rows
      modifies this
      ensures Least(schema, old(rows), FieldHandled(f, keys), gone)
      ensures rows == Remaining(schema, old(rows), FieldHandled(f, keys), gone)
      decreases |rows|, 0, 1
    {
      match schema.info[f].onDelete {
        case CascadeRule =>
          gone := DeleteBatch(f.model, Referring(rows, f, keys));
          CascadeColumn(schema, old(rows), f, keys, gone);
        case SetNull =>
          gone := {};
          UpdateColumnTo(f, keys, None);
          UpdateColumn(schema, old(rows), f, keys);
          UpdatePatches(schema, old(rows), f, keys, None);
        case SetDefault(d) =>
          gone := {};
          UpdateColumnTo(f, keys, Some(d));
          UpdateColumn(schema, old(rows), f, keys);
          UpdatePatches(schema, old(rows), f, keys, Some(d));
        case DoNothing =>
          gone := {};
          UpdateColumn(schema, old(rows), f, keys);
          NothingToPatch(schema, old(rows), f, keys);
      }
    }

    /** DeleteBatch for the rows that its condition selects. */
    method DeleteBatch(m: Model, batch: set<RowId>) returns (ghost gone: set<RowId>)
      requires schema.Valid() && batch <= rows.Keys && forall r | r in batch :: r.model == m
      modifies this
      ensures LeastWith(schema, old(rows), batch, gone)
      ensures rows == Remaining(schema, old(rows), {}, gone)
      decreases |rows|, 0, 0
    {
      if batch == {} {
        gone := {};
        NothingHandled(schema, rows);
        return;
      }
      rows := rows - batch;
      Smaller(old(rows), batch);
      gone := DeleteRels(m, Keys(batch));
      BatchThenRels(schema, old(rows), m, batch, gone);
      RelHandledRemaining(schema, old(rows), m, batch, gone);
      gone := batch + gone;
    }
  }

  lemma FieldsHandledStep(s: KeySchema, rows: Rows, fields: seq<Field>, i: nat, keys: set<Key>, gone: set<RowId>,
                          more: set<RowId>)
    requires i < |fields| && Least(s, rows, FieldsHandled(fields[..i], keys), gone)
    requires Least(s, Remaining(s, rows, FieldsHandled(fields[..i], keys), gone), FieldHandled(fields[i], keys), more)
    ensures Least(s, rows, FieldsHandled(fields[..i + 1], keys), gone + more)
    ensures
      Remaining(s, Remaining(s, rows, FieldsHandled(fields[..i], keys), gone), FieldHandled(fields[i], keys), more)
      == Remaining(s, rows, FieldsHandled(fields[..i + 1], keys), gone + more)
  {
    var h1, h2 := FieldsHandled(fields[..i], keys), FieldHandled(fields[i], keys);
    LeastTwice(s, rows, h1, gone, h2, more);
    RemainingTwice(s, rows, h1, gone, h2, more);
    assert h1 + h2 == FieldsHandled(fields[..i + 1], keys);
  }

  lemma CardinalityLe<T>(a: set<T>, b: set<T>)
    requires a <= b
    ensures |a| <= |b|
  {
    assert b == a + (b - a);
  }

  lemma Smaller(rows: Rows, batch: set<RowId>)
    requires batch <= rows.Keys && batch != {}
    ensures |rows - batch| < |rows|
  {
    assert (rows - batch).Keys == rows.Keys - batch;
    assert rows.Keys == (rows.Keys - batch) + batch;
  }

  lemma NothingHandled(s: KeySchema, rows: Rows)
    ensures Least(s, rows, {}, {}) && LeastWith(s, rows, {}, {}) && Remaining(s, rows, {}, {}) == rows
  {
    assert forall r | r in rows :: PatchRow(s, {}, {}, r.model, rows[r]) == rows[r];
  }

  lemma NothingToPatch(s: KeySchema, rows: Rows, f: Field, keys: set<Key>)
    requires f in s.info && s.info[f].onDelete == DoNothing
    ensures Remaining(s, rows, FieldHandled(f, keys), {}) == rows
  {
    assert forall r | r in rows :: PatchRow(s, FieldHandled(f, keys), {}, r.model, rows[r]) == rows[r];
  }

  lemma UpdatePatches(s: KeySchema, rows: Rows, f: Field, keys: set<Key>, value: Option<Key>)
    requires s.Valid() && f in s.info && forall k | k in keys :: RowId(s.info[f].parent, k) !in rows
    requires s.info[f].onDelete == match value case None => SetNull case Some(d) => SetDefault(d)
    ensures Remaining(s, rows, FieldHandled(f, keys), {}) == map r | r in rows ::
      if r in Updated(s, rows, f, keys) then rows[r][f.name := value] else rows[r]
  {
    var h := FieldHandled(f, keys);
    forall r | r in rows
      ensures PatchRow(s, h, {}, r.model, rows[r])
        == if r in Updated(s, rows, f, keys) then rows[r][f.name := value] else rows[r]
    {
      var row := rows[r];
      forall n | n in row && row[n].Some?
        ensures Hit(s, h, {}, Field(r.model, n), row[n].value) <==> Field(r.model, n) == f && row[n].value in keys
      {
      }
    }
  }

  // ---- the promise ----

  /** After a batch is deleted, a row that is left refers to no deleted row through a followed
      column that cascades or is set to null. */
  lemma NoDanglingReference(s: KeySchema, rows: Rows, batch: set<RowId>, gone: set<RowId>, r: RowId, n: string)
    requires s.Valid() && LeastWith(s, rows, batch, gone)
    requires var rest := Remaining(s, rows, {}, gone); r in rest && n in rest[r] && rest[r][n].Some?
    requires var f := Field(r.model, n); s.Followed(f) && s.info[f].onDelete in {CascadeRule, SetNull}
    ensures RowId(s.info[Field(r.model, n)].parent, Remaining(s, rows, {}, gone)[r][n].value) !in gone
  {
    var f := Field(r.model, n);
    var row := rows[r];
    assert s.info[f].onDelete == CascadeRule && RowId(s.info[f].parent, row[n].value) in gone
      ==> PulledBy(s, row, r.model, {}, gone, n);
  }

  // A value refers to a deleted row through a column that the cascade follows.
  ghost predicate RefersToGone(s: KeySchema, gone: set<RowId>, f: Field, v: Option<Key>) {
    v.Some? && s.Followed(f) && RowId(s.info[f].parent, v.value) in gone
  }

  /** What is left is what was there and has not gone, column by column: a value that does not refer to a deleted row
      stays, whatever the rule of its column, and so does one whose rule is to do nothing; set_null empties it, and
      set_default puts the default into a nullable column. */
  lemma RowsThatStay(s: KeySchema, rows: Rows, gone: set<RowId>, r: RowId, n: string)
    requires r in rows && n in rows[r]
    ensures var rest, f, v := Remaining(s, rows, {}, gone), Field(r.model, n), rows[r][n];
      && (r in rest <==> r !in gone)
      && (r in rest ==>
            && rest[r].Keys == rows[r].Keys
            && (!RefersToGone(s, gone, f, v) ==> rest[r][n] == v)
            && (RefersToGone(s, gone, f, v) ==>
                  match s.info[f].onDelete
                  case SetNull => rest[r][n] == None
                  case SetDefault(d) => rest[r][n] == if s.info[f].nullable then Some(d) else v
                  case _ => rest[r][n] == v))
  {
  }

  /** A set_default column that referred to a deleted row refers to a row that is not deleted
      exactly when it is nullable and its default is not deleted itself. */
  lemma SetDefaultReference(s: KeySchema, rows: Rows, gone: set<RowId>, r: RowId, n: string, d: Key)
    requires r in rows && r !in gone && n in rows[r] && rows[r][n].Some?
    requires var f := Field(r.model, n);
      s.Followed(f) && s.info[f].onDelete == SetDefault(d) && RowId(s.info[f].parent, rows[r][n].value) in gone
    ensures var f, rest := Field(r.model, n), Remaining(s, rows, {}, gone);
      && rest[r][n].Some?
      && (RowId(s.info[f].parent, rest[r][n].value) !in gone <==>
            s.info[f].nullable && RowId(s.info[f].parent, d) !in gone)
  {
    var f := Field(r.model, n);
    assert Hit(s, {}, gone, f, rows[r][n].value);
  }

  // Books refer to an author, in a column that is not nullable; one book refers to an author who is not the default.
  const BY := Field(1, "author")
  const BOOKS := KeySchema(map[BY := ForeignKey(0, SetDefault(1), false)], map[0 := [BY]])
  const BOOK := RowId(1, 1)
  const DEFAULT_AUTHOR := RowId(0, 1)
  const OTHER_AUTHOR := RowId(0, 2)
  const SHELF: Rows := map[DEFAULT_AUTHOR := map[], OTHER_AUTHOR := map[], BOOK := map["author" := Some(2)]]

  /** Deleting the author leaves the book with a reference to the deleted row, although the default author stays. */
  lemma DefaultLeavesDangling(gone: set<RowId>)
    requires LeastWith(BOOKS, SHELF, {OTHER_AUTHOR}, gone)
    ensures BOOKS.Valid() && gone == {OTHER_AUTHOR} && DEFAULT_AUTHOR in Remaining(BOOKS, SHELF, {}, gone)
    ensures var rest := Remaining(BOOKS, SHELF, {}, gone); BOOK in rest && rest[BOOK] == map["author" := Some(2)]
  {
    forall r | r in gone ensures r == OTHER_AUTHOR {
      if r != OTHER_AUTHOR {
        DeletedOnlyByCascade(BOOKS, SHELF, {OTHER_AUTHOR}, gone, r);
      }
    }
    assert SHELF[BOOK] == map["author" := Some(2)] && BOOKS.Followed(BY);
    SetDefaultReference(BOOKS, SHELF, gone, BOOK, "author", 1);
  }

  /** Nothing goes without a reason: a deleted row outside the batch refers, through a followed
      cascading column, to another deleted row. */
  lemma DeletedOnlyByCascade(s: KeySchema, rows: Rows, batch: set<RowId>, gone: set<RowId>, r: RowId)
    requires LeastWith(s, rows, batch, gone) && r in gone && r !in batch
    ensures Pulled(s, rows, {}, gone - {r}, r)
  {
    if !Pulled(s, rows, {}, gone - {r}, r) {
      forall x | Pulled(s, rows, {}, gone - {r}, x) ensures x in gone - {r} {
        PulledMore(s, rows, {}, gone - {r}, gone, x);
      }
      assert Closed(s, rows, {}, gone - {r});
    }
  }
}
