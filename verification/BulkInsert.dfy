/** Bulk inserts: InsertMulti refills one buffer and sends it in batches, InsertValue prints a mark
    for every value. */
module BulkInsert {
  import opened Wrappers
  import opened SqlMarks

  type Value = int
  type Row = seq<Value>

  datatype Outcome = Sent(batches: seq<seq<Value>>) | ErrArgs(batches: seq<seq<Value>>)

  function Concat(rows: seq<Row>): seq<Value> {
    if rows == [] then [] else rows[0] + Concat(rows[1..])
  }

  function Min(a: int, b: int): int { if a < b then a else b }

  // Go's copy into what is left of the buffer: as much as fits.
  function Copied(buffer: seq<Value>, row: Row, capacity: nat): (r: seq<Value>)
    requires |buffer| <= capacity
    ensures |r| <= capacity
  {
    buffer + row[..Min(|row|, capacity - |buffer|)]
  }

  // The buffer is sent after row i (counted from 1).
  predicate Flush(i: nat, bulk: nat, length: nat)
    requires bulk > 0
  {
    (i > 1 && i % bulk == 0) || i == length
  }

  // The batches sent for the rows after the first i, from a given buffer content.
  function Batches(rows: seq<Row>, bulk: nat, width: nat, i: nat, buffer: seq<Value>): Outcome
    requires bulk > 0 && i <= |rows| && |buffer| <= bulk * width
    decreases |rows| - i
  {
    if i == |rows| then Sent([])
    else if |rows[i]| != width then ErrArgs([])
    else
      var b := Copied(buffer, rows[i], bulk * width);
      if Flush(i + 1, bulk, |rows|) then
        match Batches(rows, bulk, width, i + 1, [])
        case Sent(bs) => Sent([b] + bs)
        case ErrArgs(bs) => ErrArgs([b] + bs)
      else Batches(rows, bulk, width, i + 1, b)
  }

  /** InsertMulti over the collected values of the rows; every statement succeeds. */
  method InsertMulti(rows: seq<Row>, bulk: nat) returns (r: Outcome)
    requires bulk > 0
    ensures r == if rows == [] then Sent([]) else Batches(rows, bulk, |rows[0]|, 0, [])
  {
    if rows == [] {
      return Sent([]);
    }
    var width := |rows[0]|;
    var values := new Value[bulk * width](_ => 0);
    var nums := 0;
    var sent: seq<seq<Value>> := [];
    for i := 0 to |rows|
      invariant 0 <= nums <= values.Length
      invariant Batches(rows, bulk, width, 0, []) == Prefixed(sent, Batches(rows, bulk, width, i, values[..nums]))
    {
      if |rows[i]| != width {
        return ErrArgs(sent);
      }
      ghost var before := values[..nums];
      var n := Min(|rows[i]|, values.Length - nums);
      forall k | 0 <= k < n { values[nums + k] := rows[i][k]; }
      nums := nums + n;
      assert values[..nums] == Copied(before, rows[i], bulk * width);
      if (i + 1 > 1 && (i + 1) % bulk == 0) || i + 1 == |rows| {
        sent := sent + [values[..nums]];
        nums := 0;
      }
    }
    return Sent(sent);
  }

  // An outcome with batches sent before it.
  function Prefixed(sent: seq<seq<Value>>, r: Outcome): Outcome {
    match r
    case Sent(bs) => Sent(sent + bs)
    case ErrArgs(bs) => ErrArgs(sent + bs)
  }

  // ---- what arrives ----

  ghost predicate Uniform(rows: seq<Row>, width: nat) {
    forall i | 0 <= i < |rows| :: |rows[i]| == width
  }

  // A batch of 1 to bulk whole rows.
  ghost predicate WholeRows(b: seq<Value>, bulk: nat, width: nat) {
    exists k :: 1 <= k <= bulk && |b| == k * width
  }

  lemma {:induction false} ConcatAll(batches: seq<seq<Value>>, b: seq<Value>)
    ensures Concat([b] + batches) == b + Concat(batches)
  {
    assert ([b] + batches)[1..] == batches;
  }

  lemma RowFits(i: nat, bulk: nat, width: nat)
    requires bulk >= 2
    ensures (i % bulk) * width + width == (i % bulk + 1) * width <= bulk * width
    ensures (i + 1) % bulk == if i % bulk + 1 == bulk then 0 else i % bulk + 1
  {
    MulMonotone(i % bulk + 1, bulk, width);
    NextRemainder(i, bulk);
  }

  lemma MulMonotone(a: nat, b: nat, c: nat)
    requires a <= b
    ensures a * c <= b * c
  {
  }

  lemma NextRemainder(i: nat, bulk: nat)
    requires bulk >= 2
    ensures (i + 1) % bulk == if i % bulk + 1 == bulk then 0 else i % bulk + 1
  {
    var q, r := i / bulk, i % bulk;
    assert i == bulk * q + r;
    if r + 1 == bulk {
      assert i + 1 == bulk * (q + 1) + 0;
      RemainderUnique(i + 1, bulk, q + 1, 0);
    } else {
      assert i + 1 == bulk * q + (r + 1);
      RemainderUnique(i + 1, bulk, q, r + 1);
    }
  }

  lemma RemainderUnique(n: nat, d: nat, q: nat, r: nat)
    requires d > 0 && r < d && n == d * q + r
    ensures n % d == r
  {
    var q', r' := n / d, n % d;
    assert d * (q - q') == r' - r;
    MultipleIsFar(d, q - q');
  }

  lemma MultipleIsFar(d: int, k: int)
    requires d >= 0
    ensures k > 0 ==> d * k >= d
    ensures k < 0 ==> d * k <= -d
  {
    if k > 0 {
      assert d * (k - 1) >= 0;
    } else if k < 0 {
      assert d * (-1 - k) >= 0;
    }
  }

  /** With a bulk of at least two, the batches are whole rows, at most bulk of them each, and together
      all rows in order. */
  lemma {:induction false} BatchesComplete(rows: seq<Row>, bulk: nat, width: nat, i: nat, buffer: seq<Value>)
    requires bulk >= 2 && Uniform(rows, width) && i <= |rows|
    requires |buffer| == (i % bulk) * width <= bulk * width && (i == |rows| ==> buffer == [])
    ensures var r := Batches(rows, bulk, width, i, buffer);
      && r.Sent? && Concat(r.batches) == buffer + Concat(rows[i..])
      && forall b | b in r.batches :: WholeRows(b, bulk, width)
    decreases |rows| - i
  {
    if i < |rows| {
      RowFits(i, bulk, width);
      var b := Copied(buffer, rows[i], bulk * width);
      assert b == buffer + rows[i];
      assert rows[i..][1..] == rows[i + 1..];
      assert buffer + Concat(rows[i..]) == b + Concat(rows[i + 1..]);
      if Flush(i + 1, bulk, |rows|) {
        assert WholeRows(b, bulk, width) by { assert |b| == (i % bulk + 1) * width; }
        if i + 1 == |rows| {
          assert rows[i + 1..] == [];
          ConcatAll([], b);
        } else {
          BatchesComplete(rows, bulk, width, i + 1, []);
          ConcatAll(Batches(rows, bulk, width, i + 1, []).batches, b);
        }
      } else {
        BatchesComplete(rows, bulk, width, i + 1, b);
      }
    }
  }

  // With a bulk of one the buffer holds one row and is not sent after the first.
  lemma {:induction false} OneByOne(rows: seq<Row>, width: nat, i: nat)
    requires Uniform(rows, width) && 2 <= i <= |rows|
    ensures var r := Batches(rows, 1, width, i, []); r.Sent? && Concat(r.batches) == Concat(rows[i..])
    decreases |rows| - i
  {
    if i < |rows| {
      OneByOne(rows, width, i + 1);
      assert Copied([], rows[i], 1 * width) == rows[i];
      assert rows[i..][1..] == rows[i + 1..];
      ConcatAll(Batches(rows, 1, width, i + 1, []).batches, rows[i]);
    }
  }

  lemma {:induction false} ConcatLength(rows: seq<Row>, width: nat)
    requires Uniform(rows, width)
    ensures |Concat(rows)| == |rows| * width
  {
    if rows != [] {
      ConcatLength(rows[1..], width);
      assert |rows| * width == width + (|rows| - 1) * width;
    }
  }

  lemma SecondRowLost(rows: seq<Row>, width: nat)
    requires Uniform(rows, width) && |rows| >= 2
    ensures var r := Batches(rows, 1, width, 0, []); r.Sent? && Concat(r.batches) == rows[0] + Concat(rows[2..])
  {
    assert Copied([], rows[0], 1 * width) == rows[0];
    assert Copied(rows[0], rows[1], 1 * width) == rows[0];
    OneByOne(rows, width, 2);
    ConcatAll(Batches(rows, 1, width, 2, []).batches, rows[0]);
    assert Batches(rows, 1, width, 1, rows[0]) == Prefixed([rows[0]], Batches(rows, 1, width, 2, []));
    assert Batches(rows, 1, width, 0, []) == Batches(rows, 1, width, 1, rows[0]);
  }

  /** All rows arrive exactly when the bulk is at least two or there is one row: with a bulk of one,
      which the public InsertMulti never passes on, the second row is lost. */
  lemma AllRowsArriveIff(rows: seq<Row>, bulk: nat, width: nat)
    requires bulk >= 1 && rows != [] && width > 0 && Uniform(rows, width)
    ensures var r := Batches(rows, bulk, width, 0, []);
      r.Sent? && (Concat(r.batches) == Concat(rows) <==> bulk >= 2 || |rows| == 1)
  {
    assert rows[0..] == rows;
    if bulk >= 2 {
      BatchesComplete(rows, bulk, width, 0, []);
    } else if |rows| == 1 {
      assert Copied([], rows[0], 1 * width) == rows[0];
      assert rows[1..] == [];
      ConcatAll([], rows[0]);
    } else {
      SecondRowLost(rows, width);
      ConcatLength(rows, width);
      ConcatLength(rows[2..], width);
      assert |rows| * width == width + (width + (|rows| - 2) * width);
    }
  }

  // ---- a row of another width ----

  // The rows before row k that fill whole batches.
  function Filled(k: nat, bulk: nat): (j: nat)
    requires bulk > 0
    ensures j <= k
  {
    k - k % bulk
  }

  lemma FilledIsLargest(m: nat, k: nat, bulk: nat)
    requires bulk >= 2 && m <= k && m % bulk == 0
    ensures m <= Filled(k, bulk)
  {
    var q, p := k / bulk, m / bulk;
    assert k == bulk * q + k % bulk && m == bulk * p;
    MultipleIsFar(bulk, p - q);
    assert bulk * (p - q) == m - Filled(k, bulk);
    if p <= q {
      MulMonotone(p, q, bulk);
    }
  }

  lemma FilledIsWhole(k: nat, bulk: nat)
    requires bulk >= 2
    ensures Filled(k, bulk) % bulk == 0
  {
    assert Filled(k, bulk) == bulk * (k / bulk) + 0;
    RemainderUnique(Filled(k, bulk), bulk, k / bulk, 0);
  }

  // One row before the last.
  lemma BatchStep(rows: seq<Row>, bulk: nat, width: nat, i: nat, buffer: seq<Value>)
    requires bulk >= 2 && i + 1 < |rows| && |rows[i]| == width
    requires |buffer| == (i % bulk) * width <= bulk * width
    ensures var b := buffer + rows[i];
      && |b| <= bulk * width && ((i + 1) % bulk != 0 ==> |b| == ((i + 1) % bulk) * width)
      && Batches(rows, bulk, width, i, buffer)
        == if (i + 1) % bulk == 0 then Prefixed([b], Batches(rows, bulk, width, i + 1, []))
           else Batches(rows, bulk, width, i + 1, b)
  {
    RowFits(i, bulk, width);
    assert Copied(buffer, rows[i], bulk * width) == buffer + rows[i];
  }

  /** A row of another width stops everything: what has been sent is the rows before it that fill whole batches. */
  lemma {:induction false} BadRowStops(rows: seq<Row>, bulk: nat, width: nat, i: nat, buffer: seq<Value>, k: nat)
    requires bulk >= 2 && i <= k < |rows| && Uniform(rows[..k], width) && |rows[k]| != width
    requires |buffer| == (i % bulk) * width <= bulk * width
    ensures var r, j := Batches(rows, bulk, width, i, buffer), Filled(k, bulk);
      r.ErrArgs? && Concat(r.batches) == if j <= i then [] else buffer + Concat(rows[i..j])
    decreases k - i
  {
    var j := Filled(k, bulk);
    FilledIsWhole(k, bulk);
    if i < k {
      assert rows[i] == rows[..k][i];
      BatchStep(rows, bulk, width, i, buffer);
      var b := buffer + rows[i];
      if (i + 1) % bulk == 0 {
        FilledIsLargest(i + 1, k, bulk);
        BadRowStops(rows, bulk, width, i + 1, [], k);
        ConcatAll(Batches(rows, bulk, width, i + 1, []).batches, b);
        ConcatFrom(rows, i, j, buffer);
        assert j == i + 1 ==> Concat(rows[i + 1..j]) == [];
      } else {
        BadRowStops(rows, bulk, width, i + 1, b, k);
        if i < j {
          ConcatFrom(rows, i, j, buffer);
        }
      }
    }
  }

  lemma ConcatFrom(rows: seq<Row>, i: nat, j: nat, buffer: seq<Value>)
    requires i < j <= |rows|
    ensures buffer + Concat(rows[i..j]) == buffer + rows[i] + Concat(rows[i + 1..j])
  {
    assert rows[i..j][1..] == rows[i + 1..j] && rows[i..j][0] == rows[i];
    assert buffer + (rows[i] + Concat(rows[i + 1..j])) == buffer + rows[i] + Concat(rows[i + 1..j]);
  }

  // ---- InsertValue ----

  // The numbers of marks in the groups of a list of values; None for a text that is no such list.
  function ReadGroups(s: string, open: bool, count: nat, done: seq<nat>): Option<seq<nat>>
    decreases |s|
  {
    if s == [] then (if open then None else Some(done))
    else
      match s[0]
      case '(' => if open then None else ReadGroups(s[1..], true, 0, done)
      case ')' => if open then ReadGroups(s[1..], false, 0, done + [count]) else None
      case '?' => if open then ReadGroups(s[1..], true, count + 1, done) else None
      case ',' => ReadGroups(s[1..], open, count, done)
      case ' ' => ReadGroups(s[1..], open, count, done)
      case _ => None
  }

  lemma {:induction false} ReadMarkList(n: nat, rest: string, count: nat, done: seq<nat>)
    ensures ReadGroups(MarkList(n) + rest, true, count, done) == ReadGroups(rest, true, count + n, done)
  {
    if n == 0 {
      assert MarkList(n) + rest == rest;
    } else if n == 1 {
      assert (MarkList(n) + rest)[1..] == rest;
    } else {
      var s := ", ?" + rest;
      ReadMarkList(n - 1, s, count, done);
      assert MarkList(n) + rest == MarkList(n - 1) + s;
      var a, b := s[1..], s[1..][1..];
      assert s[0] == ',' && a[0] == ' ' && b[0] == '?' && b[1..] == rest;
      var c := count + n - 1;
      assert ReadGroups(s, true, c, done) == ReadGroups(a, true, c, done) == ReadGroups(b, true, c, done);
    }
  }

  // A closing parenthesis, what separates groups, and an opening one.
  lemma ReadBorder(rest: string, count: nat, done: seq<nat>)
    ensures ReadGroups("), (" + rest, true, count, done) == ReadGroups(rest, true, 0, done + [count])
  {
    var s, next := "), (" + rest, done + [count];
    var a, b, c := s[1..], s[1..][1..], s[1..][1..][1..];
    assert s[0] == ')' && a[0] == ',' && b[0] == ' ' && c[0] == '(' && c[1..] == rest;
    assert ReadGroups(s, true, count, done) == ReadGroups(a, false, 0, next) == ReadGroups(b, false, 0, next);
    assert ReadGroups(b, false, 0, next) == ReadGroups(c, false, 0, next) == ReadGroups(rest, true, 0, next);
  }

  lemma {:induction false} ReadGroupMarks(names: nat, multi: nat, done: seq<nat>)
    requires multi > 0
    ensures ReadGroups(GroupMarks(names, multi) + ")", true, 0, done) == Some(done + seq(multi, _ => names))
  {
    if multi == 1 {
      ReadMarkList(names, ")", 0, done);
      assert ")"[1..] == [] && seq(1, _ => names) == [names];
    } else {
      var rest := GroupMarks(names, multi - 1) + ")";
      assert GroupMarks(names, multi) + ")" == MarkList(names) + ("), (" + rest);
      ReadMarkList(names, "), (" + rest, 0, done);
      ReadBorder(rest, names, done);
      ReadGroupMarks(names, multi - 1, done + [names]);
      assert done + [names] + seq(multi - 1, _ => names) == done + seq(multi, _ => names);
    }
  }

  /** The VALUES of a statement are as many groups as it has rows, each with a mark for every column. */
  lemma ValuesAreGroups(names: nat, multi: nat)
    requires multi > 0
    ensures ReadGroups("(" + GroupMarks(names, multi) + ")", false, 0, []) == Some(seq(multi, _ => names))
  {
    var s := "(" + GroupMarks(names, multi) + ")";
    assert s[0] == '(' && s[1..] == GroupMarks(names, multi) + ")";
    ReadGroupMarks(names, multi, []);
    assert [] + seq(multi, _ => names) == seq(multi, _ => names);
  }

  // "?, ?), (?, ?), ..." with multi groups.
  function GroupMarks(names: nat, multi: nat): string
    requires multi > 0
  {
    if multi == 1 then MarkList(names) else MarkList(names) + "), (" + GroupMarks(names, multi - 1)
  }

  lemma {:induction false} GroupMarksCount(names: nat, multi: nat)
    requires multi > 0
    ensures Marks(GroupMarks(names, multi)) == multi * names
  {
    MarkListMarks(names);
    if multi > 1 {
      GroupMarksCount(names, multi - 1);
      MarksConcat(MarkList(names) + "), (", GroupMarks(names, multi - 1));
      MarksConcat(MarkList(names), "), (");
      assert Marks("), (") == 0;
      assert multi * names == names + (multi - 1) * names;
    }
  }

  /** The statement that InsertValue prints for a batch of whole rows has as many marks as values. */
  lemma BatchMarks(b: seq<Value>, bulk: nat, width: nat)
    requires width > 0 && WholeRows(b, bulk, width)
    ensures |b| / width > 0 && Marks(GroupMarks(width, |b| / width)) == |b|
  {
    var k :| 1 <= k <= bulk && |b| == k * width;
    assert |b| == width * k + 0;
    RemainderUnique(|b|, width, k, 0);
    var q := |b| / width;
    assert |b| == q * width;
    assert q > 0 by {
      MulMonotone(1, k, width);
    }
    GroupMarksCount(width, q);
  }
}
