/** Reading the SET list of an UPDATE back: which column gets which value of a row. */
module SqlUpdates {
  import opened Wrappers
  import opened Text
  import opened SqlMarks
  import opened SqlReading

  // What the database computes with numbers; division is its own.
  type Division = (int, int) -> int

  function Computed(div: Division, sign: string, v: Arg, a: Arg): Option<Arg> {
    if sign !in {"+", "-", "*", "/"} then None
    else if !v.Number? || !a.Number? then Some(Null)
    else if sign == "+" then Some(Number(v.n + a.n))
    else if sign == "-" then Some(Number(v.n - a.n))
    else if sign == "*" then Some(Number(v.n * a.n))
    else Some(if a.n == 0 then Null else Number(div(v.n, a.n)))
  }

  // The columns of the list, each with its new value; None for a text that is no such list.
  type News = Option<seq<(string, Arg)>>

  // set := column = mark | column = column sign mark; a mark with a comma has another set behind it
  function ReadSets(div: Division, row: Row, ws: seq<string>, args: seq<Arg>): News
    decreases |ws|, 0
  {
    if |ws| >= 3 && ws[1] == "=" && args != [] && ws[2] in {"?", "?,"} then
      Onward(div, row, (ws[0], args[0]), ws[2] == "?,", ws[3..], args[1..])
    else if |ws| >= 5 && ws[1] == "=" && args != [] && ws[4] in {"?", "?,"}
      && Computed(div, ws[3], row(ws[2]), args[0]).Some? then
      Onward(div, row, (ws[0], Computed(div, ws[3], row(ws[2]), args[0]).value), ws[4] == "?,", ws[5..], args[1..])
    else None
  }

  function Onward(div: Division, row: Row, one: (string, Arg), more: bool, ws: seq<string>, args: seq<Arg>): News
    decreases |ws|, 1
  {
    if !more then (if ws == [] && args == [] then Some([one]) else None)
    else
      match ReadSets(div, row, ws, args)
      case None => None
      case Some(news) => Some([one] + news)
  }

  /** The new value of a column, by the name of the change. */
  function NewValue(div: Division, v: Arg, change: SetValue): Arg {
    match change
    case Value(a) => a
    case Change(opt, a) =>
      if !v.Number? || !a.Number? then Null
      else
        match opt
        case ColAdd => Number(v.n + a.n)
        case ColMinus => Number(v.n - a.n)
        case ColMultiply => Number(v.n * a.n)
        case ColExcept => if a.n == 0 then Null else Number(div(v.n, a.n))
  }

  // ---- the words of an assignment ----

  // A column that cannot be taken for a mark.
  predicate SetColumn(col: string) {
    col != [] && ' ' !in col && col !in {"?", "?,"}
  }

  function AssignWords(col: string, v: SetValue, mark: string): seq<string> {
    if v.Value? then [col, "=", mark] else [col, "=", col, [Arithmetic(v.opt)], mark]
  }

  lemma FiveWords(a: string, b: string, c: string, d: string, e: string)
    requires a != [] && ' ' !in a && b != [] && ' ' !in b && c != [] && ' ' !in c
    requires d != [] && ' ' !in d && e != [] && ' ' !in e
    ensures Words(a + " " + b + " " + c + " " + d + " " + e) == [a, b, c, d, e]
  {
    FourWords(a, b, c, d);
    OneWord(e);
    WordsSpace(a + " " + b + " " + c + " " + d, e);
  }

  lemma AssignText(col: string, v: SetValue, mark: string)
    requires SetColumn(col) && mark in {"?", "?,"}
    ensures Words(Assignment(col, v).text + mark[1..]) == AssignWords(col, v, mark)
  {
    assert mark == "?" + mark[1..];
    if v.Value? {
      ThreeWords(col, "=", mark);
      assert Assignment(col, v).text + mark[1..] == col + " " + "=" + " " + mark;
    } else {
      var sign := [Arithmetic(v.opt)];
      FiveWords(col, "=", col, sign, mark);
      assert Assignment(col, v).text + mark[1..] == col + " " + "=" + " " + col + " " + sign + " " + mark;
    }
  }

  // ---- the list from its first assignment on ----

  const SEPARATOR := Fragment(", ", [])

  lemma {:induction false} FragmentsHead(cols: seq<string>, values: seq<SetValue>)
    requires |cols| == |values| > 1
    ensures AssignmentFragments(cols, values)
      == [Assignment(cols[0], values[0]), SEPARATOR] + AssignmentFragments(cols[1..], values[1..])
    decreases |cols|
  {
    var n, head := |cols| - 1, [Assignment(cols[0], values[0]), SEPARATOR];
    var last := [Assignment(cols[n], values[n])];
    assert cols[1..][..n - 1] == cols[1..n] && values[1..][..n - 1] == values[1..n];
    assert cols[..n][1..] == cols[1..n] && values[..n][1..] == values[1..n];
    assert cols[1..][n - 1] == cols[n] && values[1..][n - 1] == values[n];
    if n == 1 {
      assert cols[..1][..0] == [] && values[..1][..0] == [];
      assert AssignmentFragments(cols[..1], values[..1]) == [Assignment(cols[0], values[0])];
      assert AssignmentFragments(cols[1..], values[1..]) == last;
    } else {
      FragmentsHead(cols[..n], values[..n]);
      var mid := AssignmentFragments(cols[1..n], values[1..n]);
      assert AssignmentFragments(cols[1..], values[1..]) == mid + [SEPARATOR] + last;
      assert head + mid + [SEPARATOR] + last == head + (mid + [SEPARATOR] + last);
    }
  }

  lemma FirstAssignment(cols: seq<string>, values: seq<SetValue>)
    requires |cols| == |values| > 1
    ensures var all, rest := AssignmentFragments(cols, values), AssignmentFragments(cols[1..], values[1..]);
      var one := Assignment(cols[0], values[0]);
      TextOf(all) == one.text + ", " + TextOf(rest) && ArgsOf(all) == one.args + ArgsOf(rest)
  {
    FragmentsHead(cols, values);
    Separated(Assignment(cols[0], values[0]), AssignmentFragments(cols[1..], values[1..]));
  }

  lemma Separated(one: Fragment, rest: seq<Fragment>)
    ensures TextOf([one, SEPARATOR] + rest) == one.text + ", " + TextOf(rest)
    ensures ArgsOf([one, SEPARATOR] + rest) == one.args + ArgsOf(rest)
  {
    TextOfConcat([one, SEPARATOR], rest);
    ArgsOfConcat([one, SEPARATOR], rest);
    TextOfSnoc([one], SEPARATOR);
    TextOfOne(one);
    assert [one] + [SEPARATOR] == [one, SEPARATOR];
  }

  lemma OneAssignment(cols: seq<string>, values: seq<SetValue>)
    requires |cols| == |values| == 1
    ensures var all, one := AssignmentFragments(cols, values), Assignment(cols[0], values[0]);
      TextOf(all) == one.text && ArgsOf(all) == one.args
  {
    assert cols[..0] == [] && values[..0] == [];
    assert AssignmentFragments(cols, values) == [Assignment(cols[0], values[0])];
    assert [Assignment(cols[0], values[0])][..0] == [];
  }

  // ---- what it does ----

  function Expected(div: Division, row: Row, cols: seq<string>, values: seq<SetValue>): (r: seq<(string, Arg)>)
    requires |cols| == |values|
    ensures |r| == |cols|
  {
    seq(|cols|, i requires 0 <= i < |cols| => (cols[i], NewValue(div, row(cols[i]), values[i])))
  }

  lemma ReadOne(div: Division, row: Row, col: string, v: SetValue, mark: string, ws: seq<string>, args: seq<Arg>)
    requires SetColumn(col) && mark in {"?", "?,"}
    ensures ReadSets(div, row, AssignWords(col, v, mark) + ws, [v.arg] + args)
      == Onward(div, row, (col, NewValue(div, row(col), v)), mark == "?,", ws, args)
  {
    var all := AssignWords(col, v, mark) + ws;
    assert ([v.arg] + args)[0] == v.arg && ([v.arg] + args)[1..] == args;
    if v.Value? {
      assert all[0] == col && all[1] == "=" && all[2] == mark && all[3..] == ws;
    } else {
      var sign := [Arithmetic(v.opt)];
      assert all[0] == all[2] == col && all[1] == "=" && all[3] == sign && all[4] == mark && all[5..] == ws;
      SignComputes(div, v.opt, row(col), v.arg);
    }
  }

  lemma SignComputes(div: Division, opt: ColOpt, v: Arg, a: Arg)
    ensures Computed(div, [Arithmetic(opt)], v, a) == Some(NewValue(div, v, Change(opt, a)))
  {
    assert "+"[0] == '+' && "-"[0] == '-' && "*"[0] == '*' && "/"[0] == '/';
  }

  /** The SET list of an UPDATE, read as SQL with its arguments bound to the marks in order, gives each column the new
      value that was asked for: the value itself, or the old one changed by it. */
  lemma {:induction false} SetListMeans(div: Division, row: Row, cols: seq<string>, values: seq<SetValue>)
    requires |cols| == |values| > 0 && forall i | 0 <= i < |cols| :: SetColumn(cols[i])
    ensures var fs := AssignmentFragments(cols, values);
      ReadSets(div, row, Words(TextOf(fs)), ArgsOf(fs)) == Some(Expected(div, row, cols, values))
    decreases |cols|
  {
    if |cols| == 1 {
      OneAssignment(cols, values);
      LastSet(div, row, cols[0], values[0]);
      assert Expected(div, row, cols, values) == [(cols[0], NewValue(div, row(cols[0]), values[0]))];
    } else {
      var rest := AssignmentFragments(cols[1..], values[1..]);
      FirstAssignment(cols, values);
      SetListMeans(div, row, cols[1..], values[1..]);
      MoreSets(div, row, cols[0], values[0], TextOf(rest), ArgsOf(rest));
      assert Expected(div, row, cols, values)
        == [(cols[0], NewValue(div, row(cols[0]), values[0]))] + Expected(div, row, cols[1..], values[1..]);
    }
  }

  lemma LastSet(div: Division, row: Row, col: string, v: SetValue)
    requires SetColumn(col)
    ensures var one := Assignment(col, v);
      ReadSets(div, row, Words(one.text), one.args) == Some([(col, NewValue(div, row(col), v))])
  {
    var one := Assignment(col, v);
    AssignText(col, v, "?");
    assert one.args == [v.arg] && "?"[1..] == [] && one.text + [] == one.text;
    ReadOne(div, row, col, v, "?", [], []);
    assert AssignWords(col, v, "?") + [] == AssignWords(col, v, "?") && [v.arg] + [] == [v.arg];
  }

  lemma MoreSets(div: Division, row: Row, col: string, v: SetValue, text: string, args: seq<Arg>)
    requires SetColumn(col) && ReadSets(div, row, Words(text), args).Some?
    ensures var one := Assignment(col, v);
      ReadSets(div, row, Words(one.text + ", " + text), one.args + args)
        == Some([(col, NewValue(div, row(col), v))] + ReadSets(div, row, Words(text), args).value)
  {
    var one := Assignment(col, v);
    AssignText(col, v, "?,");
    assert one.args == [v.arg] && "?,"[1..] == "," && one.text + ", " + text == one.text + "," + " " + text;
    WordsSpace(one.text + ",", text);
    ReadOne(div, row, col, v, "?,", Words(text), args);
  }

  // ---- the whole statement ----

  // A word of its own.
  predicate Word(w: string) {
    w != [] && ' ' !in w
  }

  lemma WordBefore(w: string, s: string)
    requires Word(w)
    ensures Words(w + " " + s) == [w] + Words(s)
  {
    OneWord(w);
    WordsSpace(w, s);
  }

  lemma TextOfUpdate(form: UpdateForm, cols: seq<string>, values: seq<SetValue>, where: seq<Fragment>)
    requires |cols| == |values|
    ensures TextOf(UpdateFragments(form, cols, values, where))
      == form.head + TextOf(AssignmentFragments(cols, values)) + form.middle + TextOf(where) + form.tail
  {
    var sets := AssignmentFragments(cols, values);
    var a, b, c := [Fragment(form.head, [])], [Fragment(form.middle, [])], [Fragment(form.tail, [])];
    TextOfConcat(a + sets + b + where, c);
    TextOfConcat(a + sets + b, where);
    TextOfConcat(a + sets, b);
    TextOfConcat(a, sets);
    TextOfOne(a[0]);
    TextOfOne(b[0]);
    TextOfOne(c[0]);
  }

  // The joins in front of a clause: none, or text with a blank behind it.
  predicate Joins(join: string) {
    join == [] || join[|join| - 1] == ' '
  }

  lemma JoinedHead(table: string, join: string, rest: string)
    requires Word(table) && Joins(join)
    ensures Words(JoinedUpdate(table, join).head + rest)
      == ["UPDATE", table, "T0"] + Words(join) + ["SET"] + Words(rest)
  {
    var tail := join + ("SET" + " " + rest);
    assert JoinedUpdate(table, join).head + rest == "UPDATE" + " " + (table + " " + ("T0" + " " + tail));
    WordBefore("UPDATE", table + " " + ("T0" + " " + tail));
    WordBefore(table, "T0" + " " + tail);
    WordBefore("T0", tail);
    WordsAppend(join, "SET" + " " + rest);
    WordBefore("SET", rest);
  }

  lemma SelectingHead(table: string, pk: string, join: string, rest: string)
    requires Word(table)
    ensures Words(SelectingUpdate(table, pk, join).head + rest) == ["UPDATE", table, "SET"] + Words(rest)
  {
    assert SelectingUpdate(table, pk, join).head + rest == "UPDATE" + " " + (table + " " + ("SET" + " " + rest));
    WordBefore("UPDATE", table + " " + ("SET" + " " + rest));
    WordBefore(table, "SET" + " " + rest);
    WordBefore("SET", rest);
  }

  // What stands between the SET list and the condition of a statement that selects its rows.
  function Selection(table: string, pk: string): seq<string> {
    ["WHERE", pk, "IN", "(", "SELECT", "T0." + pk, "FROM", table, "T0"]
  }

  lemma SelectingMiddle(table: string, pk: string, join: string, rest: string)
    requires Word(table) && Word(pk) && Joins(join)
    ensures Words(SelectingUpdate(table, pk, join).middle + rest) == Selection(table, pk) + Words(join) + Words(rest)
  {
    var select := SelectText(table, pk, join + rest);
    MiddleText(table, pk, join, rest);
    var all := "WHERE" + " " + (pk + " " + ("IN" + " " + select));
    WordsSpace("", all);
    NoWord();
    WordBefore("WHERE", pk + " " + ("IN" + " " + select));
    WordBefore(pk, "IN" + " " + select);
    WordBefore("IN", select);
    SelectingRows(table, pk, join + rest);
    WordsAppend(join, rest);
    SelectionWords(table, pk, Words(join), Words(rest));
  }

  lemma SelectionWords(table: string, pk: string, d: seq<string>, e: seq<string>)
    ensures [] + (["WHERE"] + ([pk] + (["IN"] + (["(", "SELECT", "T0." + pk, "FROM", table, "T0"] + (d + e)))))
      == Selection(table, pk) + d + e
  {
  }

  // From the parenthesis on.
  function SelectText(table: string, pk: string, tail: string): string {
    var from := "FROM" + " " + (table + " " + ("T0" + " " + tail));
    "(" + " " + ("SELECT" + " " + (("T0." + pk) + " " + from))
  }

  lemma MiddleText(table: string, pk: string, join: string, rest: string)
    ensures SelectingUpdate(table, pk, join).middle + rest
      == "" + " " + ("WHERE" + " " + (pk + " " + ("IN" + " " + SelectText(table, pk, join + rest))))
  {
    SelectTextFlat(table, pk, join + rest);
    var flat := "( SELECT T0." + pk + " FROM " + table + " T0 ";
    assert SelectingUpdate(table, pk, join).middle == " WHERE " + pk + " IN " + flat + join;
    assert " WHERE " + pk + " IN " + flat + join + rest == " WHERE " + pk + " IN " + (flat + (join + rest));
  }

  lemma SelectTextFlat(table: string, pk: string, tail: string)
    ensures SelectText(table, pk, tail) == "( SELECT T0." + pk + " FROM " + table + " T0 " + tail
  {
  }

  lemma SelectingRows(table: string, pk: string, tail: string)
    requires Word(table) && Word(pk)
    ensures Words(SelectText(table, pk, tail)) == ["(", "SELECT", "T0." + pk, "FROM", table, "T0"] + Words(tail)
  {
    var from := "FROM" + " " + (table + " " + ("T0" + " " + tail));
    WordBefore("(", "SELECT" + " " + (("T0." + pk) + " " + from));
    WordBefore("SELECT", ("T0." + pk) + " " + from);
    WordBefore("T0." + pk, from);
    WordBefore("FROM", table + " " + ("T0" + " " + tail));
    WordBefore(table, "T0" + " " + tail);
    WordBefore("T0", tail);
  }

  /** The statement of a dialect that joins: the table and its joins, the SET list, and the condition. */
  lemma JoinedUpdateReads(table: string, join: string, cols: seq<string>, values: seq<SetValue>, where: seq<Fragment>)
    requires |cols| == |values| && Word(table) && Joins(join)
    ensures Words(TextOf(UpdateFragments(JoinedUpdate(table, join), cols, values, where)))
      == ["UPDATE", table, "T0"] + Words(join) + ["SET"] + Words(TextOf(AssignmentFragments(cols, values)))
        + Words(TextOf(where))
  {
    var form, sets := JoinedUpdate(table, join), TextOf(AssignmentFragments(cols, values));
    TextOfUpdate(form, cols, values, where);
    var rest := sets + " " + TextOf(where);
    assert form.head + sets + form.middle + TextOf(where) + form.tail == form.head + rest;
    JoinedHead(table, join, rest);
    WordsSpace(sets, TextOf(where));
  }

  /** The statement of one that does not: the SET list, for the rows whose primary key is among those that the joins
      and the condition select. */
  lemma SelectingUpdateReads(table: string, pk: string, join: string, cols: seq<string>, values: seq<SetValue>,
                             where: seq<Fragment>)
    requires |cols| == |values| && Word(table) && Word(pk) && Joins(join)
    ensures Words(TextOf(UpdateFragments(SelectingUpdate(table, pk, join), cols, values, where)))
      == ["UPDATE", table, "SET"] + Words(TextOf(AssignmentFragments(cols, values))) + Selection(table, pk)
        + Words(join) + Words(TextOf(where)) + [")"]
  {
    TextOfUpdate(SelectingUpdate(table, pk, join), cols, values, where);
    SelectingParts(table, pk, join, TextOf(AssignmentFragments(cols, values)), TextOf(where));
  }

  // The same for any texts in place of the SET list and the condition.
  lemma SelectingParts(table: string, pk: string, join: string, sets: string, where: string)
    requires Word(table) && Word(pk) && Joins(join)
    ensures var form := SelectingUpdate(table, pk, join);
      Words(form.head + sets + form.middle + where + form.tail)
        == ["UPDATE", table, "SET"] + Words(sets) + Selection(table, pk) + Words(join) + Words(where) + [")"]
  {
    var form := SelectingUpdate(table, pk, join);
    var rest := where + " " + ")";
    assert form.head + sets + form.middle + where + form.tail == form.head + (sets + (form.middle + rest));
    SelectingHead(table, pk, join, sets + (form.middle + rest));
    MiddleStartsBlank(table, pk, join, sets, rest);
    SelectingMiddle(table, pk, join, rest);
    WordsSpace(where, ")");
    OneWord(")");
    Regrouped(["UPDATE", table, "SET"], Words(sets), Selection(table, pk), Words(join), Words(where), [")"]);
  }

  lemma Regrouped(a: seq<string>, b: seq<string>, c: seq<string>, d: seq<string>, e: seq<string>, f: seq<string>)
    ensures a + (b + (c + d + (e + f))) == a + b + c + d + e + f
  {
  }

  lemma MiddleStartsBlank(table: string, pk: string, join: string, sets: string, rest: string)
    ensures var m := SelectingUpdate(table, pk, join).middle; Words(sets + (m + rest)) == Words(sets) + Words(m + rest)
  {
    var m := SelectingUpdate(table, pk, join).middle;
    var tail := m[1..] + rest;
    assert m[0] == ' ' && m + rest == "" + " " + tail && sets + (m + rest) == sets + " " + tail;
    WordsSpace(sets, tail);
    WordsSpace("", tail);
    NoWord();
  }
}
