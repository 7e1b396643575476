/** Marks and arguments: GenerateOperatorSQL, the argument order of WHERE and UPDATE texts, and the
    numbered placeholders of PostgreSQL. */
module SqlMarks {
  import opened Wrappers
  import opened Text
  import opened Conditions
  import opened SqlLike

  datatype Arg = Null | Bool(b: bool) | Number(n: int) | Str(s: string)

  // An argument as text.
  function ToStr(a: Arg): string {
    match a
    case Null => "<nil>"
    case Bool(b) => if b then "true" else "false"
    case Number(n) => if n < 0 then "-" + Itoa(-n) else Itoa(n)
    case Str(s) => s
  }

  /** The text of a number reads as the number, and the text of a truth value is its name. */
  lemma ToStrReads(n: int)
    ensures -MAX_INT64 - 1 <= n <= MAX_INT64 ==> Atoi(ToStr(Number(n))) == Some(n)
    ensures ToStr(Bool(true)) == "true" && ToStr(Bool(false)) == "false" && ToStr(Null) == "<nil>"
  {
    var m := if n < 0 then -n else n;
    ItoaValue(m);
    var s := ToStr(Number(n));
    if n < 0 {
      assert s[0] == '-' && s[1..] == Itoa(m);
    } else {
      assert s[0] in s && IsDigit(s[0]);
    }
  }

  // A piece of SQL text with the arguments for its marks.
  datatype Fragment = Fragment(text: string, args: seq<Arg>) {
    // As many marks as arguments.
    predicate Balanced() { Marks(text) == |args| }
  }

  function Marks(s: string): nat {
    if s == [] then 0 else (if s[0] == '?' then 1 else 0) + Marks(s[1..])
  }

  lemma {:induction false} MarksConcat(a: string, b: string)
    ensures Marks(a + b) == Marks(a) + Marks(b)
  {
    if a == [] {
      assert a + b == b;
    } else {
      MarksConcat(a[1..], b);
      assert (a + b)[1..] == a[1..] + b;
    }
  }

  // ---- GenerateOperatorSQL ----

  datatype Operator =
    | Exact | IExact | Contains | IContains | Gt | Gte | Lt | Lte | Eq | Nq | Ne
    | StartsWith | EndsWith | IStartsWith | IEndsWith | In | Between | IsNull
  {
    predicate IsLike() {
      IExact? || Contains? || IContains? || StartsWith? || EndsWith? || IStartsWith? || IEndsWith?
    }
  }

  // Where the operator looks for its argument.
  function PlaceOf(op: Operator): Place {
    match op
    case Contains => Anywhere
    case IContains => Anywhere
    case StartsWith => AtStart
    case IStartsWith => AtStart
    case EndsWith => AtEnd
    case IEndsWith => AtEnd
    case _ => Alone
  }

  // "?, ?, ..., ?" with n marks.
  function MarkList(n: nat): string {
    if n == 0 then "" else if n == 1 then "?" else MarkList(n - 1) + ", ?"
  }

  // None stands for a panic. A missing dialect entry yields the empty text.
  function GenerateOperatorSQL(dialect: map<Operator, string>, op: Operator, params: seq<Arg>): Option<Fragment> {
    if params == [] then None
    else if op.In? then Some(Fragment("IN (" + MarkList(|params|) + ")", params))
    else if op.Between? then
      if |params| != 2 then None else Some(Fragment("BETWEEN ? AND ?", params))
    else if |params| > 1 then None
    else
      var sql := if op in dialect then dialect[op] else "";
      if op.Exact? && params[0] == Null then Some(Fragment(sql, [Str("IS NULL")]))
      else if op.IsLike() then Some(Fragment(sql, [Str(Pattern(PlaceOf(op), ToStr(params[0])))]))
      else if op.IsNull? then
        match params[0]
        case Bool(b) => Some(Fragment(if b then "IS NULL" else "IS NOT NULL", []))
        case _ => None
      else Some(Fragment(sql, params))
  }

  lemma {:induction false} MarkListMarks(n: nat)
    ensures Marks(MarkList(n)) == n
  {
    if n > 1 {
      MarkListMarks(n - 1);
      MarksConcat(MarkList(n - 1), ", ?");
      assert Marks(", ?") == 1;
    }
  }

  lemma InMarks(n: nat)
    ensures Marks("IN (" + MarkList(n) + ")") == n
  {
    MarkListMarks(n);
    MarksConcat("IN (" + MarkList(n), ")");
    MarksConcat("IN (", MarkList(n));
    assert Marks("IN (") == 0 && Marks(")") == 0;
  }

  lemma BetweenMarks()
    ensures Marks("BETWEEN ? AND ?") == 2
  {
    assert "BETWEEN " + "? AND ?" == "BETWEEN ? AND ?";
    MarksConcat("BETWEEN ", "? AND ?");
    assert Marks("BETWEEN ") == 0;
    assert Marks("? AND ?") == 2;
  }

  lemma {:induction false} NoMarks(s: string)
    requires '?' !in s
    ensures Marks(s) == 0
  {
    if s != [] {
      NoMarks(s[1..]);
    }
  }

  lemma IsNullMarks(b: bool)
    ensures Marks(if b then "IS NULL" else "IS NOT NULL") == 0
  {
    NoMarks("IS NULL");
    NoMarks("IS NOT NULL");
  }

  /** An operator prints one mark per argument exactly when it is one of the three built-in forms or
      the dialect has a one-mark text for it; nq, which no dialect defines, is not. */
  lemma OperatorIsBalanced(dialect: map<Operator, string>, op: Operator, params: seq<Arg>)
    requires GenerateOperatorSQL(dialect, op, params).Some?
    ensures GenerateOperatorSQL(dialect, op, params).value.Balanced() <==>
      op.In? || op.Between? || op.IsNull? || (op in dialect && Marks(dialect[op]) == 1)
  {
    if op.In? {
      InMarks(|params|);
    } else if op.Between? {
      BetweenIsBalanced(dialect, params);
    } else if op.IsNull? {
      IsNullIsBalanced(dialect, params);
    } else {
      PlainOperator(dialect, op, params);
    }
  }

  // The operators of PostgreSQL; the other dialects define the same ones.
  const POSTGRES: map<Operator, string> := map[
    Exact := "= ?", IExact := "= UPPER(?)", Contains := "LIKE ?", IContains := "LIKE UPPER(?)", Gt := "> ?",
    Gte := ">= ?", Lt := "< ?", Lte := "<= ?", Eq := "= ?", Ne := "!= ?", StartsWith := "LIKE ?", EndsWith := "LIKE ?",
    IStartsWith := "LIKE UPPER(?)", IEndsWith := "LIKE UPPER(?)"]

  lemma OneMark(a: string, b: string)
    requires '?' !in a && '?' !in b
    ensures Marks(a + ("?" + b)) == 1
  {
    NoMarks(a);
    NoMarks(b);
    MarksConcat(a, "?" + b);
    MarksConcat("?", b);
  }

  lemma PostgresMarks(op: Operator)
    requires op in POSTGRES
    ensures Marks(POSTGRES[op]) == 1
  {
    var (a, b) :=
      match op
      case IExact => ("= UPPER(", ")")
      case Contains | StartsWith | EndsWith => ("LIKE ", "")
      case Gt => ("> ", "")
      case Gte => (">= ", "")
      case Lt => ("< ", "")
      case Lte => ("<= ", "")
      case Ne => ("!= ", "")
      case Exact | Eq => ("= ", "")
      case _ => ("LIKE UPPER(", ")");
    OneMark(a, b);
    assert POSTGRES[op] == a + ("?" + b);
  }

  /** Of all operators that a condition may name, nq alone prints no mark for its argument. */
  lemma OnlyNqLosesItsMark(op: Operator, params: seq<Arg>)
    requires GenerateOperatorSQL(POSTGRES, op, params).Some?
    ensures GenerateOperatorSQL(POSTGRES, op, params).value.Balanced() <==> !op.Nq?
    ensures GenerateOperatorSQL(POSTGRES, Nq, [Number(7)]) == Some(Fragment("", [Number(7)]))
  {
    OperatorIsBalanced(POSTGRES, op, params);
    if op in POSTGRES {
      PostgresMarks(op);
    }
  }

  lemma BetweenIsBalanced(dialect: map<Operator, string>, params: seq<Arg>)
    requires GenerateOperatorSQL(dialect, Between, params).Some?
    ensures GenerateOperatorSQL(dialect, Between, params).value.Balanced()
  {
    BetweenMarks();
  }

  lemma IsNullIsBalanced(dialect: map<Operator, string>, params: seq<Arg>)
    requires GenerateOperatorSQL(dialect, IsNull, params).Some?
    ensures GenerateOperatorSQL(dialect, IsNull, params).value.Balanced()
  {
    IsNullMarks(params[0].b);
  }

  lemma PlainOperator(dialect: map<Operator, string>, op: Operator, params: seq<Arg>)
    requires GenerateOperatorSQL(dialect, op, params).Some? && !op.In? && !op.Between? && !op.IsNull?
    ensures GenerateOperatorSQL(dialect, op, params).value.Balanced() <==> op in dialect && Marks(dialect[op]) == 1
  {
    assert Marks("") == 0;
    assert |GenerateOperatorSQL(dialect, op, params).value.args| == 1;
  }

  // ---- the WHERE text ----

  function TokenFragment(leaf: Pred -> Fragment, t: Token): Fragment {
    match t
    case AND => Fragment("AND ", [])
    case OR => Fragment("OR ", [])
    case NOT => Fragment("NOT ", [])
    case LPAREN => Fragment("( ", [])
    case RPAREN => Fragment(") ", [])
    case PRED(p) => Fragment(leaf(p).text + " ", leaf(p).args)
  }

  lemma TokenIsBalanced(leaf: Pred -> Fragment, t: Token)
    requires t.PRED? ==> leaf(t.pred).Balanced()
    ensures TokenFragment(leaf, t).Balanced()
  {
    if t.PRED? {
      MarksConcat(leaf(t.pred).text, " ");
    }
  }

  function WhereFragments(leaf: Pred -> Fragment, ts: seq<Token>): (r: seq<Fragment>)
    ensures |r| == |ts|
  {
    seq(|ts|, i requires 0 <= i < |ts| => TokenFragment(leaf, ts[i]))
  }

  function TextOf(fs: seq<Fragment>): string {
    if fs == [] then "" else TextOf(fs[..|fs| - 1]) + fs[|fs| - 1].text
  }

  function ArgsOf(fs: seq<Fragment>): seq<Arg> {
    if fs == [] then [] else ArgsOf(fs[..|fs| - 1]) + fs[|fs| - 1].args
  }

  /** In a text made of balanced fragments, as many marks as arguments have gone by at the end of
      each fragment: the k-th mark belongs to the k-th argument. */
  lemma {:induction false} FragmentsAreBalanced(fs: seq<Fragment>, n: nat)
    requires n <= |fs| && forall f | f in fs :: f.Balanced()
    ensures Marks(TextOf(fs[..n])) == |ArgsOf(fs[..n])|
  {
    if n > 0 {
      FragmentsAreBalanced(fs, n - 1);
      assert fs[..n][..n - 1] == fs[..n - 1] && fs[n - 1] in fs;
      MarksConcat(TextOf(fs[..n - 1]), fs[n - 1].text);
    }
  }

  /** The WHERE text of a condition whose operators the dialect defines. */
  lemma WhereIsBalanced(leaf: Pred -> Fragment, c: Condition, n: nat)
    requires n <= |Tokens(c)| && forall p | PRED(p) in Tokens(c) :: leaf(p).Balanced()
    ensures var fs := WhereFragments(leaf, Tokens(c))[..n]; Marks(TextOf(fs)) == |ArgsOf(fs)|
  {
    var ts := Tokens(c);
    forall i | 0 <= i < |ts| ensures TokenFragment(leaf, ts[i]).Balanced() {
      assert ts[i] in ts;
      TokenIsBalanced(leaf, ts[i]);
    }
    FragmentsAreBalanced(WhereFragments(leaf, ts), n);
  }

  // ---- UpdateBatch ----

  // The changes of a column by a value.
  datatype ColOpt = ColAdd | ColMinus | ColMultiply | ColExcept

  function Arithmetic(opt: ColOpt): (sign: char)
    ensures sign != '?'
  {
    match opt
    case ColAdd => '+'
    case ColMinus => '-'
    case ColMultiply => '*'
    case ColExcept => '/'
  }

  datatype SetValue = Value(arg: Arg) | Change(opt: ColOpt, arg: Arg)

  function Assignment(col: string, v: SetValue): Fragment {
    match v
    case Value(a) => Fragment(col + " = ?", [a])
    case Change(opt, a) => Fragment(col + " = " + col + " " + [Arithmetic(opt)] + " ?", [a])
  }

  // The two forms of the statement around the assignments and the WHERE text.
  datatype UpdateForm = UpdateForm(head: string, middle: string, tail: string) {
    predicate Unmarked() { Marks(head) == 0 && Marks(middle) == 0 && Marks(tail) == 0 }
  }

  function JoinedUpdate(table: string, join: string): UpdateForm {
    UpdateForm("UPDATE " + table + " T0 " + join + "SET ", " ", "")
  }

  function SelectingUpdate(table: string, pk: string, join: string): UpdateForm {
    UpdateForm("UPDATE " + table + " SET ",
               " WHERE " + pk + " IN ( SELECT T0." + pk + " FROM " + table + " T0 " + join, " )")
  }

  function AssignmentFragments(cols: seq<string>, values: seq<SetValue>): (r: seq<Fragment>)
    requires |cols| == |values|
  {
    if cols == [] then []
    else
      var n := |cols| - 1;
      AssignmentFragments(cols[..n], values[..n]) +
      (if n > 0 then [Fragment(", ", [])] else []) + [Assignment(cols[n], values[n])]
  }

  function UpdateFragments(form: UpdateForm, cols: seq<string>, values: seq<SetValue>,
                           where: seq<Fragment>): seq<Fragment>
    requires |cols| == |values|
  {
    [Fragment(form.head, [])] + AssignmentFragments(cols, values) + [Fragment(form.middle, [])] + where
      + [Fragment(form.tail, [])]
  }

  lemma {:induction false} TextOfConcat(a: seq<Fragment>, b: seq<Fragment>)
    ensures TextOf(a + b) == TextOf(a) + TextOf(b)
  {
    if b == [] {
      assert a + b == a;
    } else {
      var n := |b| - 1;
      assert (a + b)[..|a + b| - 1] == a + b[..n];
      TextOfConcat(a, b[..n]);
    }
  }

  lemma {:induction false} ArgsOfConcat(a: seq<Fragment>, b: seq<Fragment>)
    ensures ArgsOf(a + b) == ArgsOf(a) + ArgsOf(b)
  {
    if b == [] {
      assert a + b == a;
    } else {
      var n := |b| - 1;
      assert (a + b)[..|a + b| - 1] == a + b[..n];
      ArgsOfConcat(a, b[..n]);
    }
  }

  lemma TextOfOne(f: Fragment)
    ensures TextOf([f]) == f.text && ArgsOf([f]) == f.args
  {
    assert [f][..0] == [];
  }

  lemma TextOfSnoc(fs: seq<Fragment>, f: Fragment)
    ensures TextOf(fs + [f]) == TextOf(fs) + f.text && ArgsOf(fs + [f]) == ArgsOf(fs) + f.args
  {
    TextOfConcat(fs, [f]);
    ArgsOfConcat(fs, [f]);
    TextOfOne(f);
  }

  lemma AssignmentStep(cols: seq<string>, values: seq<SetValue>, i: nat)
    requires |cols| == |values| && i < |cols|
    ensures var done, next := AssignmentFragments(cols[..i], values[..i]),
      AssignmentFragments(cols[..i + 1], values[..i + 1]);
      && TextOf(next) == TextOf(done) + (if i > 0 then ", " else "") + Assignment(cols[i], values[i]).text
      && ArgsOf(next) == ArgsOf(done) + [values[i].arg]
  {
    assert cols[..i + 1][..i] == cols[..i] && values[..i + 1][..i] == values[..i];
    var done, a := AssignmentFragments(cols[..i], values[..i]), Assignment(cols[i], values[i]);
    if i > 0 {
      TextOfSnoc(done, Fragment(", ", []));
      TextOfSnoc(done + [Fragment(", ", [])], a);
    } else {
      TextOfSnoc(done, a);
    }
  }

  /** The loop of UpdateBatch over the columns, which also unwraps the values in place. */
  method CollectAssignments(cols: seq<string>, values: seq<SetValue>) returns (sets: string, args: seq<Arg>)
    requires |cols| == |values|
    ensures sets == TextOf(AssignmentFragments(cols, values))
    ensures args == ArgsOf(AssignmentFragments(cols, values))
  {
    sets, args := "", [];
    for i := 0 to |cols|
      invariant sets == TextOf(AssignmentFragments(cols[..i], values[..i]))
      invariant args == ArgsOf(AssignmentFragments(cols[..i], values[..i]))
    {
      AssignmentStep(cols, values, i);
      if i > 0 {
        sets := sets + ", ";
      }
      match values[i] {
        case Value(a) => sets := sets + (cols[i] + " = ?");
        case Change(opt, a) => sets := sets + (cols[i] + " = " + cols[i] + " " + [Arithmetic(opt)] + " ?");
      }
      args := args + [values[i].arg];
    }
    assert cols[..|cols|] == cols && values[..|values|] == values;
  }

  /** UpdateBatch: the statement and its arguments are those of the fragments. */
  method UpdateBatch(form: UpdateForm, cols: seq<string>, values: seq<SetValue>, where: seq<Fragment>)
    returns (query: string, args: seq<Arg>)
    requires |cols| == |values|
    ensures query == TextOf(UpdateFragments(form, cols, values, where))
    ensures args == ArgsOf(UpdateFragments(form, cols, values, where))
  {
    var sets, vals := CollectAssignments(cols, values);
    query := form.head + sets + form.middle + TextOf(where) + form.tail;
    args := vals + ArgsOf(where);
    ghost var fs := [Fragment(form.head, [])] + AssignmentFragments(cols, values);
    TextOfOne(Fragment(form.head, []));
    TextOfConcat([Fragment(form.head, [])], AssignmentFragments(cols, values));
    ArgsOfConcat([Fragment(form.head, [])], AssignmentFragments(cols, values));
    TextOfSnoc(fs, Fragment(form.middle, []));
    TextOfConcat(fs + [Fragment(form.middle, [])], where);
    ArgsOfConcat(fs + [Fragment(form.middle, [])], where);
    TextOfSnoc(fs + [Fragment(form.middle, [])] + where, Fragment(form.tail, []));
  }

  lemma AssignmentIsBalanced(col: string, v: SetValue)
    requires Marks(col) == 0
    ensures Assignment(col, v).Balanced()
  {
    match v
    case Value(a) =>
      MarksConcat(col, " = ?");
    case Change(opt, a) =>
      var sign := [Arithmetic(opt)];
      MarksConcat(col + " = " + col + " " + sign, " ?");
      MarksConcat(col + " = " + col + " ", sign);
      MarksConcat(col + " = " + col, " ");
      MarksConcat(col + " = ", col);
      MarksConcat(col, " = ");
  }

  lemma {:induction false} AssignmentsAreBalanced(cols: seq<string>, values: seq<SetValue>)
    requires |cols| == |values| && forall i | 0 <= i < |cols| :: Assignment(cols[i], values[i]).Balanced()
    ensures forall f | f in AssignmentFragments(cols, values) :: f.Balanced()
  {
    if cols != [] {
      var n := |cols| - 1;
      AssignmentsAreBalanced(cols[..n], values[..n]);
    }
  }

  /** An UPDATE with unmarked identifiers has its marks in the order of its arguments, whichever
      form the driver asks for. */
  lemma UpdateIsBalanced(form: UpdateForm, cols: seq<string>, values: seq<SetValue>, where: seq<Fragment>, n: nat)
    requires |cols| == |values| && form.Unmarked()
    requires forall i | 0 <= i < |cols| :: Marks(cols[i]) == 0
    requires forall f | f in where :: f.Balanced()
    requires n <= |UpdateFragments(form, cols, values, where)|
    ensures var fs := UpdateFragments(form, cols, values, where)[..n]; Marks(TextOf(fs)) == |ArgsOf(fs)|
  {
    forall i | 0 <= i < |cols| ensures Assignment(cols[i], values[i]).Balanced() {
      AssignmentIsBalanced(cols[i], values[i]);
    }
    AssignmentsAreBalanced(cols, values);
    FragmentsAreBalanced(UpdateFragments(form, cols, values, where), n);
  }

  // ---- ReplaceMarks ----

  // The text with its marks numbered from n on.
  function Numbered(q: string, n: nat): string {
    if q == [] then []
    else if q[0] == '?' then ['$'] + Itoa(n) + Numbered(q[1..], n + 1)
    else [q[0]] + Numbered(q[1..], n)
  }

  lemma {:induction false} NumberedSnoc(q: string, c: char, n: nat)
    ensures Numbered(q + [c], n) == Numbered(q, n) + if c == '?' then ['$'] + Itoa(n + Marks(q)) else [c]
  {
    if q == [] {
      assert (q + [c])[1..] == [];
    } else {
      assert (q + [c])[1..] == q[1..] + [c];
      NumberedSnoc(q[1..], c, if q[0] == '?' then n + 1 else n);
    }
  }

  lemma {:induction false} UnmarkedStays(q: string, n: nat)
    requires Marks(q) == 0
    ensures Numbered(q, n) == q
  {
    if q != [] {
      UnmarkedStays(q[1..], n);
    }
  }

  /** ReplaceMarks of the PostgreSQL driver. */
  method ReplaceMarks(q: string) returns (r: string)
    ensures r == Numbered(q, 1)
  {
    var num := 0;
    for i := 0 to |q|
      invariant num == Marks(q[..i])
    {
      assert q[..i + 1] == q[..i] + [q[i]];
      MarksConcat(q[..i], [q[i]]);
      if q[i] == '?' {
        num := num + 1;
      }
    }
    assert q[..|q|] == q;
    if num == 0 {
      UnmarkedStays(q, 1);
      return q;
    }
    r := [];
    num := 1;
    for i := 0 to |q|
      invariant r == Numbered(q[..i], 1) && num == 1 + Marks(q[..i])
    {
      assert q[..i + 1] == q[..i] + [q[i]];
      NumberedSnoc(q[..i], q[i], 1);
      MarksConcat(q[..i], [q[i]]);
      if q[i] == '?' {
        r := r + ['$'];
        r := r + Itoa(num);
        num := num + 1;
      } else {
        r := r + [q[i]];
      }
    }
    assert q[..|q|] == q;
  }

  // The pieces of a text put together with $n, $n+1, ... between them.
  function Interleave(pieces: seq<string>, n: nat): string
    requires pieces != []
  {
    if |pieces| == 1 then pieces[0] else pieces[0] + ['$'] + Itoa(n) + Interleave(pieces[1..], n + 1)
  }

  /** The placeholders read $1, $2, ... from left to right, one for each mark, and the text between
      the marks is unchanged. */
  lemma {:induction false} NumberedPieces(q: string, n: nat)
    ensures Numbered(q, n) == Interleave(Split(q, '?'), n)
    ensures |Split(q, '?')| == Marks(q) + 1
  {
    if q != [] {
      var rest := Split(q[1..], '?');
      if q[0] == '?' {
        NumberedPieces(q[1..], n + 1);
        assert ([[]] + rest)[1..] == rest;
      } else {
        NumberedPieces(q[1..], n);
        var all := [[q[0]] + rest[0]] + rest[1..];
        assert all[1..] == rest[1..];
      }
    }
  }

  // ---- a whole UPDATE ----

  // A condition item: a column, an operator and its arguments.
  datatype ColumnTest = ColumnTest(col: string, op: Operator, params: seq<Arg>)

  function TestFragment(dialect: map<Operator, string>, t: ColumnTest): Fragment {
    match GenerateOperatorSQL(dialect, t.op, t.params)
    case None => Fragment(t.col, [])
    case Some(f) => Fragment(t.col + " " + f.text, f.args)
  }

  function TestFragments(dialect: map<Operator, string>, tests: Pred -> ColumnTest): Pred -> Fragment {
    (p: Pred) => TestFragment(dialect, tests(p))
  }

  // The operator accepts its arguments and the dialect defines it.
  predicate Usable(dialect: map<Operator, string>, t: ColumnTest) {
    && Marks(t.col) == 0 && GenerateOperatorSQL(dialect, t.op, t.params).Some?
    && (t.op.In? || t.op.Between? || t.op.IsNull? || (t.op in dialect && Marks(dialect[t.op]) == 1))
  }

  lemma TestIsBalanced(dialect: map<Operator, string>, t: ColumnTest)
    requires Usable(dialect, t)
    ensures TestFragment(dialect, t).Balanced()
  {
    var f := GenerateOperatorSQL(dialect, t.op, t.params).value;
    OperatorIsBalanced(dialect, t.op, t.params);
    MarksConcat(t.col + " ", f.text);
    MarksConcat(t.col, " ");
  }

  function WhereClause(leaf: Pred -> Fragment, c: Condition): seq<Fragment> {
    if Tokens(c) == [] then [] else [Fragment("WHERE ", [])] + WhereFragments(leaf, Tokens(c))
  }

  lemma ClauseIsBalanced(leaf: Pred -> Fragment, c: Condition)
    requires forall p | PRED(p) in Tokens(c) :: leaf(p).Balanced()
    ensures forall f | f in WhereClause(leaf, c) :: f.Balanced()
  {
    var ts := Tokens(c);
    NoMarks("WHERE ");
    forall i | 0 <= i < |ts| ensures WhereFragments(leaf, ts)[i].Balanced() {
      assert ts[i] in ts;
      TokenIsBalanced(leaf, ts[i]);
    }
  }

  /** The statement that UpdateBatch sends to PostgreSQL for a condition over operators of the dialect:
      its placeholders are $1 to $n from left to right, n is the number of arguments, the text around
      them is the one before numbering, and each fragment's marks stand for its own arguments. */
  lemma UpdateIsNumbered(dialect: map<Operator, string>, tests: Pred -> ColumnTest, c: Condition, joins: bool,
                         table: string, pk: string, join: string, cols: seq<string>, values: seq<SetValue>)
    requires forall p | PRED(p) in Tokens(c) :: Usable(dialect, tests(p))
    requires |cols| == |values| && '?' !in table && '?' !in pk && '?' !in join
    requires forall i | 0 <= i < |cols| :: Marks(cols[i]) == 0
    ensures var form := if joins then JoinedUpdate(table, join) else SelectingUpdate(table, pk, join);
      var fs := UpdateFragments(form, cols, values, WhereClause(TestFragments(dialect, tests), c));
      && Numbered(TextOf(fs), 1) == Interleave(Split(TextOf(fs), '?'), 1)
      && |Split(TextOf(fs), '?')| == |ArgsOf(fs)| + 1
      && forall n: nat | n <= |fs| :: Marks(TextOf(fs[..n])) == |ArgsOf(fs[..n])|
  {
    var form := if joins then JoinedUpdate(table, join) else SelectingUpdate(table, pk, join);
    JoinedFormIsUnmarked(table, join);
    SelectingFormIsUnmarked(table, pk, join);
    var leaf := TestFragments(dialect, tests);
    forall p: Pred | PRED(p) in Tokens(c) ensures leaf(p).Balanced() {
      TestIsBalanced(dialect, tests(p));
    }
    ClauseIsBalanced(leaf, c);
    var fs := UpdateFragments(form, cols, values, WhereClause(leaf, c));
    forall n: nat | n <= |fs| ensures Marks(TextOf(fs[..n])) == |ArgsOf(fs[..n])| {
      UpdateIsBalanced(form, cols, values, WhereClause(leaf, c), n);
    }
    assert fs[..|fs|] == fs;
    NumberedPieces(TextOf(fs), 1);
  }

  // Both forms of the statement are free of marks when the names and the joins are.
  lemma JoinedFormIsUnmarked(table: string, join: string)
    requires '?' !in table && '?' !in join
    ensures JoinedUpdate(table, join).Unmarked()
  {
    NoMarks(JoinedUpdate(table, join).head);
    NoMarks(" ");
  }

  lemma SelectingFormIsUnmarked(table: string, pk: string, join: string)
    requires '?' !in table && '?' !in pk && '?' !in join
    ensures SelectingUpdate(table, pk, join).Unmarked()
  {
    NoMarks(SelectingUpdate(table, pk, join).head);
    NoMarks(SelectingUpdate(table, pk, join).middle);
    NoMarks(" )");
  }
}
