/** Reading a WHERE text back: its words, with the arguments bound to the marks in order, evaluated on a row. The value
    is that of the condition tree. */
module SqlReading {
  import opened Wrappers
  import opened Text
  import opened Conditions
  import opened SqlGrammar
  import opened ConditionMeaning
  import opened SqlLike
  import opened SqlMarks

  // ---- the words of a text ----

  function Words(s: string): seq<string> {
    NonEmpty(Split(s, ' '))
  }

  lemma {:induction false} NonEmptyConcat(a: seq<string>, b: seq<string>)
    ensures NonEmpty(a + b) == NonEmpty(a) + NonEmpty(b)
  {
    if a == [] {
      assert a + b == b;
    } else {
      assert (a + b)[1..] == a[1..] + b;
      NonEmptyConcat(a[1..], b);
    }
  }

  lemma {:induction false} SplitSpace(a: string, b: string)
    ensures Split(a + " " + b, ' ') == Split(a, ' ') + Split(b, ' ')
  {
    var s := a + " " + b;
    if a == [] {
      assert s[1..] == b;
    } else {
      assert s[1..] == a[1..] + " " + b;
      SplitSpace(a[1..], b);
    }
  }

  // A blank separates words.
  lemma WordsSpace(a: string, b: string)
    ensures Words(a + " " + b) == Words(a) + Words(b)
  {
    SplitSpace(a, b);
    NonEmptyConcat(Split(a, ' '), Split(b, ' '));
  }

  lemma OneWord(w: string)
    requires w != [] && ' ' !in w
    ensures Words(w) == [w]
  {
    SplitWord(w, ' ');
    NonEmptyKeepsAll([w]);
  }

  lemma NoWord()
    ensures Words("") == []
  {
    var blank: seq<string> := [[]];
    assert Split("", ' ') == blank && blank[1..] == [];
  }

  lemma TwoWords(v: string, w: string)
    requires v != [] && ' ' !in v && w != [] && ' ' !in w
    ensures Words(v + " " + w) == [v, w]
  {
    WordsSpace(v, w);
    OneWord(v);
    OneWord(w);
  }

  lemma ThreeWords(a: string, b: string, c: string)
    requires a != [] && ' ' !in a && b != [] && ' ' !in b && c != [] && ' ' !in c
    ensures Words(a + " " + b + " " + c) == [a, b, c]
  {
    TwoWords(a, b);
    OneWord(c);
    WordsSpace(a + " " + b, c);
  }

  lemma FourWords(a: string, b: string, c: string, d: string)
    requires a != [] && ' ' !in a && b != [] && ' ' !in b && c != [] && ' ' !in c && d != [] && ' ' !in d
    ensures Words(a + " " + b + " " + c + " " + d) == [a, b, c, d]
  {
    ThreeWords(a, b, c);
    OneWord(d);
    WordsSpace(a + " " + b + " " + c, d);
  }

  // ---- tests on a row ----

  type Row = string -> Arg

  // What the database brings along: an order of values, and capital letters.
  datatype Sql = Sql(less: (Arg, Arg) -> bool, up: char -> char) {
    // Capital letters have nothing to do with the characters of patterns.
    ghost predicate Valid() {
      forall c ::
        && (c in {'%', '_', '\\'} ==> up(c) == c) && (up(c) in {'%', '_', '\\'} ==> up(c) == c)
        && up(up(c)) == up(c)
    }

    function Upper(s: string): string {
      if s == [] then [] else [up(s[0])] + Upper(s[1..])
    }
  }

  const ANY := Sql((a, b) => false, c => c)

  function Cast(v: Arg): Arg {
    if v == Null then Null else Str(ToStr(v))
  }

  function Uppered(q: Sql, v: Arg): Arg {
    if v.Str? then Str(q.Upper(v.s)) else v
  }

  predicate EndsIn(w: string, end: string) {
    |end| <= |w| && w[|w| - |end|..] == end
  }

  const CAST := "::text"
  const UPPER := "UPPER("
  const CLOSE := "::text)"

  // The value of a column, which may be cast to text and written in capitals.
  function Cell(q: Sql, row: Row, w: string): Arg {
    if EndsIn(w, CLOSE) && |w| >= |UPPER| + |CLOSE| && w[..|UPPER|] == UPPER then
      Uppered(q, Cast(row(w[|UPPER|..|w| - |CLOSE|])))
    else if EndsIn(w, CAST) then Cast(row(w[..|w| - |CAST|]))
    else row(w)
  }

  // The value for a mark.
  function Bound(q: Sql, mark: string, a: Arg): Option<Arg> {
    if mark == "?" then Some(a) else if mark == "UPPER(?)" then Some(Uppered(q, a)) else None
  }

  // A comparison with a null is neither true nor false.
  function Known(a: Arg, b: Arg, holds: bool): Truth {
    if a == Null || b == Null then Unknown else if holds then True else False
  }

  function Compare(q: Sql, sign: string, v: Arg, a: Arg): Option<Truth> {
    if sign == "=" then Some(Known(v, a, v == a))
    else if sign == "!=" then Some(Known(v, a, v != a))
    else if sign == ">" then Some(Known(v, a, q.less(a, v)))
    else if sign == ">=" then Some(Known(v, a, q.less(a, v) || v == a))
    else if sign == "<" then Some(Known(v, a, q.less(v, a)))
    else if sign == "<=" then Some(Known(v, a, q.less(v, a) || v == a))
    else if sign == "LIKE" then Some(Known(v, a, v.Str? && a.Str? && Like(a.s, v.s)))
    else None
  }

  // The OR of the comparisons with each of a list.
  function Among(v: Arg, list: seq<Arg>): Truth {
    if list == [] then False else OrT(Known(v, list[0], v == list[0]), Among(v, list[1..]))
  }

  function Within(q: Sql, v: Arg, low: Arg, high: Arg): Truth {
    AndT(Known(v, low, q.less(low, v) || v == low), Known(v, high, q.less(v, high) || v == high))
  }

  function Missing(v: Arg): Truth {
    if v == Null then True else False
  }

  // ---- evaluating words ----

  // The value of what was read, and the words and arguments behind it.
  datatype Reading = Stuck | Read(value: Truth, words: seq<string>, args: seq<Arg>)

  // The marks of a list in parentheses, and the words behind it.
  function ReadMarks(ws: seq<string>): Option<(nat, seq<string>)> {
    if ws == [] || ws[0] == [] then None
    else if ws[0][|ws[0]| - 1] == ')' then Some((Marks(ws[0]), ws[1..]))
    else
      match ReadMarks(ws[1..])
      case None => None
      case Some((n, rest)) => Some((Marks(ws[0]) + n, rest))
  }

  lemma {:induction false} ReadMarksShorter(ws: seq<string>)
    ensures ReadMarks(ws).Some? ==> |ReadMarks(ws).value.1| < |ws|
  {
    if ws != [] {
      ReadMarksShorter(ws[1..]);
    }
  }

  // test := column (sign mark | IN (?, ..., ?) | BETWEEN ? AND ? | IS NULL | IS NOT NULL)
  function EvalTest(q: Sql, row: Row, ws: seq<string>, args: seq<Arg>): (r: Reading)
    ensures r.Read? ==> |r.words| < |ws|
  {
    if |ws| < 3 then Stuck
    else
      var v := Cell(q, row, ws[0]);
      if ws[1] == "IN" then
        ReadMarksShorter(ws[2..]);
        match ReadMarks(ws[2..])
        case None => Stuck
        case Some((n, rest)) => if n <= |args| then Read(Among(v, args[..n]), rest, args[n..]) else Stuck
      else if ws[1] == "BETWEEN" then
        if |ws| >= 5 && ws[2] == "?" && ws[3] == "AND" && ws[4] == "?" && |args| >= 2
        then Read(Within(q, v, args[0], args[1]), ws[5..], args[2..]) else Stuck
      else if ws[1] == "IS" then
        if ws[2] == "NULL" then Read(Missing(v), ws[3..], args)
        else if |ws| >= 4 && ws[2] == "NOT" && ws[3] == "NULL" then Read(NotT(Missing(v)), ws[4..], args)
        else Stuck
      else if args == [] || Bound(q, ws[2], args[0]).None? then Stuck
      else
        match Compare(q, ws[1], v, Bound(q, ws[2], args[0]).value)
        case None => Stuck
        case Some(t) => Read(t, ws[3..], args[1..])
  }

  function EvalOr(q: Sql, row: Row, ws: seq<string>, args: seq<Arg>): (r: Reading)
    ensures r.Read? ==> |r.words| < |ws|
    decreases |ws|, 3
  {
    match EvalAnd(q, row, ws, args)
    case Stuck => Stuck
    case Read(t, rest, more) =>
      if rest != [] && rest[0] == "OR" then
        match EvalOr(q, row, rest[1..], more)
        case Stuck => Stuck
        case Read(u, rest', more') => Read(OrT(t, u), rest', more')
      else Read(t, rest, more)
  }

  function EvalAnd(q: Sql, row: Row, ws: seq<string>, args: seq<Arg>): (r: Reading)
    ensures r.Read? ==> |r.words| < |ws|
    decreases |ws|, 2
  {
    match EvalNot(q, row, ws, args)
    case Stuck => Stuck
    case Read(t, rest, more) =>
      if rest != [] && rest[0] == "AND" then
        match EvalAnd(q, row, rest[1..], more)
        case Stuck => Stuck
        case Read(u, rest', more') => Read(AndT(t, u), rest', more')
      else Read(t, rest, more)
  }

  function EvalNot(q: Sql, row: Row, ws: seq<string>, args: seq<Arg>): (r: Reading)
    ensures r.Read? ==> |r.words| < |ws|
    decreases |ws|, 1
  {
    if ws == [] then Stuck
    else if ws[0] == "NOT" then
      match EvalNot(q, row, ws[1..], args)
      case Stuck => Stuck
      case Read(t, rest, more) => Read(NotT(t), rest, more)
    else if ws[0] == "(" then
      match EvalOr(q, row, ws[1..], args)
      case Stuck => Stuck
      case Read(t, rest, more) => if rest != [] && rest[0] == ")" then Read(t, rest[1..], more) else Stuck
    else EvalTest(q, row, ws, args)
  }

  // ---- what an operator means ----

  // All operators but nq, which has no text.
  predicate Readable(op: Operator) {
    !op.Nq?
  }

  // Arguments that the operator takes.
  predicate Takes(op: Operator, params: seq<Arg>) {
    match op
    case In => params != []
    case Between => |params| == 2
    case IsNull => |params| == 1 && params[0].Bool?
    case _ => |params| == 1
  }

  ghost function Finds(v: Arg, found: bool): Truth {
    if v == Null then Unknown else if found then True else False
  }

  /** What a condition on a column with the value v asks, by the name of the operator. */
  ghost function OpValue(q: Sql, op: Operator, params: seq<Arg>, v: Arg): Truth
    requires Readable(op) && Takes(op, params)
    decreases if op.Between? then 1 else 0
  {
    match op
    case In => if v == Null then Unknown else if v in params then True else if Null in params then Unknown else False
    case Between => AndT(OpValue(q, Gte, [params[0]], v), OpValue(q, Lte, [params[1]], v))
    case IsNull => if (v == Null) == params[0].b then True else False
    case Exact => if params[0] == Null then Missing(v) else Known(v, params[0], v == params[0])
    case Eq => Known(v, params[0], v == params[0])
    case Ne => Known(v, params[0], v != params[0])
    case Gt => Known(v, params[0], q.less(params[0], v))
    case Gte => Known(v, params[0], q.less(params[0], v) || v == params[0])
    case Lt => Known(v, params[0], q.less(v, params[0]))
    case Lte => Known(v, params[0], q.less(v, params[0]) || v == params[0])
    case Contains => Finds(v, StandsAt(Anywhere, ToStr(params[0]), ToStr(v)))
    case StartsWith => Finds(v, StandsAt(AtStart, ToStr(params[0]), ToStr(v)))
    case EndsWith => Finds(v, StandsAt(AtEnd, ToStr(params[0]), ToStr(v)))
    case IContains => Finds(v, StandsAt(Anywhere, q.Upper(ToStr(params[0])), q.Upper(ToStr(v))))
    case IStartsWith => Finds(v, StandsAt(AtStart, q.Upper(ToStr(params[0])), q.Upper(ToStr(v))))
    case IEndsWith => Finds(v, StandsAt(AtEnd, q.Upper(ToStr(params[0])), q.Upper(ToStr(v))))
    case IExact => Finds(v, q.Upper(ToStr(v)) == q.Upper(ToStr(params[0])))
  }

  // ---- what is printed for it ----

  predicate IsSign(op: Operator) {
    Readable(op) && !op.In? && !op.Between? && !op.IsNull?
  }

  // The operators that do not tell capital letters from small ones.
  predicate IsUpper(op: Operator) {
    op.IExact? || op.IContains? || op.IStartsWith? || op.IEndsWith?
  }

  function Sign(op: Operator): string {
    match op
    case Ne => "!="
    case Gt => ">"
    case Gte => ">="
    case Lt => "<"
    case Lte => "<="
    case Exact => "="
    case Eq => "="
    case IExact => "="
    case _ => "LIKE"
  }

  function Mark(op: Operator): string {
    if IsUpper(op) then "UPPER(?)" else "?"
  }

  function Printed(op: Operator, a: Arg): Arg {
    if op.Exact? && a == Null then Str("IS NULL") else if op.IsLike() then Str(Pattern(PlaceOf(op), ToStr(a))) else a
  }

  lemma SignFragment(op: Operator, a: Arg)
    requires IsSign(op)
    ensures GenerateOperatorSQL(POSTGRES, op, [a]) == Some(Fragment(Sign(op) + " " + Mark(op), [Printed(op, a)]))
  {
    if op.IsLike() {
      LikeText(op);
    } else {
      CompareText(op);
    }
  }

  lemma LikeText(op: Operator)
    requires op.IsLike()
    ensures op in POSTGRES && POSTGRES[op] == Sign(op) + " " + Mark(op)
  {
  }

  lemma CompareText(op: Operator)
    requires IsSign(op) && !op.IsLike()
    ensures op in POSTGRES && POSTGRES[op] == Sign(op) + " " + Mark(op)
  {
  }

  lemma SignIsWord(op: Operator)
    ensures Sign(op) != [] && ' ' !in Sign(op) && Sign(op) !in {"IN", "BETWEEN", "IS"}
    ensures Mark(op) != [] && ' ' !in Mark(op)
  {
  }

  lemma BetweenWords(s: string)
    requires s == "BETWEEN ? AND ?"
    ensures Words(s) == ["BETWEEN", "?", "AND", "?"]
  {
    FourWords("BETWEEN", "?", "AND", "?");
    assert s == "BETWEEN" + " " + "?" + " " + "AND" + " " + "?";
  }

  lemma NullWords(s: string)
    requires s == "IS NULL"
    ensures Words(s) == ["IS", "NULL"]
  {
    TwoWords("IS", "NULL");
    assert s == "IS" + " " + "NULL";
  }

  lemma NotNullWords(s: string)
    requires s == "IS NOT NULL"
    ensures Words(s) == ["IS", "NOT", "NULL"]
  {
    ThreeWords("IS", "NOT", "NULL");
    assert s == "IS" + " " + "NOT" + " " + "NULL";
  }

  // ---- a list of marks ----

  // The words of an open parenthesis and n marks.
  function OpenWords(n: nat): (ws: seq<string>)
    requires n > 0
    ensures |ws| == n && ws[n - 1] != []
  {
    if n == 1 then ["(?"]
    else
      var ws := OpenWords(n - 1);
      ws[..n - 2] + [ws[n - 2] + ","] + ["?"]
  }

  // Text without blanks goes on the last word.
  lemma {:induction false} SplitGlue(a: string, b: string)
    ensures var s, u := Split(a, ' '), Split(b, ' ');
      Split(a + b, ' ') == Glued(s, u)
  {
    var s, u := Split(a, ' '), Split(b, ' ');
    if a == [] {
      assert a + b == b && s == [[]] && [] + u[0] == u[0] && u == [u[0]] + u[1..];
    } else {
      assert (a + b)[1..] == a[1..] + b;
      SplitGlue(a[1..], b);
      GlueHead(a[0], Split(a[1..], ' '), u);
    }
  }

  // The same for the lists of words.
  function Glued(s: seq<string>, u: seq<string>): seq<string>
    requires s != [] && u != []
  {
    s[..|s| - 1] + [s[|s| - 1] + u[0]] + u[1..]
  }

  lemma GlueHead(c: char, s: seq<string>, u: seq<string>)
    requires s != [] && u != []
    ensures Glued([[]] + s, u) == [[]] + Glued(s, u)
    ensures Glued([[c] + s[0]] + s[1..], u) == [[c] + Glued(s, u)[0]] + Glued(s, u)[1..]
  {
    var t := [[c] + s[0]] + s[1..];
    if |s| == 1 {
      assert ([c] + s[0]) + u[0] == [c] + (s[0] + u[0]);
      assert Glued(s, u) == [s[0] + u[0]] + u[1..] && Glued(t, u) == [[c] + s[0] + u[0]] + u[1..];
    } else {
      assert t[..|t| - 1] == [[c] + s[0]] + s[1..|s| - 1] && s[..|s| - 1] == [s[0]] + s[1..|s| - 1];
    }
  }

  lemma {:induction false} OpenSplit(n: nat)
    requires n > 0
    ensures Split("(" + MarkList(n), ' ') == OpenWords(n)
  {
    if n == 1 {
      SplitWord("(?", ' ');
    } else {
      OpenSplit(n - 1);
      assert "(" + (MarkList(n - 1) + ", ?") == ("(" + MarkList(n - 1)) + ", ?";
      SplitFirst(",", "?", ' ');
      SplitWord("?", ' ');
      assert ", ?" == "," + [' '] + "?" && [","] + ["?"] == [",", "?"];
      SplitGlue("(" + MarkList(n - 1), ", ?");
    }
  }

  // With the closing parenthesis.
  function Closed(ws: seq<string>): seq<string>
    requires ws != []
  {
    ws[..|ws| - 1] + [ws[|ws| - 1] + ")"]
  }

  lemma ListWords(n: nat)
    requires n > 0
    ensures Words("IN (" + MarkList(n) + ")") == ["IN"] + Closed(OpenWords(n))
  {
    var open := "(" + MarkList(n);
    OpenSplit(n);
    SplitWord(")", ' ');
    SplitGlue(open, ")");
    OpenIsNotEmpty(n);
    NonEmptyKeepsAll(Closed(OpenWords(n)));
    assert [")"][1..] == [] && Glued(OpenWords(n), [")"]) == Closed(OpenWords(n));
    assert Words(open + ")") == Closed(OpenWords(n));
    OneWord("IN");
    WordsSpace("IN", open + ")");
    assert "IN (" + MarkList(n) + ")" == "IN" + " " + (open + ")");
  }

  lemma {:induction false} OpenIsNotEmpty(n: nat)
    requires n > 0
    ensures [] !in OpenWords(n) && [] !in Closed(OpenWords(n)) && forall w | w in OpenWords(n) :: ')' !in w
  {
    if n > 1 {
      OpenIsNotEmpty(n - 1);
      var ws := OpenWords(n - 1);
      assert ws[n - 2] in ws;
    }
  }

  function TotalMarks(ws: seq<string>): nat {
    if ws == [] then 0 else TotalMarks(ws[..|ws| - 1]) + Marks(ws[|ws| - 1])
  }

  lemma {:induction false} OpenMarks(n: nat)
    requires n > 0
    ensures TotalMarks(OpenWords(n)) == n
  {
    if n == 1 {
      assert ["(?"][..0] == [] && Marks("(?") == 1;
    } else {
      OpenMarks(n - 1);
      var ws := OpenWords(n - 1);
      var front := ws[..n - 2];
      assert OpenWords(n)[..n - 1] == front + [ws[n - 2] + ","];
      assert (front + [ws[n - 2] + ","])[..n - 2] == front;
      MarksConcat(ws[n - 2], ",");
      assert Marks(",") == 0 && Marks("?") == 1;
    }
  }

  lemma {:induction false} TotalMarksHead(ws: seq<string>)
    requires ws != []
    ensures TotalMarks(ws) == Marks(ws[0]) + TotalMarks(ws[1..])
  {
    var n := |ws| - 1;
    if n > 0 {
      TotalMarksHead(ws[..n]);
      assert ws[..n][1..] == ws[1..][..n - 1] && ws[1..][n - 1] == ws[n];
    } else {
      assert ws[..0] == [] && ws[1..] == [];
    }
  }

  lemma {:induction false} ReadClosed(ws: seq<string>, rest: seq<string>)
    requires ws != [] && [] !in ws && forall w | w in ws :: ')' !in w
    ensures ReadMarks(Closed(ws) + rest) == Some((TotalMarks(ws), rest))
  {
    TotalMarksHead(ws);
    var all := Closed(ws) + rest;
    if |ws| == 1 {
      assert all[0] == ws[0] + ")" && all[1..] == rest;
      MarksConcat(ws[0], ")");
      assert Marks(")") == 0 && ws[1..] == [];
    } else {
      assert all[0] == ws[0] && ws[0] in ws && ws[0] != [];
      assert ws[0][|ws[0]| - 1] in ws[0];
      assert all[1..] == Closed(ws[1..]) + rest;
      ReadClosed(ws[1..], rest);
    }
  }

  // ---- reading a test ----

  // A column that cannot be taken for a word of the grammar.
  predicate Column(col: string) {
    && col != [] && ' ' !in col && col !in {"AND", "OR", "NOT", "(", ")"}
    && !EndsIn(col, CAST) && !EndsIn(col, CLOSE)
  }

  // GenerateOperatorLeftCol of PostgreSQL.
  function LeftCol(op: Operator, col: string): string {
    if IsUpper(op) then UPPER + col + CLOSE
    else if op.Contains? || op.StartsWith? || op.EndsWith? then col + CAST
    else col
  }

  function LeftValue(q: Sql, op: Operator, v: Arg): Arg {
    if IsUpper(op) then Uppered(q, Cast(v))
    else if op.Contains? || op.StartsWith? || op.EndsWith? then Cast(v)
    else v
  }

  lemma LeftCell(q: Sql, row: Row, op: Operator, col: string)
    requires Column(col)
    ensures Cell(q, row, LeftCol(op, col)) == LeftValue(q, op, row(col))
    ensures LeftCol(op, col) != [] && ' ' !in LeftCol(op, col) && LeftCol(op, col) !in {"AND", "OR", "NOT", "(", ")"}
  {
    var w := LeftCol(op, col);
    if IsUpper(op) {
      assert w[..|UPPER|] == UPPER && w[|w| - |CLOSE|..] == CLOSE && w[|UPPER|..|w| - |CLOSE|] == col;
    } else if op.Contains? || op.StartsWith? || op.EndsWith? {
      assert w[|w| - |CAST|..] == CAST && w[..|w| - |CAST|] == col;
      assert w[|w| - 1] == 't' && CLOSE[|CLOSE| - 1] == ')';
      assert |CLOSE| <= |w| ==> w[|w| - |CLOSE|..][|CLOSE| - 1] == w[|w| - 1];
    }
  }

  // The value of what is printed.
  ghost function PrintedValue(q: Sql, op: Operator, params: seq<Arg>, v: Arg): Truth
    requires Readable(op) && Takes(op, params)
  {
    if op.Exact? && params[0] == Null then Known(v, Str("IS NULL"), v == Str("IS NULL"))
    else if op.IExact? then Finds(v, q.Upper(ToStr(v)) == q.Upper(Escaped(ToStr(params[0]))))
    else if op.IsLike() then
      var p, s := Pattern(PlaceOf(op), ToStr(params[0])), ToStr(v);
      Finds(v, if IsUpper(op) then Like(q.Upper(p), q.Upper(s)) else Like(p, s))
    else OpValue(q, op, params, v)
  }

  lemma {:induction false} AmongIs(v: Arg, list: seq<Arg>)
    ensures Among(v, list) ==
      if list == [] then False
      else if v == Null then Unknown else if v in list then True else if Null in list then Unknown else False
  {
    if list != [] {
      AmongIs(v, list[1..]);
      assert list == [list[0]] + list[1..];
    }
  }

  lemma CompareReads(q: Sql, row: Row, w: string, sign: string, mark: string, a: Arg, ws: seq<string>, args: seq<Arg>)
    requires sign !in {"IN", "BETWEEN", "IS"} && Bound(q, mark, a).Some?
    requires Compare(q, sign, Cell(q, row, w), Bound(q, mark, a).value).Some?
    ensures EvalTest(q, row, [w] + [sign, mark] + ws, [a] + args)
      == Read(Compare(q, sign, Cell(q, row, w), Bound(q, mark, a).value).value, ws, args)
  {
    var all := [w] + [sign, mark] + ws;
    assert all[0] == w && all[1] == sign && all[2] == mark && all[3..] == ws;
    assert ([a] + args)[0] == a && ([a] + args)[1..] == args;
  }

  // A comparison as it was asked for, with Str("IS NULL") in place of a null for exact.
  lemma CompareMeans(q: Sql, op: Operator, a: Arg, v: Arg)
    requires IsSign(op) && !op.IsLike()
    ensures Compare(q, Sign(op), v, Printed(op, a)) == Some(PrintedValue(q, op, [a], v))
  {
  }

  lemma LikeMeans(q: Sql, op: Operator, a: Arg, v: Arg)
    requires op.IsLike() && !IsUpper(op)
    ensures Compare(q, "LIKE", Cast(v), Printed(op, a)) == Some(PrintedValue(q, op, [a], v))
  {
  }

  lemma UpperMeans(q: Sql, op: Operator, a: Arg, v: Arg)
    requires IsUpper(op) && !op.IExact?
    ensures Compare(q, "LIKE", Uppered(q, Cast(v)), Uppered(q, Printed(op, a))) == Some(PrintedValue(q, op, [a], v))
  {
  }

  lemma IExactMeans(q: Sql, a: Arg, v: Arg)
    ensures Compare(q, "=", Uppered(q, Cast(v)), Uppered(q, Printed(IExact, a)))
      == Some(PrintedValue(q, IExact, [a], v))
  {
    assert Pattern(Alone, ToStr(a)) == Escaped(ToStr(a));
  }

  lemma SignMeans(q: Sql, op: Operator, a: Arg, v: Arg)
    requires IsSign(op)
    ensures Bound(q, Mark(op), Printed(op, a)).Some?
    ensures Compare(q, Sign(op), LeftValue(q, op, v), Bound(q, Mark(op), Printed(op, a)).value)
      == Some(PrintedValue(q, op, [a], v))
  {
    if op.IExact? {
      IExactMeans(q, a, v);
    } else if IsUpper(op) {
      UpperMeans(q, op, a, v);
    } else if op.IsLike() {
      LikeMeans(q, op, a, v);
    } else {
      CompareMeans(q, op, a, v);
    }
  }

  lemma SignReads(q: Sql, row: Row, col: string, op: Operator, params: seq<Arg>, ws: seq<string>, args: seq<Arg>)
    requires Column(col) && IsSign(op) && |params| == 1
    ensures var f := GenerateOperatorSQL(POSTGRES, op, params);
      f.Some? && EvalTest(q, row, [LeftCol(op, col)] + Words(f.value.text) + ws, f.value.args + args)
        == Read(PrintedValue(q, op, params, row(col)), ws, args)
  {
    var a := params[0];
    assert params == [a];
    SignFragment(op, a);
    SignIsWord(op);
    TwoWords(Sign(op), Mark(op));
    LeftCell(q, row, op, col);
    SignMeans(q, op, a, row(col));
    CompareReads(q, row, LeftCol(op, col), Sign(op), Mark(op), Printed(op, a), ws, args);
  }

  lemma AmongReads(q: Sql, row: Row, w: string, marks: seq<string>, params: seq<Arg>, ws: seq<string>, args: seq<Arg>)
    requires marks != [] && ReadMarks(marks + ws) == Some((|params|, ws))
    ensures EvalTest(q, row, [w] + (["IN"] + marks) + ws, params + args)
      == Read(Among(Cell(q, row, w), params), ws, args)
  {
    var all := [w] + (["IN"] + marks) + ws;
    assert all[0] == w && all[1] == "IN" && all[2..] == marks + ws && |all| >= 3;
    assert (params + args)[..|params|] == params && (params + args)[|params|..] == args;
  }

  lemma ListReads(q: Sql, row: Row, col: string, params: seq<Arg>, ws: seq<string>, args: seq<Arg>)
    requires Column(col) && params != []
    ensures var f := GenerateOperatorSQL(POSTGRES, In, params);
      f.Some? && EvalTest(q, row, [col] + Words(f.value.text) + ws, f.value.args + args)
        == Read(PrintedValue(q, In, params, row(col)), ws, args)
  {
    var n := |params|;
    LeftCell(q, row, In, col);
    ListWords(n);
    OpenIsNotEmpty(n);
    OpenMarks(n);
    ReadClosed(OpenWords(n), ws);
    AmongReads(q, row, col, Closed(OpenWords(n)), params, ws, args);
    AmongIs(row(col), params);
  }

  lemma BetweenReads(q: Sql, row: Row, col: string, params: seq<Arg>, ws: seq<string>, args: seq<Arg>)
    requires Column(col) && |params| == 2
    ensures var f := GenerateOperatorSQL(POSTGRES, Between, params);
      f.Some? && EvalTest(q, row, [col] + Words(f.value.text) + ws, f.value.args + args)
        == Read(PrintedValue(q, Between, params, row(col)), ws, args)
  {
    var f := GenerateOperatorSQL(POSTGRES, Between, params).value;
    assert params == [params[0], params[1]];
    BetweenWords(f.text);
    WithinReads(q, row, col, params[0], params[1], ws, args);
    WithinMeans(q, params[0], params[1], row(col));
  }

  lemma WithinReads(q: Sql, row: Row, col: string, low: Arg, high: Arg, ws: seq<string>, args: seq<Arg>)
    requires Column(col)
    ensures EvalTest(q, row, [col] + ["BETWEEN", "?", "AND", "?"] + ws, [low, high] + args)
      == Read(Within(q, row(col), low, high), ws, args)
  {
    LeftCell(q, row, Between, col);
    var all := [col] + ["BETWEEN", "?", "AND", "?"] + ws;
    assert all[0] == col && all[1] == "BETWEEN" && all[2] == "?" && all[3] == "AND" && all[4] == "?" && all[5..] == ws;
    assert ([low, high] + args)[0] == low && ([low, high] + args)[1] == high && ([low, high] + args)[2..] == args;
  }

  lemma WithinMeans(q: Sql, low: Arg, high: Arg, v: Arg)
    ensures Within(q, v, low, high) == PrintedValue(q, Between, [low, high], v)
  {
  }

  lemma NullReads(q: Sql, row: Row, col: string, params: seq<Arg>, ws: seq<string>, args: seq<Arg>)
    requires Column(col) && |params| == 1 && params[0].Bool?
    ensures var f := GenerateOperatorSQL(POSTGRES, IsNull, params);
      f.Some? && EvalTest(q, row, [col] + Words(f.value.text) + ws, f.value.args + args)
        == Read(PrintedValue(q, IsNull, params, row(col)), ws, args)
  {
    var f := GenerateOperatorSQL(POSTGRES, IsNull, params).value;
    assert f.args + args == args;
    LeftCell(q, row, IsNull, col);
    if params[0].b {
      NullWords(f.text);
      var all := [col] + ["IS", "NULL"] + ws;
      assert all[0] == col && all[1] == "IS" && all[2] == "NULL" && all[3..] == ws;
    } else {
      NotNullWords(f.text);
      var all := [col] + ["IS", "NOT", "NULL"] + ws;
      assert all[0] == col && all[1] == "IS" && all[2] == "NOT" && all[3] == "NULL" && all[4..] == ws;
    }
  }

  /** The text of an operator behind its column, with the arguments in the order of its marks, reads as the value of
      what is printed for it. */
  lemma OperatorReads(q: Sql, row: Row, col: string, op: Operator, params: seq<Arg>, ws: seq<string>, args: seq<Arg>)
    requires Column(col) && Readable(op) && Takes(op, params)
    ensures var f := GenerateOperatorSQL(POSTGRES, op, params);
      f.Some? && EvalTest(q, row, [LeftCol(op, col)] + Words(f.value.text) + ws, f.value.args + args)
        == Read(PrintedValue(q, op, params, row(col)), ws, args)
  {
    if op.In? {
      ListReads(q, row, col, params, ws, args);
    } else if op.Between? {
      BetweenReads(q, row, col, params, ws, args);
    } else if op.IsNull? {
      NullReads(q, row, col, params, ws, args);
    } else {
      SignReads(q, row, col, op, params, ws, args);
    }
  }

  // ---- printed and meant ----

  lemma {:induction false} UpperConcat(q: Sql, a: string, b: string)
    ensures q.Upper(a + b) == q.Upper(a) + q.Upper(b)
  {
    if a == [] {
      assert a + b == b;
    } else {
      assert (a + b)[1..] == a[1..] + b;
      UpperConcat(q, a[1..], b);
    }
  }

  lemma {:induction false} UpperEscaped(q: Sql, t: string)
    requires q.Valid()
    ensures q.Upper(Escaped(t)) == Escaped(q.Upper(t)) && (Literal(q.Upper(t)) <==> Literal(t))
  {
    if t != [] {
      var head := if t[0] == '%' then "\\%" else [t[0]];
      UpperEscaped(q, t[1..]);
      UpperConcat(q, head, Escaped(t[1..]));
      assert "\\%"[1..] == "%" && "%"[1..] == [] && [t[0]][1..] == [];
      assert q.Upper(head) == if q.up(t[0]) == '%' then "\\%" else [q.up(t[0])];
      assert q.Upper(t)[1..] == q.Upper(t[1..]) && t == [t[0]] + t[1..];
    }
  }

  lemma UpperPattern(q: Sql, at: Place, t: string)
    requires q.Valid()
    ensures q.Upper(Pattern(at, t)) == Pattern(at, q.Upper(t))
  {
    UpperEscaped(q, t);
    UpperConcat(q, Before(at) + Escaped(t), Behind(at));
    UpperConcat(q, Before(at), Escaped(t));
    assert "%"[1..] == [] && q.Upper("%") == "%";
  }

  lemma {:induction false} EscapedIsLonger(t: string)
    ensures |Escaped(t)| >= |t| && (Escaped(t) == t <==> '%' !in t) && ('%' in t ==> |Escaped(t)| > |t|)
  {
    if t != [] {
      EscapedIsLonger(t[1..]);
      assert t == [t[0]] + t[1..];
    }
  }

  lemma {:induction false} UpperLength(q: Sql, s: string)
    ensures |q.Upper(s)| == |s|
  {
    if s != [] {
      UpperLength(q, s[1..]);
    }
  }

  // The printed text has the value of the operator on every row.
  ghost predicate Faithful(q: Sql, op: Operator, params: seq<Arg>)
    requires Readable(op) && Takes(op, params)
  {
    forall v :: PrintedValue(q, op, params, v) == OpValue(q, op, params, v)
  }

  // What an argument must not be or hold for that.
  predicate Harmless(op: Operator, params: seq<Arg>)
    requires Takes(op, params)
  {
    if op.Exact? then params[0] != Null
    else if op.IExact? then '%' !in ToStr(params[0])
    else if op.IsLike() then Literal(ToStr(params[0]))
    else true
  }

  /** A condition says to the database what its operator says exactly when the argument is harmless: exact with a null
      finds the text IS NULL instead of a null, iexact does not find a percent sign, and the other texts must not hold
      an underscore or a backslash. */
  lemma FaithfulIff(q: Sql, op: Operator, params: seq<Arg>)
    requires q.Valid() && Readable(op) && Takes(op, params)
    ensures Faithful(q, op, params) <==> Harmless(op, params)
  {
    if op.Exact? {
      assert PrintedValue(q, op, params, Null) == Unknown;
    } else if op.IExact? {
      IExactFaithful(q, params);
    } else if op.Contains? || op.StartsWith? || op.EndsWith? {
      LikeFaithful(q, op, params);
    } else if op.IsLike() {
      UpperLikeFaithful(q, op, params);
    }
  }

  lemma IExactFaithful(q: Sql, params: seq<Arg>)
    requires |params| == 1
    ensures Faithful(q, IExact, params) <==> '%' !in ToStr(params[0])
  {
    var t := ToStr(params[0]);
    EscapedIsLonger(t);
    if '%' in t {
      UpperLength(q, t);
      UpperLength(q, Escaped(t));
      assert ToStr(Str(t)) == t;
      assert PrintedValue(q, IExact, params, Str(t)) == False && OpValue(q, IExact, params, Str(t)) == True;
    }
  }

  lemma LikeFaithful(q: Sql, op: Operator, params: seq<Arg>)
    requires (op.Contains? || op.StartsWith? || op.EndsWith?) && |params| == 1
    ensures Faithful(q, op, params) <==> Literal(ToStr(params[0]))
  {
    var at, t := PlaceOf(op), ToStr(params[0]);
    FoundIff(at, t);
    if Faithful(q, op, params) {
      forall s ensures Like(Pattern(at, t), s) <==> StandsAt(at, t, s) {
        assert ToStr(Str(s)) == s;
        assert PrintedValue(q, op, params, Str(s)) == OpValue(q, op, params, Str(s));
      }
    }
  }

  lemma UpperLikeFaithful(q: Sql, op: Operator, params: seq<Arg>)
    requires q.Valid() && (op.IContains? || op.IStartsWith? || op.IEndsWith?) && |params| == 1
    ensures Faithful(q, op, params) <==> Literal(ToStr(params[0]))
  {
    var at, t := PlaceOf(op), ToStr(params[0]);
    var u := q.Upper(t);
    UpperPattern(q, at, t);
    UpperEscaped(q, t);
    if Literal(u) {
      forall s ensures Like(Pattern(at, u), s) <==> StandsAt(at, u, s) {
        LiteralFound(at, u, s);
      }
    } else {
      assert q.up('x') != '_';
      var s := Misjudged(at, u, q.up('x'));
      UpperTwice(q, t);
      UpperSame(q, s, u);
      assert ToStr(Str(s)) == s && q.Upper(s) == s;
      assert PrintedValue(q, op, params, Str(s)) != OpValue(q, op, params, Str(s));
    }
  }

  lemma {:induction false} UpperTwice(q: Sql, t: string)
    requires q.Valid()
    ensures forall c | c in q.Upper(t) :: q.up(c) == c
  {
    if t != [] {
      UpperTwice(q, t[1..]);
    }
  }

  lemma {:induction false} UpperSame(q: Sql, s: string, u: string)
    requires q.Valid() && MadeOf(s, u, q.up('x')) && forall c | c in u :: q.up(c) == c
    ensures q.Upper(s) == s
  {
    if s != [] {
      assert forall i | 0 <= i < |s| - 1 :: s[1..][i] == s[i + 1];
      UpperSame(q, s[1..], u);
    }
  }

  // ---- reading a condition ----

  // A test that can be read: a column, and an operator with arguments that it takes.
  predicate ReadableTest(t: ColumnTest) {
    Column(t.col) && Readable(t.op) && Takes(t.op, t.params)
  }

  ghost predicate ReadableTokens(tests: Pred -> ColumnTest, ts: seq<Token>) {
    forall t | t in ts :: t.PRED? ==> ReadableTest(tests(t.pred))
  }

  // What the printed test says of a row.
  ghost function PrintedTest(q: Sql, row: Row, t: ColumnTest): Truth {
    if ReadableTest(t) then PrintedValue(q, t.op, t.params, row(t.col)) else Unknown
  }

  ghost function PrintedTests(q: Sql, row: Row, tests: Pred -> ColumnTest): Pred -> Truth {
    (p: Pred) => PrintedTest(q, row, tests(p))
  }

  // The words and the arguments of a token, and of a list of them.
  function WordsOfToken(tests: Pred -> ColumnTest, t: Token): seq<string> {
    Words(TokenFragment(PostgresTests(tests), t).text)
  }

  function ArgsOfToken(tests: Pred -> ColumnTest, t: Token): seq<Arg> {
    TokenFragment(PostgresTests(tests), t).args
  }

  // The tests as PostgreSQL gets them.
  function PostgresTests(tests: Pred -> ColumnTest): Pred -> Fragment {
    TestFragments(POSTGRES, (p: Pred) => tests(p).(col := LeftCol(tests(p).op, tests(p).col)))
  }

  function WordsOf(tests: Pred -> ColumnTest, ts: seq<Token>): seq<string> {
    if ts == [] then [] else WordsOfToken(tests, ts[0]) + WordsOf(tests, ts[1..])
  }

  function ArgumentsOf(tests: Pred -> ColumnTest, ts: seq<Token>): seq<Arg> {
    if ts == [] then [] else ArgsOfToken(tests, ts[0]) + ArgumentsOf(tests, ts[1..])
  }

  // The word of a token that is no test.
  function Keyword(t: Token): string {
    match t
    case AND => "AND"
    case OR => "OR"
    case NOT => "NOT"
    case LPAREN => "("
    case RPAREN => ")"
    case PRED(_) => ""
  }

  lemma WordThenBlank(w: string)
    requires w != [] && ' ' !in w
    ensures Words(w + " ") == [w]
  {
    WordsSpace(w, "");
    OneWord(w);
    NoWord();
    assert w + " " + "" == w + " ";
  }

  lemma KeywordWords(tests: Pred -> ColumnTest, t: Token)
    requires !t.PRED?
    ensures WordsOfToken(tests, t) == [Keyword(t)] && ArgsOfToken(tests, t) == []
  {
    WordThenBlank(Keyword(t));
    assert TokenFragment(PostgresTests(tests), t).text == Keyword(t) + " ";
  }

  lemma TestWords(tests: Pred -> ColumnTest, p: Pred)
    requires ReadableTest(tests(p)) && GenerateOperatorSQL(POSTGRES, tests(p).op, tests(p).params).Some?
    ensures var t := tests(p);
      var f := GenerateOperatorSQL(POSTGRES, t.op, t.params).value;
      WordsOfToken(tests, PRED(p)) == [LeftCol(t.op, t.col)] + Words(f.text) && ArgsOfToken(tests, PRED(p)) == f.args
  {
    var t := tests(p);
    var f, w := GenerateOperatorSQL(POSTGRES, t.op, t.params).value, LeftCol(t.op, t.col);
    LeftCell(ANY, _ => Null, t.op, t.col);
    assert PostgresTests(tests)(p) == TestFragment(POSTGRES, t.(col := w)) == Fragment(w + " " + f.text, f.args);
    OneWord(w);
    WordsSpace(w, f.text);
    WordsSpace(w + " " + f.text, "");
    NoWord();
    assert w + " " + f.text + " " + "" == w + " " + f.text + " ";
  }

  // The first word tells the kind of the first token.
  lemma FirstWord(tests: Pred -> ColumnTest, ts: seq<Token>)
    requires ReadableTokens(tests, ts) && ts != []
    ensures WordsOf(tests, ts) != []
    ensures !ts[0].PRED? ==>
      && WordsOf(tests, ts) == [Keyword(ts[0])] + WordsOf(tests, ts[1..])
      && ArgumentsOf(tests, ts) == ArgumentsOf(tests, ts[1..])
    ensures ts[0].PRED? ==> WordsOf(tests, ts)[0] !in {"AND", "OR", "NOT", "(", ")"}
  {
    if ts[0].PRED? {
      var t := tests(ts[0].pred);
      OperatorReads(ANY, _ => Null, t.col, t.op, t.params, [], []);
      LeftCell(ANY, _ => Null, t.op, t.col);
      TestWords(tests, ts[0].pred);
    } else {
      KeywordWords(tests, ts[0]);
    }
  }

  lemma TailReadable(tests: Pred -> ColumnTest, ts: seq<Token>, n: nat)
    requires ReadableTokens(tests, ts) && n <= |ts|
    ensures ReadableTokens(tests, ts[n..])
  {
  }

  // Whether a connector comes next shows in the first word, and it takes up that word and no argument.
  lemma NextIs(tests: Pred -> ColumnTest, ts: seq<Token>, t: Token)
    requires ReadableTokens(tests, ts) && t in {AND, OR, RPAREN}
    ensures var ws := WordsOf(tests, ts);
      && (ws != [] && ws[0] == Keyword(t) <==> ts != [] && ts[0] == t)
      && (ts != [] && ts[0] == t ==>
            ws[1..] == WordsOf(tests, ts[1..]) && ArgumentsOf(tests, ts) == ArgumentsOf(tests, ts[1..])
            && ReadableTokens(tests, ts[1..]))
  {
    if ts != [] {
      FirstWord(tests, ts);
      TailReadable(tests, ts, 1);
    }
  }

  // What a parser leaves is the end of what it was given.
  ghost predicate Tail(ts: seq<Token>, rest: seq<Token>) {
    |rest| <= |ts| && rest == ts[|ts| - |rest|..]
  }

  lemma TailOfTail(ts: seq<Token>, n: nat, rest: seq<Token>)
    requires n <= |ts| && Tail(ts[n..], rest)
    ensures Tail(ts, rest)
  {
  }

  lemma {:induction false} ParseOrTail(ts: seq<Token>)
    ensures ParseOr(ts).Got? ==> Tail(ts, ParseOr(ts).rest)
    decreases |ts|, 3
  {
    ParseAndTail(ts);
    if ParseAnd(ts).Got? {
      var rest := ParseAnd(ts).rest;
      if rest != [] && rest[0] == OR {
        ParseOrTail(rest[1..]);
        assert rest[1..] == ts[|ts| - |rest| + 1..];
      }
    }
  }

  lemma {:induction false} ParseAndTail(ts: seq<Token>)
    ensures ParseAnd(ts).Got? ==> Tail(ts, ParseAnd(ts).rest)
    decreases |ts|, 2
  {
    ParseNotTail(ts);
    if ParseNot(ts).Got? {
      var rest := ParseNot(ts).rest;
      if rest != [] && rest[0] == AND {
        ParseAndTail(rest[1..]);
        assert rest[1..] == ts[|ts| - |rest| + 1..];
      }
    }
  }

  lemma {:induction false} ParseNotTail(ts: seq<Token>)
    ensures ParseNot(ts).Got? ==> Tail(ts, ParseNot(ts).rest)
    decreases |ts|, 1
  {
    if ts != [] {
      if ts[0] == NOT {
        ParseNotTail(ts[1..]);
      } else if ts[0] == LPAREN {
        ParseOrTail(ts[1..]);
      }
    }
  }

  // A reading agrees with a parse: the value of its expression, and the words and arguments of what it left.
  ghost predicate Agrees(q: Sql, row: Row, tests: Pred -> ColumnTest, p: Parse, r: Reading) {
    p.Got? ==>
      r == Read(p.e.Eval(PrintedTests(q, row, tests)), WordsOf(tests, p.rest), ArgumentsOf(tests, p.rest))
  }

  lemma {:induction false} OrAgrees(q: Sql, row: Row, tests: Pred -> ColumnTest, ts: seq<Token>)
    requires ReadableTokens(tests, ts)
    ensures Agrees(q, row, tests, ParseOr(ts), EvalOr(q, row, WordsOf(tests, ts), ArgumentsOf(tests, ts)))
    decreases |ts|, 3
  {
    AndAgrees(q, row, tests, ts);
    ParseAndTail(ts);
    if ParseAnd(ts).Got? {
      var rest := ParseAnd(ts).rest;
      TailReadable(tests, ts, |ts| - |rest|);
      NextIs(tests, rest, OR);
      if rest != [] && rest[0] == OR {
        OrAgrees(q, row, tests, rest[1..]);
      }
    }
  }

  lemma {:induction false} AndAgrees(q: Sql, row: Row, tests: Pred -> ColumnTest, ts: seq<Token>)
    requires ReadableTokens(tests, ts)
    ensures Agrees(q, row, tests, ParseAnd(ts), EvalAnd(q, row, WordsOf(tests, ts), ArgumentsOf(tests, ts)))
    decreases |ts|, 2
  {
    NotAgrees(q, row, tests, ts);
    ParseNotTail(ts);
    if ParseNot(ts).Got? {
      var rest := ParseNot(ts).rest;
      TailReadable(tests, ts, |ts| - |rest|);
      NextIs(tests, rest, AND);
      assert Keyword(AND) == "AND";
      if rest != [] && rest[0] == AND {
        AndAgrees(q, row, tests, rest[1..]);
        assert ParseAnd(rest[1..]).Got? <==> ParseAnd(ts).Got?;
      } else {
        assert ParseAnd(ts) == ParseNot(ts);
      }
    }
  }

  lemma {:induction false} NotAgrees(q: Sql, row: Row, tests: Pred -> ColumnTest, ts: seq<Token>)
    requires ReadableTokens(tests, ts)
    ensures Agrees(q, row, tests, ParseNot(ts), EvalNot(q, row, WordsOf(tests, ts), ArgumentsOf(tests, ts)))
    decreases |ts|, 1
  {
    if ts != [] {
      FirstWord(tests, ts);
      TailReadable(tests, ts, 1);
      var ws := WordsOf(tests, ts);
      match ts[0] {
        case NOT =>
          assert ws[1..] == WordsOf(tests, ts[1..]);
          NotAgrees(q, row, tests, ts[1..]);
        case LPAREN =>
          assert ws[1..] == WordsOf(tests, ts[1..]);
          OrAgrees(q, row, tests, ts[1..]);
          ParseOrTail(ts[1..]);
          ParenthesisAgrees(q, row, tests, ts[1..]);
        case PRED(p) => TestAgrees(q, row, tests, ts);
        case _ =>
      }
    }
  }

  // What follows an expression in parentheses.
  lemma ParenthesisAgrees(q: Sql, row: Row, tests: Pred -> ColumnTest, ts: seq<Token>)
    requires ReadableTokens(tests, ts) && (ParseOr(ts).Got? ==> Tail(ts, ParseOr(ts).rest))
    ensures ParseOr(ts).Got? && ParseOr(ts).rest != [] && ParseOr(ts).rest[0] == RPAREN ==>
      var rest := ParseOr(ts).rest;
      && WordsOf(tests, rest) != [] && WordsOf(tests, rest)[0] == ")"
      && WordsOf(tests, rest)[1..] == WordsOf(tests, rest[1..])
      && ArgumentsOf(tests, rest) == ArgumentsOf(tests, rest[1..])
  {
    if ParseOr(ts).Got? {
      var rest := ParseOr(ts).rest;
      TailReadable(tests, ts, |ts| - |rest|);
      NextIs(tests, rest, RPAREN);
    }
  }

  lemma TestAgrees(q: Sql, row: Row, tests: Pred -> ColumnTest, ts: seq<Token>)
    requires ReadableTokens(tests, ts) && ts != [] && ts[0].PRED?
    ensures Agrees(q, row, tests, ParseNot(ts), EvalNot(q, row, WordsOf(tests, ts), ArgumentsOf(tests, ts)))
  {
    var p := ts[0].pred;
    var t := tests(p);
    var ws, args := WordsOf(tests, ts[1..]), ArgumentsOf(tests, ts[1..]);
    FirstWord(tests, ts);
    OperatorReads(q, row, t.col, t.op, t.params, ws, args);
    TestWords(tests, p);
  }

  // ---- the whole text ----

  lemma WordsAppend(a: string, b: string)
    requires a == [] || a[|a| - 1] == ' '
    ensures Words(a + b) == Words(a) + Words(b)
  {
    NoWord();
    if a == [] {
      assert a + b == b && [] + Words(b) == Words(b);
    } else {
      var front := a[..|a| - 1];
      assert a == front + " " + "" && a + b == front + " " + b;
      WordsSpace(front, b);
      WordsSpace(front, "");
    }
  }

  lemma {:induction false} WordsOfSnoc(tests: Pred -> ColumnTest, ts: seq<Token>, t: Token)
    ensures WordsOf(tests, ts + [t]) == WordsOf(tests, ts) + WordsOfToken(tests, t)
  {
    if ts == [] {
      assert ts + [t] == [t] && [t][1..] == [];
    } else {
      assert (ts + [t])[1..] == ts[1..] + [t] && (ts + [t])[0] == ts[0];
      WordsOfSnoc(tests, ts[1..], t);
      var a, b, c := WordsOfToken(tests, ts[0]), WordsOf(tests, ts[1..]), WordsOfToken(tests, t);
      assert a + (b + c) == a + b + c;
    }
  }

  lemma {:induction false} ArgumentsOfSnoc(tests: Pred -> ColumnTest, ts: seq<Token>, t: Token)
    ensures ArgumentsOf(tests, ts + [t]) == ArgumentsOf(tests, ts) + ArgsOfToken(tests, t)
  {
    if ts == [] {
      assert ts + [t] == [t] && [t][1..] == [];
    } else {
      assert (ts + [t])[1..] == ts[1..] + [t] && (ts + [t])[0] == ts[0];
      ArgumentsOfSnoc(tests, ts[1..], t);
      var a, b, c := ArgsOfToken(tests, ts[0]), ArgumentsOf(tests, ts[1..]), ArgsOfToken(tests, t);
      assert a + (b + c) == a + b + c;
    }
  }

  lemma TokenEndsInBlank(tests: Pred -> ColumnTest, t: Token)
    ensures var s := TokenFragment(PostgresTests(tests), t).text; s != [] && s[|s| - 1] == ' '
  {
  }

  /** The words and arguments of the printed text are those of its tokens. */
  lemma {:induction false} TextWords(tests: Pred -> ColumnTest, ts: seq<Token>)
    ensures var fs := WhereFragments(PostgresTests(tests), ts);
      && Words(TextOf(fs)) == WordsOf(tests, ts) && ArgsOf(fs) == ArgumentsOf(tests, ts)
      && (TextOf(fs) == [] || TextOf(fs)[|TextOf(fs)| - 1] == ' ')
  {
    var leaf := PostgresTests(tests);
    var fs := WhereFragments(leaf, ts);
    if ts == [] {
      NoWord();
    } else {
      var n := |ts| - 1;
      TextWords(tests, ts[..n]);
      assert fs[..n] == WhereFragments(leaf, ts[..n]) && ts == ts[..n] + [ts[n]];
      WordsAppend(TextOf(fs[..n]), fs[n].text);
      WordsOfSnoc(tests, ts[..n], ts[n]);
      ArgumentsOfSnoc(tests, ts[..n], ts[n]);
      TokenEndsInBlank(tests, ts[n]);
    }
  }

  /** The WHERE text of a condition tree, read as SQL with its arguments bound to the marks in order, has on every row
      the value of the tree over the printed tests, and nothing is left over. */
  lemma WhereReads(q: Sql, row: Row, tests: Pred -> ColumnTest, c: Condition)
    requires WellFormed(c) && ReadableTokens(tests, Tokens(c))
    ensures var fs := WhereFragments(PostgresTests(tests), Tokens(c));
      EvalOr(q, row, Words(TextOf(fs)), ArgsOf(fs))
        == Read(ConditionMeaning.Value(c, PrintedTests(q, row, tests)), [], [])
  {
    TextWords(tests, Tokens(c));
    OrAgrees(q, row, tests, Tokens(c));
    TextMeansTree(c, PrintedTests(q, row, tests));
  }

  /** The clause is the word WHERE and that text, and nothing at all for a condition without text. */
  lemma ClauseReads(leaf: Pred -> Fragment, c: Condition)
    ensures var clause, fs := WhereClause(leaf, c), WhereFragments(leaf, Tokens(c));
      && Words(TextOf(clause)) == (if Tokens(c) == [] then [] else ["WHERE"] + Words(TextOf(fs)))
      && ArgsOf(clause) == ArgsOf(fs)
  {
    var fs := WhereFragments(leaf, Tokens(c));
    if Tokens(c) == [] {
      NoWord();
      assert fs == [];
    } else {
      TextOfConcat([Fragment("WHERE ", [])], fs);
      ArgsOfConcat([Fragment("WHERE ", [])], fs);
      TextOfOne(Fragment("WHERE ", []));
      assert "WHERE " + TextOf(fs) == "WHERE" + " " + TextOf(fs);
      OneWord("WHERE");
      WordsSpace("WHERE", TextOf(fs));
    }
  }
}
