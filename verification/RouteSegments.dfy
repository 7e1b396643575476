/** splitPath and splitSegment: the segments of a pattern, and the parameters and the expression of each. */
module RouteSegments {
  import opened Text

  // ---- strings.Trim ----

  function TrimLeft(s: string, cut: set<char>): (r: string)
    ensures r == [] || r[0] !in cut
  {
    if s != [] && s[0] in cut then TrimLeft(s[1..], cut) else s
  }

  function TrimRight(s: string, cut: set<char>): (r: string)
    ensures r == [] || r[|r| - 1] !in cut
    ensures r == [] || (s != [] && r[0] == s[0])
  {
    if s != [] && s[|s| - 1] in cut then TrimRight(s[..|s| - 1], cut) else s
  }

  function Trim(s: string, cut: set<char>): (r: string)
    ensures r == [] || (r[0] !in cut && r[|r| - 1] !in cut)
  {
    TrimRight(TrimLeft(s, cut), cut)
  }

  // ---- splitPath ----

  const PATH_CUT: set<char> := {'/', ' '}

  function SplitPath(key: string): seq<string> {
    var k := Trim(key, PATH_CUT);
    if k == [] then [] else Split(k, '/')
  }

  // A segment that splitPath leaves whole.
  predicate Whole(seg: string) {
    seg != [] && '/' !in seg && seg[0] !in PATH_CUT && seg[|seg| - 1] !in PATH_CUT
  }

  // The path that a list of segments stands for.
  function PathOf(segs: seq<string>): string {
    if segs == [] then [] else ['/'] + segs[0] + PathOf(segs[1..])
  }

  lemma {:induction false} PathOfJoin(segs: seq<string>)
    requires segs != []
    ensures PathOf(segs) == ['/'] + Join(segs, '/')
  {
    if |segs| > 1 {
      PathOfJoin(segs[1..]);
    } else {
      assert segs[1..] == [];
    }
  }

  lemma {:induction false} JoinEnds(segs: seq<string>)
    requires segs != [] && forall g | g in segs :: Whole(g)
    ensures var j := Join(segs, '/'); j != [] && j[0] !in PATH_CUT && j[|j| - 1] !in PATH_CUT
  {
    assert segs[0] in segs;
    if |segs| > 1 {
      JoinEnds(segs[1..]);
    }
  }

  /** splitPath recovers the segments of a path. */
  lemma SplitPathOf(segs: seq<string>)
    requires segs != [] && forall g | g in segs :: Whole(g)
    ensures SplitPath(PathOf(segs)) == segs
  {
    PathOfJoin(segs);
    JoinEnds(segs);
    var j := Join(segs, '/');
    assert PathOf(segs)[1..] == j;
    assert TrimLeft(PathOf(segs), PATH_CUT) == TrimLeft(j, PATH_CUT) == j;
    SplitJoin(segs, '/');
  }

  // ---- splitSegment ----

  // What a segment stands for: whether it has parameters, their names, and its expression.
  datatype Parts = Parts(isWild: bool, params: seq<string>, reg: string)

  predicate NameChar(c: char) {
    'a' <= c <= 'z' || 'A' <= c <= 'Z' || '0' <= c <= '9' || c == '_'
  }

  // The variables of the character loop.
  datatype Scan = Scan(skip: nat, start: bool, startExp: bool, param: string, expt: string,
                       params: seq<string>, out: string, paramsNum: nat)
  {
    // The parameter read so far ends here and is matched by an expression.
    function EndParam(exp: string, skipped: nat): Scan {
      this.(out := out + exp, params := params + [":" + param], param := [], paramsNum := paramsNum + 1,
            start := false, startExp := false, skip := skipped)
    }
  }

  const SCAN_START := Scan(0, false, false, [], [], [], [], 0)

  // The name of a type follows the colon at place i.
  predicate TypeAt(key: string, i: nat, name: string) {
    i + 1 + |name| <= |key| && key[i + 1..i + 1 + |name|] == name
  }

  // One turn of the loop.
  function ScanChar(key: string, i: nat, s: Scan): Scan
    requires i < |key|
  {
    var v := key[i];
    if s.skip > 0 then s.(skip := s.skip - 1)
    else if s.start && v == ':' && TypeAt(key, i, "int") then s.EndParam("([0-9]+)", 3)
    else if s.start && v == ':' && TypeAt(key, i, "string") then s.EndParam("([\\w]+)", 6)
    else if s.start && NameChar(v) then s.(param := s.param + [v])
    else ScanRest(key, i, if s.start && v != '(' then s.EndParam("(.+)", 0) else s)
  }

  // The part of a turn behind the name of a parameter.
  function ScanRest(key: string, i: nat, s: Scan): Scan
    requires i < |key|
  {
    var v := key[i];
    if s.startExp && v != ')' then s.(expt := s.expt + [v])
    else if i > 0 && key[i - 1] == '\\' then s.(out := s.out + [v])
    else if v == ':' then s.(param := [], start := true)
    else if v == '(' then
      s.(startExp := true, start := false, param := [], paramsNum := s.paramsNum + 1, expt := "(",
         params := if s.param != [] then s.params + [":" + s.param] else s.params)
    else if v == ')' then s.(startExp := false, expt := s.expt + ")", out := s.out + (s.expt + ")"), param := [])
    else if v == '?' then s.(params := s.params + [":"])
    else s.(out := s.out + [v])
  }

  // The loop from place i on.
  function ScanFrom(key: string, i: nat, s: Scan): Scan
    requires i <= |key|
    decreases |key| - i
  {
    if i == |key| then s else ScanFrom(key, i + 1, ScanChar(key, i, s))
  }

  // What is returned behind the loop.
  function Finish(s: Scan): Parts {
    if s.param == [] then Parts(true, s.params, s.out)
    else Parts(true, s.params + [":" + s.param], if s.paramsNum > 0 then s.out + "(.+)" else s.out)
  }

  function PartsOf(key: string): Parts {
    if key != [] && key[0] == '*' then
      (if key == "*.*" then Parts(true, [".", ":path", ":ext"], "") else Parts(true, [":splat"], ""))
    else if ':' in key then Finish(ScanFrom(key, 0, SCAN_START))
    else Parts(false, [], "")
  }

  /** splitSegment. */
  method SplitSegment(key: string) returns (p: Parts)
    ensures p == PartsOf(key)
  {
    if key != [] && key[0] == '*' {
      if key == "*.*" {
        return Parts(true, [".", ":path", ":ext"], "");
      }
      return Parts(true, [":splat"], "");
    }
    if ':' in key {
      var s := SCAN_START;
      for i := 0 to |key|
        invariant ScanFrom(key, 0, SCAN_START) == ScanFrom(key, i, s)
      {
        s := ScanChar(key, i, s);
      }
      return Finish(s);
    }
    return Parts(false, [], "");
  }

  // ---- what the documented forms mean ----

  predicate IsName(name: string) {
    name != [] && forall i | 0 <= i < |name| :: NameChar(name[i])
  }

  // The characters of a name are collected.
  lemma {:induction false} ScanName(key: string, i: nat, j: nat, s: Scan)
    requires i <= j <= |key| && s.start && s.skip == 0 && forall k | i <= k < j :: NameChar(key[k])
    ensures ScanFrom(key, i, s) == ScanFrom(key, j, s.(param := s.param + key[i..j]))
    decreases j - i
  {
    if i == j {
      assert s.param + key[i..j] == s.param;
    } else {
      assert key[i] != ':';
      ScanName(key, i + 1, j, s.(param := s.param + [key[i]]));
      assert s.param + key[i..j] == s.param + [key[i]] + key[i + 1..j];
    }
  }

  // The loop over a colon and the name behind it.
  lemma ScanToName(key: string, name: string)
    requires IsName(name) && |key| > |name| && key[0] == ':' && key[1..|name| + 1] == name
    ensures ScanFrom(key, 0, SCAN_START) == ScanFrom(key, |name| + 1, SCAN_START.(start := true, param := name))
  {
    var n, s := |name| + 1, SCAN_START.(start := true);
    assert ScanChar(key, 0, SCAN_START) == s;
    assert forall k | 1 <= k < n :: key[k] == name[k - 1];
    ScanName(key, 1, n, s);
    assert [] + name == name;
  }

  // A segment without parameters.
  predicate Static(seg: string) {
    Whole(seg) && ':' !in seg && seg[0] != '*'
  }

  lemma StaticParts(seg: string)
    requires Static(seg)
    ensures PartsOf(seg) == Parts(false, [], "")
  {
  }

  /** ":name" is one parameter without an expression. */
  lemma ParamParts(name: string)
    requires IsName(name)
    ensures PartsOf(":" + name) == Parts(true, [":" + name], "")
  {
    var key := ":" + name;
    assert key[0] == ':' && key[1..|key|] == name;
    ScanToName(key, name);
  }

  /** "?:name" is a parameter that may be left out. */
  lemma OptionalParts(name: string)
    requires IsName(name)
    ensures PartsOf("?:" + name) == Parts(true, [":", ":" + name], "")
  {
    var key := "?:" + name;
    assert key[0] == '?' && key[1] == ':' && key[2..|key|] == name;
    var s := ScanChar(key, 0, SCAN_START);
    assert s == SCAN_START.(params := [":"]);
    var s2 := ScanChar(key, 1, s);
    assert s2 == s.(start := true);
    assert forall k | 2 <= k < |key| :: key[k] == name[k - 2];
    ScanName(key, 2, |key|, s2);
    assert [] + name == name;
    assert ScanFrom(key, 0, SCAN_START) == ScanFrom(key, 1, s) == ScanFrom(key, 2, s2);
  }

  // A skipped stretch at the end changes nothing.
  lemma {:induction false} ScanSkips(key: string, i: nat, s: Scan)
    requires i <= |key| && s.skip == |key| - i
    ensures ScanFrom(key, i, s) == s.(skip := 0)
    decreases |key| - i
  {
    if i < |key| {
      ScanSkips(key, i + 1, s.(skip := s.skip - 1));
    }
  }

  /** ":name:int" is a parameter of digits. */
  lemma IntParts(name: string)
    requires IsName(name)
    ensures PartsOf(":" + name + ":int") == Parts(true, [":" + name], "([0-9]+)")
  {
    var key, n := ":" + name + ":int", 1 + |name|;
    assert key[0] == ':' && key[1..n] == name && key[n] == ':' && key[n + 1..n + 4] == "int";
    ScanToName(key, name);
    var s := SCAN_START.(start := true, param := name);
    var s2 := ScanChar(key, n, s);
    assert s2 == s.EndParam("([0-9]+)", 3);
    ScanSkips(key, n + 1, s2);
    assert ScanFrom(key, n, s) == ScanFrom(key, n + 1, s2);
  }

  // The characters of an expression are collected.
  lemma {:induction false} ScanExpression(key: string, i: nat, j: nat, s: Scan)
    requires i <= j <= |key| && s.startExp && !s.start && s.skip == 0 && forall k | i <= k < j :: key[k] != ')'
    ensures ScanFrom(key, i, s) == ScanFrom(key, j, s.(expt := s.expt + key[i..j]))
    decreases j - i
  {
    if i == j {
      assert s.expt + key[i..j] == s.expt;
    } else {
      ScanExpression(key, i + 1, j, s.(expt := s.expt + [key[i]]));
      assert s.expt + key[i..j] == s.expt + [key[i]] + key[i + 1..j];
    }
  }

  // The loop up to the parenthesis behind a name.
  lemma ScanToExpression(key: string, name: string)
    requires IsName(name) && |key| > |name| + 1 && key[0] == ':' && key[1..|name| + 1] == name && key[|name| + 1] == '('
    ensures ScanFrom(key, 0, SCAN_START)
      == ScanFrom(key, |name| + 2, Scan(0, false, true, [], "(", [":" + name], [], 1))
  {
    var n, s := |name| + 1, SCAN_START.(start := true, param := name);
    ScanToName(key, name);
    assert key[n - 1] == name[|name| - 1];
    assert ScanChar(key, n, s) == Scan(0, false, true, [], "(", [":" + name], [], 1);
  }

  /** ":name(expression)" is a parameter with that expression. */
  lemma ExpressionParts(name: string, exp: string)
    requires IsName(name) && ')' !in exp && (exp != [] ==> exp[|exp| - 1] != '\\')
    ensures PartsOf(":" + name + "(" + exp + ")") == Parts(true, [":" + name], "(" + exp + ")")
  {
    var key, n := ":" + name + "(" + exp + ")", |name| + 2;
    var m := n + |exp|;
    assert |key| == m + 1 && key[0] == ':' && key[1..|name| + 1] == name && key[|name| + 1] == '(' && key[m] == ')';
    assert key[n..m] == exp;
    ScanToExpression(key, name);
    var s := Scan(0, false, true, [], "(", [":" + name], [], 1);
    assert forall k | n <= k < m :: key[k] == exp[k - n];
    ScanExpression(key, n, m, s);
    EndOfExpression(key, m, s.(expt := "(" + exp));
    assert [] + ("(" + exp + ")") == "(" + exp + ")";
  }

  lemma EndOfExpression(key: string, m: nat, s: Scan)
    requires 0 < m == |key| - 1 && key[m] == ')' && key[m - 1] != '\\' && s.startExp && !s.start && s.skip == 0
    ensures ScanFrom(key, m, s)
      == s.(startExp := false, expt := s.expt + ")", out := s.out + (s.expt + ")"), param := [])
  {
  }

  /** ":name:string" is a parameter of letters, digits and underscores. */
  lemma StringParts(name: string)
    requires IsName(name)
    ensures PartsOf(":" + name + ":string") == Parts(true, [":" + name], "([\\w]+)")
  {
    var key, n := ":" + name + ":string", 1 + |name|;
    assert key[0] == ':' && key[1..n] == name && key[n] == ':' && key[n + 1..n + 7] == "string" && key[n + 1] == 's';
    ScanToName(key, name);
    var s := SCAN_START.(start := true, param := name);
    var s2 := ScanChar(key, n, s);
    assert !TypeAt(key, n, "int") by {
      assert "int"[0] == 'i';
      assert n + 4 <= |key| ==> key[n + 1..n + 4][0] == 's';
    }
    assert s2 == s.EndParam("([\\w]+)", 6);
    ScanSkips(key, n + 1, s2);
    assert ScanFrom(key, n, s) == ScanFrom(key, n + 1, s2);
  }

  // ---- several parameters in a segment ----

  // Text outside of names and expressions is kept.
  lemma {:induction false} ScanText(key: string, i: nat, j: nat, s: Scan)
    requires i <= j <= |key| && !s.start && !s.startExp && s.skip == 0
    requires forall k | i <= k < j :: NameChar(key[k]) || key[k] == '.'
    ensures ScanFrom(key, i, s) == ScanFrom(key, j, s.(out := s.out + key[i..j]))
    decreases j - i
  {
    if i == j {
      assert s.out + key[i..j] == s.out;
    } else {
      assert ScanChar(key, i, s) == s.(out := s.out + [key[i]]);
      ScanText(key, i + 1, j, s.(out := s.out + [key[i]]));
      assert s.out + key[i..j] == s.out + [key[i]] + key[i + 1..j];
    }
  }

  // A colon starts a name.
  lemma ScanColon(key: string, i: nat, s: Scan)
    requires i < |key| && key[i] == ':' && (i > 0 ==> key[i - 1] != '\\') && !s.start && !s.startExp && s.skip == 0
    ensures ScanChar(key, i, s) == s.(param := [], start := true)
  {
  }

  // The end of a name at another parameter, or at a dot.
  lemma ScanNameEnds(key: string, i: nat, s: Scan)
    requires 0 < i < |key| && key[i - 1] != '\\' && s.start && !s.startExp && s.skip == 0
    requires key[i] == '.' || (key[i] == ':' && !TypeAt(key, i, "int") && !TypeAt(key, i, "string"))
    ensures ScanChar(key, i, s) ==
      var e := s.EndParam("(.+)", 0);
      if key[i] == '.' then e.(out := e.out + ".") else e.(param := [], start := true)
  {
  }

  // A segment of text, a parameter and whatever follows, up to the end of the parameter's name.
  lemma ScanFirstName(key: string, text: string, a: string)
    requires forall k | 0 <= k < |text| :: NameChar(text[k])
    requires IsName(a) && |key| > |text| + |a| && key[..|text|] == text && key[|text|] == ':'
    requires key[|text| + 1..|text| + 1 + |a|] == a
    ensures ScanFrom(key, 0, SCAN_START)
      == ScanFrom(key, |text| + 1 + |a|, SCAN_START.(out := text, start := true, param := a))
  {
    var n := |text|;
    assert forall k | 0 <= k < n :: key[k] == text[k];
    ScanText(key, 0, n, SCAN_START);
    assert SCAN_START.out + key[0..n] == text;
    assert n > 0 ==> key[n - 1] == text[n - 1];
    ScanNamed(key, n, a, SCAN_START.(out := text));
  }

  // A colon and the name behind it, whatever stood before.
  lemma ScanNamed(key: string, i: nat, a: string, s: Scan)
    requires IsName(a) && i + |a| < |key| && key[i] == ':' && key[i + 1..i + 1 + |a|] == a
    requires (i > 0 ==> key[i - 1] != '\\') && !s.start && !s.startExp && s.skip == 0
    ensures ScanFrom(key, i, s) == ScanFrom(key, i + 1 + |a|, s.(start := true, param := a))
  {
    ScanColon(key, i, s);
    var s2 := s.(param := [], start := true);
    assert forall k | i + 1 <= k < i + 1 + |a| :: key[k] == a[k - i - 1];
    ScanName(key, i + 1, i + 1 + |a|, s2);
    assert [] + a == a;
  }

  // A name from the colon before it to the dot behind it.
  lemma ScanNamedDot(key: string, i: nat, b: string, s: Scan)
    requires IsName(b) && i + |b| < |key| && key[i..i + |b|] == b && key[i + |b|] == '.'
    requires s.start && s.param == [] && !s.startExp && s.skip == 0
    ensures ScanFrom(key, i, s) == ScanFrom(key, i + |b| + 1,
      s.(start := false, out := s.out + "(.+)" + ".", params := s.params + [":" + b], paramsNum := s.paramsNum + 1))
  {
    var j := i + |b|;
    assert forall k | i <= k < j :: key[k] == b[k - i];
    ScanName(key, i, j, s);
    assert [] + b == b && key[j - 1] == b[|b| - 1];
    ScanNameEnds(key, j, s.(param := b));
  }

  // The end of a segment: a dot and text.
  lemma ScanEnding(key: string, i: nat, ext: string, s: Scan)
    requires i + |ext| == |key| && key[i..] == ext && forall k | 0 <= k < |ext| :: NameChar(ext[k])
    requires !s.start && !s.startExp && s.skip == 0
    ensures ScanFrom(key, i, s) == s.(out := s.out + ext)
  {
    assert forall k | i <= k < |key| :: key[k] == key[i..][k - i];
    ScanText(key, i, |key|, s);
    assert key[i..|key|] == ext;
  }

  // A parameter does not start with the name of a type.
  predicate Untyped(b: string) {
    !(|b| >= 3 && b[..3] == "int") && !(|b| >= 6 && b[..6] == "string")
  }

  /** "text:a:b.ext", as in "cms_:id_:page.html": two parameters, each for anything, with the text around them. */
  lemma TwoParamParts(text: string, a: string, b: string, ext: string)
    requires IsName(a) && IsName(b) && Untyped(b)
    requires (forall k | 0 <= k < |text| :: NameChar(text[k])) && (forall k | 0 <= k < |ext| :: NameChar(ext[k]))
    ensures PartsOf(text + ":" + a + ":" + b + "." + ext)
      == Parts(true, [":" + a, ":" + b], text + "(.+)" + "(.+)" + "." + ext)
  {
    var key := text + ":" + a + ":" + b + "." + ext;
    TwoParamKey(text, a, b, ext);
    TwoParamScan(key, text, a, b, ext);
    assert [":" + a] + [":" + b] == [":" + a, ":" + b];
  }

  // Where the pieces of such a segment stand.
  ghost predicate TwoParamAt(key: string, text: string, a: string, b: string, ext: string) {
    var n := |text| + 1 + |a|;
    && |key| == n + |b| + 2 + |ext| && key[..|text|] == text && key[|text|] == ':' && key[|text| + 1..n] == a
    && key[n] == ':' && key[n + 1..] == b + "." + ext
  }

  lemma TwoParamKey(text: string, a: string, b: string, ext: string)
    ensures TwoParamAt(text + ":" + a + ":" + b + "." + ext, text, a, b, ext)
  {
  }

  lemma TwoParamScan(key: string, text: string, a: string, b: string, ext: string)
    requires IsName(a) && IsName(b) && Untyped(b) && TwoParamAt(key, text, a, b, ext)
    requires (forall k | 0 <= k < |text| :: NameChar(text[k])) && (forall k | 0 <= k < |ext| :: NameChar(ext[k]))
    ensures ScanFrom(key, 0, SCAN_START)
      == Scan(0, false, false, [], [], [":" + a] + [":" + b], text + "(.+)" + "(.+)" + "." + ext, 2)
  {
    var n := |text| + 1 + |a|;
    ScanFirstName(key, text, a);
    var s := SCAN_START.(out := text, start := true, param := a);
    assert key[n - 1] == key[|text| + 1..n][|a| - 1];
    NoTypeAt(key, n, b, ext);
    ScanNameEnds(key, n, s);
    var s2 := Scan(0, true, false, [], [], [":" + a], text + "(.+)", 1);
    assert [] + [":" + a] == [":" + a] && ScanChar(key, n, s) == s2;
    SecondParam(key, n + 1, b, ext, s2);
  }

  lemma SecondParam(key: string, i: nat, b: string, ext: string, s: Scan)
    requires IsName(b) && i <= |key| && key[i..] == b + "." + ext && forall k | 0 <= k < |ext| :: NameChar(ext[k])
    requires s.start && s.param == [] && !s.startExp && s.skip == 0
    ensures ScanFrom(key, i, s) == s.(start := false, out := s.out + "(.+)" + "." + ext,
      params := s.params + [":" + b], paramsNum := s.paramsNum + 1)
  {
    var j, rest := i + |b|, b + "." + ext;
    assert |key| == i + |rest| && key[i..j] == rest[..|b|] == b && key[j] == rest[|b|] && key[j + 1..] == ext;
    ScanNamedDot(key, i, b, s);
    var s2 := s.(start := false, out := s.out + "(.+)" + ".", params := s.params + [":" + b],
                 paramsNum := s.paramsNum + 1);
    ScanEnding(key, j + 1, ext, s2);
    assert s.out + "(.+)" + "." + ext == s2.out + ext;
  }

  lemma NoTypeAt(key: string, n: nat, b: string, ext: string)
    requires Untyped(b) && n < |key| && key[n + 1..] == b + "." + ext
    ensures !TypeAt(key, n, "int") && !TypeAt(key, n, "string")
  {
    var rest := b + "." + ext;
    if |b| >= 3 {
      assert n + 4 <= |key| && key[n + 1..n + 4] == rest[..3] == b[..3];
    } else {
      assert rest[|b|] == '.' && 3 <= |rest| ==> rest[..3][|b|] == '.';
      assert n + 4 <= |key| ==> key[n + 1..n + 4] == rest[..3];
      assert '.' !in "int";
    }
    if |b| >= 6 {
      assert n + 7 <= |key| && key[n + 1..n + 7] == rest[..6] == b[..6];
    } else {
      assert 6 <= |rest| ==> rest[..6][|b|] == '.';
      assert n + 7 <= |key| ==> key[n + 1..n + 7] == rest[..6];
      assert '.' !in "string";
    }
  }

  // The end of an expression in the middle of a segment.
  lemma ScanExpressionEnds(key: string, m: nat, s: Scan)
    requires 0 < m < |key| && key[m] == ')' && key[m - 1] != '\\' && s.startExp && !s.start && s.skip == 0
    ensures ScanChar(key, m, s)
      == s.(startExp := false, expt := s.expt + ")", out := s.out + (s.expt + ")"), param := [])
  {
  }

  /** ":a(expression)text:b", as in ":id([0-9]+)_:name": the second parameter is for anything. */
  lemma ExpressionThenParam(a: string, exp: string, text: string, b: string)
    requires IsName(a) && IsName(b) && ')' !in exp && (exp != [] ==> exp[|exp| - 1] != '\\')
    requires forall k | 0 <= k < |text| :: NameChar(text[k])
    ensures PartsOf(":" + a + "(" + exp + ")" + text + ":" + b)
      == Parts(true, [":" + a, ":" + b], "(" + exp + ")" + text + "(.+)")
  {
    var key, n := ":" + a + "(" + exp + ")" + text + ":" + b, |a| + 2;
    var m := n + |exp|;
    var c := m + 1 + |text|;
    assert key[0] == ':' && key[1..|a| + 1] == a && key[|a| + 1] == '(' && key[n..m] == exp && key[m] == ')';
    assert key[m + 1..c] == text && key[c] == ':' && key[c + 1..c + 1 + |b|] == b && c + 1 + |b| == |key|;
    ScanToExpression(key, a);
    var s := Scan(0, false, true, [], "(", [":" + a], [], 1);
    assert forall k | n <= k < m :: key[k] == exp[k - n];
    ScanExpression(key, n, m, s);
    ExpressionTail(key, m, c, exp, text, b, s.(expt := "(" + exp));
    var r := Scan(0, true, false, b, "(" + exp + ")", [":" + a], "(" + exp + ")" + text, 1);
    assert ScanFrom(key, 0, SCAN_START) == r;
    assert [":" + a] + [":" + b] == [":" + a, ":" + b];
  }

  lemma ExpressionTail(key: string, m: nat, c: nat, exp: string, text: string, b: string, s: Scan)
    requires 0 < m < c < |key| && key[m] == ')' && key[m - 1] != '\\' && key[m + 1..c] == text && key[c] == ':'
    requires IsName(b) && key[c + 1..] == b && forall k | 0 <= k < |text| :: NameChar(text[k])
    requires s == Scan(0, false, true, [], "(" + exp, s.params, [], 1)
    ensures ScanFrom(key, m, s) == Scan(0, true, false, b, "(" + exp + ")", s.params, "(" + exp + ")" + text, 1)
  {
    ScanExpressionEnds(key, m, s);
    var s2 := Scan(0, false, false, [], "(" + exp + ")", s.params, "(" + exp + ")", 1);
    assert [] + ("(" + exp + ")") == "(" + exp + ")";
    assert ScanChar(key, m, s) == s2;
    assert forall k | m + 1 <= k < c :: key[k] == text[k - m - 1];
    ScanText(key, m + 1, c, s2);
    var s3 := s2.(out := s2.out + text);
    assert key[c - 1] == if text == [] then ')' else text[|text| - 1];
    assert key[c + 1..c + 1 + |b|] == b;
    ScanNamed(key, c, b, s3);
  }
}
