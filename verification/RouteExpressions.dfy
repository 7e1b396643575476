/** A small engine for regular expressions: anchors, literals, escaped literals and the groups that patterns are made
    of, searched from the left with the longest first choice for a group. */
module RouteExpressions {
  import opened Wrappers
  import opened RouteTree
  import opened RouteSegments
  import opened RouteLeaves

  // What a group is made of: any character but a line feed, any but a slash, or digits.
  datatype Class = Dot | Piece | Digits {
    predicate Has(c: char) {
      match this
      case Dot => c != '\n'
      case Piece => c != '/'
      case Digits => '0' <= c <= '9'
    }

    predicate All(s: string) { forall i | 0 <= i < |s| :: Has(s[i]) }

    function Text(): string {
      match this
      case Dot => "(.+)"
      case Piece => "([^/]+)"
      case Digits => "([0-9]+)"
    }
  }

  datatype Token = Begin | End | Group(kind: Class) | Literal(c: char)

  const SPECIAL: set<char> := {'*', '+', '?', '{', '}', '[', ']', '(', ')', '|', '.'}

  function Prepend(t: Token, ts: Option<seq<Token>>): Option<seq<Token>> {
    if ts.None? then None else Some([t] + ts.value)
  }

  predicate StartsWith(s: string, text: string) {
    |text| <= |s| && s[..|text|] == text
  }

  // The group at the front of an expression.
  function GroupAt(s: string): (r: Option<Class>)
    ensures r.Some? ==> StartsWith(s, r.value.Text())
  {
    if StartsWith(s, Dot.Text()) then Some(Dot)
    else if StartsWith(s, Piece.Text()) then Some(Piece)
    else if StartsWith(s, Digits.Text()) then Some(Digits)
    else None
  }

  // The tokens of an expression; None for one with other constructs.
  function Tokens(s: string): Option<seq<Token>> {
    if s == [] then Some([])
    else if s[0] == '^' then Prepend(Begin, Tokens(s[1..]))
    else if s[0] == '$' then Prepend(End, Tokens(s[1..]))
    else if s[0] == '\\' then
      if |s| == 1 || NameChar(s[1]) then None else Prepend(Literal(s[1]), Tokens(s[2..]))
    else if s[0] == '(' then
      match GroupAt(s) {
        case None => None
        case Some(kind) => Prepend(Group(kind), Tokens(s[|kind.Text()|..]))
      }
    else if s[0] in SPECIAL then None
    else Prepend(Literal(s[0]), Tokens(s[1..]))
  }

  // The groups of a match that starts at place i.
  function MatchAt(ts: seq<Token>, s: string, i: nat): Option<seq<string>>
    requires i <= |s|
    decreases |ts|, 0
  {
    if ts == [] then Some([])
    else
      match ts[0]
      case Begin => if i == 0 then MatchAt(ts[1..], s, i) else None
      case End => if i == |s| then MatchAt(ts[1..], s, i) else None
      case Literal(c) => if i < |s| && s[i] == c then MatchAt(ts[1..], s, i + 1) else None
      case Group(kind) => MatchGroup(kind, ts[1..], s, i, |s|)
  }

  // A group from i to at most j, and then the rest.
  function MatchGroup(kind: Class, ts: seq<Token>, s: string, i: nat, j: nat): Option<seq<string>>
    requires i <= j <= |s|
    decreases |ts|, 1, j
  {
    if j == i then None
    else if kind.All(s[i..j]) && MatchAt(ts, s, j).Some? then Some([s[i..j]] + MatchAt(ts, s, j).value)
    else MatchGroup(kind, ts, s, i, j - 1)
  }

  // The leftmost match from place i on.
  function Search(ts: seq<Token>, s: string, i: nat): Option<seq<string>>
    requires i <= |s|
    decreases |s| - i
  {
    if MatchAt(ts, s, i).Some? then MatchAt(ts, s, i)
    else if i == |s| then None
    else Search(ts, s, i + 1)
  }

  function Find(r: string, s: string): Option<seq<string>> {
    match Tokens(r)
    case None => None
    case Some(ts) => Search(ts, s, 0)
  }

  // leafInfo.match with this engine.
  function Engine(): LeafMatcher {
    Others(Find, PathJoin)
  }

  // ---- repeated anchors ----

  // The last character is a backslash that escapes what comes next.
  predicate Dangling(u: string) {
    u != [] && if u[0] == '\\' then |u| == 1 || Dangling(u[2..]) else Dangling(u[1..])
  }

  lemma {:induction false} TokensAppend(u: string, v: string)
    requires !Dangling(u) && v != [] && v[0] == '$'
    ensures Tokens(u + v) ==
      if Tokens(u).None? || Tokens(v).None? then None else Some(Tokens(u).value + Tokens(v).value)
    decreases |u|
  {
    var w := u + v;
    if u == [] {
      assert w == v;
      assert Tokens(v).Some? ==> [] + Tokens(v).value == Tokens(v).value;
    } else if u[0] == '\\' {
      assert w[1] == u[1] && w[2..] == u[2..] + v;
      TokensAppend(u[2..], v);
      PrependAppend(Literal(u[1]), Tokens(u[2..]), Tokens(v));
    } else if u[0] == '(' {
      GroupAppend(u, v);
      if GroupAt(u).Some? {
        var kind := GroupAt(u).value;
        var n := |kind.Text()|;
        assert w[n..] == u[n..] + v;
        DanglingBehindGroup(u, kind);
        TokensAppend(u[n..], v);
        PrependAppend(Group(kind), Tokens(u[n..]), Tokens(v));
      }
    } else {
      assert w[1..] == u[1..] + v;
      TokensAppend(u[1..], v);
      var t := if u[0] == '^' then Begin else if u[0] == '$' then End else Literal(u[0]);
      PrependAppend(t, Tokens(u[1..]), Tokens(v));
    }
  }

  lemma PrefixAppend(u: string, v: string, text: string)
    requires v != [] && v[0] !in text
    ensures StartsWith(u + v, text) <==> StartsWith(u, text)
  {
    var w := u + v;
    if |text| <= |u| {
      assert w[..|text|] == u[..|text|];
    } else {
      assert |text| <= |w| ==> w[..|text|][|u|] == v[0];
    }
  }

  lemma GroupAppend(u: string, v: string)
    requires v != [] && v[0] == '$'
    ensures GroupAt(u + v) == GroupAt(u)
  {
    PrefixAppend(u, v, Dot.Text());
    PrefixAppend(u, v, Piece.Text());
    PrefixAppend(u, v, Digits.Text());
  }

  lemma {:induction false} DanglingSkips(u: string, n: nat)
    requires n <= |u| && forall i | 0 <= i < n :: u[i] != '\\'
    ensures Dangling(u) == Dangling(u[n..])
  {
    if n > 0 {
      assert u[1..][n - 1..] == u[n..];
      DanglingSkips(u[1..], n - 1);
    } else {
      assert u[0..] == u;
    }
  }

  lemma DanglingBehindGroup(u: string, kind: Class)
    requires StartsWith(u, kind.Text())
    ensures Dangling(u) == Dangling(u[|kind.Text()|..])
  {
    var text := kind.Text();
    assert '\\' !in text;
    forall i | 0 <= i < |text| ensures u[i] != '\\' {
      assert u[i] == text[i];
    }
    DanglingSkips(u, |text|);
  }

  lemma PrependAppend(t: Token, a: Option<seq<Token>>, b: Option<seq<Token>>)
    ensures var c := if a.None? || b.None? then None else Some(a.value + b.value);
      Prepend(t, c) == if Prepend(t, a).None? || b.None? then None else Some(Prepend(t, a).value + b.value)
  {
    if a.Some? && b.Some? {
      assert [t] + (a.value + b.value) == ([t] + a.value) + b.value;
    }
  }

  lemma {:induction false} EndTwice(ts: seq<Token>, s: string, i: nat)
    requires i <= |s|
    ensures MatchAt(ts + [End, End], s, i) == MatchAt(ts + [End], s, i)
    decreases |ts|, 0
  {
    var a, b := ts + [End, End], ts + [End];
    if ts == [] {
      assert a[1..] == [End] && b[1..] == [] && [End][1..] == [];
    } else {
      assert a[1..] == ts[1..] + [End, End] && b[1..] == ts[1..] + [End];
      match ts[0] {
        case Begin => EndTwice(ts[1..], s, i);
        case End => EndTwice(ts[1..], s, i);
        case Literal(c) => if i < |s| { EndTwice(ts[1..], s, i + 1); }
        case Group(kind) => EndTwiceGroup(kind, ts[1..], s, i, |s|);
      }
    }
  }

  lemma {:induction false} EndTwiceGroup(kind: Class, ts: seq<Token>, s: string, i: nat, j: nat)
    requires i <= j <= |s|
    ensures MatchGroup(kind, ts + [End, End], s, i, j) == MatchGroup(kind, ts + [End], s, i, j)
    decreases |ts|, 1, j
  {
    if j > i {
      EndTwice(ts, s, j);
      EndTwiceGroup(kind, ts, s, i, j - 1);
    }
  }

  lemma {:induction false} SearchSame(a: seq<Token>, b: seq<Token>, s: string, i: nat)
    requires i <= |s| && forall k: nat | k <= |s| :: MatchAt(a, s, k) == MatchAt(b, s, k)
    ensures Search(a, s, i) == Search(b, s, i)
    decreases |s| - i
  {
    if i < |s| {
      SearchSame(a, b, s, i + 1);
    }
  }

  lemma FindIgnoresEnd(u: string, s: string)
    requires !Dangling(u)
    ensures Find(u + "$$", s) == Find(u + "$", s)
  {
    assert "$$"[1..] == "$" && "$"[1..] == [];
    assert Tokens([]) == Some([]) && [End] + [] == [End];
    assert Tokens("$") == Prepend(End, Tokens([])) == Some([End]);
    assert Tokens("$$") == Prepend(End, Tokens("$")) == Some([End] + [End]);
    TokensAppend(u, "$");
    TokensAppend(u, "$$");
    if Tokens(u).Some? {
      var ts := Tokens(u).value;
      assert [End] + [End] == [End, End];
      forall k: nat | k <= |s| ensures MatchAt(ts + [End, End], s, k) == MatchAt(ts + [End], s, k) {
        EndTwice(ts, s, k);
      }
      SearchSame(ts + [End, End], ts + [End], s, 0);
    }
  }

  lemma FindIgnoresBegin(u: string, s: string)
    ensures Find("^^" + u, s) == Find("^" + u, s)
  {
    assert ("^^" + u)[1..] == "^" + u && ("^" + u)[1..] == u;
    if Tokens(u).Some? {
      var a, b := [Begin] + ([Begin] + Tokens(u).value), [Begin] + Tokens(u).value;
      assert a[1..] == b && b[1..] == Tokens(u).value;
      SearchSame(a, b, s, 0);
    }
  }

  // ---- what the expressions of patterns find ----

  function Literals(g: string): (ts: seq<Token>)
    ensures |ts| == |g| && forall i | 0 <= i < |g| :: ts[i] == Literal(g[i])
  {
    seq(|g|, i requires 0 <= i < |g| => Literal(g[i]))
  }

  // Characters that stand for themselves.
  predicate Plain(g: string) {
    forall i | 0 <= i < |g| :: NameChar(g[i]) || g[i] == '/'
  }

  lemma {:induction false} PlainTokens(g: string, u: string)
    requires Plain(g)
    ensures Tokens(g + u) == if Tokens(u).None? then None else Some(Literals(g) + Tokens(u).value)
  {
    if g == [] {
      assert g + u == u;
      assert Tokens(u).Some? ==> Literals(g) + Tokens(u).value == Tokens(u).value;
    } else {
      assert (g + u)[1..] == g[1..] + u;
      PlainTokens(g[1..], u);
      if Tokens(u).Some? {
        assert Literals(g) == [Literal(g[0])] + Literals(g[1..]);
        assert Literals(g) + Tokens(u).value == [Literal(g[0])] + (Literals(g[1..]) + Tokens(u).value);
      }
    }
  }

  lemma GroupTokens(kind: Class, u: string)
    ensures Tokens(kind.Text() + u) == Prepend(Group(kind), Tokens(u))
  {
    var w := kind.Text() + u;
    assert w[..|kind.Text()|] == kind.Text() && w[|kind.Text()|..] == u && w[0] == '(';
    assert w[1] == kind.Text()[1];
    assert kind.Piece? || kind.Digits? ==> w[2] == kind.Text()[2] && !StartsWith(w, Dot.Text());
    assert kind.Digits? ==> !StartsWith(w, Piece.Text());
  }

  lemma BeginTokens(u: string)
    ensures Tokens("^" + u) == Prepend(Begin, Tokens(u))
  {
    assert ("^" + u)[1..] == u;
  }

  lemma EndTokens()
    ensures Tokens("$") == Some([End])
  {
    assert "$"[1..] == [] && Tokens([]) == Some([]);
    assert [End] + [] == [End];
  }

  // An expression that starts with an anchor is found at the front or nowhere.
  lemma {:induction false} AnchoredSearch(ts: seq<Token>, s: string, i: nat)
    requires 0 < i <= |s|
    ensures Search([Begin] + ts, s, i) == None
    decreases |s| - i
  {
    if i < |s| {
      AnchoredSearch(ts, s, i + 1);
    }
  }

  lemma AnchoredFind(ts: seq<Token>, s: string)
    ensures Search([Begin] + ts, s, 0) == MatchAt(ts, s, 0)
  {
    assert ([Begin] + ts)[1..] == ts;
    if s != [] {
      AnchoredSearch(ts, s, 1);
    }
  }

  // Literals and an end match exactly the rest of the text.
  lemma {:induction false} LiteralsEnd(g: string, s: string, i: nat)
    requires i <= |s|
    ensures MatchAt(Literals(g) + [End], s, i) == if s[i..] == g then Some([]) else None
    decreases |g|
  {
    var ts := Literals(g) + [End];
    if g == [] {
      assert ts[1..] == [];
    } else {
      assert ts[1..] == Literals(g[1..]) + [End];
      if i < |s| {
        assert s[i..] == [s[i]] + s[i + 1..] && g == [g[0]] + g[1..];
        LiteralsEnd(g[1..], s, i + 1);
      }
    }
  }

  // A group in front of them takes what stands before.
  lemma {:induction false} GroupThenLiterals(kind: Class, g: string, s: string, j: nat)
    requires j <= |s|
    ensures MatchGroup(kind, Literals(g) + [End], s, 0, j) ==
      var k := |s| - |g|;
      if 0 < k <= j && s[k..] == g && kind.All(s[..k]) then Some([s[..k]]) else None
    decreases j
  {
    if j > 0 {
      LiteralsEnd(g, s, j);
      assert s[0..j] == s[..j] && |s[j..]| == |s| - j;
      GroupThenLiterals(kind, g, s, j - 1);
      assert [s[..j]] + [] == [s[..j]];
    }
  }

  /** A group and plain text behind it, anchored at both ends, find exactly the texts that end in it, with what stands
      before as the group. */
  lemma FindGroupThen(kind: Class, g: string, s: string)
    requires Plain(g)
    ensures Find("^" + (kind.Text() + (g + "$")), s) ==
      var k := |s| - |g|;
      if k > 0 && s[k..] == g && kind.All(s[..k]) then Some([s[..k]]) else None
  {
    EndTokens();
    PlainTokens(g, "$");
    GroupTokens(kind, g + "$");
    BeginTokens(kind.Text() + (g + "$"));
    var ts := Literals(g) + [End];
    AnchoredFind([Group(kind)] + ts, s);
    assert ([Group(kind)] + ts)[1..] == ts;
    GroupThenLiterals(kind, g, s, |s|);
  }

  // Two groups with a slash between them, which the first one has no use for.
  lemma {:induction false} TwoGroups(k: Class, l: Class, s: string, a: string, rest: string, j: nat)
    requires s == a + "/" + rest && a != [] && !k.Has('/') && k.All(a) && |a| <= j <= |s| && rest != [] && l.All(rest)
    ensures MatchGroup(k, [Literal('/'), Group(l), End], s, 0, j) == Some([a, rest])
    decreases j
  {
    var ts := [Literal('/'), Group(l), End];
    if j > |a| {
      assert s[0..j][|a|] == '/';
      TwoGroups(k, l, s, a, rest, j - 1);
    } else {
      assert ts[1..] == [Group(l), End] && ts[1..][1..] == [End] && [End][1..] == [];
      assert s[0..j] == a && s[j] == '/' && s[j + 1..|s|] == rest;
      assert MatchAt([End], s, |s|) == Some([]) && [rest] + [] == [rest];
      assert MatchGroup(l, [End], s, j + 1, |s|) == Some([rest]);
      assert MatchAt(ts, s, j) == Some([rest]);
      assert [a] + [rest] == [a, rest];
    }
  }

  /** A group without slashes, a slash and another group. */
  lemma FindTwoGroups(k: Class, l: Class, s: string, a: string, rest: string)
    requires s == a + "/" + rest && a != [] && !k.Has('/') && k.All(a) && rest != [] && l.All(rest)
    ensures Find("^" + (k.Text() + ("/" + (l.Text() + "$"))), s) == Some([a, rest])
  {
    EndTokens();
    GroupTokens(l, "$");
    PlainTokens("/", l.Text() + "$");
    GroupTokens(k, "/" + (l.Text() + "$"));
    BeginTokens(k.Text() + ("/" + (l.Text() + "$")));
    var ts := [Literal('/'), Group(l), End];
    assert Literals("/") + ([Group(l)] + [End]) == ts;
    AnchoredFind([Group(k)] + ts, s);
    assert ([Group(k)] + ts)[1..] == ts;
    TwoGroups(k, l, s, a, rest, |s|);
  }
}
