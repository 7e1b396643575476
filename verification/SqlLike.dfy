/** LIKE patterns: how GenerateOperatorSQL makes one of a text, and which texts the database then finds. */
module SqlLike {
  // ---- what LIKE matches ----

  // A percent sign stands for any text, an underscore for one character, and a backslash escapes what follows.
  predicate Like(p: string, s: string)
    decreases |p|
  {
    if p == [] then s == []
    else if p[0] == '%' then exists k | 0 <= k <= |s| :: Like(p[1..], s[k..])
    else if p[0] == '_' then s != [] && Like(p[1..], s[1..])
    else if p[0] == '\\' then |p| >= 2 && s != [] && s[0] == p[1] && Like(p[2..], s[1..])
    else s != [] && s[0] == p[0] && Like(p[1..], s[1..])
  }

  // ---- patterns ----

  datatype Place = Anywhere | AtStart | AtEnd | Alone

  // strings.Replace of the percent signs.
  function Escaped(t: string): string {
    if t == [] then [] else (if t[0] == '%' then "\\%" else [t[0]]) + Escaped(t[1..])
  }

  function Before(at: Place): string { if at.Anywhere? || at.AtEnd? then "%" else "" }
  function Behind(at: Place): string { if at.Anywhere? || at.AtStart? then "%" else "" }

  function Pattern(at: Place, t: string): string {
    Before(at) + Escaped(t) + Behind(at)
  }

  // The text stands where the pattern asks for it.
  ghost predicate StandsAt(at: Place, t: string, s: string) {
    match at
    case Anywhere => exists k :: StandsFrom(t, s, k)
    case AtStart => StandsFrom(t, s, 0)
    case AtEnd => StandsFrom(t, s, |s| - |t|)
    case Alone => s == t
  }

  predicate StandsFrom(t: string, s: string, k: int) {
    0 <= k <= |s| - |t| && s[k..k + |t|] == t
  }

  // No character of the text means anything else in a pattern.
  predicate Literal(t: string) {
    '_' !in t && '\\' !in t
  }

  // ---- literal texts ----

  lemma LikePercent(q: string, s: string)
    ensures Like("%" + q, s) <==> exists k | 0 <= k <= |s| :: Like(q, s[k..])
  {
    assert ("%" + q)[1..] == q;
  }

  lemma LikeAll(s: string)
    ensures Like("%", s)
  {
    assert "%"[1..] == [] && s[|s|..] == [];
    assert Like("%"[1..], s[|s|..]);
  }

  // The pattern of a literal text matches the text and nothing else.
  lemma {:induction false} LiteralLike(t: string, q: string, s: string)
    requires Literal(t)
    ensures Like(Escaped(t) + q, s) <==> |t| <= |s| && s[..|t|] == t && Like(q, s[|t|..])
  {
    if t == [] {
      assert Escaped(t) + q == q && s[0..] == s;
    } else {
      assert t[0] in t;
      HeadLike(t, q, s);
      if s != [] {
        LiteralLike(t[1..], q, s[1..]);
        PrefixStep(t, s);
      }
    }
  }

  lemma PrefixStep(t: string, s: string)
    requires t != [] && s != []
    ensures |t| <= |s| && s[..|t|] == t <==> s[0] == t[0] && |t[1..]| <= |s[1..]| && s[1..][..|t[1..]|] == t[1..]
    ensures |t| <= |s| ==> s[1..][|t[1..]|..] == s[|t|..]
  {
    if |t| <= |s| {
      assert s[..|t|] == [s[0]] + s[1..][..|t| - 1] && t == [t[0]] + t[1..];
    }
  }

  // The first character of a pattern, other than a backslash.
  lemma HeadLike(t: string, q: string, s: string)
    requires t != [] && t[0] != '\\'
    ensures Like(Escaped(t) + q, s) <==>
      s != [] && (t[0] == '_' || s[0] == t[0]) && Like(Escaped(t[1..]) + q, s[1..])
  {
    var p, u := Escaped(t) + q, Escaped(t[1..]) + q;
    if t[0] == '%' {
      assert p == ['\\', '%'] + u;
      LikeEscape('%', u, s);
    } else {
      assert p == [t[0]] + u;
      LikeOne(t[0], u, s);
    }
  }

  lemma LikeOne(c: char, q: string, s: string)
    requires c != '%' && c != '\\'
    ensures Like([c] + q, s) <==> s != [] && (c == '_' || s[0] == c) && Like(q, s[1..])
  {
    assert ([c] + q)[1..] == q;
  }

  lemma LikeEscape(c: char, q: string, s: string)
    ensures Like(['\\', c] + q, s) <==> s != [] && s[0] == c && Like(q, s[1..])
  {
    assert (['\\', c] + q)[2..] == q;
  }

  lemma BehindLike(at: Place, s: string)
    ensures Like(Behind(at), s) <==> at.Anywhere? || at.AtStart? || s == []
  {
    if at.Anywhere? || at.AtStart? {
      LikeAll(s);
    }
  }

  lemma LiteralFound(at: Place, t: string, s: string)
    requires Literal(t)
    ensures Like(Pattern(at, t), s) <==> StandsAt(at, t, s)
  {
    var q := Escaped(t) + Behind(at);
    forall k | 0 <= k <= |s|
      ensures Like(q, s[k..]) <==> StandsFrom(t, s, k) && (at.Anywhere? || at.AtStart? || k == |s| - |t|)
    {
      LiteralLike(t, Behind(at), s[k..]);
      if k + |t| <= |s| {
        BehindLike(at, s[k..][|t|..]);
        assert s[k..][..|t|] == s[k..k + |t|];
      }
    }
    if at.Anywhere? || at.AtEnd? {
      assert Pattern(at, t) == "%" + q;
      LikePercent(q, s);
    } else {
      assert Pattern(at, t) == q && s[0..] == s;
    }
  }

  // ---- other texts ----

  ghost predicate Matchless(p: string) {
    forall s :: !Like(p, s)
  }

  // A text of characters of another one, of patterns, and one more.
  predicate MadeOf(s: string, t: string, x: char) {
    forall i | 0 <= i < |s| :: s[i] in t || s[i] in {'\\', '%', x}
  }

  // A text that a pattern finds, no longer than the one it was made of and not that one unless that is literal.
  ghost predicate Stray(t: string, q: string, s: string, x: char) {
    Like(Escaped(t) + q, s) && |s| <= |t| && (!Literal(t) ==> s != t) && MadeOf(s, t, x)
  }

  // One character stands for those an underscore may stand for.
  lemma {:induction false} StrayMatch(t: string, q: string, x: char) returns (s: string)
    requires (q == "" || q == "%") && x != '_'
    ensures Matchless(Escaped(t) + q) || Stray(t, q, s, x)
    decreases |t|
  {
    var p := Escaped(t) + q;
    if t == [] {
      s := [];
      assert p == q;
      LikeAll([]);
    } else if t[0] == '\\' {
      s := StrayBackslash(t, q, x);
    } else {
      var rest := StrayMatch(t[1..], q, x);
      var c := if t[0] == '_' then x else t[0];
      s := [c] + rest;
      if Stray(t[1..], q, rest, x) {
        HeadLike(t, q, s);
        StrayHead(t, rest, c, x);
      } else {
        forall y ensures !Like(p, y) {
          HeadLike(t, q, y);
        }
      }
    }
  }

  lemma StrayHead(t: string, rest: string, c: char, x: char)
    requires t != [] && x != '_' && c == (if t[0] == '_' then x else t[0]) && t[0] != '\\'
    requires |rest| <= |t| - 1 && (!Literal(t[1..]) ==> rest != t[1..]) && MadeOf(rest, t[1..], x)
    ensures var s := [c] + rest; s[1..] == rest && (!Literal(t) ==> s != t) && MadeOf(s, t, x)
  {
    var s := [c] + rest;
    assert s[1..] == rest && t == [t[0]] + t[1..];
  }

  lemma {:induction false} StrayBackslash(t: string, q: string, x: char) returns (s: string)
    requires (q == "" || q == "%") && x != '_' && t != [] && t[0] == '\\'
    ensures Matchless(Escaped(t) + q) || Stray(t, q, s, x)
    decreases |t|, 0
  {
    var p := Escaped(t) + q;
    if |t| == 1 {
      // the backslash escapes what the pattern has behind it
      s := "%";
      assert t[1..] == [] && Escaped(t) == "\\" && p == "\\" + q;
      if q == "%" {
        assert p[0] == '\\' && p[1] == '%' && p[2..] == [] && s[1..] == [];
        assert Like([], []);
        assert s != t;
      }
    } else {
      var rest := StrayMatch(t[2..], q, x);
      s := (if t[1] == '%' then ['\\'] else [t[1]]) + rest;
      var u := Escaped(t[2..]) + q;
      BackslashLike(t, q);
      assert s[1..] == rest;
      if t[1] == '%' {
        LikePercent(u, rest);
        assert rest[0..] == rest;
        forall y ensures Matchless(u) ==> !Like("%" + u, y) {
          LikePercent(u, y);
        }
      }
    }
  }

  // A backslash escapes the character behind it, or the backslash in front of a percent sign.
  lemma BackslashLike(t: string, q: string)
    requires |t| >= 2 && t[0] == '\\'
    ensures var u := Escaped(t[2..]) + q;
      forall s :: Like(Escaped(t) + q, s) <==>
        if t[1] == '%' then s != [] && s[0] == '\\' && Like("%" + u, s[1..])
        else s != [] && s[0] == t[1] && Like(u, s[1..])
  {
    var p, u := Escaped(t) + q, Escaped(t[2..]) + q;
    assert t[1..][1..] == t[2..] && t[1..][0] == t[1];
    if t[1] == '%' {
      assert Escaped(t) == "\\" + ("\\%" + Escaped(t[2..]));
      assert p == ['\\', '\\'] + ("%" + u);
      forall s ensures Like(p, s) <==> s != [] && s[0] == '\\' && Like("%" + u, s[1..]) {
        LikeEscape('\\', "%" + u, s);
      }
    } else {
      assert Escaped(t) == "\\" + ([t[1]] + Escaped(t[2..]));
      assert p == ['\\', t[1]] + u;
      forall s ensures Like(p, s) <==> s != [] && s[0] == t[1] && Like(u, s[1..]) {
        LikeEscape(t[1], u, s);
      }
    }
  }

  // A text that stands somewhere in another is no longer, and is the other if it is as long.
  lemma StandsOnlyInLonger(at: Place, t: string, s: string)
    requires StandsAt(at, t, s)
    ensures |t| <= |s| && (|t| == |s| ==> s == t)
  {
    if at.Anywhere? {
      var k :| StandsFrom(t, s, k);
      assert |t| == |s| ==> k == 0 && s[0..|s|] == s;
    } else {
      assert |t| == |s| ==> s[0..|s|] == s;
    }
  }

  lemma StandsInItself(at: Place, t: string)
    ensures StandsAt(at, t, t)
  {
    assert t[0..|t|] == t;
    assert StandsFrom(t, t, 0);
  }

  /** The database finds exactly the texts that contain, start with, end in or are the given one, if that has no
      underscore and no backslash, and for no other text. */
  lemma FoundIff(at: Place, t: string)
    ensures (forall s :: Like(Pattern(at, t), s) <==> StandsAt(at, t, s)) <==> Literal(t)
  {
    if Literal(t) {
      forall s ensures Like(Pattern(at, t), s) <==> StandsAt(at, t, s) {
        LiteralFound(at, t, s);
      }
    } else {
      var s := Misjudged(at, t, 'x');
    }
  }

  // A text on which the pattern of one that is not literal is wrong.
  lemma Misjudged(at: Place, t: string, x: char) returns (s: string)
    requires !Literal(t) && x != '_'
    ensures !(Like(Pattern(at, t), s) <==> StandsAt(at, t, s)) && MadeOf(s, t, x)
  {
    var q := Escaped(t) + Behind(at);
    assert Pattern(at, t) == Before(at) + q;
    s := StrayMatch(t, Behind(at), x);
    if Matchless(q) {
      s := t;
      StandsInItself(at, t);
      NothingInFront(at, q, t);
    } else {
      InFront(at, q, s);
      if StandsAt(at, t, s) {
        StandsOnlyInLonger(at, t, s);
      }
    }
  }

  lemma InFront(at: Place, q: string, s: string)
    requires Like(q, s)
    ensures Like(Before(at) + q, s)
  {
    if at.Anywhere? || at.AtEnd? {
      LikePercent(q, s);
      assert s[0..] == s;
    } else {
      assert Before(at) + q == q;
    }
  }

  lemma NothingInFront(at: Place, q: string, s: string)
    requires Matchless(q)
    ensures !Like(Before(at) + q, s)
  {
    if at.Anywhere? || at.AtEnd? {
      LikePercent(q, s);
    } else {
      assert Before(at) + q == q;
    }
  }
}
