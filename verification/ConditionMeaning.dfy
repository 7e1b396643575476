/** What a condition tree means, and that its printed form means the same. */
module ConditionMeaning {
  import opened Wrappers
  import opened Conditions
  import opened SqlGrammar

  // ---- the reference reading: an OR of AND-runs ----

  // The end of the AND-run that starts at item i: the next item added with an Or builder.
  function RunEnd(ps: seq<CondValue>, i: nat): (j: nat)
    requires i < |ps|
    ensures i < j <= |ps|
    decreases |ps| - i
  {
    if i + 1 == |ps| || ps[i + 1].isOr then i + 1 else RunEnd(ps, i + 1)
  }

  function ItemValue(p: CondValue, env: Pred -> Truth): Truth
    decreases p, 1
  {
    if p.isNot then NotT(BodyValue(p, env)) else BodyValue(p, env)
  }

  function BodyValue(p: CondValue, env: Pred -> Truth): Truth
    decreases p, 0
  {
    match p
    case Expr(_, _, pred) => env(pred)
    case Nested(_, _, c) => Value(c, env)
  }

  function Value(c: Condition, env: Pred -> Truth): Truth
    decreases c, |c.params| + 1
  {
    if c.params == [] then True else RunsValue(c, 0, env)
  }

  // The OR of the runs from item i on.
  function RunsValue(c: Condition, i: nat, env: Pred -> Truth): Truth
    requires i < |c.params|
    decreases c, |c.params| - i, 1
  {
    var j := RunEnd(c.params, i);
    var run := RunValue(c, i, j, env);
    if j == |c.params| then run else OrT(run, RunsValue(c, j, env))
  }

  // The AND of items i to j.
  function RunValue(c: Condition, i: nat, j: nat, env: Pred -> Truth): Truth
    requires i < j <= |c.params|
    decreases c, j - i, 0
  {
    if i + 1 == j then ItemValue(c.params[i], env)
    else AndT(ItemValue(c.params[i], env), RunValue(c, i + 1, j, env))
  }

  // No condition of the tree is empty.
  predicate WellFormed(c: Condition)
    decreases c
  {
    c.params != [] && forall p | p in c.params :: p.Nested? ==> WellFormed(p.cond)
  }

  predicate ItemWellFormed(p: CondValue) {
    p.Nested? ==> WellFormed(p.cond)
  }

  // ---- the text from item i on ----

  function Suffix(ps: seq<CondValue>, i: nat): seq<Token>
    requires i < |ps|
    decreases |ps| - i
  {
    ItemTokens(ps[i]) + if i + 1 < |ps| then [Connector(ps[i + 1])] + Suffix(ps, i + 1) else []
  }

  lemma {:induction false} PrefixSuffix(c: Condition, i: nat)
    requires i < |c.params|
    ensures PrefixTokens(c, i) + (if i > 0 then [Connector(c.params[i])] else []) + Suffix(c.params, i) == Tokens(c)
    decreases |c.params| - i
  {
    if i + 1 < |c.params| {
      PrefixSuffix(c, i + 1);
    }
  }

  lemma TokensAreSuffix(c: Condition)
    ensures Tokens(c) == if c.params == [] then [] else Suffix(c.params, 0)
  {
    if c.params != [] {
      PrefixSuffix(c, 0);
    }
  }

  // What can follow a condition in a text: nothing, or the parenthesis around it.
  predicate Closing(rest: seq<Token>) {
    rest == [] || rest[0] == RPAREN
  }

  // ---- well-formed trees ----

  // The expression that the reference reading describes.
  function ItemBool(p: CondValue): Bool
    requires ItemWellFormed(p)
    decreases p, 1
  {
    if p.isNot then Not(BodyBool(p)) else BodyBool(p)
  }

  function BodyBool(p: CondValue): Bool
    requires ItemWellFormed(p)
    decreases p, 0
  {
    match p
    case Expr(_, _, pred) => Test(pred)
    case Nested(_, _, c) => RunsBool(c, 0)
  }

  function RunsBool(c: Condition, i: nat): Bool
    requires WellFormed(c) && i < |c.params|
    decreases c, |c.params| - i, 1
  {
    var j := RunEnd(c.params, i);
    if j == |c.params| then RunBool(c, i, j) else Or(RunBool(c, i, j), RunsBool(c, j))
  }

  function RunBool(c: Condition, i: nat, j: nat): Bool
    requires WellFormed(c) && i < j <= |c.params|
    decreases c, j - i, 0
  {
    assert c.params[i] in c.params;
    if i + 1 == j then ItemBool(c.params[i]) else And(ItemBool(c.params[i]), RunBool(c, i + 1, j))
  }

  lemma {:induction false} ItemBoolValue(p: CondValue, env: Pred -> Truth)
    requires ItemWellFormed(p)
    ensures ItemBool(p).Eval(env) == ItemValue(p, env)
    decreases p
  {
    if p.Nested? {
      RunsBoolValue(p.cond, 0, env);
    }
    assert BodyBool(p).Eval(env) == BodyValue(p, env);
  }

  lemma {:induction false} RunsBoolValue(c: Condition, i: nat, env: Pred -> Truth)
    requires WellFormed(c) && i < |c.params|
    ensures RunsBool(c, i).Eval(env) == RunsValue(c, i, env)
    decreases c, |c.params| - i, 1
  {
    var j := RunEnd(c.params, i);
    RunBoolValue(c, i, j, env);
    if j < |c.params| {
      RunsBoolValue(c, j, env);
    }
  }

  lemma {:induction false} RunBoolValue(c: Condition, i: nat, j: nat, env: Pred -> Truth)
    requires WellFormed(c) && i < j <= |c.params|
    ensures RunBool(c, i, j).Eval(env) == RunValue(c, i, j, env)
    decreases c, j - i, 0
  {
    assert c.params[i] in c.params;
    ItemBoolValue(c.params[i], env);
    if i + 1 < j {
      RunBoolValue(c, i + 1, j, env);
    }
  }

  // ---- and its text ----

  // How the parsers read a token in front of what they already understand.
  lemma ParseNegation(ts: seq<Token>, e: Bool, rest: seq<Token>)
    requires ParseNot(ts) == Got(e, rest)
    ensures ParseNot([NOT] + ts) == Got(Not(e), rest)
  {
    assert ([NOT] + ts)[1..] == ts;
  }

  // No expression starts here.
  predicate Stuck(ts: seq<Token>) {
    ts == [] || ts[0] in {AND, OR, RPAREN}
  }

  lemma NothingToParse(ts: seq<Token>)
    requires Stuck(ts)
    ensures ParseNot(ts) == Fail && ParseAnd(ts) == Fail && ParseOr(ts) == Fail
  {
  }

  lemma ParseParenthesis(ts: seq<Token>, e: Bool, rest: seq<Token>)
    requires ParseOr(ts + ([RPAREN] + rest)) == Got(e, [RPAREN] + rest)
    ensures ParseNot([LPAREN] + ts + [RPAREN] + rest) == Got(e, rest)
  {
    var all := [LPAREN] + ts + [RPAREN] + rest;
    assert all[1..] == ts + ([RPAREN] + rest);
    assert ([RPAREN] + rest)[1..] == rest;
  }

  lemma ParseConjunction(item: seq<Token>, e: Bool, more: seq<Token>)
    requires ParseNot(item + ([AND] + more)) == Got(e, [AND] + more)
    ensures ParseAnd(item + ([AND] + more))
      == match ParseAnd(more) case Fail => Fail case Got(f, rest) => Got(And(e, f), rest)
  {
    assert ([AND] + more)[1..] == more;
  }

  lemma ParseDisjunction(run: seq<Token>, e: Bool, more: seq<Token>)
    requires ParseAnd(run) == Got(e, [OR] + more)
    ensures ParseOr(run) == match ParseOr(more) case Fail => Fail case Got(f, rest) => Got(Or(e, f), rest)
  {
    assert ([OR] + more)[1..] == more;
  }

  lemma {:induction false} ItemParses(p: CondValue, rest: seq<Token>)
    requires ItemWellFormed(p)
    ensures ParseNot(ItemTokens(p) + rest) == Got(ItemBool(p), rest)
    decreases p, 1
  {
    BodyParses(p, rest);
    if p.isNot {
      assert ItemTokens(p) + rest == [NOT] + (BodyTokens(p) + rest);
      ParseNegation(BodyTokens(p) + rest, BodyBool(p), rest);
    }
  }

  lemma {:induction false} BodyParses(p: CondValue, rest: seq<Token>)
    requires ItemWellFormed(p)
    ensures ParseNot(BodyTokens(p) + rest) == Got(BodyBool(p), rest)
    decreases p, 0
  {
    match p
    case Expr(_, _, pred) =>
      assert ([PRED(pred)] + rest)[1..] == rest;
    case Nested(_, _, c) =>
      TokensAreSuffix(c);
      RunsParse(c, 0, [RPAREN] + rest);
      assert Tokens(c) != [] by {
        assert [] + ([RPAREN] + rest) == [RPAREN] + rest;
        NothingToParse([RPAREN] + rest);
      }
      assert BodyTokens(p) + rest == [LPAREN] + Tokens(c) + [RPAREN] + rest;
      ParseParenthesis(Tokens(c), RunsBool(c, 0), rest);
  }

  lemma {:induction false} RunParses(c: Condition, i: nat, rest: seq<Token>)
    requires WellFormed(c) && i < |c.params| && Closing(rest)
    ensures var j := RunEnd(c.params, i);
      ParseAnd(Suffix(c.params, i) + rest)
        == Got(RunBool(c, i, j), if j == |c.params| then rest else [OR] + (Suffix(c.params, j) + rest))
    decreases c, |c.params| - i, 0
  {
    var ps := c.params;
    assert ps[i] in ps;
    if i + 1 == |ps| {
      assert Suffix(ps, i) + rest == ItemTokens(ps[i]) + rest;
      ItemParses(ps[i], rest);
    } else {
      var after := Suffix(ps, i + 1) + rest;
      assert Suffix(ps, i) + rest == ItemTokens(ps[i]) + ([Connector(ps[i + 1])] + after);
      ItemParses(ps[i], [Connector(ps[i + 1])] + after);
      if !ps[i + 1].isOr {
        RunParses(c, i + 1, rest);
        ParseConjunction(ItemTokens(ps[i]), ItemBool(ps[i]), after);
      }
    }
  }

  lemma {:induction false} RunsParse(c: Condition, i: nat, rest: seq<Token>)
    requires WellFormed(c) && i < |c.params| && Closing(rest)
    ensures ParseOr(Suffix(c.params, i) + rest) == Got(RunsBool(c, i), rest)
    decreases c, |c.params| - i, 1
  {
    var j := RunEnd(c.params, i);
    RunParses(c, i, rest);
    if j < |c.params| {
      RunsParse(c, j, rest);
      ParseDisjunction(Suffix(c.params, i) + rest, RunBool(c, i, j), Suffix(c.params, j) + rest);
    }
  }

  // ---- trees with an empty condition ----

  lemma {:induction false} ItemFails(p: CondValue, rest: seq<Token>)
    requires !ItemWellFormed(p) && Stuck(rest)
    ensures ParseNot(ItemTokens(p) + rest) == Fail
    decreases p, 1
  {
    var c := p.cond;
    var body := BodyTokens(p) + rest;
    assert ParseNot(body) == Fail by {
      if Tokens(c) == [] {
        assert body == rest;
        NothingToParse(rest);
      } else {
        TokensAreSuffix(c);
        assert body[1..] == Suffix(c.params, 0) + ([RPAREN] + rest);
        var k := FirstIllFormed(c);
        RunsFail(c, 0, k, [RPAREN] + rest);
      }
    }
    if p.isNot {
      assert ItemTokens(p) + rest == [NOT] + body;
      assert ([NOT] + body)[1..] == body;
    }
  }

  lemma FirstIllFormed(c: Condition) returns (k: nat)
    requires !WellFormed(c) && c.params != []
    ensures k < |c.params| && !ItemWellFormed(c.params[k])
  {
    var p :| p in c.params && !ItemWellFormed(p);
    k :| 0 <= k < |c.params| && c.params[k] == p;
  }

  lemma {:induction false} RunFails(c: Condition, i: nat, k: nat, rest: seq<Token>)
    requires i <= k < |c.params| && !ItemWellFormed(c.params[k]) && Closing(rest)
    ensures var r, j := ParseAnd(Suffix(c.params, i) + rest), RunEnd(c.params, i);
      r.Got? ==> j <= k && r.rest == [OR] + (Suffix(c.params, j) + rest)
    decreases c, |c.params| - i, 0
  {
    var ps := c.params;
    var after := if i + 1 < |ps| then [Connector(ps[i + 1])] + (Suffix(ps, i + 1) + rest) else rest;
    assert Suffix(ps, i) + rest == ItemTokens(ps[i]) + after;
    if !ItemWellFormed(ps[i]) {
      ItemFails(ps[i], after);
    } else {
      ItemParses(ps[i], after);
      if !ps[i + 1].isOr {
        RunFails(c, i + 1, k, rest);
        ParseConjunction(ItemTokens(ps[i]), ItemBool(ps[i]), Suffix(ps, i + 1) + rest);
      }
    }
  }

  lemma {:induction false} RunsFail(c: Condition, i: nat, k: nat, rest: seq<Token>)
    requires i <= k < |c.params| && !ItemWellFormed(c.params[k]) && Closing(rest)
    ensures ParseOr(Suffix(c.params, i) + rest) == Fail
    decreases c, |c.params| - i, 1
  {
    var j := RunEnd(c.params, i);
    RunFails(c, i, k, rest);
    if ParseAnd(Suffix(c.params, i) + rest).Got? {
      var e := ParseAnd(Suffix(c.params, i) + rest).e;
      RunsFail(c, j, k, rest);
      ParseDisjunction(Suffix(c.params, i) + rest, e, Suffix(c.params, j) + rest);
    }
  }

  // ---- the promise ----

  /** The text of a tree without empty conditions is an expression with the value of the tree,
      whatever the tests evaluate to. */
  lemma TextMeansTree(c: Condition, env: Pred -> Truth)
    requires WellFormed(c)
    ensures Parsed(Tokens(c)).Some? && Parsed(Tokens(c)).value.Eval(env) == Value(c, env)
  {
    TokensAreSuffix(c);
    assert Suffix(c.params, 0) + [] == Suffix(c.params, 0);
    RunsParse(c, 0, []);
    RunsBoolValue(c, 0, env);
  }

  /** A text is an expression exactly when no condition of the tree is empty. */
  lemma TextParsesIffWellFormed(c: Condition)
    ensures Parsed(Tokens(c)).Some? <==> WellFormed(c)
  {
    if WellFormed(c) {
      TextMeansTree(c, _ => True);
    } else if c.params == [] {
      NothingToParse([]);
    } else {
      TokensAreSuffix(c);
      var k := FirstIllFormed(c);
      assert Suffix(c.params, 0) + [] == Suffix(c.params, 0);
      RunsFail(c, 0, k, []);
    }
  }

  const NO_CONDITION := Condition([])

  /** An empty condition behind a test leaves its connector dangling. */
  lemma EmptyConditionDangles(p: Pred)
    ensures var c := NO_CONDITION.And(p).AndCond(NO_CONDITION); Tokens(c) == [PRED(p), AND] && Parsed(Tokens(c)) == None
  {
    var c := NO_CONDITION.And(p).AndCond(NO_CONDITION);
    var test, none := Expr(false, false, p), Nested(false, false, NO_CONDITION);
    assert c.params == [test, none] && none in c.params;
    assert ItemTokens(test) == BodyTokens(test) == [PRED(p)];
    assert Tokens(NO_CONDITION) == [] && ItemTokens(none) == BodyTokens(none) == [];
    assert PrefixTokens(c, 1) == PrefixTokens(c, 0) + [] + ItemTokens(test) == [PRED(p)];
    assert PrefixTokens(c, 2) == PrefixTokens(c, 1) + [AND] + ItemTokens(none);
    assert !WellFormed(none.cond);
    TextParsesIffWellFormed(c);
  }

  // ---- the builders ----

  lemma {:induction false} RunEndAppended(ps: seq<CondValue>, p: CondValue, i: nat)
    requires i < |ps|
    ensures RunEnd(ps + [p], i) == if RunEnd(ps, i) == |ps| && !p.isOr then |ps| + 1 else RunEnd(ps, i)
    decreases |ps| - i
  {
    if i + 1 < |ps| {
      RunEndAppended(ps, p, i + 1);
    }
  }

  lemma {:induction false} RunValueAppended(c: Condition, p: CondValue, i: nat, j: nat, env: Pred -> Truth)
    requires i < j <= |c.params|
    ensures RunValue(Condition(c.params + [p]), i, j, env) == RunValue(c, i, j, env)
    decreases j - i
  {
    if i + 1 < j {
      RunValueAppended(c, p, i + 1, j, env);
    }
  }

  lemma {:induction false} OrAppended(c: Condition, p: CondValue, i: nat, env: Pred -> Truth)
    requires p.isOr && i < |c.params|
    ensures RunsValue(Condition(c.params + [p]), i, env) == OrT(RunsValue(c, i, env), ItemValue(p, env))
    decreases |c.params| - i
  {
    var d, j := Condition(c.params + [p]), RunEnd(c.params, i);
    RunEndAppended(c.params, p, i);
    RunValueAppended(c, p, i, j, env);
    if j < |c.params| {
      OrAppended(c, p, j, env);
    } else {
      assert RunEnd(d.params, j) == j + 1 && d.params[j] == p;
      assert RunsValue(d, j, env) == RunValue(d, j, j + 1, env) == ItemValue(p, env);
    }
  }

  lemma OneItem(p: CondValue, env: Pred -> Truth)
    ensures Value(Condition([p]), env) == ItemValue(p, env)
  {
    var c := Condition([p]);
    assert RunEnd(c.params, 0) == 1;
    assert RunsValue(c, 0, env) == RunValue(c, 0, 1, env) == ItemValue(c.params[0], env);
  }

  lemma OrItem(c: Condition, p: CondValue, env: Pred -> Truth)
    requires p.isOr
    ensures Value(Condition(c.params + [p]), env) == Alternative(c, ItemValue(p, env), env)
  {
    if c.IsEmpty() {
      assert c.params + [p] == [p];
      OneItem(p, env);
    } else {
      OrAppended(c, p, 0, env);
    }
  }

  // A condition, or the given value; nothing but the value where there is no condition yet.
  function Alternative(c: Condition, v: Truth, env: Pred -> Truth): Truth {
    if c.IsEmpty() then v else OrT(Value(c, env), v)
  }

  /** Whatever an Or builder adds is an alternative to the whole condition so far. */
  lemma OrAdds(c: Condition, p: Pred, d: Condition, env: Pred -> Truth)
    ensures Value(c.Or(p), env) == Alternative(c, env(p), env)
    ensures Value(c.OrNot(p), env) == Alternative(c, NotT(env(p)), env)
    ensures Value(c.OrCond(d), env) == Alternative(c, Value(d, env), env)
    ensures Value(c.OrNotCond(d), env) == Alternative(c, NotT(Value(d, env)), env)
  {
    OrItem(c, Expr(true, false, p), env);
    OrItem(c, Expr(true, true, p), env);
    OrItem(c, Nested(true, false, d), env);
    OrItem(c, Nested(true, true, d), env);
  }

  // The start of the last AND-run, from a run that starts at item i on: the last item added with an Or builder.
  function LastRun(ps: seq<CondValue>, i: nat): (k: nat)
    requires i < |ps|
    ensures i <= k < |ps| && (k > i ==> ps[k].isOr) && forall j | k < j < |ps| :: !ps[j].isOr
    decreases |ps| - i
  {
    NoOrWithin(ps, i);
    if RunEnd(ps, i) == |ps| then i else LastRun(ps, RunEnd(ps, i))
  }

  lemma {:induction false} NoOrWithin(ps: seq<CondValue>, i: nat)
    requires i < |ps|
    ensures forall j | i < j < RunEnd(ps, i) :: !ps[j].isOr
    ensures RunEnd(ps, i) < |ps| ==> ps[RunEnd(ps, i)].isOr
    decreases |ps| - i
  {
    if i + 1 < |ps| && !ps[i + 1].isOr {
      NoOrWithin(ps, i + 1);
    }
  }

  lemma {:induction false} RunEndPrefix(ps: seq<CondValue>, k: nat, i: nat)
    requires i < k <= |ps| && RunEnd(ps, i) <= k
    ensures RunEnd(ps[..k], i) == RunEnd(ps, i)
    decreases k - i
  {
    if i + 1 < |ps| && !ps[i + 1].isOr {
      RunEndPrefix(ps, k, i + 1);
    }
  }

  lemma {:induction false} RunValuePrefix(c: Condition, k: nat, i: nat, j: nat, env: Pred -> Truth)
    requires i < j <= k <= |c.params|
    ensures RunValue(Condition(c.params[..k]), i, j, env) == RunValue(c, i, j, env)
    decreases j - i
  {
    if i + 1 < j {
      RunValuePrefix(c, k, i + 1, j, env);
    }
  }

  // The runs before the last one, and the last one.
  lemma {:induction false} RunsSplit(c: Condition, i: nat, env: Pred -> Truth)
    requires i < |c.params|
    ensures var k := LastRun(c.params, i);
      RunsValue(c, i, env) ==
        if k == i then RunValue(c, i, |c.params|, env)
        else OrT(RunsValue(Condition(c.params[..k]), i, env), RunValue(c, k, |c.params|, env))
    decreases |c.params| - i
  {
    var j, k := RunEnd(c.params, i), LastRun(c.params, i);
    if j < |c.params| {
      RunsSplit(c, j, env);
      RunEndPrefix(c.params, k, i);
      RunValuePrefix(c, k, i, j, env);
    }
  }

  lemma {:induction false} LastRunAppended(ps: seq<CondValue>, p: CondValue, i: nat)
    requires i < |ps| && !p.isOr
    ensures LastRun(ps + [p], i) == LastRun(ps, i)
    decreases |ps| - i
  {
    RunEndAppended(ps, p, i);
    if RunEnd(ps, i) < |ps| {
      LastRunAppended(ps, p, RunEnd(ps, i));
    }
  }

  // The runs before the last one, or the last one restricted to the given value.
  function Restricted(c: Condition, v: Truth, env: Pred -> Truth): Truth {
    if c.IsEmpty() then v
    else
      var k := LastRun(c.params, 0);
      var last := AndT(RunValue(c, k, |c.params|, env), v);
      if k == 0 then last else OrT(Value(Condition(c.params[..k]), env), last)
  }

  lemma AndItem(c: Condition, p: CondValue, env: Pred -> Truth)
    requires !p.isOr
    ensures Value(Condition(c.params + [p]), env) == Restricted(c, ItemValue(p, env), env)
  {
    if c.IsEmpty() {
      assert c.params + [p] == [p];
      OneItem(p, env);
    } else {
      var d, k := Condition(c.params + [p]), LastRun(c.params, 0);
      LastRunAppended(c.params, p, 0);
      RunsSplit(d, 0, env);
      AndRun(c, p, k, env);
      assert d.params[..k] == c.params[..k];
    }
  }

  /** Whatever an And builder adds restricts only the last AND-run: the condition becomes the runs before that one,
      or the restricted one. */
  lemma AndRestrictsLastRun(c: Condition, p: Pred, d: Condition, env: Pred -> Truth)
    ensures Value(c.And(p), env) == Restricted(c, env(p), env)
    ensures Value(c.AndNot(p), env) == Restricted(c, NotT(env(p)), env)
    ensures Value(c.AndCond(d), env) == Restricted(c, Value(d, env), env)
    ensures Value(c.AndNotCond(d), env) == Restricted(c, NotT(Value(d, env)), env)
  {
    AndItem(c, Expr(false, false, p), env);
    AndItem(c, Expr(false, true, p), env);
    AndItem(c, Nested(false, false, d), env);
    AndItem(c, Nested(false, true, d), env);
  }

  lemma {:induction false} AndRun(c: Condition, p: CondValue, i: nat, env: Pred -> Truth)
    requires i < |c.params|
    ensures RunValue(Condition(c.params + [p]), i, |c.params| + 1, env)
      == AndT(RunValue(c, i, |c.params|, env), ItemValue(p, env))
    decreases |c.params| - i
  {
    if i + 1 < |c.params| {
      AndRun(c, p, i + 1, env);
    }
  }
}
