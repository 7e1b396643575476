/** Condition trees and the WHERE clause that getCondSQL prints for them. */
module Conditions {

  // A column test as it is printed, with the arguments for its marks kept apart.
  type Pred = nat

  datatype CondValue =
    | Expr(isOr: bool, isNot: bool, pred: Pred)
    | Nested(isOr: bool, isNot: bool, cond: Condition)

  datatype Condition = Condition(params: seq<CondValue>) {
    predicate IsEmpty() { params == [] }

    // The builders copy the receiver and add one item.
    function And(p: Pred): Condition { Condition(params + [Expr(false, false, p)]) }
    function AndNot(p: Pred): Condition { Condition(params + [Expr(false, true, p)]) }
    function AndCond(c: Condition): Condition { Condition(params + [Nested(false, false, c)]) }
    function AndNotCond(c: Condition): Condition { Condition(params + [Nested(false, true, c)]) }
    function Or(p: Pred): Condition { Condition(params + [Expr(true, false, p)]) }
    function OrNot(p: Pred): Condition { Condition(params + [Expr(true, true, p)]) }
    function OrCond(c: Condition): Condition { Condition(params + [Nested(true, false, c)]) }
    function OrNotCond(c: Condition): Condition { Condition(params + [Nested(true, true, c)]) }
  }

  datatype Token = AND | OR | NOT | LPAREN | RPAREN | PRED(pred: Pred)

  // ---- getCondSQL ----

  function Connector(p: CondValue): Token {
    if p.isOr then OR else AND
  }

  function ItemTokens(p: CondValue): seq<Token>
    decreases p, 1
  {
    if p.isNot then [NOT] + BodyTokens(p) else BodyTokens(p)
  }

  function BodyTokens(p: CondValue): seq<Token>
    decreases p, 0
  {
    match p
    case Expr(_, _, pred) => [PRED(pred)]
    case Nested(_, _, c) => var w := Tokens(c); if w != [] then [LPAREN] + w + [RPAREN] else []
  }

  function Tokens(c: Condition): seq<Token>
    decreases c
  {
    PrefixTokens(c, |c.params|)
  }

  // The text after the first n items.
  function PrefixTokens(c: Condition, n: nat): seq<Token>
    requires n <= |c.params|
    decreases c, n
  {
    if n == 0 then []
    else PrefixTokens(c, n - 1) + (if n > 1 then [Connector(c.params[n - 1])] else []) + ItemTokens(c.params[n - 1])
  }

  /** getCondSQL, without the WHERE keyword that the outermost call puts in front. */
  method GetCondSQL(cond: Condition) returns (sql: seq<Token>)
    ensures sql == Tokens(cond)
    decreases cond
  {
    sql := [];
    for i := 0 to |cond.params|
      invariant sql == PrefixTokens(cond, i)
    {
      var p := cond.params[i];
      ghost var before := sql;
      if i > 0 {
        if p.isOr {
          sql := sql + [OR];
        } else {
          sql := sql + [AND];
        }
      }
      if p.isNot {
        sql := sql + [NOT];
      }
      match p {
        case Nested(_, _, c) =>
          var w := GetCondSQL(c);
          if w != [] {
            w := [LPAREN] + w + [RPAREN];
          }
          sql := sql + w;
        case Expr(_, _, pred) =>
          sql := sql + [PRED(pred)];
      }
      assert sql == before + (if i > 0 then [Connector(p)] else []) + ItemTokens(p);
    }
  }
}
