/** Boolean expressions of SQL: NOT binds tighter than AND, AND tighter than OR; truth is three-valued. */
module SqlGrammar {
  import opened Wrappers
  import opened Conditions

  datatype Truth = True | False | Unknown

  function NotT(a: Truth): Truth {
    match a case True => False case False => True case Unknown => Unknown
  }

  function AndT(a: Truth, b: Truth): Truth {
    if a == False || b == False then False else if a == True && b == True then True else Unknown
  }

  function OrT(a: Truth, b: Truth): Truth {
    if a == True || b == True then True else if a == False && b == False then False else Unknown
  }

  datatype Bool = Test(pred: Pred) | Not(e: Bool) | And(l: Bool, r: Bool) | Or(l: Bool, r: Bool) {
    function Eval(env: Pred -> Truth): Truth {
      match this
      case Test(p) => env(p)
      case Not(e) => NotT(e.Eval(env))
      case And(l, r) => AndT(l.Eval(env), r.Eval(env))
      case Or(l, r) => OrT(l.Eval(env), r.Eval(env))
    }
  }

  // A parse result: an expression and the tokens after it.
  datatype Parse = Fail | Got(e: Bool, rest: seq<Token>)

  // or := and [OR or]
  function ParseOr(ts: seq<Token>): (r: Parse)
    ensures r.Got? ==> |r.rest| < |ts|
    decreases |ts|, 3
  {
    match ParseAnd(ts)
    case Fail => Fail
    case Got(e, rest) =>
      if rest != [] && rest[0] == OR then
        match ParseOr(rest[1..])
        case Fail => Fail
        case Got(f, rest') => Got(Or(e, f), rest')
      else Got(e, rest)
  }

  // and := not [AND and]
  function ParseAnd(ts: seq<Token>): (r: Parse)
    ensures r.Got? ==> |r.rest| < |ts|
    decreases |ts|, 2
  {
    match ParseNot(ts)
    case Fail => Fail
    case Got(e, rest) =>
      if rest != [] && rest[0] == AND then
        match ParseAnd(rest[1..])
        case Fail => Fail
        case Got(f, rest') => Got(And(e, f), rest')
      else Got(e, rest)
  }

  // not := NOT not | test | ( or )
  function ParseNot(ts: seq<Token>): (r: Parse)
    ensures r.Got? ==> |r.rest| < |ts|
    decreases |ts|, 1
  {
    if ts == [] then Fail
    else
      match ts[0]
      case NOT =>
        (match ParseNot(ts[1..])
         case Fail => Fail
         case Got(e, rest) => Got(Not(e), rest))
      case PRED(p) => Got(Test(p), ts[1..])
      case LPAREN =>
        (match ParseOr(ts[1..])
         case Fail => Fail
         case Got(e, rest) => if rest != [] && rest[0] == RPAREN then Got(e, rest[1..]) else Fail)
      case _ => Fail
  }

  // The expression that a whole text stands for.
  function Parsed(ts: seq<Token>): Option<Bool> {
    match ParseOr(ts)
    case Fail => None
    case Got(e, rest) => if rest == [] then Some(e) else None
  }
}
