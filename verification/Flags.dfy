/** How a process reads its command line: the parse loop of Go's flag package over the flags of an application,
    two of which belong to graceful restarts. */
module Flags {
  import opened Wrappers

  datatype Kind = BoolFlag | ValueFlag

  // The flags an application defines, and which values they accept.
  datatype FlagSet = FlagSet(kinds: map<string, Kind>, accepts: (string, string) -> bool) {
    ghost predicate Valid() {
      && "graceful" in kinds && kinds["graceful"] == BoolFlag
      && "socketorder" in kinds && kinds["socketorder"] == ValueFlag
      && (forall v :: accepts("graceful", v) <==> ParseBool(v).Some?)
      && (forall v :: accepts("socketorder", v))
    }
  }

  // strconv.ParseBool.
  function ParseBool(v: string): Option<bool> {
    if v in {"1", "t", "T", "TRUE", "true", "True"} then Some(true)
    else if v in {"0", "f", "F", "FALSE", "false", "False"} then Some(false)
    else None
  }

  // The values of the two flags of graceful restarts.
  datatype Seen = Seen(child: bool, order: string)

  const FRESH := Seen(false, "")

  function Assign(seen: Seen, name: string, value: string): Seen {
    if name == "graceful" then seen.(child := ParseBool(value) == Some(true))
    else if name == "socketorder" then seen.(order := value)
    else seen
  }

  // How a parse ends: at the end of the list, at an argument that is no flag (or behind "--"), in want of the
  // value of the last flag, or with an error.
  datatype Outcome =
    | Open(seen: Seen)
    | Closed(seen: Seen, rest: seq<string>)
    | Wants(seen: Seen, name: string)
    | Rejected

  // The place of the first equals sign from i on, or the end.
  function EqualsFrom(text: string, i: nat): (r: nat)
    requires i <= |text|
    ensures i <= r <= |text| && (r < |text| ==> text[r] == '=') && forall k | i <= k < r :: text[k] != '='
    decreases |text| - i
  {
    if i == |text| || text[i] == '=' then i else EqualsFrom(text, i + 1)
  }

  // The name and the value of "name" or "name=value"; an equals sign in front is part of the name.
  function SplitFlag(text: string): (string, Option<string>)
    requires text != []
  {
    var i := EqualsFrom(text, 1);
    (text[..i], if i < |text| then Some(text[i + 1..]) else None)
  }

  // FlagSet.parseOne, again and again.
  function Parse(fs: FlagSet, args: seq<string>, seen: Seen): Outcome
    decreases |args|, 0
  {
    if args == [] then Open(seen)
    else
      var s := args[0];
      if |s| < 2 || s[0] != '-' then Closed(seen, args)
      else if s == "--" then Closed(seen, args[1..])
      else
        var text := if s[1] == '-' then s[2..] else s[1..];
        if text == [] || text[0] == '-' || text[0] == '=' then Rejected
        else
          var (name, value) := SplitFlag(text);
          if name !in fs.kinds then Rejected
          else if value.Some? || fs.kinds[name].BoolFlag? then
            Took(fs, name, if value.Some? then value.value else "true", args[1..], seen)
          else if |args| == 1 then Wants(seen, name)
          else Took(fs, name, args[1], args[2..], seen)
  }

  // A flag has its value; the parse goes on behind it.
  function Took(fs: FlagSet, name: string, value: string, rest: seq<string>, seen: Seen): Outcome
    decreases |rest|, 1
  {
    if fs.accepts(name, value) then Parse(fs, rest, Assign(seen, name, value)) else Rejected
  }

  // What a process sees of its arguments; None stands for its exit.
  function SeenBy(fs: FlagSet, args: seq<string>): Option<Seen> {
    match Parse(fs, args, FRESH)
    case Open(seen) => Some(seen)
    case Closed(seen, _) => Some(seen)
    case _ => None
  }

  // The outcome of a list with more arguments behind it.
  function Continued(fs: FlagSet, o: Outcome, more: seq<string>): Outcome {
    match o
    case Open(seen) => Parse(fs, more, seen)
    case Closed(seen, rest) => Closed(seen, rest + more)
    case Wants(seen, name) => if more == [] then o else Took(fs, name, more[0], more[1..], seen)
    case Rejected => Rejected
  }

  /** Parsing two lists in a row: the second is read as flags only when the first ends open. */
  lemma {:induction false} ParseAppend(fs: FlagSet, a: seq<string>, b: seq<string>, seen: Seen)
    ensures Parse(fs, a + b, seen) == Continued(fs, Parse(fs, a, seen), b)
    decreases |a|, 0
  {
    if a == [] {
      assert a + b == b;
      return;
    }
    var s, ab := a[0], a + b;
    assert ab[0] == s && ab[1..] == a[1..] + b;
    var text := if |s| >= 2 && s[1] == '-' then s[2..] else if |s| >= 2 then s[1..] else s;
    if |s| >= 2 && s[0] == '-' && text != [] && text[0] != '-' && text[0] != '=' && SplitFlag(text).0 in fs.kinds {
      var (name, value) := SplitFlag(text);
      if value.Some? || fs.kinds[name].BoolFlag? {
        TookAppend(fs, name, if value.Some? then value.value else "true", a[1..], b, seen);
      } else if |a| > 1 {
        assert ab[1] == a[1] && ab[2..] == a[2..] + b;
        TookAppend(fs, name, a[1], a[2..], b, seen);
      } else if b != [] {
        assert ab[1] == b[0] && ab[2..] == b[1..];
      }
    }
  }

  lemma {:induction false} TookAppend(fs: FlagSet, name: string, value: string, rest: seq<string>, b: seq<string>,
                                      seen: Seen)
    ensures Took(fs, name, value, rest + b, seen) == Continued(fs, Took(fs, name, value, rest, seen), b)
    decreases |rest|, 1
  {
    ParseAppend(fs, rest, b, Assign(seen, name, value));
  }

  lemma SplitPlain(text: string)
    requires text != [] && '=' !in text
    ensures SplitFlag(text) == (text, None)
  {
    var i := EqualsFrom(text, 1);
    assert forall k | 0 <= k < |text| :: text[k] in text;
    assert text[..|text|] == text;
  }

  lemma SplitValue(name: string, value: string)
    requires name != [] && '=' !in name
    ensures SplitFlag(name + "=" + value) == (name, Some(value))
  {
    var text := name + "=" + value;
    var i := EqualsFrom(text, 1);
    assert text[|name|] == '=';
    assert forall k | 0 <= k < |name| :: text[k] == name[k] && name[k] in name;
    assert text[..|name|] == name && text[|name| + 1..] == value;
  }

  lemma BareFlag(fs: FlagSet, name: string, more: seq<string>, seen: Seen)
    requires name != [] && name[0] != '-' && '=' !in name && name in fs.kinds && fs.kinds[name].BoolFlag?
    ensures Parse(fs, ["-" + name] + more, seen) == Took(fs, name, "true", more, seen)
  {
    var args, s := ["-" + name] + more, "-" + name;
    assert args[0] == s && args[1..] == more && s[1..] == name && s[1] == name[0];
    assert name[0] in name;
    SplitPlain(name);
  }

  lemma ValuedFlag(fs: FlagSet, name: string, value: string, more: seq<string>, seen: Seen)
    requires name != [] && name[0] != '-' && '=' !in name && name in fs.kinds
    ensures Parse(fs, ["-" + name + "=" + value] + more, seen) == Took(fs, name, value, more, seen)
  {
    var s := "-" + name + "=" + value;
    var args := [s] + more;
    assert args[0] == s && args[1..] == more && s[1..] == name + "=" + value && s[1] == name[0];
    assert name[0] in name;
    SplitValue(name, value);
  }

  // ---- the forms of an argument ----

  /** A second dash makes no difference. */
  lemma TwoDashes(fs: FlagSet, text: string, more: seq<string>, seen: Seen)
    requires text != [] && text[0] != '-' && text[0] != '='
    ensures Parse(fs, ["--" + text] + more, seen) == Parse(fs, ["-" + text] + more, seen)
  {
    var a, b := ["--" + text] + more, ["-" + text] + more;
    assert a[0] == "--" + text && a[0][2..] == text && a[1..] == more;
    assert b[0] == "-" + text && b[0][1..] == text && b[0][1] == text[0] && b[1..] == more;
    if more != [] {
      assert a[1] == b[1] == more[0] && a[2..] == b[2..] == more[1..];
    }
  }

  /** The value of a flag that is no switch may stand in the next argument, whatever that looks like. */
  lemma ValueBehind(fs: FlagSet, name: string, value: string, more: seq<string>, seen: Seen)
    requires name != [] && name[0] != '-' && '=' !in name && name in fs.kinds && fs.kinds[name].ValueFlag?
    ensures Parse(fs, ["-" + name, value] + more, seen) == Parse(fs, ["-" + name + "=" + value] + more, seen)
  {
    var a := ["-" + name, value] + more;
    assert a[0] == "-" + name && a[0][1] == name[0] && a[0][1..] == name && a[1] == value && a[2..] == more;
    assert name[0] in name;
    SplitPlain(name);
    ValuedFlag(fs, name, value, more, seen);
  }

  /** An argument without a dash in front, or a dash alone, ends the flags and stays; two dashes end them and go. */
  lemma FlagsEnd(fs: FlagSet, s: string, more: seq<string>, seen: Seen)
    requires s == [] || s[0] != '-' || s == "-"
    ensures Parse(fs, [s] + more, seen) == Closed(seen, [s] + more)
    ensures Parse(fs, ["--"] + more, seen) == Closed(seen, more)
  {
    assert (["--"] + more)[1..] == more;
  }

  /** Three dashes, an equals sign in place of a name, and a flag that is not defined are errors. */
  lemma BadFlags(fs: FlagSet, text: string, more: seq<string>, seen: Seen)
    requires text != [] && (text[0] == '-' || text[0] == '=' || SplitFlag(text).0 !in fs.kinds)
    ensures Parse(fs, ["--" + text] + more, seen) == Rejected
  {
    var a := ["--" + text] + more;
    assert a[0] == "--" + text && a[0][2..] == text;
  }

  /** The switch of graceful restarts: on by itself, and on, off or an error by its value. */
  lemma GracefulValues(fs: FlagSet, v: string, more: seq<string>, seen: Seen)
    requires fs.Valid()
    ensures var r := Parse(fs, ["-graceful=" + v] + more, seen);
      && (v in {"1", "t", "T", "true", "True", "TRUE"} ==> r == Parse(fs, more, seen.(child := true)))
      && (v in {"0", "f", "F", "false", "False", "FALSE"} ==> r == Parse(fs, more, seen.(child := false)))
      && (v !in {"1", "t", "T", "true", "True", "TRUE", "0", "f", "F", "false", "False", "FALSE"} ==> r == Rejected)
  {
    assert "-" + "graceful" + "=" + v == "-graceful=" + v;
    ValuedFlag(fs, "graceful", v, more, seen);
  }
}
