/** Parsing of cron fields into masks: getField, getRange, parseIntOrName and mustParseInt. */
module CronSpec {
  import opened Text
  import opened CronMask

  datatype Bounds = Bounds(min: nat, max: nat, names: map<string, nat>) {
    predicate Valid() { min <= max < STAR_BIT && forall n | n in names :: names[n] <= max }
  }

  // A parse yields a value, panics, or never returns.
  datatype Parse<+T> = Ok(value: T) | Panics | NeverEnds

  // A list item: the values from start to end in the given steps, written with a star or not.
  datatype Item = Item(start: nat, end: nat, step: nat, star: bool)

  // Item i stands for bit b of the mask.
  predicate Covers(i: Item, b: nat) {
    InSteps(i.start, i.end, i.step, b) || (i.star && b == STAR_BIT)
  }

  function LowerChar(c: char): char {
    if 'A' <= c <= 'Z' then (c as int + 32) as char else c
  }

  function ToLower(s: string): string {
    if s == [] then [] else [LowerChar(s[0])] + ToLower(s[1..])
  }

  function MustParseInt(s: string): Parse<nat> {
    match Atoi(s)
    case None => Panics
    case Some(n) => if n < 0 then Panics else Ok(n)
  }

  function ParseIntOrName(s: string, names: map<string, nat>): Parse<nat> {
    if ToLower(s) in names then Ok(names[ToLower(s)]) else MustParseInt(s)
  }

  // The range part of an item, before its step is known.
  function ParseSpan(parts: seq<string>, b: Bounds): Parse<Item>
    requires |parts| >= 1
  {
    if parts[0] == "*" || parts[0] == "?" then Ok(Item(b.min, b.max, 1, true))
    else
      match ParseIntOrName(parts[0], b.names)
      case Ok(start) =>
        if |parts| == 1 then Ok(Item(start, start, 1, false))
        else if |parts| == 2 then
          (match ParseIntOrName(parts[1], b.names)
           case Ok(end) => Ok(Item(start, end, 1, false))
           case Panics => Panics
           case NeverEnds => NeverEnds)
        else Panics
      case Panics => Panics
      case NeverEnds => NeverEnds
  }

  function CheckBounds(i: Item, b: Bounds): Parse<Item> {
    if i.start < b.min || i.end > b.max || i.start > i.end then Panics
    else if i.step == 0 then NeverEnds
    else Ok(i)
  }

  /** An item is said never to end exactly when it is within bounds and its loop in getBits does not end. */
  lemma NeverEndsIffLoops(i: Item, b: Bounds)
    ensures CheckBounds(i, b).NeverEnds? <==>
      b.min <= i.start <= i.end <= b.max && forall n: nat :: AfterTurns(i.start, i.step, n) <= i.end
  {
    if i.start <= i.end {
      LoopNeverEndsIff(i.start, i.end, i.step);
    }
  }

  // What a list item says; a step of 0 would keep getBits in its loop for ever.
  function ParseItem(expr: string, b: Bounds): (r: Parse<Item>)
    ensures r.Ok? ==> b.min <= r.value.start <= r.value.end <= b.max && r.value.step >= 1
  {
    var rangeAndStep := Split(expr, '/');
    var lowAndHigh := Split(rangeAndStep[0], '-');
    match ParseSpan(lowAndHigh, b)
    case Panics => Panics
    case NeverEnds => NeverEnds
    case Ok(span) =>
      if |rangeAndStep| == 1 then CheckBounds(span, b)
      else if |rangeAndStep| == 2 then
        (match MustParseInt(rangeAndStep[1])
         case Panics => Panics
         case NeverEnds => NeverEnds
         case Ok(step) => CheckBounds(span.(step := step, end := if |lowAndHigh| == 1 then b.max else span.end), b))
      else Panics
  }

  method GetRange(expr: string, b: Bounds) returns (r: Parse<Word>)
    requires b.Valid()
    ensures r.Ok? <==> ParseItem(expr, b).Ok?
    ensures r.Ok? ==> r.value == set i: nat | i < 64 && Covers(ParseItem(expr, b).value, i)
    ensures r.NeverEnds? <==> ParseItem(expr, b).NeverEnds?
  {
    match ParseItem(expr, b) {
      case Panics => return Panics;
      case NeverEnds => return NeverEnds;
      case Ok(item) =>
        var bits := GetBits(item.start, item.end, item.step);
        SingleBit(STAR_BIT);
        r := Ok(if item.star then bits + Single(STAR_BIT) else bits);
    }
  }

  // strings.FieldsFunc: the parts between commas that are not empty.
  function ListItems(field: string): (r: seq<string>)
    ensures [] !in r
  {
    NonEmpty(Split(field, ','))
  }

  // Some item of the list stands for bit i.
  ghost predicate Listed(items: seq<string>, b: Bounds, i: nat) {
    exists w :: w in items && CoversAs(w, b, i)
  }

  predicate CoversAs(w: string, b: Bounds, i: nat) {
    ParseItem(w, b).Ok? && Covers(ParseItem(w, b).value, i)
  }

  ghost predicate Accepted(items: seq<string>, b: Bounds) {
    forall w | w in items :: ParseItem(w, b).Ok?
  }

  // Item k is the first bad one of the list, and keeps getBits in its loop or panics.
  ghost predicate FirstBad(items: seq<string>, b: Bounds, k: int, loops: bool) {
    && 0 <= k < |items| && (forall j | 0 <= j < k :: ParseItem(items[j], b).Ok?)
    && !ParseItem(items[k], b).Ok? && (loops <==> ParseItem(items[k], b).NeverEnds?)
  }

  lemma ListedAppend(items: seq<string>, w: string, b: Bounds, i: nat)
    ensures Listed(items + [w], b, i) <==> Listed(items, b, i) || CoversAs(w, b, i)
  {
    if CoversAs(w, b, i) {
      assert w in items + [w];
    }
    forall v | v in items && CoversAs(v, b, i) ensures Listed(items + [w], b, i) {
      assert v in items + [w];
    }
  }

  /** getField: a bit is set exactly when some item of the list covers it, and one bad item spoils
      the whole field. */
  method GetField(field: string, b: Bounds) returns (r: Parse<Word>)
    requires b.Valid()
    ensures r.Ok? <==> Accepted(ListItems(field), b)
    ensures r.Ok? ==> forall i: nat | i < 64 :: i in r.value <==> Listed(ListItems(field), b, i)
    ensures !r.Ok? ==> exists k :: FirstBad(ListItems(field), b, k, r.NeverEnds?)
  {
    var ranges := ListItems(field);
    var bits: Word := {};
    for k := 0 to |ranges|
      invariant Accepted(ranges[..k], b)
      invariant forall i: nat | i < 64 :: i in bits <==> Listed(ranges[..k], b, i)
    {
      var range := GetRange(ranges[k], b);
      if !range.Ok? {
        assert ranges[k] in ranges;
        assert forall j | 0 <= j < k :: ranges[j] == ranges[..k][j] && ranges[..k][j] in ranges[..k];
        assert FirstBad(ranges, b, k, range.NeverEnds?);
        return range;
      }
      assert ranges[..k + 1] == ranges[..k] + [ranges[k]];
      forall i: nat | i < 64
        ensures i in bits + range.value <==> Listed(ranges[..k + 1], b, i)
      {
        ListedAppend(ranges[..k], ranges[k], b, i);
      }
      bits := bits + range.value;
    }
    assert ranges[..|ranges|] == ranges;
    r := Ok(bits);
  }

  // An item is written with a star when the first half of its range is one.
  predicate Starred(w: string) {
    var low := Split(Split(w, '/')[0], '-')[0];
    low == "*" || low == "?"
  }

  lemma StarOfItem(w: string, b: Bounds)
    requires b.Valid() && ParseItem(w, b).Ok?
    ensures CoversAs(w, b, STAR_BIT) <==> Starred(w)
  {
  }

  /** The star bit is set exactly when some item is written with a star: no range reaches it. */
  lemma StarBitMeaning(items: seq<string>, b: Bounds)
    requires b.Valid() && Accepted(items, b)
    ensures Listed(items, b, STAR_BIT) <==> exists w :: w in items && Starred(w)
  {
    forall w | w in items ensures CoversAs(w, b, STAR_BIT) <==> Starred(w) {
      StarOfItem(w, b);
    }
  }

  // ---- what is written is what is scheduled ----

  const SMALL := "abcdefghijklmnopqrstuvwxyz"
  const CAPITAL := "ABCDEFGHIJKLMNOPQRSTUVWXYZ"

  // The same letters in small ones, whichever are capital.
  ghost predicate Spells(word: string, name: string) {
    |word| == |name| && forall i | 0 <= i < |word| :: SameLetter(word[i], name[i])
  }

  ghost predicate SameLetter(c: char, small: char) {
    exists k :: 0 <= k < 26 && SMALL[k] == small && (c == SMALL[k] || c == CAPITAL[k])
  }

  // A value is written as a number or, in small or capital letters, as one of the names of the field.
  datatype Atom = Num(n: nat) | Named(word: string, name: string) {
    function Text(): string { if Num? then Itoa(n) else word }

    function Of(b: Bounds): nat {
      if Num? then n else if name in b.names then b.names[name] else 0
    }

    ghost predicate Fits(b: Bounds) {
      if Num? then n <= MAX_INT64 else name in b.names && name != [] && Spells(word, name)
    }
  }

  lemma LettersInOrder(k: nat)
    requires k < 26
    ensures SMALL[k] as int == 'a' as int + k && CAPITAL[k] as int == 'A' as int + k
  {
  }

  lemma LowerLetter(c: char, small: char)
    requires SameLetter(c, small)
    ensures LowerChar(c) == small && IsLetter(c)
  {
    var k :| 0 <= k < 26 && SMALL[k] == small && (c == SMALL[k] || c == CAPITAL[k]);
    LettersInOrder(k);
  }

  lemma SpellsTail(word: string, name: string)
    requires Spells(word, name) && word != []
    ensures SameLetter(word[0], name[0]) && Spells(word[1..], name[1..])
  {
  }

  lemma {:induction false} ToLowerSpells(word: string, name: string)
    requires Spells(word, name)
    ensures ToLower(word) == name
  {
    if word != [] {
      SpellsTail(word, name);
      LowerLetter(word[0], name[0]);
      ToLowerSpells(word[1..], name[1..]);
      assert name == [name[0]] + name[1..];
    }
  }

  lemma SpelledInLetters(word: string, name: string, c: char)
    requires Spells(word, name) && c in word
    ensures IsLetter(c)
  {
    var i :| 0 <= i < |word| && word[i] == c;
    LowerLetter(word[i], name[i]);
  }

  predicate IsLetter(c: char) { 'a' <= c <= 'z' || 'A' <= c <= 'Z' }

  datatype Span = Every | Any | Value(at: Atom) | Range(lo: Atom, hi: Atom)

  // A list item as the documentation of SetCron describes it.
  datatype Written = Plain(span: Span) | Stepped(span: Span, step: nat) {
    function SpanText(): string {
      match span
      case Every => "*"
      case Any => "?"
      case Value(at) => at.Text()
      case Range(lo, hi) => lo.Text() + ['-'] + hi.Text()
    }

    function Show(): string {
      if Plain? then SpanText() else SpanText() + ['/'] + Itoa(step)
    }

    // "N/step" runs on to the end of the field.
    function Meaning(b: Bounds): Item {
      var s := if Plain? then 1 else step;
      match span
      case Every => Item(b.min, b.max, s, true)
      case Any => Item(b.min, b.max, s, true)
      case Value(at) => Item(at.Of(b), if Plain? then at.Of(b) else b.max, s, false)
      case Range(lo, hi) => Item(lo.Of(b), hi.Of(b), s, false)
    }

    ghost predicate Fits(b: Bounds) {
      && (Stepped? ==> step <= MAX_INT64)
      && (span.Value? ==> span.at.Fits(b))
      && (span.Range? ==> span.lo.Fits(b) && span.hi.Fits(b))
    }
  }

  // Field names do not look like numbers.
  ghost predicate NamesAreWords(b: Bounds) {
    forall n | n in b.names :: n != [] && !IsDigit(n[0])
  }

  lemma ItoaHasNoSeparators(n: nat)
    ensures '-' !in Itoa(n) && '/' !in Itoa(n) && ',' !in Itoa(n)
  {
    assert !IsDigit('-') && !IsDigit('/') && !IsDigit(',');
  }

  lemma NumberParses(n: nat, b: Bounds)
    requires n <= MAX_INT64 && NamesAreWords(b)
    ensures ParseIntOrName(Itoa(n), b.names) == Ok(n) && MustParseInt(Itoa(n)) == Ok(n)
    ensures Itoa(n) != "*" && Itoa(n) != "?"
  {
    AtoiItoa(n);
    assert IsDigit(Itoa(n)[0]);
    assert ToLower(Itoa(n))[0] == Itoa(n)[0];
  }

  // A written value has none of the characters that the parser looks for, and parses to its meaning.
  lemma AtomText(a: Atom, b: Bounds)
    requires a.Fits(b)
    ensures a.Text() != [] && '-' !in a.Text() && '/' !in a.Text() && ',' !in a.Text()
  {
    if a.Num? {
      ItoaHasNoSeparators(a.n);
    } else {
      forall c | c in a.word ensures IsLetter(c) {
        SpelledInLetters(a.word, a.name, c);
      }
      assert !IsLetter('-') && !IsLetter('/') && !IsLetter(',');
    }
  }

  lemma AtomParses(a: Atom, b: Bounds)
    requires a.Fits(b) && NamesAreWords(b)
    ensures ParseIntOrName(a.Text(), b.names) == Ok(a.Of(b)) && a.Text() != "*" && a.Text() != "?"
  {
    if a.Num? {
      NumberParses(a.n, b);
    } else {
      ToLowerSpells(a.word, a.name);
      SpelledInLetters(a.word, a.name, a.word[0]);
    }
  }

  lemma SpanSplits(w: Written, b: Bounds)
    requires w.Fits(b)
    ensures w.SpanText() != [] && '/' !in w.SpanText() && ',' !in w.SpanText()
    ensures Split(w.SpanText(), '-') == match w.span
      case Every => ["*"]
      case Any => ["?"]
      case Value(at) => [at.Text()]
      case Range(lo, hi) => [lo.Text(), hi.Text()]
  {
    match w.span
    case Every => SplitWord("*", '-');
    case Any => SplitWord("?", '-');
    case Value(at) =>
      AtomText(at, b);
      SplitWord(at.Text(), '-');
    case Range(lo, hi) =>
      AtomText(lo, b);
      AtomText(hi, b);
      SplitFirst(lo.Text(), hi.Text(), '-');
      SplitWord(hi.Text(), '-');
  }

  lemma ShowSplits(w: Written, b: Bounds)
    requires w.Fits(b)
    ensures ',' !in w.Show() && w.Show() != []
    ensures Split(w.Show(), '/') == if w.Plain? then [w.SpanText()] else [w.SpanText(), Itoa(w.step)]
  {
    SpanSplits(w, b);
    if w.Plain? {
      SplitWord(w.SpanText(), '/');
    } else {
      ItoaHasNoSeparators(w.step);
      SplitFirst(w.SpanText(), Itoa(w.step), '/');
      SplitWord(Itoa(w.step), '/');
    }
  }

  lemma SpanParses(w: Written, b: Bounds)
    requires w.Fits(b) && NamesAreWords(b)
    ensures ParseSpan(Split(w.SpanText(), '-'), b) == Ok(Plain(w.span).Meaning(b))
    ensures |Split(w.SpanText(), '-')| == if w.span.Range? then 2 else 1
  {
    SpanSplits(w, b);
    match w.span
    case Every =>
    case Any =>
    case Value(at) => AtomParses(at, b);
    case Range(lo, hi) =>
      AtomParses(lo, b);
      AtomParses(hi, b);
  }

  // A written item is accepted with its documented meaning, or refused when that is out of bounds.
  lemma ParseWritten(w: Written, b: Bounds)
    requires w.Fits(b) && NamesAreWords(b)
    ensures ParseItem(w.Show(), b) == CheckBounds(w.Meaning(b), b)
  {
    SpanParses(w, b);
    ShowSplits(w, b);
    if w.Stepped? {
      NumberParses(w.step, b);
    }
  }

  function ShowAll(ws: seq<Written>): (r: seq<string>)
    ensures |r| == |ws| && forall i | 0 <= i < |ws| :: r[i] == ws[i].Show()
  {
    seq(|ws|, i requires 0 <= i < |ws| => ws[i].Show())
  }

  lemma ShownListItems(ws: seq<Written>, b: Bounds)
    requires ws != [] && forall i | 0 <= i < |ws| :: ws[i].Fits(b)
    ensures ListItems(Join(ShowAll(ws), ',')) == ShowAll(ws)
  {
    forall i | 0 <= i < |ws| ensures ',' !in ShowAll(ws)[i] && ShowAll(ws)[i] != [] {
      ShowSplits(ws[i], b);
    }
    SplitJoin(ShowAll(ws), ',');
    NonEmptyKeepsAll(ShowAll(ws));
  }

  ghost predicate Writable(w: Written, b: Bounds) {
    w.Fits(b) && CheckBounds(w.Meaning(b), b).Ok?
  }

  lemma ShownItemMeaning(w: Written, b: Bounds, i: nat)
    requires NamesAreWords(b) && Writable(w, b)
    ensures ParseItem(w.Show(), b).Ok? && (CoversAs(w.Show(), b, i) <==> Covers(w.Meaning(b), i))
  {
    ParseWritten(w, b);
  }

  ghost predicate Means(ws: seq<Written>, b: Bounds, i: nat) {
    exists k :: 0 <= k < |ws| && Covers(ws[k].Meaning(b), i)
  }

  ghost predicate AllWritable(ws: seq<Written>, b: Bounds) {
    forall k | 0 <= k < |ws| :: Writable(ws[k], b)
  }

  lemma ShownAccepted(ws: seq<Written>, b: Bounds)
    requires NamesAreWords(b) && AllWritable(ws, b)
    ensures Accepted(ShowAll(ws), b)
  {
    forall k | 0 <= k < |ws| ensures ParseItem(ShowAll(ws)[k], b).Ok? {
      ShownItemMeaning(ws[k], b, 0);
    }
  }

  lemma ShownListed(ws: seq<Written>, b: Bounds, i: nat)
    requires NamesAreWords(b) && AllWritable(ws, b) && Means(ws, b, i)
    ensures Listed(ShowAll(ws), b, i)
  {
    var k :| 0 <= k < |ws| && Covers(ws[k].Meaning(b), i);
    ShownItemMeaning(ws[k], b, i);
    assert ShowAll(ws)[k] in ShowAll(ws);
  }

  lemma ListedMeans(ws: seq<Written>, b: Bounds, i: nat)
    requires NamesAreWords(b) && AllWritable(ws, b) && Listed(ShowAll(ws), b, i)
    ensures Means(ws, b, i)
  {
    var items := ShowAll(ws);
    var v :| v in items && CoversAs(v, b, i);
    var k :| 0 <= k < |items| && items[k] == v;
    ShownItemMeaning(ws[k], b, i);
  }

  /** A comma-separated list of written items sets bit i exactly when one of them means i. */
  lemma WrittenListMeaning(ws: seq<Written>, b: Bounds, i: nat)
    requires ws != [] && b.Valid() && NamesAreWords(b) && AllWritable(ws, b)
    ensures var items := ListItems(Join(ShowAll(ws), ','));
      Accepted(items, b) && (Listed(items, b, i) <==> Means(ws, b, i))
  {
    ShownListItems(ws, b);
    ShownAccepted(ws, b);
    if Means(ws, b, i) {
      ShownListed(ws, b, i);
    }
    if Listed(ShowAll(ws), b, i) {
      ListedMeans(ws, b, i);
    }
  }
}
