/** From the text of a spec to the seconds at which it fires: parse, parseSpec and what a schedule then matches. */
module CronSchedules {
  import opened Text
  import opened Clocks
  import GregorianClocks
  import opened CronMask
  import opened CronSpec
  import opened Schedules

  // ---- the bounds of the fields ----

  const SECONDS := Bounds(0, 59, map[])
  const MINUTES := Bounds(0, 59, map[])
  const HOURS := Bounds(0, 23, map[])
  const DAYS := Bounds(1, 31, map[])
  const MONTHS := Bounds(1, 12, map["jan" := 1, "feb" := 2, "mar" := 3, "apr" := 4, "may" := 5, "jun" := 6,
                                    "jul" := 7, "aug" := 8, "sep" := 9, "oct" := 10, "nov" := 11, "dec" := 12])
  const WEEKS := Bounds(0, 6, map["sun" := 0, "mon" := 1, "tue" := 2, "wed" := 3, "thu" := 4, "fri" := 5, "sat" := 6])

  lemma MonthsAreWords()
    ensures MONTHS.Valid() && NamesAreWords(MONTHS)
  {
    forall n | n in MONTHS.names ensures MONTHS.names[n] <= 12 && n != [] && !IsDigit(n[0]) {
    }
  }

  lemma WeeksAreWords()
    ensures WEEKS.Valid() && NamesAreWords(WEEKS)
  {
    forall n | n in WEEKS.names ensures WEEKS.names[n] <= 6 && n != [] && !IsDigit(n[0]) {
    }
  }

  // The bounds of the k-th field.
  function BoundsOf(k: nat): (b: Bounds)
    requires k < 6
    ensures b.Valid() && NamesAreWords(b)
  {
    if k == 0 then SECONDS
    else if k == 1 then MINUTES
    else if k == 2 then HOURS
    else if k == 3 then DAYS
    else if k == 4 then MonthsAreWords(); MONTHS
    else WeeksAreWords(); WEEKS
  }

  // ---- parse ----

  // unicode.IsSpace.
  predicate IsSpace(c: char) {
    var n := c as int;
    9 <= n <= 13 || 0x2000 <= n <= 0x200A || n in {0x20, 0x85, 0xA0, 0x1680, 0x2028, 0x2029, 0x202F, 0x205F, 0x3000}
  }

  function Blanked(s: string): string {
    if s == [] then [] else [if IsSpace(s[0]) then ' ' else s[0]] + Blanked(s[1..])
  }

  // strings.Fields.
  function Fields(s: string): seq<string> {
    NonEmpty(Split(Blanked(s), ' '))
  }

  // A missing sixth field is a star.
  function Six(fields: seq<string>): seq<string> {
    if |fields| == 5 then fields + ["*"] else fields
  }

  // A mask holds exactly the bits that the items of a field stand for.
  ghost predicate MaskOf(mask: Word, field: string, b: Bounds) {
    Accepted(ListItems(field), b) && forall i: nat | i < 64 :: i in mask <==> Listed(ListItems(field), b, i)
  }

  // A schedule holds what six fields say.
  ghost predicate Holds(s: Schedule, fields: seq<string>) {
    && |fields| == 6
    && MaskOf(s.second, fields[0], SECONDS) && MaskOf(s.minute, fields[1], MINUTES) && MaskOf(s.hour, fields[2], HOURS)
    && MaskOf(s.day, fields[3], DAYS) && MaskOf(s.month, fields[4], MONTHS) && MaskOf(s.week, fields[5], WEEKS)
  }

  ghost predicate FieldAccepted(fields: seq<string>, k: nat)
    requires k < 6 && |fields| == 6
  {
    Accepted(ListItems(fields[k]), BoundsOf(k))
  }

  // Field k is the first bad one, and keeps getBits in its loop or panics.
  ghost predicate FirstBadField(fields: seq<string>, k: nat, loops: bool) {
    && |fields| == 6 && k < 6 && (forall j: nat | j < k :: FieldAccepted(fields, j))
    && exists i :: FirstBad(ListItems(fields[k]), BoundsOf(k), i, loops)
  }

  ghost predicate AllMasks(masks: seq<Word>, fields: seq<string>, n: nat) {
    |masks| == n <= 6 <= |fields| && forall j: nat | j < n :: MaskOf(masks[j], fields[j], BoundsOf(j))
  }

  method FieldMask(field: string, b: Bounds) returns (r: Parse<Word>)
    requires b.Valid()
    ensures r.Ok? ==> MaskOf(r.value, field, b)
    ensures !r.Ok? ==> exists i :: FirstBad(ListItems(field), b, i, r.NeverEnds?)
  {
    r := GetField(field, b);
  }

  method FieldMasks(fields: seq<string>) returns (r: Parse<seq<Word>>)
    requires |fields| == 6
    ensures r.Ok? ==> AllMasks(r.value, fields, 6)
    ensures !r.Ok? ==> exists k :: FirstBadField(fields, k, r.NeverEnds?)
  {
    var masks: seq<Word> := [];
    for k := 0 to 6
      invariant AllMasks(masks, fields, k)
    {
      var mask := FieldMask(fields[k], BoundsOf(k));
      if !mask.Ok? {
        FirstBadAt(fields, masks, k, mask.NeverEnds?);
        return if mask.Panics? then Panics else NeverEnds;
      }
      MoreMasks(masks, fields, k, mask.value);
      masks := masks + [mask.value];
    }
    r := Ok(masks);
  }

  lemma MoreMasks(masks: seq<Word>, fields: seq<string>, k: nat, mask: Word)
    requires k < 6 == |fields| && AllMasks(masks, fields, k) && MaskOf(mask, fields[k], BoundsOf(k))
    ensures AllMasks(masks + [mask], fields, k + 1)
  {
  }

  lemma FirstBadAt(fields: seq<string>, masks: seq<Word>, k: nat, loops: bool)
    requires k < 6 == |fields| && AllMasks(masks, fields, k)
    requires exists i :: FirstBad(ListItems(fields[k]), BoundsOf(k), i, loops)
    ensures FirstBadField(fields, k, loops)
  {
    forall j: nat | j < k ensures FieldAccepted(fields, j) {
      assert MaskOf(masks[j], fields[j], BoundsOf(j));
    }
  }

  /** parse, for a spec that does not start with an at sign. */
  method ParseFields(spec: string) returns (r: Parse<Schedule>)
    ensures r.Ok? ==> Holds(r.value, Six(Fields(spec)))
    ensures !r.Ok? ==>
      if |Six(Fields(spec))| != 6 then r.Panics? else exists k :: FirstBadField(Six(Fields(spec)), k, r.NeverEnds?)
  {
    var fields := Fields(spec);
    if |fields| != 5 && |fields| != 6 {
      return Panics;
    }
    if |fields| == 5 {
      fields := fields + ["*"];
    }
    var masks := FieldMasks(fields);
    if !masks.Ok? {
      return if masks.Panics? then Panics else NeverEnds;
    }
    var m := masks.value;
    HeldByMasks(m, fields);
    r := Ok(Schedule(m[0], m[1], m[2], m[3], m[4], m[5]));
  }

  lemma HeldByMasks(masks: seq<Word>, fields: seq<string>)
    requires |fields| == 6 && AllMasks(masks, fields, 6)
    ensures Holds(Schedule(masks[0], masks[1], masks[2], masks[3], masks[4], masks[5]), fields)
  {
    assert BoundsOf(0) == SECONDS && BoundsOf(1) == MINUTES && BoundsOf(2) == HOURS;
    assert BoundsOf(3) == DAYS && BoundsOf(4) == MONTHS && BoundsOf(5) == WEEKS;
  }

  // ---- when it fires ----

  // The calendar fields of an instant are within their ranges.
  ghost predicate Ranged(c: Clock) {
    forall t :: RangedAt(c, t)
  }

  ghost predicate RangedAt(c: Clock, t: int) {
    && 1 <= c.Month(t) <= 12 && 1 <= c.Day(t) <= 31 && 0 <= c.weekday(t) <= 6
    && 0 <= c.Hour(t) <= 23 && 0 <= c.Minute(t) <= 59 && 0 <= c.Second(t) <= 59
  }

  // A field of the spec lists a value.
  ghost predicate Lists(fields: seq<string>, k: nat, v: nat)
    requires k < 6 && |fields| == 6
  {
    Listed(ListItems(fields[k]), BoundsOf(k), v)
  }

  // Some item of a field is written with a star.
  ghost predicate HasStar(fields: seq<string>, k: nat)
    requires k < 6 && |fields| == 6
  {
    exists w :: w in ListItems(fields[k]) && Starred(w)
  }

  // A field lists all of its values.
  ghost predicate ListsAll(fields: seq<string>, k: nat)
    requires k < 6 && |fields| == 6
  {
    forall v: nat | BoundsOf(k).min <= v <= BoundsOf(k).max :: Lists(fields, k, v)
  }

  // The time of day and the month of an instant are listed.
  ghost predicate TimeListed(c: Clock, fields: seq<string>, t: int)
    requires RangedAt(c, t) && |fields| == 6
  {
    && Lists(fields, 0, c.Second(t)) && Lists(fields, 1, c.Minute(t)) && Lists(fields, 2, c.Hour(t))
    && Lists(fields, 4, c.Month(t))
  }

  ghost predicate DayListed(c: Clock, fields: seq<string>, t: int)
    requires RangedAt(c, t) && |fields| == 6
  {
    Lists(fields, 3, c.Day(t))
  }

  ghost predicate WeekdayListed(c: Clock, fields: seq<string>, t: int)
    requires RangedAt(c, t) && |fields| == 6
  {
    Lists(fields, 5, c.weekday(t))
  }

  lemma StarOf(mask: Word, field: string, b: Bounds)
    requires b.Valid() && MaskOf(mask, field, b)
    ensures STAR_BIT in mask <==> exists w :: w in ListItems(field) && Starred(w)
  {
    StarBitMeaning(ListItems(field), b);
  }

  lemma StarsOf(s: Schedule, fields: seq<string>)
    requires Holds(s, fields)
    ensures STAR_BIT in s.day <==> HasStar(fields, 3)
    ensures STAR_BIT in s.week <==> HasStar(fields, 5)
  {
    StarOf(s.day, fields[3], BoundsOf(3));
    StarOf(s.week, fields[5], BoundsOf(5));
  }

  lemma BitIsListed(mask: Word, field: string, b: Bounds, v: nat)
    requires MaskOf(mask, field, b) && v < 64
    ensures v in mask <==> Listed(ListItems(field), b, v)
  {
  }

  lemma TimeMatches(c: Clock, s: Schedule, fields: seq<string>, t: int)
    requires RangedAt(c, t) && Holds(s, fields)
    ensures MonthMatches(c, s, t) && HourMatches(c, s, t) && MinuteMatches(c, s, t) && SecondMatches(c, s, t)
      <==> TimeListed(c, fields, t)
  {
    BitIsListed(s.second, fields[0], SECONDS, c.Second(t));
    BitIsListed(s.minute, fields[1], MINUTES, c.Minute(t));
    BitIsListed(s.hour, fields[2], HOURS, c.Hour(t));
    BitIsListed(s.month, fields[4], MONTHS, c.Month(t));
  }

  lemma DayMatchesIff(c: Clock, s: Schedule, fields: seq<string>, t: int)
    requires RangedAt(c, t) && Holds(s, fields)
    ensures HasStar(fields, 3) || HasStar(fields, 5) ==>
      (DayMatches(c, s, t) <==> DayListed(c, fields, t) && WeekdayListed(c, fields, t))
    ensures !HasStar(fields, 3) && !HasStar(fields, 5) ==>
      (DayMatches(c, s, t) <==> DayListed(c, fields, t) || WeekdayListed(c, fields, t))
  {
    StarsOf(s, fields);
    BitIsListed(s.day, fields[3], DAYS, c.Day(t));
    BitIsListed(s.week, fields[5], WEEKS, c.weekday(t));
  }

  lemma EveryDayListed(c: Clock, fields: seq<string>, t: int)
    requires RangedAt(c, t) && |fields| == 6
    ensures ListsAll(fields, 3) ==> DayListed(c, fields, t)
    ensures ListsAll(fields, 5) ==> WeekdayListed(c, fields, t)
  {
    assert BoundsOf(3).min <= c.Day(t) <= BoundsOf(3).max && BoundsOf(5).min <= c.weekday(t) <= BoundsOf(5).max;
  }

  /** Every day of the month starred: the schedule fires on the weekdays listed. */
  lemma AnyDayFollowsWeek(c: Clock, s: Schedule, fields: seq<string>, t: int)
    requires RangedAt(c, t) && Holds(s, fields) && HasStar(fields, 3) && ListsAll(fields, 3)
    ensures Matches(c, s, t) <==> TimeListed(c, fields, t) && WeekdayListed(c, fields, t)
  {
    TimeMatches(c, s, fields, t);
    DayMatchesIff(c, s, fields, t);
    EveryDayListed(c, fields, t);
  }

  /** Every weekday starred: the schedule fires on the days of the month listed. */
  lemma AnyWeekdayFollowsDay(c: Clock, s: Schedule, fields: seq<string>, t: int)
    requires RangedAt(c, t) && Holds(s, fields) && HasStar(fields, 5) && ListsAll(fields, 5)
    ensures Matches(c, s, t) <==> TimeListed(c, fields, t) && DayListed(c, fields, t)
  {
    TimeMatches(c, s, fields, t);
    DayMatchesIff(c, s, fields, t);
    EveryDayListed(c, fields, t);
  }

  /** No star in either field: one of them is enough. */
  lemma EitherDayIsEnough(c: Clock, s: Schedule, fields: seq<string>, t: int)
    requires RangedAt(c, t) && Holds(s, fields) && !HasStar(fields, 3) && !HasStar(fields, 5)
    ensures Matches(c, s, t) <==> TimeListed(c, fields, t) && (DayListed(c, fields, t) || WeekdayListed(c, fields, t))
  {
    TimeMatches(c, s, fields, t);
    DayMatchesIff(c, s, fields, t);
  }

  /** A star in either field: both have to agree, however many days the starred one lists. */
  lemma StarAsksForBoth(c: Clock, s: Schedule, fields: seq<string>, t: int)
    requires RangedAt(c, t) && Holds(s, fields) && (HasStar(fields, 3) || HasStar(fields, 5))
    ensures Matches(c, s, t) <==> TimeListed(c, fields, t) && DayListed(c, fields, t) && WeekdayListed(c, fields, t)
  {
    TimeMatches(c, s, fields, t);
    DayMatchesIff(c, s, fields, t);
  }

  // ---- from what is written to when it fires ----

  // Six lists of written items, as they may stand in a spec.
  ghost predicate WellWritten(ws: seq<seq<Written>>) {
    |ws| == 6 && forall k: nat | k < 6 :: ws[k] != [] && AllWritable(ws[k], BoundsOf(k))
  }

  function FieldTexts(ws: seq<seq<Written>>): (r: seq<string>)
    ensures |r| == |ws| && forall k | 0 <= k < |ws| :: r[k] == Join(ShowAll(ws[k]), ',')
  {
    seq(|ws|, k requires 0 <= k < |ws| => Join(ShowAll(ws[k]), ','))
  }

  function SpecText(ws: seq<seq<Written>>): string {
    Join(FieldTexts(ws), ' ')
  }

  ghost predicate Unspaced(s: string) {
    forall i | 0 <= i < |s| :: !IsSpace(s[i])
  }

  lemma ItoaUnspaced(n: nat)
    ensures Unspaced(Itoa(n))
  {
    forall i | 0 <= i < |Itoa(n)| ensures !IsSpace(Itoa(n)[i]) {
      assert Itoa(n)[i] in Itoa(n) && IsDigit(Itoa(n)[i]);
    }
  }

  lemma AtomUnspaced(a: Atom, b: Bounds)
    requires a.Fits(b)
    ensures Unspaced(a.Text())
  {
    if a.Num? {
      ItoaUnspaced(a.n);
    } else {
      forall i | 0 <= i < |a.word| ensures !IsSpace(a.word[i]) {
        SpelledInLetters(a.word, a.name, a.word[i]);
      }
    }
  }

  lemma ShowUnspaced(w: Written, b: Bounds)
    requires w.Fits(b)
    ensures Unspaced(w.Show())
  {
    match w.span {
      case Value(at) => AtomUnspaced(at, b);
      case Range(lo, hi) =>
        AtomUnspaced(lo, b);
        AtomUnspaced(hi, b);
      case _ =>
    }
    assert Unspaced(w.SpanText());
    if w.Stepped? {
      ItoaUnspaced(w.step);
    }
  }

  lemma {:induction false} JoinUnspaced(words: seq<string>, sep: char)
    requires !IsSpace(sep) && forall i | 0 <= i < |words| :: Unspaced(words[i])
    ensures Unspaced(Join(words, sep))
  {
    if |words| > 1 {
      JoinUnspaced(words[1..], sep);
    }
  }

  lemma {:induction false} JoinNotEmpty(words: seq<string>, sep: char)
    requires words != [] && words[0] != []
    ensures Join(words, sep) != []
  {
  }

  lemma {:induction false} BlankedSame(s: string)
    requires forall i | 0 <= i < |s| :: IsSpace(s[i]) ==> s[i] == ' '
    ensures Blanked(s) == s
  {
    if s != [] {
      BlankedSame(s[1..]);
      assert s == [s[0]] + s[1..];
    }
  }

  ghost predicate OnlyBlanks(s: string) {
    forall i | 0 <= i < |s| :: IsSpace(s[i]) ==> s[i] == ' '
  }

  lemma {:induction false} JoinBlanks(words: seq<string>)
    requires forall i | 0 <= i < |words| :: Unspaced(words[i])
    ensures OnlyBlanks(Join(words, ' '))
  {
    if |words| > 1 {
      JoinBlanks(words[1..]);
      assert OnlyBlanks(words[0] + [' ']);
    }
  }

  lemma FieldText(w: seq<Written>, b: Bounds)
    requires w != [] && AllWritable(w, b)
    ensures Unspaced(Join(ShowAll(w), ',')) && Join(ShowAll(w), ',') != []
  {
    forall i | 0 <= i < |w| ensures Unspaced(ShowAll(w)[i]) {
      assert Writable(w[i], b);
      ShowUnspaced(w[i], b);
    }
    JoinUnspaced(ShowAll(w), ',');
    assert Writable(w[0], b);
    ShowSplits(w[0], b);
    JoinNotEmpty(ShowAll(w), ',');
  }

  // The fields of a spec are read back one by one, however many.
  lemma FieldsRead(ws: seq<seq<Written>>)
    requires 0 < |ws| <= 6 && forall k: nat | k < |ws| :: ws[k] != [] && AllWritable(ws[k], BoundsOf(k))
    ensures Fields(SpecText(ws)) == FieldTexts(ws)
  {
    var texts := FieldTexts(ws);
    forall k | 0 <= k < |ws| ensures Unspaced(texts[k]) && texts[k] != [] && ' ' !in texts[k] {
      FieldText(ws[k], BoundsOf(k));
      assert IsSpace(' ');
    }
    JoinBlanks(texts);
    BlankedSame(SpecText(ws));
    SplitJoin(texts, ' ');
    NonEmptyKeepsAll(texts);
  }

  /** The six fields of a spec are read back one by one. */
  lemma SpecFields(ws: seq<seq<Written>>)
    requires WellWritten(ws)
    ensures Six(Fields(SpecText(ws))) == FieldTexts(ws)
  {
    FieldsRead(ws);
  }

  /** A spec of five fields is one of six with a star for the weekday. */
  lemma FiveFields(ws: seq<seq<Written>>)
    requires |ws| == 5 && forall k: nat | k < 5 :: ws[k] != [] && AllWritable(ws[k], BoundsOf(k))
    ensures Six(Fields(SpecText(ws))) == FieldTexts(ws + [STAR])
  {
    FieldsRead(ws);
    assert STAR[0].Show() == "*" && ShowAll(STAR) == ["*"] && Join(ShowAll(STAR), ',') == "*";
    assert FieldTexts(ws + [STAR]) == FieldTexts(ws) + ["*"];
  }

  // An item of the k-th field means v.
  ghost predicate Says(ws: seq<seq<Written>>, k: nat, v: nat)
    requires k < 6 == |ws|
  {
    Means(ws[k], BoundsOf(k), v)
  }

  // An item is written with a star or a question mark.
  ghost predicate SaysAny(ws: seq<seq<Written>>, k: nat)
    requires k < |ws|
  {
    exists i :: 0 <= i < |ws[k]| && (ws[k][i].span.Every? || ws[k][i].span.Any?)
  }

  lemma StarredShow(w: Written, b: Bounds)
    requires w.Fits(b) && NamesAreWords(b)
    ensures Starred(w.Show()) <==> w.span.Every? || w.span.Any?
  {
    ShowSplits(w, b);
    SpanSplits(w, b);
    match w.span
    case Value(at) => AtomParses(at, b);
    case Range(lo, hi) => AtomParses(lo, b);
    case _ =>
  }

  lemma SaysIsLists(ws: seq<seq<Written>>, k: nat, v: nat)
    requires WellWritten(ws) && k < 6
    ensures Lists(FieldTexts(ws), k, v) <==> Says(ws, k, v)
  {
    WrittenListMeaning(ws[k], BoundsOf(k), v);
  }

  lemma SaysAnyIsStar(ws: seq<seq<Written>>, k: nat)
    requires WellWritten(ws) && k < 6
    ensures HasStar(FieldTexts(ws), k) <==> SaysAny(ws, k)
  {
    var w, b := ws[k], BoundsOf(k);
    assert AllWritable(w, b);
    assert forall i | 0 <= i < |w| :: w[i].Fits(b) by {
      assert forall i | 0 <= i < |w| :: Writable(w[i], b);
    }
    ShownListItems(w, b);
    forall i | 0 <= i < |w| ensures Starred(ShowAll(w)[i]) <==> w[i].span.Every? || w[i].span.Any? {
      StarredShow(w[i], b);
    }
    if HasStar(FieldTexts(ws), k) {
      var t :| t in ShowAll(w) && Starred(t);
      var i :| 0 <= i < |w| && ShowAll(w)[i] == t;
    }
    if SaysAny(ws, k) {
      var i :| 0 <= i < |w| && (w[i].span.Every? || w[i].span.Any?);
      assert ShowAll(w)[i] in ShowAll(w);
    }
  }

  // The time of day and the month of an instant are among those written.
  ghost predicate SaysTime(c: Clock, ws: seq<seq<Written>>, t: int)
    requires RangedAt(c, t) && |ws| == 6
  {
    && Says(ws, 0, c.Second(t)) && Says(ws, 1, c.Minute(t)) && Says(ws, 2, c.Hour(t))
    && Says(ws, 4, c.Month(t))
  }

  /** From text to firing: a spec fires at the written times, on days on which both day fields agree if one of them is
      written with a star, and on days that either of them names if none is. */
  lemma SpecFires(c: Clock, s: Schedule, ws: seq<seq<Written>>, t: int)
    requires RangedAt(c, t) && WellWritten(ws) && Holds(s, Six(Fields(SpecText(ws))))
    ensures SaysAny(ws, 3) || SaysAny(ws, 5) ==>
      (Matches(c, s, t) <==> SaysTime(c, ws, t) && Says(ws, 3, c.Day(t)) && Says(ws, 5, c.weekday(t)))
    ensures !SaysAny(ws, 3) && !SaysAny(ws, 5) ==>
      (Matches(c, s, t) <==> SaysTime(c, ws, t) && (Says(ws, 3, c.Day(t)) || Says(ws, 5, c.weekday(t))))
  {
    var fields := FieldTexts(ws);
    SpecFields(ws);
    TimeIsWritten(c, ws, t);
    SaysIsLists(ws, 3, c.Day(t));
    SaysIsLists(ws, 5, c.weekday(t));
    SaysAnyIsStar(ws, 3);
    SaysAnyIsStar(ws, 5);
    if HasStar(fields, 3) || HasStar(fields, 5) {
      StarAsksForBoth(c, s, fields, t);
    } else {
      EitherDayIsEnough(c, s, fields, t);
    }
  }

  lemma TimeIsWritten(c: Clock, ws: seq<seq<Written>>, t: int)
    requires RangedAt(c, t) && WellWritten(ws)
    ensures TimeListed(c, FieldTexts(ws), t) <==> SaysTime(c, ws, t)
  {
    SaysIsLists(ws, 0, c.Second(t));
    SaysIsLists(ws, 1, c.Minute(t));
    SaysIsLists(ws, 2, c.Hour(t));
    SaysIsLists(ws, 4, c.Month(t));
  }

  // ---- documented specs ----

  function Number(n: nat): Written { Plain(Value(Num(n))) }

  const STAR := [Plain(Every)]

  lemma NumberIsWritable(n: nat, b: Bounds)
    requires b.min <= n <= b.max <= MAX_INT64
    ensures Writable(Number(n), b) && forall v: nat :: Covers(Number(n).Meaning(b), v) <==> v == n
  {
  }

  lemma StarIsWritable(b: Bounds)
    requires b.Valid()
    ensures AllWritable(STAR, b) && forall v: nat | v < STAR_BIT :: Means(STAR, b, v) <==> b.min <= v <= b.max
  {
    forall v: nat | v < STAR_BIT ensures Means(STAR, b, v) <==> b.min <= v <= b.max {
      assert Covers(STAR[0].Meaning(b), v) <==> b.min <= v <= b.max;
    }
  }

  lemma OneNumber(n: nat, b: Bounds)
    requires b.min <= n <= b.max <= MAX_INT64
    ensures AllWritable([Number(n)], b) && forall v: nat :: Means([Number(n)], b, v) <==> v == n
  {
    NumberIsWritable(n, b);
    forall v: nat ensures Means([Number(n)], b, v) <==> v == n {
      assert Covers([Number(n)][0].Meaning(b), v) <==> v == n;
    }
  }

  lemma TwoNumbers(m: nat, n: nat, b: Bounds)
    requires b.min <= m <= b.max <= MAX_INT64 && b.min <= n <= b.max
    ensures AllWritable([Number(m), Number(n)], b)
    ensures forall v: nat :: Means([Number(m), Number(n)], b, v) <==> v == m || v == n
  {
    var w := [Number(m), Number(n)];
    NumberIsWritable(m, b);
    NumberIsWritable(n, b);
    forall v: nat ensures Means(w, b, v) <==> v == m || v == n {
      assert Covers(w[0].Meaning(b), v) <==> v == m;
      assert Covers(w[1].Meaning(b), v) <==> v == n;
    }
  }

  // The lists of a spec with a number for second, minute and hour, and any month.
  function OnDays(h: nat, day: seq<Written>, week: seq<Written>): (ws: seq<seq<Written>>)
    ensures |ws| == 6
  {
    [[Number(0)], [Number(0)], [Number(h)], day, STAR, week]
  }

  lemma Shown(n: nat)
    requires n < 100
    ensures Itoa(n) == if n < 10 then [Digit(n)] else [Digit(n / 10), Digit(n % 10)]
    ensures Join(ShowAll([Number(n)]), ',') == Itoa(n)
  {
    assert Number(n).Show() == Itoa(n) && ShowAll([Number(n)]) == [Itoa(n)];
    if n >= 10 {
      assert Itoa(n / 10) == [Digit(n / 10)];
    }
  }

  lemma JoinSix(a: string, b: string, c: string, d: string, e: string, f: string)
    ensures Join([a, b, c, d, e, f], ' ') == a + " " + b + " " + c + " " + d + " " + e + " " + f
  {
    assert [e, f][1..] == [f] && [d, e, f][1..] == [e, f] && [c, d, e, f][1..] == [d, e, f];
    assert [b, c, d, e, f][1..] == [c, d, e, f] && [a, b, c, d, e, f][1..] == [b, c, d, e, f];
    assert Join([e, f], ' ') == e + " " + f;
    assert Join([d, e, f], ' ') == d + " " + (e + " " + f);
    assert Join([c, d, e, f], ' ') == c + " " + (d + " " + (e + " " + f));
    assert Join([b, c, d, e, f], ' ') == b + " " + (c + " " + (d + " " + (e + " " + f)));
  }

  lemma SixWritten(ws: seq<seq<Written>>)
    requires |ws| == 6 && forall k | 0 <= k < 6 :: ws[k] != []
    requires AllWritable(ws[0], SECONDS) && AllWritable(ws[1], MINUTES) && AllWritable(ws[2], HOURS)
    requires AllWritable(ws[3], DAYS) && AllWritable(ws[4], MONTHS) && AllWritable(ws[5], WEEKS)
    ensures WellWritten(ws)
  {
  }

  lemma OnDaysWritten(h: nat, day: seq<Written>, week: seq<Written>)
    requires h < 24 && day != [] && week != [] && AllWritable(day, DAYS) && AllWritable(week, WEEKS)
    ensures WellWritten(OnDays(h, day, week))
  {
    OneNumber(0, SECONDS);
    OneNumber(h, HOURS);
    StarIsWritable(MONTHS);
    SixWritten(OnDays(h, day, week));
  }

  lemma SixTexts(ws: seq<seq<Written>>, a: string, b: string, c: string, d: string, e: string, f: string)
    requires |ws| == 6 && Join(ShowAll(ws[0]), ',') == a && Join(ShowAll(ws[1]), ',') == b
    requires Join(ShowAll(ws[2]), ',') == c && Join(ShowAll(ws[3]), ',') == d
    requires Join(ShowAll(ws[4]), ',') == e && Join(ShowAll(ws[5]), ',') == f
    ensures SpecText(ws) == a + " " + b + " " + c + " " + d + " " + e + " " + f
  {
    assert FieldTexts(ws) == [a, b, c, d, e, f];
    JoinSix(a, b, c, d, e, f);
  }

  lemma MondaysText(ws: seq<seq<Written>>)
    requires ws == OnDays(17, STAR, [Number(1)])
    ensures SpecText(ws) == "0 0 17 * * 1"
  {
    MondayText();
    Shown(0);
    Shown(17);
    SixTexts(ws, "0", "0", "17", "*", "*", "1");
    assert "0" + " " + "0" + " " + "17" + " " + "*" + " " + "*" + " " + "1" == "0 0 17 * * 1";
  }

  lemma FirstAndFifteenthText(ws: seq<seq<Written>>)
    requires ws == OnDays(0, [Number(1), Number(15)], [Number(1)])
    ensures SpecText(ws) == "0 0 0 1,15 * 1"
  {
    MondayText();
    FifteenthText();
    Shown(0);
    SixTexts(ws, "0", "0", "0", "1,15", "*", "1");
    assert "0" + " " + "0" + " " + "0" + " " + "1,15" + " " + "*" + " " + "1" == "0 0 0 1,15 * 1";
  }

  // The text of the list of one number.
  lemma MondayText()
    ensures Join(ShowAll([Number(1)]), ',') == "1" && Join(ShowAll(STAR), ',') == "*"
  {
    Shown(1);
    assert STAR[0].Show() == "*" && ShowAll(STAR) == ["*"];
  }

  lemma FifteenthText()
    ensures Join(ShowAll([Number(1), Number(15)]), ',') == "1,15"
  {
    Shown(1);
    Shown(15);
    var two := [Number(1), Number(15)];
    assert two[0].Show() == "1" && two[1].Show() == "15";
    assert ShowAll(two) == ["1", "15"] && ["1", "15"][1..] == ["15"];
    assert Join(ShowAll(two), ',') == "1" + "," + "15";
  }

  // A number for second, minute and hour, and any month.
  lemma SaysTimeOfDay(c: Clock, ws: seq<seq<Written>>, t: int, h: nat, m: nat)
    requires RangedAt(c, t) && |ws| == 6 && h < 24 && m < 60
    requires ws[0] == [Number(0)] && ws[1] == [Number(m)] && ws[2] == [Number(h)] && ws[4] == STAR
    ensures SaysTime(c, ws, t) <==> c.Hour(t) == h && c.Minute(t) == m && c.Second(t) == 0
  {
    OneNumber(0, SECONDS);
    OneNumber(m, MINUTES);
    OneNumber(h, HOURS);
    StarIsWritable(MONTHS);
    assert Says(ws, 4, c.Month(t));
    assert Says(ws, 0, c.Second(t)) <==> c.Second(t) == 0;
    assert Says(ws, 1, c.Minute(t)) <==> c.Minute(t) == m;
    assert Says(ws, 2, c.Hour(t)) <==> c.Hour(t) == h;
  }

  // Such a spec, by what its two day fields mean.
  lemma TimeOfDayFires(c: Clock, s: Schedule, ws: seq<seq<Written>>, t: int, h: nat, m: nat)
    requires RangedAt(c, t) && WellWritten(ws) && Holds(s, Six(Fields(SpecText(ws)))) && h < 24 && m < 60
    requires ws[0] == [Number(0)] && ws[1] == [Number(m)] && ws[2] == [Number(h)] && ws[4] == STAR
    ensures Matches(c, s, t) <==>
      && c.Hour(t) == h && c.Minute(t) == m && c.Second(t) == 0
      && (if SaysAny(ws, 3) || SaysAny(ws, 5) then Says(ws, 3, c.Day(t)) && Says(ws, 5, c.weekday(t))
          else Says(ws, 3, c.Day(t)) || Says(ws, 5, c.weekday(t)))
  {
    SpecFires(c, s, ws, t);
    SaysTimeOfDay(c, ws, t, h, m);
  }

  lemma SaysWhatItMeans(ws: seq<seq<Written>>, day: nat, weekday: nat)
    requires |ws| == 6
    ensures Says(ws, 3, day) <==> Means(ws[3], DAYS, day)
    ensures Says(ws, 5, weekday) <==> Means(ws[5], WEEKS, weekday)
    ensures SaysAny(ws, 3) <==> AnyIn(ws[3])
    ensures SaysAny(ws, 5) <==> AnyIn(ws[5])
  {
  }

  ghost predicate AnyIn(w: seq<Written>) {
    exists i :: 0 <= i < |w| && (w[i].span.Every? || w[i].span.Any?)
  }

  lemma MondayMeans(day: nat, weekday: nat)
    requires 1 <= day <= 31 && weekday <= 6
    ensures AnyIn(STAR) && Means(STAR, DAYS, day) && (Means([Number(1)], WEEKS, weekday) <==> weekday == 1)
    ensures !AnyIn([Number(1)])
  {
    OneNumber(1, WEEKS);
    StarIsWritable(DAYS);
    assert STAR[0].span.Every?;
  }

  lemma MondaysWritten(ws: seq<seq<Written>>)
    requires ws == OnDays(17, STAR, [Number(1)])
    ensures WellWritten(ws)
  {
    OneNumber(1, WEEKS);
    StarIsWritable(DAYS);
    OnDaysWritten(17, STAR, [Number(1)]);
  }

  lemma FirstAndFifteenthWritten(ws: seq<seq<Written>>)
    requires ws == OnDays(0, [Number(1), Number(15)], [Number(1)])
    ensures WellWritten(ws)
  {
    OneNumber(1, WEEKS);
    TwoNumbers(1, 15, DAYS);
    OnDaysWritten(0, [Number(1), Number(15)], [Number(1)]);
  }

  lemma MondaysFire(c: Clock, s: Schedule, ws: seq<seq<Written>>, t: int)
    requires ws == OnDays(17, STAR, [Number(1)]) && RangedAt(c, t) && Holds(s, Six(Fields(SpecText(ws))))
    ensures Matches(c, s, t) <==> c.weekday(t) == 1 && c.Hour(t) == 17 && c.Minute(t) == 0 && c.Second(t) == 0
  {
    MondaysWritten(ws);
    MondayMeans(c.Day(t), c.weekday(t));
    SaysWhatItMeans(ws, c.Day(t), c.weekday(t));
    TimeOfDayFires(c, s, ws, t, 17, 0);
  }

  /** "0 0 17 * * 1" fires at 17:00 on every Monday and at no other time. */
  lemma FiresOnMondays(c: Clock, s: Schedule, spec: string, t: int)
    requires spec == "0 0 17 * * 1" && RangedAt(c, t) && Holds(s, Six(Fields(spec)))
    ensures Matches(c, s, t) <==> c.weekday(t) == 1 && c.Hour(t) == 17 && c.Minute(t) == 0 && c.Second(t) == 0
  {
    var ws := OnDays(17, STAR, [Number(1)]);
    MondaysText(ws);
    MondaysFire(c, s, ws, t);
  }

  lemma FifteenthMeans(day: nat)
    ensures Means([Number(1), Number(15)], DAYS, day) <==> day == 1 || day == 15
    ensures !AnyIn([Number(1), Number(15)])
  {
    TwoNumbers(1, 15, DAYS);
  }

  predicate MondayAtFive(c: Clock, t: int) {
    c.weekday(t) == 1 && c.Hour(t) == 17 && c.Minute(t) == 0 && c.Second(t) == 0
  }

  /** Asked at any instant, it is next due at the first Monday, 17:00, after that instant. */
  lemma NextIsMonday(c: Clock, s: Schedule, spec: string, nanos: int)
    requires spec == "0 0 17 * * 1" && c.Lawful() && Ranged(c) && Holds(s, Six(Fields(spec)))
    ensures var r := NextTime(c, s, nanos);
      r.Some? ==>
        && nanos < r.value * NANOSECONDS && MondayAtFive(c, r.value)
        && forall u | nanos < u * NANOSECONDS && u < r.value :: !MondayAtFive(c, u)
  {
    NextTimeIsEarliest(c, s, nanos);
    forall u ensures Matches(c, s, u) <==> MondayAtFive(c, u) {
      assert RangedAt(c, u);
      FiresOnMondays(c, s, spec, u);
    }
  }

  /** The fields of every fixed-offset Gregorian clock are within their ranges. */
  lemma GregorianIsRanged(offset: int)
    ensures Ranged(GregorianClocks.GregorianClock(offset))
  {
    forall t ensures RangedAt(GregorianClocks.GregorianClock(offset), t) {
      GregorianClocks.GregorianClockShows(offset, t);
    }
  }

  lemma FirstAndFifteenthFire(c: Clock, s: Schedule, ws: seq<seq<Written>>, t: int)
    requires ws == OnDays(0, [Number(1), Number(15)], [Number(1)]) && RangedAt(c, t)
    requires Holds(s, Six(Fields(SpecText(ws))))
    ensures Matches(c, s, t) <==>
      && c.Hour(t) == 0 && c.Minute(t) == 0 && c.Second(t) == 0
      && (c.Day(t) == 1 || c.Day(t) == 15 || c.weekday(t) == 1)
  {
    FirstAndFifteenthWritten(ws);
    MondayMeans(c.Day(t), c.weekday(t));
    FifteenthMeans(c.Day(t));
    SaysWhatItMeans(ws, c.Day(t), c.weekday(t));
    TimeOfDayFires(c, s, ws, t, 0, 0);
  }

  /** "0 0 0 1,15 * 1", documented as 0:00 on the 1st and the 15th day of a month, fires on every Monday as well. */
  lemma FiresOnMondaysToo(c: Clock, s: Schedule, spec: string, t: int)
    requires spec == "0 0 0 1,15 * 1" && RangedAt(c, t) && Holds(s, Six(Fields(spec)))
    ensures Matches(c, s, t) <==>
      && c.Hour(t) == 0 && c.Minute(t) == 0 && c.Second(t) == 0
      && (c.Day(t) == 1 || c.Day(t) == 15 || c.weekday(t) == 1)
  {
    var ws := OnDays(0, [Number(1), Number(15)], [Number(1)]);
    FirstAndFifteenthText(ws);
    FirstAndFifteenthFire(c, s, ws, t);
  }

  // ---- parseSpec ----

  method AllOf(b: Bounds) returns (w: Word)
    requires b.Valid()
    ensures STAR_BIT in w && forall v: nat | v < STAR_BIT :: v in w <==> b.min <= v <= b.max
  {
    var bits := GetBits(b.min, b.max, 1);
    SingleBit(STAR_BIT);
    w := bits + Single(STAR_BIT);
  }

  // When the descriptors are meant to fire.
  ghost predicate Due(c: Clock, spec: string, t: int) {
    && c.Second(t) == 0 && c.Minute(t) == 0 && (spec == "@hourly" || c.Hour(t) == 0)
    && (spec in {"@yearly", "@annually", "@monthly"} ==> c.Day(t) == 1)
    && (spec in {"@yearly", "@annually"} ==> c.Month(t) == 1)
    && (spec == "@weekly" ==> c.weekday(t) == 0)
  }

  const DESCRIPTORS := {"@yearly", "@annually", "@monthly", "@weekly", "@daily", "@midnight", "@hourly"}

  /** parseSpec: each descriptor fires when its name says. */
  method ParseDescriptor(spec: string) returns (r: Parse<Schedule>)
    ensures r.Ok? <==> spec in DESCRIPTORS
    ensures !r.NeverEnds?
    ensures r.Ok? ==> forall c: Clock, t | RangedAt(c, t) :: Matches(c, r.value, t) <==> Due(c, spec, t)
  {
    var hours := AllOf(HOURS);
    var days := AllOf(DAYS);
    var months := AllOf(MONTHS);
    var weeks := AllOf(WEEKS);
    SingleBit(0);
    SingleBit(1);
    var zero, one := Single(0), Single(1);
    if spec == "@yearly" || spec == "@annually" {
      r := Ok(Schedule(zero, zero, zero, one, one, weeks));
    } else if spec == "@monthly" {
      r := Ok(Schedule(zero, zero, zero, one, months, weeks));
    } else if spec == "@weekly" {
      r := Ok(Schedule(zero, zero, zero, days, months, zero));
    } else if spec == "@daily" || spec == "@midnight" {
      r := Ok(Schedule(zero, zero, zero, days, months, weeks));
    } else if spec == "@hourly" {
      r := Ok(Schedule(zero, zero, hours, days, months, weeks));
    } else {
      r := Panics;
    }
  }

  /** parse. */
  method ParseSpec(spec: string) returns (r: Parse<Schedule>)
    ensures spec != [] && spec[0] == '@' && r.Ok? ==>
      forall c: Clock, t | RangedAt(c, t) :: Matches(c, r.value, t) <==> Due(c, spec, t)
    ensures (spec == [] || spec[0] != '@') && r.Ok? ==> Holds(r.value, Six(Fields(spec)))
  {
    if spec != [] && spec[0] == '@' {
      r := ParseDescriptor(spec);
    } else {
      r := ParseFields(spec);
    }
  }
}
