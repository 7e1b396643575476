/** The file log writer: writes, rotations and reopenings over an abstract directory of files. Each call runs
    alone, as the writer's lock demands. */
module FileLogs {
  import opened Wrappers
  import opened Text

  // What one write left in a file: the whole line, or the part that was out when the write failed.
  datatype Chunk = Whole(text: string) | Torn(text: string)

  type File = seq<Chunk>
  type Files = map<string, File>

  function Bytes(file: File): string {
    if file == [] then [] else Bytes(file[..|file| - 1]) + file[|file| - 1].text
  }

  // The whole lines of a file, in order.
  function Wholes(file: File): seq<string> {
    if file == [] then []
    else
      var last := file[|file| - 1];
      Wholes(file[..|file| - 1]) + if last.Whole? then [last.text] else []
  }

  function Newlines(s: string): nat {
    if s == [] then 0 else Newlines(s[1..]) + if s[0] == '\n' then 1 else 0
  }

  function Content(files: Files, name: string): File {
    if name in files then files[name] else []
  }

  // The files one after the other.
  function Stream(files: Files, names: seq<string>): File {
    if names == [] then [] else Stream(files, names[..|names| - 1]) + Content(files, names[|names| - 1])
  }

  predicate EndsWith(file: File, line: string) {
    file != [] && file[|file| - 1] == Whole(line)
  }

  // Other files than the log file are still there with what they held.
  ghost predicate Kept(before: Files, after: Files, name: string) {
    forall f | f in before && f != name :: f in after && after[f] == before[f]
  }

  // Every new file is the log file or an archive.
  ghost predicate Accounted(before: Files, after: Files, name: string, archived: seq<string>) {
    forall f | f in after :: f in before || f == name || f in archived
  }

  // From before to after no file was overwritten, none appeared unaccounted for, and no archive was forgotten.
  ghost predicate Safe(before: Files, was: seq<string>, after: Files, now: seq<string>, name: string) {
    Kept(before, after, name) && Accounted(before, after, name, now) && was <= now
  }

  lemma SafeChain(f0: Files, a0: seq<string>, f1: Files, a1: seq<string>, f2: Files, a2: seq<string>, name: string)
    requires Safe(f0, a0, f1, a1, name) && Safe(f1, a1, f2, a2, name)
    ensures Safe(f0, a0, f2, a2, name)
  {
    forall f | f in f2 ensures f in f0 || f == name || f in a2 {
      if f in a1 {
        var i :| 0 <= i < |a1| && a1[i] == f;
        assert a2[i] == f;
      }
    }
  }

  // Either nothing was archived, or what the log file held now stands in one file that was not there before.
  ghost predicate Archived(before: Files, was: seq<string>, after: Files, now: seq<string>, name: string) {
    || now == was
    || (now != [] && now[..|now| - 1] == was && StandsIn(before, after, name, now[|now| - 1]))
  }

  lemma ArchivedBy(before: Files, was: seq<string>, after: Files, target: string, name: string)
    requires StandsIn(before, after, name, target)
    ensures Archived(before, was, after, was + [target], name) && was + [target] != was
  {
    var now := was + [target];
    assert now[..|now| - 1] == was;
  }

  ghost predicate StandsIn(before: Files, after: Files, name: string, target: string) {
    target !in before && target in after && after[target] == Content(before, name)
  }

  // The archives, in the order of their rotations, and then the log file hold exactly these lines in this
  // order, and no file stands in that list twice.
  ghost predicate Recorded(files: Files, archived: seq<string>, name: string, acked: seq<string>) {
    && name !in archived
    && (forall i, j | 0 <= i < j < |archived| :: archived[i] != archived[j])
    && (forall a | a in archived :: a in files)
    && Wholes(Stream(files, archived) + Content(files, name)) == acked
  }

  lemma ArchivedThenKept(before: Files, was: seq<string>, mid: Files, now: seq<string>, after: Files, name: string)
    requires Archived(before, was, mid, now, name) && Kept(mid, after, name) && name !in now
    ensures Archived(before, was, after, now, name)
  {
  }

  lemma {:induction false} StreamFrame(before: Files, after: Files, names: seq<string>)
    requires forall n | n in names :: Content(before, n) == Content(after, n)
    ensures Stream(before, names) == Stream(after, names)
  {
    if names != [] {
      StreamFrame(before, after, names[..|names| - 1]);
    }
  }

  lemma AppendRecorded(files: Files, archived: seq<string>, name: string, acked: seq<string>, chunk: Chunk)
    requires Recorded(files, archived, name, acked) && name in files
    ensures Recorded(files[name := files[name] + [chunk]], archived, name,
      acked + if chunk.Whole? then [chunk.text] else [])
  {
    var after := files[name := files[name] + [chunk]];
    StreamFrame(files, after, archived);
    var was, now := Stream(files, archived) + files[name], Stream(after, archived) + after[name];
    assert now == was + [chunk];
    assert now[..|now| - 1] == was;
  }

  lemma CreateRecorded(files: Files, archived: seq<string>, name: string, acked: seq<string>)
    requires Recorded(files, archived, name, acked) && name !in files
    ensures Recorded(files[name := []], archived, name, acked)
  {
    StreamFrame(files, files[name := []], archived);
  }

  function Renamed(files: Files, name: string, target: string): Files
    requires name in files
  {
    (files - {name})[target := files[name]]
  }

  lemma RenameRecorded(files: Files, archived: seq<string>, name: string, acked: seq<string>, target: string)
    requires Recorded(files, archived, name, acked) && name in files && target !in files
    ensures Recorded(Renamed(files, name, target), archived + [target], name, acked)
    ensures Kept(files, Renamed(files, name, target), name)
  {
    var after, names := Renamed(files, name, target), archived + [target];
    StreamFrame(files, after, archived);
    assert names[..|names| - 1] == archived;
    assert Stream(after, names) + Content(after, name) == Stream(files, archived) + Content(files, name);
  }

  lemma BytesAppend(file: File, chunk: Chunk)
    ensures Bytes(file + [chunk]) == Bytes(file) + chunk.text
  {
    assert (file + [chunk])[..|file|] == file;
  }

  lemma {:induction false} NewlinesSplit(s: string, t: string)
    ensures Newlines(s + t) == Newlines(s) + Newlines(t)
  {
    if s == [] {
      assert s + t == t;
    } else {
      NewlinesSplit(s[1..], t);
      assert (s + t)[1..] == s[1..] + t;
    }
  }

  /** Line ends are counted as a multiset counts them. */
  lemma {:induction false} NewlinesAreCounted(s: string)
    ensures Newlines(s) == multiset(s)['\n']
  {
    if s != [] {
      NewlinesAreCounted(s[1..]);
      assert s == [s[0]] + s[1..];
    }
  }

  // ---- the settings and the surroundings ----

  // A moment: its day of the month, its hour, and how it prints as a day and as an hour.
  datatype Instant = Instant(day: nat, hour: nat, dayStamp: string, hourStamp: string)

  datatype Config = Config(
    fileName: string, base: string, suffix: string,
    maxLines: int, maxFiles: int, maxSize: int,
    daily: bool, hourly: bool, rotate: bool, level: int,
    rotatePermParses: bool)

  // What the operating system answers during one call; torn is how much of a failing write got out.
  datatype World = World(
    now: Instant, lstatWorks: bool, renameWorks: bool, chmodWorks: bool,
    openWorks: bool, statWorks: bool, readWorks: bool, torn: Option<nat>)

  function Pad3(n: nat): string {
    var s := Itoa(n);
    if |s| < 3 then Zeros(3 - |s|) + s else s
  }

  function Zeros(n: nat): string {
    if n == 0 then [] else ['0'] + Zeros(n - 1)
  }

  function Stamp(c: Config, t: Instant): string {
    if c.hourly then t.hourStamp else if c.daily then t.dayStamp else ""
  }

  function ArchiveName(c: Config, stamp: string, num: nat): string {
    c.base + "." + stamp + "." + Pad3(num) + c.suffix
  }

  lemma {:induction false} ZerosInFront(k: nat, s: string)
    requires forall c | c in s :: IsDigit(c)
    ensures (forall c | c in Zeros(k) + s :: IsDigit(c)) && DigitsValue(Zeros(k) + s) == DigitsValue(s)
    ensures |Zeros(k)| == k
  {
    if k == 0 {
      assert Zeros(k) + s == s;
    } else {
      ZerosInFront(k - 1, s);
      assert Zeros(k) + s == ['0'] + (Zeros(k - 1) + s);
      LeadingZero(Zeros(k - 1) + s);
    }
  }

  lemma {:induction false} LeadingZero(s: string)
    requires forall c | c in s :: IsDigit(c)
    ensures DigitsValue(['0'] + s) == DigitsValue(s)
  {
    if s != [] {
      var n := |s| - 1;
      LeadingZero(s[..n]);
      assert (['0'] + s)[..n + 1] == ['0'] + s[..n];
    } else {
      assert ['0'] + s == ['0'] && ['0'][..0] == [];
    }
  }

  /** A number is written with at least three digits, and different numbers differently. */
  lemma Pad3Reads(n: nat)
    ensures |Pad3(n)| >= 3 && (forall c | c in Pad3(n) :: IsDigit(c)) && DigitsValue(Pad3(n)) == n
    ensures n < 1000 ==> |Pad3(n)| == 3
  {
    ItoaValue(n);
    if |Itoa(n)| < 3 {
      ZerosInFront(3 - |Itoa(n)|, Itoa(n));
    }
    if n < 1000 {
      assert n >= 10 ==> |Itoa(n)| == |Itoa(n / 10)| + 1;
      assert n >= 100 ==> |Itoa(n / 10)| == |Itoa(n / 10 / 10)| + 1;
    }
  }

  const BLOCK := 32768

  method CountLines(text: string) returns (count: nat)
    ensures count == Newlines(text)
  {
    count := 0;
    var pos := 0;
    while pos < |text|
      invariant pos <= |text|
      invariant count == Newlines(text[..pos])
    {
      var end := if |text| - pos < BLOCK then |text| else pos + BLOCK;
      count := count + Newlines(text[pos..end]);
      assert text[..end] == text[..pos] + text[pos..end];
      NewlinesSplit(text[..pos], text[pos..end]);
      pos := end;
    }
    assert text[..pos] == text;
  }

  datatype Event =
    | Write(when: Instant, line: string, level: int, world: World)
    | DayTimer(world: World)
    | HourTimer(world: World)

  // No more of a line gets out than there is.
  predicate Possible(e: Event) {
    e.Write? && e.world.torn.Some? ==> e.world.torn.value <= |e.line|
  }

  function Reply(e: Event, ok: bool, level: int): seq<string> {
    if e.Write? && e.level <= level && ok then [e.line] else []
  }

  lemma AcknowledgedStep(before: seq<string>, events: seq<Event>, oks: seq<bool>, ok: bool, level: int)
    requires |oks| + 1 == |events|
    ensures before + Acknowledged(events, oks + [ok], level)
      == before + Acknowledged(events[..|oks|], oks, level) + Reply(events[|oks|], ok, level)
  {
    var n := |oks|;
    assert (oks + [ok])[..n] == oks;
  }

  // The lines that the events wrote with no error, in order.
  function Acknowledged(events: seq<Event>, oks: seq<bool>, level: int): seq<string>
    requires |events| == |oks|
  {
    if events == [] then []
    else
      var n := |events| - 1;
      Acknowledged(events[..n], oks[..n], level)
      + Reply(events[n], oks[n], level)
  }

  // ---- what the calls do to the writer's variables ----

  // The files and the variables of the writer.
  datatype View = View(files: Files, isOpen: bool, curLines: int, curSize: int, curFiles: nat, openTime: Instant)

  function Size(c: Config, v: View): nat {
    |Bytes(Content(v.files, c.fileName))|
  }

  // initFd.
  function Looked(c: Config, v: View, w: World): View {
    if !w.statWorks then v
    else
      var bytes := Bytes(Content(v.files, c.fileName));
      v.(curSize := |bytes|, openTime := w.now,
         curLines := if |bytes| > 0 && c.maxLines > 0 && w.readWorks then Newlines(bytes) else 0)
  }

  // startLogger.
  function Restarted(c: Config, v: View, w: World): View {
    if !w.openWorks then v
    else Looked(c, v.(files := v.files[c.fileName := Content(v.files, c.fileName)], isOpen := true), w)
  }

  function FirstFree(c: Config, files: Files, stamp: string, num: nat): (r: Option<string>)
    ensures r.Some? ==> r.value !in files
    decreases c.maxFiles - num
  {
    if num > c.maxFiles then None
    else if ArchiveName(c, stamp, num) !in files then Some(ArchiveName(c, stamp, num))
    else FirstFree(c, files, stamp, num + 1)
  }

  predicate Numbered(c: Config) { c.maxLines > 0 || c.maxSize > 0 }

  // The name that a rotation moves the log file to.
  function Target(c: Config, v: View, logTime: Instant): (r: Option<string>)
    ensures r.Some? ==> r.value !in v.files
  {
    if Numbered(c) then FirstFree(c, v.files, Stamp(c, logTime), v.curFiles + 1)
    else
      var name := ArchiveName(c, Stamp(c, v.openTime), v.curFiles + 1);
      if name in v.files then None else Some(name)
  }

  // A name for the content of a file as the documentation gives it: the base, the day or hour if the log is rotated by
  // it, a number, and the suffix.
  ghost predicate NamesArchive(c: Config, t: Instant, num: nat, name: string) {
    && (c.hourly ==> name == c.base + "." + t.hourStamp + "." + Pad3(num) + c.suffix)
    && (!c.hourly && c.daily ==> name == c.base + "." + t.dayStamp + "." + Pad3(num) + c.suffix)
    && (!c.hourly && !c.daily ==> name == c.base + "." + "." + Pad3(num) + c.suffix)
  }

  // A number above those used: the first one with a free name if the size of a file is limited, and otherwise the next.
  ghost predicate NumbersArchive(c: Config, v: View, logTime: Instant, num: nat) {
    if Numbered(c) then
      num > v.curFiles && forall k: nat | v.curFiles < k < num :: ArchiveName(c, Stamp(c, logTime), k) in v.files
    else num == v.curFiles + 1
  }

  /** The name of an archive: the moment of the line that asked for the rotation if the size of a file is limited, and
      otherwise that of the opening; and the number. */
  lemma TargetIsNamed(c: Config, v: View, logTime: Instant)
    ensures var t := Target(c, v, logTime);
      t.Some? ==> exists num: nat ::
        && NumbersArchive(c, v, logTime, num)
        && NamesArchive(c, if Numbered(c) then logTime else v.openTime, num, t.value)
  {
    if Target(c, v, logTime).Some? {
      if Numbered(c) {
        var num := FirstFreeIs(c, v.files, Stamp(c, logTime), v.curFiles + 1);
        StampNames(c, logTime, num);
        assert NumbersArchive(c, v, logTime, num);
      } else {
        StampNames(c, v.openTime, v.curFiles + 1);
        assert NumbersArchive(c, v, logTime, v.curFiles + 1);
      }
    }
  }

  lemma StampNames(c: Config, t: Instant, num: nat)
    ensures NamesArchive(c, t, num, ArchiveName(c, Stamp(c, t), num))
  {
    assert c.base + "." + "" + "." + Pad3(num) + c.suffix == c.base + "." + "." + Pad3(num) + c.suffix;
  }

  lemma {:induction false} FirstFreeIs(c: Config, files: Files, stamp: string, num: nat) returns (k: nat)
    requires FirstFree(c, files, stamp, num).Some?
    ensures num <= k <= c.maxFiles && FirstFree(c, files, stamp, num) == Some(ArchiveName(c, stamp, k))
    ensures forall j: nat | num <= j < k :: ArchiveName(c, stamp, j) in files
    decreases c.maxFiles - num
  {
    if ArchiveName(c, stamp, num) !in files {
      k := num;
    } else {
      k := FirstFreeIs(c, files, stamp, num + 1);
    }
  }

  // What comes of a rotation: nothing, a restart on the same file, or a restart on a new one.
  datatype Rotation = Refused | Reopened(closed: bool) | MovedTo(target: string)

  function RotationOf(c: Config, v: View, logTime: Instant, w: World): Rotation {
    if !c.rotatePermParses then Refused
    else if !(c.fileName in v.files && w.lstatWorks) then Reopened(false)
    else
      match Target(c, v, logTime)
      case None => Refused
      case Some(t) => if w.renameWorks then MovedTo(t) else Reopened(true)
  }

  // The number is used up even if its name is taken.
  function NumberUsed(c: Config, v: View, w: World): View {
    if c.rotatePermParses && c.fileName in v.files && w.lstatWorks && !Numbered(c)
    then v.(curFiles := v.curFiles + 1) else v
  }

  // doRotate.
  function Rotated(c: Config, v: View, logTime: Instant, w: World): View {
    var u := NumberUsed(c, v, w);
    match RotationOf(c, v, logTime, w)
    case Refused => u
    case Reopened(closed) => Restarted(c, if closed then u.(isOpen := false) else u, w)
    case MovedTo(t) => Restarted(c, MovedView(c, u, t), w)
  }

  // The log file closed and renamed.
  function MovedView(c: Config, v: View, t: string): View {
    v.(isOpen := false, files := (v.files - {c.fileName})[t := Content(v.files, c.fileName)])
  }

  /** A writer that could not get a free name, or whose file was not there, goes on with the file it has; one that was
      about to rename, whether it could or not, has only what it could open again. */
  lemma RotatedIsOpen(c: Config, v: View, logTime: Instant, w: World)
    ensures Rotated(c, v, logTime, w).isOpen <==>
      if c.rotatePermParses && c.fileName in v.files && w.lstatWorks && Target(c, v, logTime).Some? then w.openWorks
      else v.isOpen || (c.rotatePermParses && (c.fileName !in v.files || !w.lstatWorks) && w.openWorks)
  {
  }

  /** A rotation uses up a number exactly when the size of a file is not limited and there is a file to rotate. */
  lemma RotatedUsesNumber(c: Config, v: View, logTime: Instant, w: World)
    ensures Rotated(c, v, logTime, w).curFiles == v.curFiles +
      if c.maxLines <= 0 && c.maxSize <= 0 && c.rotatePermParses && c.fileName in v.files && w.lstatWorks then 1 else 0
  {
  }

  lemma RotationMoves(c: Config, v: View, u: View, logTime: Instant, w: World, t: string)
    requires c.rotatePermParses && c.fileName in v.files && w.lstatWorks && w.renameWorks
    requires Target(c, v, logTime) == Some(t) && u == NumberUsed(c, v, w)
    ensures Rotated(c, v, logTime, w) == Restarted(c, MovedView(c, u, t), w)
  {
  }

  function Needed(c: Config, v: View, hour: Option<nat>, day: Option<nat>): bool {
    || (c.maxLines > 0 && v.curLines >= c.maxLines)
    || (c.maxSize > 0 && v.curSize >= c.maxSize)
    || (c.hourly && hour.Some? && hour.value != v.openTime.hour)
    || (c.daily && day.Some? && day.value != v.openTime.day)
  }

  // A limit has been reached, or the line belongs to another day or hour than the file.
  ghost predicate Outgrown(c: Config, v: View) {
    (c.maxLines > 0 && v.curLines >= c.maxLines) || (c.maxSize > 0 && v.curSize >= c.maxSize)
  }

  ghost predicate Outdated(c: Config, v: View, when: Instant) {
    (c.daily && when.day != v.openTime.day) || (c.hourly && when.hour != v.openTime.hour)
  }

  // The rotation that an event calls for, if any, and the moment it is called for.
  function Called(c: Config, v: View, e: Event): Option<Instant> {
    match e
    case Write(when, _, level, _) =>
      if level <= c.level && c.rotate && Needed(c, v, Some(when.hour), Some(when.day)) then Some(when) else None
    case DayTimer(w) => if Needed(c, v, None, Some(w.now.day)) then Some(w.now) else None
    case HourTimer(w) => if Needed(c, v, Some(w.now.hour), None) then Some(w.now) else None
  }

  function AfterRotation(c: Config, v: View, e: Event): View {
    match Called(c, v, e)
    case None => v
    case Some(t) => Rotated(c, v, t, e.world)
  }

  // The write.
  function Appended(c: Config, v: View, line: string, w: World): View {
    if !v.isOpen then v
    else if w.torn.None? then
      v.(files := v.files[c.fileName := Content(v.files, c.fileName) + [Whole(line)]],
         curLines := v.curLines + 1, curSize := v.curSize + |line|)
    else if 0 < w.torn.value <= |line| then
      v.(files := v.files[c.fileName := Content(v.files, c.fileName) + [Torn(line[..w.torn.value])]])
    else v
  }

  function After(c: Config, v: View, e: Event): View {
    var u := AfterRotation(c, v, e);
    if e.Write? && e.level <= c.level then Appended(c, u, e.line, e.world) else u
  }

  function AfterAll(c: Config, v: View, events: seq<Event>): View {
    if events == [] then v else After(c, AfterAll(c, v, events[..|events| - 1]), events[|events| - 1])
  }

  // ---- the size counter ----

  /** Why the size counter may differ from the size of the log file: bytes that the counter has not counted, and
      bytes it has counted that a rotation has moved away, both since the last look at the file. */
  datatype Drift = Drift(uncounted: nat, departed: nat)

  const NO_DRIFT := Drift(0, 0)

  predicate Counted(c: Config, v: View, d: Drift) {
    v.curSize + d.uncounted == Size(c, v) + d.departed
  }

  // A rotation looks at the file when it gets to reopen it; otherwise a file moved away takes its bytes along.
  function RotationDrift(c: Config, v: View, d: Drift, logTime: Instant, w: World): Drift {
    match RotationOf(c, v, logTime, w)
    case Refused => d
    case Reopened(_) => if w.openWorks && w.statWorks then NO_DRIFT else d
    case MovedTo(_) => if w.openWorks && w.statWorks then NO_DRIFT else d.(departed := d.departed + Size(c, v))
  }

  // A failed write into an open file leaves what was out of the line.
  function WriteDrift(v: View, d: Drift, line: string, w: World): Drift {
    if v.isOpen && w.torn.Some? && w.torn.value <= |line| then d.(uncounted := d.uncounted + w.torn.value) else d
  }

  function DriftAfter(c: Config, v: View, d: Drift, e: Event): Drift {
    var t := Called(c, v, e);
    var rotated := if t.Some? then RotationDrift(c, v, d, t.value, e.world) else d;
    if e.Write? && e.level <= c.level then WriteDrift(AfterRotation(c, v, e), rotated, e.line, e.world) else rotated
  }

  function DriftAll(c: Config, v: View, d: Drift, events: seq<Event>): Drift {
    if events == [] then d
    else
      var n := |events| - 1;
      DriftAfter(c, AfterAll(c, v, events[..n]), DriftAll(c, v, d, events[..n]), events[n])
  }

  lemma RestartCounts(c: Config, v: View, w: World, d: Drift)
    requires (w.openWorks && w.statWorks) || Counted(c, v, d)
    ensures Counted(c, Restarted(c, v, w), if w.openWorks && w.statWorks then NO_DRIFT else d)
  {
  }

  lemma RotationCounts(c: Config, v: View, d: Drift, logTime: Instant, w: World)
    requires Counted(c, v, d)
    ensures Counted(c, Rotated(c, v, logTime, w), RotationDrift(c, v, d, logTime, w))
  {
    var u := NumberUsed(c, v, w);
    match RotationOf(c, v, logTime, w)
    case Refused =>
    case Reopened(closed) =>
      RestartCounts(c, if closed then u.(isOpen := false) else u, w, d);
    case MovedTo(t) =>
      var moved := MovedView(c, u, t);
      assert t != c.fileName && Size(c, moved) == 0;
      RestartCounts(c, moved, w, d.(departed := d.departed + Size(c, v)));
  }

  lemma WriteCounts(c: Config, v: View, d: Drift, line: string, w: World)
    requires Counted(c, v, d)
    ensures Counted(c, Appended(c, v, line, w), WriteDrift(v, d, line, w))
  {
    BytesAppend(Content(v.files, c.fileName), Whole(line));
    if w.torn.Some? && w.torn.value <= |line| {
      BytesAppend(Content(v.files, c.fileName), Torn(line[..w.torn.value]));
    }
  }

  /** Over every run, with any failures, counter and size differ by exactly what the events add up to: they agree
      exactly when as many bytes are uncounted as departed. */
  lemma {:induction false} RunCounts(c: Config, v: View, d: Drift, events: seq<Event>)
    requires Counted(c, v, d)
    ensures Counted(c, AfterAll(c, v, events), DriftAll(c, v, d, events))
    ensures var end, drift := AfterAll(c, v, events), DriftAll(c, v, d, events);
      end.curSize == Size(c, end) <==> drift.uncounted == drift.departed
  {
    if events != [] {
      var n := |events| - 1;
      RunCounts(c, v, d, events[..n]);
      EventCounts(c, AfterAll(c, v, events[..n]), DriftAll(c, v, d, events[..n]), events[n]);
    }
  }

  lemma EventCounts(c: Config, v: View, d: Drift, e: Event)
    requires Counted(c, v, d)
    ensures Counted(c, After(c, v, e), DriftAfter(c, v, d, e))
  {
    var t := Called(c, v, e);
    if t.Some? {
      RotationCounts(c, v, d, t.value, e.world);
    }
    var rotated := if t.Some? then RotationDrift(c, v, d, t.value, e.world) else d;
    if e.Write? && e.level <= c.level {
      WriteCounts(c, AfterRotation(c, v, e), rotated, e.line, e.world);
    }
  }

  // Nothing in this event makes the counter drift: the write is not cut short, and the file can be looked at.
  predicate Undisturbed(w: World) {
    w.openWorks && w.statWorks && (w.torn.None? || w.torn.value == 0)
  }

  /** Without such events the counter stays right. */
  lemma {:induction false} UndisturbedStaysRight(c: Config, v: View, events: seq<Event>)
    requires v.curSize == Size(c, v) && forall i | 0 <= i < |events| :: Undisturbed(events[i].world)
    ensures var end := AfterAll(c, v, events); end.curSize == Size(c, end)
  {
    NoDriftUndisturbed(c, v, events);
    RunCounts(c, v, NO_DRIFT, events);
  }

  lemma {:induction false} NoDriftUndisturbed(c: Config, v: View, events: seq<Event>)
    requires forall i | 0 <= i < |events| :: Undisturbed(events[i].world)
    ensures DriftAll(c, v, NO_DRIFT, events) == NO_DRIFT
  {
    if events != [] {
      NoDriftUndisturbed(c, v, events[..|events| - 1]);
    }
  }

  /** A write that fails half way leaves the counter short by what got out. */
  lemma TornWriteGoesUncounted(c: Config, v: View, e: Event, n: nat)
    requires v.curSize == Size(c, v) && v.isOpen && e.Write? && e.level <= c.level && Called(c, v, e).None?
    requires e.world.torn == Some(n) && 0 < n <= |e.line|
    ensures var u := After(c, v, e); u.curSize + n == Size(c, u)
  {
    EventCounts(c, v, NO_DRIFT, e);
  }

  class Writer {
    const config: Config
    var files: Files
    var isOpen: bool
    var curLines: int
    var curSize: int
    var curFiles: nat
    var openTime: Instant
    ghost var archived: seq<string>
    ghost var acked: seq<string>

    ghost predicate Valid()
      reads this
    {
      Recorded(files, archived, config.fileName, acked) && (isOpen ==> config.fileName in files)
    }

    ghost function Now(): View
      reads this
    {
      View(files, isOpen, curLines, curSize, curFiles, openTime)
    }

    // The size counter is the size of the log file.
    ghost predicate Synced()
      reads this
    {
      curSize == |Bytes(Content(files, config.fileName))|
    }

    constructor (config: Config, files: Files, now: Instant)
      ensures Valid() && this.config == config && this.files == files && archived == [] && !isOpen
      ensures acked == Wholes(Content(files, config.fileName))
    {
      this.config, this.files, isOpen := config, files, false;
      curLines, curSize, curFiles, openTime := 0, 0, 0, now;
      archived, acked := [], Wholes(Content(files, config.fileName));
      new;
      assert Stream(files, []) + Content(files, config.fileName) == Content(files, config.fileName);
    }

    predicate NeedRotateDaily(day: nat)
      reads this
    {
      || (config.maxLines > 0 && curLines >= config.maxLines)
      || (config.maxSize > 0 && curSize >= config.maxSize)
      || (config.daily && day != openTime.day)
    }

    predicate NeedRotateHourly(hour: nat)
      reads this
    {
      || (config.maxLines > 0 && curLines >= config.maxLines)
      || (config.maxSize > 0 && curSize >= config.maxSize)
      || (config.hourly && hour != openTime.hour)
    }

    method InitFd(w: World) returns (ok: bool)
      requires config.fileName in files
      modifies this`curLines, this`curSize, this`openTime
      ensures Now() == Looked(config, old(Now()), w)
      ensures ok == (w.statWorks && (curSize > 0 && config.maxLines > 0 ==> w.readWorks))
      ensures w.statWorks ==> Synced() && openTime == w.now
      ensures w.statWorks ==>
        curLines == if ok && config.maxLines > 0 then Newlines(Bytes(files[config.fileName])) else 0
      ensures !w.statWorks ==> curLines == old(curLines) && curSize == old(curSize) && openTime == old(openTime)
    {
      if !w.statWorks {
        return false;
      }
      var bytes := Bytes(files[config.fileName]);
      curSize, openTime, curLines := |bytes|, w.now, 0;
      if curSize > 0 && config.maxLines > 0 {
        if !w.readWorks {
          return false;
        }
        curLines := CountLines(bytes);
      }
      return true;
    }

    method StartLogger(w: World) returns (ok: bool)
      requires Valid()
      modifies this`files, this`isOpen, this`curLines, this`curSize, this`openTime
      ensures Valid()
      ensures Now() == Restarted(config, old(Now()), w)
      ensures ok ==> w.openWorks && w.statWorks
      ensures Safe(old(files), archived, files, archived, config.fileName)
      ensures w.openWorks ==> isOpen && files == old(files)[config.fileName := Content(old(files), config.fileName)]
      ensures w.openWorks && w.statWorks ==> Synced() && openTime == w.now
      ensures ok ==> curLines == if config.maxLines > 0 then Newlines(Bytes(files[config.fileName])) else 0
      ensures !w.openWorks ==> files == old(files) && isOpen == old(isOpen)
      ensures !w.openWorks || !w.statWorks ==> curSize == old(curSize)
    {
      if !w.openWorks {
        return false;
      }
      if config.fileName !in files {
        CreateRecorded(files, archived, config.fileName, acked);
        files := files[config.fileName := []];
      } else {
        assert files == files[config.fileName := files[config.fileName]];
      }
      isOpen := true;
      ok := InitFd(w);
    }

    // The first free number after the last one used, up to the largest allowed.
    method FindName(stamp: string) returns (r: Option<string>)
      ensures r.Some? ==> r.value !in files && exists num: nat ::
        && curFiles < num <= config.maxFiles && r.value == ArchiveName(config, stamp, num)
        && forall k: nat | curFiles < k < num :: ArchiveName(config, stamp, k) in files
      ensures r.None? ==> forall k: nat | curFiles < k <= config.maxFiles :: ArchiveName(config, stamp, k) in files
      ensures r == FirstFree(config, files, stamp, curFiles + 1)
    {
      var num := curFiles + 1;
      while num <= config.maxFiles
        invariant curFiles < num
        invariant FirstFree(config, files, stamp, curFiles + 1) == FirstFree(config, files, stamp, num)
        invariant forall k: nat | curFiles < k < num :: ArchiveName(config, stamp, k) in files
      {
        var name := ArchiveName(config, stamp, num);
        if name !in files {
          return Some(name);
        }
        num := num + 1;
      }
      return None;
    }

    function Unused(name: string): Option<string>
      reads this
    {
      if name in files then None else Some(name)
    }

    method PickTarget(logTime: Instant) returns (r: Option<string>)
      modifies this`curFiles
      ensures r == Target(config, old(Now()), logTime)
      ensures curFiles == old(curFiles) + if Numbered(config) then 0 else 1
    {
      if config.maxLines > 0 || config.maxSize > 0 {
        r := FindName(Stamp(config, logTime));
      } else {
        curFiles := curFiles + 1;
        r := Unused(ArchiveName(config, Stamp(config, openTime), curFiles));
      }
    }

    // A rotation, whatever fails in it, overwrites no file and loses no line. Without an error the log file
    // is new and empty, and what it held stands in one file that was not there before.
    method DoRotate(logTime: Instant, w: World) returns (ok: bool)
      requires Valid()
      modifies this`files, this`isOpen, this`curLines, this`curSize, this`curFiles, this`openTime, this`archived
      ensures Valid() && Safe(old(files), old(archived), files, archived, config.fileName)
      ensures Archived(old(files), old(archived), files, archived, config.fileName)
      ensures archived == old(archived) ==> Content(files, config.fileName) == Content(old(files), config.fileName)
      ensures ok ==> archived != old(archived) && isOpen && files[config.fileName] == []
      ensures ok ==> Synced() && curLines == 0 && openTime == w.now
      ensures old(Synced()) && (archived == old(archived) || (w.openWorks && w.statWorks)) ==> Synced()
      ensures Now() == Rotated(config, old(Now()), logTime, w)
    {
      if !config.rotatePermParses {
        return false;
      }
      if !(config.fileName in files && w.lstatWorks) {
        Reopen(w, false);
        return false;
      }
      ok := RotateExisting(logTime, w);
    }

    // The part of doRotate for a log file that is there.
    method RotateExisting(logTime: Instant, w: World) returns (ok: bool)
      requires Valid() && config.rotatePermParses && config.fileName in files && w.lstatWorks
      modifies this`files, this`isOpen, this`curLines, this`curSize, this`curFiles, this`openTime, this`archived
      ensures Valid() && Safe(old(files), old(archived), files, archived, config.fileName)
      ensures Archived(old(files), old(archived), files, archived, config.fileName)
      ensures archived == old(archived) ==> Content(files, config.fileName) == Content(old(files), config.fileName)
      ensures ok ==> archived != old(archived) && isOpen && files[config.fileName] == []
      ensures ok ==> Synced() && curLines == 0 && openTime == w.now
      ensures old(Synced()) && (archived == old(archived) || (w.openWorks && w.statWorks)) ==> Synced()
      ensures Now() == Rotated(config, old(Now()), logTime, w)
    {
      var target := PickTarget(logTime);
      if target.None? {
        return false;
      }
      ghost var used := Now();
      assert used == NumberUsed(config, old(Now()), w);
      if !w.renameWorks {
        Reopen(w, true);
        return false;
      }
      RotationMoves(config, old(Now()), used, logTime, w, target.value);
      ok := MoveAway(target.value, w);
    }

    method MoveAway(target: string, w: World) returns (ok: bool)
      requires Valid() && config.fileName in files && target !in files
      modifies this`files, this`isOpen, this`curLines, this`curSize, this`openTime, this`archived
      ensures Valid() && Safe(old(files), old(archived), files, archived, config.fileName)
      ensures Archived(old(files), old(archived), files, archived, config.fileName) && archived != old(archived)
      ensures ok ==> isOpen && files[config.fileName] == [] && Synced() && curLines == 0 && openTime == w.now
      ensures w.openWorks && w.statWorks ==> Synced()
      ensures Now() == Restarted(config, MovedView(config, old(Now()), target), w)
    {
      isOpen := false;
      assert Now().(files := Renamed(files, config.fileName, target)) == MovedView(config, old(Now()), target);
      ok := MoveTo(target, w);
      ArchivedBy(old(files), old(archived), files, target, config.fileName);
    }

    // A restart on the same file, which may have been closed before.
    method Reopen(w: World, closed: bool)
      requires Valid()
      modifies this`files, this`isOpen, this`curLines, this`curSize, this`openTime
      ensures Valid() && Safe(old(files), archived, files, archived, config.fileName)
      ensures Content(files, config.fileName) == Content(old(files), config.fileName)
      ensures old(Synced()) ==> Synced()
      ensures Now() == Restarted(config, if closed then old(Now()).(isOpen := false) else old(Now()), w)
    {
      if closed {
        isOpen := false;
      }
      var started := StartLogger(w);
    }

    method MoveTo(target: string, w: World) returns (ok: bool)
      requires Valid() && !isOpen && config.fileName in files && target !in files
      modifies this`files, this`isOpen, this`curLines, this`curSize, this`openTime, this`archived
      ensures Valid() && Safe(old(files), old(archived), files, archived, config.fileName)
      ensures archived == old(archived) + [target] && StandsIn(old(files), files, config.fileName, target)
      ensures ok ==> isOpen && files[config.fileName] == [] && Synced() && curLines == 0 && openTime == w.now
      ensures Now() == Restarted(config, old(Now()).(files := Renamed(old(files), config.fileName, target)), w)
    {
      RenameRecorded(files, archived, config.fileName, acked, target);
      files := Renamed(files, config.fileName, target);
      archived := archived + [target];
      ghost var mid := files;
      var started := StartLogger(w);
      SafeChain(old(files), old(archived), mid, archived, files, archived, config.fileName);
      ok := started && w.chmodWorks;
    }

    // A message is acknowledged exactly when it stands whole at the end of the log file.
    method Append(line: string, w: World) returns (ok: bool)
      requires Valid() && (w.torn.Some? ==> w.torn.value <= |line|)
      modifies this`files, this`curLines, this`curSize, this`acked
      ensures Valid() && Safe(old(files), old(archived), files, archived, config.fileName)
      ensures ok == (isOpen && w.torn.None?)
      ensures acked == old(acked) + if ok then [line] else []
      ensures Content(files, config.fileName) == Content(old(files), config.fileName) +
        if ok then [Whole(line)] else if isOpen && w.torn.value > 0 then [Torn(line[..w.torn.value])] else []
      ensures curLines == old(curLines) + if ok then 1 else 0
      ensures curSize == old(curSize) + if ok then |line| else 0
      ensures Now() == Appended(config, old(Now()), line, w)
    {
      if !isOpen {
        return false;
      }
      ok := w.torn.None?;
      if ok {
        Put(Whole(line));
        curLines, curSize := curLines + 1, curSize + |line|;
      } else if w.torn.value > 0 {
        Put(Torn(line[..w.torn.value]));
      }
    }

    // A write before the counter is brought up to date.
    method Put(chunk: Chunk)
      requires Valid() && isOpen
      modifies this`files, this`acked
      ensures files == old(files)[config.fileName := Content(old(files), config.fileName) + [chunk]]
      ensures Valid() && Safe(old(files), old(archived), files, archived, config.fileName)
      ensures acked == old(acked) + if chunk.Whole? then [chunk.text] else []
      ensures Content(files, config.fileName) == Content(old(files), config.fileName) + [chunk]
      ensures |Bytes(Content(files, config.fileName))|
        == |Bytes(Content(old(files), config.fileName))| + |chunk.text|
    {
      BytesAppend(files[config.fileName], chunk);
      AppendRecorded(files, archived, config.fileName, acked, chunk);
      files := files[config.fileName := files[config.fileName] + [chunk]];
      acked := acked + if chunk.Whole? then [chunk.text] else [];
    }

    // The part of WriteMsg before the write.
    method RotateIfNeeded(when: Instant, w: World) returns (complained: bool)
      requires Valid()
      modifies this
      ensures Valid() && Safe(old(files), old(archived), files, archived, config.fileName) && acked == old(acked)
      ensures Archived(old(files), old(archived), files, archived, config.fileName)
      ensures Now() == if config.rotate && Needed(config, old(Now()), Some(when.hour), Some(when.day))
                       then Rotated(config, old(Now()), when, w) else old(Now())
      ensures old(Synced()) && (archived == old(archived) || (w.openWorks && w.statWorks)) ==> Synced()
      ensures complained || archived != old(archived) <==>
        config.rotate && (Outgrown(config, old(Now())) || Outdated(config, old(Now()), when))
      ensures !complained && config.rotate && config.maxLines > 0 ==> curLines < config.maxLines
      ensures !complained && config.rotate ==>
        !Outdated(config, Now(), when) || (archived != old(archived) && openTime == w.now)
      ensures !complained && config.rotate && config.maxSize > 0 ==> curSize < config.maxSize
      ensures !complained && old(Synced()) ==> Synced()
    {
      complained := false;
      if config.rotate && (NeedRotateHourly(when.hour) || NeedRotateDaily(when.day)) {
        var rotated := DoRotate(when, w);
        complained := !rotated;
      }
    }

    // complained says that a rotation was tried and reported an error, which does not stop the write.
    method WriteMsg(when: Instant, line: string, level: int, w: World) returns (ok: bool, complained: bool)
      requires Valid() && (w.torn.Some? ==> w.torn.value <= |line|)
      modifies this
      ensures Valid() && Safe(old(files), old(archived), files, archived, config.fileName)
      ensures acked == old(acked) + if ok && level <= config.level then [line] else []
      ensures ok == (level > config.level || (isOpen && w.torn.None?))
      ensures level > config.level ==> files == old(files) && archived == old(archived)
      ensures Archived(old(files), old(archived), files, archived, config.fileName)
      ensures ok && level <= config.level ==> EndsWith(Content(files, config.fileName), line)
      ensures Now() == After(config, old(Now()), Write(when, line, level, w))
      ensures level <= config.level ==> (complained || archived != old(archived) <==>
        config.rotate && (Outgrown(config, old(Now())) || Outdated(config, old(Now()), when)))
      ensures level <= config.level && config.rotate && !complained && config.maxLines > 0 ==>
        curLines <= config.maxLines
      ensures level <= config.level && config.rotate && !complained ==>
        !Outdated(config, Now(), when) || (archived != old(archived) && openTime == w.now)
      ensures old(Synced()) && ok && (archived == old(archived) || (w.openWorks && w.statWorks)) ==> Synced()
      ensures old(Synced()) && ok && level <= config.level && config.rotate && !complained && config.maxSize > 0 ==>
        |Bytes(files[config.fileName])| < config.maxSize + |line|
    {
      complained := false;
      if level > config.level {
        return true, false;
      }
      ok, complained := WriteLine(when, line, w);
    }

    // The part of WriteMsg for a line that is not filtered out.
    method WriteLine(when: Instant, line: string, w: World) returns (ok: bool, complained: bool)
      requires Valid() && (w.torn.Some? ==> w.torn.value <= |line|)
      modifies this
      ensures Valid() && Safe(old(files), old(archived), files, archived, config.fileName)
      ensures acked == old(acked) + if ok then [line] else []
      ensures ok == (isOpen && w.torn.None?) && (ok ==> EndsWith(Content(files, config.fileName), line))
      ensures Archived(old(files), old(archived), files, archived, config.fileName)
      ensures Now() == Appended(config, if config.rotate && Needed(config, old(Now()), Some(when.hour), Some(when.day))
                                        then Rotated(config, old(Now()), when, w) else old(Now()), line, w)
      ensures complained || archived != old(archived) <==>
        config.rotate && (Outgrown(config, old(Now())) || Outdated(config, old(Now()), when))
      ensures config.rotate && !complained && config.maxLines > 0 ==> curLines <= config.maxLines
      ensures config.rotate && !complained ==>
        !Outdated(config, Now(), when) || (archived != old(archived) && openTime == w.now)
      ensures old(Synced()) && ok && (!complained || archived == old(archived) || (w.openWorks && w.statWorks)) ==>
        Synced()
      ensures ok && config.rotate && !complained && config.maxSize > 0 ==> curSize < config.maxSize + |line|
    {
      complained := RotateIfNeeded(when, w);
      ghost var mid := files;
      ok := Append(line, w);
      ArchivedThenKept(old(files), old(archived), mid, archived, files, config.fileName);
      SafeChain(old(files), old(archived), mid, archived, files, archived, config.fileName);
    }

    method DailyRotate(w: World)
      requires Valid()
      modifies this
      ensures Now() == After(config, old(Now()), DayTimer(w))
      ensures var due := Outgrown(config, old(Now())) || (config.daily && w.now.day != old(openTime).day);
        Now() == if due then Rotated(config, old(Now()), w.now, w) else old(Now())
      ensures Valid() && Safe(old(files), old(archived), files, archived, config.fileName) && acked == old(acked)
    {
      if NeedRotateDaily(w.now.day) {
        var rotated := DoRotate(w.now, w);
      }
    }

    method HourlyRotate(w: World)
      requires Valid()
      modifies this
      ensures Now() == After(config, old(Now()), HourTimer(w))
      ensures var due := Outgrown(config, old(Now())) || (config.hourly && w.now.hour != old(openTime).hour);
        Now() == if due then Rotated(config, old(Now()), w.now, w) else old(Now())
      ensures Valid() && Safe(old(files), old(archived), files, archived, config.fileName) && acked == old(acked)
    {
      if NeedRotateHourly(w.now.hour) {
        var rotated := DoRotate(w.now, w);
      }
    }

    method Step(e: Event) returns (ok: bool)
      requires Valid() && Possible(e)
      modifies this
      ensures Valid() && Safe(old(files), old(archived), files, archived, config.fileName)
      ensures acked == old(acked) + Reply(e, ok, config.level)
      ensures Now() == After(config, old(Now()), e)
    {
      ok := true;
      match e {
        case Write(when, line, level, w) =>
          var complained;
          ok, complained := WriteMsg(when, line, level, w);
        case DayTimer(w) => DailyRotate(w);
        case HourTimer(w) => HourlyRotate(w);
      }
    }

    // A step of a run that started with these files and archives.
    method StepFrom(e: Event, ghost files0: Files, ghost archived0: seq<string>) returns (ok: bool)
      requires Valid() && Possible(e) && Safe(files0, archived0, files, archived, config.fileName)
      modifies this
      ensures Valid() && Safe(files0, archived0, files, archived, config.fileName)
      ensures acked == old(acked) + Reply(e, ok, config.level)
      ensures Now() == After(config, old(Now()), e)
    {
      ok := Step(e);
      SafeChain(files0, archived0, old(files), old(archived), files, archived, config.fileName);
    }

    // Any run of writes and timers, with any answers of the operating system.
    method Run(events: seq<Event>) returns (oks: seq<bool>)
      requires Valid() && forall i | 0 <= i < |events| :: Possible(events[i])
      modifies this
      ensures Valid() && Safe(old(files), old(archived), files, archived, config.fileName) && |oks| == |events|
      ensures acked == old(acked) + Acknowledged(events, oks, config.level)
      ensures Now() == AfterAll(config, old(Now()), events)
    {
      if events == [] {
        return [];
      }
      var n := |events| - 1;
      oks := Run(events[..n]);
      var ok := StepFrom(events[n], old(files), old(archived));
      AcknowledgedStep(old(acked), events, oks, ok, config.level);
      oks := oks + [ok];
    }
  }
}
