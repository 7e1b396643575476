# A verified model of the framework's algorithms

The repository is a web framework in Go. This project models the parts of it that are algorithms or
protocols rather than glue, and proves what they are for:

- **The cron scheduler** (`toolbox/task.go`). Specs become 64-bit masks, `Schedule.Next` searches the calendar
  for the next matching second, and `run` fires tasks. `Next` is proved equal to a scan of every single second,
  for every lawful clock; the Gregorian calendar at any fixed offset is proved lawful. When a spec fires is proved
  from its text.
- **The routing tree** (`tree.go`, `namespace.go`, `router.go`, `context/request.go`). The backtracking search
  is proved to answer like a scan of the registered patterns on every path, patterns are registered from their
  text, mounting preserves routing, and a failed match leaves the request parameters alone.
- **The ORM** (`orm/`). The WHERE text of a condition tree, read as SQL with its arguments bound in order, has the
  tree's three-valued truth on every row; joins refer only to aliases declared before, and a path asks the right
  table for its column or the exact exceptions are given; deletes cascade to exactly the least closed set of rows;
  bulk inserts send every row.
- **Small protocols and stores**. The asynchronous logger, file rotation, graceful restarts, the in-memory
  sessions and the quoted-printable encoder.

Code that works by changing things step by step is modelled by methods with loops, and objects by classes.
Every such method is proved against a function or a relation on values, and the theorems are about those.

## Layout

| files | about |
|---|---|
| `Calendar`, `Clock`, `GridClock`, `GregorianClock` | the calendar, the laws a clock has to obey, and clocks that obey them |
| `CronMask`, `CronSpec`, `Schedule`, `CronSchedule`, `TaskRunner` | masks, field parsing, `Next`, when a spec fires, the firing loop |
| `RouteSegments`, `RouteTexts` | segments of patterns, and what a pattern's text puts into a tree |
| `RouteTree`, `RouteParams`, `RouteTheorems`, `RouteLoops`, `RequestParams`, `RouteFilters` | matching as a function, failed matches, agreement with the scan, the loops and the router, parameters, filters |
| `RouteLeaves`, `RouteExpressions`, `RouteForms`, `RouteMount`, `RouteAnchors` | leaves with an expression and of `*.*` patterns, a small engine for expressions, what each form of a pattern matches and binds, mounting, what mounting does to anchors |
| `Conditions`, `SqlGrammar`, `ConditionMeaning`, `SqlMarks` | condition trees, SQL expressions, their agreement, marks and arguments |
| `SqlLike`, `SqlReading`, `SqlUpdates` | LIKE patterns, and WHERE and SET texts read back word by word and evaluated on a row |
| `OrmModels`, `JoinSchema`, `JoinPaths`, `JoinTables`, `JoinColumns`, `Cascade`, `BulkInsert` | fields and their pairing, relation paths, join lists, the column a path asks for, cascading deletes, batches |
| `AsyncLogger`, `FileLog`, `Flags`, `Grace`, `SessionStore`, `QuotedPrintable` | the protocols and stores, and the command line that a restart depends on |
| `Text`, `Wrappers` | strings and options |

## Where the code and its description part

- `getBits` does not return for a step of 0 (`toolbox/task.go:614`). A parse therefore has three outcomes;
  `LoopNeverEndsIff` and `NeverEndsIffLoops` say exactly when the loop does not end.
- `0 0 0 1,15 * 1` is documented as the 1st and the 15th day of a month (`toolbox/task.go:195`), but a schedule
  without a star in its day fields fires when either of them matches, so that it fires on every Monday as well
  (`FiresOnMondaysToo`).
- An empty nested condition prints a dangling `AND`, `OR` or `NOT` (`orm/db_tables.go:339-355`).
  `TextParsesIffWellFormed` shows that the text is an expression exactly when no condition of the tree is empty;
  `EmptyConditionDangles` is one that is none.
- The operator `nq` is accepted (`orm/db.go:50`) but no dialect defines it, so its argument has no mark.
  `OperatorIsBalanced` gives the exact condition, and `OnlyNqLosesItsMark` applies it to the operators of PostgreSQL.
- `exact` with a nil argument compares with the text `IS NULL` (`orm/db.go:1196`), and so never finds a null. `iexact`
  compares with an argument whose percent signs have been escaped (`orm/db_postgres.go:25`), and the patterns of the
  other text operators escape a percent sign, but neither an underscore nor a backslash (`orm/db.go:1200`).
  `FaithfulIff` gives the exact condition for each operator to find what its name says.
- A path that ends in a foreign key behind another relation asks the table behind that key for the key's own column
  (`orm/db_tables.go:287-293`). `ColumnIsThereIff` gives the exact condition for a column to be in the table asked for
  it, `LikesByAuthor` a query that fails.
- `set_default` on a foreign key that is not nullable changes nothing. The parent row is already deleted when
  `deleteRels` runs, and the UPDATE inner-joins the parent table. `SetDefaultReference` gives the exact condition
  for the reference to be sound afterwards, `DefaultLeavesDangling` a table that fails it.
- A bulk of 1 loses the second row in `dbBase.InsertMulti` (`orm/db.go:439`). `AllRowsArriveIff` gives the exact
  condition. The public `InsertMulti` does not pass a bulk of 1 on.
- Two trees mounted under one prefix make `match` lose a page that it found, because the loop over extensions
  does not stop at a hit (`tree.go:343-354`). `SecondTreeDecides` gives the exact condition for any two trees,
  `DuplicatePrefixLosesPage` one pair; `TextsUnique` shows that trees built by `AddRouter` are not affected.
- Mounting trims anchors off compiled expressions before it adds them again (`tree.go:196`). The dollar sign of an
  escaped one goes with them, and the backslash then escapes the new anchor, so that the mounted leaf accepts paths
  that it did not accept before: `EscapedDollarWidens` shows it for the pattern `/:id\$`. Otherwise the anchors come
  back, or come back once instead of twice, and routing is the same (`MountPreservesRouting`). `FilteredIsSameIff`
  and `ReanchoredIff` give the exact condition for the mounted tree to be the same tree.
- A pattern `/prefix/*.*` panics on a request for the prefix itself, because its leaf is asked with no values and
  takes the last one (`tree.go:408`); `PathExtPanics` shows it for every static prefix. The path and the extension
  that such a leaf binds do not always make up the path again: `PathExtRestores` gives the exact condition.
- A star loses the first segment of what it stands for when a fixed pattern beside it starts with that segment and
  does not fit, because the loop over fixed children shortens `treePattern` before it knows (`tree.go:330-334`).
  `SplatBesideFixed` gives the exact condition, `StarLosesSegment` a pair of patterns.
- A delete whose condition ends in a reverse field of a foreign key dereferences a nil table
  (`orm/db_tables.go:307`). `ParseExprs` panics exactly on the paths of `NilTable`; `DeleteByReverseFieldPanics`
  is one of them.
- A reverse field of a foreign key is paired with the first foreign key to its owner (`orm/models_boot.go:255-269`),
  but joined by the first relation to it of any kind (`orm/db_tables.go:191-195`); a many-to-many relation declared
  before that key puts a name into the ON clause that is no column. For a one-to-one the primary key is that of the
  wrong model (`orm/db_tables.go:202`). `JoinsByKeyIff` gives the exact condition, `ArticlesClause` and
  `ProfileClause` the clauses printed for two schemas that fail it.
- A restart loses its sockets when the arguments of the application hide the flags of the child, for instance
  behind a subcommand (`SubcommandLosesSockets`). `TakesOverIff` gives the exact condition on the command line, and
  `RestartsLoseSockets` what becomes of all later processes where it fails. A child that registers an address which
  its parent did not have listens on the first socket handed over, whichever address that belongs to
  (`AddressWithoutSlot`).
- A message sent while a close is under way is lost if it comes after the end of the flush loop
  (`logs/log.go:468-471`): `LateMessagesAreLost` says exactly which.
- A failed write can leave bytes that the size counter of the file log does not know of, and a rotation whose new
  file cannot be looked at leaves it with the old size (`logs/file.go:179-183`, `logs/file.go:208-212`).
  `DriftAll` adds both amounts up from the events of a run, and by `RunCounts` the counter is right exactly when
  they are equal; `TornWriteGoesUncounted` is a write that makes them differ.
- `SessionRegenerate` with an id that is in use breaks the link between map and list. `RenameNeedsFreshId`
  and `PushNeedsFreshId` give the exact condition.
- The encoder is said to follow RFC 2045 (`utils/mail.go:257`), but does not escape a blank at the end of a line
  as section 6.7 rule (3) asks. `TrailingBlanks` says exactly when that happens; a decoder that deletes such
  blanks, as the rule tells it to, restores the input exactly when no line of it ends in one (`StandardRoundTrip`;
  `BlankIsLost` is a line that does).

## Model

| member | source | states |
|---|---|---|
| `CronMask.GetBits` | toolbox/task.go:605-618 | shift form and loop form both give exactly the values of the range in steps from its start, for every step of at least 1 |
| `CronMask.SpanIsRange` | toolbox/task.go:609-611 | complement and shifts of a full word select min..max and nothing else, in particular not the star bit |
| `CronMask.LoopNeverEndsIff` | toolbox/task.go:614-616 | the loop variable stays within the range for ever exactly when the step is 0 |
| `CronSpec.GetRange` | toolbox/task.go:528-579 | a mask of what the item covers, a panic, or no return at all, each exactly when the item says so |
| `CronSpec.NeverEndsIffLoops` | toolbox/task.go:568-578 | an item is said not to return exactly when it is within bounds and its loop does not end |
| `CronSpec.GetField` | toolbox/task.go:516-524 | bit i is set exactly when some item of the list covers i; the first bad item decides whether the field panics or does not return |
| `CronSpec.StarBitMeaning` | toolbox/task.go:538-542 | the star bit is set exactly when some item is written with `*` or `?` |
| `CronSpec.ParseWritten` | toolbox/task.go:528-602 | an item printed from its meaning, with numbers or names in small or capital letters, is parsed back to that meaning, or refused exactly when it is out of bounds |
| `CronSpec.WrittenListMeaning` | toolbox/task.go:516-579 | a printed comma list is accepted, and covers i exactly when one of the written items means i |
| `Calendar.YearOfDayBounds` | toolbox/task.go:304-307 | the year of a day, by cycles of 400, 100, 4 and 1 years, is the year that contains it |
| `Calendar.MonthOfDayUnique` | toolbox/task.go:318-323 | year and month of a day are the only ones whose days contain it |
| `GridClocks.GridClockIsLawful` | toolbox/task.go:318-373 | any calendar of months and clock of uniform days make a clock with nested units without gaps |
| `GregorianClocks.GregorianClockIsLawful` | toolbox/task.go:295-378 | the Gregorian calendar at every fixed offset obeys the laws that the search relies on |
| `GregorianClocks.GregorianClockShows` | toolbox/task.go:380-384 | on every date the clock shows the weekday of Sakamoto's rule, and every field is within its range |
| `Schedules.SeekMonth` | toolbox/task.go:313-326 | nothing fires in what is skipped; the month matches at the end, or the year changed and time advanced |
| `Schedules.SeekDay` | toolbox/task.go:329-339 | the same for days, keeping the month |
| `Schedules.SeekHour` | toolbox/task.go:341-351 | the same for hours, keeping month and day |
| `Schedules.SeekMinute` | toolbox/task.go:353-363 | the same for minutes, keeping month, day and hour |
| `Schedules.SeekSecond` | toolbox/task.go:365-375 | the same for seconds, keeping everything coarser |
| `Schedules.Next` | toolbox/task.go:295-378 | ends for every mask and returns what a scan of every second of the window returns |
| `Schedules.NextTimeIsEarliest` | toolbox/task.go:295-390 | the earliest whole second strictly later that matches all fields; none exactly when no second through the end of the limit year matches |
| `CronSchedules.ParseFields` | toolbox/task.go:214-235 | five or six fields, each with the mask of its items; otherwise a panic, or the first bad field decides |
| `CronSchedules.AnyDayFollowsWeek` | toolbox/task.go:380-390 | if the day field has a star and lists all days, the schedule fires exactly at listed times on listed weekdays |
| `CronSchedules.AnyWeekdayFollowsDay` | toolbox/task.go:380-390 | if the weekday field has a star and lists all weekdays, exactly on listed days |
| `CronSchedules.EitherDayIsEnough` | toolbox/task.go:380-390 | without a star in either field, exactly on days that one of them lists |
| `CronSchedules.StarAsksForBoth` | toolbox/task.go:380-390 | with a star in either field, exactly on days that both list |
| `CronSchedules.SpecFires` | toolbox/task.go:206-235 | from text to firing: the spec printed from six lists of items fires exactly at the times and on the days that these mean |
| `CronSchedules.FiveFields` | toolbox/task.go:216-224 | a spec of five fields is one of six with a star for the weekday |
| `CronSchedules.FiresOnMondays` | toolbox/task.go:192 | the documented spec fires at 17:00 on Mondays and at no other second |
| `CronSchedules.NextIsMonday` | toolbox/task.go:192 | asked at any instant, it is next due at the first such second |
| `CronSchedules.FiresOnMondaysToo` | toolbox/task.go:195 | the documented spec fires on the 1st, the 15th and on every Monday |
| `CronSchedules.ParseDescriptor` | toolbox/task.go:238-292 | each descriptor fires when its name says, and any other one panics |
| `CronSchedules.ParseSpec` | toolbox/task.go:210-235 | the dispatch between the two |
| `TaskRunner.Insert` | toolbox/task.go:502-514 | sorted, and a permutation |
| `TaskRunner.Sort` | toolbox/task.go:484-510 | sorted by next time with the zero time last, same tasks, each once |
| `TaskRunner.ChainIsComplete` | toolbox/task.go:424-431 | the iterates of `Next` are exactly the matching seconds since the start, strictly increasing |
| `TaskRunner.FireDue` | toolbox/task.go:424-431 | the break at the first other time still runs every task that is due, once, and touches no other |
| `TaskRunner.FireEarliest` | toolbox/task.go:411-431 | exactly the tasks with the earliest next time run |
| `TaskRunner.Runner.constructor` | toolbox/task.go:405-408 | every task, run before or not, waits for its first matching second after the start and keeps the time it last ran for |
| `TaskRunner.Runner.TimerStep` | toolbox/task.go:410-432 | however late the timer, each task has run for Next(start), Next(Next(start)), ... and fire times strictly increase |
| `TaskRunner.RunEvents` | toolbox/task.go:410-442 | after any sequence of timers and changes every task is on its chain from the last change on, and every timer since then has run something, up to the moment when no task has a next time |
| `TaskRunner.NothingMissed` | toolbox/task.go:410-432 | before a task's next time, it has run for a second exactly when that second matches |
| `TaskRunner.StepsAreMatches` | toolbox/task.go:410-432 | up to the latest step, every step is a second that matches a schedule, and every second that matches the schedule of a task with a next time is a step |
| `RouteLeaves.LeavesFailCleanly` | tree.go:394-454 | a leaf of any kind that does not match sets no parameter, whatever expressions find |
| `RouteLeaves.PathExtRestores` | tree.go:405-432 | a `*.*` leaf gives each name before it its own value, and path and extension the rest; put together they are the path of the rest exactly when its last value is not an extension alone behind others |
| `RouteForms.SplatTakesRest` | tree.go:400-403 | a star behind any static prefix matches every path below it, and `:splat` is all of the rest |
| `RouteForms.SplatBesideFixed` | tree.go:328-358 | beside fixed patterns of which none fits, `:splat` is all of the rest exactly when no fixed child has the next segment as its prefix |
| `RouteForms.StarLosesSegment` | tree.go:329-334 | a page `/a/b` and a star: `/a/c` gets the star with `c` as `:splat` |
| `RouteForms.OptionalMayBeLeftOut` | tree.go:219-223 | `?:name` behind any static prefix: the prefix alone matches and binds nothing |
| `RouteForms.OptionalTakesOne` | tree.go:219-223 | one segment more is bound, and a path of more segments does not match |
| `RouteForms.ExpressionDecides` | tree.go:444-453 | `:name(expression)` matches what the anchored expression finds something in, and binds the first group |
| `RouteForms.IntTakesDigits` | tree.go:471 | `:name:int` matches a segment of digits and nothing else |
| `RouteForms.IntThenParam` | tree.go:256-260 | a parameter behind one of digits: each takes its own segment |
| `RouteForms.PathExtBehindInt` | tree.go:251-255 | the expression of a leaf for `*.*` behind a parameter of digits |
| `RouteForms.ParamThenRest` | tree.go:229-232 | a star behind a parameter: one segment, and all of the rest |
| `RouteForms.StarThenText` | tree.go:224-228 | text behind a star: matches exactly when the last segment is the text, and `:splat` is what stands between |
| `RouteForms.PathExtTakesRest` | tree.go:405-432 | `*.*` behind any static prefix matches every path of segments below it |
| `RouteForms.PathExtPanics` | tree.go:407-409 | and a request for the prefix itself asks its leaf with no values |
| `RouteParams.FailedMatchKeepsParams` | tree.go:286-382 | on a tree with unique child prefixes a failed match changes no parameter |
| `RouteTheorems.AddSegLookup` | tree.go:209-283 | a pattern adds one leaf at its own place and changes no other place |
| `RouteTheorems.BuildUnique` | tree.go:268-280 | trees of fixed and `:name` segments have unique child prefixes |
| `RouteTexts.TextsUnique` | tree.go:203-283 | so have the trees that `AddRouter` builds from any texts |
| `RouteTexts.PlainText` | tree.go:209-283 | on the text of a pattern of fixed and `:name` segments, `addSeg` does what it does on the pattern |
| `RouteTexts.TextsBuild` | tree.go:203-283 | the tree of such texts is the tree of their patterns |
| `RouteTexts.ParsePatternOf` | tree.go:203-218 | a written pattern of static and `:name` segments is read back as exactly these |
| `RouteTheorems.MatchPicks` | tree.go:294-382 | the backtracking search ends at the leaf of the preferred fitting shape, with its names bound |
| `RouteTheorems.PickIsPreferred` | tree.go:328-358 | that shape beats every other stored shape that fits: the whole segment over its stem without extension, and that over wild, at the first difference |
| `RouteTheorems.SelectedIsUnique` | tree.go:328-381 | at most one route is the preferred one |
| `RouteTheorems.MatchIsScan` | tree.go:209-442 | on every path `Match` fails exactly when no pattern fits, and otherwise returns the route a scan selects, with its bindings and `:ext` |
| `RouteTheorems.BindsOwnSegment` | tree.go:434-441 | each name is bound to its own segment of the path |
| `RouteTheorems.ScanBinds` | tree.go:343-357 | and keeps it when an extension sets `:ext` |
| `RouteTheorems.ExtensionsIsChild` | tree.go:341-355 | with unique prefixes the two loops over extensions and children look at one child, the one for the stem |
| `RouteLoops.MatchLeaf` | tree.go:394-454 | the leaf's loop over the parameter store computes what the function on values says |
| `RouteLoops.RestValues` | tree.go:361-374 | the index loop yields the segments of the rest of the path |
| `RouteLoops.FixedLoop` | tree.go:328-340 | the loop stops at the first hit and leaves the pattern shortened whenever a child has the prefix |
| `RouteLoops.ExtensionLoop` | tree.go:345-352 | the loop that does not stop at a hit |
| `RouteLoops.MatchLoop` | tree.go:294-382 | the whole search over the store refines the function on values |
| `RouteLoops.ReadStep` | tree.go:217-265 | names and expression that a segment adds behind those before it |
| `RouteLoops.AddTextLoop` | tree.go:209-283 | `addSeg` for every kind of segment: the optional one left out and put in, the expression put together, the search for the child and the insertion |
| `RouteLoops.Router.AddRouter` | tree.go:203-205 | registers the text of any pattern, after the others; the tree is the one of all texts so far |
| `RouteLoops.Router.Serve` | tree.go:286-382 | for every history of registrations and every path: the answer of the tree of all texts, with no parameter changed on failure; and for plain patterns nothing exactly when no route fits, otherwise the scan's route and bindings |
| `RouteSegments.SplitPathOf` | tree.go:460-466 | splitting the path of a list of segments gives the list back |
| `RouteSegments.SplitSegment` | tree.go:479-585 | the character loop computes the parts of a segment |
| `RouteSegments.ParamParts` | tree.go:469 | `:name` is one parameter without an expression |
| `RouteSegments.OptionalParts` | tree.go:470 | `?:name` is a parameter that may be left out |
| `RouteSegments.IntParts` | tree.go:471 | `:name:int` is a parameter of digits |
| `RouteSegments.StringParts` | tree.go:472 | `:name:string` is a parameter of word characters |
| `RouteSegments.ExpressionParts` | tree.go:473 | `:name(expression)` is a parameter with that expression |
| `RouteSegments.ExpressionThenParam` | tree.go:474 | `:a(expression)text:b` is two parameters, the second for anything |
| `RouteSegments.TwoParamParts` | tree.go:475 | `text:a:b.ext` is two parameters, each for anything, with the text around them |
| `RouteMount.FilteredIsSameIff` | tree.go:163-200 | mounting leaves a tree unchanged exactly when every expression is its own re-anchored form |
| `RouteMount.ReanchoredIff` | tree.go:186-197 | a compiled expression survives exactly when it has no anchor of its own at an end |
| `RouteMount.MountRoutes` | tree.go:52-160 | a tree mounted under a static prefix in a new tree routes prefix + p as the re-anchored tree routes p, whatever its leaves do |
| `RouteAnchors.MountPreservesRouting` | namespace.go:243-246 | so the same run object and parameters as before mounting, for every tree whose expressions stay, and for every matcher that ignores repeated anchors also where those at the ends of an expression only repeat the ones around it: no escaped dollar sign, no quantified anchor, no anchor on the wrong side |
| `RouteAnchors.EngineIgnoresRepeats` | tree.go:444-453 | an engine for anchors, literals and the groups `(.+)`, `([^/]+)` and `([0-9]+)` is such a matcher |
| `RouteAnchors.TidySame` | tree.go:196 | anchoring such an expression again makes no difference to such a matcher |
| `RouteAnchors.DollarTree` | tree.go:209-266 | the tree that the text of a parameter and an escaped dollar sign makes |
| `RouteAnchors.EscapedDollarWidens` | tree.go:196 | the pattern of a parameter and an escaped dollar sign: every path with something behind a dollar sign, and none at its end, is found only after mounting |
| `RouteMount.SecondTreeDecides` | tree.go:343-354 | for any two trees under one prefix, any extension and any rest: a page of the first is lost, with `:ext` set, exactly when the second has none |
| `RouteMount.DuplicatePrefixLosesPage` | tree.go:343-354 | a page and an empty tree are such a pair |
| `RequestParams.ParamStore.Param` | context/request.go:414-421 | the value of the key in the map the two slices stand for |
| `RequestParams.ParamStore.Params` | context/request.go:424-432 | the map itself |
| `RequestParams.ParamStore.SetParam` | context/request.go:435-445 | updates the map at the key; names stay distinct and slices of equal length |
| `RequestParams.ParamStore.Restore` | router.go:646-649 | reset and set again, in any order, brings the saved map back |
| `RouteFilters.ExecFilter` | router.go:634-657 | the loop computes the filters' effects up to the one that ends it |
| `RouteFilters.LoopEndsAtOutput` | router.go:636-656 | the loop ends early exactly at the first filter that asks to stop on output and sees some, before it or after it |
| `RouteFilters.OutputStays` | router.go:636-656 | output that has started stays, and a filter that matches and writes starts it |
| `RouteFilters.NodeFinds` | tree.go:294-382 | a search finds only what is stored |
| `RouteFilters.BuiltFilterResets` | router.go:640-651 | the tree that `AddRouter` builds for a filter that resets parameters is one for the next row |
| `RouteFilters.MountedFilterResets` | namespace.go:249-257 | and so is that tree mounted under a prefix in a new tree |
| `RouteFilters.ResetFiltersKeepParams` | router.go:640-651 | filters that reset parameters leave them as they were, matched or not |
| `Conditions.GetCondSQL` | orm/db_tables.go:329-397 | prints the tokens of the tree |
| `ConditionMeaning.TextMeansTree` | orm/db_tables.go:329-397 | the text parses, under NOT over AND over OR, to an expression with the tree's value for every assignment of three-valued leaves |
| `ConditionMeaning.TextParsesIffWellFormed` | orm/db_tables.go:339-355 | a text parses exactly when no condition of the tree is empty |
| `ConditionMeaning.EmptyConditionDangles` | orm/db_tables.go:346-354 | a test and an empty condition print a connector with nothing behind it |
| `ConditionMeaning.OrAdds` | orm/orm_conds.go:103-143 | what each of the four Or builders adds is an alternative to everything before |
| `ConditionMeaning.AndRestrictsLastRun` | orm/orm_conds.go:60-101 | what each of the four And builders adds restricts only the AND-run that the last Or builder started: the value is the runs before it, or the restricted one |
| `SqlMarks.OperatorIsBalanced` | orm/db.go:1168-1225 | an operator prints one mark per argument exactly when it is built in or the dialect has a one-mark text for it |
| `SqlMarks.OnlyNqLosesItsMark` | orm/db_postgres.go:23-38 | with the operators of PostgreSQL every operator but nq has one mark per argument |
| `SqlMarks.WhereIsBalanced` | orm/db_tables.go:329-397 | at every token of the WHERE text as many marks as arguments have gone by |
| `SqlMarks.CollectAssignments` | orm/db.go:759-780 | text and arguments of the SET list, with wrapped values taken out |
| `SqlMarks.UpdateBatch` | orm/db.go:751-787 | both forms of the statement are their fragments in order, and so are the arguments |
| `SqlMarks.UpdateIsBalanced` | orm/db.go:751-787 | marks follow the order of the arguments through the whole statement |
| `SqlMarks.ReplaceMarks` | orm/db_postgres.go:102-126 | the two passes number the marks |
| `SqlMarks.NumberedPieces` | orm/db_postgres.go:102-126 | placeholders read $1, $2, ... left to right, one per mark, and every other character is unchanged |
| `SqlMarks.UpdateIsNumbered` | orm/db.go:745-789 | end to end, for both forms of the statement: $1..$n with n the number of arguments, each fragment's marks standing for its own arguments |
| `SqlLike.FoundIff` | orm/db.go:1199-1210 | a pattern finds exactly the texts that contain, start with, end in or are its argument, if and only if that has no underscore and no backslash |
| `SqlReading.OperatorReads` | orm/db.go:1168-1225 | the text of every operator of PostgreSQL but nq, with its arguments in order, reads as the value printed for it on every row: sign, list, bounds, null test or pattern |
| `SqlReading.FaithfulIff` | orm/db.go:1193-1210 | that value is what the operator stands for on every row exactly for harmless arguments: no nil for exact, no percent sign for iexact, no underscore or backslash for the other text operators |
| `SqlReading.WhereReads` | orm/db_tables.go:329-397 | the whole WHERE text, read word by word with its arguments in order, has on every row the three-valued value of the condition tree, and nothing is left over |
| `SqlReading.ClauseReads` | orm/db_tables.go:391-393 | the clause is the word WHERE and that text, and nothing for a condition without text |
| `SqlUpdates.SetListMeans` | orm/db.go:759-780 | the SET text, read with its arguments in order, gives each column the value asked for, or its old one changed by it |
| `SqlUpdates.JoinedUpdateReads` | orm/db.go:782-783 | the words of the statement of a dialect that joins: table, joins, SET list, condition |
| `SqlUpdates.SelectingUpdateReads` | orm/db.go:784-787 | the words of one that does not: the SET list for the rows whose primary key the joins and the condition select |
| `JoinPaths.KeyInjective` | orm/db_tables.go:48-49 | paths of field names without double underscores have different keys |
| `JoinPaths.KnownPath` | orm/db_tables.go:49-53 | an entry found by key has that very path, parent, model and kind of join |
| `JoinPaths.TablesDistinct` | orm/db_tables.go:47-74 | no path and no alias occurs twice |
| `JoinTables.DbTables.PutTable` | orm/db_tables.go:47-74 | a new path is appended with the next alias; on a known one `add` changes nothing and `set` writes what is there; list and map keep agreeing, and every table is inner-joined exactly when no relation on its path is nullable and the end is not skipped |
| `JoinTables.DbTables.ParseExprs` | orm/db_tables.go:214-326 | the answer that the path determines, with the path's table in the list; a nil table exactly where the path ends in a reverse key field without table and no relation precedes it |
| `JoinColumns.AskedTable` | orm/db_tables.go:285-313 | a plain field is asked of the table that has the names of the path up to its last relation and the model of the field, which is T0 exactly when no relation precedes; a reverse field of its own table, for the primary key; a forward relation of T0 in first place and otherwise of the table behind it |
| `JoinColumns.ColumnIsThereIff` | orm/db_tables.go:285-313 | the table asked for a column has it exactly when it is not asked behind it or the relation leads back to its own model |
| `JoinColumns.CommentsByTitle` | orm/db_tables.go:287-291 | a query of comments by the title of their post asks the table of posts |
| `JoinColumns.LikesByAuthor` | orm/db_tables.go:287-293 | a query of likes by the author of their article asks the table of users for a column of articles |
| `JoinColumns.InnerJoinIff` | orm/db_tables.go:266-277 | a table is inner-joined exactly when no relation on its path may be missing, and in a delete none is |
| `JoinPaths.FailsIff` | orm/db_tables.go:238-321 | no answer exactly for an empty path or one with an unknown field at or before the place where the walk ends, with and without the end skipped |
| `JoinPaths.DeleteByReverseFieldPanics` | orm/db_tables.go:304-309 | a path on which a delete dereferences a nil table |
| `JoinTables.DbTables.ParsePath` | orm/db_tables.go:122-163 | one related path panics exactly when it does not resolve, and otherwise every step of it has its table, selected as asked |
| `JoinTables.DbTables.LoopDepth` | orm/db_tables.go:84-102 | appends the paths below a field |
| `JoinPaths.CollectedIff` | orm/db_tables.go:84-120 | the paths collected by depth are exactly those of one up to depth to-one relations |
| `JoinTables.DbTables.ParseRelated` | orm/db_tables.go:105-164 | panics exactly when a given path does not resolve; otherwise each of them, or without any each path of at most depth to-one relations, has a selected table for every step |
| `JoinTables.DbTables.JoinClauses` | orm/db_tables.go:167-211 | every ON clause uses the alias of its parent, which is T0 or declared before, and the columns of its field |
| `JoinSchema.JoinsByKeyIff` | orm/db_tables.go:188-205 | a field is joined by the key that the bootstrap paired it with exactly when no other relation to the owner is declared before that key, or one-to-one, when both primary keys have one name |
| `JoinTables.ArticlesClause` | orm/db_tables.go:191-195 | a schema with a many-to-many relation before the foreign key, and the clause it gets |
| `JoinTables.ProfileClause` | orm/db_tables.go:201-204 | a schema of a one-to-one whose primary keys differ, and the clause it gets |
| `JoinSchema.MagazineIsValid` | orm/models_boot.go:235-294 | the first of these schemas is what the bootstrap makes of its models |
| `JoinSchema.ProfilesAreValid` | orm/models_boot.go:239-250 | and so is the second |
| `Cascade.LeastTwice` | orm/db.go:806-827 | cascades for two columns one after the other delete what both together demand |
| `Cascade.BatchThenRels` | orm/db.go:881-905 | deleting a batch and then its relations deletes the least closed set around the batch |
| `Cascade.Database.UpdateColumnTo` | orm/db.go:816-824 | exactly the referring rows change, and of a column that is not nullable only those whose parent row exists |
| `Cascade.Database.DeleteRels` | orm/db.go:805-829 | ends on every schema, cyclic or not; removes the least closed set, applies set_null and set_default, changes nothing else |
| `Cascade.Database.DeleteColumn` | orm/db.go:806-827 | the same for one foreign key |
| `Cascade.Database.DeleteBatch` | orm/db.go:832-909 | removes exactly the least set that contains the batch and is closed under followed cascading references |
| `Cascade.NoDanglingReference` | orm/db.go:805-909 | no row that is left refers to a deleted one through a followed cascade or set_null column |
| `Cascade.RowsThatStay` | orm/db.go:805-909 | what is left, column by column: a value that refers to no deleted row stays; set_null empties, set_default fills a nullable column, and any other rule leaves what is there |
| `Cascade.SetDefaultReference` | orm/db.go:815-824 | a set_default reference is sound afterwards exactly when the column is nullable and the default is not deleted |
| `Cascade.DefaultLeavesDangling` | orm/db.go:815-824 | a column that is not nullable keeps its reference to the deleted row, although the default row stays |
| `Cascade.DeletedOnlyByCascade` | orm/db.go:805-909 | a deleted row outside the batch refers to another deleted row through a followed cascading column |
| `BulkInsert.InsertMulti` | orm/db.go:394-455 | the refilled buffer sends the batches of the specification, in order, and reports a row of another width |
| `BulkInsert.BatchesComplete` | orm/db.go:406-447 | for a bulk of at least 2 the batches are 1 to bulk whole rows and concatenate to all rows |
| `BulkInsert.SecondRowLost` | orm/db.go:439-446 | a bulk of 1 sends everything but the second row |
| `BulkInsert.AllRowsArriveIff` | orm/db.go:394-455 | all rows arrive exactly when the bulk is at least 2 or there is one row |
| `BulkInsert.BadRowStops` | orm/db.go:432-434 | a row of another width stops everything: sent are the rows before it that fill whole batches |
| `BulkInsert.BatchMarks` | orm/db.go:462-475 | the statement of a batch has as many marks as values |
| `BulkInsert.ValuesAreGroups` | orm/db.go:462-477 | the VALUES are as many groups as rows, each with a mark for every column |
| `AsyncLogger.NothingLostOrDoubled` | logs/log.go:293-301 | in every interleaving written, in-hand and queued messages are those the producers have sent, in order, and the wait group is 0 or 1 |
| `AsyncLogger.ReturnMeansWritten` | logs/log.go:456-480 | when Flush or Close returns, everything sent before the call has been written |
| `AsyncLogger.LateMessagesAreLost` | logs/log.go:347-356 | once the flush loop of a close has ended, exactly what was sent before is ever written |
| `AsyncLogger.ClosedForGood` | logs/log.go:468-480 | after a close has returned no message is taken on |
| `AsyncLogger.AliveUntilClose` | logs/log.go:339-362 | the consumer lives until a close is handled |
| `AsyncLogger.CallMakesProgress` | logs/log.go:339-362 | a call in progress is never stuck, and every step brings its return nearer |
| `FileLogs.CountLines` | logs/file.go:262-287 | counting block by block counts all line ends |
| `FileLogs.NewlinesAreCounted` | logs/file.go:262-287 | as a multiset counts them |
| `FileLogs.Writer.InitFd` | logs/file.go:206-231 | after a successful stat the size counter is the size of the file; the line counter is its lines or 0 |
| `FileLogs.Writer.FindName` | logs/file.go:318-322 | the first number whose name is free, or all names are taken |
| `FileLogs.TargetIsNamed` | logs/file.go:308-327 | the name of an archive: base, hour or day, number and suffix; the moment of the line and the first free number if the size is limited, otherwise the moment of the opening and the next number |
| `FileLogs.Pad3Reads` | logs/file.go:320 | numbers have at least three digits and read as themselves |
| `FileLogs.RotatedIsOpen` | logs/file.go:291-358 | whatever failed in a rotation: a writer without a free name, or without a file to rotate, keeps what it has open; one that went on to rename has exactly what it could open again |
| `FileLogs.Writer.DoRotate` | logs/file.go:291-358 | whatever fails, no file is overwritten and no line lost; without error the log file is new and empty and its content stands in one new file; the new state is a function of the old one and of what failed |
| `FileLogs.Writer.Append` | logs/file.go:178-185 | a nil error exactly when the whole line ends the file; what a failed write leaves is exactly what the counter then lacks |
| `FileLogs.Writer.WriteMsg` | logs/file.go:133-186 | acknowledged lines are in the files in order; a rotation is tried exactly when a limit is reached or the line belongs to another day or hour than the file; then, unless it reported an error, the file is within its limits of lines and size plus one line, and of the line's day and hour or opened just now; the counter stays equal to the size unless the reopened file could not be examined |
| `FileLogs.Writer.DailyRotate` | logs/file.go:233-245 | the timer of a day rotates exactly when a limit is reached or the day is another one |
| `FileLogs.Writer.HourlyRotate` | logs/file.go:247-260 | the same for the timer of an hour |
| `FileLogs.Writer.Run` | logs/file.go:147-358 | over every run, with any failures: the archives in order and then the log file hold exactly the acknowledged lines, each once, and no file is overwritten; files and counters are the fold of the events |
| `FileLogs.RunCounts` | logs/file.go:147-358 | over every run the size counter and the size differ by exactly the torn bytes it has not counted and the counted bytes that have moved away, added up from the events; they agree exactly when the two are equal |
| `FileLogs.UndisturbedStaysRight` | logs/file.go:147-358 | so they agree after every run in which no write is torn and every new file can be examined |
| `FileLogs.TornWriteGoesUncounted` | logs/file.go:179-183 | a torn write leaves the counter short by what got out |
| `Grace.Process.SetOffsets` | grace/grace.go:109-154 | offsets are the positions in the handed-over order, or in the order of registration: a bijection onto 0..n-1 |
| `Grace.Process.GetListener` | grace/server.go:195-217 | a child takes the file at the offset of its address, or at 0 for an address without one, a first process a new socket |
| `Grace.AddressWithoutSlot` | grace/server.go:196-206 | an address without a slot takes the file of the first slot |
| `Grace.FillSlots` | grace/server.go:302-309 | every slot is filled once, with its own address and socket, in whatever order the map is walked |
| `Grace.Process.Fork` | grace/server.go:295-337 | the child is started with the sockets in slot order and with the arguments cut at an earlier -graceful, then the flags |
| `Flags.ParseAppend` | grace/grace.go:113-115 | arguments behind others are read as flags exactly when those end open: no plain argument, no `--`, no flag that wants a value |
| `Flags.GracefulValues` | grace/grace.go:113-115 | which values of the switch make a child, which none, and which are errors |
| `Flags.ValueBehind` | grace/grace.go:113-115 | a value in the next argument is as good as one behind an equals sign |
| `Grace.TakesOverIff` | grace/grace.go:113-154 | a child is one, with the slots of its parent in whatever order it registers, exactly when the arguments before -graceful satisfy a test of the command line |
| `Grace.SubcommandLosesSockets` | grace/server.go:209-214 | behind a subcommand the child sees no flags and is none |
| `Grace.RunGeneration` | grace/server.go:295-337 | one generation from its registrations to its fork |
| `Grace.RunGenerations` | grace/server.go:295-337 | any number of generations, each able to run what its parent ran |
| `Grace.SocketsSurviveRestarts` | grace/server.go:195-337 | after any number of restarts, with registrations in any order, every address has its first socket and children start with the same files and arguments, given that test |
| `Grace.RestartsLoseSockets` | grace/server.go:195-337 | in every run of generations the first command line decides whether all processes after a restart are children or none is; where none is, every restart leaves every address on a socket bound anew; and the first child has the slots of its parent exactly under that test |
| `SessionStore.MemProvider.SessionRead` | session/sess_mem.go:95-109 | the session of the id, or a new one in front; map and list stay in bijection and ordered by access |
| `SessionStore.MemProvider.SessionUpdate` | session/sess_mem.go:183-192 | a known session is used now and stands in front; ids, other sessions and the order of the others are unchanged |
| `SessionStore.UpdatedSessionStays` | session/sess_mem.go:156-192 | an updated session stays, under its id, through every run of operations whose collections come at most a lifetime later and that neither destroys nor renames it |
| `SessionStore.UnusedSessionGoes` | session/sess_mem.go:156-175 | a collection more than a lifetime after the last use takes it away |
| `SessionStore.MemProvider.SessionRegenerate` | session/sess_mem.go:122-141 | the old session goes on under the new id with its time and place, the old id is gone, the others are unchanged; map and list agree afterwards exactly when the new id was not in use |
| `SessionStore.MemProvider.SessionDestroy` | session/sess_mem.go:144-153 | exactly that session goes from map and list, and the others stay as they were, in order |
| `SessionStore.MemProvider.SessionGC` | session/sess_mem.go:156-175 | popping from the back removes exactly all expired sessions |
| `SessionStore.RenameNeedsFreshId` | session/sess_mem.go:122-133 | regeneration keeps the bijection exactly when the new id is not in use |
| `SessionStore.PushNeedsFreshId` | session/sess_mem.go:136-138 | a new session keeps the bijection exactly when its id is not in use |
| `QuotedPrintable.QuotePrintEncode` | utils/mail.go:258-299 | writes the encoding of the input |
| `QuotedPrintable.RoundTrip` | utils/mail.go:258-313 | a decoder that keeps blanks at the ends of lines restores every byte string |
| `QuotedPrintable.StandardRoundTrip` | utils/mail.go:257-299 | the decoder of RFC 2045, which deletes them, restores the input exactly when no line of it ends in a blank |
| `QuotedPrintable.BlankIsLost` | utils/mail.go:302-304 | a space before a line feed is lost |
| `QuotedPrintable.LinesAreShort` | utils/mail.go:276-284 | no output line is longer than 76 characters before its CRLF |
| `QuotedPrintable.ShortTextStays` | utils/mail.go:267-274 | text of readable characters that fits on a line is written as it is |
| `QuotedPrintable.TrailingBlanks` | utils/mail.go:302-304 | a blank ends an output line exactly when one stands before a line feed in the input |

## Left out

- Time zones with daylight saving: the search assumes days of 24 hours, and the laws of `Clocks` say where it does. Instants are whole seconds, and the zero time is `None`.
- TaskRunner.RunEvents: a change restarts the same tasks; tasks added or deleted by it are not modelled.
- CronMask.GetBits: a machine word is the set of its bit positions, and callers exclude a step of 0, for which the original does not return; `GetRange` reports that outcome.
- TaskRunner.Insert: `sort.Sort` is modelled by insertion, since the original does not fix the order of equal tasks.
- Routing nodes are values: sharing of subtrees by pointers and update in place below the root are not modelled. The router object, its tree and the parameter store are updated in place.
- RouteTheorems.MatchIsScan: the agreement with a scan is for patterns of fixed and `:name` segments. The tree of the others is built and searched, but no scan of them is defined.
- RouteLeaves.LeavesFailCleanly: what an expression finds and how `path.Join` cleans what it joins are parameters; `PathJoin` stands for it where no value is `.` or `..`. A panic of a `*.*` leaf counts as no match outside `PathExtPanics`.
- RouteLoops.Router.AddRouter: the names of a leaf are values. In the code the leaf without an optional segment may share the array behind its names with the leaf that has it (`tree.go:221`, `tree.go:266`), which then overwrites one. Expressions that do not compile are not rejected.
- RouteAnchors.MountPreservesRouting: covers static prefixes in a fresh tree, as a namespace uses them. The engine knows anchors, literals, escaped literals and the groups `(.+)`, `([^/]+)` and `([0-9]+)`; other constructs match nothing in it.
- RouteSegments.SplitSegment: segments are sequences of characters; byte and rune positions of a Go string coincide only for ASCII.
- Raw SQL conditions, and conversions of arguments before they reach an operator.
- SqlReading.WhereReads: for the dialect of PostgreSQL; values are nulls, truth values, whole numbers and texts, and the order of values is a parameter.
- JoinColumns.AskedTable: a many-to-many field has no column of its own; its name stands for it, as in the code.
- JoinSchema.JoinsByKeyIff: the choice among several many-to-many relations by the tags `rel_through` and `rel_table` is left open.
- JoinTables.DbTables.ParseRelated: takes the given paths split at their double underscores.
- Database errors in the middle of a cascade: every statement succeeds and is one atomic set operation. `Delete` with explicit columns, which passes those values instead of primary keys to the cascade (`orm/db.go:676`), and generated many-to-many tables.
- BulkInsert.InsertMulti: every statement succeeds; collecting values from structs by reflection is not modelled.
- Two concurrent callers of `Flush`, for which the logger does not keep its invariant, and the synchronous mode.
- FileLogs.Writer.DoRotate: an error of `Lstat` on a candidate name means that there is no such file; removal of files by others and by age (`logs/file.go:360-389`) is not modelled; the two clock readings of `initFd` are one.
- FileLogs.Writer.Run: calls run one at a time; the gap between the read lock and the write lock of `WriteMsg` only repeats the same test.
- TLS listeners, signals, the parent's shutdown and errors of the operating system in a restart. The flags of an application are given by their kinds and the values they accept.
- Interleavings inside the lock gaps of the session provider, and the values stored in a session; list elements are numbers instead of pointers.
- Serving of HTTP, templates, caching, configuration, the administration pages, mail transport, migrations, query builders and the remaining adapters: I/O and library wrappers, or easy members.
