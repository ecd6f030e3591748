# hawkeye, modelled in Dafny

hawkeye is a web dashboard for the PBS jobs of the Metis cluster. Two
daemons read scheduler output over SSH and store jobs in SQLite:
`grab_old_jobs_thread` reads the `jmanl` history and `grab_jobs_helper`
reads `jobstat`. A third daemon, `grab_group_thread`, stores each user's
Unix groups. Web routes then serve the stored jobs, either as JSON
(`jobs_handler`, `stats_handler`) or as pages (running, search,
completed).

This project models that core:

- **Parsing.** The two parsers of `src/parsing/jobs.rs` and the numbers
  they derive (memory in GB; memory, walltime and CPU efficiency).
- **Store.** The database operations of `src/db/lib.rs`.
- **Daemons.** The passes of the two daemons, and their effect on the
  store.
- **Sorting.** `sort_jobs` of the pages, done in place on an array.
- **Routes.** The access decisions and page contents of the routes.

How the source's parts are modelled:

- **Outcomes.** Rust's `Result` becomes a `Result` whose failure is
  either an `Error`, which `?` propagates, or a `Panic`, which an
  `unwrap`, an `expect` or a missing map index raises.
- **Job records.** A job record is a `map<string, string>`.
- **The SQLite database.** It becomes the value `Tables`, which the
  class `Store.Db` holds and updates in place.
- **The pages' inputs.** The database reads a route issues are `Query`
  values. What the database answers (the rows, the permission lookups)
  and the session lookup are inputs to the page functions.

Each module is proved against its own specification:

- The daemon and store methods carry `ensures` that tie the new store
  to a step function on values.
- Lemmas state what those steps keep, add and refuse.

## Model

| member | source | states |
|---|---|---|
| JobParsing.ConvertMemCases | src/parsing/jobs.rs:8-30 | A plain number is taken as GB. Otherwise the text before the first `kb` is scaled by the source's KB-to-GB factor, or the text before the first `gb` is taken as is. A prefix that does not parse, or a string with neither suffix, is an `Error` with the source's message, never a panic |
| JobParsing.ParseTimeToSecondsSpec | src/parsing/jobs.rs:61-71 | A time parses exactly when it has three `:`-separated fields that each parse as `u64`. The value is h*3600 + m*60 + s taken modulo 2^64, as `u64` arithmetic without overflow checks computes it, so it never exceeds `u64::MAX`. A failure is an `Error` |
| JobParsing.ParseTimeToSecondsRoundTrip | src/parsing/jobs.rs:61-71 | Rendering any three `u64` values as `h:m:s` and parsing the result gives back h*3600 + m*60 + s modulo 2^64. That is the exact sum exactly when the sum fits in `u64` |
| JobParsing.WalltimeToPercentageSpec | src/parsing/jobs.rs:60-82 | A parse failure of the reserved time comes first, then one of the used time. A zero reserved time is refused with its own message. The result is `Ok` exactly when both parse and the reserved time is non-zero |
| JobParsing.WalltimeEfficiencyBounds | src/parsing/jobs.rs:73-81 | The walltime efficiency is never negative. It is at most 100 when the used seconds, as parsed (modulo 2^64), are at most the reserved ones, and exactly 100 when they are equal |
| JobParsing.UpdateMemory | src/parsing/jobs.rs:134-160 | The memory stage of the `jmanl` parser, as a method with its variable updates. It equals the stage function `MemoryStage` |
| JobParsing.MemoryStageKeeps | src/parsing/jobs.rs:134-160 | A successful memory stage needs the reserved memory field, and also the used memory field when no default is given. It writes `mem_efficiency` and changes no key outside the memory keys |
| JobParsing.MemoryStageNeverPanics | src/parsing/jobs.rs:270-296 | Every failure of the memory stage is an `Error`, so the daemon skips the job and does not crash |
| JobParsing.FieldSplitsAtFirstEquals | src/parsing/jobs.rs:108-132 | A `key=value` token splits at its first `=`. A token without `=` stores an empty value under the whole token |
| JobParsing.ReadTail | src/parsing/jobs.rs:108-132 | The loop over the line's tail tokens builds the same record as `InsertFields` |
| JobParsing.InsertFieldsLastWins | src/parsing/jobs.rs:108-132 | When a key appears in several tail tokens, the last of them decides its value |
| JobParsing.InsertFieldsUntouched | src/parsing/jobs.rs:108-132 | A key that no tail token names keeps its earlier value, or stays absent |
| JobParsing.JmanlRecordLacks | src/parsing/jobs.rs:92-132 | A parsed `jmanl` record has no key that its line does not name and that neither the parser nor its stages write. In particular it has `stime` only for a `stime=` field |
| JobParsing.JmanlRecordShortPrelim | src/parsing/jobs.rs:92-106 | A line with fewer than three `;`-separated fields is the `Error` "Invalid field!" |
| JobParsing.JmanlPrelimFields | src/parsing/jobs.rs:92-106 | The preliminary fields store the job state from the second field. They store the job id from the third field, cut at its first `.` |
| JobParsing.PositionalKept | src/parsing/jobs.rs:92-132 | A key set from the preliminary fields that no tail token names and no later stage writes reaches the finished record unchanged |
| JobParsing.NodeListHosts | src/parsing/jobs.rs:162-174 | `Nodes` lists, comma-separated and in order, the host of each `+`-separated chunk of `exec_host`, that is, the text before its first `/` |
| JobParsing.JmanlFinishKeeps | src/parsing/jobs.rs:134-206 | A finished `jmanl` record holds memory, walltime and CPU efficiency, and differs from its input only on the keys the stages write |
| JobParsing.JmanlFinishNeeds | src/parsing/jobs.rs:134-206 | A `jmanl` record can only finish when the used and reserved memory, walltime and CPU fields are all present |
| JobParsing.JmanlFinishDerived | src/parsing/jobs.rs:162-181 | A finished record has an `end` that parses as `i64`, and `end_time` is that number rendered again. When `exec_host` is present, `Nodes` is its host list |
| JobParsing.JmanlWalltimeStagePanics | src/parsing/jobs.rs:183-188 | The walltime stage panics exactly when either walltime field is missing |
| JobParsing.JmanlFinishPanics | src/parsing/jobs.rs:134-206 | A `jmanl` record panics exactly when the memory, nodes and end stages succeed and a walltime field is missing |
| JobParsing.JmanlFinishKeepsKey | src/parsing/jobs.rs:134-206 | Any key outside those the stages write, the job id among them, passes through finishing unchanged |
| JobParsing.JmanlJobStrToBtree | src/parsing/jobs.rs:84-206 | The `jmanl` line parser, written as a method. It equals the record function `JmanlRecord` |
| JobParsing.FinishJmanlEntry | src/parsing/jobs.rs:134-206 | The derivation stages after the fields are read, as one method. They equal `JmanlFinish` |
| JobParsing.ReadJobstatLines | src/parsing/jobs.rs:213-254 | The loop over a `jobstat` block's lines equals the field function `JobstatFields` |
| JobParsing.JobstatFailureSticks | src/parsing/jobs.rs:213-254 | Once a line fails, later lines do not change the result |
| JobParsing.JobstatFieldsShape | src/parsing/jobs.rs:213-254 | A parsed block never holds a `stime` key, because the start date is stored as `start_time`. `Job_Owner` never contains `@`, because the host part is cut off |
| JobParsing.JobstatJobIdIsFirstLine | src/parsing/jobs.rs:213-216 | The job id is the block's first line, unless a later `job_id = …` line overrides it |
| JobParsing.JobstatMalformedLine | src/parsing/jobs.rs:223-230 | A line that is neither the first, nor a `nodes:` line, nor a `key = value` line makes the whole block fail |
| JobParsing.JobstatFinishKeeps | src/parsing/jobs.rs:256-319 | A finished `jobstat` record holds all three efficiencies and keeps the state's defaults. It changes nothing but the derived figures |
| JobParsing.JobstatStartSurvives | src/parsing/jobs.rs:256-268 | A queued job (`Q`) gets zero walltime, zero CPU, no nodes and the `i32::MAX` start time, and the job state survives finishing |
| JobParsing.JobstatFinishShape | src/parsing/jobs.rs:256-319 | A finished `jobstat` record keeps its job state, still has no `stime` key, and its owner has no `@`. A queued job carries its placeholder values |
| JobParsing.JobstatJobStrToBtree | src/parsing/jobs.rs:208-319 | The `jobstat` block parser, as a method. It equals `JobstatRecord` |
| JobParsing.FinishJobstatEntry | src/parsing/jobs.rs:256-319 | The `jobstat` derivation stages, as a method. They equal `JobstatFinish` |
| Store.Seed | src/db/lib.rs:64-71 | Seeding adds `admin` and `zwlab` to the groups, keeps every existing group and adds nothing else |
| Store.SeedIdempotent | src/db/lib.rs:64-71 | Seeding twice is the same as seeding once (`INSERT OR IGNORE`) |
| Store.Db.constructor | src/db/lib.rs:12-76 | Opening the store keeps the existing tables and seeds the groups |
| Store.InsertJobSpec | src/db/lib.rs:77-115 | An insert succeeds exactly when the job's columns are present and its id parses. It then replaces that id's row and appends one stats row. The job name goes into the users table before the job row is tried; without a `Job_Name` nothing changes |
| Store.InsertJobOnlyItsRow | src/db/lib.rs:77-115 | Inserting a job leaves every other job's row as it was |
| Store.InsertJobMissingStart | src/db/lib.rs:91 | A job without the start-time key panics, and no job or stats row is written |
| Store.InsertJobLastWins | src/db/lib.rs:77-115 | Inserting two versions of the same job keeps the second (`INSERT OR REPLACE`) |
| Store.InsertJobKeepsReferences | src/db/lib.rs:77-115 | Every stats row keeps referring to a stored job |
| Store.Db.InsertJob | src/db/lib.rs:77-115 | The store after an insert, and its outcome, are those of `InsertJobStep` with the start time read from `start_time`. The source reads `stime` (see Findings) |
| Store.MarkCompletedSpec | src/db/lib.rs:119-148 | Marking touches only job states. A job changes only from `R` to `S`, and only when the scheduler does not list it. On success every running job not listed is marked and every listed one is not |
| Store.ActiveNeverMarked | src/db/lib.rs:124-127 | A job the scheduler still lists keeps its row |
| Store.MarkCompletedIdempotent | src/db/lib.rs:119-148 | A second pass over the same scheduler list changes nothing |
| Store.MarkCompletedKeepsReferences | src/db/lib.rs:119-148 | Every stats row keeps referring to a stored job |
| Store.ScanStopsLow | src/db/lib.rs:128-146 | The scan over running ids stops with an `Error` at the first id below `i32::MIN`, keeping the marks made before it. The error is rusqlite's `Integer <id> out of range at index 0` for that id |
| Store.ScanStopsHigh | src/db/lib.rs:128-146 | The same holds for the first id above `i32::MAX`, with that id in the message |
| Store.ScanEnds | src/db/lib.rs:128-146 | A scan that meets no out-of-range id marks every running, unlisted job |
| Store.Db.MarkCompletedJobs | src/db/lib.rs:119-148 | The loop over the running ids in ascending order yields the store and the outcome of `MarkCompletedStep` |
| Store.UserJobsOwned | src/db/lib.rs:150-175 | Every row returned for a user is owned by that user |
| Store.UserJobsComplete | src/db/lib.rs:150-175 | Every readable job of that user is returned |
| Store.Db.GetUserJobs | src/db/lib.rs:150-175 | The loop over the jobs in id order returns the rows of `UserJobsFrom` |
| Store.JobStatsOfJob | src/db/lib.rs:177-192 | Every stats row returned belongs to the requested job |
| Store.JobStatsAppend | src/db/lib.rs:177-192 | A new stats row is returned after the earlier ones exactly when it belongs to the job |
| Store.Db.GetJobStats | src/db/lib.rs:177-192 | The loop over the stats rows returns `JobStatsUpTo` of all of them |
| Store.Db.InsertUserGroup | src/daemons/groups.rs:38-41 | A successful insert adds the group and the membership. A failing one changes nothing and reports its error |
| JobsDaemon.BuildChunks | src/daemons/jobs.rs:40-46 | The loop filling the chunk map builds `ChunksFrom` |
| JobsDaemon.ChunksLastWins | src/daemons/jobs.rs:40-46 | A job id has a chunk count exactly when some capture names it, and the last capture naming it decides the count |
| JobsDaemon.RecordLinesSpec | src/daemons/jobs.rs:48-65 | The output is refused exactly when it has neither record separator. Otherwise the lines are the non-empty pieces, in order, of the text between the first LF separator and the next one (or the end) split at line feeds. Without an LF separator, they are the same for the CRLF separator split at CR LF. No line is empty or holds the break it was cut at |
| JobsDaemon.RecordLinesCrlf | src/daemons/jobs.rs:48-65 | A report without CR and the same report with every line feed written as CR LF are accepted alike and give the same record lines |
| JobsDaemon.PrelimTailRebuild | src/daemons/jobs.rs:66-75 | The first three `;` fields and the rest of the line put back together give the line. The three fields hold no `;` |
| JobsDaemon.LineJobsSingle | src/daemons/jobs.rs:84-91 | A line whose parse is an `Error` is skipped. A parsed line yields one job carrying its chunk count |
| JobsDaemon.LineJobsAppend | src/daemons/jobs.rs:66-101 | Parsing a concatenation of lines yields the jobs of each part, in order, and succeeds exactly when both parts do |
| JobsDaemon.LineJobsChunked | src/daemons/jobs.rs:84-98 | Every parsed job carries the chunk count the summary gave for its id |
| JobsDaemon.LineJobsPanic | src/daemons/jobs.rs:84-101 | A line whose parse panics makes the whole pass panic |
| JobsDaemon.LineJobsFrom | src/daemons/jobs.rs:66-101 | Every job of a pass is the parse of one of the lines, with its chunk count added |
| JobsDaemon.InsertAllFailureSticks | src/daemons/jobs.rs:113-118 | After the first failing insert no later job is written |
| JobsDaemon.InsertAllStored | src/daemons/jobs.rs:113-118 | When every insert succeeds, every job has a row, one stats row is added per job and the groups are untouched |
| JobsDaemon.InsertAllUntouched | src/daemons/jobs.rs:113-118 | A job id that no inserted job carries keeps its row |
| JobsDaemon.InsertAllPanicsAt | src/daemons/jobs.rs:113-118 | Once the jobs before it are stored, a job without the start-time key ends the loop in a panic. The Jobs rows and stats stay as the earlier jobs left them |
| JobsDaemon.InsertJobs | src/daemons/jobs.rs:113-118 | The insert loop leaves the store and the outcome of `InsertAllStep`, each insert reading the start time from `start_time` |
| JobsDaemon.GrabOldJobs | src/daemons/jobs.rs:19-121 | A `jmanl` pass leaves the store and the outcome of `OldJobsStep`, its inserts reading the start time from `start_time` |
| JobsDaemon.OldJobsAsWrittenPanics | src/db/lib.rs:91 | As written, a `jmanl` pass stores the jobs before the first one without `stime` and then panics. Its Jobs rows and stats stay as those earlier jobs left them |
| JobsDaemon.OldJobsWithoutStimePanic | src/db/lib.rs:91 | As written, a `jmanl` pass in which no line has a `stime=` field panics at its first job, before any Jobs row or stat is written |
| JobsDaemon.JobstatBlocksSpec | src/daemons/jobs.rs:206-210 | The `jobstat` output is refused exactly when it has no block separator, with the output in the message. Otherwise the blocks, joined again by blank CRLF lines, are the text between the first separator and the next one (or the end), and no block holds a blank CRLF line |
| JobsDaemon.BlockJobsSpec | src/daemons/jobs.rs:212-226 | Every job comes from a parsed block that is not a `nodes:` block, and every such block that parses yields its job |
| JobsDaemon.GrabJobsStopsMissing | src/daemons/jobs.rs:228-240 | After a successful pass, a running job the scheduler no longer reports is marked `S` |
| JobsDaemon.GrabJobsKeepsReported | src/daemons/jobs.rs:228-240 | After a successful pass, every reported job is stored as inserted, and marking does not touch it |
| JobsDaemon.JobstatRecordNoStime | src/parsing/jobs.rs:231-237 | A parsed `jobstat` record never has a `stime` key, because the start date is stored as `start_time` |
| JobsDaemon.JobstatInsertAsWrittenPanics | src/db/lib.rs:91 | Inserting any parsed `jobstat` record through a read of `stime` panics and writes no row |
| JobsDaemon.JobstatPassAsWrittenPanics | src/db/lib.rs:91 | As written, a `jobstat` pass that collects any job panics at its first insert. No Jobs row or stat is written and no job is marked |
| JobsDaemon.GrabJobs | src/daemons/jobs.rs:190-244 | A `jobstat` pass leaves the store and the outcome of `JobsStep`, its inserts reading the start time from `start_time` |
| GroupsDaemon.GroupNamesSpec | src/daemons/groups.rs:29-34 | The output is refused exactly when it has no ` : `. The groups are the whitespace-separated words between the first and second ` : ` |
| GroupsDaemon.GroupNamesRoundTrip | src/daemons/groups.rs:29-34 | The output `user : g1 g2 …` gives back exactly the groups |
| GroupsDaemon.GroupsStepSpec | src/daemons/groups.rs:37-41 | The pass succeeds exactly when no insert fails. It then adds every group and membership, and jobs, users and stats are never touched |
| GroupsDaemon.GroupsFailureSticks | src/daemons/groups.rs:37-41 | After the first failing insert no later group is written |
| GroupsDaemon.GrabGroups | src/daemons/groups.rs:14-46 | A groups pass leaves the store and the outcome of `GroupThreadStep` |
| JobSorting.SortField | src/routes/pages/mod.rs:20-31 | An anonymous caller never sorts by `owner`. The field is always `pbs_id` or the one asked for. Without `sort` it is `pbs_id`, and any other request is honoured |
| JobSorting.Reversing | src/routes/pages/mod.rs:32-36 | The list is reversed exactly when `reverse=true` |
| JobSorting.SortPermutes | src/routes/pages/mod.rs:40-52 | Sorting is a permutation |
| JobSorting.SortAscending | src/routes/pages/mod.rs:40-52 | The sorted list is ascending in the byte order of the key |
| JobSorting.SortStable | src/routes/pages/mod.rs:40-52 | Sorting is stable: jobs with equal keys keep their order |
| JobSorting.ReverseDescending | src/routes/pages/mod.rs:54-56 | Reversing an ascending list gives a descending one |
| JobSorting.SortJobsSpec | src/routes/pages/mod.rs:10-56 | Without parameters the list is unchanged. It is always a permutation. Otherwise it is sorted ascending and stable, or descending when reversed |
| JobSorting.InsertAt | src/routes/pages/mod.rs:40-52 | One insertion step in place on the array equals `Insert` on the prefix |
| JobSorting.SortInPlace | src/routes/pages/mod.rs:40-52 | The in-place sort leaves `Sort` of the old contents |
| JobSorting.ReverseInPlace | src/routes/pages/mod.rs:54-56 | The in-place reversal leaves the reversed old contents |
| JobSorting.SortJobsInPlace | src/routes/pages/mod.rs:10-56 | `sort_jobs` on the array leaves `SortJobs` of the old contents |
| ApiRoutes.AnonymousJobsSpec | src/routes/jobs.rs:34-75 | Without a login, only the censored list without state and owner filters is ever shown. A `user` or `group` parameter is a 401, but a failing read is a 500 first |
| ApiRoutes.JobsAccess | src/routes/jobs.rs:10-171 | A user's jobs go only to that user or an admin, a group's jobs only to an admin or a member, and an uncensored or owner-filtered list only to an admin |
| ApiRoutes.UserParamFirst | src/routes/jobs.rs:87-113 | A `user` parameter is decided before `group`. The list is shown exactly to the user or an admin when the read succeeds, and others get the 401 |
| ApiRoutes.GroupParam | src/routes/jobs.rs:116-150 | A non-member non-admin gets a 401. An admin or member gets the group's jobs with all four filters, and an admin's answer does not depend on membership |
| ApiRoutes.DefaultList | src/routes/jobs.rs:154-171 | Without `user` and `group` a logged-in caller gets all jobs. The list is censored exactly for non-admins, and the owner filter is passed only for admins |
| ApiRoutes.StatsAccess | src/routes/stats.rs:10-82 | Stats are shown exactly to a logged-in caller with an `id` that parses as `i32` and the right to see that job. A missing or malformed id is a 400 and a refusal is a 401 |
| PageRoutes.ParseNodesNames | src/routes/running.rs:78-90 | At most ten node names are shown, in order, and the tenth carries the note about the rest |
| PageRoutes.ReqNodes | src/routes/completed.rs:109-119 | The required-node count is written in decimal and equals the number of comma-separated names |
| PageRoutes.ReqNodesCounts | src/routes/completed.rs:109-119 | Joining n names without commas gives the count n. An empty node list counts as 1 |
| PageRoutes.DateOffsetSpec | src/routes/search.rs:59-73 | The window is a day, a year or ten years for `day`, `year` or `all` in any case, and a month for anything else or nothing |
| PageRoutes.SinceFilterParses | src/routes/completed.rs:53-67 | The start-time filter is a decimal `i64` equal to now minus the window |
| PageRoutes.RunningPageSpec | src/routes/running.rs:28-121 | The running page lists the running jobs, newest first. The list is censored exactly for anonymous callers, and a session failure is a 401 |
| PageRoutes.SearchPageSpec | src/routes/search.rs:35-158 | A search reads the database only for a logged-in caller with some filter, uncensored, with the `user` filter as the owner and the date window. The alert says which of the two is missing |
| PageRoutes.CompletedHeaderSpec | src/routes/completed.rs:122-130 | The header names the user and the window (`month` by default), or the cluster when there is no user |
| PageRoutes.CompletedLoggedOut | src/routes/completed.rs:69-137 | Without a login, no jobs are read, the header names the `user` parameter if given, and the page carries the login alert |
| PageRoutes.CompletedReadFails | src/routes/completed.rs:80-83 | A failing read answers 500 |
| PageRoutes.CompletedMissingNodes | src/routes/completed.rs:109-119 | A job without `nodes` makes the page panic |
| PageRoutes.CompletedShownJobs | src/routes/completed.rs:108-119 | A shown page lists the jobs read, last row first, each with its `req_nodes` |
| PageRoutes.CompletedPageSpec | src/routes/completed.rs:31-146 | An anonymous caller gets an empty page with the login alert. A logged-in caller gets the `E` jobs of the requested user in the window, newest first, each with `req_nodes`. A failing read is a 500 and a job without `nodes` a panic |

## Left out

- I/O is out of scope: the SSH commands, the scheduler itself, the SQLite file and its SQL text, the HTTP server and the templates. Scheduler output, query results and the session lookup are parameters.
- The daemon loops (`old_jobs_daemon`, `jobs_daemon`, `groups_daemon`) are left out. So are their sleeps and the fan-out helpers (`grab_old_jobs_helper`, `grab_groups_helper`). Each pass they run is modelled.
- The `jmanl` summary regex is not modelled. Its captures, in match order, are an input to `JobsDaemon.GrabOldJobs`.
- `date_to_unix_timestamp` (chrono date parsing) is a parameter. So is `f64::to_string`: numbers are written through a `Show` function.
- `f64` arithmetic is modelled on exact reals, with infinities and NaN but without rounding. The efficiencies are therefore exact quotients.
- JobParsing.ConvertMemCases: `str::parse::<f64>` accepts the decimal, exponent, `inf` and `nan` forms of the model. Rust's rounding to the nearest `f64` is not modelled. A huge exponent, which Rust saturates, keeps its exact value in the model.
- Some error messages are shortened. Each drops ` Error: ` and the `Debug` rendering of the inner error:
  - the walltime-efficiency message (src/parsing/jobs.rs:187, :302) and the start-time message (:235);
  - the 500 answers of the JSON routes: `Couldn't get all jobs!` (src/routes/jobs.rs:72, :168), `Couldn't get jobs for user U!` (:102), `Couldn't get jobs for group G!` (:146) and `Couldn't get stats for user ID!` (src/routes/stats.rs:67).
- RecordLines: its error keeps only `Invalid input!`. The source appends ` INput: ` and the `Debug` rendering of the whole report (src/daemons/jobs.rs:58), whose escaping is not modelled. So `JobsDaemon.RecordLinesCrlf` compares accepted reports only.
- The `Debug` rendering of a job in the insert context of `grab_old_jobs_thread` is the parameter `describe`. The other messages are modelled in full.
- The routes call `get_user_jobs` with state, queue, owner, name and date filters (src/routes/jobs.rs:91, src/routes/completed.rs:74). The `get_user_jobs` of `src/db/lib.rs:150` takes only the user name. The route query `UserJobs(...)` is therefore a description of the read, not tied to `Store.Db.GetUserJobs`.
- Store.InsertJobSpec: the job id is converted as `str::parse::<i64>` reads a decimal. SQLite would also take other texts it converts losslessly to an integer for the `INTEGER PRIMARY KEY` column `pbs_id` (such as `5.0`). The model refuses those.
- ParseTimeToSeconds: the `u64` sum is modelled as a release build computes it, wrapping modulo 2^64. A debug build panics on that overflow instead. The build profile is not part of this model.
- SQLite's column typing is an input: `readReal`/`readInt` say whether a stored text reads back as a number.
- `insert_user_group` is not defined in `src/db/lib.rs`. `Store.Db.InsertUserGroup` models its effect from its call in `src/daemons/groups.rs`, with the failure as an input.
- `get_all_running_jobs`, `get_group_jobs`, `is_user_admin`, `is_user_in_group` and `is_user_able_to_view_stats` are not defined in `src/db/lib.rs`. The routes describe these reads as `Query` values, and the permission answers are inputs.
- Some page helpers are not modelled: `timestamp_to_date`, `to_i32` and `div_two_i32s_into_f32` (local-time formatting and `f32` arithmetic). The pages under `src/routes/pages/` and the login and logout routes are not part of this model.
- PageRoutes.DateOffsetSpec: `to_lowercase` is modelled for ASCII letters only. No other character lowercases into the letters of `day`, `year` or `all`, so the selected window is the same.
- The wall clock is the parameter `now`.
- The daemon marks finished jobs `S`, while the completed page asks for state `E`. Both are modelled as written.
- The completed page lets any logged-in caller list any user's completed jobs. This is modelled as written and stated by `PageRoutes.CompletedPageSpec`.
- JobParsing.PositionalKept: the job id set from the line's third field is stated to reach the finished record only when no tail token names `job_id`. With such a token, the last one wins (`JobParsing.InsertFieldsLastWins`).

## Findings

| source | as written | input that shows it | evidently intended | confidence | as-written member | corrected member |
|---|---|---|---|---|---|---|
| src/db/lib.rs:91 | `insert_job` indexes the job with `stime`, but the `jobstat` parser stores the start under `start_time` and never writes `stime` | any `jobstat` block that parses: inserting its record panics with "no entry found for key", so `grab_jobs_helper` crashes on its first job | read `start_time`, the key the parser writes. Reading it does not by itself let the pass store running jobs: the next index, `job["Nodes"]` (src/db/lib.rs:95), is written by the parser only for `Q` jobs (src/parsing/jobs.rs:262), so a running job still panics there unless its output carries a `Nodes = ` line | not executed | JobsDaemon.JobstatPassAsWrittenPanics | Store.Db.InsertJob |
| src/db/lib.rs:91 | the same read of `stime` in the `jmanl` pass of `grab_old_jobs_thread`, whose parser stores `start=` as `start_time` (src/parsing/jobs.rs:119-121) and writes `stime` only for a literal `stime=` field | a `jmanl` report whose lines carry `start=` and no `stime=`: the first parsed job panics the pass, before any Jobs row or stat | read `start_time` | not executed | JobsDaemon.OldJobsWithoutStimePanic | Store.Db.InsertJob |
