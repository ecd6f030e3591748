/** The SQLite store of `src/db/lib.rs` over an in-memory image of its
    tables: Groups and Users are sets of names, Jobs is keyed by `pbs_id`,
    PastStats is append-only (a row's `stat_id` is its position plus one). */
module Store {
  import opened Wrappers
  import opened Numbers
  import opened JobParsing

  /** A Jobs row; every column holds the text it was written from. */
  datatype Job = Job(
    name: string, owner: string, state: string, stime: string, queue: string, nodes: string,
    reqMem: string, reqCpus: string, reqGpus: string, reqWalltime: string, reqSelect: string,
    memEfficiency: string, walltimeEfficiency: string)

  /** A PastStats row. */
  datatype Stat = Stat(pbsId: int, cpuPercent: string, mem: string)

  /** The contents of every table. Memberships are the user/group pairs the
      groups daemon records. */
  datatype Tables = Tables(
    groups: set<string>, users: set<string>, jobs: map<int, Job>, stats: seq<Stat>,
    memberships: set<(string, string)>)

  /** The tables after a store operation, and what the operation returned. */
  datatype Step = Step(after: Tables, outcome: Result<()>)

  /** The panic message of indexing a `BTreeMap` with a missing key. */
  const NO_ENTRY: string := "no entry found for key"

  /** SQLite's error for a non-integer value in an INTEGER PRIMARY KEY. */
  const DATATYPE_MISMATCH: string := "datatype mismatch"

  /** The `Display` text of rusqlite's error for an INTEGER `value` in
      column 0 that does not fit the requested type. */
  function OutOfRange(value: int): string
  {
    "Integer " + IntToString(value) + " out of range at index 0"
  }

  /** The key `insert_job` reads the start time from, as written. */
  const STIME_AS_WRITTEN: string := "stime"

  /** The key both parsers store the start time under. */
  const START_TIME: string := "start_time"

  // ---------------------------------------------------------------------
  // DB::new

  const SEEDED: set<string> := {"admin", "zwlab"}

  /** The two `INSERT OR IGNORE INTO Groups` statements of `DB::new`. */
  function Seed(groups: set<string>): (r: set<string>)
    ensures "admin" in r && "zwlab" in r
    ensures groups <= r && r - groups <= SEEDED
  {
    groups + SEEDED
  }

  /** Opening the database again seeds nothing new. */
  lemma SeedIdempotent(groups: set<string>)
    ensures Seed(Seed(groups)) == Seed(groups)
  {
  }

  // ---------------------------------------------------------------------
  // insert_job

  /** Every key the Jobs insert indexes: all its columns except
      `Resource_List.ngpus`, which defaults to "0". */
  predicate HasColumns(job: Record, startKey: string)
  {
    "job_id" in job && "Job_Name" in job && "Job_Owner" in job && "job_state" in job
    && startKey in job && "queue" in job && "Nodes" in job && "Resource_List.mem" in job
    && "Resource_List.ncpus" in job && "Resource_List.walltime" in job
    && "Resource_List.select" in job && "mem_efficiency" in job && "walltime_efficiency" in job
  }

  /** The Jobs row written for `job`. */
  function RowOf(job: Record, startKey: string): Job
    requires HasColumns(job, startKey)
  {
    Job(job["Job_Name"], job["Job_Owner"], job["job_state"], job[startKey], job["queue"],
        job["Nodes"], job["Resource_List.mem"], job["Resource_List.ncpus"],
        GetOr(job, "Resource_List.ngpus", "0"), job["Resource_List.walltime"],
        job["Resource_List.select"], job["mem_efficiency"], job["walltime_efficiency"])
  }

  /** `insert_job`, with the start time read from `startKey`: the job name is
      added to Users, the row is inserted or replaced under the numeric job
      id, and one PastStats row is appended. Each statement panics on a
      missing key after the earlier statements took effect; a job id that is
      not an integer is rejected by the Jobs insert. */
  function InsertJobStep(t: Tables, job: Record, startKey: string): Step
  {
    if "Job_Name" !in job then Step(t, Err(Panic(NO_ENTRY)))
    else
      var t1 := t.(users := t.users + {job["Job_Name"]});
      if !HasColumns(job, startKey) then Step(t1, Err(Panic(NO_ENTRY)))
      else
        match ParseI64(job["job_id"])
        case None => Step(t1, Err(Error(DATATYPE_MISMATCH)))
        case Some(id) =>
          var t2 := t1.(jobs := t1.jobs[id := RowOf(job, startKey)]);
          if "resources_used.cpupercent" !in job || "resources_used.mem" !in job
          then Step(t2, Err(Panic(NO_ENTRY)))
          else
            var stat := Stat(id, job["resources_used.cpupercent"], job["resources_used.mem"]);
            Step(t2.(stats := t2.stats + [stat]), Ok(()))
  }

  /** Every key `insert_job` needs is there and the job id is an integer. */
  predicate Insertable(job: Record, startKey: string)
  {
    HasColumns(job, startKey) && ParseI64(job["job_id"]).Some?
    && "resources_used.cpupercent" in job && "resources_used.mem" in job
  }

  /** `insert_job` succeeds exactly on insertable jobs; then the row under
      the job id is the new one (last write wins), every other row is as it
      was, the job name is in Users, and exactly one stat row, this job's,
      is appended. Groups and memberships never change, earlier stat rows
      are never touched, and a job without a name changes nothing. */
  lemma InsertJobSpec(t: Tables, job: Record, startKey: string)
    ensures var s := InsertJobStep(t, job, startKey);
      && (s.outcome.Ok? <==> Insertable(job, startKey))
      && s.after.groups == t.groups && s.after.memberships == t.memberships
      && t.stats <= s.after.stats
      && ("Job_Name" !in job ==> s.after == t)
      && ("Job_Name" in job ==> s.after.users == t.users + {job["Job_Name"]})
      && (s.outcome.Ok? ==>
            var id := ParseI64(job["job_id"]).value;
            && s.after.jobs == t.jobs[id := RowOf(job, startKey)]
            && s.after.stats == t.stats + [Stat(id, job["resources_used.cpupercent"], job["resources_used.mem"])])
  {
  }

  /** Whatever the outcome, `insert_job` writes no Jobs row but the one
      under the job's own id. */
  lemma InsertJobOnlyItsRow(t: Tables, job: Record, startKey: string, id: int)
    requires "job_id" in job ==> ParseI64(job["job_id"]) != Some(id)
    ensures var after := InsertJobStep(t, job, startKey).after;
      (id in after.jobs <==> id in t.jobs) && (id in t.jobs ==> after.jobs[id] == t.jobs[id])
  {
  }

  /** A job without the key the start time is read from panics before the
      Jobs row is written: no row and no stat is stored. */
  lemma {:induction false} InsertJobMissingStart(t: Tables, job: Record, startKey: string)
    requires startKey !in job
    ensures var s := InsertJobStep(t, job, startKey);
      s.outcome == Err(Panic(NO_ENTRY)) && s.after.jobs == t.jobs && s.after.stats == t.stats
  {
  }

  /** Inserting the same job id twice keeps only the second row. */
  lemma InsertJobLastWins(t: Tables, a: Record, b: Record, startKey: string)
    requires Insertable(a, startKey) && Insertable(b, startKey)
    requires a["job_id"] == b["job_id"]
    ensures var s := InsertJobStep(InsertJobStep(t, a, startKey).after, b, startKey);
      var id := ParseI64(a["job_id"]).value;
      s.outcome.Ok? && s.after.jobs == t.jobs[id := RowOf(b, startKey)]
  {
    InsertJobSpec(t, a, startKey);
    InsertJobSpec(InsertJobStep(t, a, startKey).after, b, startKey);
  }

  /** Each PastStats row refers to a Jobs row. */
  predicate StatsReferToJobs(t: Tables)
  {
    forall i :: 0 <= i < |t.stats| ==> t.stats[i].pbsId in t.jobs
  }

  lemma InsertJobKeepsReferences(t: Tables, job: Record, startKey: string)
    requires StatsReferToJobs(t)
    ensures StatsReferToJobs(InsertJobStep(t, job, startKey).after)
  {
    var s := InsertJobStep(t, job, startKey);
    forall i | 0 <= i < |s.after.stats|
      ensures s.after.stats[i].pbsId in s.after.jobs
    {
      if i < |t.stats| {
        assert s.after.stats[i] == t.stats[i];
      }
    }
  }

  // ---------------------------------------------------------------------
  // mark_completed_jobs

  /** The active set: the `job_id` of every active job that parses as an
      `i32`; indexing panics on a job without one. */
  function ActiveIds(active: seq<Record>): Result<set<int>>
  {
    if forall j :: 0 <= j < |active| ==> "job_id" in active[j] then
      Ok(set j | 0 <= j < |active| && ParseI32(active[j]["job_id"]).Some?
           :: ParseI32(active[j]["job_id"]).value)
    else Err(Panic(NO_ENTRY))
  }

  /** The ids of the rows in state 'R'. */
  function Running(jobs: map<int, Job>): set<int>
  {
    set id | id in jobs && jobs[id].state == "R"
  }

  /** The ids that fit an `i32`, the type the scan reads them as. */
  function InRange(ids: set<int>): set<int>
  {
    set id | id in ids && I32_MIN <= id <= I32_MAX
  }

  /** `jobs` with the rows in `marked` whose id is not active set to 'S'. */
  function Marked(jobs: map<int, Job>, marked: set<int>, active: set<int>): map<int, Job>
  {
    map id | id in jobs :: if id in marked && id !in active then jobs[id].(state := "S") else jobs[id]
  }

  /** `mark_completed_jobs`: the 'R' rows are read in `pbs_id` order; a row
      whose id does not fit an `i32` stops the scan with an error, after the
      smaller ids were handled; every scanned id not in the active set gets
      state 'S'. */
  function MarkCompletedStep(t: Tables, active: seq<Record>): Step
  {
    match ActiveIds(active)
    case Err(f) => Step(t, Err(f))
    case Ok(ids) =>
      var running := Running(t.jobs);
      if exists id :: id in running && id < I32_MIN then Step(t, Err(Error(OutOfRange(Min(running)))))
      else
        var after := t.(jobs := Marked(t.jobs, InRange(running), ids));
        var high := set id | id in running && id > I32_MAX;
        if high != {} then Step(after, Err(Error(OutOfRange(Min(high)))))
        else Step(after, Ok(()))
  }

  /** What `mark_completed_jobs` changes: only the state column, only of 'R'
      rows whose id is not active, and only to 'S'; no row appears or
      disappears and no other table changes. With every id in range, an
      'R' row ends in 'S' exactly when its id is not active. */
  lemma {:induction false} MarkCompletedSpec(t: Tables, active: seq<Record>)
    requires ActiveIds(active).Ok?
    ensures var s := MarkCompletedStep(t, active);
      var ids := ActiveIds(active).value;
      && s.after.groups == t.groups && s.after.users == t.users
      && s.after.stats == t.stats && s.after.memberships == t.memberships
      && s.after.jobs.Keys == t.jobs.Keys
      && (forall id :: id in t.jobs ==>
            s.after.jobs[id] == t.jobs[id]
            || (t.jobs[id].state == "R" && id !in ids && s.after.jobs[id] == t.jobs[id].(state := "S")))
      && (s.outcome.Ok? ==> forall id :: id in t.jobs && t.jobs[id].state == "R" ==>
            (s.after.jobs[id].state == "S" <==> id !in ids))
  {
    var s := MarkCompletedStep(t, active);
    var ids := ActiveIds(active).value;
    var running := Running(t.jobs);
    if s.outcome.Ok? {
      assert !exists id :: id in running && id < I32_MIN;
      NoHighIds(running);
      assert InRange(running) == running;
      assert s.after.jobs == Marked(t.jobs, running, ids);
    }
  }

  /** An active job whose id parses as an `i32` is never marked. */
  lemma ActiveNeverMarked(t: Tables, active: seq<Record>, j: nat)
    requires ActiveIds(active).Ok?
    requires j < |active| && ParseI32(active[j]["job_id"]).Some?
    ensures var id := ParseI32(active[j]["job_id"]).value;
      id in t.jobs ==> MarkCompletedStep(t, active).after.jobs[id] == t.jobs[id]
  {
    var id := ParseI32(active[j]["job_id"]).value;
    assert id in ActiveIds(active).value;
    MarkCompletedSpec(t, active);
  }

  /** Marking twice against the same active jobs changes nothing more. */
  lemma MarkCompletedIdempotent(t: Tables, active: seq<Record>)
    requires MarkCompletedStep(t, active).outcome.Ok?
    ensures var once := MarkCompletedStep(t, active);
      MarkCompletedStep(once.after, active) == once
  {
    var once := MarkCompletedStep(t, active);
    var ids := ActiveIds(active).value;
    var running := Running(t.jobs);
    var jobs1 := once.after.jobs;
    NoHighIds(running);
    assert InRange(running) == running;
    assert jobs1 == Marked(t.jobs, running, ids);
    var running1 := Running(jobs1);
    assert running1 <= running;
    assert InRange(running1) == running1;
    assert Marked(jobs1, running1, ids) == jobs1;
  }

  /** Marking keeps every stat row's reference. */
  lemma MarkCompletedKeepsReferences(t: Tables, active: seq<Record>)
    requires StatsReferToJobs(t)
    ensures StatsReferToJobs(MarkCompletedStep(t, active).after)
  {
    var s := MarkCompletedStep(t, active);
    assert s.after.jobs.Keys == t.jobs.Keys;
  }

  // ---------------------------------------------------------------------
  // get_user_jobs, get_job_stats

  /** Reading a stored REAL or INTEGER column back as text: `None` when the
      stored value is not of the requested type. */
  type ColumnRead = string -> Option<string>

  /** The record `get_user_jobs` builds from the row `id`, or `None` when a
      typed read fails (such rows are dropped by `rows.flatten()`). */
  function JobRecord(id: int, job: Job, readReal: ColumnRead, readInt: ColumnRead): Option<Record>
  {
    if !(I32_MIN <= id <= I32_MAX) then None
    else
      match (readReal(job.reqMem), readInt(job.reqCpus), readInt(job.reqGpus),
             readReal(job.memEfficiency), readReal(job.walltimeEfficiency))
      case (Some(mem), Some(cpus), Some(gpus), Some(memEff), Some(wallEff)) =>
        Some(map["pbs_id" := IntToString(id), "name" := job.name, "owner" := job.owner,
                 "state" := job.state, "stime" := job.stime, "queue" := job.queue,
                 "nodes" := job.nodes, "req_mem" := mem, "req_cpus" := cpus, "req_gpus" := gpus,
                 "req_walltime" := job.reqWalltime, "req_select" := job.reqSelect,
                 "mem_efficiency" := memEff, "walltime_efficiency" := wallEff])
      case _ => None
  }

  predicate IsMin(ids: set<int>, m: int)
  {
    m in ids && forall x :: x in ids ==> m <= x
  }

  lemma HasElement(ids: set<int>)
    requires ids != {}
    ensures exists x :: x in ids
  {
    if forall x :: x !in ids {
      assert false;
    }
  }

  lemma {:induction false} HasMin(ids: set<int>)
    requires ids != {}
    ensures exists m :: IsMin(ids, m)
    decreases |ids|
  {
    HasElement(ids);
    var x :| x in ids;
    if ids != {x} {
      var rest := ids - {x};
      HasMin(rest);
      var m :| IsMin(rest, m);
      if x < m {
        forall y | y in ids ensures x <= y {
          if y != x { assert y in rest; }
        }
        assert IsMin(ids, x);
      } else {
        forall y | y in ids ensures m <= y {
          if y != x { assert y in rest; }
        }
        assert IsMin(ids, m);
      }
    } else {
      assert IsMin(ids, x);
    }
  }

  /** The smallest element of a non-empty set. */
  function Min(ids: set<int>): (m: int)
    requires ids != {}
    ensures IsMin(ids, m)
  {
    HasMin(ids);
    var m :| IsMin(ids, m); m
  }

  /** The records of the rows `ids` owned by `username`, in ascending id
      order (the table's scan order), less those that fail to convert. */
  ghost function UserJobsFrom(jobs: map<int, Job>, ids: set<int>, username: string,
                              readReal: ColumnRead, readInt: ColumnRead): seq<Record>
    requires ids <= jobs.Keys
    decreases |ids|
  {
    if ids == {} then []
    else
      var m := Min(ids);
      var here := if jobs[m].owner == username then JobRecord(m, jobs[m], readReal, readInt) else None;
      (if here.Some? then [here.value] else []) + UserJobsFrom(jobs, ids - {m}, username, readReal, readInt)
  }

  lemma JobRecordOwner(id: int, job: Job, readReal: ColumnRead, readInt: ColumnRead)
    requires JobRecord(id, job, readReal, readInt).Some?
    ensures var r := JobRecord(id, job, readReal, readInt).value;
      "owner" in r && r["owner"] == job.owner && "pbs_id" in r && r["pbs_id"] == IntToString(id)
  {
  }

  /** The first step of `UserJobsFrom`, at the smallest id `m`. */
  lemma UserJobsFromMin(jobs: map<int, Job>, ids: set<int>, username: string,
                        readReal: ColumnRead, readInt: ColumnRead, m: int)
    requires ids <= jobs.Keys && IsMin(ids, m)
    ensures var here := if jobs[m].owner == username then JobRecord(m, jobs[m], readReal, readInt) else None;
      UserJobsFrom(jobs, ids, username, readReal, readInt)
        == (if here.Some? then [here.value] else []) + UserJobsFrom(jobs, ids - {m}, username, readReal, readInt)
  {
    var n := Min(ids);
    assert n <= m && m <= n;
  }

  /** One step of a scan that appends the records of `UserJobsFrom` to `r`. */
  lemma UserJobsAdvance(jobs: map<int, Job>, ids: set<int>, username: string,
                        readReal: ColumnRead, readInt: ColumnRead, m: int, r: seq<Record>)
    requires ids <= jobs.Keys && IsMin(ids, m)
    ensures var here := if jobs[m].owner == username then JobRecord(m, jobs[m], readReal, readInt) else None;
      (r + if here.Some? then [here.value] else []) + UserJobsFrom(jobs, ids - {m}, username, readReal, readInt)
        == r + UserJobsFrom(jobs, ids, username, readReal, readInt)
  {
    UserJobsFromMin(jobs, ids, username, readReal, readInt, m);
  }

  predicate OwnedBy(rs: seq<Record>, username: string)
  {
    forall k :: 0 <= k < |rs| ==> "owner" in rs[k] && rs[k]["owner"] == username
  }

  lemma OwnedByConcat(a: seq<Record>, b: seq<Record>, username: string)
    requires OwnedBy(a, username) && OwnedBy(b, username)
    ensures OwnedBy(a + b, username)
  {
    forall k | 0 <= k < |a + b|
      ensures "owner" in (a + b)[k] && (a + b)[k]["owner"] == username
    {
      if k < |a| {
        assert (a + b)[k] == a[k];
      } else {
        assert (a + b)[k] == b[k - |a|];
      }
    }
  }

  /** Every record `get_user_jobs` returns is a row owned by `username`. */
  lemma {:induction false} UserJobsOwned(jobs: map<int, Job>, ids: set<int>, username: string,
                                         readReal: ColumnRead, readInt: ColumnRead)
    requires ids <= jobs.Keys
    ensures OwnedBy(UserJobsFrom(jobs, ids, username, readReal, readInt), username)
    decreases |ids|
  {
    if ids != {} {
      var m := Min(ids);
      var rest := UserJobsFrom(jobs, ids - {m}, username, readReal, readInt);
      UserJobsOwned(jobs, ids - {m}, username, readReal, readInt);
      var here := if jobs[m].owner == username then JobRecord(m, jobs[m], readReal, readInt) else None;
      var head := if here.Some? then [here.value] else [];
      if here.Some? {
        JobRecordOwner(m, jobs[m], readReal, readInt);
        assert head[0] == here.value;
      }
      assert OwnedBy(head, username);
      OwnedByConcat(head, rest, username);
    }
  }

  /** A convertible row of `username` is among the returned records. */
  lemma {:induction false} UserJobsComplete(jobs: map<int, Job>, ids: set<int>, username: string,
                                            readReal: ColumnRead, readInt: ColumnRead, id: int)
    requires ids <= jobs.Keys && id in ids && jobs[id].owner == username
    requires JobRecord(id, jobs[id], readReal, readInt).Some?
    ensures JobRecord(id, jobs[id], readReal, readInt).value in UserJobsFrom(jobs, ids, username, readReal, readInt)
    decreases |ids|
  {
    var m := Min(ids);
    if id != m {
      UserJobsComplete(jobs, ids - {m}, username, readReal, readInt, id);
    }
  }

  /** The record `get_job_stats` builds from stat row `i` (`stat_id` is
      `i + 1`), or `None` when a typed read fails. */
  function StatRecord(i: nat, stat: Stat, readReal: ColumnRead): Option<Record>
  {
    if i + 1 > I32_MAX || !(I32_MIN <= stat.pbsId <= I32_MAX) then None
    else
      match (readReal(stat.cpuPercent), readReal(stat.mem))
      case (Some(cpu), Some(mem)) =>
        Some(map["stat_id" := IntToString(i + 1), "pbs_id" := IntToString(stat.pbsId),
                 "cpu_percent" := cpu, "mem" := mem])
      case _ => None
  }

  /** The records of the stat rows of job `id` among the first `n` rows, in
      `stat_id` order. */
  function JobStatsUpTo(stats: seq<Stat>, n: nat, id: int, readReal: ColumnRead): seq<Record>
    requires n <= |stats|
  {
    if n == 0 then []
    else
      var here := if stats[n - 1].pbsId == id then StatRecord(n - 1, stats[n - 1], readReal) else None;
      JobStatsUpTo(stats, n - 1, id, readReal) + (if here.Some? then [here.value] else [])
  }

  lemma StatRecordOf(i: nat, stat: Stat, readReal: ColumnRead)
    requires StatRecord(i, stat, readReal).Some?
    ensures var r := StatRecord(i, stat, readReal).value;
      "pbs_id" in r && r["pbs_id"] == IntToString(stat.pbsId)
  {
  }

  predicate OfJob(rs: seq<Record>, id: int)
  {
    forall k :: 0 <= k < |rs| ==> "pbs_id" in rs[k] && rs[k]["pbs_id"] == IntToString(id)
  }

  /** Every stat record returned belongs to job `id`. */
  lemma {:induction false} JobStatsOfJob(stats: seq<Stat>, n: nat, id: int, readReal: ColumnRead)
    requires n <= |stats|
    ensures OfJob(JobStatsUpTo(stats, n, id, readReal), id)
  {
    if n > 0 {
      var before := JobStatsUpTo(stats, n - 1, id, readReal);
      JobStatsOfJob(stats, n - 1, id, readReal);
      var here := if stats[n - 1].pbsId == id then StatRecord(n - 1, stats[n - 1], readReal) else None;
      var tail := if here.Some? then [here.value] else [];
      if here.Some? {
        StatRecordOf(n - 1, stats[n - 1], readReal);
        assert tail[0] == here.value;
      }
      assert OfJob(tail, id);
      var r := before + tail;
      forall k | 0 <= k < |r|
        ensures "pbs_id" in r[k] && r[k]["pbs_id"] == IntToString(id)
      {
        if k < |before| {
          assert r[k] == before[k];
        } else {
          assert r[k] == tail[k - |before|];
        }
      }
    }
  }

  /** Appending a stat row for another job does not change the stats read
      for `id`; appending one for `id` adds its record at the end. */
  lemma JobStatsAppend(stats: seq<Stat>, stat: Stat, id: int, readReal: ColumnRead)
    ensures var r := JobStatsUpTo(stats + [stat], |stats| + 1, id, readReal);
      var before := JobStatsUpTo(stats, |stats|, id, readReal);
      var here := StatRecord(|stats|, stat, readReal);
      r == before + (if stat.pbsId == id && here.Some? then [here.value] else [])
  {
    JobStatsPrefix(stats + [stat], stats, |stats|, id, readReal);
  }

  lemma {:induction false} JobStatsPrefix(stats: seq<Stat>, prefix: seq<Stat>, n: nat, id: int, readReal: ColumnRead)
    requires n <= |prefix| <= |stats| && prefix == stats[..|prefix|]
    ensures JobStatsUpTo(stats, n, id, readReal) == JobStatsUpTo(prefix, n, id, readReal)
  {
    if n > 0 {
      JobStatsPrefix(stats, prefix, n - 1, id, readReal);
      assert stats[n - 1] == prefix[n - 1];
    }
  }

  /** Where the scan of the 'R' rows stands: the ids in `done` were
      handled, all below those still `pending`, and all fit an `i32`. */
  predicate ScanState(jobs0: map<int, Job>, running: set<int>, pending: set<int>, done: set<int>)
  {
    running == Running(jobs0) && pending <= running && done == running - pending
    && (forall d, p :: d in done && p in pending ==> d < p)
    && (forall d :: d in done ==> I32_MIN <= d <= I32_MAX)
  }

  lemma ScanAdvance(jobs0: map<int, Job>, running: set<int>, pending: set<int>, done: set<int>,
                    ids: set<int>, id: int)
    requires ScanState(jobs0, running, pending, done) && IsMin(pending, id)
    requires I32_MIN <= id <= I32_MAX
    ensures ScanState(jobs0, running, pending - {id}, done + {id})
    ensures var jobs := Marked(jobs0, done, ids);
      id in jobs && Marked(jobs0, done + {id}, ids)
        == if id in ids then jobs else jobs[id := jobs[id].(state := "S")]
  {
  }

  /** The scan stops at an id below the `i32` range before it marks
      anything. */
  lemma ScanStopsLow(t: Tables, active: seq<Record>, ids: set<int>, pending: set<int>, done: set<int>, id: int)
    requires ActiveIds(active) == Ok(ids)
    requires ScanState(t.jobs, Running(t.jobs), pending, done) && IsMin(pending, id)
    requires id < I32_MIN
    ensures MarkCompletedStep(t, active) == Step(t.(jobs := Marked(t.jobs, done, ids)), Err(Error(OutOfRange(id))))
  {
    assert forall d :: d !in done;
    assert done == {};
    assert Marked(t.jobs, done, ids) == t.jobs;
    assert id in Running(t.jobs);
  }

  /** The scan stops at an id above the `i32` range once every smaller id
      was handled. */
  lemma ScanStopsHigh(t: Tables, active: seq<Record>, ids: set<int>, pending: set<int>, done: set<int>, id: int)
    requires ActiveIds(active) == Ok(ids)
    requires ScanState(t.jobs, Running(t.jobs), pending, done) && IsMin(pending, id)
    requires id > I32_MAX
    ensures MarkCompletedStep(t, active) == Step(t.(jobs := Marked(t.jobs, done, ids)), Err(Error(OutOfRange(id))))
  {
    var running := Running(t.jobs);
    forall x | x in running
      ensures I32_MIN <= x && (x <= I32_MAX <==> x in done)
    {
      if x in done {
        assert I32_MIN <= x <= I32_MAX;
      } else {
        assert x in pending && id <= x;
      }
    }
    assert done == InRange(running);
    var high := set x | x in running && x > I32_MAX;
    assert IsMin(high, id);
    assert Min(high) == id;
  }

  /** No running id lies above the `i32` range when the set of those ids
      is empty. */
  lemma NoHighIds(running: set<int>)
    requires (set x | x in running && x > I32_MAX) == {}
    ensures forall x :: x in running ==> x <= I32_MAX
  {
    forall x | x in running
      ensures x <= I32_MAX
    {
      var high := set y | y in running && y > I32_MAX;
      assert x in high <==> x > I32_MAX;
    }
  }

  /** The scan that runs out of rows has handled every 'R' row. */
  lemma ScanEnds(t: Tables, active: seq<Record>, ids: set<int>, done: set<int>)
    requires ActiveIds(active) == Ok(ids)
    requires ScanState(t.jobs, Running(t.jobs), {}, done)
    ensures MarkCompletedStep(t, active) == Step(t.(jobs := Marked(t.jobs, done, ids)), Ok(()))
  {
    var running := Running(t.jobs);
    assert done == running;
    assert InRange(running) == running;
  }

  // ---------------------------------------------------------------------
  // The connection

  class Db {
    var groups: set<string>
    var users: set<string>
    var jobs: map<int, Job>
    var stats: seq<Stat>
    var memberships: set<(string, string)>

    function Contents(): Tables
      reads this
    {
      Tables(groups, users, jobs, stats, memberships)
    }

    /** `DB::new` on a database file holding `existing`: the tables are
        kept and the default groups are added. */
    constructor (existing: Tables)
      ensures Contents() == existing.(groups := Seed(existing.groups))
    {
      groups := existing.groups;
      users := existing.users;
      jobs := existing.jobs;
      stats := existing.stats;
      memberships := existing.memberships;
      groups := groups + {"admin"};
      groups := groups + {"zwlab"};
    }

    /** `insert_job`, with the start time read from `start_time`. */
    method InsertJob(job: Record) returns (r: Result<()>)
      modifies this
      ensures Step(Contents(), r) == InsertJobStep(old(Contents()), job, START_TIME)
    {
      if "Job_Name" !in job {
        return Err(Panic(NO_ENTRY));
      }
      users := users + {job["Job_Name"]};

      if !HasColumns(job, START_TIME) {
        return Err(Panic(NO_ENTRY));
      }
      var id := ParseI64(job["job_id"]);
      if id.None? {
        return Err(Error(DATATYPE_MISMATCH));
      }
      jobs := jobs[id.value := RowOf(job, START_TIME)];

      if "resources_used.cpupercent" !in job || "resources_used.mem" !in job {
        return Err(Panic(NO_ENTRY));
      }
      stats := stats + [Stat(id.value, job["resources_used.cpupercent"], job["resources_used.mem"])];
      r := Ok(());
    }

    /** `mark_completed_jobs`, one 'R' row at a time in ascending id order. */
    method MarkCompletedJobs(active: seq<Record>) returns (r: Result<()>)
      modifies this
      ensures Step(Contents(), r) == MarkCompletedStep(old(Contents()), active)
    {
      var activeIds := ActiveIds(active);
      if activeIds.Err? {
        return activeIds.PropagateFailure();
      }
      var ids := activeIds.value;
      ghost var t := Contents();
      assert t == old(Contents());
      var marked := jobs;
      var running := set id | id in marked && marked[id].state == "R";
      var pending := running;
      ghost var done: set<int> := {};
      while pending != {}
        invariant ScanState(t.jobs, running, pending, done)
        invariant marked == Marked(t.jobs, done, ids)
        invariant Contents() == t
        decreases |pending|
      {
        HasMin(pending);
        var id :| IsMin(pending, id);
        if id < I32_MIN {
          ScanStopsLow(t, active, ids, pending, done, id);
          jobs := marked;
          return Err(Error(OutOfRange(id)));
        }
        if id > I32_MAX {
          ScanStopsHigh(t, active, ids, pending, done, id);
          jobs := marked;
          return Err(Error(OutOfRange(id)));
        }
        ScanAdvance(t.jobs, running, pending, done, ids, id);
        if id !in ids {
          marked := marked[id := marked[id].(state := "S")];
        }
        pending := pending - {id};
        done := done + {id};
      }
      ScanEnds(t, active, ids, done);
      jobs := marked;
      r := Ok(());
    }

    /** `get_user_jobs`: reads only. */
    method GetUserJobs(username: string, readReal: ColumnRead, readInt: ColumnRead)
      returns (r: seq<Record>)
      ensures r == UserJobsFrom(jobs, jobs.Keys, username, readReal, readInt)
    {
      var table := jobs;
      var pending := table.Keys;
      r := [];
      while pending != {}
        invariant pending <= table.Keys
        invariant r + UserJobsFrom(table, pending, username, readReal, readInt)
                  == UserJobsFrom(table, table.Keys, username, readReal, readInt)
        decreases |pending|
      {
        HasMin(pending);
        var id :| IsMin(pending, id);
        UserJobsAdvance(table, pending, username, readReal, readInt, id, r);
        var row := table[id];
        var record := if row.owner == username then JobRecord(id, row, readReal, readInt) else None;
        r := r + if record.Some? then [record.value] else [];
        pending := pending - {id};
      }
    }

    /** `get_job_stats`: reads only. */
    method GetJobStats(id: int, readReal: ColumnRead) returns (r: seq<Record>)
      requires I32_MIN <= id <= I32_MAX
      ensures r == JobStatsUpTo(stats, |stats|, id, readReal)
    {
      r := [];
      for i := 0 to |stats|
        invariant r == JobStatsUpTo(stats, i, id, readReal)
      {
        if stats[i].pbsId == id {
          var record := StatRecord(i, stats[i], readReal);
          if record.Some? {
            r := r + [record.value];
          }
        }
      }
    }

    /** `insert_user_group` (its body is not part of this model): on
        success the group and the membership are recorded, if absent;
        `failure` is whether the database rejects the write. */
    method InsertUserGroup(user: string, group: string, failure: Option<string>) returns (r: Result<()>)
      modifies this
      ensures r == if failure.Some? then Err(Error(failure.value)) else Ok(())
      ensures Contents() == if failure.Some? then old(Contents()) else
        old(Contents()).(groups := old(groups) + {group},
                         memberships := old(memberships) + {(user, group)})
    {
      if failure.Some? {
        return Err(Error(failure.value));
      }
      groups := groups + {group};
      memberships := memberships + {(user, group)};
      r := Ok(());
    }
  }
}
