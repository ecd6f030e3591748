/** The pure pipeline of the two job daemons of `src/daemons/jobs.rs`: the
    scheduler output is cut into records, each record is parsed on its own
    (a record that fails is skipped, a panic ends the pass), and the parsed
    jobs are written to the store in order. */
module JobsDaemon {
  import opened Wrappers
  import opened Text
  import opened Numbers
  import opened JobParsing
  import opened Store
  import opened LineEndings

  // ---------------------------------------------------------------------
  // grab_old_jobs_thread (jmanl)

  /** One regex capture of the `jmanl` summary: a job id and its number of
      chunks. */
  type Capture = (string, string)

  /** The chunk map after the captures `cs` were inserted in order. */
  function ChunksFrom(cs: seq<Capture>): map<string, string>
  {
    if cs == [] then map[]
    else ChunksFrom(cs[..|cs| - 1])[cs[|cs| - 1].0 := cs[|cs| - 1].1]
  }

  /** The `for` loop filling `chunks_map`. */
  method BuildChunks(cs: seq<Capture>) returns (chunks: map<string, string>)
    ensures chunks == ChunksFrom(cs)
  {
    chunks := map[];
    for i := 0 to |cs|
      invariant chunks == ChunksFrom(cs[..i])
    {
      assert cs[..i + 1][..i] == cs[..i];
      var (jobId, numChunks) := cs[i];
      chunks := chunks[jobId := numChunks];
    }
    assert cs[..|cs|] == cs;
  }

  /** The last capture is inserted last. */
  lemma ChunksFromLast(cs: seq<Capture>)
    requires cs != []
    ensures ChunksFrom(cs) == ChunksFrom(cs[..|cs| - 1])[cs[|cs| - 1].0 := cs[|cs| - 1].1]
  {
  }

  /** A job id is in the chunk map exactly when some capture names it. */
  lemma {:induction false} ChunksDomain(cs: seq<Capture>, id: string)
    ensures id in ChunksFrom(cs) <==> exists i :: 0 <= i < |cs| && cs[i].0 == id
    decreases |cs|
  {
    if cs != [] {
      var n := |cs| - 1;
      var init := cs[..n];
      ChunksFromLast(cs);
      ChunksDomain(init, id);
      if cs[n].0 == id {
        assert id in ChunksFrom(cs);
      } else if id in ChunksFrom(init) {
        var i :| 0 <= i < n && init[i].0 == id;
        assert cs[i] == init[i];
      } else {
        forall i | 0 <= i < |cs|
          ensures cs[i].0 != id
        {
          if i < n {
            assert cs[i] == init[i];
          }
        }
      }
    }
  }

  /** A job id in the chunk map has the count of the last capture naming it. */
  lemma {:induction false} ChunksLastCount(cs: seq<Capture>, id: string)
    requires id in ChunksFrom(cs)
    ensures exists i ::
      0 <= i < |cs| && cs[i] == (id, ChunksFrom(cs)[id]) && forall j :: i < j < |cs| ==> cs[j].0 != id
    decreases |cs|
  {
    var n := |cs| - 1;
    var init := cs[..n];
    ChunksFromLast(cs);
    if cs[n].0 == id {
      assert cs[n] == (id, ChunksFrom(cs)[id]);
    } else {
      assert id in ChunksFrom(init) && ChunksFrom(cs)[id] == ChunksFrom(init)[id];
      ChunksLastCount(init, id);
      var i :| 0 <= i < n && init[i] == (id, ChunksFrom(init)[id])
        && forall j :: i < j < n ==> init[j].0 != id;
      forall j | i < j < |cs|
        ensures cs[j].0 != id
      {
        if j < n {
          assert cs[j] == init[j];
        }
      }
      assert cs[i] == init[i];
    }
  }

  /** A job id is in the chunk map exactly when some capture names it, and
      then its count is that of the last such capture. */
  lemma ChunksLastWins(cs: seq<Capture>, id: string)
    ensures id in ChunksFrom(cs) <==> exists i :: 0 <= i < |cs| && cs[i].0 == id
    ensures id in ChunksFrom(cs) ==>
      exists i :: 0 <= i < |cs| && cs[i] == (id, ChunksFrom(cs)[id])
        && forall j :: i < j < |cs| ==> cs[j].0 != id
  {
    ChunksDomain(cs, id);
    if id in ChunksFrom(cs) {
      ChunksLastCount(cs, id);
    }
  }

  const LF_MARKER: string := "Raw records::\n"
  const CRLF_MARKER: string := "Raw records::\r\n"

  /** The non-empty record lines of a `jmanl` report: the text after the
      first LF marker (up to a second one) split on LF, or else after the
      first CRLF marker split on CRLF. */
  function RecordLines(raw: string): (r: Result<seq<string>>)
  {
    match SecondField(raw, LF_MARKER)
    case Some(input) => Ok(NonEmpty(Split(input, "\n")))
    case None =>
      match SecondField(raw, CRLF_MARKER)
      case Some(input) => Ok(NonEmpty(Split(input, "\r\n")))
      case None => Err(Error("Invalid input!"))
  }

  /** The section is missing exactly when neither marker occurs. Otherwise
      the lines are the non-empty pieces, in order, of the text between the
      first LF marker and the next one (or the end) cut at line feeds, or,
      without an LF marker, of the text between the first CRLF marker and
      the next one (or the end) cut at CR LF. So no line is empty, and none holds the break it was cut at. */
  lemma RecordLinesSpec(raw: string)
    ensures RecordLines(raw).Err? <==> !Contains(raw, LF_MARKER) && !Contains(raw, CRLF_MARKER)
    ensures Contains(raw, LF_MARKER) ==>
      RecordLines(raw) == Ok(NonEmpty(Split(SectionAfter(raw, LF_MARKER), "\n")))
    ensures !Contains(raw, LF_MARKER) && Contains(raw, CRLF_MARKER) ==>
      RecordLines(raw) == Ok(NonEmpty(Split(SectionAfter(raw, CRLF_MARKER), "\r\n")))
    ensures RecordLines(raw).Ok? ==>
      forall k :: 0 <= k < |RecordLines(raw).value| ==> RecordLines(raw).value[k] != []
    ensures Contains(raw, LF_MARKER) ==>
      forall k :: 0 <= k < |RecordLines(raw).value| ==> !Contains(RecordLines(raw).value[k], "\n")
    ensures !Contains(raw, LF_MARKER) && Contains(raw, CRLF_MARKER) ==>
      forall k :: 0 <= k < |RecordLines(raw).value| ==> !Contains(RecordLines(raw).value[k], "\r\n")
  {
    SplitCount(raw, LF_MARKER);
    SplitCount(raw, CRLF_MARKER);
    match SecondField(raw, LF_MARKER)
    case Some(input) =>
      SecondPiece(raw, LF_MARKER);
      var pieces := Split(input, "\n");
      NonEmptySpec(pieces);
      NonEmptyPieces(input, "\n");
    case None =>
      match SecondField(raw, CRLF_MARKER)
      case Some(input) =>
        SecondPiece(raw, CRLF_MARKER);
        NonEmptySpec(Split(input, "\r\n"));
        NonEmptyPieces(input, "\r\n");
      case None =>
  }

  /** The kept pieces of a split hold no separator. */
  lemma NonEmptyPieces(input: string, sep: string)
    requires sep != []
    ensures forall k :: 0 <= k < |NonEmpty(Split(input, sep))| ==> !Contains(NonEmpty(Split(input, sep))[k], sep)
  {
    NonEmptySpec(Split(input, sep));
    SplitPiecesFree(input, sep);
    forall k | 0 <= k < |NonEmpty(Split(input, sep))|
      ensures !Contains(NonEmpty(Split(input, sep))[k], sep)
    {
      var x := NonEmpty(Split(input, sep))[k];
      var j :| 0 <= j < |Split(input, sep)| && Split(input, sep)[j] == x;
    }
  }

  lemma CrlfRecordsHead(head: string)
    requires head == "Raw records::"
    ensures Crlf(head + "\n") == head + "\r\n"
  {
    assert '\n' !in head;
    CrlfLineEnd(head);
  }

  lemma RecordsHeadMarkers(head: string)
    requires head == "Raw records::"
    ensures head + "\n" == LF_MARKER && head + "\r\n" == CRLF_MARKER
  {
  }

  /** The CRLF marker is the LF marker written with CR LF. */
  lemma CrlfMarker()
    ensures Crlf(LF_MARKER) == CRLF_MARKER
  {
    CrlfRecordsHead("Raw records::");
    RecordsHeadMarkers("Raw records::");
  }

  lemma MarkerNoCr()
    ensures '\r' !in LF_MARKER && LF_MARKER[13] == '\n' && LF_MARKER[12] != '\r'
    ensures CRLF_MARKER[13] == '\r'
  {
  }

  /** The LF marker never occurs in the CR LF form of a report. */
  lemma LfMarkerMissing(raw: string)
    requires '\r' !in raw
    ensures SecondField(Crlf(raw), LF_MARKER).None?
  {
    MarkerNoCr();
    CrlfNoSecondField(raw, LF_MARKER, 13);
  }

  /** The CRLF marker never occurs in a report without CR. */
  lemma CrlfMarkerMissing(raw: string)
    requires '\r' !in raw
    ensures SecondField(raw, CRLF_MARKER).None?
  {
    MarkerNoCr();
    FindMissingChar(raw, CRLF_MARKER, 13);
    SplitCount(raw, CRLF_MARKER);
  }

  /** The section after the CRLF marker in the CR LF form of a report is
      the CR LF form of the section after the LF marker. */
  lemma MarkersInCrlf(raw: string)
    requires '\r' !in raw
    ensures SecondField(Crlf(raw), CRLF_MARKER).Some? <==> SecondField(raw, LF_MARKER).Some?
    ensures SecondField(raw, LF_MARKER).Some? ==>
      && SecondField(Crlf(raw), CRLF_MARKER).value == Crlf(SecondField(raw, LF_MARKER).value)
      && '\r' !in SecondField(raw, LF_MARKER).value
  {
    MarkerNoCr();
    CrlfMarker();
    SecondFieldCrlf(raw, LF_MARKER, CRLF_MARKER);
  }

  /** A report read with CR LF line endings gives the same record lines as
      the same report with LF line endings: the LF marker never occurs in
      the CR LF form, so the CRLF path cuts the same lines. */
  lemma RecordLinesCrlf(raw: string)
    requires '\r' !in raw
    ensures RecordLines(Crlf(raw)).Ok? <==> RecordLines(raw).Ok?
    ensures RecordLines(raw).Ok? ==> RecordLines(Crlf(raw)).value == RecordLines(raw).value
  {
    LfMarkerMissing(raw);
    CrlfMarkerMissing(raw);
    MarkersInCrlf(raw);
    match SecondField(raw, LF_MARKER)
    case None =>
    case Some(input) =>
      LinesCrlf(input);
  }

  /** The fields of a record line. */
  function Fields(line: string): (f: seq<string>)
    ensures |f| >= 1
  {
    Split(line, ";")
  }

  /** `split(';').take(3)`: the first three fields. */
  function Prelim(line: string): seq<string>
  {
    var f := Fields(line);
    if |f| <= 3 then f else f[..3]
  }

  /** `split(';').skip(3)` joined again with `;`. */
  function Tail(line: string): string
  {
    var f := Fields(line);
    if |f| <= 3 then "" else Join(f[3..], ";")
  }

  /** Prelim and tail split the line at its third `;`: joined back they give
      the line, and no prelim field holds a `;`. */
  lemma PrelimTailRebuild(line: string)
    ensures |Fields(line)| > 3 ==> Join(Prelim(line), ";") + ";" + Tail(line) == line
    ensures |Fields(line)| <= 3 ==> Join(Prelim(line), ";") == line && Tail(line) == ""
    ensures |Prelim(line)| == if |Fields(line)| < 3 then |Fields(line)| else 3
    ensures forall k :: 0 <= k < |Prelim(line)| ==> !Contains(Prelim(line)[k], ";")
  {
    var f := Fields(line);
    SplitJoin(line, ";");
    SplitPiecesFree(line, ";");
    if |f| > 3 {
      assert f == f[..3] + f[3..];
      JoinAppend(f[..3], f[3..], ";");
    }
  }

  /** How a record line becomes a job: `jmanl_job_str_to_btree` on its
      prelim and tail. */
  type LineParser = (seq<string>, string) -> Result<Record>

  /** The jmanl parser with the model's rendering of `f64`. */
  function JmanlParser(show: Show): LineParser
  {
    (prelim, job) => JmanlRecord(prelim, job, show)
  }

  /** The chunk count added to a parsed job; a job without an id is
      dropped. */
  function WithChunks(job: Record, chunks: map<string, string>): Option<Record>
  {
    if "job_id" !in job then None
    else Some(job["chunks" := if job["job_id"] in chunks then chunks[job["job_id"]] else "?"])
  }

  /** What one line contributes: a failed parse nothing, a panic ends the
      pass. */
  function LineJob(line: string, chunks: map<string, string>, parse: LineParser): Result<Option<Record>>
  {
    match parse(Prelim(line), Tail(line))
    case Err(Panic(message)) => Err(Panic(message))
    case Err(Error(_)) => Ok(None)
    case Ok(job) => Ok(WithChunks(job, chunks))
  }

  /** The `flat_map` over the record lines. */
  function LineJobs(lines: seq<string>, chunks: map<string, string>, parse: LineParser): Result<seq<Record>>
    decreases |lines|
  {
    if lines == [] then Ok([])
    else
      match LineJob(lines[0], chunks, parse)
      case Err(f) => Err(f)
      case Ok(first) =>
        match LineJobs(lines[1..], chunks, parse)
        case Err(f) => Err(f)
        case Ok(rest) => Ok(if first.Some? then [first.value] + rest else rest)
  }

  /** Lines are handled independently: the jobs of two batches of lines are
      the jobs of each, in order, and a panic in either ends the pass. */
  lemma {:induction false} LineJobsAppend(a: seq<string>, b: seq<string>,
                                          chunks: map<string, string>, parse: LineParser)
    ensures LineJobs(a + b, chunks, parse).Ok? <==>
      LineJobs(a, chunks, parse).Ok? && LineJobs(b, chunks, parse).Ok?
    ensures LineJobs(a + b, chunks, parse).Ok? ==>
      LineJobs(a + b, chunks, parse).value == LineJobs(a, chunks, parse).value + LineJobs(b, chunks, parse).value
    decreases |a|
  {
    if a == [] {
      assert a + b == b;
    } else {
      assert (a + b)[0] == a[0];
      assert (a + b)[1..] == a[1..] + b;
      LineJobsAppend(a[1..], b, chunks, parse);
    }
  }

  /** A line whose parse fails with an error contributes no job; a line that
      parses contributes its job with the chunk count of its id. */
  lemma LineJobsSingle(line: string, chunks: map<string, string>, parse: LineParser)
    ensures parse(Prelim(line), Tail(line)).Err? && parse(Prelim(line), Tail(line)).failure.Error? ==>
      LineJobs([line], chunks, parse) == Ok([])
    ensures parse(Prelim(line), Tail(line)).Ok? && "job_id" in parse(Prelim(line), Tail(line)).value ==>
      LineJobs([line], chunks, parse) == Ok([WithChunks(parse(Prelim(line), Tail(line)).value, chunks).value])
  {
    var lines := [line];
    assert lines[0] == line;
    assert LineJobs(lines[1..], chunks, parse) == Ok([]);
    var p := parse(Prelim(line), Tail(line));
    if p.Err? && p.failure.Error? {
      assert LineJob(line, chunks, parse) == Ok(None);
      assert LineJobs(lines, chunks, parse) == Ok([]);
    }
    if p.Ok? && "job_id" in p.value {
      assert LineJob(line, chunks, parse) == Ok(WithChunks(p.value, chunks));
      assert [WithChunks(p.value, chunks).value] + [] == [WithChunks(p.value, chunks).value];
      assert LineJobs(lines, chunks, parse) == Ok([WithChunks(p.value, chunks).value]);
    }
  }

  /** Every job of the pass carries its id and a chunk count: the one the
      chunk map holds for its id, or "?". */
  predicate Chunked(jobs: seq<Record>, chunks: map<string, string>)
  {
    forall k :: 0 <= k < |jobs| ==>
      "job_id" in jobs[k] && "chunks" in jobs[k]
      && jobs[k]["chunks"] == (if jobs[k]["job_id"] in chunks then chunks[jobs[k]["job_id"]] else "?")
  }

  lemma {:induction false} LineJobsChunked(lines: seq<string>, chunks: map<string, string>, parse: LineParser)
    requires LineJobs(lines, chunks, parse).Ok?
    ensures Chunked(LineJobs(lines, chunks, parse).value, chunks)
    decreases |lines|
  {
    if lines != [] {
      LineJobsChunked(lines[1..], chunks, parse);
      var first := LineJob(lines[0], chunks, parse).value;
      var head := if first.Some? then [first.value] else [];
      var rest := LineJobs(lines[1..], chunks, parse).value;
      var r := head + rest;
      assert LineJobs(lines, chunks, parse).value == r;
      forall k | 0 <= k < |r|
        ensures "job_id" in r[k] && "chunks" in r[k]
          && r[k]["chunks"] == (if r[k]["job_id"] in chunks then chunks[r[k]["job_id"]] else "?")
      {
        if k < |head| {
          assert r[k] == first.value;
        } else {
          assert r[k] == rest[k - |head|];
        }
      }
    }
  }

  /** A line whose parse panics ends the whole pass with that panic. */
  lemma {:induction false} LineJobsPanic(lines: seq<string>, chunks: map<string, string>,
                                         parse: LineParser, i: nat)
    requires i < |lines|
    requires parse(Prelim(lines[i]), Tail(lines[i])).Err?
    requires parse(Prelim(lines[i]), Tail(lines[i])).failure.Panic?
    ensures LineJobs(lines, chunks, parse).Err?
    ensures LineJobs(lines, chunks, parse).failure.Panic?
    decreases |lines|
  {
    if i > 0 {
      LineJobsPanic(lines[1..], chunks, parse, i - 1);
    }
  }

  /** Every job of the pass is the parse of one of the lines with the chunk
      count added. */
  lemma {:induction false} LineJobsFrom(lines: seq<string>, chunks: map<string, string>, parse: LineParser)
    requires LineJobs(lines, chunks, parse).Ok?
    ensures var jobs := LineJobs(lines, chunks, parse).value;
      forall k :: 0 <= k < |jobs| ==>
        exists i :: 0 <= i < |lines| && parse(Prelim(lines[i]), Tail(lines[i])).Ok?
          && WithChunks(parse(Prelim(lines[i]), Tail(lines[i])).value, chunks) == Some(jobs[k])
    decreases |lines|
  {
    if lines != [] {
      LineJobsFrom(lines[1..], chunks, parse);
      var first := LineJob(lines[0], chunks, parse).value;
      var rest := LineJobs(lines[1..], chunks, parse).value;
      var jobs := LineJobs(lines, chunks, parse).value;
      forall k | 0 <= k < |jobs|
        ensures exists i ::
          0 <= i < |lines| && parse(Prelim(lines[i]), Tail(lines[i])).Ok?
          && WithChunks(parse(Prelim(lines[i]), Tail(lines[i])).value, chunks) == Some(jobs[k])
      {
        if first.Some? && k == 0 {
          assert parse(Prelim(lines[0]), Tail(lines[0])).Ok?;
        } else {
          var k' := if first.Some? then k - 1 else k;
          assert jobs[k] == rest[k'];
          var i :| 0 <= i < |lines[1..]| && parse(Prelim(lines[1..][i]), Tail(lines[1..][i])).Ok?
            && WithChunks(parse(Prelim(lines[1..][i]), Tail(lines[1..][i])).value, chunks) == Some(rest[k']);
          assert lines[1..][i] == lines[i + 1];
        }
      }
    }
  }

  // ---------------------------------------------------------------------
  // The insert loop of both daemons

  /** The store after the jobs `jobs` were inserted in order, with the
      start time read from `startKey`, stopping at the first failure; an
      error is reported under `context(job)`. */
  function InsertAllStep(t: Tables, jobs: seq<Record>, context: Record -> string, startKey: string): Step
    decreases |jobs|
  {
    if jobs == [] then Step(t, Ok(()))
    else
      var s := InsertAllStep(t, jobs[..|jobs| - 1], context, startKey);
      if s.outcome.Err? then s
      else
        var job := jobs[|jobs| - 1];
        var u := InsertJobStep(s.after, job, startKey);
        Step(u.after, WithContext(u.outcome, context(job)))
  }

  /** Once a prefix of the jobs fails, the longer lists stop at the same
      place. */
  lemma {:induction false} InsertAllFailureSticks(t: Tables, jobs: seq<Record>, context: Record -> string,
                                                  startKey: string, i: nat)
    requires i <= |jobs|
    requires InsertAllStep(t, jobs[..i], context, startKey).outcome.Err?
    ensures InsertAllStep(t, jobs, context, startKey) == InsertAllStep(t, jobs[..i], context, startKey)
    decreases |jobs| - i
  {
    if i < |jobs| {
      assert jobs[..i + 1][..i] == jobs[..i];
      InsertAllFailureSticks(t, jobs, context, startKey, i + 1);
    } else {
      assert jobs[..i] == jobs;
    }
  }

  /** When every insert succeeds, every job's row is in the Jobs table, the
      Groups table is as it was, and one stat row per job was appended. */
  lemma {:induction false} InsertAllStored(t: Tables, jobs: seq<Record>, context: Record -> string, startKey: string)
    requires InsertAllStep(t, jobs, context, startKey).outcome.Ok?
    ensures var after := InsertAllStep(t, jobs, context, startKey).after;
      && after.groups == t.groups
      && |after.stats| == |t.stats| + |jobs|
      && t.jobs.Keys <= after.jobs.Keys
      && forall k :: 0 <= k < |jobs| ==>
           Insertable(jobs[k], startKey) && ParseI64(jobs[k]["job_id"]).value in after.jobs
    decreases |jobs|
  {
    if jobs != [] {
      var n := |jobs| - 1;
      var s := InsertAllStep(t, jobs[..n], context, startKey);
      InsertAllStored(t, jobs[..n], context, startKey);
      InsertJobSpec(s.after, jobs[n], startKey);
      forall k | 0 <= k < |jobs|
        ensures Insertable(jobs[k], startKey)
          && ParseI64(jobs[k]["job_id"]).value in InsertAllStep(t, jobs, context, startKey).after.jobs
      {
        if k < n {
          assert jobs[..n][k] == jobs[k];
        }
      }
    }
  }

  /** The inserts leave alone every row whose id no job names. */
  lemma {:induction false} InsertAllUntouched(t: Tables, jobs: seq<Record>, context: Record -> string,
                                               startKey: string, id: int)
    requires forall k :: 0 <= k < |jobs| && "job_id" in jobs[k] ==> ParseI64(jobs[k]["job_id"]) != Some(id)
    ensures var after := InsertAllStep(t, jobs, context, startKey).after;
      (id in after.jobs <==> id in t.jobs) && (id in t.jobs ==> after.jobs[id] == t.jobs[id])
    decreases |jobs|
  {
    if jobs != [] {
      var n := |jobs| - 1;
      assert forall k :: 0 <= k < n ==> jobs[..n][k] == jobs[k];
      InsertAllUntouched(t, jobs[..n], context, startKey, id);
      var s := InsertAllStep(t, jobs[..n], context, startKey);
      if s.outcome.Ok? {
        InsertJobOnlyItsRow(s.after, jobs[n], startKey, id);
      }
    }
  }

  /** Once the jobs before it are stored, a job without the start key ends
      the loop in a panic, after its Users insert and before its Jobs row
      or its stat: the Jobs table and the stats stay as the earlier jobs
      left them. */
  lemma InsertAllPanicsAt(t: Tables, jobs: seq<Record>, context: Record -> string, startKey: string, i: nat)
    requires i < |jobs| && startKey !in jobs[i]
    requires InsertAllStep(t, jobs[..i], context, startKey).outcome.Ok?
    ensures var s := InsertAllStep(t, jobs, context, startKey);
      var before := InsertAllStep(t, jobs[..i], context, startKey).after;
      s.outcome == Err(Panic(NO_ENTRY)) && s.after.jobs == before.jobs && s.after.stats == before.stats
  {
    assert jobs[..i + 1][..i] == jobs[..i];
    InsertJobMissingStart(InsertAllStep(t, jobs[..i], context, startKey).after, jobs[i], startKey);
    InsertAllFailureSticks(t, jobs, context, startKey, i + 1);
  }

  /** The insert loop: `insert_job`, reading the start time from
      `start_time`, on each job in turn, stopping at the first failure. */
  method InsertJobs(db: Db, jobs: seq<Record>, context: Record -> string) returns (r: Result<()>)
    modifies db
    ensures Step(db.Contents(), r) == InsertAllStep(old(db.Contents()), jobs, context, START_TIME)
  {
    ghost var t := db.Contents();
    for i := 0 to |jobs|
      invariant InsertAllStep(t, jobs[..i], context, START_TIME) == Step(db.Contents(), Ok(()))
    {
      assert jobs[..i + 1][..i] == jobs[..i];
      var job := jobs[i];
      var inserted := db.InsertJob(job);
      if inserted.Err? {
        InsertAllFailureSticks(t, jobs, context, START_TIME, i + 1);
        return WithContext(inserted, context(job));
      }
    }
    assert jobs[..|jobs|] == jobs;
    r := Ok(());
  }

  /** The context `grab_old_jobs_thread` puts on a failed insert, with the
      job's `Debug` rendering, which the model does not spell out. */
  function OldJobContext(describe: Record -> string): Record -> string
  {
    job => "Couldn't insert job " + describe(job) + "!"
  }

  /** One pass of `grab_old_jobs_thread` on the output of `jmanl` (or the
      error of the remote command) and the regex captures of that output,
      with `insert_job` reading the start time from `startKey`. */
  function OldJobsStep(t: Tables, raw: Result<string>, cs: seq<Capture>, parse: LineParser,
                       describe: Record -> string, startKey: string): Step
  {
    if raw.Err? then Step(t, WithContext(raw, "Couldn't get output from `jmanl` command!").PropagateFailure())
    else
      match RecordLines(raw.value)
      case Err(f) => Step(t, Err(f))
      case Ok(lines) =>
        match LineJobs(lines, ChunksFrom(cs), parse)
        case Err(f) => Step(t, Err(f))
        case Ok(jobs) => InsertAllStep(t, jobs, OldJobContext(describe), startKey)
  }

  /** `grab_old_jobs_thread` with `insert_job` reading `start_time`. */
  method GrabOldJobs(db: Db, raw: Result<string>, cs: seq<Capture>, parse: LineParser,
                     describe: Record -> string) returns (r: Result<()>)
    modifies db
    ensures Step(db.Contents(), r) == OldJobsStep(old(db.Contents()), raw, cs, parse, describe, START_TIME)
  {
    if raw.Err? {
      return WithContext(raw, "Couldn't get output from `jmanl` command!").PropagateFailure();
    }
    var chunks := BuildChunks(cs);
    var lines := RecordLines(raw.value);
    if lines.Err? {
      return lines.PropagateFailure();
    }
    var jobs := LineJobs(lines.value, chunks, parse);
    if jobs.Err? {
      return jobs.PropagateFailure();
    }
    r := InsertJobs(db, jobs.value, OldJobContext(describe));
  }

  /** As written, `insert_job` reads the start time under `stime` in the
      jmanl pass too: once the jobs before it are stored, the first job
      without `stime` ends the pass in a panic, after that job's Users
      insert and before its Jobs row or its stat. */
  lemma OldJobsAsWrittenPanics(t: Tables, raw: Result<string>, cs: seq<Capture>, show: Show,
                               describe: Record -> string, i: nat)
    requires raw.Ok? && RecordLines(raw.value).Ok?
    requires var jobs := LineJobs(RecordLines(raw.value).value, ChunksFrom(cs), JmanlParser(show));
      && jobs.Ok? && i < |jobs.value| && STIME_AS_WRITTEN !in jobs.value[i]
      && InsertAllStep(t, jobs.value[..i], OldJobContext(describe), STIME_AS_WRITTEN).outcome.Ok?
    ensures var jobs := LineJobs(RecordLines(raw.value).value, ChunksFrom(cs), JmanlParser(show)).value;
      var before := InsertAllStep(t, jobs[..i], OldJobContext(describe), STIME_AS_WRITTEN).after;
      var s := OldJobsStep(t, raw, cs, JmanlParser(show), describe, STIME_AS_WRITTEN);
      s.outcome == Err(Panic(NO_ENTRY)) && s.after.jobs == before.jobs && s.after.stats == before.stats
  {
    var jobs := LineJobs(RecordLines(raw.value).value, ChunksFrom(cs), JmanlParser(show)).value;
    InsertAllPanicsAt(t, jobs, OldJobContext(describe), STIME_AS_WRITTEN, i);
  }

  lemma StimeNotWritten()
    ensures STIME_AS_WRITTEN != "job_state" && STIME_AS_WRITTEN != "job_id" && STIME_AS_WRITTEN != "chunks"
    ensures STIME_AS_WRITTEN !in JMANL_KEYS
  {
  }

  /** As written, the jmanl parser stores `start=` as `start_time` and
      writes `stime` only for a literal `stime=` field: when no line has
      one, the pass panics on the first job it parses, before any Jobs row
      or stat is written. */
  lemma OldJobsWithoutStimePanic(t: Tables, raw: Result<string>, cs: seq<Capture>, show: Show,
                                 describe: Record -> string)
    requires raw.Ok? && RecordLines(raw.value).Ok?
    requires var lines := RecordLines(raw.value).value;
      forall i :: 0 <= i < |lines| ==> !TailNames(Tail(lines[i]), STIME_AS_WRITTEN)
    requires var jobs := LineJobs(RecordLines(raw.value).value, ChunksFrom(cs), JmanlParser(show));
      jobs.Ok? && jobs.value != []
    ensures var s := OldJobsStep(t, raw, cs, JmanlParser(show), describe, STIME_AS_WRITTEN);
      s.outcome == Err(Panic(NO_ENTRY)) && s.after.jobs == t.jobs && s.after.stats == t.stats
  {
    var lines := RecordLines(raw.value).value;
    var chunks := ChunksFrom(cs);
    var parse := JmanlParser(show);
    var jobs := LineJobs(lines, chunks, parse).value;
    LineJobsFrom(lines, chunks, parse);
    assert exists i ::
      0 <= i < |lines| && parse(Prelim(lines[i]), Tail(lines[i])).Ok?
      && WithChunks(parse(Prelim(lines[i]), Tail(lines[i])).value, chunks) == Some(jobs[0]);
    var i :| 0 <= i < |lines| && parse(Prelim(lines[i]), Tail(lines[i])).Ok?
      && WithChunks(parse(Prelim(lines[i]), Tail(lines[i])).value, chunks) == Some(jobs[0]);
    StimeNotWritten();
    JmanlRecordLacks(Prelim(lines[i]), Tail(lines[i]), show, STIME_AS_WRITTEN);
    assert jobs[..0] == [];
    OldJobsAsWrittenPanics(t, raw, cs, show, describe, 0);
  }

  // ---------------------------------------------------------------------
  // grab_jobs_helper (jobstat)

  const BLOCK_MARKER: string := "--------------------\r\n"

  /** The job blocks of a `jobstat` report: the text after the first
      marker (up to a second one) split on blank CRLF lines. */
  function JobstatBlocks(output: string): Result<seq<string>>
  {
    match SecondField(output, BLOCK_MARKER)
    case None => Err(Error("Invalid input! Input:\n" + output))
    case Some(section) => Ok(Split(section, "\r\n\r\n"))
  }

  /** The report is refused, with its text in the message, exactly when
      the marker is missing. Otherwise the blocks joined again by blank
      CRLF lines are the text between the first marker and the next one
      (or the end), and no block holds a blank CRLF line. */
  lemma JobstatBlocksSpec(output: string)
    ensures JobstatBlocks(output).Err? <==> !Contains(output, BLOCK_MARKER)
    ensures JobstatBlocks(output).Err? ==>
      JobstatBlocks(output).failure == Error("Invalid input! Input:\n" + output)
    ensures JobstatBlocks(output).Ok? ==>
      Join(JobstatBlocks(output).value, "\r\n\r\n") == SectionAfter(output, BLOCK_MARKER)
    ensures JobstatBlocks(output).Ok? ==>
      forall k :: 0 <= k < |JobstatBlocks(output).value| ==>
        !Contains(JobstatBlocks(output).value[k], "\r\n\r\n")
  {
    SplitCount(output, BLOCK_MARKER);
    if Contains(output, BLOCK_MARKER) {
      SecondPiece(output, BLOCK_MARKER);
      var section := Split(output, BLOCK_MARKER)[1];
      SplitJoin(section, "\r\n\r\n");
      SplitPiecesFree(section, "\r\n\r\n");
    }
  }

  /** How a block becomes a job: `jobstat_job_str_to_btree`. */
  type BlockParser = string -> Result<Record>

  function JobstatParser(parseDate: DateParser, show: Show): BlockParser
  {
    job => JobstatRecord(job, parseDate, show)
  }

  /** What one block contributes: a `nodes: ` block or a failed parse
      nothing, a panic ends the pass. */
  function BlockJob(block: string, parse: BlockParser): Result<Option<Record>>
  {
    if StartsWith(block, "nodes: ") then Ok(None)
    else
      match parse(block)
      case Err(Panic(message)) => Err(Panic(message))
      case Err(Error(_)) => Ok(None)
      case Ok(job) => Ok(Some(job))
  }

  /** The `flat_map` over the blocks: `nodes: ` blocks and blocks that fail
      to parse are left out; a panic ends the pass. */
  function BlockJobs(blocks: seq<string>, parse: BlockParser): Result<seq<Record>>
    decreases |blocks|
  {
    if blocks == [] then Ok([])
    else
      match BlockJob(blocks[0], parse)
      case Err(f) => Err(f)
      case Ok(first) =>
        match BlockJobs(blocks[1..], parse)
        case Err(f) => Err(f)
        case Ok(rest) => Ok(if first.Some? then [first.value] + rest else rest)
  }

  /** The jobs of the pass are exactly the parses of the blocks that are not
      `nodes: ` blocks and parse. */
  lemma {:induction false} BlockJobsSpec(blocks: seq<string>, parse: BlockParser)
    requires BlockJobs(blocks, parse).Ok?
    ensures var jobs := BlockJobs(blocks, parse).value;
      forall k :: 0 <= k < |jobs| ==>
        exists i :: 0 <= i < |blocks| && !StartsWith(blocks[i], "nodes: ") && parse(blocks[i]) == Ok(jobs[k])
    ensures forall i :: 0 <= i < |blocks| && !StartsWith(blocks[i], "nodes: ") && parse(blocks[i]).Ok? ==>
      parse(blocks[i]).value in BlockJobs(blocks, parse).value
    decreases |blocks|
  {
    if blocks != [] {
      var rest := BlockJobs(blocks[1..], parse).value;
      BlockJobsSpec(blocks[1..], parse);
      var jobs := BlockJobs(blocks, parse).value;
      forall k | 0 <= k < |jobs|
        ensures exists i :: 0 <= i < |blocks| && !StartsWith(blocks[i], "nodes: ") && parse(blocks[i]) == Ok(jobs[k])
      {
        if jobs == rest || k >= |jobs| - |rest| {
          var k' := k - (|jobs| - |rest|);
          assert jobs[k] == rest[k'];
          var i :| 0 <= i < |blocks[1..]| && !StartsWith(blocks[1..][i], "nodes: ") && parse(blocks[1..][i]) == Ok(rest[k']);
          assert blocks[1..][i] == blocks[i + 1];
        } else {
          assert k == 0 && parse(blocks[0]) == Ok(jobs[k]);
        }
      }
      forall i | 0 <= i < |blocks| && !StartsWith(blocks[i], "nodes: ") && parse(blocks[i]).Ok?
        ensures parse(blocks[i]).value in jobs
      {
        if i > 0 {
          assert blocks[1..][i - 1] == blocks[i];
        }
      }
    }
  }

  /** The context of a failed insert in `grab_jobs_helper`: the literal text,
      without the job. */
  function JobstatContext(): Record -> string
  {
    _ => "Couldn't insert job {job:?}!"
  }

  /** The jobs `grab_jobs_helper` collects from the output of `jobstat` (or
      the error of the remote command). */
  function JobstatJobs(output: Result<string>, parse: BlockParser): Result<seq<Record>>
  {
    if output.Err? then WithContext(output, "Failed to run remote command!").PropagateFailure()
    else
      match JobstatBlocks(output.value)
      case Err(f) => Err(f)
      case Ok(blocks) => BlockJobs(blocks, parse)
  }

  /** One pass of `grab_jobs_helper`: every collected job is inserted, with
      the start time read from `startKey`, then the running rows that no
      collected job names are marked. */
  function JobsStep(t: Tables, output: Result<string>, parse: BlockParser, startKey: string): Step
  {
    match JobstatJobs(output, parse)
    case Err(f) => Step(t, Err(f))
    case Ok(jobs) =>
      var inserted := InsertAllStep(t, jobs, JobstatContext(), startKey);
      if inserted.outcome.Err? then inserted
      else
        var marked := MarkCompletedStep(inserted.after, jobs);
        Step(marked.after, WithContext(marked.outcome, "Couldn't mark complete jobs!"))
  }

  /** A running job that the pass no longer reports is stopped: after a
      successful pass its row is in state 'S'. */
  lemma GrabJobsStopsMissing(t: Tables, output: Result<string>, parse: BlockParser, startKey: string, id: int)
    requires JobsStep(t, output, parse, startKey).outcome.Ok?
    requires id in t.jobs && t.jobs[id].state == "R"
    requires var jobs := JobstatJobs(output, parse).value;
      forall k :: 0 <= k < |jobs| && "job_id" in jobs[k] ==> ParseI64(jobs[k]["job_id"]) != Some(id)
    ensures id in JobsStep(t, output, parse, startKey).after.jobs
    ensures JobsStep(t, output, parse, startKey).after.jobs[id].state == "S"
  {
    var jobs := JobstatJobs(output, parse).value;
    var inserted := InsertAllStep(t, jobs, JobstatContext(), startKey);
    InsertAllUntouched(t, jobs, JobstatContext(), startKey, id);
    var marked := MarkCompletedStep(inserted.after, jobs);
    assert ActiveIds(jobs).Ok?;
    forall j | 0 <= j < |jobs| && ParseI32(jobs[j]["job_id"]).Some?
      ensures ParseI32(jobs[j]["job_id"]).value != id
    {
      ParseI32Widens(jobs[j]["job_id"]);
    }
    MarkCompletedSpec(inserted.after, jobs);
  }

  /** A job the pass reports keeps the row the pass wrote for it: after a
      successful pass every reported job is stored, and one whose id fits
      an `i32` is not marked stopped. */
  lemma GrabJobsKeepsReported(t: Tables, output: Result<string>, parse: BlockParser, startKey: string, k: nat)
    requires JobsStep(t, output, parse, startKey).outcome.Ok?
    requires k < |JobstatJobs(output, parse).value|
    ensures var job := JobstatJobs(output, parse).value[k];
      var inserted := InsertAllStep(t, JobstatJobs(output, parse).value, JobstatContext(), startKey).after;
      && Insertable(job, startKey)
      && ParseI64(job["job_id"]).value in JobsStep(t, output, parse, startKey).after.jobs
      && (ParseI32(job["job_id"]).Some? ==>
            JobsStep(t, output, parse, startKey).after.jobs[ParseI64(job["job_id"]).value]
            == inserted.jobs[ParseI64(job["job_id"]).value])
  {
    var jobs := JobstatJobs(output, parse).value;
    InsertAllStored(t, jobs, JobstatContext(), startKey);
    var inserted := InsertAllStep(t, jobs, JobstatContext(), startKey);
    MarkCompletedSpec(inserted.after, jobs);
    if ParseI32(jobs[k]["job_id"]).Some? {
      ParseI32Widens(jobs[k]["job_id"]);
      ActiveNeverMarked(inserted.after, jobs, k);
    }
  }

  /** A parsed jobstat record never has `stime`: the parser stores the
      start time as `start_time`. */
  lemma JobstatRecordNoStime(block: string, parseDate: DateParser, show: Show)
    requires JobstatRecord(block, parseDate, show).Ok?
    ensures STIME_AS_WRITTEN !in JobstatRecord(block, parseDate, show).value
  {
    var lines := Lines(block);
    JobstatFieldsShape(lines, parseDate);
    var entry := JobstatFields(lines, parseDate).value;
    JobstatFinishShape(entry, show);
  }

  /** As written, `insert_job` reads the start time under `stime`, a key
      the jobstat parser never leaves (it stores `start_time`): every job
      the jobstat pass collects makes the insert panic before its Jobs row
      or its stat is written. */
  lemma JobstatInsertAsWrittenPanics(t: Tables, block: string, parseDate: DateParser, show: Show)
    requires JobstatRecord(block, parseDate, show).Ok?
    ensures var s := InsertJobStep(t, JobstatRecord(block, parseDate, show).value, STIME_AS_WRITTEN);
      s.outcome == Err(Panic(NO_ENTRY)) && s.after.jobs == t.jobs && s.after.stats == t.stats
  {
    JobstatRecordNoStime(block, parseDate, show);
    InsertJobMissingStart(t, JobstatRecord(block, parseDate, show).value, STIME_AS_WRITTEN);
  }

  /** As written, a jobstat pass that collects any job panics at its first
      insert: no Jobs row and no stat is written, and no job is marked. */
  lemma JobstatPassAsWrittenPanics(t: Tables, output: Result<string>, parseDate: DateParser, show: Show)
    requires JobstatJobs(output, JobstatParser(parseDate, show)).Ok?
    requires JobstatJobs(output, JobstatParser(parseDate, show)).value != []
    ensures var s := JobsStep(t, output, JobstatParser(parseDate, show), STIME_AS_WRITTEN);
      s.outcome == Err(Panic(NO_ENTRY)) && s.after.jobs == t.jobs && s.after.stats == t.stats
  {
    var parse := JobstatParser(parseDate, show);
    var blocks := JobstatBlocks(output.value).value;
    var jobs := BlockJobs(blocks, parse).value;
    BlockJobsSpec(blocks, parse);
    assert exists i :: 0 <= i < |blocks| && !StartsWith(blocks[i], "nodes: ") && parse(blocks[i]) == Ok(jobs[0]);
    var i :| 0 <= i < |blocks| && !StartsWith(blocks[i], "nodes: ") && parse(blocks[i]) == Ok(jobs[0]);
    JobstatRecordNoStime(blocks[i], parseDate, show);
    assert jobs[..0] == [];
    InsertAllPanicsAt(t, jobs, JobstatContext(), STIME_AS_WRITTEN, 0);
  }

  /** `grab_jobs_helper` with `insert_job` reading `start_time`. */
  method GrabJobs(db: Db, output: Result<string>, parse: BlockParser) returns (r: Result<()>)
    modifies db
    ensures Step(db.Contents(), r) == JobsStep(old(db.Contents()), output, parse, START_TIME)
  {
    if output.Err? {
      return WithContext(output, "Failed to run remote command!").PropagateFailure();
    }
    var blocks := JobstatBlocks(output.value);
    if blocks.Err? {
      return blocks.PropagateFailure();
    }
    var jobs := BlockJobs(blocks.value, parse);
    assert jobs == JobstatJobs(output, parse);
    if jobs.Err? {
      return jobs.PropagateFailure();
    }
    var inserted := InsertJobs(db, jobs.value, JobstatContext());
    if inserted.Err? {
      return inserted;
    }
    var marked := db.MarkCompletedJobs(jobs.value);
    r := WithContext(marked, "Couldn't mark complete jobs!");
  }
}
