/** The two scheduler-output parsers of `src/parsing/jobs.rs` and their shared
    derivations: memory strings to GB, `HH:MM:SS` walltimes to seconds and
    efficiencies. A job record is a string-keyed, string-valued map. */
module JobParsing {
  import opened Wrappers
  import opened Text
  import opened Numbers

  type Record = map<string, string>

  /** `f64::to_string`, which the model does not spell out. */
  type Show = F64 -> string

  type u32 = x: int | 0 <= x <= 0xFFFF_FFFF

  /** `date_to_unix_timestamp`, which the model does not spell out: the
      Unix time of a scheduler date, or `None` when it does not parse. */
  type DateParser = string -> Option<u32>

  /** Kilobytes to gigabytes, as the source writes the factor. */
  const KB_TO_GB: real := 0.0000009536743

  /** `i32::MAX.to_string()`, the start time of a job still in the queue. */
  const NOT_STARTED: string := "2147483647"

  /** `after` agrees with `before` on every key outside `touched`. */
  predicate Keeps(before: Record, after: Record, touched: set<string>)
  {
    (forall k :: k in before && k !in touched ==> k in after && after[k] == before[k])
    && (forall k :: k in after && k !in touched ==> k in before)
  }

  /** The keys the efficiency computations of both parsers write. */
  const FIGURES: set<string> :=
    {"resources_used.mem", "Resource_List.mem", "mem_efficiency", "walltime_efficiency", "cpu_efficiency"}

  function GetOr(m: Record, key: string, default: string): string
  {
    if key in m then m[key] else default
  }

  // ---------------------------------------------------------------------
  // Shared derivations

  /** `convert_mem_to_f64`: a plain number is taken as GB; otherwise the text
      before the first "kb" is read as kilobytes, or else the text before the
      first "gb" as gigabytes; anything else is an error. */
  function ConvertMem(st: string): (r: Result<F64>)
  {
    SplitHead(st, "kb");
    SplitHead(st, "gb");
    match ParseF64(st)
    case Some(x) => Ok(x)
    case None =>
      if Contains(st, "kb") then
        var kb :- Need(ParseF64(Split(st, "kb")[0]), "Couldn't convert memory string to f64!");
        Ok(Mul(kb, Finite(KB_TO_GB)))
      else if Contains(st, "gb") then
        Need(ParseF64(Split(st, "gb")[0]), "Couldn't convert memory string to f64!")
      else
        Err(Error("Recieved unusual memory input!"))
  }

  /** The cases of `convert_mem_to_f64`: a number parses as itself; else
      the text before the first "kb" is kilobytes, else the text before the
      first "gb" is gigabytes, else the input is rejected; it never panics. */
  lemma ConvertMemCases(st: string)
    ensures var r := ConvertMem(st);
      (r.Err? ==> r.failure.Error?)
      && (ParseF64(st).Some? ==> r == Ok(ParseF64(st).value))
      && (ParseF64(st).None? && Find(st, "kb").Some? ==>
            var prefix := st[..Find(st, "kb").value];
            r == (if ParseF64(prefix).Some? then Ok(Mul(ParseF64(prefix).value, Finite(KB_TO_GB)))
                  else Err(Error("Couldn't convert memory string to f64!"))))
      && (ParseF64(st).None? && Find(st, "kb").None? && Find(st, "gb").Some? ==>
            var prefix := st[..Find(st, "gb").value];
            r == (if ParseF64(prefix).Some? then Ok(ParseF64(prefix).value)
                  else Err(Error("Couldn't convert memory string to f64!"))))
      && (ParseF64(st).None? && !Contains(st, "kb") && !Contains(st, "gb") ==>
            r == Err(Error("Recieved unusual memory input!")))
  {
    SplitHead(st, "kb");
    SplitHead(st, "gb");
  }

  /** `parse_time_to_seconds`, the helper inside `walltime_to_percentage`:
      exactly three `:`-separated `u64` fields. The sum is `u64` arithmetic
      as a release build runs it: it wraps around modulo 2^64. */
  function ParseTimeToSeconds(time: string): (r: Result<nat>)
  {
    var parts := Split(time, ":");
    if |parts| != 3 then Err(Error("Invalid time format: " + time))
    else
      var hours :- Need(ParseU64(parts[0]), "Invalid hours in: " + time);
      var minutes :- Need(ParseU64(parts[1]), "Invalid minutes in: " + time);
      var seconds :- Need(ParseU64(parts[2]), "Invalid seconds in: " + time);
      Ok((hours * 3600 + minutes * 60 + seconds) % U64_MODULUS)
  }

  /** A walltime parses exactly when it has three `:`-separated `u64`
      fields, and then counts hours, minutes and seconds as a `u64`: the
      count modulo 2^64. */
  lemma ParseTimeToSecondsSpec(time: string)
    ensures var r := ParseTimeToSeconds(time);
      var p := Split(time, ":");
      (r.Err? ==> r.failure.Error?)
      && (r.Ok? <==> |p| == 3 && ParseU64(p[0]).Some? && ParseU64(p[1]).Some? && ParseU64(p[2]).Some?)
      && (r.Ok? ==> r.value <= U64_MAX)
      && (r.Ok? ==> r.value == (ParseU64(p[0]).value * 3600 + ParseU64(p[1]).value * 60 + ParseU64(p[2]).value) % U64_MODULUS)
  {
  }

  /** `walltime_to_percentage`: used time as a percentage of reserved time;
      the reserved time is read first, and a zero reservation is an error. */
  function WalltimeToPercentage(reserved: string, used: string): (r: Result<real>)
  {
    var reservedSeconds :- ParseTimeToSeconds(reserved);
    var usedSeconds :- ParseTimeToSeconds(used);
    if reservedSeconds == 0 then Err(Error("Reserved walltime cannot be zero."))
    else Ok((usedSeconds as real / reservedSeconds as real) * 100.0)
  }

  /** The reserved walltime is checked first, then the used one, then that
      the reservation is not zero; only errors, never panics. */
  lemma WalltimeToPercentageSpec(reserved: string, used: string)
    ensures var r := WalltimeToPercentage(reserved, used);
      var total := ParseTimeToSeconds(reserved);
      var spent := ParseTimeToSeconds(used);
      (total.Err? ==> r == total.PropagateFailure())
      && (total.Ok? && spent.Err? ==> r == spent.PropagateFailure())
      && (total.Ok? && spent.Ok? && total.value == 0 ==> r == Err(Error("Reserved walltime cannot be zero.")))
      && (r.Ok? <==> total.Ok? && spent.Ok? && total.value != 0)
      && (r.Err? ==> r.failure.Error?)
  {
    ParseTimeToSecondsSpec(reserved);
    ParseTimeToSecondsSpec(used);
  }

  /** The walltime efficiency is the used share of the reservation in
      percent: never negative, and at most 100 while the job stays within
      its reservation. */
  lemma WalltimeEfficiencyBounds(reserved: string, used: string)
    requires WalltimeToPercentage(reserved, used).Ok?
    ensures var r := WalltimeToPercentage(reserved, used).value;
      var total := ParseTimeToSeconds(reserved).value;
      var spent := ParseTimeToSeconds(used).value;
      r >= 0.0 && (spent <= total ==> r <= 100.0) && (spent == total ==> r == 100.0)
  {
    WalltimeToPercentageSpec(reserved, used);
    var total := ParseTimeToSeconds(reserved).value;
    var spent := ParseTimeToSeconds(used).value;
    PercentBounds(spent, total);
  }

  lemma PercentBounds(spent: nat, total: nat)
    requires total > 0
    ensures var r := (spent as real / total as real) * 100.0;
      r >= 0.0 && (spent <= total ==> r <= 100.0) && (spent == total ==> r == 100.0)
  {
    var q := spent as real / total as real;
    assert q * total as real == spent as real;
    if spent <= total {
      assert q <= 1.0;
    }
  }

  /** The used-memory field, converted to whole GB and written back. */
  function NormalizeUsedMem(entry: Record, show: Show): (r: Result<Record>)
  {
    if "resources_used.mem" in entry then
      var used :- WithContext(ConvertMem(entry["resources_used.mem"]), "Couldn't unpack memory field!");
      Ok(entry["resources_used.mem" := show(Floor(used))])
    else Ok(entry)
  }

  /** The reserved-memory field, cut before its first "gb". */
  function TrimReservedMem(entry: Record): (r: Record)
  {
    if "Resource_List.mem" in entry
    then entry["Resource_List.mem" := Split(entry["Resource_List.mem"], "gb")[0]]
    else entry
  }

  /** Memory efficiency: used GB over reserved GB, times 100. */
  function MemEfficiency(used: F64, reserved: F64): F64
  {
    Mul(Div(used, reserved), Finite(100.0))
  }

  /** The memory figures both parsers derive: the used memory in whole GB,
      the reserved memory cut at "gb", and `mem_efficiency`. `usedDefault`
      stands in for a missing used-memory field (`None`: that is an error). */
  function MemoryStage(entry: Record, show: Show, usedDefault: Option<string>): (r: Result<Record>)
  {
    var e1 :- NormalizeUsedMem(entry, show);
    var e2 := TrimReservedMem(e1);
    var usedText :- if "resources_used.mem" in e2 then Ok(e2["resources_used.mem"])
                    else Need(usedDefault, "Missing field 'resources_used.mem'");
    var used :- WithContext(ConvertMem(usedText), "Couldn't unpack memory field!");
    var reservedText :- Need(Get(e2, "Resource_List.mem"), "Missing field 'Resource_used.mem'");
    var reserved :- WithContext(ConvertMem(reservedText), "Couldn't unpack memory field!");
    Ok(e2["mem_efficiency" := show(MemEfficiency(used, reserved))])
  }

  /** `MemoryStage`, rewriting the entry field by field. */
  method UpdateMemory(entry: Record, show: Show, usedDefault: Option<string>) returns (r: Result<Record>)
    ensures r == MemoryStage(entry, show, usedDefault)
  {
    var e := entry;
    if "resources_used.mem" in e {
      var used := ConvertMem(e["resources_used.mem"]);
      if used.Err? {
        return WithContext(used, "Couldn't unpack memory field!").PropagateFailure();
      }
      e := e["resources_used.mem" := show(Floor(used.value))];
    }
    if "Resource_List.mem" in e {
      e := e["Resource_List.mem" := Split(e["Resource_List.mem"], "gb")[0]];
    }
    assert e == TrimReservedMem(NormalizeUsedMem(entry, show).value);
    var usedText: string;
    if "resources_used.mem" in e {
      usedText := e["resources_used.mem"];
    } else if usedDefault.Some? {
      usedText := usedDefault.value;
    } else {
      return Err(Error("Missing field 'resources_used.mem'"));
    }
    var used := WithContext(ConvertMem(usedText), "Couldn't unpack memory field!");
    if used.Err? {
      return used.PropagateFailure();
    }
    if "Resource_List.mem" !in e {
      return Err(Error("Missing field 'Resource_used.mem'"));
    }
    var reserved := WithContext(ConvertMem(e["Resource_List.mem"]), "Couldn't unpack memory field!");
    if reserved.Err? {
      return reserved.PropagateFailure();
    }
    r := Ok(e["mem_efficiency" := show(MemEfficiency(used.value, reserved.value))]);
  }

  /** CPU efficiency, stored as `cpu_efficiency`: used CPU percent over 100
      times the reserved CPU count, times 100. */
  function AddCpuEfficiency(entry: Record, show: Show): (r: Result<Record>)
  {
    var usedText :- Need(Get(entry, "resources_used.cpupercent"), "Missing field 'resources_used.cpupercent'");
    var used :- Need(ParseF64(usedText), "Couldn't parse CPU time!");
    var cpusText :- Need(Get(entry, "Resource_List.ncpus"), "Missing field 'Resource_List.ncpus'");
    var cpus :- Need(ParseF64(cpusText), "Couldn't parse CPU time!");
    Ok(entry["cpu_efficiency" := show(Mul(Div(used, Mul(cpus, Finite(100.0))), Finite(100.0)))])
  }

  // ---------------------------------------------------------------------
  // jmanl (historical jobs): one job per line

  /** The record key a tail field is stored under. */
  function JmanlKey(name: string): string
  {
    if name == "start" then "start_time"
    else if name == "user" then "Job_Owner"
    else if name == "jobname" then "Job_Name"
    else name
  }

  /** The text of a tail field before its first `=`. */
  function FieldName(field: string): string
  {
    Split(field, "=")[0]
  }

  /** The text of a tail field after its first `=`, later `=` included. */
  function FieldValue(field: string): string
  {
    Join(Split(field, "=")[1..], "=")
  }

  /** `entry` after each of `fields`, in order, is stored under `key` of it
      with `value` of it as its value. */
  function UpdateAll(entry: Record, fields: seq<string>, key: string -> string, value: string -> string): Record
    decreases |fields|
  {
    if fields == [] then entry
    else UpdateAll(entry, fields[..|fields| - 1], key, value)[key(fields[|fields| - 1]) := value(fields[|fields| - 1])]
  }

  /** `entry` after the tail tokens `fields` are inserted in order. */
  function InsertFields(entry: Record, fields: seq<string>): Record
  {
    UpdateAll(entry, fields, TokenKey, TokenValue)
  }

  /** An update at one key leaves every other key as it was. */
  lemma UpdateElsewhere(m: Record, k: string, v: string, other: string)
    requires k != other
    ensures other in m[k := v] <==> other in m
    ensures other in m ==> m[k := v][other] == m[other]
  {
  }

  lemma InsertFieldsStep(start: Record, fields: seq<string>, i: nat)
    requires i < |fields|
    ensures var field := TrimAsciiStart(fields[i]);
      InsertFields(start, fields[..i + 1])
      == InsertFields(start, fields[..i])[JmanlKey(FieldName(field)) := FieldValue(field)]
  {
    assert fields[..i + 1][..i] == fields[..i];
  }

  /** The entries taken from the three positional fields of a line. */
  function JmanlPrelim(prelim: seq<string>): Record
    requires |prelim| >= 3
  {
    map["job_state" := prelim[1], "job_id" := Split(prelim[2], ".")[0]]
  }

  /** The node names of an `exec_host` value `node/cpu+node/cpu+...`, in
      order, joined with `,`. */
  function NodeList(execHost: string): string
  {
    var chunks := Split(execHost, "+");
    Join(seq(|chunks|, i requires 0 <= i < |chunks| => Split(chunks[i], "/")[0]), ",")
  }

  /** The node list, when the record has an `exec_host`. */
  function NodesStage(entry: Record): (r: Record)
  {
    if "exec_host" in entry then entry["Nodes" := NodeList(entry["exec_host"])] else entry
  }

  /** `end_time`: the `end` field read as an `i64` and written back. */
  function EndTimeStage(entry: Record): (r: Result<Record>)
  {
    var endText :- Need(Get(entry, "end"), "Missing field 'end'");
    var end :- Need(ParseI64(endText), "Couldn't parse UNIX timestamp!");
    Ok(entry["end_time" := IntToString(end)])
  }

  /** `walltime_efficiency` of a jmanl record; both walltimes are read by
      indexing the map, which panics when a key is missing. */
  function JmanlWalltimeStage(entry: Record, show: Show): (r: Result<Record>)
  {
    if "Resource_List.walltime" !in entry || "resources_used.walltime" !in entry
    then Err(Panic("no entry found for key"))
    else
      var walltime :- WithContext(
        WalltimeToPercentage(entry["Resource_List.walltime"], entry["resources_used.walltime"]),
        "Couldn't calculate walltime efficiency!");
      Ok(entry["walltime_efficiency" := show(Finite(walltime))])
  }

  /** Everything `jmanl_job_str_to_btree` does after the tail is read. */
  function JmanlFinish(entry: Record, show: Show): Result<Record>
  {
    var e1 :- MemoryStage(entry, show, None);
    var e2 := NodesStage(e1);
    var e3 :- EndTimeStage(e2);
    var e4 :- JmanlWalltimeStage(e3, show);
    AddCpuEfficiency(e4, show)
  }

  /** The record `jmanl_job_str_to_btree` builds from the positional fields
      and the whitespace-separated `key=value` tail of one line. */
  function JmanlRecord(prelim: seq<string>, job: string, show: Show): Result<Record>
  {
    if |prelim| < 3 then Err(Error("Invalid field!"))
    else JmanlFinish(InsertFields(JmanlPrelim(prelim), Tokens(job, IsAsciiSpace)), show)
  }

  /** The `for field in fields` loop of `jmanl_job_str_to_btree`: each
      token is split at its first `=` and stored, a later duplicate
      replacing an earlier one. */
  method ReadTail(start: Record, fields: seq<string>) returns (entry: Record)
    ensures entry == InsertFields(start, fields)
  {
    entry := start;
    var i := 0;
    while i < |fields|
      invariant 0 <= i <= |fields|
      invariant entry == InsertFields(start, fields[..i])
    {
      var field := TrimAsciiStart(fields[i]);
      var name := FieldName(field);
      var value := FieldValue(field);
      var key;
      if name == "start" {
        key := "start_time";
      } else if name == "user" {
        key := "Job_Owner";
      } else if name == "jobname" {
        key := "Job_Name";
      } else {
        key := name;
      }
      assert key == JmanlKey(name);
      InsertFieldsStep(start, fields, i);
      entry := entry[key := value];
      i := i + 1;
    }
    assert fields[..i] == fields;
  }

  /** `jmanl_job_str_to_btree`, statement by statement. */
  method JmanlJobStrToBtree(prelim: seq<string>, job: string, show: Show)
    returns (r: Result<Record>)
    ensures r == JmanlRecord(prelim, job, show)
  {
    if |prelim| < 2 {
      return Err(Error("Invalid field!"));
    }
    var entry: Record := map["job_state" := prelim[1]];
    if |prelim| < 3 {
      return Err(Error("Invalid field!"));
    }
    entry := entry["job_id" := Split(prelim[2], ".")[0]];
    assert entry == JmanlPrelim(prelim);
    entry := ReadTail(entry, Tokens(job, IsAsciiSpace));
    r := FinishJmanlEntry(entry, show);
  }

  /** The steps of `jmanl_job_str_to_btree` after the tail is read. */
  method FinishJmanlEntry(start: Record, show: Show) returns (r: Result<Record>)
    ensures r == JmanlFinish(start, show)
  {
    var memory := UpdateMemory(start, show, None);
    if memory.Err? {
      return memory.PropagateFailure();
    }
    var entry := memory.value;

    if "exec_host" in entry {
      entry := entry["Nodes" := NodeList(entry["exec_host"])];
    }
    assert entry == NodesStage(memory.value);

    if "end" !in entry {
      return Err(Error("Missing field 'end'"));
    }
    var end := ParseI64(entry["end"]);
    if end.None? {
      return Err(Error("Couldn't parse UNIX timestamp!"));
    }
    entry := entry["end_time" := IntToString(end.value)];
    assert EndTimeStage(NodesStage(memory.value)) == Ok(entry);

    if "Resource_List.walltime" !in entry || "resources_used.walltime" !in entry {
      return Err(Panic("no entry found for key"));
    }
    var walltime := WithContext(
      WalltimeToPercentage(entry["Resource_List.walltime"], entry["resources_used.walltime"]),
      "Couldn't calculate walltime efficiency!");
    if walltime.Err? {
      return walltime.PropagateFailure();
    }
    entry := entry["walltime_efficiency" := show(Finite(walltime.value))];
    assert JmanlWalltimeStage(EndTimeStage(NodesStage(memory.value)).value, show) == Ok(entry);

    r := AddCpuEfficiency(entry, show);
  }

  // ---------------------------------------------------------------------
  // jobstat (current jobs): one `key = value` line per field

  /** What line `index` of a jobstat block does to the entry read so far:
      the first line is the job id, `nodes: ` lines are skipped, and every
      other line must read `name = value`. */
  function JobstatLine(entry: Record, index: nat, line: string, parseDate: DateParser): Result<Record>
  {
    if index == 0 then Ok(entry["job_id" := line])
    else if StartsWith(line, "nodes: ") then Ok(entry)
    else
      var pieces := Split(TrimAsciiStart(line), " = ");
      if |pieces| < 2 then Err(Error("Invalid field!"))
      else StoreField(entry, pieces[0], pieces[1], parseDate)
  }

  /** How a `name = value` line is stored: a start date as a Unix time under
      `start_time`, an owner without its `@host`, anything else as it is. */
  function StoreField(entry: Record, name: string, value: string, parseDate: DateParser): Result<Record>
  {
    if name == "stime" then
      match parseDate(value)
      case None => Err(Error("Couldn't convert start time to UNIX timestamp!"))
      case Some(timestamp) => Ok(entry["start_time" := NatToString(timestamp)])
    else if name == "Job_Owner" then Ok(entry[name := Split(value, "@")[0]])
    else Ok(entry[name := value])
  }

  /** The entry after the lines `lines` of a block are read, in order; the
      first line that fails fails the whole block. */
  function JobstatFields(lines: seq<string>, parseDate: DateParser): Result<Record>
    decreases |lines|
  {
    if lines == [] then Ok(map[])
    else
      var entry :- JobstatFields(lines[..|lines| - 1], parseDate);
      JobstatLine(entry, |lines| - 1, lines[|lines| - 1], parseDate)
  }

  /** The placeholders a queued job gets for the figures it cannot have yet. */
  function QueuedPlaceholders(entry: Record): Record
  {
    entry["resources_used.mem" := "0"]["resources_used.walltime" := "00:00:00"]
         ["resources_used.cpupercent" := "0"]["start_time" := NOT_STARTED]["Nodes" := "None"]
  }

  /** The record the efficiency steps start from: a queued job gets its
      placeholders first. */
  function JobstatStart(entry: Record): Record
    requires "job_state" in entry
  {
    if entry["job_state"] == "Q" then QueuedPlaceholders(entry) else entry
  }

  /** `walltime_efficiency` of a jobstat record; a missing walltime reads
      as one second. */
  function JobstatWalltimeStage(entry: Record, show: Show): Result<Record>
  {
    var walltime :- WithContext(
      WalltimeToPercentage(GetOr(entry, "Resource_List.walltime", "00:00:01"),
                           GetOr(entry, "resources_used.walltime", "00:00:01")),
      "Couldn't calculate walltime efficiency!");
    Ok(entry["walltime_efficiency" := show(Finite(walltime))])
  }

  /** Everything `jobstat_job_str_to_btree` does after the lines are read. */
  function JobstatFinish(entry: Record, show: Show): Result<Record>
  {
    if "job_state" !in entry then Err(Error("Job state not found!"))
    else
      var e2 :- MemoryStage(JobstatStart(entry), show, Some("0"));
      var e3 :- JobstatWalltimeStage(e2, show);
      AddCpuEfficiency(e3, show)
  }

  /** The record `jobstat_job_str_to_btree` builds from one block. */
  function JobstatRecord(job: string, parseDate: DateParser, show: Show): Result<Record>
  {
    var entry :- JobstatFields(Lines(job), parseDate);
    JobstatFinish(entry, show)
  }

  /** Once a prefix of the lines fails, every longer prefix fails the same way. */
  lemma {:induction false} JobstatFailureSticks(lines: seq<string>, i: nat, parseDate: DateParser)
    requires i <= |lines|
    requires JobstatFields(lines[..i], parseDate).Err?
    ensures JobstatFields(lines, parseDate) == JobstatFields(lines[..i], parseDate)
    decreases |lines| - i
  {
    if i < |lines| {
      assert lines[..i + 1][..i] == lines[..i];
      JobstatFailureSticks(lines, i + 1, parseDate);
    } else {
      assert lines[..i] == lines;
    }
  }

  /** The body of the line loop of `jobstat_job_str_to_btree` for the line
      `field` at position `ind`. */
  method ReadJobstatLine(entry: Record, ind: nat, field: string, parseDate: DateParser)
    returns (r: Result<Record>)
    ensures r == JobstatLine(entry, ind, field, parseDate)
  {
    if ind == 0 {
      return Ok(entry["job_id" := field]);
    }
    if StartsWith(field, "nodes: ") {
      return Ok(entry);
    }
    var trimmed := TrimAsciiStart(field);
    var pieces := Split(trimmed, " = ");
    if |pieces| < 2 {
      return Err(Error("Invalid field!"));
    }
    var name, value := pieces[0], pieces[1];
    if name == "stime" {
      var timestamp := parseDate(value);
      if timestamp.None? {
        return Err(Error("Couldn't convert start time to UNIX timestamp!"));
      }
      r := Ok(entry["start_time" := NatToString(timestamp.value)]);
    } else if name == "Job_Owner" {
      r := Ok(entry[name := Split(value, "@")[0]]);
    } else {
      r := Ok(entry[name := value]);
    }
  }

  /** The `for (ind, field) in job.lines().enumerate()` loop of
      `jobstat_job_str_to_btree`, which returns at the first bad line. */
  method ReadJobstatLines(lines: seq<string>, parseDate: DateParser) returns (r: Result<Record>)
    ensures r == JobstatFields(lines, parseDate)
  {
    var entry: Record := map[];
    var ind := 0;
    while ind < |lines|
      invariant 0 <= ind <= |lines|
      invariant JobstatFields(lines[..ind], parseDate) == Ok(entry)
    {
      assert lines[..ind + 1][..ind] == lines[..ind];
      var next := ReadJobstatLine(entry, ind, lines[ind], parseDate);
      if next.Err? {
        JobstatFailureSticks(lines, ind + 1, parseDate);
        return next;
      }
      entry := next.value;
      ind := ind + 1;
    }
    assert lines[..ind] == lines;
    r := Ok(entry);
  }

  /** `jobstat_job_str_to_btree`, statement by statement. */
  method JobstatJobStrToBtree(job: string, parseDate: DateParser, show: Show)
    returns (r: Result<Record>)
    ensures r == JobstatRecord(job, parseDate, show)
  {
    var read := ReadJobstatLines(Lines(job), parseDate);
    if read.Err? {
      return read.PropagateFailure();
    }
    r := FinishJobstatEntry(read.value, show);
  }

  /** The state check, the queued placeholders and the three efficiency
      figures of `jobstat_job_str_to_btree`. */
  method FinishJobstatEntry(start: Record, show: Show) returns (r: Result<Record>)
    ensures r == JobstatFinish(start, show)
  {
    var entry := start;
    if "job_state" !in entry {
      return Err(Error("Job state not found!"));
    }
    if entry["job_state"] == "Q" {
      entry := entry["resources_used.mem" := "0"];
      entry := entry["resources_used.walltime" := "00:00:00"];
      entry := entry["resources_used.cpupercent" := "0"];
      entry := entry["start_time" := NOT_STARTED];
      entry := entry["Nodes" := "None"];
    }
    assert entry == JobstatStart(start);

    var memory := UpdateMemory(entry, show, Some("0"));
    if memory.Err? {
      return memory.PropagateFailure();
    }
    entry := memory.value;

    var walltime := WithContext(
      WalltimeToPercentage(GetOr(entry, "Resource_List.walltime", "00:00:01"),
                           GetOr(entry, "resources_used.walltime", "00:00:01")),
      "Couldn't calculate walltime efficiency!");
    if walltime.Err? {
      return walltime.PropagateFailure();
    }
    entry := entry["walltime_efficiency" := show(Finite(walltime.value))];
    assert JobstatWalltimeStage(memory.value, show) == Ok(entry);

    r := AddCpuEfficiency(entry, show);
  }

  // ---------------------------------------------------------------------
  // Properties of the shared derivations

  /** Three colon-free fields joined with `:` split back into themselves. */
  lemma SplitTime(a: string, b: string, c: string)
    requires ':' !in a && ':' !in b && ':' !in c
    ensures Split(a + ":" + b + ":" + c, ":") == [a, b, c]
  {
    var parts := [a, b, c];
    assert [b, c][1..] == [c];
    assert Join([b, c], ":") == b + ":" + c;
    JoinCons(a, [b, c], ":");
    assert [a] + [b, c] == parts;
    assert a + ":" + (b + ":" + c) == a + ":" + b + ":" + c;
    JoinSplitChar(parts, ':');
  }

  lemma DigitsHaveNoColon(s: string)
    requires AllDigits(s)
    ensures ':' !in s
  {
  }

  lemma ParseTimeOfFields(time: string, a: string, b: string, c: string, x: nat, y: nat, z: nat)
    requires Split(time, ":") == [a, b, c]
    requires ParseU64(a) == Some(x) && ParseU64(b) == Some(y) && ParseU64(c) == Some(z)
    ensures ParseTimeToSeconds(time) == Ok((x * 3600 + y * 60 + z) % U64_MODULUS)
  {
  }

  /** A count modulo 2^64 is the count itself exactly when it fits a `u64`. */
  lemma WrapExact(v: int, n: nat)
    requires v == n % U64_MODULUS
    ensures v <= U64_MAX
    ensures v == n <==> n <= U64_MAX
  {
  }

  /** The decimal `h:m:s` text of three counts. */
  function TimeText(h: nat, m: nat, sec: nat): string
  {
    NatToString(h) + ":" + NatToString(m) + ":" + NatToString(sec)
  }

  lemma ParseTimeOfCounts(h: nat, m: nat, sec: nat)
    requires h <= U64_MAX && m <= U64_MAX && sec <= U64_MAX
    ensures ParseTimeToSeconds(TimeText(h, m, sec)) == Ok((h * 3600 + m * 60 + sec) % U64_MODULUS)
  {
    var a, b, c := NatToString(h), NatToString(m), NatToString(sec);
    DigitsHaveNoColon(a);
    DigitsHaveNoColon(b);
    DigitsHaveNoColon(c);
    SplitTime(a, b, c);
    NatToStringParses(h, U64_MAX);
    NatToStringParses(m, U64_MAX);
    NatToStringParses(sec, U64_MAX);
    ParseTimeOfFields(a + ":" + b + ":" + c, a, b, c, h, m, sec);
  }

  /** A walltime written as `h:m:s` in decimal reads back as its number of
      seconds as a `u64`: the exact count when it fits, and the count
      wrapped modulo 2^64 when it does not. */
  lemma ParseTimeToSecondsRoundTrip(h: nat, m: nat, sec: nat)
    requires h <= U64_MAX && m <= U64_MAX && sec <= U64_MAX
    ensures var r := ParseTimeToSeconds(TimeText(h, m, sec));
      && r == Ok((h * 3600 + m * 60 + sec) % U64_MODULUS)
      && (r.value == h * 3600 + m * 60 + sec <==> h * 3600 + m * 60 + sec <= U64_MAX)
  {
    ParseTimeOfCounts(h, m, sec);
    WrapExact(ParseTimeToSeconds(TimeText(h, m, sec)).value, h * 3600 + m * 60 + sec);
  }

  /** `after` agrees with `before` outside `touched`, for one key. */
  lemma KeepsAt(before: Record, after: Record, touched: set<string>, k: string)
    requires Keeps(before, after, touched) && k !in touched
    ensures k in after <==> k in before
    ensures k in before ==> after[k] == before[k]
  {
  }

  /** Two steps that each keep everything outside their own keys keep
      everything outside the keys of either. */
  lemma KeepsChain(a: Record, b: Record, c: Record, t1: set<string>, t2: set<string>, t: set<string>)
    requires Keeps(a, b, t1) && Keeps(b, c, t2)
    requires t1 <= t && t2 <= t
    ensures Keeps(a, c, t)
  {
  }

  /** Writing one key keeps every other. */
  lemma UpdateKeeps(m: Record, k: string, v: string)
    ensures Keeps(m, m[k := v], {k})
  {
  }

  lemma NormalizeUsedMemKeeps(entry: Record, show: Show)
    requires NormalizeUsedMem(entry, show).Ok?
    ensures var r := NormalizeUsedMem(entry, show).value;
      Keeps(entry, r, {"resources_used.mem"})
      && ("resources_used.mem" in r <==> "resources_used.mem" in entry)
  {
    if "resources_used.mem" in entry {
      var used := ConvertMem(entry["resources_used.mem"]).value;
      UpdateKeeps(entry, "resources_used.mem", show(Floor(used)));
    }
  }

  lemma TrimReservedMemKeeps(entry: Record)
    ensures var r := TrimReservedMem(entry);
      Keeps(entry, r, {"Resource_List.mem"})
      && ("Resource_List.mem" in r <==> "Resource_List.mem" in entry)
  {
    if "Resource_List.mem" in entry {
      UpdateKeeps(entry, "Resource_List.mem", Split(entry["Resource_List.mem"], "gb")[0]);
    }
  }

  /** The keys the memory figures write. */
  const MEMORY_KEYS: set<string> := {"resources_used.mem", "Resource_List.mem", "mem_efficiency"}

  /** The memory figures only touch the two memory fields and add
      `mem_efficiency`; they need the reserved memory, and the used memory
      unless there is a default for it. */
  lemma MemoryStageKeeps(entry: Record, show: Show, usedDefault: Option<string>)
    requires MemoryStage(entry, show, usedDefault).Ok?
    ensures var r := MemoryStage(entry, show, usedDefault).value;
      Keeps(entry, r, MEMORY_KEYS)
      && "Resource_List.mem" in entry && "mem_efficiency" in r
      && (usedDefault.None? ==> "resources_used.mem" in entry)
  {
    var e1 := NormalizeUsedMem(entry, show).value;
    var e2 := TrimReservedMem(e1);
    var r := MemoryStage(entry, show, usedDefault).value;
    NormalizeUsedMemKeeps(entry, show);
    TrimReservedMemKeeps(e1);
    KeepsChain(entry, e1, e2, {"resources_used.mem"}, {"Resource_List.mem"}, MEMORY_KEYS);
    assert r == e2["mem_efficiency" := r["mem_efficiency"]];
    UpdateKeeps(e2, "mem_efficiency", r["mem_efficiency"]);
    KeepsChain(entry, e2, r, MEMORY_KEYS, {"mem_efficiency"}, MEMORY_KEYS);
  }

  /** A memory field that does not convert is reported as an error. */
  lemma ConvertMemInContext(st: string, message: string)
    ensures var r := WithContext(ConvertMem(st), message);
      r.Err? ==> r.failure == Error(message)
  {
    ConvertMemCases(st);
  }

  /** The memory figures fail only with an error, never a panic. */
  lemma MemoryStageNeverPanics(entry: Record, show: Show, usedDefault: Option<string>)
    requires MemoryStage(entry, show, usedDefault).Err?
    ensures MemoryStage(entry, show, usedDefault).failure.Error?
  {
    if "resources_used.mem" in entry {
      ConvertMemInContext(entry["resources_used.mem"], "Couldn't unpack memory field!");
    }
    var e1 := NormalizeUsedMem(entry, show);
    if e1.Ok? {
      var e2 := TrimReservedMem(e1.value);
      if "resources_used.mem" in e2 {
        ConvertMemInContext(e2["resources_used.mem"], "Couldn't unpack memory field!");
      } else if usedDefault.Some? {
        ConvertMemInContext(usedDefault.value, "Couldn't unpack memory field!");
      }
      if "Resource_List.mem" in e2 {
        ConvertMemInContext(e2["Resource_List.mem"], "Couldn't unpack memory field!");
      }
    }
  }

  // ---------------------------------------------------------------------
  // Properties of the jmanl parser

  /** The key a tail token ends up under. */
  function TokenKey(token: string): string
  {
    JmanlKey(FieldName(TrimAsciiStart(token)))
  }

  /** The value a tail token stores. */
  function TokenValue(token: string): string
  {
    FieldValue(TrimAsciiStart(token))
  }

  /** A tail field is split at its first `=`: the name is what comes before
      it and the value everything after it, further `=` included; a field
      without `=` is a name with an empty value. */
  lemma FieldSplitsAtFirstEquals(field: string)
    ensures Find(field, "=").None? ==> FieldName(field) == field && FieldValue(field) == ""
    ensures Find(field, "=").Some? ==>
      var i := Find(field, "=").value;
      FieldName(field) == field[..i] && FieldValue(field) == field[i + 1..]
  {
    SplitHead(field, "=");
    AfterFirstSeparator(field, "=");
  }

  /** Of several fields with the same key, the last one is stored. */
  lemma {:induction false} UpdateAllLastWins(entry: Record, fields: seq<string>,
                                             key: string -> string, value: string -> string, i: nat)
    requires i < |fields|
    requires forall j :: i < j < |fields| ==> key(fields[j]) != key(fields[i])
    ensures key(fields[i]) in UpdateAll(entry, fields, key, value)
    ensures UpdateAll(entry, fields, key, value)[key(fields[i])] == value(fields[i])
    decreases |fields|
  {
    var n := |fields| - 1;
    var init := fields[..n];
    if i < n {
      assert init[i] == fields[i];
      forall j | i < j < |init|
        ensures key(init[j]) != key(init[i])
      {
        assert init[j] == fields[j];
      }
      UpdateAllLastWins(entry, init, key, value, i);
      UpdateElsewhere(UpdateAll(entry, init, key, value), key(fields[n]), value(fields[n]), key(fields[i]));
    }
  }

  /** A key no field names keeps its earlier value, or stays absent. */
  lemma {:induction false} UpdateAllUntouched(entry: Record, fields: seq<string>,
                                              key: string -> string, value: string -> string, k: string)
    requires forall j :: 0 <= j < |fields| ==> key(fields[j]) != k
    ensures k in UpdateAll(entry, fields, key, value) <==> k in entry
    ensures k in entry ==> UpdateAll(entry, fields, key, value)[k] == entry[k]
    decreases |fields|
  {
    if fields != [] {
      var n := |fields| - 1;
      var init := fields[..n];
      forall j | 0 <= j < |init|
        ensures key(init[j]) != k
      {
        assert init[j] == fields[j];
      }
      UpdateAllUntouched(entry, init, key, value, k);
      UpdateElsewhere(UpdateAll(entry, init, key, value), key(fields[n]), value(fields[n]), k);
    }
  }

  /** Of several tail fields with the same key, the last one wins. */
  lemma InsertFieldsLastWins(entry: Record, fields: seq<string>, i: nat)
    requires i < |fields|
    requires forall j :: i < j < |fields| ==> TokenKey(fields[j]) != TokenKey(fields[i])
    ensures TokenKey(fields[i]) in InsertFields(entry, fields)
    ensures InsertFields(entry, fields)[TokenKey(fields[i])] == TokenValue(fields[i])
  {
    UpdateAllLastWins(entry, fields, TokenKey, TokenValue, i);
  }

  /** A key no tail field names keeps its positional value (or stays absent). */
  lemma InsertFieldsUntouched(entry: Record, fields: seq<string>, key: string)
    requires forall j :: 0 <= j < |fields| ==> TokenKey(fields[j]) != key
    ensures key in InsertFields(entry, fields) <==> key in entry
    ensures key in entry ==> InsertFields(entry, fields)[key] == entry[key]
  {
    UpdateAllUntouched(entry, fields, TokenKey, TokenValue, key);
  }

  /** The node list has one entry per `+`-separated chunk of `exec_host`, in
      order and without removing duplicates: the host before the chunk's
      first `/`. Host names hold no comma: one that did would be cut in two
      when the comma-joined list is split again. */
  lemma NodeListHosts(execHost: string)
    requires ',' !in execHost
    ensures var chunks := Split(execHost, "+");
      Split(NodeList(execHost), ",") == seq(|chunks|, i requires 0 <= i < |chunks| => Split(chunks[i], "/")[0])
  {
    var chunks := Split(execHost, "+");
    var hosts := seq(|chunks|, i requires 0 <= i < |chunks| => Split(chunks[i], "/")[0]);
    SplitPiecesWithin(execHost, "+", ',');
    forall i | 0 <= i < |chunks|
      ensures ',' !in hosts[i]
    {
      SplitPiecesWithin(chunks[i], "/", ',');
    }
    JoinSplitChar(hosts, ',');
  }

  lemma NodesStageKeeps(entry: Record)
    ensures var r := NodesStage(entry);
      Keeps(entry, r, {"Nodes"})
      && ("exec_host" in entry ==> "Nodes" in r && r["Nodes"] == NodeList(entry["exec_host"]))
  {
    if "exec_host" in entry {
      UpdateKeeps(entry, "Nodes", NodeList(entry["exec_host"]));
    }
  }

  lemma EndTimeStageKeeps(entry: Record)
    requires EndTimeStage(entry).Ok?
    ensures var r := EndTimeStage(entry).value;
      Keeps(entry, r, {"end_time"})
      && "end" in entry && ParseI64(entry["end"]).Some?
      && "end_time" in r && r["end_time"] == IntToString(ParseI64(entry["end"]).value)
  {
    UpdateKeeps(entry, "end_time", IntToString(ParseI64(entry["end"]).value));
  }

  lemma JmanlWalltimeStageKeeps(entry: Record, show: Show)
    requires JmanlWalltimeStage(entry, show).Ok?
    ensures var r := JmanlWalltimeStage(entry, show).value;
      Keeps(entry, r, {"walltime_efficiency"})
      && "Resource_List.walltime" in entry && "resources_used.walltime" in entry
      && "walltime_efficiency" in r
  {
    var r := JmanlWalltimeStage(entry, show).value;
    UpdateKeeps(entry, "walltime_efficiency", r["walltime_efficiency"]);
  }

  lemma AddCpuEfficiencyKeeps(entry: Record, show: Show)
    requires AddCpuEfficiency(entry, show).Ok?
    ensures var r := AddCpuEfficiency(entry, show).value;
      Keeps(entry, r, {"cpu_efficiency"})
      && "resources_used.cpupercent" in entry && "Resource_List.ncpus" in entry
      && "cpu_efficiency" in r
  {
    var r := AddCpuEfficiency(entry, show).value;
    UpdateKeeps(entry, "cpu_efficiency", r["cpu_efficiency"]);
  }

  /** The keys the jmanl finishing steps write. */
  const JMANL_KEYS: set<string> := FIGURES + {"Nodes", "end_time"}

  /** How the five jmanl finishing steps compose: together they keep
      everything outside their own keys, and each key written on the way is
      passed on to the end. */
  lemma JmanlChain(e0: Record, e1: Record, e2: Record, e3: Record, e4: Record, e5: Record)
    requires Keeps(e0, e1, MEMORY_KEYS) && Keeps(e1, e2, {"Nodes"}) && Keeps(e2, e3, {"end_time"})
    requires Keeps(e3, e4, {"walltime_efficiency"}) && Keeps(e4, e5, {"cpu_efficiency"})
    ensures Keeps(e0, e5, JMANL_KEYS)
    ensures "mem_efficiency" in e1 ==> "mem_efficiency" in e5
    ensures "exec_host" in e0 ==> "exec_host" in e1 && e1["exec_host"] == e0["exec_host"]
    ensures "Nodes" in e2 ==> "Nodes" in e5 && e5["Nodes"] == e2["Nodes"]
    ensures "end" in e2 ==> "end" in e0 && e2["end"] == e0["end"]
    ensures "end_time" in e3 ==> "end_time" in e5 && e5["end_time"] == e3["end_time"]
    ensures "walltime_efficiency" in e4 ==> "walltime_efficiency" in e5
    ensures "resources_used.cpupercent" in e4 ==> "resources_used.cpupercent" in e0
    ensures "Resource_List.ncpus" in e4 ==> "Resource_List.ncpus" in e0
  {
    KeepsChain(e0, e1, e2, MEMORY_KEYS, {"Nodes"}, JMANL_KEYS);
    KeepsChain(e0, e2, e3, JMANL_KEYS, {"end_time"}, JMANL_KEYS);
    KeepsChain(e0, e3, e4, JMANL_KEYS, {"walltime_efficiency"}, JMANL_KEYS);
    KeepsChain(e0, e4, e5, JMANL_KEYS, {"cpu_efficiency"}, JMANL_KEYS);
    var late := {"Nodes", "end_time", "walltime_efficiency", "cpu_efficiency"};
    KeepsChain(e1, e2, e3, {"Nodes"}, {"end_time"}, late);
    KeepsChain(e1, e3, e4, late, {"walltime_efficiency"}, late);
    KeepsChain(e1, e4, e5, late, {"cpu_efficiency"}, late);
    KeepsAt(e1, e5, late, "mem_efficiency");
    KeepsAt(e0, e1, MEMORY_KEYS, "exec_host");
    var efficiencies := {"walltime_efficiency", "cpu_efficiency"};
    var afterNodes := {"end_time", "walltime_efficiency", "cpu_efficiency"};
    KeepsChain(e3, e4, e5, {"walltime_efficiency"}, {"cpu_efficiency"}, efficiencies);
    KeepsChain(e2, e3, e5, {"end_time"}, efficiencies, afterNodes);
    KeepsAt(e2, e5, afterNodes, "Nodes");
    KeepsAt(e0, e2, JMANL_KEYS, "end");
    KeepsAt(e3, e5, efficiencies, "end_time");
    KeepsAt(e4, e5, {"cpu_efficiency"}, "walltime_efficiency");
    KeepsAt(e0, e4, JMANL_KEYS, "resources_used.cpupercent");
    KeepsAt(e0, e4, JMANL_KEYS, "Resource_List.ncpus");
  }

  /** The walltime fields reach the walltime step unchanged. */
  lemma JmanlWalltimesReach(e0: Record, e1: Record, e2: Record, e3: Record)
    requires Keeps(e0, e1, MEMORY_KEYS) && Keeps(e1, e2, {"Nodes"}) && Keeps(e2, e3, {"end_time"})
    ensures "Resource_List.walltime" in e3 <==> "Resource_List.walltime" in e0
    ensures "resources_used.walltime" in e3 <==> "resources_used.walltime" in e0
  {
    KeepsChain(e0, e1, e2, MEMORY_KEYS, {"Nodes"}, JMANL_KEYS);
    KeepsChain(e0, e2, e3, JMANL_KEYS, {"end_time"}, JMANL_KEYS);
  }

  /** What the jmanl finishing steps change: the memory figures, `Nodes`,
      `end_time` and the efficiencies; every other field is passed through. */
  lemma JmanlFinishKeeps(entry: Record, show: Show)
    requires JmanlFinish(entry, show).Ok?
    ensures var r := JmanlFinish(entry, show).value;
      Keeps(entry, r, JMANL_KEYS)
      && "mem_efficiency" in r && "walltime_efficiency" in r && "cpu_efficiency" in r
  {
    var e1 := MemoryStage(entry, show, None).value;
    var e2 := NodesStage(e1);
    var e3 := EndTimeStage(e2).value;
    var e4 := JmanlWalltimeStage(e3, show).value;
    var r := AddCpuEfficiency(e4, show).value;
    MemoryStageKeeps(entry, show, None);
    NodesStageKeeps(e1);
    EndTimeStageKeeps(e2);
    JmanlWalltimeStageKeeps(e3, show);
    AddCpuEfficiencyKeeps(e4, show);
    JmanlChain(entry, e1, e2, e3, e4, r);
  }

  /** The fields a jmanl record must carry for the finishing steps to
      succeed: both memory fields, both walltimes and both CPU fields. */
  lemma JmanlFinishNeeds(entry: Record, show: Show)
    requires JmanlFinish(entry, show).Ok?
    ensures "resources_used.mem" in entry && "Resource_List.mem" in entry
    ensures "Resource_List.walltime" in entry && "resources_used.walltime" in entry
    ensures "resources_used.cpupercent" in entry && "Resource_List.ncpus" in entry
  {
    var e1 := MemoryStage(entry, show, None).value;
    var e2 := NodesStage(e1);
    var e3 := EndTimeStage(e2).value;
    var e4 := JmanlWalltimeStage(e3, show).value;
    var r := AddCpuEfficiency(e4, show).value;
    MemoryStageKeeps(entry, show, None);
    NodesStageKeeps(e1);
    EndTimeStageKeeps(e2);
    JmanlWalltimeStageKeeps(e3, show);
    AddCpuEfficiencyKeeps(e4, show);
    JmanlChain(entry, e1, e2, e3, e4, r);
    JmanlWalltimesReach(entry, e1, e2, e3);
  }

  /** `end_time` re-renders the `end` field read as an `i64`, and `Nodes`
      lists the hosts of `exec_host` when the record has one. */
  lemma JmanlFinishDerived(entry: Record, show: Show)
    requires JmanlFinish(entry, show).Ok?
    ensures "end" in entry && ParseI64(entry["end"]).Some?
    ensures var r := JmanlFinish(entry, show).value;
      "end_time" in r && r["end_time"] == IntToString(ParseI64(entry["end"]).value)
    ensures var r := JmanlFinish(entry, show).value;
      "exec_host" in entry ==> "Nodes" in r && r["Nodes"] == NodeList(entry["exec_host"])
  {
    var e1 := MemoryStage(entry, show, None).value;
    var e2 := NodesStage(e1);
    var e3 := EndTimeStage(e2).value;
    var e4 := JmanlWalltimeStage(e3, show).value;
    var r := AddCpuEfficiency(e4, show).value;
    MemoryStageKeeps(entry, show, None);
    NodesStageKeeps(e1);
    EndTimeStageKeeps(e2);
    JmanlWalltimeStageKeeps(e3, show);
    AddCpuEfficiencyKeeps(e4, show);
    JmanlChain(entry, e1, e2, e3, e4, r);
  }

  lemma AddCpuEfficiencyNeverPanics(entry: Record, show: Show)
    requires AddCpuEfficiency(entry, show).Err?
    ensures AddCpuEfficiency(entry, show).failure.Error?
  {
  }

  /** The walltime step of a jmanl record panics exactly when a walltime
      field is missing. */
  lemma JmanlWalltimeStagePanics(entry: Record, show: Show)
    ensures var r := JmanlWalltimeStage(entry, show);
      r.Err? && r.failure.Panic? <==>
        "Resource_List.walltime" !in entry || "resources_used.walltime" !in entry
  {
    if "Resource_List.walltime" in entry && "resources_used.walltime" in entry {
      WalltimeToPercentageSpec(entry["Resource_List.walltime"], entry["resources_used.walltime"]);
    }
  }

  /** A jmanl record panics exactly when the memory figures and `end_time`
      succeed but a walltime field is missing; every other failure is an
      error. */
  lemma JmanlFinishPanics(entry: Record, show: Show)
    ensures var r := JmanlFinish(entry, show);
      r.Err? && r.failure.Panic? <==>
        MemoryStage(entry, show, None).Ok?
        && EndTimeStage(NodesStage(MemoryStage(entry, show, None).value)).Ok?
        && ("Resource_List.walltime" !in entry || "resources_used.walltime" !in entry)
  {
    var m := MemoryStage(entry, show, None);
    if m.Err? {
      MemoryStageNeverPanics(entry, show, None);
    } else {
      var e2 := NodesStage(m.value);
      var e3 := EndTimeStage(e2);
      if e3.Ok? {
        MemoryStageKeeps(entry, show, None);
        NodesStageKeeps(m.value);
        EndTimeStageKeeps(e2);
        JmanlWalltimesReach(entry, m.value, e2, e3.value);
        JmanlWalltimeStagePanics(e3.value, show);
        var e4 := JmanlWalltimeStage(e3.value, show);
        if e4.Ok? {
          if AddCpuEfficiency(e4.value, show).Err? {
            AddCpuEfficiencyNeverPanics(e4.value, show);
          }
        }
      }
    }
  }

  lemma JobIdNotWritten()
    ensures "job_id" !in JMANL_KEYS && "job_id" !in FIGURES
    ensures "job_state" !in JMANL_KEYS
  {
  }

  /** A key the jmanl finishing steps do not write keeps its value. */
  lemma JmanlFinishKeepsKey(entry: Record, show: Show, k: string)
    requires JmanlFinish(entry, show).Ok?
    requires k !in JMANL_KEYS
    ensures var r := JmanlFinish(entry, show).value;
      (k in r <==> k in entry) && (k in entry ==> r[k] == entry[k])
  {
    JmanlFinishKeeps(entry, show);
    KeepsAt(entry, JmanlFinish(entry, show).value, JMANL_KEYS, k);
  }

  /** A jmanl line needs three positional fields. */
  lemma JmanlRecordShortPrelim(prelim: seq<string>, job: string, show: Show)
    requires |prelim| < 3
    ensures JmanlRecord(prelim, job, show) == Err(Error("Invalid field!"))
  {
  }

  /** The positional entries: the state is the second field and the id the
      third up to its first `.`. */
  lemma JmanlPrelimFields(prelim: seq<string>)
    requires |prelim| >= 3
    ensures var start := JmanlPrelim(prelim);
      && "job_state" in start && start["job_state"] == prelim[1]
      && "job_id" in start && start["job_id"] == Split(prelim[2], ".")[0]
      && (Find(prelim[2], ".").Some? ==> start["job_id"] == prelim[2][..Find(prelim[2], ".").value])
      && (Find(prelim[2], ".").None? ==> start["job_id"] == prelim[2])
  {
    SplitHead(prelim[2], ".");
  }

  /** A positional entry that no tail field names and no finishing step
      writes reaches the record unchanged. */
  lemma PositionalKept(start: Record, tokens: seq<string>, show: Show, k: string)
    requires JmanlFinish(InsertFields(start, tokens), show).Ok?
    requires k in start && k !in JMANL_KEYS
    requires forall j :: 0 <= j < |tokens| ==> TokenKey(tokens[j]) != k
    ensures var r := JmanlFinish(InsertFields(start, tokens), show).value;
      k in r && r[k] == start[k]
  {
    InsertFieldsUntouched(start, tokens, k);
    JmanlFinishKeepsKey(InsertFields(start, tokens), show, k);
  }

  /** Some whitespace-separated field of the tail `job` is stored under `k`. */
  predicate TailNames(job: string, k: string)
  {
    var tokens := Tokens(job, IsAsciiSpace);
    exists j :: 0 <= j < |tokens| && TokenKey(tokens[j]) == k
  }

  /** A key that neither the positional fields, nor a tail field, nor a
      finishing step writes is absent from the record: a line without an
      `stime=` field gives a record without `stime`. */
  lemma JmanlRecordLacks(prelim: seq<string>, job: string, show: Show, k: string)
    requires JmanlRecord(prelim, job, show).Ok?
    requires k != "job_state" && k != "job_id" && k !in JMANL_KEYS
    requires !TailNames(job, k)
    ensures k !in JmanlRecord(prelim, job, show).value
  {
    var tokens := Tokens(job, IsAsciiSpace);
    var start := JmanlPrelim(prelim);
    InsertFieldsUntouched(start, tokens, k);
    JmanlFinishKeepsKey(InsertFields(start, tokens), show, k);
  }

  // ---------------------------------------------------------------------
  // Properties of the jobstat parser

  /** No `stime` key, and an owner (if any) without `@`. */
  predicate CleanEntry(m: Record)
  {
    "stime" !in m && ("Job_Owner" in m ==> !Contains(m["Job_Owner"], "@"))
  }

  lemma StoreFieldClean(entry: Record, name: string, value: string, parseDate: DateParser)
    requires CleanEntry(entry)
    requires StoreField(entry, name, value, parseDate).Ok?
    ensures CleanEntry(StoreField(entry, name, value, parseDate).value)
  {
    if name == "Job_Owner" {
      SplitPiecesFree(value, "@");
    }
  }

  lemma JobstatLineClean(entry: Record, index: nat, line: string, parseDate: DateParser)
    requires CleanEntry(entry)
    requires JobstatLine(entry, index, line, parseDate).Ok?
    ensures CleanEntry(JobstatLine(entry, index, line, parseDate).value)
  {
    if index > 0 && !StartsWith(line, "nodes: ") {
      var pieces := Split(TrimAsciiStart(line), " = ");
      StoreFieldClean(entry, pieces[0], pieces[1], parseDate);
    }
  }

  /** The jobstat lines never leave a `stime` key (it is stored as
      `start_time`), and a stored owner never keeps its `@host`. */
  lemma {:induction false} JobstatFieldsShape(lines: seq<string>, parseDate: DateParser)
    requires JobstatFields(lines, parseDate).Ok?
    ensures CleanEntry(JobstatFields(lines, parseDate).value)
    decreases |lines|
  {
    if lines != [] {
      var n := |lines| - 1;
      JobstatFieldsShape(lines[..n], parseDate);
      JobstatLineClean(JobstatFields(lines[..n], parseDate).value, n, lines[n], parseDate);
    }
  }

  /** A block reads without error only when its lines but the last do, and
      then the last line is applied to their entry. */
  lemma JobstatFieldsLast(lines: seq<string>, parseDate: DateParser)
    requires lines != []
    requires JobstatFields(lines, parseDate).Ok?
    ensures var init := JobstatFields(lines[..|lines| - 1], parseDate);
      && init.Ok?
      && JobstatFields(lines, parseDate) == JobstatLine(init.value, |lines| - 1, lines[|lines| - 1], parseDate)
  {
  }

  /** Storing a field not named `job_id` leaves the job id alone. */
  lemma StoreFieldKeepsJobId(entry: Record, name: string, value: string, parseDate: DateParser)
    requires name != "job_id" && "job_id" in entry
    requires StoreField(entry, name, value, parseDate).Ok?
    ensures var r := StoreField(entry, name, value, parseDate).value;
      "job_id" in r && r["job_id"] == entry["job_id"]
  {
    assert "start_time"[0] != "job_id"[0];
  }

  /** A later line that is not named `job_id` leaves the job id alone. */
  lemma JobstatLineKeepsJobId(entry: Record, index: nat, line: string, parseDate: DateParser)
    requires index > 0 && "job_id" in entry
    requires JobstatLine(entry, index, line, parseDate).Ok?
    requires !StartsWith(line, "nodes: ") ==> Split(TrimAsciiStart(line), " = ")[0] != "job_id"
    ensures var r := JobstatLine(entry, index, line, parseDate).value;
      "job_id" in r && r["job_id"] == entry["job_id"]
  {
    if !StartsWith(line, "nodes: ") {
      var pieces := Split(TrimAsciiStart(line), " = ");
      StoreFieldKeepsJobId(entry, pieces[0], pieces[1], parseDate);
    }
  }

  /** The job id is the block's first line, unless a later line is itself
      named `job_id`. */
  lemma {:induction false} JobstatJobIdIsFirstLine(lines: seq<string>, parseDate: DateParser)
    requires lines != []
    requires JobstatFields(lines, parseDate).Ok?
    requires forall j :: 1 <= j < |lines| && !StartsWith(lines[j], "nodes: ") ==>
      Split(TrimAsciiStart(lines[j]), " = ")[0] != "job_id"
    ensures "job_id" in JobstatFields(lines, parseDate).value
    ensures JobstatFields(lines, parseDate).value["job_id"] == lines[0]
    decreases |lines|
  {
    var n := |lines| - 1;
    var init := lines[..n];
    JobstatFieldsLast(lines, parseDate);
    if n > 0 {
      forall j | 1 <= j < |init| && !StartsWith(init[j], "nodes: ")
        ensures Split(TrimAsciiStart(init[j]), " = ")[0] != "job_id"
      {
        assert init[j] == lines[j];
      }
      JobstatJobIdIsFirstLine(init, parseDate);
      assert init[0] == lines[0];
      JobstatLineKeepsJobId(JobstatFields(init, parseDate).value, n, lines[n], parseDate);
    }
  }

  /** A line other than the first that is neither a `nodes: ` line nor of
      the form `name = value` makes the whole block an error. */
  lemma JobstatMalformedLine(job: string, parseDate: DateParser, show: Show, i: nat)
    requires 0 < i < |Lines(job)|
    requires !StartsWith(Lines(job)[i], "nodes: ")
    requires !Contains(TrimAsciiStart(Lines(job)[i]), " = ")
    ensures JobstatRecord(job, parseDate, show).Err?
  {
    var lines := Lines(job);
    if JobstatFields(lines[..i], parseDate).Err? {
      JobstatFailureSticks(lines, i, parseDate);
    } else {
      SplitCount(TrimAsciiStart(lines[i]), " = ");
      assert lines[..i + 1][..i] == lines[..i];
      JobstatFailureSticks(lines, i + 1, parseDate);
    }
  }

  lemma JobstatWalltimeStageKeeps(entry: Record, show: Show)
    requires JobstatWalltimeStage(entry, show).Ok?
    ensures var r := JobstatWalltimeStage(entry, show).value;
      Keeps(entry, r, {"walltime_efficiency"}) && "walltime_efficiency" in r
  {
    var r := JobstatWalltimeStage(entry, show).value;
    UpdateKeeps(entry, "walltime_efficiency", r["walltime_efficiency"]);
  }

  /** How the three jobstat efficiency steps compose. */
  lemma JobstatChain(e1: Record, e2: Record, e3: Record, e4: Record)
    requires Keeps(e1, e2, MEMORY_KEYS) && Keeps(e2, e3, {"walltime_efficiency"})
    requires Keeps(e3, e4, {"cpu_efficiency"})
    ensures Keeps(e1, e4, FIGURES)
    ensures "mem_efficiency" in e2 ==> "mem_efficiency" in e4
    ensures "walltime_efficiency" in e3 ==> "walltime_efficiency" in e4
  {
    KeepsChain(e1, e2, e3, MEMORY_KEYS, {"walltime_efficiency"}, FIGURES);
    KeepsChain(e1, e3, e4, FIGURES, {"cpu_efficiency"}, FIGURES);
    var efficiencies := {"walltime_efficiency", "cpu_efficiency"};
    KeepsChain(e2, e3, e4, {"walltime_efficiency"}, {"cpu_efficiency"}, efficiencies);
    KeepsAt(e2, e4, efficiencies, "mem_efficiency");
    KeepsAt(e3, e4, {"cpu_efficiency"}, "walltime_efficiency");
  }

  /** What the jobstat finishing steps change: a queued job's placeholders,
      then the memory figures and the efficiencies; a record without a job
      state is rejected. */
  lemma JobstatFinishKeeps(entry: Record, show: Show)
    requires JobstatFinish(entry, show).Ok?
    ensures "job_state" in entry
    ensures var m := JobstatFinish(entry, show).value;
      Keeps(JobstatStart(entry), m, FIGURES)
      && "mem_efficiency" in m && "walltime_efficiency" in m && "cpu_efficiency" in m
  {
    var e1 := JobstatStart(entry);
    var e2 := MemoryStage(e1, show, Some("0")).value;
    var e3 := JobstatWalltimeStage(e2, show).value;
    var m := AddCpuEfficiency(e3, show).value;
    MemoryStageKeeps(e1, show, Some("0"));
    JobstatWalltimeStageKeeps(e2, show);
    AddCpuEfficiencyKeeps(e3, show);
    JobstatChain(e1, e2, e3, m);
  }

  /** The efficiency steps leave a queued job's placeholders, its state, the
      absence of `stime` and the owner as they were. */
  lemma JobstatStartSurvives(entry: Record, m: Record)
    requires "job_state" in entry && CleanEntry(entry)
    requires Keeps(JobstatStart(entry), m, FIGURES)
    ensures "job_state" in m && m["job_state"] == entry["job_state"]
    ensures CleanEntry(m)
    ensures entry["job_state"] == "Q" ==>
      "resources_used.walltime" in m && m["resources_used.walltime"] == "00:00:00"
      && "resources_used.cpupercent" in m && m["resources_used.cpupercent"] == "0"
      && "start_time" in m && m["start_time"] == NOT_STARTED
      && "Nodes" in m && m["Nodes"] == "None"
  {
    var e1 := JobstatStart(entry);
    KeepsAt(e1, m, FIGURES, "job_state");
    KeepsAt(e1, m, FIGURES, "stime");
    KeepsAt(e1, m, FIGURES, "Job_Owner");
    KeepsAt(e1, m, FIGURES, "resources_used.walltime");
    KeepsAt(e1, m, FIGURES, "resources_used.cpupercent");
    KeepsAt(e1, m, FIGURES, "start_time");
    KeepsAt(e1, m, FIGURES, "Nodes");
  }

  /** A parsed jobstat block has a job state and all three efficiencies, no
      `stime` key, an owner without `@host`, and, for a queued job, the
      placeholders: no walltime or CPU used yet, the `i32::MAX` start time
      and no nodes. */
  lemma JobstatFinishShape(entry: Record, show: Show)
    requires CleanEntry(entry)
    requires JobstatFinish(entry, show).Ok?
    ensures "job_state" in entry
    ensures var m := JobstatFinish(entry, show).value;
      "job_state" in m && m["job_state"] == entry["job_state"]
      && "mem_efficiency" in m && "walltime_efficiency" in m && "cpu_efficiency" in m
      && CleanEntry(m)
      && (entry["job_state"] == "Q" ==>
            "resources_used.walltime" in m && m["resources_used.walltime"] == "00:00:00"
            && "resources_used.cpupercent" in m && m["resources_used.cpupercent"] == "0"
            && "start_time" in m && m["start_time"] == NOT_STARTED
            && "Nodes" in m && m["Nodes"] == "None")
  {
    JobstatFinishKeeps(entry, show);
    JobstatStartSurvives(entry, JobstatFinish(entry, show).value);
  }
}
