/** The HTML page handlers `running` (`src/routes/running.rs`), `search`
    (`src/routes/search.rs`) and `completed` (`src/routes/completed.rs`):
    which query each page runs, the order of its rows, its alert and header
    texts, and the display helpers `parse_nodes` and `req_nodes`. The page
    templates themselves are not modelled; a page is the data handed to its
    template. The wall clock is the parameter `now` and the database is the
    function `rows`, `None` standing for a failing query. */
module PageRoutes {
  import opened Wrappers
  import opened Text
  import opened Numbers
  import opened ApiRoutes

  type Record = map<string, string>

  /** The rows each query returns, or `None` when it fails. */
  type Rows = Query -> Option<seq<Record>>

  datatype Page = Page(username: Option<string>, title: string, header: string, alert: Option<string>,
                       query: Option<Query>, jobs: seq<Record>)

  datatype Response =
    | Shown(page: Page)
    | Failed(status: int, message: string)
    | Panicked(message: string)

  const NOT_LOGGED_IN: string := "You are not logged in!"
  const CHOOSE_FILTERS: string := "Choose your filters and click search!"
  const SESSION_ERROR: string := "Couldn't get username from session!"
  const QUERY_ERROR: string := "Couldn't get all jobs!"
  const NO_ENTRY: string := "no entry found for key"

  // ---------------------------------------------------------------------
  // parse_nodes and req_nodes

  const SHOWN_NODES: nat := 10

  function Min(a: nat, b: nat): nat
  {
    if a <= b then a else b
  }

  /** The note after the tenth node name when `hidden` more follow. */
  function MoreNote(hidden: nat): string
  {
    "... (" + NatToString(hidden) + " more)"
  }

  /** `parse_nodes`: the first ten comma-separated node names, joined with
      ", ", and a count of the rest. */
  function ParseNodes(nodes: string): string
  {
    ShowNames(Split(nodes, ","))
  }

  /** The text `parse_nodes` writes for the node names `names`. */
  function ShowNames(names: seq<string>): string
  {
    var text := Join(names[..Min(SHOWN_NODES, |names|)], ", ");
    if |names| > SHOWN_NODES then text + MoreNote(|names| - SHOWN_NODES) else text
  }

  /** Read back by splitting at ", ", `parse_nodes` lists the node names in
      their input order, never more than ten of them; with ten or fewer it
      lists all, and otherwise the tenth carries the note counting the ones
      left out. */
  lemma ParseNodesNames(nodes: string)
    ensures var names := Split(nodes, ",");
      var shown := Split(ParseNodes(nodes), ", ");
      && |shown| == Min(SHOWN_NODES, |names|)
      && shown[..|shown| - 1] == names[..|shown| - 1]
      && (|names| <= SHOWN_NODES ==> shown == names)
      && (|names| > SHOWN_NODES ==> shown[SHOWN_NODES - 1] == names[SHOWN_NODES - 1] + MoreNote(|names| - SHOWN_NODES))
  {
    NamesLackComma(nodes);
    ShowNamesSplit(Split(nodes, ","));
  }

  /** The names split back out of what `ShowNames` writes for non-empty,
      comma-free names. */
  lemma ShowNamesSplit(names: seq<string>)
    requires names != []
    requires forall k :: 0 <= k < |names| ==> ',' !in names[k]
    ensures var shown := Split(ShowNames(names), ", ");
      && |shown| == Min(SHOWN_NODES, |names|)
      && shown[..|shown| - 1] == names[..|shown| - 1]
      && (|names| <= SHOWN_NODES ==> shown == names)
      && (|names| > SHOWN_NODES ==> shown[SHOWN_NODES - 1] == names[SHOWN_NODES - 1] + MoreNote(|names| - SHOWN_NODES))
  {
    if |names| <= SHOWN_NODES {
      assert ShowNames(names) == Join(names[..|names|], ", ");
      ShownFew(names);
    } else {
      assert ShowNames(names) == Join(names[..SHOWN_NODES], ", ") + MoreNote(|names| - SHOWN_NODES);
      ShownMany(names);
    }
  }

  /** Ten or fewer comma-free names are all shown. */
  lemma ShownFew(names: seq<string>)
    requires 0 < |names| <= SHOWN_NODES
    requires forall k :: 0 <= k < |names| ==> ',' !in names[k]
    ensures Split(Join(names[..|names|], ", "), ", ") == names
  {
    assert names[..|names|] == names;
    JoinSplit(names, ", ");
  }

  /** Of more than ten comma-free names the first ten are shown, the tenth
      with the note. */
  lemma ShownMany(names: seq<string>)
    requires |names| > SHOWN_NODES
    requires forall k :: 0 <= k < |names| ==> ',' !in names[k]
    ensures var shown := Split(Join(names[..SHOWN_NODES], ", ") + MoreNote(|names| - SHOWN_NODES), ", ");
      && |shown| == SHOWN_NODES
      && shown[..SHOWN_NODES - 1] == names[..SHOWN_NODES - 1]
      && shown[SHOWN_NODES - 1] == names[SHOWN_NODES - 1] + MoreNote(|names| - SHOWN_NODES)
  {
    var first := names[..SHOWN_NODES];
    forall k | 0 <= k < |first|
      ensures ',' !in first[k]
    {
      assert first[k] == names[k];
    }
    ShownWithNote(first, |names| - SHOWN_NODES);
    assert first[..SHOWN_NODES - 1] == names[..SHOWN_NODES - 1];
    assert first[SHOWN_NODES - 1] == names[SHOWN_NODES - 1];
  }

  /** No node name holds a comma. */
  lemma NamesLackComma(nodes: string)
    ensures forall k :: 0 <= k < |Split(nodes, ",")| ==> ',' !in Split(nodes, ",")[k]
  {
    var names := Split(nodes, ",");
    SplitPiecesFree(nodes, ",");
    forall k | 0 <= k < |names|
      ensures ',' !in names[k]
    {
      ContainsChar(names[k], ',');
    }
  }

  /** The note is free of commas. */
  lemma NoteLacksComma(hidden: nat)
    ensures ',' !in MoreNote(hidden)
  {
    var digits := NatToString(hidden);
    assert MoreNote(hidden) == "... (" + digits + " more)";
    assert forall i :: 0 <= i < |digits| ==> IsDigit(digits[i]);
  }

  /** Ten comma-free names followed by the note split back into the names,
      the last one carrying the note. */
  lemma ShownWithNote(first: seq<string>, hidden: nat)
    requires |first| == SHOWN_NODES
    requires forall k :: 0 <= k < |first| ==> ',' !in first[k]
    ensures var shown := Split(Join(first, ", ") + MoreNote(hidden), ", ");
      && |shown| == SHOWN_NODES
      && shown[..SHOWN_NODES - 1] == first[..SHOWN_NODES - 1]
      && shown[SHOWN_NODES - 1] == first[SHOWN_NODES - 1] + MoreNote(hidden)
  {
    var note := MoreNote(hidden);
    var last := |first| - 1;
    var extended := first[..last] + [first[last] + note];
    NoteLacksComma(hidden);
    JoinExtendLast(first, ", ", note);
    forall k | 0 <= k < |extended|
      ensures ',' !in extended[k]
    {
      if k < last {
        assert extended[k] == first[k];
      }
    }
    JoinSplit(extended, ", ");
  }

  /** The number of comma-separated parts of `nodes` as a decimal string;
      an empty string counts as one part. */
  function ReqNodes(nodes: string): (r: string)
    ensures AllDigits(r) && DigitsValue(r) == |Split(nodes, ",")|
  {
    NatToStringValue(|Split(nodes, ",")|);
    NatToString(|Split(nodes, ",")|)
  }

  /** `req_nodes` counts the node names a job was given, and an empty
      `nodes` value still counts one. */
  lemma ReqNodesCounts(names: seq<string>)
    requires names != []
    requires forall k :: 0 <= k < |names| ==> ',' !in names[k]
    ensures DigitsValue(ReqNodes(Join(names, ","))) == |names|
    ensures ReqNodes("") == "1"
  {
    JoinSplitChar(names, ',');
  }

  /** Each job with its `req_nodes` column added, or `None` (a panic) when
      some job has no `nodes` column. */
  function WithReqNodes(jobs: seq<Record>): Option<seq<Record>>
  {
    if forall k :: 0 <= k < |jobs| ==> "nodes" in jobs[k] then
      Some(seq(|jobs|, k requires 0 <= k < |jobs| && "nodes" in jobs[k] =>
                 jobs[k]["req_nodes" := ReqNodes(jobs[k]["nodes"])]))
    else None
  }

  // ---------------------------------------------------------------------
  // The date window

  const DAY: int := 86400
  const MONTH: int := 2592000
  const YEAR: int := 31536000
  const ALL_TIME: int := 315360000

  /** How far back the `date` parameter reaches, in seconds, matched after
      lower-casing; anything else, or no parameter, means a month. */
  function DateOffset(dateQuery: Option<string>): int
  {
    match dateQuery
    case None => MONTH
    case Some(q) =>
      var lower := AsciiLower(q);
      if lower == "day" then DAY
      else if lower == "month" then MONTH
      else if lower == "year" then YEAR
      else if lower == "all" then ALL_TIME
      else MONTH
  }

  /** The window is one of the four lengths, chosen case-insensitively, and
      a month unless the parameter names one of the other three. */
  lemma DateOffsetSpec(dateQuery: Option<string>)
    ensures var offset := DateOffset(dateQuery);
      && offset in {DAY, MONTH, YEAR, ALL_TIME}
      && (dateQuery.Some? ==> offset == DateOffset(Some(AsciiLower(dateQuery.value))))
      && (offset == DAY <==> dateQuery.Some? && AsciiLower(dateQuery.value) == "day")
      && (offset == YEAR <==> dateQuery.Some? && AsciiLower(dateQuery.value) == "year")
      && (offset == ALL_TIME <==> dateQuery.Some? && AsciiLower(dateQuery.value) == "all")
  {
    if dateQuery.Some? {
      var q := dateQuery.value;
      assert AsciiLower(AsciiLower(q)) == AsciiLower(q);
    }
  }

  /** The earliest start time the page asks for, as the decimal string the
      query receives. */
  function SinceFilter(now: int, dateQuery: Option<string>): string
  {
    IntToString(now - DateOffset(dateQuery))
  }

  /** The filter reads back as the `i64` timestamp `now - offset`. */
  lemma SinceFilterParses(now: int, dateQuery: Option<string>)
    requires I64_MIN + ALL_TIME <= now <= I64_MAX
    ensures ParseI64(SinceFilter(now, dateQuery)) == Some(now - DateOffset(dateQuery))
  {
    assert 0 < DateOffset(dateQuery) <= ALL_TIME;
    IntToStringParses(now - DateOffset(dateQuery), I64_MIN, I64_MAX);
  }

  // ---------------------------------------------------------------------
  // running

  /** `running`. */
  function RunningPage(session: Session, rows: Rows): Response
  {
    match session
    case Err(_) => Failed(UNAUTHORIZED, SESSION_ERROR)
    case Ok(username) =>
      var q := RunningJobs(Some("R"), None, None, None, None, username.None?);
      match rows(q)
      case None => Failed(INTERNAL_SERVER_ERROR, QUERY_ERROR)
      case Some(jobs) =>
        Shown(Page(username, "Active Jobs - NIU", "All Running Jobs on Metis", None, Some(q), Reverse(jobs)))
  }

  /** The running page always reads the jobs in state R, censored exactly
      when nobody is logged in, and shows them last row first. */
  lemma RunningPageSpec(session: Session, rows: Rows)
    ensures var r := RunningPage(session, rows);
      && (session.Err? ==> r == Failed(UNAUTHORIZED, SESSION_ERROR))
      && (r.Shown? ==>
            && session.Ok? && r.page.username == session.value
            && r.page.query.Some? && r.page.query.value.RunningJobs?
            && r.page.query.value.state == Some("R")
            && (r.page.query.value.censor <==> session.value.None?)
            && rows(r.page.query.value).Some?
            && Reverse(r.page.jobs) == rows(r.page.query.value).value
            && r.page.alert.None?)
  {
    var r := RunningPage(session, rows);
    if r.Shown? {
      var jobs := rows(r.page.query.value).value;
      assert Reverse(Reverse(jobs)) == jobs;
    }
  }

  // ---------------------------------------------------------------------
  // search

  /** `any_filters`. */
  predicate AnyFilters(params: Params)
  {
    "state" in params || "queue" in params || "user" in params || "name" in params || "date" in params
  }

  /** The search page's alert. */
  function SearchAlert(username: Option<string>, params: Params): Option<string>
  {
    if username.None? then Some(NOT_LOGGED_IN)
    else if AnyFilters(params) then None
    else Some(CHOOSE_FILTERS)
  }

  /** `search`. */
  function SearchPage(params: Params, session: Session, now: int, rows: Rows): Response
  {
    match session
    case Err(_) => Failed(UNAUTHORIZED, SESSION_ERROR)
    case Ok(username) =>
      var alert := SearchAlert(username, params);
      if username.Some? && AnyFilters(params) then
        var q := RunningJobs(Get(params, "state"), Get(params, "queue"), Get(params, "user"),
                             Get(params, "name"), Some(SinceFilter(now, Get(params, "date"))), false);
        match rows(q)
        case None => Failed(INTERNAL_SERVER_ERROR, QUERY_ERROR)
        case Some(jobs) => Shown(Page(username, "Active Jobs - NIU", "Search", alert, Some(q), Reverse(jobs)))
      else Shown(Page(username, "Active Jobs - NIU", "Search", alert, None, []))
  }

  /** The search page queries only for a logged-in caller who set at least
      one filter, and then uncensored with the window from `date`; otherwise
      it lists nothing. Its alert asks a logged-out caller to log in and a
      caller without filters to choose some. */
  lemma SearchPageSpec(params: Params, session: Session, now: int, rows: Rows)
    ensures var r := SearchPage(params, session, now, rows);
      && (session.Err? ==> r == Failed(UNAUTHORIZED, SESSION_ERROR))
      && (r.Shown? ==>
            && session.Ok? && r.page.username == session.value
            && (r.page.query.Some? <==> session.value.Some? && AnyFilters(params))
            && (r.page.query.None? ==> r.page.jobs == [])
            && (r.page.query.Some? ==>
                  && r.page.query.value.RunningJobs? && !r.page.query.value.censor
                  && r.page.query.value.owner == Get(params, "user")
                  && r.page.query.value.since == Some(SinceFilter(now, Get(params, "date")))
                  && rows(r.page.query.value).Some?
                  && Reverse(r.page.jobs) == rows(r.page.query.value).value)
            && (r.page.alert == Some(NOT_LOGGED_IN) <==> session.value.None?)
            && (r.page.alert == Some(CHOOSE_FILTERS) <==> session.value.Some? && !AnyFilters(params))
            && (r.page.alert.None? <==> session.value.Some? && AnyFilters(params)))
  {
    var r := SearchPage(params, session, now, rows);
    if r.Shown? && r.page.query.Some? {
      var jobs := rows(r.page.query.value).value;
      assert Reverse(Reverse(jobs)) == jobs;
    }
  }

  // ---------------------------------------------------------------------
  // completed

  /** `user_query`: the `user` parameter, else the logged-in user. */
  function UserQuery(params: Params, username: Option<string>): (u: Option<string>)
    ensures u.None? <==> "user" !in params && username.None?
  {
    if "user" in params then Some(params["user"]) else username
  }

  /** The completed page's header. */
  function CompletedHeader(userQuery: Option<string>, dateQuery: Option<string>): string
  {
    match userQuery
    case None => "Completed Jobs on Metis"
    case Some(user) =>
      "Completed Jobs for '" + user + "' on Metis (" + (if dateQuery.Some? then dateQuery.value else "month") + ")"
  }

  /** The header names the user between quotes and the window in
      parentheses, a month when no `date` is given. */
  lemma CompletedHeaderSpec(user: string, dateQuery: Option<string>)
    ensures var h := CompletedHeader(Some(user), dateQuery);
      var window := if dateQuery.Some? then dateQuery.value else "month";
      && StartsWith(h, "Completed Jobs for '")
      && h[|"Completed Jobs for '"|..][..|user|] == user
      && h[|h| - |window| - 1..] == window + ")"
      && CompletedHeader(None, dateQuery) == "Completed Jobs on Metis"
  {
  }

  /** `completed`. */
  function CompletedPage(params: Params, session: Session, now: int, rows: Rows): Response
  {
    match session
    case Err(_) => Failed(UNAUTHORIZED, SESSION_ERROR)
    case Ok(username) =>
      var userQuery := UserQuery(params, username);
      var dateQuery := Get(params, "date");
      var header := CompletedHeader(userQuery, dateQuery);
      var alert := if username.None? then Some(NOT_LOGGED_IN) else None;
      if username.Some? then
        var q := CompletedQuery(params, username.value, now);
        match rows(q)
        case None => Failed(INTERNAL_SERVER_ERROR, QUERY_ERROR)
        case Some(jobs) =>
          match WithReqNodes(jobs)
          case None => Panicked(NO_ENTRY)
          case Some(counted) =>
            Shown(Page(username, "Completed Jobs - NIU", header, alert, Some(q), Reverse(counted)))
      else Shown(Page(username, "Completed Jobs - NIU", header, alert, None, []))
  }

  /** The query of a logged-in caller's completed page. */
  function CompletedQuery(params: Params, username: string, now: int): Query
  {
    UserJobs(UserQuery(params, Some(username)).value, Some("E"), None, None, None,
             Some(SinceFilter(now, Get(params, "date"))))
  }

  /** A logged-out caller sees no jobs, the login alert and the header of
      the `user` parameter, if any. */
  lemma CompletedLoggedOut(params: Params, now: int, rows: Rows)
    ensures CompletedPage(params, Ok(None), now, rows)
      == Shown(Page(None, "Completed Jobs - NIU", CompletedHeader(Get(params, "user"), Get(params, "date")),
                    Some(NOT_LOGGED_IN), None, []))
  {
    assert UserQuery(params, None) == Get(params, "user");
  }

  /** A failing read of a logged-in caller's completed jobs is a 500. */
  lemma CompletedReadFails(params: Params, username: string, now: int, rows: Rows)
    requires rows(CompletedQuery(params, username, now)).None?
    ensures CompletedPage(params, Ok(Some(username)), now, rows) == Failed(INTERNAL_SERVER_ERROR, QUERY_ERROR)
  {
  }

  /** A completed job without `nodes` makes the page panic. */
  lemma CompletedMissingNodes(params: Params, username: string, now: int, rows: Rows)
    requires var jobs := rows(CompletedQuery(params, username, now));
      jobs.Some? && exists k :: 0 <= k < |jobs.value| && "nodes" !in jobs.value[k]
    ensures CompletedPage(params, Ok(Some(username)), now, rows) == Panicked(NO_ENTRY)
  {
  }

  /** Position `k` of the counted jobs, last row first. */
  lemma ReversedWithReqNodesAt(jobs: seq<Record>, k: int)
    requires WithReqNodes(jobs).Some? && 0 <= k < |jobs|
    ensures var job := jobs[|jobs| - 1 - k];
      "nodes" in job && Reverse(WithReqNodes(jobs).value)[k] == job["req_nodes" := ReqNodes(job["nodes"])]
  {
    var r := WithReqNodes(jobs).value;
    var i := |jobs| - 1 - k;
    assert "nodes" in jobs[i];
    assert r[i] == jobs[i]["req_nodes" := ReqNodes(jobs[i]["nodes"])];
    ReverseAt(r, k);
    assert Reverse(r)[k] == r[i];
  }

  /** The counted jobs, last row first. */
  lemma ReversedWithReqNodes(jobs: seq<Record>)
    requires WithReqNodes(jobs).Some?
    ensures var shown := Reverse(WithReqNodes(jobs).value);
      && |shown| == |jobs|
      && forall k :: 0 <= k < |shown| ==>
           var job := jobs[|shown| - 1 - k];
           "nodes" in job && shown[k] == job["req_nodes" := ReqNodes(job["nodes"])]
  {
    var shown := Reverse(WithReqNodes(jobs).value);
    forall k | 0 <= k < |shown|
      ensures var job := jobs[|shown| - 1 - k];
        "nodes" in job && shown[k] == job["req_nodes" := ReqNodes(job["nodes"])]
    {
      ReversedWithReqNodesAt(jobs, k);
    }
  }

  /** A shown completed page lists the read jobs last row first, each with
      its node count. */
  lemma CompletedShownJobs(params: Params, username: string, now: int, rows: Rows)
    requires CompletedPage(params, Ok(Some(username)), now, rows).Shown?
    ensures var page := CompletedPage(params, Ok(Some(username)), now, rows).page;
      var q := CompletedQuery(params, username, now);
      && page.query == Some(q) && page.alert.None?
      && page.header == CompletedHeader(Some(q.user), Get(params, "date"))
      && rows(q).Some? && |page.jobs| == |rows(q).value|
      && forall k :: 0 <= k < |page.jobs| ==>
           var job := rows(q).value[|page.jobs| - 1 - k];
           "nodes" in job && page.jobs[k] == job["req_nodes" := ReqNodes(job["nodes"])]
  {
    var q := CompletedQuery(params, username, now);
    var jobs := rows(q).value;
    assert CompletedPage(params, Ok(Some(username)), now, rows).page.jobs == Reverse(WithReqNodes(jobs).value);
    ReversedWithReqNodes(jobs);
  }

  /** A logged-in caller's completed page reads the ended jobs of the user
      it names (any user, through the `user` parameter) within the window,
      adds each job's node count and shows them last row first; a job
      without `nodes` makes the page panic. A logged-out caller sees an
      empty list and the login alert. */
  lemma CompletedPageSpec(params: Params, session: Session, now: int, rows: Rows)
    ensures var r := CompletedPage(params, session, now, rows);
      && (session.Err? ==> r == Failed(UNAUTHORIZED, SESSION_ERROR))
      && (session == Ok(None) ==>
            r == Shown(Page(None, "Completed Jobs - NIU", CompletedHeader(Get(params, "user"), Get(params, "date")),
                            Some(NOT_LOGGED_IN), None, [])))
      && (session.Ok? && session.value.Some? ==>
            var q := CompletedQuery(params, session.value.value, now);
            && (rows(q).None? ==> r == Failed(INTERNAL_SERVER_ERROR, QUERY_ERROR))
            && (rows(q).Some? && (exists k :: 0 <= k < |rows(q).value| && "nodes" !in rows(q).value[k]) ==>
                  r == Panicked(NO_ENTRY))
            && (r.Shown? ==>
                  && r.page.query == Some(q) && r.page.alert.None?
                  && r.page.header == CompletedHeader(Some(q.user), Get(params, "date"))
                  && |r.page.jobs| == |rows(q).value|
                  && forall k :: 0 <= k < |r.page.jobs| ==>
                       var job := rows(q).value[|r.page.jobs| - 1 - k];
                       "nodes" in job && r.page.jobs[k] == job["req_nodes" := ReqNodes(job["nodes"])]))
  {
    if session == Ok(None) {
      CompletedLoggedOut(params, now, rows);
    } else if session.Ok? {
      var username := session.value.value;
      var q := CompletedQuery(params, username, now);
      if rows(q).None? {
        CompletedReadFails(params, username, now, rows);
      } else if exists k :: 0 <= k < |rows(q).value| && "nodes" !in rows(q).value[k] {
        CompletedMissingNodes(params, username, now, rows);
      }
      if CompletedPage(params, session, now, rows).Shown? {
        CompletedShownJobs(params, username, now, rows);
      }
    }
  }
}
