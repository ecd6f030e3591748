/** The access decisions of the JSON handlers `jobs_handler`
    (`src/routes/jobs.rs`) and `stats_handler` (`src/routes/stats.rs`). A
    handler either answers with the rows of one database query, described
    by a `Query` value, or refuses with an HTTP status. The session store
    and the database predicates are inputs: `None` stands for a failing
    lookup. */
module ApiRoutes {
  import opened Wrappers
  import opened Numbers

  type Params = map<string, string>

  /** The database reads the routes issue, with their filter arguments. */
  datatype Query =
    | RunningJobs(state: Option<string>, queue: Option<string>, owner: Option<string>,
                  name: Option<string>, since: Option<string>, censor: bool)
    | UserJobs(user: string, state: Option<string>, queue: Option<string>, owner: Option<string>,
               name: Option<string>, since: Option<string>)
    | GroupJobs(state: Option<string>, queue: Option<string>, owner: Option<string>,
                name: Option<string>, group: string)
    | JobStats(id: int)

  /** What the database answers: the predicates (`None` when the lookup
      fails) and whether a query fails. */
  datatype Backend = Backend(
    isAdmin: string -> Option<bool>,
    inGroup: (string, string) -> Option<bool>,
    canViewStats: (string, int) -> Option<bool>,
    fails: Query -> bool)

  datatype Reply = Rows(query: Query) | Refused(status: int, message: string)

  const BAD_REQUEST: int := 400
  const UNAUTHORIZED: int := 401
  const INTERNAL_SERVER_ERROR: int := 500

  /** The session's user name: `Err` when the session store fails, `None`
      when nobody is logged in. */
  type Session = Result<Option<string>>

  /** A query's rows, or the 500 reply when it fails. */
  function Run(q: Query, db: Backend, message: string): (r: Reply)
    ensures r == Rows(q) <==> !db.fails(q)
    ensures r.Refused? ==> r.status == INTERNAL_SERVER_ERROR
  {
    if db.fails(q) then Refused(INTERNAL_SERVER_ERROR, message) else Rows(q)
  }

  // ---------------------------------------------------------------------
  // jobs_handler

  /** The handler for a caller who is not logged in: the censored list is
      read first, without the state and owner filters, and only then are
      the `user` and `group` parameters refused. */
  function AnonymousJobs(params: Params, db: Backend): Reply
  {
    var q := RunningJobs(None, Get(params, "queue"), None, Get(params, "name"), None, true);
    if db.fails(q) then Refused(INTERNAL_SERVER_ERROR, "Couldn't get all jobs!")
    else if "user" in params then
      Refused(UNAUTHORIZED, "Not authorized to see someone else's jobs without logging in!")
    else if "group" in params then
      Refused(UNAUTHORIZED, "Not authorized to see group jobs without logging in!")
    else Rows(q)
  }

  /** The handler for a logged-in caller whose admin flag is known. */
  function MemberJobs(params: Params, username: string, admin: bool, db: Backend): Reply
  {
    var state, queue, owner, name :=
      Get(params, "state"), Get(params, "queue"), Get(params, "owner"), Get(params, "name");
    if "user" in params then
      var user := params["user"];
      if user == username || admin then
        Run(UserJobs(user, state, queue, owner, name, None), db,
            "Couldn't get jobs for user " + user + "!")
      else Refused(UNAUTHORIZED, "Not authorized to see someone else's jobs!")
    else if "group" in params then
      var group := params["group"];
      var member := if admin then Some(true) else db.inGroup(username, group);
      if member.None? then Refused(INTERNAL_SERVER_ERROR, "Couldn't check if user is in group!")
      else if !member.value then Refused(UNAUTHORIZED, "Not authorized to see jobs in this group!")
      else Run(GroupJobs(state, queue, owner, name, group), db, "Couldn't get jobs for group " + group + "!")
    else
      Run(RunningJobs(state, queue, if admin then owner else None, name, None, !admin), db,
          "Couldn't get all jobs!")
  }

  /** `jobs_handler`. */
  function JobsHandler(params: Params, session: Session, db: Backend): Reply
  {
    match session
    case Err(_) => Refused(UNAUTHORIZED, "Couldn't get username from session!")
    case Ok(None) => AnonymousJobs(params, db)
    case Ok(Some(username)) =>
      match db.isAdmin(username)
      case None => Refused(INTERNAL_SERVER_ERROR, "Couldn't check if user is admin!")
      case Some(admin) => MemberJobs(params, username, admin, db)
  }

  /** Without a login, the only list ever shown is the censored one without
      state or owner filter; a `user` or `group` parameter is refused with
      401, but a failing read answers 500 before the parameters are looked
      at. */
  lemma AnonymousJobsSpec(params: Params, db: Backend)
    ensures var q := RunningJobs(None, Get(params, "queue"), None, Get(params, "name"), None, true);
      var r := JobsHandler(params, Ok(None), db);
      && (db.fails(q) ==> r.Refused? && r.status == INTERNAL_SERVER_ERROR)
      && (!db.fails(q) && ("user" in params || "group" in params) ==> r.Refused? && r.status == UNAUTHORIZED)
      && (r.Rows? <==> !db.fails(q) && "user" !in params && "group" !in params)
      && (r.Rows? ==> r.query == q)
  {
  }

  /** Who may see what: a user's jobs are listed only to that user or to an
      admin, a group's jobs only to an admin or a member, and an uncensored
      list or an owner filter only to an admin. */
  lemma JobsAccess(params: Params, session: Session, db: Backend)
    ensures var r := JobsHandler(params, session, db);
      r.Rows? ==>
        match r.query
        case UserJobs(user, _, _, _, _, _) =>
          session.Ok? && session.value.Some?
          && (user == session.value.value || db.isAdmin(session.value.value) == Some(true))
        case GroupJobs(_, _, _, _, group) =>
          session.Ok? && session.value.Some?
          && (db.isAdmin(session.value.value) == Some(true)
              || db.inGroup(session.value.value, group) == Some(true))
        case RunningJobs(_, _, owner, _, _, censor) =>
          (!censor || owner.Some?) ==> session.Ok? && session.value.Some? && db.isAdmin(session.value.value) == Some(true)
        case JobStats(_) => false
  {
  }

  /** A `user` parameter is decided before any `group` parameter: when it is
      present, group jobs are never listed and group membership plays no
      part. */
  lemma UserParamFirst(params: Params, username: string, db: Backend)
    requires "user" in params
    requires db.isAdmin(username).Some?
    ensures var r := JobsHandler(params, Ok(Some(username)), db);
      && !(r.Rows? && r.query.GroupJobs?)
      && (r.Rows? <==> (params["user"] == username || db.isAdmin(username) == Some(true))
                       && !db.fails(UserJobs(params["user"], Get(params, "state"), Get(params, "queue"),
                                             Get(params, "owner"), Get(params, "name"), None)))
      && (params["user"] != username && db.isAdmin(username) == Some(false) ==>
            r == Refused(UNAUTHORIZED, "Not authorized to see someone else's jobs!"))
  {
  }

  /** With a `group` parameter and no `user` parameter: a non-admin who is
      not a member is refused with 401, an admin is never asked about
      membership, and otherwise the group's jobs are read with all four
      filters. */
  lemma GroupParam(params: Params, username: string, db: Backend)
    requires "group" in params && "user" !in params
    requires db.isAdmin(username).Some?
    ensures var r := JobsHandler(params, Ok(Some(username)), db);
      var admin := db.isAdmin(username).value;
      var group := params["group"];
      var q := GroupJobs(Get(params, "state"), Get(params, "queue"), Get(params, "owner"),
                         Get(params, "name"), group);
      && (!admin && db.inGroup(username, group) == Some(false) ==> r.Refused? && r.status == UNAUTHORIZED)
      && ((admin || db.inGroup(username, group) == Some(true)) ==> r == Run(q, db, "Couldn't get jobs for group " + group + "!"))
      && (admin ==> forall other: Backend :: other.isAdmin == db.isAdmin && other.fails == db.fails ==>
            JobsHandler(params, Ok(Some(username)), other) == r)
  {
  }

  /** Without `user` and `group` parameters, a logged-in caller gets the
      list of all jobs; the owner filter is passed only for an admin, and
      the list is censored exactly when the caller is not an admin. */
  lemma DefaultList(params: Params, username: string, db: Backend)
    requires "group" !in params && "user" !in params
    requires db.isAdmin(username).Some?
    ensures var r := JobsHandler(params, Ok(Some(username)), db);
      var admin := db.isAdmin(username).value;
      r.Rows? ==>
        && r.query.RunningJobs?
        && (r.query.censor <==> !admin)
        && r.query.owner == (if admin then Get(params, "owner") else None)
        && r.query.state == Get(params, "state") && r.query.queue == Get(params, "queue")
        && r.query.name == Get(params, "name")
  {
  }

  // ---------------------------------------------------------------------
  // stats_handler

  /** `stats_handler`. */
  function StatsHandler(params: Params, session: Session, db: Backend): Reply
  {
    match session
    case Err(_) => Refused(UNAUTHORIZED, "Couldn't get username from session!")
    case Ok(None) => Refused(UNAUTHORIZED, "Not authorized to see stats without logging in!")
    case Ok(Some(username)) =>
      if "id" !in params then Refused(BAD_REQUEST, "Invalid query parameters!")
      else
        match ParseI32(params["id"])
        case None => Refused(BAD_REQUEST, "Invalid ID!")
        case Some(id) =>
          match db.canViewStats(username, id)
          case None => Refused(INTERNAL_SERVER_ERROR, "Couldn't check if user can view stats!")
          case Some(false) => Refused(UNAUTHORIZED, "Not authorized to see stats for this job!")
          case Some(true) => Run(JobStats(id), db, "Couldn't get stats for user " + IntToString(id) + "!")
  }

  /** Stats are listed exactly for a logged-in caller, an `id` that parses as
      an `i32`, and a caller allowed to see that job's stats; a missing or
      malformed `id` is a 400, a refused permission a 401 without any read
      of the stats. */
  lemma StatsAccess(params: Params, session: Session, db: Backend)
    ensures var r := StatsHandler(params, session, db);
      && (r.Rows? <==>
            session.Ok? && session.value.Some? && "id" in params && ParseI32(params["id"]).Some?
            && db.canViewStats(session.value.value, ParseI32(params["id"]).value) == Some(true)
            && !db.fails(JobStats(ParseI32(params["id"]).value)))
      && (r.Rows? ==> r.query == JobStats(ParseI32(params["id"]).value))
      && (session.Ok? && session.value.None? ==> r.Refused? && r.status == UNAUTHORIZED)
      && (session.Ok? && session.value.Some? && "id" !in params ==> r == Refused(BAD_REQUEST, "Invalid query parameters!"))
      && (session.Ok? && session.value.Some? && "id" in params && ParseI32(params["id"]).None? ==>
            r == Refused(BAD_REQUEST, "Invalid ID!"))
      && (session.Ok? && session.value.Some? && "id" in params && ParseI32(params["id"]).Some?
          && db.canViewStats(session.value.value, ParseI32(params["id"]).value) == Some(false) ==>
            r == Refused(UNAUTHORIZED, "Not authorized to see stats for this job!"))
  {
  }
}
