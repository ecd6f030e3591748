/** The pure part of `grab_group_thread` (`src/daemons/groups.rs`): the
    output of `groups <user>` is read for the user's groups, and each
    membership is written to the store in turn. */
module GroupsDaemon {
  import opened Wrappers
  import opened Text
  import opened Store

  const SEPARATOR: string := " : "

  /** The groups named by `groups <user>`: the whitespace-separated words
      after the first ` : ` (up to a second one). */
  function GroupNames(output: string): Result<seq<string>>
  {
    match SecondField(output, SEPARATOR)
    case None => Err(Error("Invalid output from the `groups` command!"))
    case Some(section) => Ok(Tokens(section, IsUnicodeSpace))
  }

  /** The output is rejected exactly when it has no ` : `; otherwise every
      group is a non-empty word without whitespace, read from the text
      between the first ` : ` and the next one. */
  lemma GroupNamesSpec(output: string)
    ensures GroupNames(output).Err? <==> !Contains(output, SEPARATOR)
    ensures GroupNames(output).Ok? ==>
      var rest := output[Find(output, SEPARATOR).value + |SEPARATOR|..];
      var section := if Find(rest, SEPARATOR).None? then rest else rest[..Find(rest, SEPARATOR).value];
      && GroupNames(output).value == Tokens(section, IsUnicodeSpace)
      && forall k :: 0 <= k < |GroupNames(output).value| ==> IsToken(GroupNames(output).value[k], IsUnicodeSpace)
  {
    SplitCount(output, SEPARATOR);
    if Contains(output, SEPARATOR) {
      SecondPiece(output, SEPARATOR);
      TokensSpec(Split(output, SEPARATOR)[1], IsUnicodeSpace);
    }
  }

  /** The groups of a `user : g1 g2 ...` line are read back exactly, for a
      user name without spaces and group names without whitespace or
      colons. */
  lemma GroupNamesRoundTrip(user: string, groups: seq<string>)
    requires ' ' !in user
    requires forall k :: 0 <= k < |groups| ==> IsToken(groups[k], IsUnicodeSpace) && ':' !in groups[k]
    ensures GroupNames(user + SEPARATOR + Join(groups, " ")) == Ok(groups)
  {
    var line := Join(groups, " ");
    var output := user + SEPARATOR + line;
    FindAfterPrefix(user, SEPARATOR, line);
    SecondPiece(output, SEPARATOR);
    assert output[|user| + |SEPARATOR|..] == line;
    TokensOfJoin(groups, IsUnicodeSpace);
    JoinLacks(groups, " ", ':');
    FindMissingChar(line, SEPARATOR, 1);
  }

  /** What the write of one membership does: `None` when the database
      accepts it, or the reason it is refused. */
  type Rejects = string -> Option<string>

  /** The store after the memberships of `user` in `groups` were written in
      order, stopping at the first refusal. */
  function GroupsStep(t: Tables, user: string, groups: seq<string>, rejects: Rejects): Step
    decreases |groups|
  {
    if groups == [] then Step(t, Ok(()))
    else
      var s := GroupsStep(t, user, groups[..|groups| - 1], rejects);
      var group := groups[|groups| - 1];
      if s.outcome.Err? then s
      else if rejects(group).Some? then
        Step(s.after, Err(Error("Couldn't insert user " + user + " into group " + group + "!")))
      else
        Step(s.after.(groups := s.after.groups + {group},
                      memberships := s.after.memberships + {(user, group)}), Ok(()))
  }

  /** The groups of a list, and the memberships they give `user`, grow by
      the last group. */
  lemma GroupSetsSnoc(user: string, groups: seq<string>)
    requires groups != []
    ensures var n := |groups| - 1;
      && (set k | 0 <= k < |groups| :: groups[k]) == (set k | 0 <= k < n :: groups[..n][k]) + {groups[n]}
      && (set k | 0 <= k < |groups| :: (user, groups[k]))
           == (set k | 0 <= k < n :: (user, groups[..n][k])) + {(user, groups[n])}
  {
    var n := |groups| - 1;
    assert forall k :: 0 <= k < n ==> groups[..n][k] == groups[k];
  }

  /** Writing memberships succeeds exactly when no group is refused; then
      the user belongs to every group, and only groups and memberships were
      added: nothing else changes, and nothing is removed. */
  lemma {:induction false} GroupsStepSpec(t: Tables, user: string, groups: seq<string>, rejects: Rejects)
    ensures var s := GroupsStep(t, user, groups, rejects);
      && (s.outcome.Ok? <==> forall k :: 0 <= k < |groups| ==> rejects(groups[k]).None?)
      && s.after.users == t.users && s.after.jobs == t.jobs && s.after.stats == t.stats
      && t.groups <= s.after.groups && t.memberships <= s.after.memberships
      && (s.outcome.Ok? ==> s.after.groups == t.groups + set k | 0 <= k < |groups| :: groups[k])
      && (s.outcome.Ok? ==> s.after.memberships == t.memberships + set k | 0 <= k < |groups| :: (user, groups[k]))
    decreases |groups|
  {
    if groups != [] {
      var n := |groups| - 1;
      var init := groups[..n];
      GroupsStepSpec(t, user, init, rejects);
      assert forall k :: 0 <= k < n ==> init[k] == groups[k];
      GroupSetsSnoc(user, groups);
    }
  }

  /** Once a prefix of the groups is refused, the longer lists stop at the
      same place. */
  lemma {:induction false} GroupsFailureSticks(t: Tables, user: string, groups: seq<string>, rejects: Rejects, i: nat)
    requires i <= |groups|
    requires GroupsStep(t, user, groups[..i], rejects).outcome.Err?
    ensures GroupsStep(t, user, groups, rejects) == GroupsStep(t, user, groups[..i], rejects)
    decreases |groups| - i
  {
    if i < |groups| {
      assert groups[..i + 1][..i] == groups[..i];
      GroupsFailureSticks(t, user, groups, rejects, i + 1);
    } else {
      assert groups[..i] == groups;
    }
  }

  /** The write of group `i` after the first `i` were accepted. */
  lemma GroupsStepAt(t: Tables, user: string, groups: seq<string>, rejects: Rejects, i: nat)
    requires i < |groups|
    requires GroupsStep(t, user, groups[..i], rejects).outcome.Ok?
    ensures var after := GroupsStep(t, user, groups[..i], rejects).after;
      var group := groups[i];
      GroupsStep(t, user, groups[..i + 1], rejects)
        == if rejects(group).Some? then Step(after, Err(Error("Couldn't insert user " + user + " into group " + group + "!")))
           else Step(after.(groups := after.groups + {group}, memberships := after.memberships + {(user, group)}), Ok(()))
  {
    assert groups[..i + 1][..i] == groups[..i];
    assert groups[..i + 1][i] == groups[i];
  }

  /** One pass of `grab_group_thread` for `user` on the output of `groups`
      (or the error of the remote command). */
  function GroupThreadStep(t: Tables, user: string, output: Result<string>, rejects: Rejects): Step
  {
    if output.Err? then Step(t, WithContext(output, "[ ERROR ] Failed to run remote command!").PropagateFailure())
    else
      match GroupNames(output.value)
      case Err(f) => Step(t, Err(f))
      case Ok(groups) => GroupsStep(t, user, groups, rejects)
  }

  method GrabGroups(db: Db, user: string, output: Result<string>, rejects: Rejects) returns (r: Result<()>)
    modifies db
    ensures Step(db.Contents(), r) == GroupThreadStep(old(db.Contents()), user, output, rejects)
  {
    if output.Err? {
      return WithContext(output, "[ ERROR ] Failed to run remote command!").PropagateFailure();
    }
    var groups := GroupNames(output.value);
    if groups.Err? {
      return groups.PropagateFailure();
    }
    var names := groups.value;
    ghost var t := db.Contents();
    assert GroupThreadStep(t, user, output, rejects) == GroupsStep(t, user, names, rejects);
    for i := 0 to |names|
      invariant GroupsStep(t, user, names[..i], rejects) == Step(db.Contents(), Ok(()))
    {
      GroupsStepAt(t, user, names, rejects, i);
      var group := names[i];
      var inserted := db.InsertUserGroup(user, group, rejects(group));
      if inserted.Err? {
        r := WithContext(inserted, "Couldn't insert user " + user + " into group " + group + "!");
        GroupsFailureSticks(t, user, names, rejects, i + 1);
        return;
      }
    }
    assert names[..|names|] == names;
    r := Ok(());
  }
}
