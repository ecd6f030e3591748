/** `sort_jobs` (`src/routes/pages/mod.rs`): the job list of a page is
    sorted in place by the string value of one field, stably, and then
    reversed in place on request. */
module JobSorting {
  import opened Wrappers
  import opened Text
  import opened Numbers

  type Record = map<string, string>

  /** The sort key of a job: the field's value, "0" when it is missing. */
  function SortKey(job: Record, field: string): string
  {
    if field in job then job[field] else "0"
  }

  /** The field to sort by: "pbs_id" by default, and also when a caller who
      is not logged in asks for "owner". An anonymous caller never sorts by
      owner, the field is always the default or the one asked for, and any
      other request is honoured. */
  function SortField(sortQuery: Option<string>, authenticated: bool): (field: string)
    ensures !authenticated ==> field != "owner"
    ensures field == "pbs_id" || sortQuery == Some(field)
    ensures sortQuery.None? ==> field == "pbs_id"
    ensures sortQuery.Some? && (authenticated || sortQuery.value != "owner") ==> field == sortQuery.value
  {
    match sortQuery
    case None => "pbs_id"
    case Some(q) => if !authenticated && q == "owner" then "pbs_id" else q
  }

  /** Whether to reverse: only a query that parses as the boolean `true`. */
  function Reversing(reverseQuery: Option<string>): (reverse: bool)
    ensures reverse <==> reverseQuery == Some("true")
  {
    match reverseQuery
    case None => false
    case Some(q) => ParseBool(q) == Some(true)
  }

  /** Non-decreasing by the key of `field`. */
  predicate Ascending(js: seq<Record>, field: string)
  {
    forall i, j :: 0 <= i < j < |js| ==> LexLe(SortKey(js[i], field), SortKey(js[j], field))
  }

  /** Non-increasing by the key of `field`. */
  predicate Descending(js: seq<Record>, field: string)
  {
    forall i, j :: 0 <= i < j < |js| ==> LexLe(SortKey(js[j], field), SortKey(js[i], field))
  }

  /** `job` placed into `js` after every job whose key is not greater than
      its own, scanning from the back: where one step of a stable insertion
      sort puts it. */
  function Insert(js: seq<Record>, job: Record, field: string): (r: seq<Record>)
    decreases |js|
  {
    if js == [] then [job]
    else if LexLe(SortKey(js[|js| - 1], field), SortKey(job, field)) then js + [job]
    else Insert(js[..|js| - 1], job, field) + [js[|js| - 1]]
  }

  /** The stable sort of `js` by the key of `field`. */
  function Sort(js: seq<Record>, field: string): (r: seq<Record>)
    decreases |js|
  {
    if js == [] then []
    else Insert(Sort(js[..|js| - 1], field), js[|js| - 1], field)
  }

  /** What `sort_jobs` leaves in the vector. */
  function SortJobs(js: seq<Record>, sortQuery: Option<string>, reverseQuery: Option<string>,
                    authenticated: bool): seq<Record>
  {
    if sortQuery.None? && reverseQuery.None? then js
    else
      var sorted := Sort(js, SortField(sortQuery, authenticated));
      if Reversing(reverseQuery) then Reverse(sorted) else sorted
  }

  // ---------------------------------------------------------------------
  // The sort is a permutation, ordered and stable

  lemma {:induction false} InsertPermutes(js: seq<Record>, job: Record, field: string)
    ensures multiset(Insert(js, job, field)) == multiset(js) + multiset{job}
    decreases |js|
  {
    if js == [] {
      assert Insert(js, job, field) == [job];
    } else {
      var n := |js| - 1;
      assert js == js[..n] + [js[n]];
      if LexLe(SortKey(js[n], field), SortKey(job, field)) {
        assert Insert(js, job, field) == js + [job];
      } else {
        var init := Insert(js[..n], job, field);
        assert Insert(js, job, field) == init + [js[n]];
        InsertPermutes(js[..n], job, field);
        assert multiset(init + [js[n]]) == multiset(init) + multiset{js[n]};
        assert multiset(js) == multiset(js[..n]) + multiset{js[n]};
      }
    }
  }

  /** A non-empty sequence holds what its prefix holds and its last job. */
  lemma LastSplit(js: seq<Record>)
    requires js != []
    ensures multiset(js) == multiset(js[..|js| - 1]) + multiset{js[|js| - 1]}
  {
    assert js == js[..|js| - 1] + [js[|js| - 1]];
  }

  /** `sort_jobs` output is a permutation of its input. */
  lemma {:induction false} SortPermutes(js: seq<Record>, field: string)
    ensures multiset(Sort(js, field)) == multiset(js)
    decreases |js|
  {
    if js != [] {
      var n := |js| - 1;
      var sorted := Sort(js[..n], field);
      assert Sort(js, field) == Insert(sorted, js[n], field);
      SortPermutes(js[..n], field);
      InsertPermutes(sorted, js[n], field);
      LastSplit(js);
    }
  }

  /** Every key of `js` is at most `bound`. */
  predicate AllAtMost(js: seq<Record>, field: string, bound: string)
  {
    forall i :: 0 <= i < |js| ==> LexLe(SortKey(js[i], field), bound)
  }

  /** In an ascending sequence every key is at most the last one. */
  lemma AscendingAtMostLast(js: seq<Record>, field: string, bound: string)
    requires js != [] && Ascending(js, field)
    requires LexLe(SortKey(js[|js| - 1], field), bound)
    ensures AllAtMost(js, field, bound)
  {
    forall i | 0 <= i < |js|
      ensures LexLe(SortKey(js[i], field), bound)
    {
      if i < |js| - 1 {
        LexLeTransitive(SortKey(js[i], field), SortKey(js[|js| - 1], field), bound);
      }
    }
  }

  /** An ascending sequence stays ascending when a job with a key at least
      every key of it is appended. */
  lemma AscendingSnoc(js: seq<Record>, job: Record, field: string)
    requires Ascending(js, field) && AllAtMost(js, field, SortKey(job, field))
    ensures Ascending(js + [job], field)
  {
    var r := js + [job];
    forall i, j | 0 <= i < j < |r|
      ensures LexLe(SortKey(r[i], field), SortKey(r[j], field))
    {
      assert r[i] == js[i];
      if j < |js| {
        assert r[j] == js[j];
      }
    }
  }

  /** A prefix of a sequence whose keys are bounded is bounded. */
  lemma AtMostInit(js: seq<Record>, field: string, bound: string)
    requires js != [] && AllAtMost(js, field, bound)
    ensures AllAtMost(js[..|js| - 1], field, bound)
    ensures LexLe(SortKey(js[|js| - 1], field), bound)
  {
    var init := js[..|js| - 1];
    forall i | 0 <= i < |init|
      ensures LexLe(SortKey(init[i], field), bound)
    {
      assert init[i] == js[i];
    }
  }

  /** Inserting a job whose key is bounded keeps every key bounded. */
  lemma {:induction false} InsertAtMost(js: seq<Record>, job: Record, field: string, bound: string)
    requires AllAtMost(js, field, bound) && LexLe(SortKey(job, field), bound)
    ensures AllAtMost(Insert(js, job, field), field, bound)
    decreases |js|
  {
    if js == [] {
      assert Insert(js, job, field) == [job];
    } else {
      var n := |js| - 1;
      AtMostInit(js, field, bound);
      if LexLe(SortKey(js[n], field), SortKey(job, field)) {
        assert Insert(js, job, field) == js + [job];
        AtMostSnoc(js, job, field, bound);
      } else {
        var init := Insert(js[..n], job, field);
        assert Insert(js, job, field) == init + [js[n]];
        InsertAtMost(js[..n], job, field, bound);
        AtMostSnoc(init, js[n], field, bound);
      }
    }
  }

  /** Appending a job with a bounded key keeps every key bounded. */
  lemma AtMostSnoc(js: seq<Record>, job: Record, field: string, bound: string)
    requires AllAtMost(js, field, bound) && LexLe(SortKey(job, field), bound)
    ensures AllAtMost(js + [job], field, bound)
  {
    var r := js + [job];
    forall i | 0 <= i < |r|
      ensures LexLe(SortKey(r[i], field), bound)
    {
      if i < |js| {
        assert r[i] == js[i];
      }
    }
  }

  /** An ascending prefix of an ascending sequence. */
  lemma AscendingInit(js: seq<Record>, field: string)
    requires js != [] && Ascending(js, field)
    ensures Ascending(js[..|js| - 1], field)
  {
    var init := js[..|js| - 1];
    forall i, j | 0 <= i < j < |init|
      ensures LexLe(SortKey(init[i], field), SortKey(init[j], field))
    {
      assert init[i] == js[i] && init[j] == js[j];
    }
  }

  lemma {:induction false} InsertAscending(js: seq<Record>, job: Record, field: string)
    requires Ascending(js, field)
    ensures Ascending(Insert(js, job, field), field)
    decreases |js|
  {
    if js == [] {
      assert Insert(js, job, field) == [job];
    } else {
      var n := |js| - 1;
      var last := js[n];
      if LexLe(SortKey(last, field), SortKey(job, field)) {
        assert Insert(js, job, field) == js + [job];
        AscendingAtMostLast(js, field, SortKey(job, field));
        AscendingSnoc(js, job, field);
      } else {
        var init := Insert(js[..n], job, field);
        assert Insert(js, job, field) == init + [last];
        AscendingInit(js, field);
        InsertAscending(js[..n], job, field);
        LexLeTotal(SortKey(last, field), SortKey(job, field));
        LexLeTotal(SortKey(last, field), SortKey(last, field));
        AscendingAtMostLast(js, field, SortKey(last, field));
        AtMostInit(js, field, SortKey(last, field));
        InsertAtMost(js[..n], job, field, SortKey(last, field));
        AscendingSnoc(init, last, field);
      }
    }
  }

  /** Without reverse, keys are in non-decreasing lexicographic order. */
  lemma {:induction false} SortAscending(js: seq<Record>, field: string)
    ensures Ascending(Sort(js, field), field)
    decreases |js|
  {
    if js != [] {
      var n := |js| - 1;
      SortAscending(js[..n], field);
      InsertAscending(Sort(js[..n], field), js[n], field);
    }
  }

  /** The jobs of `js` whose key is `key`, in order. */
  function WithKey(js: seq<Record>, field: string, key: string): seq<Record>
    decreases |js|
  {
    if js == [] then []
    else WithKey(js[..|js| - 1], field, key)
         + (if SortKey(js[|js| - 1], field) == key then [js[|js| - 1]] else [])
  }

  lemma {:induction false} WithKeyAppend(a: seq<Record>, b: seq<Record>, field: string, key: string)
    ensures WithKey(a + b, field, key) == WithKey(a, field, key) + WithKey(b, field, key)
    decreases |b|
  {
    if b == [] {
      assert a + b == a;
    } else {
      var n := |b| - 1;
      WithKeyAppend(a, b[..n], field, key);
      AppendInit(a, b);
      assert WithKey(a + b, field, key)
        == WithKey(a + b[..n], field, key) + (if SortKey(b[n], field) == key then [b[n]] else []);
    }
  }

  /** Dropping the last element of `a + b`, for a non-empty `b`. */
  lemma AppendInit(a: seq<Record>, b: seq<Record>)
    requires b != []
    ensures (a + b)[..|a + b| - 1] == a + b[..|b| - 1]
    ensures (a + b)[|a + b| - 1] == b[|b| - 1]
  {
  }

  lemma WithKeySingle(job: Record, field: string, key: string)
    ensures WithKey([job], field, key) == if SortKey(job, field) == key then [job] else []
  {
    assert [job][..0] == [];
  }

  lemma {:induction false} InsertStable(js: seq<Record>, job: Record, field: string, key: string)
    ensures WithKey(Insert(js, job, field), field, key)
      == WithKey(js, field, key) + (if SortKey(job, field) == key then [job] else [])
    decreases |js|
  {
    WithKeySingle(job, field, key);
    if js == [] {
      assert Insert(js, job, field) == [job];
      assert WithKey(js, field, key) == [];
    } else {
      var n := |js| - 1;
      var last := js[n];
      if LexLe(SortKey(last, field), SortKey(job, field)) {
        assert Insert(js, job, field) == js + [job];
        WithKeyAppend(js, [job], field, key);
      } else {
        // The job moved in front of `last` has a different key.
        if SortKey(last, field) == SortKey(job, field) {
          LexLeTotal(SortKey(last, field), SortKey(job, field));
        }
        var init := Insert(js[..n], job, field);
        assert Insert(js, job, field) == init + [last];
        InsertStable(js[..n], job, field, key);
        WithKeySingle(last, field, key);
        assert WithKey(js, field, key) == WithKey(js[..n], field, key) + WithKey([last], field, key);
        MovedPast(init, js[..n], last, job, field, key);
      }
    }
  }

  /** A job with a key other than `job`'s, appended after `job` has been
      placed, adds to the jobs with each key what it adds without `job`. */
  lemma MovedPast(init: seq<Record>, rest: seq<Record>, last: Record, job: Record, field: string, key: string)
    requires SortKey(last, field) != SortKey(job, field)
    requires WithKey(init, field, key) == WithKey(rest, field, key) + (if SortKey(job, field) == key then [job] else [])
    ensures WithKey(init + [last], field, key)
      == WithKey(rest, field, key) + WithKey([last], field, key) + (if SortKey(job, field) == key then [job] else [])
  {
    WithKeyAppend(init, [last], field, key);
    WithKeySingle(last, field, key);
    SwapEmpty(WithKey(rest, field, key), if SortKey(job, field) == key then [job] else [], WithKey([last], field, key));
  }

  /** Two sequences of which one is empty can be appended in either order. */
  lemma SwapEmpty(a: seq<Record>, x: seq<Record>, y: seq<Record>)
    requires x == [] || y == []
    ensures a + x + y == a + y + x
  {
    if x == [] {
      assert a + x == a;
      assert a + y + x == a + y;
    } else {
      assert a + x + y == a + x;
      assert a + y == a;
    }
  }

  /** The sort is stable: the jobs with any one key keep their relative
      order. */
  lemma {:induction false} SortStable(js: seq<Record>, field: string, key: string)
    ensures WithKey(Sort(js, field), field, key) == WithKey(js, field, key)
    decreases |js|
  {
    if js != [] {
      var n := |js| - 1;
      SortStable(js[..n], field, key);
      InsertStable(Sort(js[..n], field), js[n], field, key);
    }
  }

  lemma ReversePermutes(js: seq<Record>)
    ensures multiset(Reverse(js)) == multiset(js)
  {
    var r := Reverse(js);
    if js != [] {
      var n := |js| - 1;
      assert Reverse(js) == [js[n]] + Reverse(js[..n]);
      ReversePermutes(js[..n]);
      assert js == js[..n] + [js[n]];
    }
  }

  /** With reverse, keys are in non-increasing order. */
  lemma ReverseDescending(js: seq<Record>, field: string)
    requires Ascending(js, field)
    ensures Descending(Reverse(js), field)
  {
    var r := Reverse(js);
    forall i, j | 0 <= i < j < |r|
      ensures LexLe(SortKey(r[j], field), SortKey(r[i], field))
    {
      assert r[i] == js[|js| - 1 - i] && r[j] == js[|js| - 1 - j];
    }
  }

  /** `sort_jobs` in one statement: the vector is untouched when neither
      query is given; otherwise it is a permutation of its input, ordered by
      the chosen field (ascending, or descending on reverse), and without
      reverse the jobs with equal keys keep their input order. */
  lemma SortJobsSpec(js: seq<Record>, sortQuery: Option<string>, reverseQuery: Option<string>,
                     authenticated: bool, key: string)
    ensures sortQuery.None? && reverseQuery.None? ==> SortJobs(js, sortQuery, reverseQuery, authenticated) == js
    ensures multiset(SortJobs(js, sortQuery, reverseQuery, authenticated)) == multiset(js)
    ensures var field := SortField(sortQuery, authenticated);
      var r := SortJobs(js, sortQuery, reverseQuery, authenticated);
      (sortQuery.Some? || reverseQuery.Some?) ==>
        && (!Reversing(reverseQuery) ==> Ascending(r, field) && WithKey(r, field, key) == WithKey(js, field, key))
        && (Reversing(reverseQuery) ==> Descending(r, field))
  {
    var field := SortField(sortQuery, authenticated);
    SortPermutes(js, field);
    SortAscending(js, field);
    SortStable(js, field, key);
    ReversePermutes(Sort(js, field));
    ReverseDescending(Sort(js, field), field);
  }

  // ---------------------------------------------------------------------
  // The in-place algorithm

  /** Where a scan from the back stops, after passing only greater keys,
      is where `Insert` puts the job. */
  lemma {:induction false} InsertWhereScanStops(s: seq<Record>, j: nat, job: Record, field: string)
    requires j <= |s|
    requires forall k :: j <= k < |s| ==> !LexLe(SortKey(s[k], field), SortKey(job, field))
    requires j == 0 || LexLe(SortKey(s[j - 1], field), SortKey(job, field))
    ensures Insert(s, job, field) == s[..j] + [job] + s[j..]
    decreases |s|
  {
    if j < |s| {
      var n := |s| - 1;
      var init := s[..n];
      assert !LexLe(SortKey(s[n], field), SortKey(job, field));
      assert Insert(s, job, field) == Insert(init, job, field) + [s[n]];
      PrefixOfInit(s, j);
      InsertWhereScanStops(init, j, job, field);
      Regroup(s, j, job);
    } else if s == [] {
      assert Insert(s, job, field) == [job];
      assert s[..j] == [] && s[j..] == [];
    } else {
      assert Insert(s, job, field) == s + [job];
      assert s[..j] == s && s[j..] == [];
    }
  }

  /** What the prefix of `s` without its last element holds. */
  lemma PrefixOfInit(s: seq<Record>, j: nat)
    requires j < |s|
    ensures s[..|s| - 1][..j] == s[..j]
    ensures forall k :: j <= k < |s| - 1 ==> s[..|s| - 1][k] == s[k]
    ensures j > 0 ==> s[..|s| - 1][j - 1] == s[j - 1]
  {
  }

  /** `s` cut at `j` with `job` in between, written from its last element. */
  lemma Regroup(s: seq<Record>, j: nat, job: Record)
    requires j < |s|
    ensures s[..|s| - 1][..j] + [job] + s[..|s| - 1][j..] + [s[|s| - 1]] == s[..j] + [job] + s[j..]
  {
    var n := |s| - 1;
    assert s[j..] == s[j..n] + [s[n]];
    assert s[..n][..j] == s[..j] && s[..n][j..] == s[j..n];
  }

  /** The inner loop of an insertion step: the greater keys just below
      `a[i]` are moved one place up, and the gap left is at `j`. */
  method ShiftGreater(a: array<Record>, i: nat, key: string, field: string) returns (j: nat)
    requires i < a.Length
    modifies a
    ensures j <= i
    ensures forall k :: 0 <= k < j ==> a[k] == old(a[k])
    ensures forall k :: j < k <= i ==> a[k] == old(a[k - 1])
    ensures forall k :: i < k < a.Length ==> a[k] == old(a[k])
    ensures forall k :: j <= k < i ==> !LexLe(SortKey(old(a[k]), field), key)
    ensures j == 0 || LexLe(SortKey(old(a[j - 1]), field), key)
  {
    j := i;
    while j > 0 && !LexLe(SortKey(a[j - 1], field), key)
      invariant 0 <= j <= i
      invariant forall k :: 0 <= k < j ==> a[k] == old(a[k])
      invariant forall k :: j < k <= i ==> a[k] == old(a[k - 1])
      invariant forall k :: i < k < a.Length ==> a[k] == old(a[k])
      invariant forall k :: j <= k < i ==> !LexLe(SortKey(old(a[k]), field), key)
    {
      a[j] := a[j - 1];
      j := j - 1;
    }
  }

  /** The array after the shift, with the moved job put in the gap. */
  lemma {:induction false} ShiftedThenPlaced(before: seq<Record>, after: seq<Record>, i: nat, j: nat)
    requires j <= i < |before| == |after|
    requires after[j] == before[i]
    requires forall k :: 0 <= k < j ==> after[k] == before[k]
    requires forall k :: j < k <= i ==> after[k] == before[k - 1]
    requires forall k :: i < k < |after| ==> after[k] == before[k]
    ensures after[..i + 1] == before[..j] + [before[i]] + before[j..i]
    ensures after[i + 1..] == before[i + 1..]
  {
  }

  /** The scan of an insertion step stops where `Insert` puts the job. */
  lemma {:induction false} ScanStopsAtInsert(before: seq<Record>, i: nat, j: nat, field: string)
    requires j <= i < |before|
    requires forall k :: j <= k < i ==> !LexLe(SortKey(before[k], field), SortKey(before[i], field))
    requires j == 0 || LexLe(SortKey(before[j - 1], field), SortKey(before[i], field))
    ensures Insert(before[..i], before[i], field) == before[..j] + [before[i]] + before[j..i]
  {
    var s := before[..i];
    assert s[..j] == before[..j] && s[j..] == before[j..i];
    InsertWhereScanStops(s, j, before[i], field);
  }

  /** One insertion step on the array: `a[i]` is moved down past the
      greater keys of the sorted prefix `a[..i]`. */
  method InsertAt(a: array<Record>, i: nat, field: string)
    requires i < a.Length
    modifies a
    ensures a[..i + 1] == Insert(old(a[..i]), old(a[i]), field)
    ensures a[i + 1..] == old(a[i + 1..])
  {
    ghost var before := a[..];
    var job := a[i];
    var j := ShiftGreater(a, i, SortKey(job, field), field);
    a[j] := job;
    ShiftedThenPlaced(before, a[..], i, j);
    ScanStopsAtInsert(before, i, j, field);
  }

  /** Sorting one more element of `s` inserts it into the sorted prefix. */
  lemma SortStep(s: seq<Record>, i: nat, field: string)
    requires i < |s|
    ensures Sort(s[..i + 1], field) == Insert(Sort(s[..i], field), s[i], field)
  {
    assert s[..i + 1][..i] == s[..i];
  }

  /** How `a[..i]`, `a[i]` and `a[i..]` relate for two sequences that agree
      from `i` on. */
  lemma SliceFacts(a: seq<Record>, s: seq<Record>, i: nat)
    requires i <= |a| == |s|
    ensures a[..] == a[..i] + a[i..]
    ensures a[i..] == s[i..] ==> i == |a| || a[i] == s[i]
    ensures a[i..] == s[i..] && i < |a| ==> a[i + 1..] == s[i + 1..]
  {
    if a[i..] == s[i..] && i < |a| {
      assert a[i] == a[i..][0] && s[i] == s[i..][0];
      assert a[i + 1..] == a[i..][1..] && s[i + 1..] == s[i..][1..];
    }
  }

  /** The stable sort of `sort_by`, in place. */
  method SortInPlace(a: array<Record>, field: string)
    modifies a
    ensures a[..] == Sort(old(a[..]), field)
  {
    ghost var s := a[..];
    for i := 0 to a.Length
      invariant a[..i] == Sort(s[..i], field)
      invariant a[i..] == s[i..]
    {
      ghost var before := a[..];
      SliceFacts(before, s, i);
      InsertAt(a, i, field);
      SortStep(s, i, field);
      SliceFacts(a[..], s, i + 1);
    }
    assert a[..] == a[..a.Length] && s == s[..a.Length];
  }

  /** `Vec::reverse`: the ends swapped pairwise towards the middle. */
  method ReverseInPlace(a: array<Record>)
    modifies a
    ensures a[..] == Reverse(old(a[..]))
  {
    ghost var s := a[..];
    var lo, hi := 0, a.Length;
    while lo + 1 < hi
      invariant 0 <= lo && lo <= hi <= a.Length && lo + hi == a.Length
      invariant forall k :: 0 <= k < lo ==> a[k] == s[a.Length - 1 - k]
      invariant forall k :: hi <= k < a.Length ==> a[k] == s[a.Length - 1 - k]
      invariant forall k :: lo <= k < hi ==> a[k] == s[k]
    {
      a[lo], a[hi - 1] := a[hi - 1], a[lo];
      lo, hi := lo + 1, hi - 1;
    }
  }

  /** `sort_jobs` on the vector `jobs`. */
  method SortJobsInPlace(jobs: array<Record>, sortQuery: Option<string>, reverseQuery: Option<string>,
                         authenticated: bool)
    modifies jobs
    ensures jobs[..] == SortJobs(old(jobs[..]), sortQuery, reverseQuery, authenticated)
  {
    if sortQuery.None? && reverseQuery.None? {
      return;
    }
    var field := SortField(sortQuery, authenticated);
    var reverse := Reversing(reverseQuery);
    SortInPlace(jobs, field);
    if reverse {
      ReverseInPlace(jobs);
    }
  }
}
