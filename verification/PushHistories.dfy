/** What happened to a repository, the events in which GitHub reports it, and the push that is selected
    (code/hand_curl.c, retrieve_pushes_before_cutoff). */
module PushHistories {
  import opened Options
  import opened Pushes

  datatype Act =
    | Pushed(branch: string, time: string, hash: string)
    | BranchCreated(branch: string, time: string)
    | RepositoryCreated(branch: string, time: string)      // with this default branch
    | Nothing

  /** How an event reports an act; the fields that are not named may hold anything. Pushes name the full ref,
      creations the bare branch. */
  predicate Reports(e: Event, act: Act) {
    match act
    case Pushed(branch, time, hash) =>
      && e.kind == Some("PushEvent") && e.createdAt == Some(time) && e.head == Some(hash)
      && e.ref == Some("refs/heads/" + branch)
    case BranchCreated(branch, time) =>
      && e.kind == Some("CreateEvent") && e.createdAt == Some(time) && e.refType == Some("branch")
      && e.ref == Some(branch)
    case RepositoryCreated(branch, time) =>
      && e.kind == Some("CreateEvent") && e.createdAt == Some(time) && e.refType == Some("repository")
      && e.masterBranch == Some(branch)
    case Nothing =>
      || (e.kind != Some("PushEvent") && e.kind != Some("CreateEvent"))
      || e.createdAt.None?
      || (e.kind == Some("PushEvent") && (e.head.None? || e.ref.None? || !("refs/heads/" <= e.ref.value)))
      || (e.kind == Some("CreateEvent") && e.refType != Some("branch") && e.refType != Some("repository"))
      || (e.kind == Some("CreateEvent") && e.refType == Some("branch") && e.ref.None?)
      || (e.kind == Some("CreateEvent") && e.refType == Some("repository") && e.masterBranch.None?)
  }

  /** Every event reports something. */
  lemma EveryEventReports(e: Event) returns (act: Act)
    ensures Reports(e, act)
  {
    if Reports(e, Nothing) {
      act := Nothing;
    } else if e.kind == Some("PushEvent") {
      var ref := e.ref.value;
      act := Pushed(ref[|"refs/heads/"|..], e.createdAt.value, e.head.value);
      assert ref == "refs/heads/" + ref[|"refs/heads/"|..];
    } else if e.refType == Some("branch") {
      act := BranchCreated(e.ref.value, e.createdAt.value);
    } else {
      act := RepositoryCreated(e.masterBranch.value, e.createdAt.value);
    }
  }

  ghost predicate ReportsAll(feed: seq<Event>, history: seq<Act>) {
    |feed| == |history| && forall i :: 0 <= i < |feed| ==> Reports(feed[i], history[i])
  }

  predicate OnBranch(act: Act, branch: string) { !act.Nothing? && act.branch == branch }

  /** On the branch, before the cutoff, at a time that could be read. */
  predicate InTime(q: Query, act: Act, branch: string) {
    OnBranch(act, branch) && 0 < q.parseTime(act.time) < q.cutoff
  }

  /** Acts on the branch are listed from the newest to the oldest. */
  ghost predicate NewestActFirst(q: Query, history: seq<Act>, branch: string) {
    forall i, j :: 0 <= i <= j < |history| && OnBranch(history[i], branch) && OnBranch(history[j], branch)
      ==> q.parseTime(history[i].time) >= q.parseTime(history[j].time) >= 0
  }

  lemma PrefixDetermines(prefix: string, a: string, b: string)
    ensures prefix + a == prefix + b <==> a == b
  {
    if prefix + a == prefix + b {
      assert a == (prefix + a)[|prefix|..] == (prefix + b)[|prefix|..] == b;
    }
  }

  /** What the scan makes of an event. */
  lemma ReportIsRead(q: Query, repo: Repo, e: Event, act: Act)
    requires Reports(e, act)
    ensures Classify(q, repo, e) ==
            if !OnBranch(act, repo.branch) then NoMatch
            else
              match act
              case Pushed(_, time, hash) => Push(q.parseTime(time), if |hash| == 40 then hash else "")
              case _ => Creation(q.parseTime(act.time))
  {
    if act.Pushed? {
      PrefixDetermines("refs/heads/", act.branch, repo.branch);
    }
  }

  /** The selection is the latest act on the branch before the cutoff: a push with its own hash when a later push
      to the branch is reported, anything else with the branch's head; and the repository's creation when
      there is no such act. */
  lemma SelectionFromHistory(q: Query, repo: Repo, feed: seq<Event>, history: seq<Act>) returns (k: nat)
    requires ReportsAll(feed, history) && NewestActFirst(q, history, repo.branch)
    ensures k <= |history|
    ensures k == |history| ==>
              && (forall j :: 0 <= j < |history| ==> !InTime(q, history[j], repo.branch))
              && Selected(q, repo, feed) == Pick(repo.head, repo.created)
    ensures k < |history| ==>
              && InTime(q, history[k], repo.branch)
              && (forall j :: 0 <= j < |history| && InTime(q, history[j], repo.branch) ==>
                    q.parseTime(history[j].time) <= q.parseTime(history[k].time))
              && Selected(q, repo, feed).time == q.parseTime(history[k].time)
              && Selected(q, repo, feed).hash ==
                 if history[k].Pushed?
                    && exists j :: 0 <= j < k && history[j].Pushed? && history[j].branch == repo.branch
                 then (if |history[k].hash| == 40 then history[k].hash else "")
                 else repo.head
  {
    hide Classify, Selected, FirstEarly, Reports;
    forall i | 0 <= i < |feed|
      ensures Classify(q, repo, feed[i]).NoMatch? <==> !OnBranch(history[i], repo.branch)
      ensures OnBranch(history[i], repo.branch) ==>
                && Classify(q, repo, feed[i]).time == q.parseTime(history[i].time)
                && (Classify(q, repo, feed[i]).Push? <==> history[i].Pushed?)
    {
      ReportIsRead(q, repo, feed[i], history[i]);
    }
    k := SelectedIsLatestBeforeCutoff(q, repo, feed);
    forall j | 0 <= j < |history| && InTime(q, history[j], repo.branch)
      ensures k < |history| && Classify(q, repo, feed[j]).time <= Classify(q, repo, feed[k]).time
    {
      assert Counts(q, repo, feed[j]);
    }
    if k < |history| {
      ReportIsRead(q, repo, feed[k], history[k]);
      PushIsReported(q, repo, feed, history, k);
    }
  }

  lemma PushIsReported(q: Query, repo: Repo, feed: seq<Event>, history: seq<Act>, k: nat)
    requires ReportsAll(feed, history) && k <= |feed|
    ensures HasPush(q, repo, feed[..k]) <==>
            exists j :: 0 <= j < k && history[j].Pushed? && history[j].branch == repo.branch
  {
    hide Classify, Reports;
    forall j | 0 <= j < k
      ensures Classify(q, repo, feed[..k][j]).Push? <==> history[j].Pushed? && history[j].branch == repo.branch
    {
      ReportIsRead(q, repo, feed[j], history[j]);
    }
  }

  /** Acts on other branches and events that report nothing can be left out, wherever they stand. */
  lemma OthersChangeNothing(q: Query, repo: Repo, before: seq<Event>, e: Event, after: seq<Event>, act: Act)
    requires Reports(e, act) && !OnBranch(act, repo.branch)
    ensures Selected(q, repo, before + [e] + after) == Selected(q, repo, before + after)
  {
    hide Classify, Reports, FirstEarly, HasPush;
    ReportIsRead(q, repo, e, act);
    FirstEarlyAppend(q, repo, before, [e] + after);
    FirstEarlyAppend(q, repo, before, after);
    NothingIsEarly(q, repo, e, after);
    assert before + [e] + after == before + ([e] + after);
    var k := FirstEarly(q, repo, before + after);
    if k >= |before| {
      LeftOut(q, repo, before, e, after, k);
      assert k < |before + after| ==> (before + [e] + after)[k + 1] == (before + after)[k];
    } else {
      assert (before + [e] + after)[..k] == (before + after)[..k];
    }
  }

  lemma NothingIsEarly(q: Query, repo: Repo, e: Event, after: seq<Event>)
    requires Classify(q, repo, e).NoMatch?
    ensures FirstEarly(q, repo, [e] + after) == 1 + FirstEarly(q, repo, after)
  {
    assert ([e] + after)[1..] == after;
  }

  lemma LeftOut(q: Query, repo: Repo, before: seq<Event>, e: Event, after: seq<Event>, k: nat)
    requires |before| <= k <= |before + after| && Classify(q, repo, e).NoMatch?
    ensures HasPush(q, repo, (before + [e] + after)[..k + 1]) <==> HasPush(q, repo, (before + after)[..k])
  {
    hide Classify;
    var long, short := (before + [e] + after)[..k + 1], (before + after)[..k];
    forall j | 0 <= j < |before| ensures long[j] == short[j] {
    }
    forall j | |before| <= j < k ensures long[j + 1] == short[j] {
    }
    assert long[|before|] == e;
    if HasPush(q, repo, long) {
      var j :| 0 <= j < |long| && Classify(q, repo, long[j]).Push?;
      assert Classify(q, repo, short[if j < |before| then j else j - 1]).Push?;
    }
    if HasPush(q, repo, short) {
      var j :| 0 <= j < |short| && Classify(q, repo, short[j]).Push?;
      assert Classify(q, repo, long[if j < |before| then j else j + 1]).Push?;
    }
  }
}
