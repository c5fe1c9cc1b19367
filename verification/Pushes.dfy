/** Which push of each repository counts (code/hand_curl.c, retrieve_pushes_before_cutoff): pages
    of events are fetched for up to 64 repositories at a time, a repository drops out of its batch
    once it is done. The result is shown to depend on each repository's own feed alone. */
module Pushes {
  import opened Options

  /** The fields read from one event; None where the field is missing or not a string. */
  datatype Event = Event(
    kind: Option<string>,
    createdAt: Option<string>,
    head: Option<string>,
    refType: Option<string>,
    ref: Option<string>,
    masterBranch: Option<string>)

  /** A repository as asked for: branch, and what the other queries said about creation time and
      the branch's current head. */
  datatype Repo = Repo(branch: string, created: int, head: string)

  datatype Pick = Pick(hash: string, time: int)

  /** What a query depends on besides the feed: the cutoff and the time parser. */
  datatype Query = Query(cutoff: int, parseTime: string -> int)

  const HASH_LEN := 40
  const MAX_WORKER := 64

  /** init_git_commit_hash: a text of another length leaves the hash empty. */
  function HashOf(text: string): string {
    if |text| == HASH_LEN then text else ""
  }

  datatype Match = NoMatch | Push(time: int, hash: string) | Creation(time: int)

  function Classify(q: Query, repo: Repo, e: Event): Match {
    if e.kind == Some("PushEvent") && e.createdAt.Some? && e.head.Some? && e.ref == Some("refs/heads/" + repo.branch)
    then Push(q.parseTime(e.createdAt.value), HashOf(e.head.value))
    else if e.kind == Some("CreateEvent") && e.createdAt.Some? && e.refType == Some("branch")
            && e.ref == Some(repo.branch)
    then Creation(q.parseTime(e.createdAt.value))
    else if e.kind == Some("CreateEvent") && e.createdAt.Some? && e.refType == Some("repository")
            && e.masterBranch == Some(repo.branch)
    then Creation(q.parseTime(e.createdAt.value))
    else NoMatch
  }

  // --- the specification: one repository, one flat feed ---

  predicate Early(q: Query, repo: Repo, e: Event) {
    var m := Classify(q, repo, e);
    !m.NoMatch? && m.time < q.cutoff
  }

  /** Index of the first event that counts, or the length of the feed. */
  function FirstEarly(q: Query, repo: Repo, feed: seq<Event>): (k: nat)
    ensures k <= |feed|
    ensures forall j :: 0 <= j < k ==> !Early(q, repo, feed[j])
    ensures k < |feed| ==> Early(q, repo, feed[k])
  {
    if feed == [] then 0
    else if Early(q, repo, feed[0]) then 0
    else 1 + FirstEarly(q, repo, feed[1..])
  }

  predicate HasPush(q: Query, repo: Repo, feed: seq<Event>) {
    exists j :: 0 <= j < |feed| && Classify(q, repo, feed[j]).Push?
  }

  /** The first event before the cutoff decides. A push keeps its own hash when the feed shows a
      later push to the branch; otherwise the branch head is what that push left behind. */
  function Selected(q: Query, repo: Repo, feed: seq<Event>): Pick {
    var k := FirstEarly(q, repo, feed);
    var fallback := Pick(repo.head, repo.created);
    if k == |feed| then fallback
    else
      match Classify(q, repo, feed[k])
      case NoMatch => fallback
      case Creation(t) => if t == 0 then fallback else Pick(repo.head, t)
      case Push(t, hash) =>
        if t == 0 then fallback
        else Pick(if t > 0 && !HasPush(q, repo, feed[..k]) then repo.head else hash, t)
  }

  /** The pages up to the first empty one. */
  function Flatten(pages: seq<seq<Event>>): seq<Event> {
    if pages == [] || pages[0] == [] then [] else pages[0] + Flatten(pages[1..])
  }

  // --- one worker, page by page ---

  datatype Worker = Worker(done: bool, latest: Pick, out: Pick)

  const IDLE := Worker(false, Pick("", 0), Pick("", 0))

  function ScanEvent(q: Query, repo: Repo, w: Worker, e: Event): Worker {
    match Classify(q, repo, e)
    case NoMatch => w
    case Push(t, hash) =>
      var w := if t > w.latest.time then w.(latest := Pick(hash, t)) else w;
      if t < q.cutoff then w.(done := true, out := Pick(hash, t)) else w
    case Creation(t) =>
      if t < q.cutoff then w.(done := true, out := Pick(repo.head, t)) else w
  }

  function ScanEvents(q: Query, repo: Repo, w: Worker, events: seq<Event>): Worker
    decreases events
  {
    if w.done || events == [] then w
    else ScanEvents(q, repo, ScanEvent(q, repo, w, events[0]), events[1..])
  }

  /** The head may be newer than any push reported, and a worker without a time falls back. */
  function Settle(q: Query, repo: Repo, w: Worker): Worker {
    var w :=
      if w.latest.time != 0 && w.latest.hash != repo.head && w.latest.time < q.cutoff
      then w.(out := Pick(repo.head, w.latest.time)) else w;
    if w.out.time == 0 then w.(out := Pick(repo.head, repo.created)) else w
  }

  function AfterPage(q: Query, repo: Repo, w: Worker, page: seq<Event>): Worker {
    if w.done then w
    else
      var w := Settle(q, repo, ScanEvents(q, repo, w, page));
      if page == [] then w.(done := true) else w
  }

  function PageAt(pages: seq<seq<Event>>, n: nat): seq<Event> {
    if n < |pages| then pages[n] else []
  }

  function AfterPages(q: Query, repo: Repo, pages: seq<seq<Event>>, n: nat): Worker {
    if n == 0 then IDLE else AfterPage(q, repo, AfterPages(q, repo, pages, n - 1), PageAt(pages, n - 1))
  }

  // --- the worker computes the specification ---

  lemma {:induction false} FirstEarlyAppend(q: Query, repo: Repo, a: seq<Event>, b: seq<Event>)
    ensures var k := FirstEarly(q, repo, a);
            FirstEarly(q, repo, a + b) == if k < |a| then k else |a| + FirstEarly(q, repo, b)
  {
    if a == [] {
      assert a + b == b;
    } else {
      assert (a + b)[1..] == a[1..] + b;
      FirstEarlyAppend(q, repo, a[1..], b);
    }
  }

  lemma SelectedAppend(q: Query, repo: Repo, a: seq<Event>, b: seq<Event>)
    requires FirstEarly(q, repo, a) < |a|
    ensures Selected(q, repo, a + b) == Selected(q, repo, a)
  {
    FirstEarlyAppend(q, repo, a, b);
    var k := FirstEarly(q, repo, a);
    assert (a + b)[..k] == a[..k];
  }

  /** A worker that has seen the events of feed, none of which decides. */
  ghost predicate Waiting(q: Query, repo: Repo, w: Worker, feed: seq<Event>) {
    && !w.done
    && FirstEarly(q, repo, feed) == |feed|
    && w.latest.time >= 0
    && if HasPush(q, repo, feed) then w.latest.time >= q.cutoff else w.latest == Pick("", 0)
  }

  lemma DecidingEvent(q: Query, repo: Repo, w: Worker, feed: seq<Event>, e: Event)
    requires Waiting(q, repo, w, feed) && Early(q, repo, e)
    ensures ScanEvent(q, repo, w, e).done
    ensures FirstEarly(q, repo, feed + [e]) == |feed|
    ensures Settle(q, repo, ScanEvent(q, repo, w, e)).out == Selected(q, repo, feed + [e])
  {
    FirstEarlyAppend(q, repo, feed, [e]);
    assert (feed + [e])[..|feed|] == feed;
  }

  lemma PassingEvent(q: Query, repo: Repo, w: Worker, feed: seq<Event>, e: Event)
    requires Waiting(q, repo, w, feed) && !Early(q, repo, e)
    ensures Waiting(q, repo, ScanEvent(q, repo, w, e), feed + [e])
    ensures ScanEvent(q, repo, w, e).out == w.out
  {
    FirstEarlyAppend(q, repo, feed, [e]);
    assert HasPush(q, repo, feed + [e]) <==> HasPush(q, repo, feed) || Classify(q, repo, e).Push? by {
      if HasPush(q, repo, feed) {
        var j :| 0 <= j < |feed| && Classify(q, repo, feed[j]).Push?;
        assert (feed + [e])[j] == feed[j];
      }
      assert (feed + [e])[|feed|] == e;
    }
  }

  lemma {:induction false} ScanDecidesOrWaits(q: Query, repo: Repo, w: Worker, feed: seq<Event>, events: seq<Event>)
    requires Waiting(q, repo, w, feed)
    ensures var w', all := ScanEvents(q, repo, w, events), feed + events;
            if w'.done
            then FirstEarly(q, repo, all) < |all| && Settle(q, repo, w').out == Selected(q, repo, all)
            else Waiting(q, repo, w', all) && w'.out == w.out
    decreases events
  {
    if events == [] {
      assert feed + events == feed;
    } else {
      var e, rest := events[0], events[1..];
      assert feed + events == (feed + [e]) + rest;
      if Early(q, repo, e) {
        DecidingEvent(q, repo, w, feed, e);
        FirstEarlyAppend(q, repo, feed + [e], rest);
        SelectedAppend(q, repo, feed + [e], rest);
      } else {
        PassingEvent(q, repo, w, feed, e);
        ScanDecidesOrWaits(q, repo, ScanEvent(q, repo, w, e), feed + [e], rest);
      }
    }
  }

  function Concat(pages: seq<seq<Event>>, n: nat): seq<Event> {
    if n == 0 then [] else Concat(pages, n - 1) + PageAt(pages, n - 1)
  }

  lemma {:induction false} ConcatShift(pages: seq<seq<Event>>, n: nat)
    requires 0 < n <= |pages|
    ensures Concat(pages, n) == pages[0] + Concat(pages[1..], n - 1)
  {
    if n > 1 {
      ConcatShift(pages, n - 1);
    }
  }

  lemma {:induction false} FlattenSplits(pages: seq<seq<Event>>, n: nat)
    requires n <= |pages| && forall k :: 0 <= k < n ==> pages[k] != []
    ensures Flatten(pages) == Concat(pages, n) + Flatten(pages[n..])
    decreases n
  {
    if n > 0 {
      FlattenSplits(pages[1..], n - 1);
      assert pages[1..][n - 1..] == pages[n..];
      ConcatShift(pages, n);
    }
  }

  /** What a worker knows after n pages. */
  ghost predicate PagesSeen(q: Query, repo: Repo, pages: seq<seq<Event>>, n: nat) {
    var w := AfterPages(q, repo, pages, n);
    if w.done then w.out == Selected(q, repo, Flatten(pages))
    else
      && n <= |pages| && (forall k :: 0 <= k < n ==> pages[k] != [])
      && Waiting(q, repo, w, Concat(pages, n))
      && w.out == if n == 0 then IDLE.out else Pick(repo.head, repo.created)
  }

  /** The feed, split behind the next page. */
  lemma FeedAt(pages: seq<seq<Event>>, n: nat)
    requires n <= |pages| && forall k :: 0 <= k < n ==> pages[k] != []
    ensures PageAt(pages, n) == [] ==> Flatten(pages) == Concat(pages, n)
    ensures PageAt(pages, n) != [] ==>
              n < |pages| && Flatten(pages) == Concat(pages, n) + PageAt(pages, n) + Flatten(pages[n + 1..])
  {
    hide Concat;
    FlattenSplits(pages, n);
    if PageAt(pages, n) == [] {
      assert Flatten(pages[n..]) == [];
    } else {
      assert pages[n..][0] == pages[n] && pages[n..][1..] == pages[n + 1..];
      assert Flatten(pages[n..]) == pages[n] + Flatten(pages[n + 1..]);
    }
  }

  lemma NextPageSeen(q: Query, repo: Repo, pages: seq<seq<Event>>, n: nat)
    requires PagesSeen(q, repo, pages, n) && !AfterPages(q, repo, pages, n).done
    ensures PagesSeen(q, repo, pages, n + 1)
  {
    hide Classify, Early, FirstEarly, HasPush, Flatten, ScanEvents, Selected, Settle;
    var w, page, seen := AfterPages(q, repo, pages, n), PageAt(pages, n), Concat(pages, n);
    FeedAt(pages, n);
    if page == [] {
      EmptyPageSettles(q, repo, w, seen);
    } else {
      PageSettles(q, repo, w, seen, page, Flatten(pages[n + 1..]));
    }
  }

  lemma EmptyPageSettles(q: Query, repo: Repo, w: Worker, seen: seq<Event>)
    requires Waiting(q, repo, w, seen)
    requires w.out == IDLE.out || w.out == Pick(repo.head, repo.created)
    ensures AfterPage(q, repo, w, []).done && AfterPage(q, repo, w, []).out == Selected(q, repo, seen)
  {
    hide Classify, Early, FirstEarly, HasPush;
  }

  /** A page that is not empty decides from what stands in it, whatever follows, or leaves the worker waiting
      with the fallback. */
  lemma PageSettles(q: Query, repo: Repo, w: Worker, seen: seq<Event>, page: seq<Event>, rest: seq<Event>)
    requires Waiting(q, repo, w, seen) && page != []
    requires w.out == IDLE.out || w.out == Pick(repo.head, repo.created)
    ensures var w' := AfterPage(q, repo, w, page);
            if w'.done then w'.out == Selected(q, repo, seen + page + rest)
            else Waiting(q, repo, w', seen + page) && w'.out == Pick(repo.head, repo.created)
  {
    hide Classify, Early, FirstEarly, HasPush, ScanEvents, Selected;
    ScanDecidesOrWaits(q, repo, w, seen, page);
    if ScanEvents(q, repo, w, page).done {
      SelectedAppend(q, repo, seen + page, rest);
    }
  }

  lemma {:induction false} WorkerComputesSelection(q: Query, repo: Repo, pages: seq<seq<Event>>, n: nat)
    ensures PagesSeen(q, repo, pages, n)
  {
    if n > 0 {
      WorkerComputesSelection(q, repo, pages, n - 1);
      if !AfterPages(q, repo, pages, n - 1).done {
        NextPageSeen(q, repo, pages, n - 1);
      }
    }
  }

  /** Past the end of its feed every worker is done. */
  lemma DoneAfterFeed(q: Query, repo: Repo, pages: seq<seq<Event>>)
    ensures AfterPages(q, repo, pages, |pages| + 1).done
  {
    WorkerComputesSelection(q, repo, pages, |pages|);
  }

  // --- what the selection means for feeds reported newest first ---

  ghost predicate NewestFirst(q: Query, repo: Repo, feed: seq<Event>) {
    forall i, j :: 0 <= i <= j < |feed| && !Classify(q, repo, feed[i]).NoMatch? && !Classify(q, repo, feed[j]).NoMatch?
      ==> Classify(q, repo, feed[i]).time >= Classify(q, repo, feed[j]).time >= 0
  }

  /** A push or creation of the branch, before the cutoff, whose time could be read. */
  predicate Counts(q: Query, repo: Repo, e: Event) {
    Early(q, repo, e) && Classify(q, repo, e).time > 0
  }

  lemma SelectedIsLatestBeforeCutoff(q: Query, repo: Repo, feed: seq<Event>) returns (k: nat)
    requires NewestFirst(q, repo, feed)
    ensures k <= |feed|
    ensures k == |feed| ==> (forall j :: 0 <= j < |feed| ==> !Counts(q, repo, feed[j]))
                            && Selected(q, repo, feed) == Pick(repo.head, repo.created)
    ensures k < |feed| ==>
              && Counts(q, repo, feed[k])
              && (forall j :: 0 <= j < |feed| && Counts(q, repo, feed[j]) ==>
                    Classify(q, repo, feed[j]).time <= Classify(q, repo, feed[k]).time)
              && Selected(q, repo, feed).time == Classify(q, repo, feed[k]).time
              && Selected(q, repo, feed).hash ==
                   if Classify(q, repo, feed[k]).Push? && HasPush(q, repo, feed[..k])
                   then Classify(q, repo, feed[k]).hash else repo.head
  {
    k := FirstEarly(q, repo, feed);
    if k < |feed| && Classify(q, repo, feed[k]).time == 0 {
      forall j | 0 <= j < |feed| ensures !Counts(q, repo, feed[j]) {
        if j > k && Early(q, repo, feed[j]) {
          assert Classify(q, repo, feed[k]).time >= Classify(q, repo, feed[j]).time;
        }
      }
      k := |feed|;
    }
  }

  // --- retrieve_pushes_before_cutoff ---

  /** The tables indexed by repository; latest* live only as long as the call. */
  datatype Tables = Tables(
    outHash: array<string>, outTime: array<int>, latestHash: array<string>, latestTime: array<int>)
  {
    ghost predicate Valid(n: nat) {
      && outHash.Length == outTime.Length == latestHash.Length == latestTime.Length == n
      && outHash != latestHash && outTime != latestTime
    }

    ghost function Row(n: nat, r: nat): Worker
      requires Valid(n) && r < n
      reads outHash, outTime, latestHash, latestTime
    {
      Worker(false, Pick(latestHash[r], latestTime[r]), Pick(outHash[r], outTime[r]))
    }
  }

  method TrueForAll(booleans: array<bool>, count: nat) returns (all: bool)
    requires count <= booleans.Length
    ensures all <==> forall i :: 0 <= i < count ==> booleans[i]
  {
    for i := 0 to count
      invariant forall j :: 0 <= j < i ==> booleans[j]
    {
      if !booleans[i] {
        return false;
      }
    }
    return true;
  }

  /** One response: its events in order up to the one that decides, then the override and the
      fallback. Only row r changes. */
  method ReadPage(q: Query, repo: Repo, events: seq<Event>, t: Tables, ghost n: nat, r: nat) returns (done: bool)
    requires t.Valid(n) && r < n
    modifies t.outHash, t.outTime, t.latestHash, t.latestTime
    ensures t.Row(n, r).(done := done) == AfterPage(q, repo, old(t.Row(n, r)), events)
    ensures forall u :: 0 <= u < n && u != r ==> t.Row(n, u) == old(t.Row(n, u))
  {
    done := false;
    var count := 0;
    while count < |events| && !done
      invariant count <= |events|
      invariant ScanEvents(q, repo, t.Row(n, r).(done := done), events[count..]) ==
                ScanEvents(q, repo, old(t.Row(n, r)), events)
      invariant count == 0 ==> !done
      invariant forall u :: 0 <= u < n && u != r ==> t.Row(n, u) == old(t.Row(n, u))
      decreases |events| - count, !done
    {
      assert events[count..][0] == events[count] && events[count..][1..] == events[count + 1..];
      match Classify(q, repo, events[count]) {
        case NoMatch =>
        case Push(pushTime, hash) =>
          if pushTime > t.latestTime[r] {
            t.latestTime[r] := pushTime;
            t.latestHash[r] := hash;
          }
          if pushTime < q.cutoff {
            done := true;
            t.outTime[r] := pushTime;
            t.outHash[r] := hash;
          }
        case Creation(time) =>
          if time < q.cutoff {
            done := true;
            t.outTime[r] := time;
            t.outHash[r] := repo.head;
          }
      }
      count := count + 1;
    }
    if t.latestTime[r] != 0 && t.latestHash[r] != repo.head && t.latestTime[r] < q.cutoff {
      t.outHash[r] := repo.head;
      t.outTime[r] := t.latestTime[r];
    }
    if t.outTime[r] == 0 {
      t.outHash[r] := repo.head;
      t.outTime[r] := repo.created;
    }
    if count == 0 {
      done := true;
    }
  }

  function MaxPages(feeds: seq<seq<seq<Event>>>): (m: nat)
    ensures forall i :: 0 <= i < |feeds| ==> |feeds[i]| <= m
  {
    if feeds == [] then 0
    else
      var m := MaxPages(feeds[1..]);
      assert forall i :: 1 <= i < |feeds| ==> feeds[i] == feeds[1..][i - 1];
      if |feeds[0]| > m then |feeds[0]| else m
  }

  /** The workers of one batch agree with their own page count. */
  ghost predicate BatchAt(q: Query, repos: seq<Repo>, feeds: seq<seq<seq<Event>>>, t: Tables, at: nat,
                          workerDone: array<bool>, from: nat, to: nat, pages: nat)
    requires |repos| == |feeds| && t.Valid(|repos|) && at + to <= |repos| && to <= workerDone.Length
    reads t.outHash, t.outTime, t.latestHash, t.latestTime, workerDone
  {
    forall i :: from <= i < to ==>
      t.Row(|repos|, at + i).(done := workerDone[i]) == AfterPages(q, repos[at + i], feeds[at + i], pages)
  }

  ghost predicate Settled(q: Query, repos: seq<Repo>, feeds: seq<seq<seq<Event>>>, t: Tables, to: nat)
    requires |repos| == |feeds| && t.Valid(|repos|) && to <= |repos|
    reads t.outHash, t.outTime, t.latestHash, t.latestTime
  {
    forall r :: 0 <= r < to ==> Pick(t.outHash[r], t.outTime[r]) == Selected(q, repos[r], Flatten(feeds[r]))
  }

  /** One page of every worker that is not done. */
  method ReadPages(q: Query, repos: seq<Repo>, feeds: seq<seq<seq<Event>>>, t: Tables, at: nat,
                   workerDone: array<bool>, workerCount: nat, page: nat)
    requires |repos| == |feeds| && t.Valid(|repos|)
    requires at + workerCount <= |repos| && workerCount <= workerDone.Length
    requires BatchAt(q, repos, feeds, t, at, workerDone, 0, workerCount, page)
    modifies t.outHash, t.outTime, t.latestHash, t.latestTime, workerDone
    ensures BatchAt(q, repos, feeds, t, at, workerDone, 0, workerCount, page + 1)
    ensures forall u :: 0 <= u < |repos| && !(at <= u < at + workerCount) ==>
              t.Row(|repos|, u) == old(t.Row(|repos|, u))
  {
    var n := |repos|;
    for i := 0 to workerCount
      invariant BatchAt(q, repos, feeds, t, at, workerDone, 0, i, page + 1)
      invariant BatchAt(q, repos, feeds, t, at, workerDone, i, workerCount, page)
      invariant forall u :: 0 <= u < n && !(at <= u < at + workerCount) ==>
                  t.Row(n, u) == old(t.Row(n, u))
    {
      ReadWorkerPage(q, repos, feeds, t, at, workerDone, workerCount, page, i);
    }
  }

  /** One page of one worker, unless it is done. */
  method ReadWorkerPage(q: Query, repos: seq<Repo>, feeds: seq<seq<seq<Event>>>, t: Tables, at: nat,
                        workerDone: array<bool>, workerCount: nat, page: nat, i: nat)
    requires |repos| == |feeds| && t.Valid(|repos|)
    requires at + workerCount <= |repos| && workerCount <= workerDone.Length && i < workerCount
    requires BatchAt(q, repos, feeds, t, at, workerDone, 0, i, page + 1)
    requires BatchAt(q, repos, feeds, t, at, workerDone, i, workerCount, page)
    modifies t.outHash, t.outTime, t.latestHash, t.latestTime, workerDone
    ensures BatchAt(q, repos, feeds, t, at, workerDone, 0, i + 1, page + 1)
    ensures BatchAt(q, repos, feeds, t, at, workerDone, i + 1, workerCount, page)
    ensures forall u :: 0 <= u < |repos| && u != at + i ==> t.Row(|repos|, u) == old(t.Row(|repos|, u))
  {
    hide AfterPage;
    ghost var n := |repos|;
    NextPage(q, repos[at + i], feeds[at + i], page);
    assert t.Row(n, at + i).(done := workerDone[i]) == AfterPages(q, repos[at + i], feeds[at + i], page);
    if !workerDone[i] {
      var done := ReadPage(q, repos[at + i], PageAt(feeds[at + i], page), t, n, at + i);
      workerDone[i] := done;
      assert forall k :: 0 <= k < workerCount && k != i ==>
          t.Row(n, at + k) == old(t.Row(n, at + k)) && workerDone[k] == old(workerDone[k]);
    }
  }

  lemma NextPage(q: Query, repo: Repo, pages: seq<seq<Event>>, n: nat)
    ensures AfterPages(q, repo, pages, n + 1) == AfterPage(q, repo, AfterPages(q, repo, pages, n), PageAt(pages, n))
    ensures AfterPages(q, repo, pages, n).done ==> AfterPages(q, repo, pages, n + 1) == AfterPages(q, repo, pages, n)
  {
    hide Settle, ScanEvents;
  }

  /** One page of a batch that is not done, and whether it is done then. */
  method RunPage(q: Query, repos: seq<Repo>, feeds: seq<seq<seq<Event>>>, t: Tables, at: nat,
                 workerDone: array<bool>, workerCount: nat, page: nat) returns (all: bool)
    requires |repos| == |feeds| && t.Valid(|repos|)
    requires at + workerCount <= |repos| && workerCount <= workerDone.Length
    requires BatchAt(q, repos, feeds, t, at, workerDone, 0, workerCount, page)
    requires exists i :: 0 <= i < workerCount && !workerDone[i]
    modifies t.outHash, t.outTime, t.latestHash, t.latestTime, workerDone
    ensures page <= MaxPages(feeds)
    ensures BatchAt(q, repos, feeds, t, at, workerDone, 0, workerCount, page + 1)
    ensures all <==> forall i :: 0 <= i < workerCount ==> workerDone[i]
    ensures forall u :: 0 <= u < |repos| && !(at <= u < at + workerCount) ==>
              t.Row(|repos|, u) == old(t.Row(|repos|, u))
  {
    hide AfterPages, Tables.Row, BatchAt, MaxPages;
    PendingPage(q, repos, feeds, t, at, workerDone, workerCount, page);
    ReadPages(q, repos, feeds, t, at, workerDone, workerCount, page);
    all := TrueForAll(workerDone, workerCount);
  }

  /** The workers of one batch, page after page until all are done. */
  method RunBatch(q: Query, repos: seq<Repo>, feeds: seq<seq<seq<Event>>>, t: Tables, at: nat, workerCount: nat)
    requires |repos| == |feeds| && t.Valid(|repos|)
    requires at + workerCount <= |repos| && workerCount <= MAX_WORKER
    requires forall r :: at <= r < |repos| ==> t.Row(|repos|, r) == IDLE
    modifies t.outHash, t.outTime, t.latestHash, t.latestTime
    ensures forall r :: at <= r < at + workerCount ==>
              Pick(t.outHash[r], t.outTime[r]) == Selected(q, repos[r], Flatten(feeds[r]))
    ensures forall u :: 0 <= u < |repos| && !(at <= u < at + workerCount) ==>
              t.Row(|repos|, u) == old(t.Row(|repos|, u))
  {
    var n, page := |repos|, 0;
    var workerDone := new bool[MAX_WORKER](_ => false);
    var all := TrueForAll(workerDone, workerCount);
    BatchStarts(q, repos, feeds, t, at, workerDone, workerCount);
    hide AfterPages, Tables.Row, BatchAt, Selected, Flatten, MaxPages;
    while !all
      invariant BatchAt(q, repos, feeds, t, at, workerDone, 0, workerCount, page)
      invariant all <==> forall i :: 0 <= i < workerCount ==> workerDone[i]
      invariant forall u :: 0 <= u < n && !(at <= u < at + workerCount) ==>
                  t.Row(n, u) == old(t.Row(n, u))
      decreases !all, MaxPages(feeds) + 1 - page
    {
      all := RunPage(q, repos, feeds, t, at, workerDone, workerCount, page);
      page := page + 1;
    }
    BatchIsSettled(q, repos, feeds, t, at, workerDone, workerCount, page);
  }

  /** Before the first page every worker is idle. */
  lemma BatchStarts(q: Query, repos: seq<Repo>, feeds: seq<seq<seq<Event>>>, t: Tables, at: nat,
                    workerDone: array<bool>, workerCount: nat)
    requires |repos| == |feeds| && t.Valid(|repos|)
    requires at + workerCount <= |repos| && workerCount <= workerDone.Length
    requires forall r :: at <= r < |repos| ==> t.Row(|repos|, r) == IDLE
    requires forall i :: 0 <= i < workerCount ==> !workerDone[i]
    ensures BatchAt(q, repos, feeds, t, at, workerDone, 0, workerCount, 0)
  {
    hide Tables.Row;
  }

  /** While a worker is not done, the page counter has not passed the longest feed. */
  lemma PendingPage(q: Query, repos: seq<Repo>, feeds: seq<seq<seq<Event>>>, t: Tables, at: nat,
                    workerDone: array<bool>, workerCount: nat, page: nat)
    requires |repos| == |feeds| && t.Valid(|repos|)
    requires at + workerCount <= |repos| && workerCount <= workerDone.Length
    requires BatchAt(q, repos, feeds, t, at, workerDone, 0, workerCount, page)
    requires exists i :: 0 <= i < workerCount && !workerDone[i]
    ensures page <= MaxPages(feeds)
  {
    var i :| 0 <= i < workerCount && !workerDone[i];
    WorkerComputesSelection(q, repos[at + i], feeds[at + i], page);
    assert t.Row(|repos|, at + i).(done := workerDone[i]) == AfterPages(q, repos[at + i], feeds[at + i], page);
  }

  lemma BatchIsSettled(q: Query, repos: seq<Repo>, feeds: seq<seq<seq<Event>>>, t: Tables, at: nat,
                       workerDone: array<bool>, workerCount: nat, page: nat)
    requires |repos| == |feeds| && t.Valid(|repos|)
    requires at + workerCount <= |repos| && workerCount <= workerDone.Length
    requires BatchAt(q, repos, feeds, t, at, workerDone, 0, workerCount, page)
    requires forall i :: 0 <= i < workerCount ==> workerDone[i]
    ensures forall r :: at <= r < at + workerCount ==>
              Pick(t.outHash[r], t.outTime[r]) == Selected(q, repos[r], Flatten(feeds[r]))
  {
    forall r | at <= r < at + workerCount
      ensures Pick(t.outHash[r], t.outTime[r]) == Selected(q, repos[r], Flatten(feeds[r]))
    {
      WorkerComputesSelection(q, repos[r], feeds[r], page);
      assert t.Row(|repos|, at + (r - at)).(done := workerDone[r - at]).done;
    }
  }

  /** Every repository gets what its own feed selects, whatever else is in its batch. */
  method RetrievePushesBeforeCutoff(outHash: array<string>, outTime: array<int>, q: Query, repos: seq<Repo>,
                                    feeds: seq<seq<seq<Event>>>)
    requires outHash.Length == outTime.Length == |repos| == |feeds|
    modifies outHash, outTime
    ensures forall r :: 0 <= r < |repos| ==>
              Pick(outHash[r], outTime[r]) == Selected(q, repos[r], Flatten(feeds[r]))
  {
    var n := |repos|;
    for r := 0 to n
      invariant forall k :: 0 <= k < r ==> outHash[k] == "" && outTime[k] == 0
    {
      outHash[r], outTime[r] := "", 0;
    }
    var latestHash, latestTime := new string[n](_ => ""), new int[n](_ => 0);
    var t := Tables(outHash, outTime, latestHash, latestTime);
    var at := 0;
    while at < n
      invariant at <= n || (at < n + MAX_WORKER)
      invariant forall r :: 0 <= r < n && at <= r ==> t.Row(n, r) == IDLE
      invariant Settled(q, repos, feeds, t, if at <= n then at else n)
    {
      var workerCount := if n - at < MAX_WORKER then n - at else MAX_WORKER;
      label Before:
      RunBatch(q, repos, feeds, t, at, workerCount);
      assert forall r :: 0 <= r < at ==> t.Row(n, r) == old@Before(t.Row(n, r));
      assert forall r :: 0 <= r < at ==> Pick(t.outHash[r], t.outTime[r]) == t.Row(n, r).out;
      assert forall r :: 0 <= r < at ==> old@Before(Pick(t.outHash[r], t.outTime[r])) == old@Before(t.Row(n, r).out);
      at := at + MAX_WORKER;
    }
  }
}
