/**
  What a run of the download controller guarantees, proved about the
  specification `Run` of module Pagination (which the program's loop is proved
  to compute). The trace is read through a few selectors: the search
  requests, the saved files, the sleeps, the cleanups and the download
  attempts.
*/
module PaginationProperties {
  import opened Wrappers
  import opened Folders
  import opened Providers
  import opened Pagination

  // ---------------------------------------------------------------------------
  // Reading the trace

  predicate IsRequest(e: Event) { e.Request? }
  predicate IsSaved(e: Event) { e.Saved? }
  predicate IsSleep(e: Event) { e.Sleep? }
  predicate IsCleanup(e: Event) { e.Cleanup? }

  /** The events of `t` that `keep` selects, in order. */
  function Select(t: seq<Event>, keep: Event -> bool): (r: seq<Event>)
    ensures |r| <= |t|
    ensures forall k | 0 <= k < |r| :: keep(r[k])
  {
    if t == [] then [] else Select(t[..|t| - 1], keep) + (if keep(t[|t| - 1]) then [t[|t| - 1]] else [])
  }

  function Requests(t: seq<Event>): seq<Event> { Select(t, IsRequest) }
  function Cleanups(t: seq<Event>): seq<Event> { Select(t, IsCleanup) }
  function CountSaved(t: seq<Event>): nat { |Select(t, IsSaved)| }
  function CountSleeps(t: seq<Event>): nat { |Select(t, IsSleep)| }

  /** The URLs `download` was called on, in order. */
  function Attempts(t: seq<Event>): seq<string> {
    if t == [] then []
    else Attempts(t[..|t| - 1]) + (if t[|t| - 1].Saved? || t[|t| - 1].Skipped? then [t[|t| - 1].url] else [])
  }

  /** Requests for pages 1, 2, 3, ... in order, all with the same page size. */
  predicate PagesInOrder(requests: seq<Event>, perPage: nat) {
    forall k | 0 <= k < |requests| :: requests[k] == Request(k + 1, perPage)
  }

  /** Every sleep comes right after a saved file. */
  predicate SleepsFollowSaves(t: seq<Event>) {
    forall i | 0 <= i < |t| && t[i].Sleep? :: i > 0 && t[i - 1].Saved?
  }

  lemma {:induction false} SelectSnoc(t: seq<Event>, e: Event, keep: Event -> bool)
    ensures Select(t + [e], keep) == Select(t, keep) + (if keep(e) then [e] else [])
  {
    assert (t + [e])[..|t|] == t;
  }

  lemma {:induction false} AttemptsSnoc(t: seq<Event>, e: Event)
    ensures Attempts(t + [e]) == Attempts(t) + (if e.Saved? || e.Skipped? then [e.url] else [])
  {
    assert (t + [e])[..|t|] == t;
  }

  lemma {:induction false} SleepsSnoc(t: seq<Event>, e: Event)
    requires SleepsFollowSaves(t)
    requires e.Sleep? ==> t != [] && t[|t| - 1].Saved?
    ensures SleepsFollowSaves(t + [e])
  {
    var u := t + [e];
    forall i | 0 <= i < |u| && u[i].Sleep? ensures i > 0 && u[i - 1].Saved? {
      if i < |t| {
        assert u[i] == t[i];
      }
    }
  }

  /** What appending one event does to each selector. */
  lemma {:induction false} SnocEvents(t: seq<Event>, e: Event)
    ensures Requests(t + [e]) == Requests(t) + (if e.Request? then [e] else [])
    ensures Cleanups(t + [e]) == Cleanups(t) + (if e.Cleanup? then [e] else [])
    ensures CountSaved(t + [e]) == CountSaved(t) + (if e.Saved? then 1 else 0)
    ensures CountSleeps(t + [e]) == CountSleeps(t) + (if e.Sleep? then 1 else 0)
    ensures Attempts(t + [e]) == Attempts(t) + (if e.Saved? || e.Skipped? then [e.url] else [])
  {
    SelectSnoc(t, e, IsRequest);
    SelectSnoc(t, e, IsCleanup);
    SelectSnoc(t, e, IsSaved);
    SelectSnoc(t, e, IsSleep);
    AttemptsSnoc(t, e);
  }

  // ---------------------------------------------------------------------------
  // The folder during a run

  /** Every file of `before` is still there with the same bytes. */
  ghost predicate Kept(before: map<string, Bytes>, after: map<string, Bytes>) {
    forall k | k in before :: k in after && after[k] == before[k]
  }

  /** Every file added since `before` is named after the digest of its bytes. */
  ghost predicate NamedByContent(before: map<string, Bytes>, after: map<string, Bytes>, digest: Bytes -> Digest) {
    forall k | k in after && k !in before :: k == FileName(digest, after[k])
  }

  /** How `got`, the trace and the folder relate while files are downloaded into
      the folder that was `origin` when the loop started. */
  ghost predicate Tally(env: Env, origin: FolderState, st: Loop) {
    && CountSaved(st.trace) == st.got
    && SleepsFollowSaves(st.trace)
    && st.folder.IsDirectory()
    && Kept(origin.entries, st.folder.entries)
    && NamedByContent(origin.entries, st.folder.entries, env.digest)
    && JpgCount(st.folder.entries) <= JpgCount(origin.entries) + st.got
    && (st.got == 0 ==> st.folder == origin)
    && (st.got > 0 ==> st.folder.entries != map[])
  }

  /** A successful download keeps the tally, with one more file counted. */
  lemma SavedKeepsTally(env: Env, origin: FolderState, st: Loop, url: string, name: string, folder: FolderState)
    requires Tally(env, origin, st)
    requires Downloaded(st.folder, env.digest, env.fetch(url)) == Some((name, folder))
    ensures Tally(env, origin, st.(got := st.got + 1, folder := folder, trace := st.trace + [Saved(url, name)]))
  {
    var content := env.fetch(url).value;
    SnocEvents(st.trace, Saved(url, name));
    SleepsSnoc(st.trace, Saved(url, name));
    JpgCountAfterDownload(st.folder, env.digest, content);
    assert name in folder.entries;
  }

  /** The inner loop is its first turn followed by the rest of the loop,
      unless that turn met the target. */
  lemma DrainUnfold(plan: Plan, env: Env, urls: seq<string>, i: nat, st: Loop)
    requires i < |urls| && st.got < plan.need
    ensures var next := DrainStep(plan, env, urls[i], st);
      && st.got <= next.got <= st.got + 1
      && (next.got >= plan.need ==> Drain(plan, env, urls, i, st) == next)
      && (next.got < plan.need ==> Drain(plan, env, urls, i, st) == Drain(plan, env, urls, i + 1, next))
  {
  }

  /** A skipped URL keeps the tally. */
  lemma SkippedKeepsTally(env: Env, origin: FolderState, st: Loop, url: string)
    requires Tally(env, origin, st)
    ensures var next := st.(trace := st.trace + [Skipped(url)]);
      && Tally(env, origin, next)
      && CountSleeps(next.trace) == CountSleeps(st.trace)
      && Requests(next.trace) == Requests(st.trace)
      && Cleanups(next.trace) == Cleanups(st.trace)
  {
    SnocEvents(st.trace, Skipped(url));
    SleepsSnoc(st.trace, Skipped(url));
  }

  /** The sleep after a saved file keeps the tally. */
  lemma SleepKeepsTally(env: Env, origin: FolderState, st: Loop)
    requires Tally(env, origin, st) && st.trace != [] && st.trace[|st.trace| - 1].Saved?
    ensures var next := st.(trace := st.trace + [Sleep]);
      && Tally(env, origin, next)
      && CountSleeps(next.trace) == CountSleeps(st.trace) + 1
      && Requests(next.trace) == Requests(st.trace)
      && Cleanups(next.trace) == Cleanups(st.trace)
  {
    SnocEvents(st.trace, Sleep);
    SleepsSnoc(st.trace, Sleep);
  }

  /** One URL keeps the tally. */
  lemma DrainStepKeepsTally(plan: Plan, env: Env, origin: FolderState, url: string, st: Loop)
    requires st.got < plan.need
    requires Tally(env, origin, st) && CountSleeps(st.trace) == st.got
    ensures var next := DrainStep(plan, env, url, st);
      && Tally(env, origin, next)
      && CountSleeps(next.trace) + (if next.got == plan.need then 1 else 0) == next.got
      && Requests(next.trace) == Requests(st.trace)
      && Cleanups(next.trace) == Cleanups(st.trace)
  {
    match Downloaded(st.folder, env.digest, env.fetch(url))
    case None =>
      SkippedKeepsTally(env, origin, st, url);
    case Some((name, folder)) =>
      var saved := st.(got := st.got + 1, folder := folder, trace := st.trace + [Saved(url, name)]);
      SavedKeepsTally(env, origin, st, url, name, folder);
      SnocEvents(st.trace, Saved(url, name));
      if saved.got < plan.need {
        SleepKeepsTally(env, origin, saved);
      }
  }

  /** The inner loop keeps the tally; it adds no request and no cleanup; and it
      sleeps after every file it saves except one that reaches the target. */
  lemma {:induction false} DrainKeepsTally(plan: Plan, env: Env, origin: FolderState, urls: seq<string>, i: nat, st: Loop)
    requires i <= |urls| && st.got < plan.need
    requires Tally(env, origin, st) && CountSleeps(st.trace) == st.got
    ensures var r := Drain(plan, env, urls, i, st);
      && Tally(env, origin, r)
      && CountSleeps(r.trace) + (if r.got == plan.need then 1 else 0) == r.got
      && Requests(r.trace) == Requests(st.trace)
      && Cleanups(r.trace) == Cleanups(st.trace)
    decreases |urls| - i
  {
    if i < |urls| {
      DrainUnfold(plan, env, urls, i, st);
      DrainStepKeepsTally(plan, env, origin, urls[i], st);
      var next := DrainStep(plan, env, urls[i], st);
      if next.got < plan.need {
        DrainKeepsTally(plan, env, origin, urls, i + 1, next);
      }
    }
  }

  /** One URL adds exactly that URL to the attempts; it counts only when its
      download succeeded. */
  lemma DrainStepAttempts(plan: Plan, env: Env, url: string, st: Loop)
    ensures var next := DrainStep(plan, env, url, st);
      && Attempts(next.trace) == Attempts(st.trace) + [url]
      && (next.got != st.got ==> env.fetch(url).Some?)
  {
    match Downloaded(st.folder, env.digest, env.fetch(url))
    case None =>
      SnocEvents(st.trace, Skipped(url));
    case Some((name, folder)) =>
      var saved := st.(got := st.got + 1, folder := folder, trace := st.trace + [Saved(url, name)]);
      SnocEvents(st.trace, Saved(url, name));
      if saved.got < plan.need {
        SnocEvents(saved.trace, Sleep);
      }
  }

  /** The URLs of a page tried from `i` on: a prefix of `urls[i..]`. */
  predicate TriedFrom(before: seq<string>, after: seq<string>, urls: seq<string>, i: nat) {
    && i <= |urls|
    && |before| <= |after|
    && i + (|after| - |before|) <= |urls|
    && after == before + urls[i..i + (|after| - |before|)]
  }

  /** Trying `urls[i]` and then a run from `i + 1` is a run from `i`. */
  lemma TriedFromCons(a0: seq<string>, a1: seq<string>, ar: seq<string>, urls: seq<string>, i: nat)
    requires i < |urls| && a1 == a0 + [urls[i]] && TriedFrom(a1, ar, urls, i + 1)
    ensures TriedFrom(a0, ar, urls, i)
  {
    var tried := |ar| - |a1|;
    assert urls[i..i + 1 + tried] == [urls[i]] + urls[i + 1..i + 1 + tried];
  }

  /** Failure isolation within a page: the URLs `download` is called on are the
      page's URLs from `i` on, in order, with none skipped. */
  lemma {:induction false} DrainTriesInOrder(plan: Plan, env: Env, urls: seq<string>, i: nat, st: Loop)
    requires i <= |urls| && st.got < plan.need
    ensures TriedFrom(Attempts(st.trace), Attempts(Drain(plan, env, urls, i, st).trace), urls, i)
    decreases |urls| - i
  {
    var a0 := Attempts(st.trace);
    if i < |urls| {
      DrainUnfold(plan, env, urls, i, st);
      DrainStepAttempts(plan, env, urls[i], st);
      var next := DrainStep(plan, env, urls[i], st);
      var a1 := Attempts(next.trace);
      if next.got < plan.need {
        DrainTriesInOrder(plan, env, urls, i + 1, next);
        TriedFromCons(a0, a1, Attempts(Drain(plan, env, urls, i + 1, next).trace), urls, i);
      } else {
        assert urls[i..i + 1] == [urls[i]];
      }
    } else {
      assert urls[i..i] == [];
    }
  }

  /** A failed download never ends a page: unless the target was reached,
      every URL of the page from `i` on was tried; and when it was reached, the
      last thing done was saving the file that reached it. */
  lemma {:induction false} DrainLeavesEarlyOnlyAtTarget(plan: Plan, env: Env, urls: seq<string>, i: nat, st: Loop)
    requires i <= |urls| && st.got < plan.need
    ensures var r := Drain(plan, env, urls, i, st);
      && (r.got < plan.need ==> Attempts(r.trace) == Attempts(st.trace) + urls[i..])
      && (r.got == plan.need ==> |r.trace| > |st.trace| && r.trace[|r.trace| - 1].Saved?)
    decreases |urls| - i
  {
    if i < |urls| {
      DrainUnfold(plan, env, urls, i, st);
      DrainStepAttempts(plan, env, urls[i], st);
      var next := DrainStep(plan, env, urls[i], st);
      if next.got < plan.need {
        DrainLeavesEarlyOnlyAtTarget(plan, env, urls, i + 1, next);
        assert urls[i..] == [urls[i]] + urls[i + 1..];
        assert |next.trace| > |st.trace|;
      }
    } else {
      assert urls[i..] == [];
    }
  }

  /** When every download of a page succeeds, the page yields as many files as
      it has URLs left, up to what is still needed. */
  lemma {:induction false} DrainAllSucceed(plan: Plan, env: Env, urls: seq<string>, i: nat, st: Loop)
    requires i <= |urls| && st.got < plan.need && st.folder.IsDirectory()
    requires forall j | i <= j < |urls| :: env.fetch(urls[j]).Some?
    ensures Drain(plan, env, urls, i, st).got == Min(st.got + (|urls| - i), plan.need)
    decreases |urls| - i
  {
    if i < |urls| {
      DrainUnfold(plan, env, urls, i, st);
      DownloadSpec(st.folder, env.digest, env.fetch(urls[i]).value);
      var next := DrainStep(plan, env, urls[i], st);
      if next.got < plan.need {
        DrainAllSucceed(plan, env, urls, i + 1, next);
      }
    }
  }

  /** The trace of a page whose first two downloads succeed when two files
      are needed. */
  lemma TwoDownloadsTrace(plan: Plan, env: Env, urls: seq<string>, st: Loop)
    requires |urls| >= 2 && plan.need == 2 && st.got == 0 && st.folder.IsDirectory()
    requires env.fetch(urls[0]).Some? && env.fetch(urls[1]).Some?
    ensures var r := Drain(plan, env, urls, 0, st);
      && r.got == 2
      && r.trace == st.trace + [Saved(urls[0], FileName(env.digest, env.fetch(urls[0]).value)), Sleep,
                                Saved(urls[1], FileName(env.digest, env.fetch(urls[1]).value))]
  {
    DrainUnfold(plan, env, urls, 0, st);
    DownloadSpec(st.folder, env.digest, env.fetch(urls[0]).value);
    var first := DrainStep(plan, env, urls[0], st);
    var saved0 := Saved(urls[0], FileName(env.digest, env.fetch(urls[0]).value));
    var saved1 := Saved(urls[1], FileName(env.digest, env.fetch(urls[1]).value));
    assert first.trace == st.trace + [saved0] + [Sleep] && first.got == 1;
    DrainUnfold(plan, env, urls, 1, first);
    DownloadSpec(first.folder, env.digest, env.fetch(urls[1]).value);
    var second := DrainStep(plan, env, urls[1], first);
    assert second.trace == first.trace + [saved1] && second.got == 2;
    assert st.trace + [saved0] + [Sleep] + [saved1] == st.trace + [saved0, Sleep, saved1];
  }

  /** A page of five URLs that all download, when two files are still needed:
      exactly the first two are downloaded, and `time.sleep` runs once, between
      them. */
  lemma PartialPageStopsEarly(plan: Plan, env: Env, urls: seq<string>, st: Loop)
    requires |urls| == 5 && plan.need == 2 && st.got == 0 && st.folder.IsDirectory()
    requires forall j | 0 <= j < |urls| :: env.fetch(urls[j]).Some?
    ensures var r := Drain(plan, env, urls, 0, st);
      && r.got == 2
      && CountSleeps(r.trace) == CountSleeps(st.trace) + 1
      && Attempts(r.trace) == Attempts(st.trace) + urls[..2]
  {
    TwoDownloadsTrace(plan, env, urls, st);
    var saved0 := Saved(urls[0], FileName(env.digest, env.fetch(urls[0]).value));
    var saved1 := Saved(urls[1], FileName(env.digest, env.fetch(urls[1]).value));
    SnocEvents(st.trace, saved0);
    SnocEvents(st.trace + [saved0], Sleep);
    SnocEvents(st.trace + [saved0, Sleep], saved1);
    assert st.trace + [saved0] + [Sleep] == st.trace + [saved0, Sleep];
    assert st.trace + [saved0, Sleep] + [saved1] == st.trace + [saved0, Sleep, saved1];
    assert urls[..2] == [urls[0], urls[1]];
  }

  /** Two URLs whose downloads return the same bytes both count towards `got`,
      although the second leaves the folder as the first did: `got` counts
      successful downloads, not new files. */
  lemma DuplicateContentCountsTwice(plan: Plan, env: Env, u: string, v: string, st: Loop)
    requires st.got + 2 <= plan.need && st.folder.IsDirectory()
    requires env.fetch(u).Some? && env.fetch(v) == env.fetch(u)
    requires FileName(env.digest, env.fetch(u).value) !in st.folder.entries
    ensures var r := Drain(plan, env, [u, v], 0, st);
      && r.got == st.got + 2
      && r.folder.entries.Keys == st.folder.entries.Keys + {FileName(env.digest, env.fetch(u).value)}
      && JpgCount(r.folder.entries) == JpgCount(st.folder.entries) + 1
  {
    var content := env.fetch(u).value;
    DownloadTwiceIsOnce(st.folder, env.digest, content, content);
    JpgCountAfterDownload(st.folder, env.digest, content);
    DrainUnfold(plan, env, [u, v], 0, st);
    var next := DrainStep(plan, env, u, st);
    DrainUnfold(plan, env, [u, v], 1, next);
  }

  // ---------------------------------------------------------------------------
  // The outer loop

  /** No page up to `page` was requested after a streak of three empty pages. */
  ghost predicate NoStreakBefore(env: Env, page: nat) {
    forall q | 1 <= q <= page :: Streak(env, q) < MaxEmptyPages
  }

  /** Every search request before page `page` succeeded. */
  ghost predicate FetchedBefore(env: Env, page: nat) {
    forall q | 1 <= q < page :: PageAt(env, q).Fetched?
  }

  /** The history of pages grows by one page that was fetched and did not
      complete a streak. */
  lemma ExtendHistory(env: Env, page: nat)
    requires NoStreakBefore(env, page) && FetchedBefore(env, page)
    requires PageAt(env, page).Fetched? && Streak(env, page + 1) < MaxEmptyPages
    ensures NoStreakBefore(env, page + 1) && FetchedBefore(env, page + 1)
  {
  }

  /** What holds at the head of the `while` loop each time it runs another iteration. */
  ghost predicate Inv(plan: Plan, env: Env, origin: FolderState, st: Loop) {
    && Running(plan, env, st)
    && (st.infoShown <==> st.page > 1)
    && (st.page == 1 ==> st.got == 0)
    && (st.page > 1 ==> PageAt(env, 1).Fetched? && HasResults(PageAt(env, 1).info))
    && |Requests(st.trace)| == st.page - 1
    && PagesInOrder(Requests(st.trace), plan.perPage)
    && NoStreakBefore(env, st.page)
    && FetchedBefore(env, st.page)
    && Tally(env, origin, st)
    && CountSleeps(st.trace) == st.got
    && Cleanups(st.trace) == []
  }

  /** What holds when the loop has ended with `stop`, after `k` requests. */
  ghost predicate Final(plan: Plan, env: Env, origin: FolderState, r: Loop, stop: Stop) {
    var k := |Requests(r.trace)|;
    && k >= 1
    && PagesInOrder(Requests(r.trace), plan.perPage)
    && NoStreakBefore(env, k)
    && FetchedBefore(env, k)
    && (stop == RequestError <==> PageAt(env, k).RequestFailed?)
    && (stop == NoResults <==> k == 1 && PageAt(env, 1).Fetched? && !HasResults(PageAt(env, 1).info))
    && (stop == EmptyStreak <==> Streak(env, k + 1) >= MaxEmptyPages)
    && (stop == TargetMet <==> r.got == plan.need)
    && stop != FolderUnusable && stop != AlreadySatisfied
    && r.got <= plan.need
    && (stop != NoResults ==>
          && Tally(env, origin, r)
          && Cleanups(r.trace) == []
          && CountSleeps(r.trace) + (if stop == TargetMet then 1 else 0) == r.got)
    && (stop == NoResults ==>
          && r.got == 0 && CountSaved(r.trace) == 0 && CountSleeps(r.trace) == 0
          && SleepsFollowSaves(r.trace)
          && (if plan.wasNew
              then r.folder == Cleaned(origin, true).0 && Cleanups(r.trace) == [Cleanup(Cleaned(origin, true).1)]
              else r.folder == origin && Cleanups(r.trace) == []))
  }

  /** The loop starts in a state that satisfies the invariant. */
  lemma InitialInv(plan: Plan, env: Env, folder: FolderState)
    requires plan.need > 0 && folder.IsDirectory()
    ensures Inv(plan, env, folder, Loop(0, 1, 0, false, folder, []))
  {
    var st := Loop(0, 1, 0, false, folder, []);
    assert Requests(st.trace) == [] && Cleanups(st.trace) == [];
    assert CountSaved(st.trace) == 0 && CountSleeps(st.trace) == 0;
    assert Streak(env, 1) == 0;
  }

  /** The search request for the current page, appended to the trace. */
  lemma AskKeepsTally(plan: Plan, env: Env, origin: FolderState, st: Loop)
    requires Inv(plan, env, origin, st)
    ensures var asked := Asked(plan, st);
      && Tally(env, origin, asked)
      && CountSleeps(asked.trace) == st.got
      && Cleanups(asked.trace) == []
      && |Requests(asked.trace)| == st.page
      && PagesInOrder(Requests(asked.trace), plan.perPage)
  {
    var e := Request(st.page, plan.perPage);
    SnocEvents(st.trace, e);
    SleepsSnoc(st.trace, e);
    var rs := Requests(st.trace + [e]);
    assert rs == Requests(st.trace) + [e];
    forall k | 0 <= k < |rs| ensures rs[k] == Request(k + 1, plan.perPage) {
      if k < |rs| - 1 {
        assert rs[k] == Requests(st.trace)[k];
      }
    }
  }

  /** An empty page that does not end the streak keeps the invariant. */
  lemma EmptyPageKeepsInv(plan: Plan, env: Env, origin: FolderState, st: Loop)
    requires Inv(plan, env, origin, st) && Step(plan, env, st).Continue?
    requires EmptyAt(env, st.page)
    ensures Inv(plan, env, origin, Step(plan, env, st).next)
  {
    var asked := st.(trace := st.trace + [Request(st.page, plan.perPage)]);
    AskKeepsTally(plan, env, origin, st);
    var next := asked.(infoShown := true, empties := st.empties + 1, page := st.page + 1);
    assert Step(plan, env, st).next == next;
    assert Streak(env, next.page) == next.empties;
    ExtendHistory(env, st.page);
  }

  /** Downloading a page's URLs keeps the tally and adds no request and no cleanup. */
  lemma AfterPageTally(plan: Plan, env: Env, origin: FolderState, st: Loop, urls: seq<string>)
    requires Inv(plan, env, origin, st)
    ensures var next := AfterPage(plan, env, Asked(plan, st), urls);
      && Tally(env, origin, next)
      && CountSleeps(next.trace) + (if next.got == plan.need then 1 else 0) == next.got
      && Requests(next.trace) == Requests(Asked(plan, st).trace)
      && Cleanups(next.trace) == []
      && next.page == st.page + 1 && next.empties == 0 && next.infoShown
      && st.got <= next.got <= plan.need
  {
    AskKeepsTally(plan, env, origin, st);
    DrainKeepsTally(plan, env, origin, urls, 0, Asked(plan, st).(infoShown := true, empties := 0));
  }

  /** A page with URLs after which the target is still not met keeps the invariant. */
  lemma FullPageKeepsInv(plan: Plan, env: Env, origin: FolderState, st: Loop)
    requires Inv(plan, env, origin, st)
    requires PageAt(env, st.page).Fetched? && PageAt(env, st.page).urls != []
    requires st.infoShown || HasResults(PageAt(env, st.page).info)
    requires AfterPage(plan, env, Asked(plan, st), PageAt(env, st.page).urls).got < plan.need
    ensures Inv(plan, env, origin, AfterPage(plan, env, Asked(plan, st), PageAt(env, st.page).urls))
  {
    AskKeepsTally(plan, env, origin, st);
    var urls := PageAt(env, st.page).urls;
    AfterPageTally(plan, env, origin, st, urls);
    var next := AfterPage(plan, env, Asked(plan, st), urls);
    assert Streak(env, next.page) == 0;
    ExtendHistory(env, st.page);
  }

  /** An iteration that goes on to the next page keeps the invariant. */
  lemma StepKeepsInv(plan: Plan, env: Env, origin: FolderState, st: Loop)
    requires Inv(plan, env, origin, st) && Step(plan, env, st).Continue?
    ensures Inv(plan, env, origin, Step(plan, env, st).next)
  {
    if EmptyAt(env, st.page) {
      EmptyPageKeepsInv(plan, env, origin, st);
    } else {
      assert Step(plan, env, st).next == AfterPage(plan, env, Asked(plan, st), PageAt(env, st.page).urls);
      FullPageKeepsInv(plan, env, origin, st);
    }
  }

  /** A failed search request ends the loop. */
  lemma FailedEndsFinal(plan: Plan, env: Env, origin: FolderState, st: Loop)
    requires Inv(plan, env, origin, st) && PageAt(env, st.page).RequestFailed?
    ensures Final(plan, env, origin, Asked(plan, st), RequestError)
  {
    AskKeepsTally(plan, env, origin, st);
    assert !EmptyAt(env, st.page);
  }

  /** A first page without results ends the loop, cleaning up a new folder. */
  lemma NoResultsEndsFinal(plan: Plan, env: Env, origin: FolderState, st: Loop)
    requires Inv(plan, env, origin, st) && PageAt(env, st.page).Fetched?
    requires !st.infoShown && !HasResults(PageAt(env, st.page).info)
    ensures Final(plan, env, origin, Abandoned(plan, Asked(plan, st)), NoResults)
  {
    var asked := Asked(plan, st);
    AskKeepsTally(plan, env, origin, st);
    assert st.page == 1 && st.folder == origin;
    assert Streak(env, 2) <= 1;
    if plan.wasNew {
      var (folder, removed) := Cleaned(asked.folder, true);
      SnocEvents(asked.trace, Cleanup(removed));
      SleepsSnoc(asked.trace, Cleanup(removed));
    }
  }

  /** The third empty page in a row ends the loop. */
  lemma EmptyStreakEndsFinal(plan: Plan, env: Env, origin: FolderState, st: Loop)
    requires Inv(plan, env, origin, st) && EmptyAt(env, st.page)
    requires st.infoShown || HasResults(PageAt(env, st.page).info)
    requires st.empties + 1 >= MaxEmptyPages
    ensures Final(plan, env, origin, Asked(plan, st).(infoShown := true, empties := st.empties + 1), EmptyStreak)
  {
    AskKeepsTally(plan, env, origin, st);
    assert Streak(env, st.page + 1) == st.empties + 1;
  }

  /** Reaching the target ends the loop. */
  lemma TargetEndsFinal(plan: Plan, env: Env, origin: FolderState, st: Loop)
    requires Inv(plan, env, origin, st)
    requires PageAt(env, st.page).Fetched? && PageAt(env, st.page).urls != []
    requires st.infoShown || HasResults(PageAt(env, st.page).info)
    requires AfterPage(plan, env, Asked(plan, st), PageAt(env, st.page).urls).got >= plan.need
    ensures Final(plan, env, origin, AfterPage(plan, env, Asked(plan, st), PageAt(env, st.page).urls), TargetMet)
  {
    AskKeepsTally(plan, env, origin, st);
    AfterPageTally(plan, env, origin, st, PageAt(env, st.page).urls);
    assert !EmptyAt(env, st.page);
  }

  /** An iteration that ends the loop establishes what holds at its end. */
  lemma StepEndsFinal(plan: Plan, env: Env, origin: FolderState, st: Loop)
    requires Inv(plan, env, origin, st) && Step(plan, env, st).Done?
    ensures Final(plan, env, origin, Step(plan, env, st).last, Step(plan, env, st).stop)
  {
    match PageAt(env, st.page)
    case RequestFailed =>
      FailedEndsFinal(plan, env, origin, st);
    case Fetched(urls, info) =>
      if !st.infoShown && !HasResults(info) {
        NoResultsEndsFinal(plan, env, origin, st);
      } else if urls == [] {
        EmptyStreakEndsFinal(plan, env, origin, st);
      } else {
        TargetEndsFinal(plan, env, origin, st);
      }
  }

  /** The whole loop, by induction on the pages left: from a state satisfying
      the invariant it ends in a state satisfying `Final`. */
  lemma {:induction false} PaginateFinal(plan: Plan, env: Env, origin: FolderState, st: Loop)
    requires Inv(plan, env, origin, st)
    ensures Final(plan, env, origin, Paginate(plan, env, st).0, Paginate(plan, env, st).1)
    decreases |env.responses| + MaxEmptyPages - st.page
  {
    StreakBound(env, st.page);
    match Step(plan, env, st)
    case Done(last, stop) =>
      StepEndsFinal(plan, env, origin, st);
    case Continue(next) =>
      StepKeepsInv(plan, env, origin, st);
      StreakBound(env, next.page);
      PaginateFinal(plan, env, origin, next);
  }

  // ---------------------------------------------------------------------------
  // The search counts of later pages

  /** Two environments that download alike, agree on the first page, and agree
      on every later page except perhaps in its search counts. */
  ghost predicate SameButLaterCounts(e1: Env, e2: Env) {
    && e1.fetch == e2.fetch
    && e1.digest == e2.digest
    && PageAt(e1, 1) == PageAt(e2, 1)
    && (forall p :: PageAt(e1, p).RequestFailed? <==> PageAt(e2, p).RequestFailed?)
    && (forall p | PageAt(e1, p).Fetched? :: PageAt(e2, p).Fetched? && PageAt(e1, p).urls == PageAt(e2, p).urls)
  }

  lemma {:induction false} StreakAgree(e1: Env, e2: Env, page: nat)
    requires SameButLaterCounts(e1, e2)
    ensures Streak(e1, page) == Streak(e2, page)
  {
    if page > 1 {
      assert EmptyAt(e1, page - 1) == EmptyAt(e2, page - 1);
      StreakAgree(e1, e2, page - 1);
    }
  }

  lemma {:induction false} DrainAgree(plan: Plan, e1: Env, e2: Env, urls: seq<string>, i: nat, st: Loop)
    requires i <= |urls| && st.got < plan.need
    requires e1.fetch == e2.fetch && e1.digest == e2.digest
    ensures Drain(plan, e1, urls, i, st) == Drain(plan, e2, urls, i, st)
    decreases |urls| - i
  {
    if i < |urls| {
      DrainUnfold(plan, e1, urls, i, st);
      DrainUnfold(plan, e2, urls, i, st);
      var next := DrainStep(plan, e1, urls[i], st);
      assert next == DrainStep(plan, e2, urls[i], st);
      if next.got < plan.need {
        DrainAgree(plan, e1, e2, urls, i + 1, next);
      }
    }
  }

  /** Once the first page is past, an iteration does not look at the search counts. */
  lemma StepAgree(plan: Plan, e1: Env, e2: Env, st: Loop)
    requires SameButLaterCounts(e1, e2) && Running(plan, e1, st)
    requires !st.infoShown ==> st.page == 1
    ensures Running(plan, e2, st)
    ensures Step(plan, e1, st) == Step(plan, e2, st)
    ensures Step(plan, e1, st).Continue? ==> Step(plan, e1, st).next.infoShown
  {
    StreakAgree(e1, e2, st.page);
    var r1, r2 := PageAt(e1, st.page), PageAt(e2, st.page);
    if r1.Fetched? && r1.urls != [] {
      DrainAgree(plan, e1, e2, r1.urls, 0, Asked(plan, st).(infoShown := true, empties := 0));
    }
  }

  /** The search counts of pages after the first never change the loop's result. */
  lemma {:induction false} LaterCountsIgnored(plan: Plan, e1: Env, e2: Env, st: Loop)
    requires SameButLaterCounts(e1, e2) && Running(plan, e1, st)
    requires !st.infoShown ==> st.page == 1
    ensures Running(plan, e2, st)
    ensures Paginate(plan, e1, st) == Paginate(plan, e2, st)
    decreases |e1.responses| + MaxEmptyPages - st.page
  {
    StreakBound(e1, st.page);
    StreakBound(e2, st.page);
    StepAgree(plan, e1, e2, st);
    match Step(plan, e1, st)
    case Done(last, stop) =>
    case Continue(next) =>
      LaterCountsIgnored(plan, e1, e2, next);
  }
}
