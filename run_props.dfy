/**
  What a whole run of `main` guarantees, from the check of the output folder
  to the end: which requests it makes, how many files it counts, when it
  sleeps, when it stops and what it does to the folder. Every lemma is about
  `Run`, which `DownloadSamples` is proved to compute.
*/
module RunProperties {
  import opened Folders
  import opened Pagination
  import opened PaginationProperties

  /** `additional_needed` when the loop runs. */
  function Need(n: int, folder: FolderState): nat
    requires JpgCount(folder.entries) < n
  {
    n - JpgCount(folder.entries)
  }

  /** The plan `main` fixes before its loop. */
  function PlanFor(n: int, initial: FolderState, folder: FolderState): Plan
    requires JpgCount(folder.entries) < n
  {
    Plan(Need(n, folder), Min(Need(n, folder), MaxPerPage), !initial.present)
  }

  /** When the loop runs, how `Run` finishes from the loop's end. */
  lemma RunUnfold(n: int, initial: FolderState, env: Env)
    requires Ensured(initial).Some? && JpgCount(Ensured(initial).value.entries) < n
    ensures var folder := Ensured(initial).value;
      var plan := PlanFor(n, initial, folder);
      var (st, stop) := Paginate(plan, env, Loop(0, 1, 0, false, folder, []));
      var o := Run(n, initial, env);
      && o.existing == JpgCount(folder.entries) && o.got == st.got && o.stop == stop
      && (stop == NoResults || st.got > 0 || o.existing > 0 ==> o.trace == st.trace && o.folder == st.folder)
      && (stop != NoResults && st.got == 0 && o.existing == 0 ==>
            && o.folder == Cleaned(st.folder, plan.wasNew).0
            && o.trace == st.trace + [Cleanup(Cleaned(st.folder, plan.wasNew).1)])
  {
    var folder := Ensured(initial).value;
    var plan := PlanFor(n, initial, folder);
    var r := Paginate(plan, env, Loop(0, 1, 0, false, folder, []));
    var o := Run(n, initial, env);
    if r.1 != NoResults && r.0.got == 0 && JpgCount(folder.entries) == 0 {
      var (after, removed) := Cleaned(r.0.folder, plan.wasNew);
      assert o == Outcome(after, r.0.trace + [Cleanup(removed)], r.1, JpgCount(folder.entries), r.0.got);
    }
  }

  /** The trace selectors after the cleanup event `Run` may append. */
  lemma AfterCleanup(t: seq<Event>, removed: bool)
    ensures var u := t + [Cleanup(removed)];
      && Requests(u) == Requests(t) && CountSaved(u) == CountSaved(t) && CountSleeps(u) == CountSleeps(t)
      && Cleanups(u) == Cleanups(t) + [Cleanup(removed)]
      && (SleepsFollowSaves(t) ==> SleepsFollowSaves(u))
  {
    SnocEvents(t, Cleanup(removed));
    if SleepsFollowSaves(t) {
      SleepsSnoc(t, Cleanup(removed));
    }
  }

  /** When the loop runs: what holds at its end, and how `Run` finishes from there. */
  lemma RunLoop(n: int, initial: FolderState, env: Env)
    requires Ensured(initial).Some? && JpgCount(Ensured(initial).value.entries) < n
    ensures var folder := Ensured(initial).value;
      var plan := PlanFor(n, initial, folder);
      var (st, stop) := Paginate(plan, env, Loop(0, 1, 0, false, folder, []));
      var o := Run(n, initial, env);
      && Final(plan, env, folder, st, stop)
      && o.existing == JpgCount(folder.entries) && o.got == st.got && o.stop == stop
      && plan.perPage == Min(n - o.existing, MaxPerPage)
      && Requests(o.trace) == Requests(st.trace)
      && CountSaved(o.trace) == CountSaved(st.trace)
      && CountSleeps(o.trace) == CountSleeps(st.trace)
      && (SleepsFollowSaves(st.trace) ==> SleepsFollowSaves(o.trace))
      && (stop == NoResults || st.got > 0 || o.existing > 0 ==>
            o.trace == st.trace && o.folder == st.folder)
      && (stop != NoResults && st.got == 0 && o.existing == 0 ==>
            && st.folder == folder
            && o.folder == Cleaned(folder, plan.wasNew).0
            && Cleanups(o.trace) == Cleanups(st.trace) + [Cleanup(Cleaned(folder, plan.wasNew).1)])
  {
    var folder := Ensured(initial).value;
    var plan := PlanFor(n, initial, folder);
    InitialInv(plan, env, folder);
    PaginateFinal(plan, env, folder, Loop(0, 1, 0, false, folder, []));
    RunUnfold(n, initial, env);
    var r := Paginate(plan, env, Loop(0, 1, 0, false, folder, []));
    AfterCleanup(r.0.trace, Cleaned(r.0.folder, plan.wasNew).1);
  }

  /** No search request is made when the folder cannot be used or already holds
      `n` `.jpg` files; otherwise at least one is. */
  lemma NoSearchWhenEnoughFiles(n: int, initial: FolderState, env: Env)
    ensures var o := Run(n, initial, env);
      && (o.stop == FolderUnusable <==> initial.present && !initial.isDir)
      && (o.stop == AlreadySatisfied <==> Ensured(initial).Some? && JpgCount(Ensured(initial).value.entries) >= n)
      && (Requests(o.trace) == [] <==> o.stop == FolderUnusable || o.stop == AlreadySatisfied)
      && (o.stop == FolderUnusable || o.stop == AlreadySatisfied ==> o.trace == [] && o.got == 0)
  {
    var o := Run(n, initial, env);
    if Ensured(initial).Some? && JpgCount(Ensured(initial).value.entries) < n {
      RunLoop(n, initial, env);
      var folder := Ensured(initial).value;
      var (st, stop) := Paginate(PlanFor(n, initial, folder), env, Loop(0, 1, 0, false, folder, []));
    } else {
      assert Requests([]) == [];
    }
  }

  /** Every search request asks for the next page, from page 1 on, with the
      same page size `min(n - existing_count, 80)`. */
  lemma RequestsAreConsecutivePages(n: int, initial: FolderState, env: Env)
    ensures var o := Run(n, initial, env);
      o.stop != FolderUnusable && o.stop != AlreadySatisfied ==>
        && 0 < n - o.existing
        && 1 <= Min(n - o.existing, MaxPerPage) <= MaxPerPage
        && |Requests(o.trace)| >= 1
        && PagesInOrder(Requests(o.trace), Min(n - o.existing, MaxPerPage))
  {
    if Ensured(initial).Some? && JpgCount(Ensured(initial).value.entries) < n {
      RunLoop(n, initial, env);
      var folder := Ensured(initial).value;
      var (st, stop) := Paginate(PlanFor(n, initial, folder), env, Loop(0, 1, 0, false, folder, []));
    }
  }

  /** `got` counts the successful downloads, never exceeds
      `additional_needed`, and the run reports the target met exactly when
      `existing_count + got` reached `n` in the loop. */
  lemma DownloadsBounded(n: int, initial: FolderState, env: Env)
    ensures var o := Run(n, initial, env);
      && o.got == CountSaved(o.trace)
      && o.existing == (if Ensured(initial).Some? then JpgCount(Ensured(initial).value.entries) else 0)
      && (o.got > 0 ==> o.existing + o.got <= n)
      && (o.stop == TargetMet <==> o.existing < n && o.existing + o.got == n)
  {
    if Ensured(initial).Some? && JpgCount(Ensured(initial).value.entries) < n {
      RunLoop(n, initial, env);
      var folder := Ensured(initial).value;
      var (st, stop) := Paginate(PlanFor(n, initial, folder), env, Loop(0, 1, 0, false, folder, []));
    } else {
      assert CountSaved([]) == 0;
    }
  }

  /** `time.sleep` runs right after a successful download, after every one
      except the download that reaches the target, and never otherwise. */
  lemma SleepsOnlyBetweenDownloads(n: int, initial: FolderState, env: Env)
    ensures var o := Run(n, initial, env);
      && SleepsFollowSaves(o.trace)
      && CountSleeps(o.trace) + (if o.stop == TargetMet then 1 else 0) == o.got
  {
    if Ensured(initial).Some? && JpgCount(Ensured(initial).value.entries) < n {
      RunLoop(n, initial, env);
      var folder := Ensured(initial).value;
      var (st, stop) := Paginate(PlanFor(n, initial, folder), env, Loop(0, 1, 0, false, folder, []));
    } else {
      assert CountSleeps([]) == 0;
    }
  }

  /** With k the number of requests: the pages before page k were all fetched
      and none of them completed a streak of three empty pages; the run stops
      on an empty streak exactly when pages k-2, k-1 and k were all empty, and
      on a request error exactly when the request for page k failed. */
  lemma SearchStopsWhereItShould(n: int, initial: FolderState, env: Env)
    ensures var o := Run(n, initial, env);
      var k := |Requests(o.trace)|;
      && NoStreakBefore(env, k)
      && FetchedBefore(env, k)
      && (o.stop == EmptyStreak <==> k > 0 && Streak(env, k + 1) >= MaxEmptyPages)
      && (o.stop == RequestError <==> k > 0 && PageAt(env, k).RequestFailed?)
  {
    var o := Run(n, initial, env);
    if Ensured(initial).Some? && JpgCount(Ensured(initial).value.entries) < n {
      RunLoop(n, initial, env);
      var folder := Ensured(initial).value;
      var (st, stop) := Paginate(PlanFor(n, initial, folder), env, Loop(0, 1, 0, false, folder, []));
    } else {
      assert Requests([]) == [];
    }
  }

  /** The search counts end the run exactly when the first page was fetched and
      reported `total` or `totalHits` as 0; the run then made that one request,
      downloaded nothing, and attempted a cleanup exactly when it created the folder. */
  lemma SearchInfoCheckedOnFirstPage(n: int, initial: FolderState, env: Env)
    ensures var o := Run(n, initial, env);
      && (o.stop == NoResults <==>
            && Ensured(initial).Some? && JpgCount(Ensured(initial).value.entries) < n
            && PageAt(env, 1).Fetched? && !HasResults(PageAt(env, 1).info))
      && (o.stop == NoResults ==>
            && |Requests(o.trace)| == 1 && o.got == 0
            && (Cleanups(o.trace) != [] <==> !initial.present))
  {
    if Ensured(initial).Some? && JpgCount(Ensured(initial).value.entries) < n {
      RunLoop(n, initial, env);
      var folder := Ensured(initial).value;
      var (st, stop) := Paginate(PlanFor(n, initial, folder), env, Loop(0, 1, 0, false, folder, []));
    }
  }

  /** The folder is gone after the run exactly when the run created it, had
      something to fetch, and saved nothing; a cleanup is attempted at most
      once, and only when nothing was there and nothing was saved. */
  lemma FolderRemovedOnlyWhenNewAndEmpty(n: int, initial: FolderState, env: Env)
    ensures var o := Run(n, initial, env);
      && (!o.folder.present <==> !initial.present && n > 0 && o.got == 0)
      && |Cleanups(o.trace)| <= 1
      && (Cleanups(o.trace) != [] ==> o.existing == 0 && o.got == 0)
  {
    if Ensured(initial).Some? && JpgCount(Ensured(initial).value.entries) < n {
      RunLoop(n, initial, env);
      var folder := Ensured(initial).value;
      var wasNew := !initial.present;
      var (st, stop) := Paginate(PlanFor(n, initial, folder), env, Loop(0, 1, 0, false, folder, []));
      CleanedRemovesOnlyNewEmpty(folder, wasNew);
      CleanedRemovesOnlyNewEmpty(folder, true);
      if wasNew {
        assert folder.entries == map[];
      }
    } else {
      assert Cleanups([]) == [];
    }
  }

  /** No file that was in the folder is overwritten or removed unless the folder
      itself is; every new file is named after its content; and the `.jpg`
      count grows by at most `got`, less when a download repeated content. */
  lemma FilesNeverOverwritten(n: int, initial: FolderState, env: Env)
    ensures var o := Run(n, initial, env);
      && (Ensured(initial).None? ==> o.folder == initial)
      && (Ensured(initial).Some? && o.folder.present ==>
            var folder := Ensured(initial).value;
            && Kept(folder.entries, o.folder.entries)
            && NamedByContent(folder.entries, o.folder.entries, env.digest)
            && JpgCount(o.folder.entries) <= o.existing + o.got)
  {
    if Ensured(initial).Some? && JpgCount(Ensured(initial).value.entries) < n {
      RunLoop(n, initial, env);
      var folder := Ensured(initial).value;
      var wasNew := !initial.present;
      CleanedRemovesOnlyNewEmpty(folder, wasNew);
      CleanedRemovesOnlyNewEmpty(folder, true);
    }
  }

  /** The search counts are checked on the first page only: runs in two
      environments that differ only in the counts later pages report are the
      same run. */
  lemma LaterSearchCountsIgnored(n: int, initial: FolderState, e1: Env, e2: Env)
    requires SameButLaterCounts(e1, e2)
    ensures Run(n, initial, e1) == Run(n, initial, e2)
  {
    if Ensured(initial).Some? && JpgCount(Ensured(initial).value.entries) < n {
      var folder := Ensured(initial).value;
      var start := Loop(0, 1, 0, false, folder, []);
      var plan := PlanFor(n, initial, folder);
      assert Streak(e1, 1) == 0;
      LaterCountsIgnored(plan, e1, e2, start);
      var r := Paginate(plan, e1, start);
      assert Run(n, initial, e1) == Wrapup(JpgCount(folder.entries), plan.wasNew, r.0, r.1);
      assert Run(n, initial, e2) == Wrapup(JpgCount(folder.entries), plan.wasNew, r.0, r.1);
    }
  }
}
