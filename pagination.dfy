/**
  The download controller of save_samples.py (`main` from the existing-file
  count on, and `display_search_info`'s decision).

  The environment is abstract: `responses[k]` is what the search request for
  page k + 1 produced (pages past the end come back empty), `fetch(url)` is
  what downloading `url` produced (`None` for an error), and `digest` is
  SHA-256 as hex. What the program does that others could observe (search
  requests, saved and skipped files, `time.sleep` calls, folder cleanups) is
  recorded as a trace of events.

  `Run` specifies a whole run as a function, with `Paginate` for the outer
  `while` loop and `Drain` for the inner `for` loop over a page's URLs;
  `DownloadSamples` is the program's loop, proved to compute `Run`.
*/
module Pagination {
  import opened Wrappers
  import opened Folders
  import opened Providers

  /** The provider's page-size ceiling. */
  const MaxPerPage: nat := 80

  /** `max_empty_pages`: consecutive empty pages that end the search. */
  const MaxEmptyPages: nat := 3

  datatype Event =
    | Request(page: nat, perPage: nat)   // one search request
    | Saved(url: string, name: string)   // `download` returned the file name
    | Skipped(url: string)               // `download` raised; the URL is skipped
    | Sleep                              // `time.sleep(delay)`
    | Cleanup(removed: bool)             // `cleanup_empty_folder` and its result

  /** Why a run ended. */
  datatype Stop =
    | FolderUnusable    // the output path exists and is not a directory: mkdir raises
    | AlreadySatisfied  // enough `.jpg` files before any request
    | NoResults         // the first page reported no (usable) results
    | RequestError      // a search request raised
    | EmptyStreak       // three consecutive pages without URLs
    | TargetMet         // `got` reached `additional_needed`

  datatype Env = Env(responses: seq<Response>, fetch: string -> Option<Bytes>, digest: Bytes -> Digest)

  /** The adapter's result for page `page` (numbered from 1). */
  function PageAt(env: Env, page: nat): PageResult {
    if 1 <= page <= |env.responses| then Extract(env.responses[page - 1])
    else Fetched([], SearchInfo(0, 0))
  }

  /** A page that came back without any candidate URL. */
  predicate EmptyAt(env: Env, page: nat) {
    PageAt(env, page).Fetched? && PageAt(env, page).urls == []
  }

  /** The number of consecutive empty pages just before `page`. */
  function Streak(env: Env, page: nat): nat {
    if page <= 1 || !EmptyAt(env, page - 1) then 0 else Streak(env, page - 1) + 1
  }

  /** Pages past the end are empty, so a streak shorter than three bounds the page number. */
  lemma StreakBound(env: Env, page: nat)
    ensures Streak(env, page) < MaxEmptyPages ==> page <= |env.responses| + MaxEmptyPages
  {
    if page > |env.responses| + MaxEmptyPages {
      assert EmptyAt(env, page - 1) && EmptyAt(env, page - 2) && EmptyAt(env, page - 3);
      assert Streak(env, page - 2) == Streak(env, page - 3) + 1;
      assert Streak(env, page - 1) == Streak(env, page - 2) + 1;
      assert Streak(env, page) == Streak(env, page - 1) + 1;
    }
  }

  /** The decision of `display_search_info`: go on unless `total` is 0 or `totalHits` is 0. */
  predicate HasResults(info: SearchInfo)
    ensures HasResults(info) <==> info.total != 0 && info.totalHits != 0
  {
    if info.total == 0 then false
    else if info.totalHits == 0 then false
    else true
  }

  function Min(a: nat, b: nat): nat {
    if a < b then a else b
  }

  /** What `main` fixes before the loop: `additional_needed`, `per_page` and
      whether this run created the folder. */
  datatype Plan = Plan(need: nat, perPage: nat, wasNew: bool)

  /** The loop's variables, the folder and the trace so far. */
  datatype Loop = Loop(got: nat, page: nat, empties: nat, infoShown: bool, folder: FolderState, trace: seq<Event>)

  /** The state at the head of the `while` loop when it runs another iteration. */
  predicate Running(plan: Plan, env: Env, st: Loop) {
    && st.page >= 1
    && st.got < plan.need
    && st.empties == Streak(env, st.page)
    && st.empties < MaxEmptyPages
  }

  /** One turn of the inner `for u in urls` loop: the URL is downloaded; a
      success counts and is followed by a sleep unless it met the target; a
      failure is skipped. */
  function DrainStep(plan: Plan, env: Env, url: string, st: Loop): (next: Loop)
    ensures next.page == st.page && next.empties == st.empties && next.infoShown == st.infoShown
    ensures st.got <= next.got <= st.got + 1
  {
    match Downloaded(st.folder, env.digest, env.fetch(url))
    case None => st.(trace := st.trace + [Skipped(url)])
    case Some((name, folder)) =>
      var saved := st.(got := st.got + 1, folder := folder, trace := st.trace + [Saved(url, name)]);
      if saved.got >= plan.need then saved else saved.(trace := saved.trace + [Sleep])
  }

  /** The inner `for u in urls` loop from index `i`: one turn per URL, until
      the URLs run out or a download meets the target (the `break`). */
  function Drain(plan: Plan, env: Env, urls: seq<string>, i: nat, st: Loop): (r: Loop)
    requires i <= |urls| && st.got < plan.need
    ensures r.page == st.page && r.empties == st.empties && r.infoShown == st.infoShown
    ensures st.got <= r.got <= plan.need
    decreases |urls| - i
  {
    if i == |urls| then st
    else
      var next := DrainStep(plan, env, urls[i], st);
      if next.got >= plan.need then next else Drain(plan, env, urls, i + 1, next)
  }

  /** How one iteration of the `while` loop ends. */
  datatype Iteration = Continue(next: Loop) | Done(last: Loop, stop: Stop)

  /** The search request for the current page, recorded. */
  function Asked(plan: Plan, st: Loop): Loop {
    st.(trace := st.trace + [Request(st.page, plan.perPage)])
  }

  /** Giving up because the search reported no results: a folder this run
      created is cleaned up. */
  function Abandoned(plan: Plan, st: Loop): Loop {
    if plan.wasNew then
      var (folder, removed) := Cleaned(st.folder, true);
      st.(folder := folder, trace := st.trace + [Cleanup(removed)])
    else st
  }

  /** A page with URLs: they are downloaded, the streak of empty pages is
      reset and the next page is due. */
  function AfterPage(plan: Plan, env: Env, st: Loop, urls: seq<string>): Loop
    requires st.got < plan.need
  {
    Drain(plan, env, urls, 0, st.(infoShown := true, empties := 0)).(page := st.page + 1)
  }

  /** One iteration of `while got < additional_needed`: request the page, check
      the search counts if not done yet, count an empty page or download the
      page's URLs, and move on to the next page. */
  function Step(plan: Plan, env: Env, st: Loop): (r: Iteration)
    requires Running(plan, env, st)
    ensures r.Continue? ==> Running(plan, env, r.next) && r.next.page == st.page + 1 && st.got <= r.next.got
    ensures r.Done? ==> && st.got <= r.last.got <= plan.need
                        && r.stop != FolderUnusable && r.stop != AlreadySatisfied
                        && (r.stop == TargetMet <==> r.last.got == plan.need)
  {
    var asked := Asked(plan, st);
    match PageAt(env, st.page)
    case RequestFailed => Done(asked, RequestError)
    case Fetched(urls, info) =>
      if !st.infoShown && !HasResults(info) then Done(Abandoned(plan, asked), NoResults)
      else if urls == [] then
        var counted := asked.(infoShown := true, empties := st.empties + 1);
        if counted.empties >= MaxEmptyPages then Done(counted, EmptyStreak)
        else Continue(counted.(page := st.page + 1))
      else
        var next := AfterPage(plan, env, asked, urls);
        if next.got >= plan.need then Done(next, TargetMet) else Continue(next)
  }

  /** The `while` loop from a state where it runs another iteration: the final
      state and why it stopped. */
  function Paginate(plan: Plan, env: Env, st: Loop): (r: (Loop, Stop))
    requires Running(plan, env, st)
    ensures st.got <= r.0.got <= plan.need
    ensures r.1 != FolderUnusable && r.1 != AlreadySatisfied
    ensures r.1 == TargetMet <==> r.0.got == plan.need
    decreases |env.responses| + MaxEmptyPages - st.page
  {
    StreakBound(env, st.page);
    match Step(plan, env, st)
    case Done(last, stop) => (last, stop)
    case Continue(next) => Paginate(plan, env, next)
  }

  /** One turn of `Paginate`. */
  lemma PaginateUnfold(plan: Plan, env: Env, st: Loop)
    requires Running(plan, env, st)
    ensures var r := Step(plan, env, st);
      && (r.Done? ==> Paginate(plan, env, st) == (r.last, r.stop))
      && (r.Continue? ==> Paginate(plan, env, st) == Paginate(plan, env, r.next))
  {
  }

  /** The result of a run: the folder, the trace, why it stopped,
      `existing_count` and `got`. */
  datatype Outcome = Outcome(folder: FolderState, trace: seq<Event>, stop: Stop, existing: nat, got: nat)

  /** What `main` does after its loop: a run that saved nothing into a folder
      that holds no `.jpg` file attempts the cleanup, unless the search-info
      check already ended the run. */
  function Wrapup(existing: nat, wasNew: bool, st: Loop, stop: Stop): (o: Outcome)
    ensures o.existing == existing && o.got == st.got && o.stop == stop
    ensures o.trace != st.trace <==> stop != NoResults && existing == 0 && st.got == 0
    ensures o.trace != st.trace ==> o.trace == st.trace + [Cleanup(o.folder != st.folder)]
    ensures o.folder != st.folder ==> wasNew && st.folder.IsDirectory() && !o.folder.present
  {
    if stop == NoResults then Outcome(st.folder, st.trace, stop, existing, st.got)
    else if st.got > 0 || existing + st.got > 0 then Outcome(st.folder, st.trace, stop, existing, st.got)
    else
      var (after, removed) := Cleaned(st.folder, wasNew);
      Outcome(after, st.trace + [Cleanup(removed)], stop, existing, st.got)
  }

  /** A whole run of `main` once the configuration is read, for target `n` and
      the output path in state `initial`. */
  function Run(n: int, initial: FolderState, env: Env): (o: Outcome)
    ensures o.stop == FolderUnusable <==> initial.present && !initial.isDir
    ensures o.stop == FolderUnusable ==> o.folder == initial && o.trace == []
    ensures o.stop == AlreadySatisfied ==> o.existing >= n && o.got == 0 && o.trace == []
    ensures o.stop != FolderUnusable && o.stop != AlreadySatisfied ==> o.existing < n && o.got <= n - o.existing
    ensures o.stop == TargetMet <==> o.stop != FolderUnusable && o.stop != AlreadySatisfied && o.existing + o.got == n
  {
    var wasNew := !initial.present;
    match Ensured(initial)
    case None => Outcome(initial, [], FolderUnusable, 0, 0)
    case Some(folder) =>
      var existing := JpgCount(folder.entries);
      if existing >= n then Outcome(folder, [], AlreadySatisfied, existing, 0)
      else
        var need := n - existing;
        var plan := Plan(need, Min(need, MaxPerPage), wasNew);
        var (st, stop) := Paginate(plan, env, Loop(0, 1, 0, false, folder, []));
        Wrapup(existing, wasNew, st, stop)
  }

  // ---------------------------------------------------------------------------
  // The program

  /** The search request for `page`. */
  method SearchPage(env: Env, page: nat) returns (result: PageResult)
    ensures result == PageAt(env, page)
  {
    if 1 <= page <= |env.responses| {
      result := Search(env.responses[page - 1]);
    } else {
      result := Fetched([], SearchInfo(0, 0));
    }
  }

  /** `display_search_info(search_info, provider, out, was_newly_created)`: whether
      to go on, and the result of the cleanup it attempts when the folder is new. */
  method DisplaySearchInfo(folder: Folder, info: SearchInfo, wasNewlyCreated: bool)
    returns (proceed: bool, removed: Option<bool>)
    modifies folder
    ensures proceed == HasResults(info)
    ensures removed.Some? <==> !proceed && wasNewlyCreated
    ensures removed.Some? ==> (folder.State(), removed.value) == Cleaned(old(folder.State()), true)
    ensures removed.None? ==> folder.State() == old(folder.State())
  {
    removed := None;
    if info.total == 0 || info.totalHits == 0 {
      if wasNewlyCreated {
        var r := folder.CleanupEmpty(wasNewlyCreated);
        removed := Some(r);
      }
      return false, removed;
    }
    return true, removed;
  }

  /** The `for u in urls` loop of `main`, from the state `st` of the page. */
  method DownloadPage(folder: Folder, env: Env, urls: seq<string>, need: nat, got0: nat, trace0: seq<Event>,
                      ghost plan: Plan, ghost st: Loop)
    returns (got: nat, trace: seq<Event>)
    requires plan.need == need && got0 < need
    requires st.got == got0 && st.trace == trace0 && st.folder == folder.State()
    modifies folder
    ensures var r := Drain(plan, env, urls, 0, st);
      got == r.got && trace == r.trace && folder.State() == r.folder
  {
    got, trace := got0, trace0;
    var i := 0;
    while i < |urls|
      invariant 0 <= i <= |urls| && got < need
      invariant Drain(plan, env, urls, i, st.(got := got, folder := folder.State(), trace := trace))
             == Drain(plan, env, urls, 0, st)
    {
      var name := folder.Download(env.digest, env.fetch(urls[i]));
      if name.Some? {
        got := got + 1;
        trace := trace + [Saved(urls[i], name.value)];
        if got >= need {
          return;
        }
        trace := trace + [Sleep];
      } else {
        trace := trace + [Skipped(urls[i])];
      }
      i := i + 1;
    }
  }

  /** One pass through the body of `main`'s `while` loop: the request, the
      one-shot search-info check, and the empty-page count or the downloads.
      `done` tells whether the loop ends here, and why. */
  method Iterate(folder: Folder, env: Env, ghost plan: Plan, need: nat, perPage: nat, wasNew: bool,
                 got0: nat, page0: nat, empties0: nat, infoShown0: bool, trace0: seq<Event>)
    returns (got: nat, page: nat, empties: nat, infoShown: bool, trace: seq<Event>, done: bool, stop: Stop)
    requires plan == Plan(need, perPage, wasNew)
    requires Running(plan, env, Loop(got0, page0, empties0, infoShown0, folder.State(), trace0))
    modifies folder
    ensures var r := Step(plan, env, Loop(got0, page0, empties0, infoShown0, old(folder.State()), trace0));
      var st := Loop(got, page, empties, infoShown, folder.State(), trace);
      if done then r == Done(st, stop) else r == Continue(st)
    ensures !done || stop == TargetMet ==> page == page0 + 1 && (done <==> got >= need)
  {
    ghost var before := Loop(got0, page0, empties0, infoShown0, folder.State(), trace0);
    got, page, empties, infoShown := got0, page0, empties0, infoShown0;
    done, stop := true, TargetMet;
    var result := SearchPage(env, page);
    trace := trace0 + [Request(page, perPage)];
    if result.RequestFailed? {
      stop := RequestError;
      return;
    }
    var urls := result.urls;
    if !infoShown {
      var proceed, removed := DisplaySearchInfo(folder, result.info, wasNew);
      if !proceed {
        if removed.Some? {
          trace := trace + [Cleanup(removed.value)];
        }
        assert Abandoned(plan, Asked(plan, before)) == before.(folder := folder.State(), trace := trace);
        stop := NoResults;
        return;
      }
      infoShown := true;
    }
    if urls == [] {
      empties := empties + 1;
      if empties >= MaxEmptyPages {
        stop := EmptyStreak;
        return;
      }
      page := page + 1;
      done := false;
      return;
    }
    empties := 0;
    ghost var shown := Loop(got, page, empties, infoShown, folder.State(), trace);
    assert shown == Asked(plan, before).(infoShown := true, empties := 0);
    got, trace := DownloadPage(folder, env, urls, need, got, trace, plan, shown);
    page := page + 1;
    assert Loop(got, page, empties, infoShown, folder.State(), trace) == AfterPage(plan, env, Asked(plan, before), urls);
    done := got >= need;
  }

  /** The `while got < additional_needed` loop of `main` with its one-shot
      search-info check, from page 1 with nothing downloaded. */
  method PaginateLoop(folder: Folder, env: Env, need: nat, perPage: nat, wasNew: bool)
    returns (got: nat, trace: seq<Event>, stop: Stop)
    requires need > 0
    modifies folder
    ensures var (st, s) := Paginate(Plan(need, perPage, wasNew), env, Loop(0, 1, 0, false, old(folder.State()), []));
      got == st.got && trace == st.trace && stop == s && folder.State() == st.folder
  {
    ghost var plan := Plan(need, perPage, wasNew);
    ghost var goal := Paginate(plan, env, Loop(0, 1, 0, false, folder.State(), []));
    got, trace := 0, [];
    var page: nat := 1;
    var empties: nat := 0;
    var infoShown := false;
    stop := TargetMet;
    while got < need
      invariant page >= 1 && got <= need && stop == TargetMet
      invariant got < need ==> empties == Streak(env, page) && empties < MaxEmptyPages
      invariant got < need ==> Paginate(plan, env, Loop(got, page, empties, infoShown, folder.State(), trace)) == goal
      invariant got >= need ==> goal == (Loop(got, page, empties, infoShown, folder.State(), trace), TargetMet)
      decreases |env.responses| + MaxEmptyPages - page
    {
      StreakBound(env, page);
      PaginateUnfold(plan, env, Loop(got, page, empties, infoShown, folder.State(), trace));
      var done, s;
      got, page, empties, infoShown, trace, done, s := Iterate(folder, env, plan, need, perPage, wasNew,
                                                               got, page, empties, infoShown, trace);
      if done && s != TargetMet {
        stop := s;
        return;
      }
    }
  }

  /** `main` from the check of the output folder to the end, for target `n`. */
  method DownloadSamples(folder: Folder, n: int, env: Env)
    returns (trace: seq<Event>, stop: Stop, existing: nat, got: nat)
    modifies folder
    ensures Outcome(folder.State(), trace, stop, existing, got) == Run(n, old(folder.State()), env)
  {
    trace, existing, got := [], 0, 0;
    var existed := folder.Exists();
    var wasNew := !existed;
    var ok := folder.EnsureDir();
    if !ok {
      return trace, FolderUnusable, existing, got;
    }
    existing := JpgCount(folder.entries);
    if existing >= n {
      return trace, AlreadySatisfied, existing, got;
    }
    var need: nat := n - existing;
    got, trace, stop := PaginateLoop(folder, env, need, Min(need, MaxPerPage), wasNew);
    if stop == NoResults {
      return;
    }
    if got == 0 && existing + got == 0 {
      var removed := folder.CleanupEmpty(wasNew);
      trace := trace + [Cleanup(removed)];
    }
  }
}
