# save_samples: a verified model of the sample-image downloader

save_samples.py downloads up to `n` sample images for a search query from
Pixabay or Pexels. The images go into a per-query folder. This project models
the parts of the program that decide what happens:

- `sanitize_folder_name`, which turns the query into a folder name
  (folder_name.dfy, module `FolderName`);
- the output folder with `ensure_dir`, `download` and `cleanup_empty_folder`
  (folders.dfy, module `Folders`). The folder is a value `FolderState` for
  the specification and a class `Folder` whose methods change it in place;
- what the two provider adapters take from a decoded JSON body: the candidate
  URLs and the search counts (providers.dfy, module `Providers`);
- `main` from the existing-file count on: the `while` loop over pages, the
  one-shot check of the search counts (`display_search_info`), the count of
  empty pages, the inner `for` loop over a page's URLs, and the cleanup after
  the loop (pagination.dfy, module `Pagination`);
- what a whole run guarantees (pagination_props.dfy and run_props.dfy).

The environment is a parameter `Env`:

- `responses[k]` is what the search request for page `k + 1` produced;
  pages past the end come back with no URLs and zero counts;
- `fetch(url)` is what downloading `url` produced (`None` for an error);
- `digest` is SHA-256 as a hex string.

Everything the program does that others can observe is a trace of events:
search requests, saved and skipped URLs, `time.sleep` calls and folder
cleanups. `Pagination.Run` specifies a whole run as a function.
`Pagination.DownloadSamples` is the program's imperative loop over the
`Folder` object, and it is proved to compute `Run`. The properties of runs are
then proved about `Run`.

The model follows the code in a few points where it differs from how the
program is usually described:

- `got` starts at 0, not at the existing count, and the loop runs while
  `got < n - existing_count`. The two formulations stop at the same point.
- Only `*.jpg` files count as existing files (`glob("*.jpg")`). The folder
  counts as empty for cleanup only when it has no entry at all (`glob("*")`).
- `time.sleep` is skipped only after the download that reaches the target.
  When a run ends for any other reason, the last successful download was
  still followed by a sleep (`SleepsOnlyBetweenDownloads`).
- `got` counts successful downloads, not new files. Two URLs with identical
  bytes add 2 to `got` but only one file (`DuplicateContentCountsTwice`).

## Model

| member | source | states |
|---|---|---|
| FolderName.Sanitize | save_samples.py:51-61 | the result is the placeholder `unknown` or what survives replacing, collapsing and stripping |
| FolderName.PlaceholderWhenNothingSurvives | save_samples.py:61 | when nothing survives the strip, `unknown` is returned; otherwise the non-empty survivor is returned (the query `unknown` also yields it) |
| FolderName.Replace | save_samples.py:56 | `replace(c, '_')` keeps the length, turns every `c` into `_` and keeps every other character |
| FolderName.ReplaceEach | save_samples.py:54-56 | the chain of `replace` calls maps each character on its own: one of `chars` becomes `_`, any other is kept, and the length is unchanged |
| FolderName.ReplacedAvoids | save_samples.py:54-56 | replacing characters by `_`, when `_` is not one of them, leaves none of them |
| FolderName.UnderscoreIsValid | save_samples.py:54-56 | `_` is not one of `<>:"/\|?*`, so the replacement character is itself allowed |
| FolderName.ReplacedIsValid | save_samples.py:54-56 | after the replacements no character of `<>:"/\|?*` remains |
| FolderName.WordLength | save_samples.py:58 | the first word is the longest non-empty prefix without whitespace |
| FolderName.Words | save_samples.py:58 | `split()` yields non-empty words made of non-whitespace characters of the input |
| FolderName.WordsLeadingSpace | save_samples.py:58 | `split()` skips whitespace in front of the first word |
| FolderName.WordsMaximalRun | save_samples.py:58 | a run of non-whitespace characters that ends at whitespace or at the end is taken whole as the next word; with `WordsLeadingSpace` and `Words("") == []` this fixes the words as the maximal runs, in order |
| FolderName.WordsCoverNonSpace | save_samples.py:58 | the words laid end to end are exactly the non-whitespace characters of the input, in order |
| FolderName.JoinCons | save_samples.py:58 | `join` puts exactly one separator between the first word and the join of the rest |
| FolderName.ScanJoinsWords | save_samples.py:58 | `'_'.join(s.split())` equals a character-by-character scan that keeps each non-whitespace character and puts one `_` for each run of whitespace between two kept characters |
| FolderName.Collapse | save_samples.py:58 | the collapse equals that scan from its start: leading and trailing whitespace vanish, and each inner run of whitespace becomes one `_` |
| FolderName.CollapseGap | save_samples.py:58 | a word, then a run of whitespace, then a word-start collapses to the word, one `_`, and the collapse of the rest |
| FolderName.CollapseLeadingSpace | save_samples.py:58 | leading whitespace does not change the collapse |
| FolderName.CollapseTrailingSpace | save_samples.py:58 | trailing whitespace does not change the collapse |
| FolderName.JoinChars | save_samples.py:58 | every character of a joined string is the separator or a character of a word |
| FolderName.CollapseChars | save_samples.py:58 | after `'_'.join(name.split())` every character is `_` or a non-whitespace character of the input |
| FolderName.CollapseOneWord | save_samples.py:58 | a non-empty string without whitespace is left unchanged by the collapse |
| FolderName.CollapsedIsValid | save_samples.py:58 | the collapse keeps a string free of invalid characters and removes all whitespace |
| FolderName.StripLeading | save_samples.py:60 | the result is a suffix of the input; everything dropped is `.` or `_`; a non-empty result does not start with either |
| FolderName.StripTrailing | save_samples.py:60 | the result is a prefix of the input; everything dropped is `.` or `_`; a non-empty result does not end with either |
| FolderName.StripSlice | save_samples.py:60 | `strip('._')` keeps one contiguous piece of the input, with only `.` and `_` cut on either side and neither at its ends |
| FolderName.Strip | save_samples.py:60 | `strip('._')` is no longer than its input, and a non-empty result neither starts nor ends with `.` or `_` |
| FolderName.StripKeeps | save_samples.py:60 | strip leaves alone a string whose ends are neither `.` nor `_` |
| FolderName.Stripped | save_samples.py:54-60 | what survives the three stages, when anything does, is a clean name: no `<>:"/\|?*`, no whitespace, and no `.` or `_` at either end |
| FolderName.StrippedIsClean | save_samples.py:60 | a non-empty stripped string without invalid characters or whitespace is a clean name |
| FolderName.PlaceholderIsClean | save_samples.py:61 | `unknown` is itself a clean name |
| FolderName.SanitizeIsClean | save_samples.py:51-61 | every result is non-empty, has no `<>:"/\|?*` and no whitespace, and neither starts nor ends with `.` or `_` |
| FolderName.SanitizeKeepsCleanName | save_samples.py:51-61 | a clean name comes back unchanged |
| FolderName.SanitizeIdempotent | save_samples.py:51-61 | sanitising twice gives the same name as sanitising once |
| Folders.FileName | save_samples.py:67-69 | the file name is 16 hex digits of the digest followed by `.jpg`, so `glob("*.jpg")` matches it |
| Folders.FileNameByContent | save_samples.py:68-69 | identical bytes get the same name whatever URL they came from; two names agree exactly when the 16-digit digest prefixes agree |
| Folders.WriteOnce | save_samples.py:70-72 | the name is added; existing files keep their bytes; a new name gets the content |
| Folders.Downloaded | save_samples.py:64-73 | a download succeeds exactly when bytes came back and the folder is a directory; then the name is derived from the bytes, the name is added, and every earlier file keeps its bytes |
| Folders.DownloadSpec | save_samples.py:64-73 | a successful download returns the content-derived name; a present name leaves the folder untouched; otherwise exactly that entry is added |
| Folders.DownloadTwiceIsOnce | save_samples.py:64-73 | downloading the same bytes twice leaves the folder as downloading them once |
| Folders.JpgCount | save_samples.py:233-234 | the count of `*.jpg` files is 0 exactly when no entry name ends in `.jpg` |
| Folders.JpgCountAfterDownload | save_samples.py:233-234 | a download adds one to the `*.jpg` count exactly when its name is new |
| Folders.Ensured | save_samples.py:29-30 | `ensure_dir` fails exactly on an existing non-directory; it creates a missing folder empty and leaves an existing directory as is |
| Folders.Cleaned | save_samples.py:32-48 | a removal happens only to a directory this run created, and leaves it absent and empty; when nothing is removed the folder is unchanged |
| Folders.CleanedRemovesOnlyNewEmpty | save_samples.py:32-48 | the folder is removed, and true returned, exactly when this run created it and it is an existing empty directory; otherwise nothing changes |
| Folders.Folder.Exists | save_samples.py:231 | `out.exists()` reports whether the path is present |
| Folders.Folder.EnsureDir | save_samples.py:29-30 | the new folder state is `Ensured` of the old one, and `ok` says whether mkdir succeeded |
| Folders.Folder.Download | save_samples.py:64-73 | the new folder state and the returned name are those of `Downloaded`; on failure nothing changes |
| Folders.Folder.CleanupEmpty | save_samples.py:32-48 | the new folder state and the result are those of `Cleaned` |
| Providers.Or | save_samples.py:111 | Python `a or b`: `a` when it is truthy, else `b`; the result is truthy exactly when one of them is |
| Providers.KeepTruthy | save_samples.py:113 | the filter keeps no more than its input and never an empty URL |
| Providers.KeepTruthyAppend | save_samples.py:110-114 | filtering keeps order: the filter of a concatenation is the concatenation of the filters |
| Providers.KeepTruthyMembers | save_samples.py:144 | a URL survives exactly when it is non-empty and one of the candidates |
| Providers.PixabayCandidates | save_samples.py:110-112 | one candidate per hit, in hit order |
| Providers.PixabayCandidatesAppend | save_samples.py:110-112 | the candidates of two runs of hits are the two runs' candidates in order |
| Providers.PixabayUrls | save_samples.py:110-114 | no more URLs than hits, and no URL is empty |
| Providers.PixabayUrlsSpec | save_samples.py:110-114 | a hit yields `largeImageURL` if usable, else `webformatURL` if usable, else nothing; URLs come in hit order, are non-empty and no more than the hits |
| Providers.PixabayInfo | save_samples.py:102-107 | a missing `total` or `totalHits` reads as 0 |
| Providers.PexelsPreference | save_samples.py:136-142 | a photo yields the first usable of original, large2x, large and medium, and nothing when none is usable |
| Providers.PexelsCandidates | save_samples.py:135-143 | one candidate per photo, in photo order |
| Providers.PexelsUrls | save_samples.py:134-144 | no more URLs than photos, and no URL is empty |
| Providers.CollectPexelsUrls | save_samples.py:134-144 | the loop returns the truthy candidates of the photos in order: no empty URL, and no more URLs than photos |
| Providers.PexelsInfo | save_samples.py:126-131 | both counts are `total_results`, 0 when missing, so they never differ |
| Providers.Extract | save_samples.py:102-145 | a page fails exactly when its request failed; otherwise no URL is empty, there are no more URLs than hits or photos, and a Pexels page reports equal counts |
| Providers.Search | save_samples.py:102-145 | the adapter step returns the URLs and counts `Extract` specifies for the response |
| Pagination.StreakBound | save_samples.py:291-300 | pages past the end are empty, so a streak shorter than three bounds the page number and the loop ends |
| Pagination.HasResults | save_samples.py:170-195 | `display_search_info` proceeds exactly when `total` and `totalHits` are both non-zero |
| Pagination.DrainStep | save_samples.py:313-322 | one turn of the `for` loop keeps the page and the streak, and adds at most one to `got` |
| Pagination.Drain | save_samples.py:312-322 | the inner loop keeps the page and the streak, and `got` never decreases and never passes `additional_needed` |
| Pagination.Step | save_samples.py:262-323 | an iteration that does not end the loop moves to the next page in a state where the loop runs again; one that ends it stops with `got` within `additional_needed`, and for `TargetMet` exactly when `got` reached it |
| Pagination.Paginate | save_samples.py:262-323 | the `while` loop never lowers `got` nor takes it past `additional_needed`, and it stops with `TargetMet` exactly when `got` reached `additional_needed` |
| Pagination.PaginateUnfold | save_samples.py:262-323 | the `while` loop is its first iteration followed by the rest of the loop |
| Pagination.Wrapup | save_samples.py:325-335 | after the loop the counts and the stop reason carry through; a cleanup is added to the trace exactly when the search counts did not end the run and nothing was there or saved; only a folder this run created can be removed |
| Pagination.Run | save_samples.py:231-335 | a run fails on the folder exactly when the path is an existing non-directory, and then touches nothing; a satisfied run makes no request; otherwise `got` never takes the total past `n`, and the target is met exactly when `existing + got == n` |
| Pagination.SearchPage | save_samples.py:264-281 | the search request for a page returns that page's adapter result |
| Pagination.DisplaySearchInfo | save_samples.py:160-195 | it proceeds exactly when both counts are non-zero; otherwise a newly created folder gets the cleanup, and nothing else changes |
| Pagination.DownloadPage | save_samples.py:312-322 | `got`, the trace and the folder after the `for` loop are those of `Drain` |
| Pagination.Iterate | save_samples.py:262-323 | one pass through the loop body produces the `Step` of the old state, and reports when the loop ends and why |
| Pagination.PaginateLoop | save_samples.py:255-323 | the `while` loop ends with the `got`, trace, stop reason and folder of `Paginate` |
| Pagination.DownloadSamples | save_samples.py:230-335 | a run of `main` from the folder check on has the outcome `Run` specifies |
| PaginationProperties.Select | save_samples.py:262-323 | the selected events are a subsequence, each one satisfying the selector |
| PaginationProperties.SnocEvents | save_samples.py:262-323 | appending an event changes each selector by that event alone |
| PaginationProperties.DrainUnfold | save_samples.py:312-322 | the `for` loop is one URL's download followed by the rest of the loop, unless that download met the target |
| PaginationProperties.DrainKeepsTally | save_samples.py:312-322 | downloading a page keeps `got` equal to the saved count, every sleep after a save, old files intact, new files named by content, and the `*.jpg` count within `got` |
| PaginationProperties.DrainStepAttempts | save_samples.py:313-322 | each URL is tried exactly once, and `got` changes only when its download succeeded |
| PaginationProperties.DrainTriesInOrder | save_samples.py:312-322 | the URLs `download` is called on are the page's URLs from the start, in order, with none skipped |
| PaginationProperties.DrainLeavesEarlyOnlyAtTarget | save_samples.py:315-322 | a failed download never ends a page: short of the target every URL is tried, and reaching it ends the page right after the save |
| PaginationProperties.DrainAllSucceed | save_samples.py:312-322 | when every download succeeds, a page yields as many files as it has URLs, up to what is still needed |
| PaginationProperties.TwoDownloadsTrace | save_samples.py:312-322 | when two files are needed and the first two downloads succeed, the trace is save, sleep, save |
| PaginationProperties.PartialPageStopsEarly | save_samples.py:318-320 | of five good URLs with two files needed, exactly the first two are downloaded and one sleep runs |
| PaginationProperties.DuplicateContentCountsTwice | save_samples.py:314-315 | two URLs with identical bytes add 2 to `got` but only one file to the folder and to the `*.jpg` count |
| PaginationProperties.InitialInv | save_samples.py:255-261 | the loop's initial state satisfies the loop invariant |
| PaginationProperties.StepKeepsInv | save_samples.py:262-323 | an iteration that does not end the loop keeps the invariant |
| PaginationProperties.StepEndsFinal | save_samples.py:262-323 | an iteration that ends the loop leaves a state that satisfies `Final` for its stop reason |
| PaginationProperties.PaginateFinal | save_samples.py:262-323 | from any state satisfying the invariant, the loop ends in a state satisfying `Final` |
| PaginationProperties.StreakAgree | save_samples.py:291-302 | the streak of empty pages depends only on which pages had URLs |
| PaginationProperties.DrainAgree | save_samples.py:312-322 | the inner loop depends only on the downloads, not on the search counts |
| PaginationProperties.StepAgree | save_samples.py:272-289 | after the first page, an iteration does not depend on the search counts |
| PaginationProperties.LaterCountsIgnored | save_samples.py:272-289 | the search counts of pages after the first never change the loop's result |
| RunProperties.RunUnfold | save_samples.py:325-335 | a run that reaches the loop keeps the loop's result; unless the search counts ended it, the cleanup is attempted exactly when nothing was saved and no `*.jpg` file was there |
| RunProperties.AfterCleanup | save_samples.py:335 | the cleanup event adds only a cleanup to the trace |
| RunProperties.RunLoop | save_samples.py:247-335 | a run that reaches the loop ends in `Final` with page size `min(n - existing, 80)`, and the cleanup does not change the loop's counts |
| RunProperties.NoSearchWhenEnoughFiles | save_samples.py:230-245 | no request is made exactly when the path is an existing non-directory or already holds `n` `*.jpg` files |
| RunProperties.RequestsAreConsecutivePages | save_samples.py:255-323 | requests ask for pages 1, 2, 3, … in order, all with page size `min(n - existing, 80)` between 1 and 80 |
| RunProperties.DownloadsBounded | save_samples.py:312-319 | `got` is the number of saved files, never takes the total past `n`, and the target is met exactly when `existing + got == n` |
| RunProperties.SleepsOnlyBetweenDownloads | save_samples.py:318-320 | every sleep follows a save, and there is one per save except the save that met the target |
| RunProperties.SearchStopsWhereItShould | save_samples.py:291-310 | the run stops on three consecutive empty pages exactly when the last three requested pages were empty, and on an error exactly when the last request failed |
| RunProperties.SearchInfoCheckedOnFirstPage | save_samples.py:272-289 | the counts end the run exactly when page 1 reports `total` or `totalHits` as 0; that run made one request, saved nothing, and cleaned up exactly when it created the folder |
| RunProperties.FolderRemovedOnlyWhenNewAndEmpty | save_samples.py:325-335 | the folder is gone exactly when this run created it, had a target, and saved nothing; at most one cleanup, and only when nothing was saved or there |
| RunProperties.FilesNeverOverwritten | save_samples.py:64-73 | files already in the folder keep their bytes unless the folder is removed; new files are named by content; the `*.jpg` count grows by at most `got` |
| RunProperties.LaterSearchCountsIgnored | save_samples.py:272-289 | two environments differing only in the counts of later pages give the same run |

## Left out

- HTTP requests, JSON decoding and `raise_for_status` are outside the model. A response is already a decoded body or `Failed`, and a download is already bytes or `None`.
- The SHA-256 computation is outside the model. `digest` is a parameter that returns 64 lower-case hex digits.
- `Pagination.Env`: the same URL is assumed to give the same result every time it is fetched (`fetch` is a function).
- `Pagination.Run`: every exception inside the search `try` ends the loop as `RequestError`. This covers a request error (lines 304-307) and any other exception (lines 308-310), such as a JSON `null` for `hits`, `photos` or `src`, which the body types cannot express.
- Console output is left out. This covers the `print` calls, the rate-limit display with its one-shot flag (lines 147-157, 269-271), and the search tip about minimum sizes.
- The length of `time.sleep(delay)` is left out. Only the fact that a sleep happens is recorded.
- Reading the configuration, `SAVE_FOLDER`, the provider name and the API key (lines 197-228) is left out. Also left out: the query parameters sent to the providers (`min_width`, `min_height`, `safesearch`).
- File-system failures other than a path that is not a directory are left out. This covers failed `rmdir` or `glob` calls (whose errors `cleanup_empty_folder` prints and ignores), a write that fails after the file was opened, and the base folder as a separate path.
- Concurrency with other processes that change the folder is left out.
- Folders.IsJpg: the `.jpg` suffix is matched case-sensitively, as `glob("*.jpg")` does on POSIX systems. On Windows the glob ignores case, so a file `A.JPG` would count there as an existing file but not in this model.
- Pagination.Run: the environment holds finitely many responses, and every page past them comes back empty, so every run ends. The program has no such bound: a provider that keeps returning non-empty pages whose downloads all fail keeps `while got < additional_needed` (line 262) running forever. The model does not capture that non-terminating run.
