# akdownload in Dafny

akdownload fetches the numbered images of a paged document (`url + "1.jpg"`,
`url + "2.jpg"`, …) through random HTTP proxies on a pool of worker threads. It
stages each image in a directory as `img{n}.jpg`, then binds the staged images
into one PDF in natural-sort order, and finally deletes them. This project
models the deterministic logic inside that pipeline and proves its properties:

- `text.dfy` (`Text`): ASCII digits, `str.lower`, `endswith`, and the decimal
  conversions `str(n)` and `int(s)`, with the round trip `int(str(n)) == n`.
- `http.dfy` (`Http`): a response reduced to its status code and body bytes,
  or a transport failure.
- `natural_sort.dfy` (`NaturalSort`): `natural_sort_key`. `re.split('(\d+)', s)`
  is modelled as a datatype of alternating text and digit runs. It is proved
  to rejoin to `s` and to be the only such decomposition. Python's `<` on keys
  includes the `TypeError` that comparing `str` with `int` raises. The model
  also has a stable insertion sort standing for `list.sort(key=...)`.
- `staging.dfy` (`Staging`): the staging directory as a map from file name to
  bytes. It covers `save` with its status classification and first-write-wins
  rule, the page list of `create_pdf`, and `clean_up`.
- `requester.dfy` (`Requester`): the `Requester` class with its proxies, the
  list of outstanding futures, and the `closed` flag, as a record with pure
  transitions. `update_futures` is a loop over a copy of the list that calls
  `list.remove` on the live list for every finished future. The try/except dispatch of `_get` is a method whose proxy
  choice is nondeterministic.
- `downloader.dfy` (`Downloader`): `Main.main`. It has the submission loop
  over the inclusive page range and the polling loop, driven by a schedule of
  what the pool and the user do between polls. It also has the final
  assembly, with the two ways `create_pdf` can raise, and the clean-up.

A note on negative page numbers: `str(-5)` is `"-5"`, and the minus sign is
not a digit. So `img-5.jpg` gets the key `["img-", 5, ".jpg"]`. Every
non-negative page therefore sorts before every negative one, and negative
pages sort by magnitude. `Staging.NegativePagesLast` and
`Staging.NegativePagesByMagnitude` state this exactly as the code behaves.

## Model

| member | source | states |
|---|---|---|
| Text.IntToStringRoundTrip | main.py:44 | the decimal text `str(n)` of every integer in a file name or URL reads back as `n` |
| Text.IntToStringInjective | main.py:44 | two page numbers give the same decimal text only if they are equal |
| NaturalSort.Split | main.py:19 | the pieces of `re.split('(\d+)', s)` concatenate back to exactly `s`; text pieces hold no digit, digit pieces are non-empty digit runs, and only the first and last text pieces may be empty |
| NaturalSort.SplitUnique | main.py:19 | any list of pieces that alternates as above and rejoins to `s` is the split of `s`, so the digit runs are maximal |
| NaturalSort.Key | main.py:17-19 | the key has odd length, with strings at even positions and integers at odd positions; every string is lower-case and holds no digit |
| NaturalSort.KeyOfAt | main.py:19 | on a valid split, each piece's token is a string exactly when it sits at an even position, and that string is lower-case and digit-free |
| NaturalSort.KeyCaseInsensitive | main.py:19 | a name and its lower-cased form have the same key, so names that differ only in letter case sort as equals |
| NaturalSort.StrLessSpec | main.py:56 | Python `str < str`: at the first position where the strings differ the smaller character wins; when one is a prefix of the other, the shorter is less |
| NaturalSort.TokenLess | main.py:56 | comparing a `str` key element with an `int` one raises `TypeError`; two `int`s or two `str`s compare normally |
| NaturalSort.KeyLessSpec | main.py:56 | Python `list < list` on keys: the first unequal pair of elements decides, and may raise; when one key is a prefix of the other, the shorter is less |
| NaturalSort.FirstDiffOrShared | main.py:56 | any two sequences either have a first difference or one is a prefix of the other, so `StrLessSpec` and `KeyLessSpec` fix the result of every comparison |
| NaturalSort.KeysComparable | main.py:56 | comparing two keys with `<` never raises `TypeError` |
| NaturalSort.KindedComparable | main.py:56 | Python list `<` returns normally whenever the two lists hold values of the same type at every common position |
| NaturalSort.KeyLessTransitive | main.py:56 | list `<` on keys is transitive |
| NaturalSort.KeyLessTotal | main.py:56 | two different keys are ordered one way or the other |
| NaturalSort.BeforeIsStrictOrder | main.py:56 | ordering names by key is irreflexive and transitive; names with different keys are comparable, and names with equal keys are not ordered |
| NaturalSort.SortBySorted | main.py:56 | the insertion sort leaves no element strictly less than an earlier one, for any irreflexive transitive `<` |
| NaturalSort.SortByKey | main.py:56 | `files.sort(key=natural_sort_key)` returns a permutation of its input with no name sorting strictly before an earlier one |
| Staging.Save | main.py:34-50 | a 400 requests close and writes nothing; any other non-200 writes nothing; existing files are never changed; the only file that can appear is `img{num}.jpg` with the response body, and after a 200 it exists |
| Staging.SaveIdempotent | main.py:45-47 | saving the same page again changes nothing |
| Staging.SaveCommutes | main.py:42-47 | saves of two different pages give the same directory in either order |
| Staging.FirstWriteWins | main.py:44-47 | after any sequence of saves, the file of page `num` holds its earlier content if it had one, else the body of the first 200 response for `num`, and it is missing only when there was none |
| Staging.FirstOkSpec | main.py:44-47 | the reference "first successful response for a page" is the earliest 200 for that page, and is absent only when there is none |
| Staging.CloseRequestedIffTerminal | main.py:35-38 | a run of saves requests close exactly when one of its responses had status 400 |
| Staging.ImageNameInjective | main.py:44 | different page numbers are staged under different file names |
| Staging.ImageNameIsJpg | main.py:54-55 | every staged image name passes the case-insensitive `.jpg` filter |
| Staging.IsJpg | main.py:55 | `file.lower().endswith('.jpg')` holds exactly when the name has at least four characters and its last four, lower-cased, are `.jpg` |
| Staging.JpgNames | main.py:54-55 | the filter keeps exactly the listed names whose lower-cased form ends in `.jpg` |
| Staging.JpgNamesDistinct | main.py:54-55 | filtering a listing without repeats gives a list without repeats |
| Staging.Pages | main.py:54-56 | the page list is a permutation of the filtered listing (so the page count is its length), sorted by key, and holds exactly the listed `.jpg` names |
| Staging.PagesOfStore | main.py:54-56 | on a directory listing, every `.jpg` file of the directory becomes exactly one page |
| Staging.ImageKey | main.py:19 | the key of `img{n}.jpg` is `["img", n, ".jpg"]` for `n >= 0` and `["img-", -n, ".jpg"]` for `n < 0` |
| Staging.ImageOrder | main.py:17-19 | for naturals `n` and `m`, `img{n}.jpg` sorts before `img{m}.jpg` exactly when `n < m` |
| Staging.NaturalBeforePlain | main.py:17-19 | a page from 2 to 9 sorts before a page from 10 to 19, as `img2.jpg` before `img10.jpg`, although plain string order puts the two-digit page first |
| Staging.NegativePagesLast | main.py:17-19 | every non-negative page sorts before every negative page |
| Staging.NegativePagesByMagnitude | main.py:17-19 | two negative pages sort by magnitude, so `img-2.jpg` comes before `img-10.jpg` |
| Staging.PagesAscending | main.py:56-63 | sorted, distinct pages named after non-negative page numbers come in strictly ascending page order |
| Staging.CleanUp | main.py:78-84 | clean-up only removes files and never touches a non-`.jpg` file; on the directory's own listing it removes exactly the `.jpg` files and raises nothing |
| Staging.CleanUpIdempotent | main.py:80-81 | cleaning a cleaned directory changes nothing |
| Staging.CleanUpAfterSave | main.py:80-81 | what clean-up leaves does not depend on any save, because saves only write `.jpg` files |
| Requester.Init | requester.py:13-19 | a new requester is open, with no proxies and no futures |
| Requester.FetchProxies | requester.py:21-24 | the stored proxy list is the downloaded lines, and the returned count is its length |
| Requester.Get | requester.py:56-58 | on an open requester exactly one future is appended and the earlier ones are unchanged; on a closed one `submit` raises `RuntimeError` |
| Requester.PendingMembers | requester.py:46-50 | pruning keeps exactly the futures that are not done |
| Requester.PendingAppend | requester.py:46-50 | pruning works piecewise over a concatenation, so survivors keep their relative order |
| Requester.PendingIdempotent | requester.py:46-50 | pruning twice equals pruning once |
| Requester.RemoveFirst | requester.py:50 | `list.remove(f)` raises `ValueError` exactly when `f` is missing; otherwise the list gets one element shorter |
| Requester.RemoveFirstMultiset | requester.py:50 | what `list.remove(f)` takes away is one copy of `f` and nothing else |
| Requester.RemoveFirstAt | requester.py:50 | the copy removed is the first occurrence, and the other elements keep their order |
| Requester.UpdateFutures | requester.py:46-50 | removing each done future of the copy from the live list with `list.remove` leaves exactly the not-done futures in their original order |
| Requester.IsDone | requester.py:52-54 | the result is true iff the list is empty after the optional pruning; with pruning, that is iff every future is done |
| Requester.Close | requester.py:40-44 | after `close` the requester is closed with no outstanding futures |
| Requester.ClosedIsFinal | requester.py:40-44 | no operation reopens a closed requester or gives it outstanding futures again |
| Requester.RunClosed | requester.py:40-44 | over any sequence of calls `closed` never goes back to false, and a `close` anywhere leaves it closed and empty |
| Requester.StepWellFormed | requester.py:40-58 | every operation keeps future ids distinct and keeps a closed requester empty |
| Requester.RunTask | requester.py:29-38 | with no proxies, or when the fetch fails, the callback is never called; when it is called, the proxy came from the list and the response is the fetched one; an exception in the callback is swallowed |
| Downloader.PageUrlInjective | main.py:94 | different pages are fetched from different URLs |
| Downloader.SubmitAll | main.py:93-94 | on an open requester the loop appends one future per page of the range, in ascending order, with URL `url + str(n) + ".jpg"` and argument `n`; on a closed one the first `get` raises |
| Downloader.SubmissionsPages | main.py:93-94 | the submitted pages are exactly `from..to`, strictly ascending, each with its own URL |
| Downloader.Wait | main.py:96-100 | the polling loop leaves with a closed requester that has no futures, exactly at the first point where the requester is closed, was interrupted, or has every outstanding task finished; it never leaves before that point |
| Downloader.AddPages | main.py:60-66 | the page loop adds the pages in order and stops at the first one that cannot be added; every page before it was added |
| Downloader.Assemble | main.py:52-107 | listing a missing staging directory raises; otherwise the pages are the directory's `.jpg` files in key order, and the first one that cannot be added raises; either exception skips the clean-up; when every page is added and clean-up is on, only the non-`.jpg` files remain |

## Left out

- HTTP and sessions: `requests.Session`, headers and the proxy-list download are I/O. The fetch result is an input: a status and body, or a transport failure.
- `str.splitlines` of the proxy text: `FetchProxies` takes the lines as given.
- The thread pool: `ThreadPoolExecutor`, its locking, and what `shutdown(wait=True, cancel_futures=True)` does to running and queued tasks. A future's `done` flag is set by an explicit environment step, `Requester.Finish`.
- Requester.UpdateFutures: reads every `done` flag as it stands when the call starts; flags that change during the walk are not modelled.
- Requester.UpdateFutures: a Ctrl-C during the walk empties the list (requester.py:43), and the next `self.futures.remove(f)` raises `ValueError` (requester.py:50). The model runs the walk without interleaving, and there `RemoveFirst` never raises.
- Downloader.Assemble: whether the staging directory exists is an input. In the program it exists when it existed before the run or some save got a 200 (main.py:42-43). Which images can be added is also an input. A failing `doc.save` is caught inside `create_pdf` (main.py:69-76) and does not change what happens next, so the model has no outcome for it.
- Staging.Save: two first 200 responses that arrive together can both see no directory, and the second `os.mkdir` raises `FileExistsError` (main.py:42-43); `_get` swallows it (requester.py:37-38), so that page is never staged. Saves are modelled one at a time, so this race is not.
- Staging.Save: on status 400 it only *requests* close (`Saved.closeRequested`). Whether `close()` completes when called from a worker thread depends on executor internals that are not shown.
- Downloader.SubmitAll: starts from one fixed requester state. A close that arrives while the loop runs, from Ctrl-C or a 400, would make a later `get` raise; that interleaving is not modelled.
- Downloader.Wait: the schedule of events is finite. When it runs out before the loop exits, the model stops (`exited` is false) instead of polling forever. The 0.1 s sleep is not modelled.
- Randomness: `random.choice` is a nondeterministic pick from the list, with no uniformity claim.
- Rendering and UI: reportlab `Canvas`, `fill_page_with_image` (pagefill is not part of this model), `doc.save`, tqdm bars and print logging.
- Process plumbing: argparse (main.py:115-124) and registering the SIGINT handler. A Ctrl-C is only the `Interrupted` event of `Downloader.Wait`.
- Filesystem: `os.listdir`, `os.mkdir`, `open` and `os.remove` act on a map from name to bytes. A listing is any order of the map's keys without repeats.
- `int(s)` (`Text.ParseInt`) is modelled only on the texts `str(n)` produces. Python also accepts a leading `+`, surrounding spaces and `_` between digits.
- Unicode: `\d`, `str.isdigit` and `str.lower` are modelled on ASCII only, because they disagree on some non-ASCII characters.
- NaturalSort.SortByKey: does not state that the sort is stable. Names with equal keys, such as `img02.jpg` and `img2.jpg`, are only said not to be ordered against each other. The key is not injective, so no strict total order on names is claimed.
- Staging.CleanUp: other exceptions than removing a missing file are not modelled, for example permission errors.
- `closed` is a single boolean (requester.py:18); the model has no other run states.
- An empty proxy list makes `random.choice` raise `IndexError` inside the first `try` of `_get` (requester.py:31-34), so the task is logged and skipped (`Requester.RunTask`, `SelectionFailed`).
- The SIGINT handler calls `close()` (main.py:110-111); in the model that is the `Interrupted` event of `Downloader.Wait`.
