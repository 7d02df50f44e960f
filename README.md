# rssDownloader: the feed-reconciliation core in Dafny

rssDownloader is a terminal podcast downloader. A subscription is kept in a
*manifest*: the feed's title, author, URL, folder and timestamp, plus an
ordered list of *episodes*. Each episode records its title, the path its
audio file gets, the audio URL, whether the file is on disk, its
chronological number, its published time, summary, tags and when it was last
refreshed. This project models the bookkeeping behind that:

- `clean_path`, the filter that deletes a fixed set of characters from file
  and folder names (module `FileUtils`);
- the `Episode` object: its constructor and the file path it derives, the
  scan of a feed entry's links for the audio URL, `from_dict` with its
  required-key checks, `from_fp`, `to_json`, `update_fp` and the decision
  logic of `download` (module `Episodes`);
- the `Manifest` object: `from_fp`, `from_json`'s episode loop, `get_episode`,
  `update`, `download_episodes` and the record `save_to_json` writes
  (module `Manifests`).

Both objects are Dafny classes whose methods update their fields in place.
`Manifest.episodes` is a `seq<Episode?>`. A `null` element stands for the
`None` that `from_json` appends when `from_dict` rejects a record. Every
`Manifest` method is proved against a function on values in module
`Reconcile`:

- `Find` for `get_episode`;
- `Step`, `Sync` and `UpdateResult` for `update`;
- `Bootstrap` for `from_fp`;
- `Loaded` and `Saved` for `from_json` and `save_to_json`;
- `DownloadFrom`, `Resolve` and `DownloadSelected` for `download_episodes`.

The `Episode` methods are proved against functions on values in module
`Episodes`: `Constructed` for `__init__`, `Decoded` for `from_dict`,
`FeedEpisode` for `from_fp`, `Refreshed` for `update_fp` and
`AfterDownload` with `DownloadEffect` for `download`.

The properties of `update` and `download_episodes` are lemmas about those
functions. They cover what survives a sync, how many copies of a title there
are, that a second sync with the same feed changes nothing but refresh times, and what a download batch changes.

The outside world comes in as parameters:

- `now: Time` stands for `time.localtime()`;
- `onDisk: set<string>` is the set of paths `os.path.exists` accepts;
- the feed is the `Feed` value `feedparser.parse` would return;
- `download_file` is counted, not performed: `fetches` is the number of
  times it would be called.

Python exceptions that the code lets propagate are explicit results. They
are `Lookup.Fault`, `Outcome.Interrupted`, a `fault` flag and
`Target.Raise`. The main case is the `AttributeError` raised when
`get_episode`, `download` or `to_json` meets a `None` slot.

Where the behaviour one would expect differs from what the code does, the
model follows the code:

- **Numbering after an update.** `from_fp` numbers episode `i` as `i`
  (manifest.py:53-55), so one might expect `episodes[i].episode_number == i`
  after every update as well. The code only renumbers
  episodes whose titles are in the feed. An episode that has left the feed
  keeps its old number while new ones are inserted before it. The lemma
  `Reconcile.NumberingCanDrift` exhibits this.
- **Rejected records.** One might expect a malformed stored record to be
  skipped. The code appends the `None` that `from_dict` returns for it
  instead (manifest.py:40-42). A later `get_episode`,
  `download_episodes` or `save_to_json` then raises on that slot, and the
  model has these faults.
- **Title mismatch.** Here `update` does nothing, but it still reports
  "Manifest updated". The model returns `TitleMismatch`.
- **File paths.** `file_path` is derived from the title once, in
  `__init__` (episode.py:64), and would go stale if a title were changed in
  place. No operation here reassigns an episode's title, file path or tags,
  so `title`, `filePath` and `tags` are `const` fields of `Episode`.

## Model

| member | source | states |
|---|---|---|
| FileUtils.CleanPath | file_utils.py:19-25 | the loop that removes each denylisted character in turn returns exactly the filtered string `Sanitized(path)` |
| FileUtils.Sanitized | file_utils.py:21-23 | the cleaned string contains none of the twenty denylisted characters (backslash, `#`, `%`, `@`, `&`, braces, angle brackets, backquote, `?`, `/`, `!`, double quote, `:`, `=`, `*`, vertical bar, space, single quote) and is never longer than the input |
| FileUtils.Without | file_utils.py:22-23 | deleting characters never lengthens a string |
| FileUtils.RemoveChar | file_utils.py:23 | `s.replace(c, "")`: the string with every occurrence of one character removed, the others kept in order; `WithoutThenRemove` ties it to the loop |
| FileUtils.WithoutExcludes | file_utils.py:22-23 | after filtering, no character of the removed set is left |
| FileUtils.WithoutNothing | file_utils.py:20 | before the first pass the path is unchanged |
| FileUtils.WithoutThenRemove | file_utils.py:22-23 | one more `replace(value, "")` pass removes one more character: filtering by a denylist prefix, then by the next character, is filtering by the longer prefix |
| FileUtils.WithoutConcat | file_utils.py:22-23 | filtering distributes over concatenation |
| FileUtils.WithoutClean | file_utils.py:22-23 | a string with none of the removed characters is returned unchanged |
| FileUtils.WithoutShrinks | file_utils.py:22-23 | a string holding a removed character gets strictly shorter |
| FileUtils.SanitizedConcat | file_utils.py:22-23 | `clean_path(a + b) == clean_path(a) + clean_path(b)` |
| FileUtils.SanitizedChar | file_utils.py:21-23 | a single character is deleted exactly when it is denylisted |
| FileUtils.SanitizedCounts | file_utils.py:20-25 | every character outside the denylist keeps its number of occurrences; denylisted characters occur zero times |
| FileUtils.SanitizedIdempotent | file_utils.py:19-25 | `clean_path(clean_path(s)) == clean_path(s)` |
| FileUtils.SanitizedLength | file_utils.py:19-25 | the result is at most as long as the input, equally long exactly when the input has no denylisted character, and then equal to it |
| FileUtils.SanitizedAlternating | file_utils.py:20-25 | for six characters alternating kept, denylisted, kept, denylisted, kept, denylisted, exactly the three kept ones remain, in their order (the general fact follows from `SanitizedConcat` and `SanitizedChar`) |
| FileUtils.SanitizedExample | file_utils.py:19-25 | `clean_path("A/B:C?") == "ABC"` |
| Episodes.LowerChar | episode.py:64 | `str.lower()` on one character: an upper-case ASCII letter becomes its lower-case letter, any other character is kept, and no upper-case letter comes out |
| Episodes.Lower | episode.py:64 | `title.lower()` keeps the length, lowers each character as `LowerChar` does and leaves no upper-case letter |
| Episodes.Replaced | episode.py:64 | `str.replace` of one character by another keeps the length |
| Episodes.ReplacedAround | episode.py:64 | the replacement works piece by piece around an occurrence of the replaced character |
| Episodes.Constructed | episode.py:62-71 | the state `__init__` builds: the arguments as given, `file_path` derived by `FilePathFor` from folder and title, `downloaded` the on-disk probe of that path, `last_updated` the current time; its properties are `FilePathShape`, `SlashBecomesDash` and, through `Decoded`, `RoundTrip` |
| Episodes.FileName | episode.py:64 | the file-name part of `file_path` has no denylisted character and no `/` |
| Episodes.FilePathFor | episode.py:64 | `folder + clean_path(...) + '.mp3'`, the file path of a title in a folder; `FilePathShape` states its shape |
| Episodes.FilePathShape | episode.py:64 | `file_path` is the folder, one name component without `/` or denylisted characters, then `.mp3` |
| Episodes.SlashBecomesDash | episode.py:64 | a `/` in a title turns into a `-` of the file name and is not deleted |
| Episodes.Contains | episode.py:99 | Python's `sub in s` on strings, as a scan of the suffixes of `s`; `ContainsOccurs` ties it to positions |
| Episodes.ContainsOccurs | episode.py:99 | `sub in s` holds exactly when `sub` occurs at some position of `s` |
| Episodes.IsAudio | episode.py:99 | a link is an audio link when its type contains "audio", the test of both link scans (also episode.py:212) |
| Episodes.LastAudio | episode.py:97-100 | the URL is None exactly when no link's type contains "audio"; otherwise it is the href of the last such link |
| Episodes.ScanAudioLinks | episode.py:210-213 | the loop that overwrites `url` on every audio link returns `LastAudio(links)` |
| Episodes.FeedEpisode | episode.py:207-218 | an episode built from a feed entry has the entry's title, summary and published time, the last audio URL, `tags == []`, the given number and the derived file path |
| Episodes.Decoded | episode.py:183-205 | `from_dict` fails exactly when one of title, url, published, summary, tags is missing or null, naming the first such key in that order; otherwise the episode carries those values, the given number and the derived file path |
| Episodes.ToJson | episode.py:73-82 | `to_json`: every attribute under its own key, a None url stored as null; `RoundTrip` and `RoundTripWithoutUrl` say what `from_dict` makes of it |
| Episodes.RoundTrip | episode.py:62-82 | `from_dict(to_json(e))` keeps title, url, published, summary, tags and file_path when `e.url` is set and the folder is the same; the number is the new one and `downloaded` is probed again |
| Episodes.RoundTripWithoutUrl | episode.py:189-192 | an episode whose url is None is rejected on reload for its missing 'url' key |
| Episodes.Refreshed | episode.py:95-112 | the state `update_fp` leaves; `RefreshKeepsLocalState` and `RefreshIdempotent` state what it keeps and changes |
| Episodes.RefreshKeepsLocalState | episode.py:95-112 | `update_fp` sets the number and time and takes the entry's URL, summary and published time, keeps title, file_path and tags, and keeps `downloaded` exactly when the URL is unchanged |
| Episodes.RefreshIdempotent | episode.py:95-112 | refreshing twice from the same entry equals refreshing once |
| Episodes.DownloadEffect | episode.py:130-143 | present and not forced: no fetch and no change; otherwise verbosity > 0 fetches once and sets `downloaded`, verbosity 0 fetches once and leaves it, negative verbosity does nothing; `downloaded` never becomes false |
| Episodes.AfterDownload | episode.py:130-139 | the episode after `download`: only `downloaded` changes, to the flag `DownloadEffect` gives |
| Episodes.Episode.constructor | episode.py:62-71 | the new object's attributes are those `Constructed` derives: `file_path` from folder and title, `downloaded` from the disk probe |
| Episodes.Episode.FromDict | episode.py:183-205 | null exactly when `Decoded` fails; otherwise a fresh object whose attributes are the decoded episode |
| Episodes.Episode.FromFp | episode.py:207-218 | a fresh object whose attributes are `FeedEpisode(entry, ...)` |
| Episodes.Episode.UpdateFp | episode.py:84-112 | the field-by-field diff leaves the object equal to `Refreshed(old state, entry, number, now)` |
| Episodes.Episode.Download | episode.py:114-146 | the number of `download_file` calls and the new state are those of `DownloadEffect`; only `downloaded` can change |
| Reconcile.Reverse | manifest.py:53 | `entries[::-1]`: element i is element n-1-i of the input |
| Reconcile.Insert | manifest.py:99 | `list.insert(i, x)` for i >= 0 makes the list one longer; `InsertAt` says where x lands |
| Reconcile.InsertAt | manifest.py:99 | `list.insert(number, x)` puts x at `min(number, len)` and shifts the rest right by one |
| Reconcile.Find | manifest.py:82-86 | found: the first slot with the title, every slot before it an episode with another title; absent: every slot an episode, none with the title; fault: a None slot comes before any match |
| Reconcile.FindFirst | manifest.py:82-86 | the first slot carrying the title is the one returned |
| Reconcile.FindNoGaps | manifest.py:82-86 | without None slots the lookup never raises and finds a title exactly when it is present |
| Reconcile.FindSameShape | manifest.py:82-86 | the lookup depends only on titles and the positions of None slots |
| Reconcile.Step | manifest.py:97-101 | one pass of the loop: it stops exactly when the lookup meets a None slot, and then changes nothing; otherwise the list grows by one exactly when the title was absent; `StepInserts`, `StepRefreshesFirst`, `StepCount` and `StepUntouched` say the rest |
| Reconcile.Sync | manifest.py:96-101 | the loop over the oldest-first entries never shortens the list; `SyncUntouched`, `SyncCount` and `SyncKeepsFound` say the rest |
| Reconcile.UpdateResult | manifest.py:88-103 | `update` reports up to date exactly when the stored timestamp equals the feed's and it is not forced, a title mismatch exactly when that is not so and the titles differ, and in both cases leaves the list as it was; the list never shrinks |
| Reconcile.UpdateNoOp | manifest.py:90-95 | an unforced update with an unchanged feed timestamp, or one with a different feed title, leaves the episodes as they were |
| Reconcile.StepUntouched | manifest.py:96-101 | one pass leaves the None slots and the episodes with titles outside the feed unchanged and in order |
| Reconcile.SyncUntouched | manifest.py:96-101 | the whole loop leaves the None slots and the episodes with titles outside the feed unchanged and in order |
| Reconcile.UpdateKeepsUnlisted | manifest.py:88-101 | update never deletes: the list does not shrink, and every None slot and every episode whose title is not in the feed keeps all its fields and relative order |
| Reconcile.StepCount | manifest.py:97-101 | a pass adds one copy of the entry's title exactly when the title was absent, and changes no other title's copies |
| Reconcile.SyncCount | manifest.py:96-101 | no title ever loses a copy; after a full pass a feed title that was missing has exactly one copy, so a repeated feed title is inserted once |
| Reconcile.UpdateCount | manifest.py:88-101 | after an update that ran to the end, every feed title is present, new ones exactly once, and other titles keep their counts |
| Reconcile.StepInserts | manifest.py:97-99 | a missing title is inserted at `min(number, len)` as an episode numbered `number`, the others shifted and unchanged |
| Reconcile.StepRefreshesFirst | manifest.py:97-101 | a known title refreshes its first copy in place and changes nothing else |
| Reconcile.FindAfterInsert | manifest.py:97-99 | after an insertion the lookup finds exactly the titles found before plus the inserted one |
| Reconcile.StepKeepsFound | manifest.py:96-101 | a title found before a pass, or the pass's own title, is found after it |
| Reconcile.SyncKeepsFound | manifest.py:96-101 | after the loop, every title found before and every feed title is found |
| Reconcile.SyncRefreshesOnly | manifest.py:96-101 | when every entry's title is already found, the loop only refreshes: no slot is added, moved or emptied |
| Reconcile.LastFrom | manifest.py:96-101 | the position of the last feed entry with a given title at or after a start, or none; nothing later carries the title |
| Reconcile.RefreshFromLast | episode.py:95-112 | refreshing an episode with every entry of its title in turn ends with the last such entry's number, URL, summary and published time, and keeps `downloaded` only when every such entry offers the URL it already had |
| Reconcile.StepSettles | manifest.py:97-101 | after one pass of the first update, the first copy of every title seen so far is in the state those entries leave it in |
| Reconcile.SyncSettles | manifest.py:96-101 | after the first update, the first copy of every feed title is a fixed point of the refreshes for that title |
| Reconcile.RefreshedFirsts | manifest.py:96-101 | the list with the first copy of each title refreshed by the entries that carry it; other slots unchanged, length kept |
| Reconcile.SyncRefreshesFirsts | manifest.py:96-101 | when every entry's title is already found, the loop only refreshes first copies, each by the entries that carry its title |
| Reconcile.SettledRefreshedFirsts | manifest.py:96-101 | refreshing settled first copies again changes only their `last_updated`, and nothing at all at the same time |
| Reconcile.FindInsertOther | manifest.py:82-86 | inserting an episode with another title shifts the found position of a title by one exactly when the insertion lands at or before it |
| Reconcile.UpdateTwiceInsertsNothing | manifest.py:88-103 | a second update with the same feed, whatever time and files on disk it sees, inserts nothing and changes nothing but `last_updated`: the first copy of each feed title gets the new time, every other field (number, url, `downloaded`, summary, published) and every other slot is as the first update left it; at the same time the list is identical |
| Reconcile.Bootstrap | manifest.py:53-55 | `from_fp` builds one episode per entry with no None slot |
| Reconcile.BootstrapNumbering | manifest.py:53-55 | episode i of a new manifest is numbered i and is the feed's entry n-1-i, oldest first |
| Reconcile.SyncExtends | manifest.py:96-101 | with distinct titles, syncing the rest of the entries onto a manifest built from a prefix appends them in order |
| Reconcile.BootstrapAgreesWithUpdate | manifest.py:46-56 | with distinct titles, updating an empty manifest yields exactly the episodes `from_fp` builds |
| Reconcile.NumberingCanDrift | manifest.py:96-101 | an episode that is no longer in the feed keeps its number while a new one is inserted before it, so `episodes[1].episode_number != 1` |
| Reconcile.Saved | manifest.py:70-79 | the records exist exactly when there is no None slot, then one `to_json` record per episode in order |
| Reconcile.Loaded | manifest.py:40-42 | one slot per stored record; a slot is None exactly when `from_dict` rejects its record; slot i is numbered i |
| Reconcile.LoadAfterSave | manifest.py:40-79 | saving and reloading a manifest whose episodes have URLs and live in its folder gives the same episodes in order, with title, url, published, summary, tags and file_path kept, renumbered by position |
| Reconcile.BootstrapPathsIn | manifest.py:53-55 | every episode `from_fp` builds has the file path derived from its title in the manifest's folder |
| Reconcile.LoadedPathsIn | manifest.py:40-42 | every episode `from_json` rebuilds has the file path derived from its title in the folder it loads from |
| Reconcile.StepKeepsPaths | manifest.py:97-101 | one pass of `update` keeps every file path derived in the manifest's folder |
| Reconcile.SyncKeepsPaths | manifest.py:96-101 | the whole loop keeps every file path derived in the manifest's folder |
| Reconcile.UpdateKeepsPaths | manifest.py:88-103 | `update` keeps every file path derived in the manifest's folder, so a manifest built by `from_fp` or `from_json` and then updated still meets `LoadAfterSave`'s path condition |
| Reconcile.DownloadFrom | manifest.py:156-158 | the batch keeps the list's length |
| Reconcile.DownloadFromFault | manifest.py:156-158 | the batch raises exactly when a None slot comes at or after the start |
| Reconcile.DownloadFromEach | manifest.py:156-158 | without None slots every episode from the start on gets `download`'s effect and the earlier ones are untouched |
| Reconcile.DownloadAllEach | manifest.py:156-158 | without None slots, `download_episodes()` raises nothing and applies `download` to every episode |
| Reconcile.IsNumeric | manifest.py:164 | `str.isnumeric()`: a non-empty string of digits |
| Reconcile.DecimalValue | manifest.py:165 | `int(s)` for a string of digits, read left to right in base ten |
| Reconcile.DecimalLeadingZero | manifest.py:165 | a leading zero does not change the index a numeric selector names |
| Reconcile.Resolve | manifest.py:160-167 | a resolved index is always in range; ints index as Python does, negatives from the end |
| Reconcile.DownloadSelected | manifest.py:159-167 | a selection batch keeps the list's length |
| Reconcile.DownloadEpisodesResult | manifest.py:155-167 | `download_episodes` keeps the length of the list, and without a selection on a list without None slots raises nothing; `DownloadAllEach`, `SelectingEveryIndex`, `DownloadSelectedOnlyFlags` and `SkipWhenPresent` say the rest |
| Reconcile.SelectingEveryIndex | manifest.py:156-162 | selecting the indices 0..n-1 in order has the same effect as selecting nothing |
| Reconcile.DownloadSelectedOnlyFlags | manifest.py:159-167 | downloads change nothing but `downloaded` flags, and never the None slots |
| Reconcile.SkipWhenPresent | manifest.py:159-167 | when every episode is downloaded and force is off, a selection fetches nothing and changes nothing |
| Manifests.FeedFolder | manifest.py:50 | the folder `from_fp` derives: "../", the feed title with spaces as underscores, cleaned, then "/"; `FeedFolderKeepsSpaces` shows a space survives as `_` |
| Manifests.FolderOf | manifest.py:50 | the feed folder is `"../"`, the cleaned title with spaces turned into underscores, then `"/"` |
| Manifests.FeedFolderKeepsSpaces | manifest.py:50 | a space in the feed title survives as `_` in the folder name instead of being deleted |
| Manifests.Manifest.constructor | manifest.py:19-25 | a new manifest has empty title, author, folder, url, timestamp and episode list |
| Manifests.Manifest.FromJson | manifest.py:28-43 | the fields are the stored record's, the folder is the path, and the episodes are `Loaded(records)`: one per record, None where rejected, numbered by position, all distinct objects |
| Manifests.Manifest.FromFp | manifest.py:46-56 | title, author, URL and timestamp come from the feed, the folder is `FeedFolder(title)`, and the episodes are `Bootstrap` of the reversed entries |
| Manifests.Manifest.SaveToJson | manifest.py:70-80 | the written record exists exactly when no slot is None, then holds the manifest's fields and one `to_json` record per episode |
| Manifests.Manifest.GetEpisode | manifest.py:82-86 | the linear scan returns the object at `Find`'s index when found, null when absent, and reports the fault when a None slot comes first |
| Manifests.Manifest.Update | manifest.py:88-103 | the outcome and the new episode list are `UpdateResult(old list, ...)`; title, author, folder, url and last_updated are not changed; episode objects stay distinct |
| Manifests.Manifest.Absorb | manifest.py:96-101 | one loop pass changes the list as `Step` does, or reports the fault |
| Manifests.Manifest.InsertNew | manifest.py:98-99 | the list becomes `Insert(old list, number, FeedEpisode(entry, ...))` with a fresh object |
| Manifests.Manifest.RefreshAt | manifest.py:100-101 | only slot i changes, to `Refreshed(old state, entry, number, now)` |
| Manifests.Manifest.DownloadEpisodes | manifest.py:155-169 | fetch count, fault and new list are `DownloadEpisodesResult(old list, ...)`; the saved record is `SaveToJson()` when nothing raised |
| Manifests.Manifest.DownloadAll | manifest.py:156-158 | the loop over all episodes has exactly the effect of `DownloadFrom(old list, 0, ...)` |
| Manifests.Manifest.DownloadList | manifest.py:159-167 | the loop over the selectors has exactly the effect of `DownloadSelected(old list, ...)` |
| Manifests.Manifest.Locate | manifest.py:161-167 | a selector's target, found through `get_episode` for a non-numeric title, is `Resolve(list, selector)` |
| Manifests.Manifest.DownloadAt | manifest.py:158 | downloading the object at index i changes only slot i, by `download`'s effect |

## Left out

- File I/O: `read_manifest`, `write_manifest` and the write in `save_to_json`. `FromJson` takes the record already read, and `DownloadEpisodes` returns the record it would write.
- `from_json` returns None only when `read_manifest` raises, that is when `open` or `json.load` fails. A missing manifest file does not do that: `read_manifest` then returns `{}` (file_utils.py:9-15) and `from_json` raises `KeyError` at manifest.py:35, as it does for any missing top-level key. `ManifestData` always has every key, so none of these cases exists in the model.
- Feed fetching and parsing: `from_url` and `feedparser.parse`. The parsed feed is a parameter of `FromFp` and `Update`, and the bare `except` of `from_url` is not modelled.
- `download_file`. Its streaming, its progress output and any exception it raises are not part of this model. `Episodes.Episode.Download` assumes every call completes.
- Terminal UI: `Episode.view`, `Manifest.view_episodes`, main.py and fancy_print.py. Console messages, `pause()` and `clear()` are also left out. fancy_print.py is not part of this model.
- `time.localtime()` is one `now` per operation. The code reads the clock once per episode, so a loop's episodes could differ slightly in `last_updated`.
- `os.path.exists` is the fixed set `onDisk` for the whole operation.
- Episodes.LowerChar: `str.lower()` is modelled for ASCII letters only; other characters pass through unchanged.
- Reconcile.IsNumeric: `str.isnumeric()` and `int()` are modelled for ASCII digits only. Other Unicode numerals are treated as titles.
- Episodes.Link: a link without a `type` key makes the code raise `KeyError`; every modelled link has a type.
- Reconcile.Selector: Python's `bool` is an `int`, so `True` selects index 1. The model has no separate boolean selector.
- Episodes.ToJson: `to_json` returns the object's own `__dict__`. Later changes to the object show through it. The model returns a copy.
- Time values: a `struct_time` and a tuple of the same numbers compare equal in Python, while a list does not equal a tuple. The code never compares a stored list directly: it converts it with `tuple(...)` first (episode.py:68, manifest.py:37). All of them are `Time`, a `seq<int>`, and `tuple(...)` is the identity.
