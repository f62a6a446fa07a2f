# mpx-Downloader archive engine in Dafny

This project models the local media archive and deduplication engine of
mpx-Downloader (`download.py`), a command-line wrapper around yt-dlp, and
proves properties of that model.

- **The archive index.** `ArchiveManager` is a JSON document kept in
  memory for one session. It maps a composite key `extractor_id_container`
  to a record of the downloaded file. Lookups heal the index: entries
  whose file has disappeared are deleted as they are met. A title-based
  fallback finds a file archived under another ID. The document is written
  back only when something changed.
- **The playlist diff planner.** `fast_copy_from_archive` walks a flat
  playlist listing. It places every item the archive already holds into
  the playlist folder and returns the IDs that still have to be
  downloaded, in listing order.
- **The materializer.** `optimized_copy_from_archive` chooses the target
  file name and extension. It does nothing when the target is the source
  itself, and otherwise tries a hard link before falling back to a copy.
- **The importers.** Files already on disk are recorded under keys built
  from a hash of their absolute path. This is done by the scan of a
  download folder (`build_archive_from_existing_files_optimized`) and by
  the recursive `--load` scan (`load_directory_to_archive`).
- **Pure command-line helpers.** `parse_args`, `split_urls`,
  `is_youtube_music_liked`, `should_retry_with_cookies` and
  `get_playlist_folder_name`.

Modules:

- `Wrappers`: `Option` and Python truthiness of optional strings.
- `Text`: ASCII lower-casing and the prefix, suffix and substring tests.
- `Paths`: the name, suffix, stem and join operations of `pathlib`.
- `Disk`: the filesystem as a class, holding a map of every existing path
  to its modification time and the set of directories.
- `Archive`: the entry record, the insertion-ordered dictionary, the key
  and the lookup stated as a pure function `FindSpec`.
- `Manager`: the `ArchiveManager` class, whose methods are proved against
  `FindSpec`.
- `Materializer`, `Planner`, `Importer` and `Cli`: the rest of the engine.

Python dictionaries keep insertion order, and the title fallback's result
depends on it. A store is therefore a key sequence together with a map
(`Archive.Store`), and it keeps the invariant that the sequence lists each
key exactly once.

yt-dlp's `sanitize_filename` and BLAKE2b are not computed. They are
parameters: `Sanitizer` is any function on strings, and `PathHash` is any
function to 16 lower-case hexadecimal digits. Every statement holds for all
such functions. Path resolution, whether a hard link or a copy can
succeed, and what a failed copy leaves at its target are also parameters
(`Disk.Host`). The flat playlist listing, the
playlist info and the directory listings are inputs. How a write of the
JSON file ends is an input too (`Manager.WriteOutcome`): it succeeds, fails at the open, fails part-way
after the open has emptied the file, or writes everything and fails when
the file is closed.

Three behaviours of the code are worth stating, because a reader of the
function names or of the test suite might expect otherwise:

- For the "mp3" container the materializer keeps a non-".mp3" source
  suffix, so a ".webm" source is placed as ".webm". The test suite expects
  "Test Song.mp3" for that source (tests/test_utils.py:444-467). The model
  follows the code (`Materializer.AudioExtensionExamples`).
- The folder importer checks only its own hash-based key. It does not
  check whether the same file is already recorded as a download, so such
  a file gets a second, local entry
  (`Importer.ImportDuplicatesDownloadedFile`). Only the recursive `--load`
  scan checks path and container.
- Both importers write the dictionary directly, under the hash-based key,
  and not through `add` and the composite key. The model does the same.

## Model

| member | source | states |
|---|---|---|
| Archive.FirstLiveMatch | download.py:90-100 | the fallback's choice is the first position, in key order, of a `_<container>` key whose file exists and whose folded title equals the query's; no earlier position qualifies |
| Archive.Key | download.py:68-70 | the key ends in `_<container>`; the extractor part before the ID is non-empty, lower-case and followed by "_" |
| Archive.FindSpec | download.py:72-111 | any hit is a stored entry whose file exists; only keys of the store are evicted |
| Archive.KeyIgnoresExtractorCase | download.py:68-70 | extractors equal up to letter case give the same key, and an empty extractor gives the key of "generic" |
| Archive.KeyDeterminesId | download.py:68-70 | with extractor and container fixed, two keys are equal exactly when the IDs are equal |
| Archive.KeyExample | download.py:68-70 | ("test123", "youtube" or "YouTube", "mp3") gives "youtube_test123_mp3" |
| Archive.KeyIsCandidateOnlyForItsContainer | download.py:68-90 | a key ends in `_<container>` for its own container and for no other underscore-free container |
| Archive.FindHitIsLiveStoredEntry | download.py:72-111 | any hit is a stored entry whose file exists, stored under the exact key or under a `_<container>` key whose folded title equals the query's |
| Archive.FindWithoutTitle | download.py:74-86 | without a truthy title only the exact key counts: it hits exactly when its file exists, and is the only key evicted, exactly when its file is gone |
| Archive.FindEvictsStaleExactKey | download.py:76-83 | a present exact key whose file is gone is always evicted |
| Archive.FindEvictsOnlyStale | download.py:72-111 | every evicted key was present, its file is gone, and it is the exact key or a `_<container>` key |
| Archive.FindFallbackEvictsOnlyBeforeHit | download.py:76-103 | whether or not a stale exact key was deleted first, a fallback hit is the entry at some position other than the exact key's; it is a live match and no earlier position is one; every stale `_<container>` key before it is evicted, and no key from it on other than the exact key is |
| Archive.FindMissMeansNoLiveMatch | download.py:86-109 | when the fallback finds nothing, no live `_<container>` entry has the query's folded title and every stale `_<container>` entry is evicted |
| Archive.FindIsolatesContainers | download.py:90 | a store holding only keys of one container never answers a lookup for another container |
| Archive.FindOnCleanStore | download.py:72-111 | on a store whose files all exist, a lookup evicts nothing, and its answer does not change when files are added |
| Manager.ArchiveManager.constructor | download.py:51-57 | a session starts from the stored document, or from an empty archive when there is none, with nothing pending |
| Manager.ArchiveManager.Save | download.py:59-66 | a clean archive writes nothing; a dirty one leaves the document written in full after a success or a failed close, untouched after a failed open, and unreadable after a write that failed part-way; the flag is cleared only after a success |
| Manager.ArchiveManager.Add | download.py:113-124 | the key of (vid, extractor, container) now holds the record with format = container and the file's mtime (0.0 when absent); other keys are unchanged; the archive is dirty |
| Manager.ArchiveManager.Evict | download.py:101-109 | exactly the listed keys are deleted, order of the rest kept; the flag is set when the list is non-empty |
| Manager.ArchiveManager.ScanByTitle | download.py:86-109 | the title scan returns the first live match and deletes exactly the stale `_<container>` keys met before it (all of them on a miss) |
| Manager.ArchiveManager.Find | download.py:72-111 | returns the hit of `FindSpec`, deletes exactly its evicted keys and sets dirty exactly when it deleted something; an exact live hit changes nothing |
| Manager.AddSaveReload | download.py:113-124 | after add and save, a fresh manager on the same file holds the added record under the same key |
| Manager.UntouchedSessionWritesNothing | download.py:59-66 | a session with no change leaves the document as it was, however the write would have ended |
| Manager.CutShortSaveLosesArchive | download.py:51-66 | after a save whose write fails part-way, the session is still dirty and a fresh session starts from an empty archive |
| Paths.Suffix | download.py:230-234 | `Path.suffix`: empty, or a dot followed by at least one character with no further dot, and never a separator |
| Paths.Stem | download.py:742-744 | `Path.stem`: the stem followed by the suffix is the final component, and the stem holds no separator |
| Materializer.OptimizedCopyFromArchive | download.py:216-257 | returns success exactly for a same-file target, a link or a copy; a link or copy adds the target with the source's mtime; a copy that failed after opening the target leaves an empty or partial file there; no other path changes |
| Materializer.TargetExt | download.py:228-234 | under "mp3" the extension is ".mp3" exactly when the source is an mp3 in any letter case, and the source suffix otherwise; under "native" it is the source suffix, even when that is empty; any other container keeps the source suffix, and only a source without a suffix gets "." + container |
| Materializer.CopyOutcome | download.py:219-257 | the outcome is a missing source exactly when the file is gone; a same-file outcome means the paths resolve alike, a link needs the platform's consent and a free target, a copy needs the platform's consent, and a failure means the copy was refused and records what the failed copy left at the target |
| Materializer.MissingSourceFails | download.py:219-221 | a missing source fails and changes nothing |
| Materializer.SameLocationIsNoop | download.py:238-240 | a target that resolves to the source succeeds and changes nothing |
| Materializer.SuccessLeavesTargetPresent | download.py:242-253 | after success the target resolves to the source or exists; only the target path can change; every existing path stays |
| Materializer.FailedCopyTouchesOnlyTarget | download.py:244-257 | a failed copy returns failure and changes no path but the target; the target exists afterwards exactly when it existed before or the copy opened it, leaving an empty or partial file |
| Materializer.LinkBeforeCopy | download.py:242-249 | when a link is possible and the target is free, the outcome is a link |
| Materializer.AudioTargetKeepsSourceFormat | download.py:228-232 | for "mp3" and "native" the target extension differs from the source suffix at most in letter case |
| Materializer.AudioExtensionExamples | download.py:228-232 | ".MP3" under "mp3" becomes ".mp3"; ".webm" stays ".webm" under "mp3" and "native" |
| Materializer.VideoTargetHasExtension | download.py:233-234 | for other containers the extension is the source suffix, or "." + container when there is none |
| Planner.PlaylistDir | download.py:167-185 | the Liked playlist goes to "Liked Music"; otherwise the sanitised playlist title, else the sanitised playlist name, else sanitised "Playlist" (also when the extraction failed) |
| Planner.FastCopyFromArchive | download.py:162-213 | the returned IDs, the copy count, the archive, its flag and the filesystem are those of `PlanFrom` over the listing; directories are untouched |
| Planner.PlanOne | download.py:195-205 | one listing item changes the archive, its flag, the filesystem, the missing IDs and the count exactly as `PlanStep` does |
| Planner.SettleOne | download.py:201-205 | after the lookup, a hit is materialised and counted when that succeeds, and a miss appends its ID, as `Settle` says |
| Planner.PlanMissingIsListed | download.py:191-213 | the missing IDs are an order-preserving subsequence of the listed IDs; missing plus copied never exceed the listed IDs |
| Planner.PlanOnlyPrunesStale | download.py:191-213 | only entries stale at the start leave the archive, kept entries are unchanged, files only appear, and the flag is raised exactly when something was deleted |
| Planner.PlanOnCleanArchive | download.py:191-213 | on an archive whose files all exist nothing is deleted, and the missing IDs are exactly the listed IDs the starting archive cannot serve |
| Importer.StableKey | download.py:716-719 | the key starts with "local_", ends with "_" + format, and has length 23 + the format's length |
| Importer.StableKeyInjective | download.py:716-719 | two stable keys are equal exactly when the path digests and the formats are equal |
| Importer.StableKeyIsNotDownloadKey | download.py:716-719 | a stable key never equals the composite key of a download from an extractor other than "local" |
| Importer.BuildArchiveFromExistingFiles | download.py:722-755 | the archive, its flag and the count are those of `ImportFrom` over the children of the folder |
| Importer.ImportOne | download.py:735-750 | one child of the folder changes the manager and the count exactly as `ImportStep` does |
| Importer.ImportExtensions | download.py:725-731 | every suffix it imports has the shape of a file suffix: a dot and at least one more character, with no further dot |
| Importer.ImportedSuffixes | download.py:725-731 | ".mp3" is imported exactly for "mp3" and "native", ".webm" for every container except "mp3" |
| Importer.LocalEntry | download.py:741-748 | the record of a found file has its stem as ID and title, so that the ID followed by the suffix is the file name; "local" as extractor, the container as format, the path, and the modification time |
| Importer.ImportKeepsExisting | download.py:737-750 | the scan never overwrites or deletes, and old keys keep their order |
| Importer.ImportAddsLocalEntries | download.py:734-750 | every new key is the stable key of a listed file with an allowed suffix and holds its local record; the count equals the number of new keys; the flag is raised exactly when something was added |
| Importer.ImportCoversListing | download.py:734-750 | every listed file with an allowed suffix has its stable key afterwards |
| Importer.ImportOfCoveredIsNoop | download.py:737-741 | when every importable file already has its stable key, the scan changes nothing |
| Importer.ImportIsIdempotent | download.py:734-750 | a second scan over the same listing adds nothing and leaves a clean archive clean |
| Importer.ImportDuplicatesDownloadedFile | download.py:737-741 | a file recorded as a download is recorded a second time under its stable key |
| Importer.LoadContainer | download.py:1758-1773 | audio suffixes map to "mp3"; everything else maps to "mkv" |
| Importer.LoadDirectoryToArchive | download.py:1743-1811 | a missing path or a non-directory fails and writes nothing; otherwise the result is a success, and when there was something to write the document is what the write outcome makes of the `LoadFrom` store |
| Importer.LoadPaths | download.py:1766-1795 | the walk over the listing leaves the manager's store and flag, and returns the count, of `LoadFrom` |
| Importer.LoadOne | download.py:1767-1795 | one listed path changes the manager and the count exactly as `LoadStep` does |
| Importer.LoadAddsNoDuplicate | download.py:1778-1794 | whatever the archive held before, every entry the scan writes is the only record of its file with its container: an already recorded file is skipped, and no file is recorded twice |
| Importer.LoadKeepsRecordsUnique | download.py:1778-1794 | an archive in which no two entries record the same file with the same container stays so |
| Importer.LoadRecordsEveryMediaFile | download.py:1766-1795 | without digest collisions, every entry found is kept unchanged and every listed media file ends up recorded with its container |
| Cli.IsYoutubeMusicLiked | download.py:335-337 | a recognised URL contains "music.youtube.com"; one with neither "list=lm" nor "liked", in any letter case, is never recognised |
| Cli.LikedIgnoresCase | download.py:335-337 | URLs equal up to letter case are recognised alike |
| Cli.LikedSurvivesAppendedQuery | download.py:335-337 | appending text to a recognised URL keeps it recognised |
| Cli.LikedExamples | download.py:335-337 | "music.youtube.com/playlist?list=LM" is recognised; "" is not |
| Cli.ShouldRetryWithCookies | download.py:438-460 | only a playlist URL (with "playlist" or "list=") is retried, and only with an error text of at least three characters |
| Cli.PrivateIsEnough | download.py:446-460 | for a playlist URL any error mentioning "private" is retried, and "this playlist is private" adds nothing to "private" |
| Cli.RetrySurvivesLongerMessage | download.py:446-460 | more text around an error never withdraws a retry |
| Cli.SplitUrls | download.py:496-499 | every piece is non-empty and free of whitespace, where whitespace is Python's `str.isspace` set, Unicode spaces and separators included |
| Cli.SplitKeepsText | download.py:496-499 | the pieces, concatenated, are the input without its whitespace |
| Cli.SplitUnwords | download.py:496-499 | splitting URLs joined by single spaces gives the URLs back |
| Cli.BlankHoldsNoUrl | download.py:496-499 | all-whitespace input, including "", gives no URL |
| Cli.SplitNoBreakSpace | download.py:496-499 | a no-break space separates two URLs like a space |
| Cli.SplitTrimsUnicodeSpace | download.py:496-499 | leading and trailing Unicode whitespace is dropped |
| Cli.PlaylistFolderName | download.py:622-630 | "Liked Music" for the Liked playlist, "Playlist" without info, else the sanitised first truthy of playlist title, playlist, uploader and channel, with sanitised "Playlist" last |
| Cli.Classify | download.py:1423-1465 | exactly the tokens not starting with "-" are URLs |
| Cli.Step | download.py:1421-1466 | each round advances, and only a token not starting with "-" is appended to the URLs |
| Cli.ParseArgs | download.py:1389-1467 | the result is `Parse(argv)` |
| Cli.ReadClearArgs | download.py:1453-1459 | `--clear` takes the tokens up to the next one starting with "--" |
| Cli.ClearEnd | download.py:1456-1458 | the `--clear` arguments stop at the first later token starting with "--", or at the end |
| Cli.ParseFromUrls | download.py:1421-1466 | from any point, parsing only appends to the URLs, and what it appends is an order-preserving subsequence of the unread tokens, none starting with "-" |
| Cli.UrlsComeFromArgv | download.py:1389-1467 | the URLs are an order-preserving subsequence of argv, none starting with "-" |
| Cli.PlainTokensAreUrls | download.py:1461-1466 | tokens without a leading "-" are all URLs, in order, and set nothing else |
| Cli.ClearSwallowsUntilDoubleDash | download.py:1453-1460 | parsing resumes at the first token starting with "--" after `--clear`, with the tokens in between as its arguments |
| Cli.OptionExamples | download.py:1389-1467 | a trailing "--format" is ignored; the last "--format" wins; "--outdir" takes its value |
| Cli.MixedCommandLine | download.py:1389-1467 | "--format mp3 --outdir /downloads --firefox-cookies <url>" sets exactly the format, the folder, the Firefox flag and the one URL |

## Left out

- yt-dlp itself (`flat_entries`, the playlist-title extraction in `fast_copy_from_archive`, downloading, the progress hook): network calls. The listing and the playlist info are inputs. A failed extraction is `info = None`.
- The archive path under the per-user data directory, and JSON encoding and decoding: the document is modelled as an optional store. An unreadable file counts as missing.
- `Planner.FastCopyFromArchive`: the `mkdir` of the playlist folder is not modelled. Whether placing a file there can succeed is left to `Disk.Host`.
- `Materializer.OptimizedCopyFromArchive`: `shutil.copy2` onto an existing directory, which copies into it, is not modelled. A copy always lands at the target path.
- `Importer.LoadRecordsEveryMediaFile`: stated only for listings whose paths have distinct digests and whose stable keys are free or already record their own file. A BLAKE2b collision can make the scan overwrite an entry.
- Exceptions raised inside the importers (`stat` failing, for instance), which the code catches, are not modelled.
- `download_date` is any real number. No clock is modelled.
- Lower-casing is ASCII only. Python's Unicode case mapping is not modelled.
- Paths are "/"-separated strings that are already absolute. `Path.absolute()` and Windows separators are not modelled.
- `__contains__`, `__iter__` and `keys` of `ArchiveManager` only forward to the dictionary.
- The legacy per-call archive functions (`load_archive`, `save_archive`, `add_to_archive`, `find_in_archive`, `copy_from_archive`) duplicate `ArchiveManager` with other cleanup rules.
- `Heartbeat` is a thread. Prompts, colours, banners, help text and the archive report are output only.
- `parse_date_input` and the clear-by-date and clear-by-name commands depend on date parsing and on float comparisons.
- `Cli.PlaylistFolderName`: Python's `str(name)` of a non-string field is not modelled. Fields are strings or absent.
- `Cli.PlaylistFolderName`: an info dictionary that is present but empty is falsy in the code, which then returns an unsanitised "Playlist". The model cannot tell it from a dictionary that lacks all four fields, and returns the sanitised "Playlist" for both. The two agree whenever sanitising leaves "Playlist" unchanged.
