# manga-converter, modelled in Dafny

manga-converter watches an `input/` directory for uploaded `.zip` archives of manga.
For each archive it does the following:

- It unpacks the archive into `workdir/<stem>`.
- It picks the manga's folder: the first directory that is neither hidden nor `__MACOSX`.
- It looks the manga up in the Shikimori catalogue. When the lookup fails, it falls back to the folder's name as the title.
- It packages every sub-folder that holds images as a comic book archive, `output/cbz/<title>/<manga>__<volume>.cbz`, with a `ComicInfo.xml` manifest inside.
- At the end it deletes the uploaded archive and the workspace.

A debounce map of timers and a size-polling loop make sure that a file which is still being uploaded is not processed.

This project models that core and proves what it promises.

- **Filesystem.** The whole working directory is one value, `Fs.Node`. Directories list their entries in name order, as `os.ReadDir` and `filepath.Walk` report them. That order, and that the names in a directory are distinct valid names, is a convention the trees given to the model follow: no predicate enforces it. `Put` and `MkdirAll` insert new entries in name order (`Fs.InsertSorted`), so they keep it. On a tree that breaks it, the order in which `Convert.FirstCandidate`, the volume loop and the start-up scan meet entries is not the order Go would see. `Fs` defines the operations the code calls: `Lookup` (Lstat), `ReadDir`, `MkdirAll`, `Put` (OpenFile/Create/WriteFile), `Remove`, `RemoveAll` and `Walk`. Paths are sequences of names, and `Fs.Join` follows `filepath.Join`'s lexical cleaning.
- **Zip files.** A zip archive's content is its member list (`Blob.Zip`). A member can be a folder, a stored file, or a file whose data cannot be read back.
- **Catalogue.** The HTTP catalogue is a function parameter from the search text to the decoded reply.
- **Time.** Time is a parameter in milliseconds. What `waitStable` sees while it polls is a sequence of polls.
- **Operations that change the filesystem.** Each is a `method` that takes the filesystem and returns the new one. Each is proved equal to a specification function, and the lemmas are stated about those functions.
- **Timer map.** The timer map of `cmd/main.go` is a class whose methods update it in place.
- **Pipeline.** The timer callback and the start-up scan see ProcessZip as a function value, `Watcher.Pipeline`, so their lemmas hold for any pipeline. `Watcher.ProcessZipWith` supplies the model of ProcessZip, and the methods are proved against it.

Behaviour of the code that the model reproduces as written:

- **No escaping in ComicInfo.xml.** Values are inserted into the manifest without escaping (`Cbz.ManifestNotEscaped`).
- **Unzip does not check member names.** A name with `..` can leave the workspace (`Convert.MemberEscapesWorkspace`). A stored member named `../../input/<stem>.zip` targets the uploaded archive itself. `os.OpenFile` truncates the archive before archive/zip reads the member's data from it, so the read fails: Unzip returns an error and ProcessZip gives up, leaving the archive empty (`Convert.ArchiveOverwrittenByMember`).
- **ProcessZip's error value.** ProcessZip returns success as soon as it reaches the volume loop. It does so even when every volume fails.

## Model

| member | source | states |
|---|---|---|
| Fs.JoinName | internal/convert.go:12-13 | filepath.Join of a cleaned path and one plain name appends the name |
| Fs.PutHere | internal/utils.go:34-44 | after a successful create-and-write, the path holds a file with exactly the written content |
| Fs.PutOverFile | internal/utils.go:34 | opening an existing file for writing with O_TRUNC succeeds |
| Fs.PutFrame | internal/utils.go:34 | writing a file changes nothing at any path that is not the written path or one of its ancestors |
| Fs.PutBlocked | internal/utils.go:33-37 | a file at a strict ancestor of the target makes the write fail |
| Fs.MkdirAllHere | internal/utils.go:29 | after a successful os.MkdirAll the path is a directory |
| Fs.MkdirAllFrame | internal/utils.go:29 | os.MkdirAll changes nothing at paths that are not ancestors of the target |
| Fs.MkdirAllBlocked | internal/utils.go:33 | a file at an ancestor-or-self of the target makes os.MkdirAll fail |
| Fs.RemoveFileGone | internal/convert.go:23 | os.Remove of a file succeeds and nothing is left at the path |
| Fs.RemoveFrame | internal/convert.go:23 | os.Remove changes nothing at paths disjoint from the removed one |
| Fs.RemoveAllGone | internal/convert.go:24 | os.RemoveAll leaves nothing at the path unless an unlistable directory is below it |
| Fs.RemoveAllFrame | internal/convert.go:24 | os.RemoveAll changes nothing at paths disjoint from the removed one |
| Fs.WalkReaches | internal/utils.go:58-67 | filepath.Walk calls the callback on every path below the root, with what Lstat finds there |
| Ordering.SortStrings | internal/utils.go:117 | sort.Strings returns a sorted permutation of its input |
| Ordering.SortedUnique | internal/utils.go:117 | two sorted permutations of the same strings are equal, so the sorted list is determined by its contents |
| GoStrings.TrimSuffix | internal/convert.go:13 | the result followed by the suffix is the input when the input ends with the suffix; otherwise the input is unchanged |
| GoStrings.ReplaceAll | internal/utils.go:77 | same length; every occurrence of the character is replaced, and every other character is kept |
| GoStrings.ToLowerPointwise | internal/utils.go:72 | lower-casing keeps the length and maps each character on its own |
| GoStrings.LastIndex | cmd/main.go:44 | the result is the last position of the character, or -1 when it does not occur |
| Utils.ExtFold | internal/utils.go:71-74 | the lower-cased extension equals a lower-case suffix exactly when the name ends with that suffix in any letter case |
| Utils.IsImageBySuffix | internal/utils.go:71-74 | isImage holds exactly for names ending in .jpg, .jpeg or .png in any letter case |
| Utils.SafeName | internal/utils.go:76-78 | same length and no space; each space becomes '_' and every other character is kept |
| Utils.SafeNameIdempotent | internal/utils.go:76-78 | applying SafeName twice is the same as once |
| Utils.WalkFindsImage | internal/utils.go:56-69 | the walk of a subtree meets an image file exactly when some file below it has an image name |
| Utils.ContainsImages | internal/utils.go:56-69 | the result is true exactly when an image file lies below the path; walk errors are skipped |
| Utils.ListImages | internal/utils.go:102-119 | returns the sorted image paths met before the walk's first error, and an error exactly when the walk hit one |
| Utils.CollectImages | internal/utils.go:104-116 | the walk callback collects, in walk order, the paths of the non-directory visits with an image name, up to the first failed visit, and returns that visit's error exactly when there is one |
| Utils.ImagePathsAreImages | internal/utils.go:111-113 | every listed path is that of a visited file with an image name |
| Utils.ListImagesAgreesWithContainsImages | internal/utils.go:102-119 | on an error-free walk, ListImages finds something exactly when ContainsImages says yes |
| Utils.ImagePathsComplete | internal/utils.go:111-113 | every visited file with an image name is listed: no image the walk met is dropped |
| Utils.ImageFilesListed | internal/utils.go:102-119 | on an error-free walk, every image-named file anywhere below the folder is listed |
| Utils.ListImagesExactly | internal/utils.go:102-119 | on an error-free walk, ListImages returns every image-named file below the folder, and everything it returns is the path of a visited image file |
| Utils.Unzip | internal/utils.go:18-54 | Unzip's effect and error equal the specification: extract the members in order, as they read at their turn, stopping at the first failure |
| Utils.ExtractOne | internal/utils.go:26-51 | one pass of the loop equals the extraction step of the member as read: a folder is made with its error ignored; a file's target is opened before the member is read, and the pass reports the open or read error |
| Utils.MemberAsRead | internal/utils.go:34-42 | a member reads back as it is stored unless it is unreadable or is a stored member whose target is the archive itself, which the open-with-truncate has emptied before the read |
| Utils.UnzipOverArchiveFails | internal/utils.go:25-42 | an archive with a stored member written over the archive itself never unpacks without an error |
| Utils.UnzipEmptiesArchive | internal/utils.go:34-42 | when extraction reaches such a member, Unzip returns the read error and the archive is left as an empty file |
| Utils.ExtractAllStops | internal/utils.go:34-51 | once a member fails, members after it are never extracted |
| Utils.ExtractAllCorruptFails | internal/utils.go:39-51 | an archive with an unreadable member always makes Unzip fail |
| Utils.ExtractAllKeeps | internal/utils.go:25-52 | extraction only adds: every path that existed still exists, even after a failure |
| Utils.ExtractAllKeepsFile | internal/utils.go:25-52 | a file keeps its content through a successful extraction unless a member is written to its path |
| Utils.ExtractAllWrites | internal/utils.go:25-52 | after a successful Unzip each member file holds its data, unless a later member has the same path (the last one wins) |
| Utils.ExtractAllKeepsFileAt | internal/utils.go:25-52 | extraction never turns a file into a directory |
| Utils.ExtractAllNoSealed | internal/utils.go:25-52 | extraction creates no unlistable directory |
| Utils.TryMkdirAllKeepsFile | internal/utils.go:29 | MkdirAll with its error ignored leaves every file untouched |
| Shikimori.SearchQuery | internal/shikimori.go:33 | the search text has the name's length, no underscore, spaces where the underscores were, and all else unchanged |
| Shikimori.SearchQueryUndoesSafeName | internal/shikimori.go:33 | for a name with no underscore of its own, the query undoes SafeName |
| Shikimori.FromRecord | internal/shikimori.go:66-76 | title is the Russian name and author is empty; the description is copied; the genres are joined with ", "; both links are the site prefix followed by the record's links |
| Shikimori.FromRecordGenres | internal/shikimori.go:67 | when no genre is empty or holds a comma, the joined genre string reads back as the record's genre list |
| Shikimori.GenresRoundTrip | internal/shikimori.go:67 | joining genres with ", " and splitting them again gives the list back, under the same condition |
| Shikimori.FetchMetadata | internal/shikimori.go:32-77 | fails with the request error, the status, the decode error or "not found", each exactly for its reply; succeeds exactly on a 200 with at least one record |
| Shikimori.FetchUsesFirstResult | internal/shikimori.go:66 | only the first search result matters |
| Shikimori.FetchMetadataExample | internal/shikimori_test.go:10-41 | a 200 reply whose first record is the test's record gives exactly the test's metadata: title "Боевая классика", no author, the absolute links and the genres "Action, Adventure" |
| Shikimori.TestRecordMetadata | internal/shikimori_test.go:18 | the test's record turns into the metadata the test expects |
| Cbz.ManifestRoundTrip | internal/cbz.go:13-19 | the five values can be read back out of ComicInfo.xml when none of them holds '<' |
| Cbz.ManifestIgnoresCover | internal/cbz.go:13-19 | the cover link does not appear in the manifest |
| Cbz.ManifestNotEscaped | internal/cbz.go:13-19 | two different metadata give the same manifest, because markup inside the title is not escaped |
| Cbz.ManifestHoldsTitle | internal/cbz.go:13-19 | the manifest begins with the Title element holding the title verbatim |
| Cbz.CreateCbz | internal/cbz.go:12-74 | CreateCBZ's effect and error equal the specification: write the manifest, create the output, walk the folder, store the entries written before any error |
| Cbz.WriteEntries | internal/cbz.go:40-65 | the walk callback's loop yields exactly the entries and error of the packaging specification |
| Cbz.CbzManifestFirst | internal/cbz.go:21-26 | when the manifest cannot be written, nothing changes and an error is returned; the output is not created |
| Cbz.ManifestPathIsJoin | internal/cbz.go:21 | the manifest is written at filepath.Join(folder, "ComicInfo.xml"): the folder with one more name element |
| Cbz.PackHoldsFiles | internal/cbz.go:40-65 | on an error-free walk, every file met becomes an entry named by its relative path, with its content |
| Cbz.PackOnlyFiles | internal/cbz.go:45-47 | every entry comes from a file the walk met; directories give none |
| Cbz.PackStopsAtFirstError | internal/cbz.go:40-65 | the packaging loop errs exactly when some visit stops it (a visit error or an entry that cannot be opened); the error is that first stop's, and the entries are one per file met before it, plus an empty entry when the stop is an unreadable entry |
| Cbz.PackWithCreateFails | internal/cbz.go:21-32 | when the output cannot be created, the manifest stays written, the creation error is returned, and an output path that does not lie on the manifest's path is left unchanged |
| Cbz.PackWithWalk | internal/cbz.go:28-73 | when both writes succeed, the result is the packaging of a walk over the folder as it is after the manifest was written, and the output holds the zip of those entries |
| Cbz.CbzHoldsManifest | internal/cbz.go:12-74 | after a successful CreateCBZ the output is a zip archive holding ComicInfo.xml with the manifest's UTF-8 bytes |
| Cbz.CbzKeeps | internal/cbz.go:21-33 | packaging only writes files: every file elsewhere stays a file, and no unlistable directory appears |
| Convert.IsZipStem | internal/convert.go:105-107 | IsZip holds exactly for names of the form stem + ".zip" |
| Convert.IsZipExamples | internal/convert_test.go:14-30 | archive.zip is a zip name; manga.cbz, no_extension and backup.zip.old are not |
| Convert.ArchiveAndWorkspace | internal/convert.go:12-13 | for stem.zip, the archive is input/stem.zip and the workspace is workdir/stem |
| Convert.FirstCandidate | internal/convert.go:35-46 | none exactly when no entry is a visible, non-__MACOSX directory; otherwise the first such entry |
| Convert.ChooseRoot | internal/convert.go:35-42 | the loop with its break finds exactly the first candidate |
| Convert.MangaMetadata | internal/convert.go:48-54 | the catalogue's metadata when the lookup succeeds; otherwise only the title is set, to the folder's name |
| Convert.VolumeMetadata | internal/convert.go:88-89 | the title becomes the manga title + " — Том " + the volume name, and every other field is kept |
| Convert.OutputName | internal/convert.go:86 | the archive name has no space, ends in .cbz, and has the length of manga + "__" + volume + ".cbz" |
| Convert.OutputPathShape | internal/convert.go:83-91 | the archive lands in output/cbz/<title>/<SafeName(manga__volume)>.cbz |
| Convert.ConvertVolume | internal/convert.go:82-103 | convertVolume's effect and error equal the specification: make the output directory (ignoring failure), then package with the volume's metadata |
| Convert.ConvertVolumeWritesManifest | internal/convert.go:82-103 | a converted volume's archive holds ComicInfo.xml, and its title element holds "<title> — Том <volume>" |
| Convert.ConvertEntry | internal/convert.go:62-74 | one loop pass: a non-directory is passed over, a directory without images is skipped, any other directory is converted |
| Convert.ConvertVolumes | internal/convert.go:61-75 | the volume loop equals the specification, with a failed volume not stopping the ones after it |
| Convert.ProcessZip | internal/convert.go:11-80 | ProcessZip's effect, per-entry reports and error equal the pipeline specification, with each early return as its own error |
| Convert.VolumesReportEach | internal/convert.go:61-75 | one report per entry of the manga folder, in order; "not a volume" exactly for the non-directories |
| Convert.VolumeStepChoice | internal/convert.go:61-75 | one pass passes over a non-directory and skips a directory without images, both leaving the filesystem unchanged, and converts any other directory with convertVolume, reporting its error |
| Convert.VolumesSplit | internal/convert.go:61 | the loop over two listings in a row is the loop over the first followed by the loop over the second, the reports concatenated |
| Convert.VolumesSkipOrConvert | internal/convert.go:61-75 | the i-th report comes from the pass over the i-th entry on the filesystem the earlier passes left: a directory is converted exactly when it holds images there, and a skipped entry changes nothing |
| Convert.ProcessErrorKeeps | internal/convert.go:16-59 | on an early error nothing is deleted (not even the archive or the workspace) and no volume is reported |
| Convert.ConvertVolumeKeeps | internal/convert.go:82-103 | converting one volume only writes files: files stay files, and no unlistable directory appears |
| Convert.VolumesKeep | internal/convert.go:61-75 | the volume loop only writes files: files stay files, and no unlistable directory appears |
| Convert.ProcessCleansUp | internal/convert.go:21-25 | after a successful run, neither input/<stem>.zip nor workdir/<stem> exists, when no directory is unlistable |
| Convert.CleanupRemovesBoth | internal/convert.go:21-25 | the deferred clean-up leaves neither the uploaded archive nor the workspace behind when the archive is a file and no directory is unlistable |
| Convert.MemberEscapesWorkspace | internal/utils.go:26 | joining the workspace with the member name ../../input/<stem>.zip gives the uploaded archive's own path |
| Convert.ArchiveOverwrittenByMember | internal/convert.go:16-19 | an archive holding a stored member ../../input/<stem>.zip makes ProcessZip fail with an unzip error and convert nothing; when the members before it extracted, the archive is left empty |
| Watcher.RelevantKinds | cmd/main.go:84-86 | an event is scheduled exactly when it carries Create, Write, Rename or Chmod; a removal alone is not |
| Watcher.TrimTrailingSlashes | cmd/main.go:44 | the result is the input without its trailing separators: a prefix not ending in '/', followed in the input only by '/' |
| Watcher.PathBaseIsElement | cmd/main.go:44 | filepath.Base is never empty and holds no separator, except for the root itself |
| Watcher.PathBaseOfChild | cmd/main.go:58 | the base of dir/name, and of name, is name |
| Watcher.WaitStable | cmd/main.go:125-144 | the polling loop's verdict equals the specification: the deadline is reset on each size change, a failed stat aborts, and the verdict is yes once the deadline passes |
| Watcher.StableAfterQuietWindow | cmd/main.go:125-144 | a yes comes at a poll one window after the start and after every size change, with every stat before it successful |
| Watcher.MissingAborts | cmd/main.go:129-133 | a failed stat within the first window, after successful ones, makes the answer no |
| Watcher.UnstableMeansMissing | cmd/main.go:129-133 | a no always comes from a failed stat, with all stats before it successful |
| Watcher.SteadyFileAccepted | cmd/main.go:125-144 | a steady file polled every 300 ms is accepted at the eighth poll (2100 ms), and is still pending before it |
| Watcher.Debouncer.constructor | cmd/main.go:40 | the timer map starts empty |
| Watcher.Debouncer.Schedule | cmd/main.go:42-73 | a non-.zip path leaves the map unchanged; an existing timer is re-armed one window ahead under the same identity; a new .zip path gets exactly one fresh timer; the map only ever holds .zip paths, one timer each |
| Watcher.Debouncer.HandleEvent | cmd/main.go:77-86 | irrelevant events change nothing; a relevant event on a .zip path leaves it with an armed timer one window ahead; other paths are untouched |
| Watcher.Debouncer.Fire | cmd/main.go:55-70 | the fired callback runs; once it has finished, with or without processing, the path's entry is deleted from the map; while it is still polling, the timer stays in the map disarmed |
| Watcher.Debouncer.Disarm | cmd/main.go:55 | once a timer has fired it stays in the map, under the same key, no longer armed; nothing else in the map changes |
| Watcher.Debouncer.Release | cmd/main.go:66-69 | the callback's clean-up deletes exactly the path's entry from the map and keeps the map consistent with the id counter |
| Watcher.RunCallback | cmd/main.go:55-65 | the callback's effect equals the specification: wait for stability, then process the base name |
| Watcher.CallbackProcessesOnlyStable | cmd/main.go:57-65 | for any pipeline (ProcessZip in the program), the callback runs it exactly when waitStable said yes, and on the path's base name; otherwise the filesystem is untouched, and the callback keeps waiting exactly when the verdict is still pending |
| Watcher.ScanExisting | cmd/main.go:97-114 | the start-up scan equals the specification over the listing taken at its start; nothing happens when input/ cannot be listed |
| Watcher.ScanAll | cmd/main.go:103-113 | the loop over the listing taken at the start runs the pipeline on each entry as the scan specification does, in listing order, threading the filesystem from one call to the next |
| Watcher.ScanEntry | cmd/main.go:104-112 | an entry that is a directory or has no .zip name is passed over with nothing changed; any other is processed once, under its own name |
| Watcher.ArchiveNamesExactly | cmd/main.go:103-106 | a name is scanned exactly when some entry with that name is a non-directory with a .zip name |
| Watcher.ScanRunsEachArchive | cmd/main.go:103-113 | the pipeline (ProcessZip) is called once per archive entry, in listing order, under that entry's name, and on nothing else |

## Left out

- Files outside the core are not part of this model. That covers `internal/epub.go`, `internal/anilist.go`, `ImageSize` and `DownloadFile` in `internal/utils.go`.
- The fsnotify watcher is left out: creating it, its event and error channels, and the `for`/`select` loop (`cmd/main.go:28-36, 77-94`). `HandleEvent` models one event of that loop.
- Goroutines, `sync.Mutex` and `time.AfterFunc` are left out. Timer callbacks run one at a time, when `Fire` is called, and never overlap each other or the event loop.
- Real time is left out. `waitStable`'s clock and stat results are a given sequence of polls, and `time.Sleep(checkInterval)` is only the spacing of those polls. One pass reads the clock twice in Go; the model reads it once. A callback whose polls run out is reported as still waiting: the model does not say how it ends.
- Logging is left out. What ProcessZip logs per volume is returned as a list of reports.
- Permission bits are left out: `f.Mode()`, `0644` and `os.ModePerm`. The `Sealed` node stands for "access denied".
- The zip byte format is left out. So are errors from `zipWriter.Create` and from closing the zip writer, and partial writes by `io.Copy`: writing into an archive in memory cannot fail in the model.
- A member path that climbs above the working directory (a leading `..` after cleaning) makes the write fail with `OutsideRoot`. The model does not hold anything outside the working directory. Paths that climb out of the workspace but stay inside the working directory are modelled. A member written over the archive being extracted is modelled by its effect: the archive is emptied and the member's read fails. Reads of other members from the open archive are taken from the member list read at open.
- HTTP request construction, the `User-Agent` header and URL encoding are left out. So is JSON decoding beyond "it decodes or it does not": missing JSON fields read as empty strings, and a record's `name` is unused.
- `Utils.IsImage` lower-cases ASCII letters only, whereas Go's `strings.ToLower` uses full Unicode. No non-ASCII character lower-cases to a letter of "jpg", "jpeg" or "png", so the two agree on the result.
- `Convert.ProcessCleansUp` is stated for trees without unlistable directories. With one below the workspace, `os.RemoveAll` leaves that directory and its ancestors in place.
- `Watcher.Debouncer.Fire` requires that the timer is armed and that its deadline has passed: the runtime only runs a callback then. If an event re-arms a timer while its callback is still waiting, the callback can run a second time. The model allows this, but no lemma is stated about it.
