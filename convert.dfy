/** internal/convert.go: from an uploaded archive to one comic book archive per volume. */
module Convert {
  import opened Base
  import opened Fs
  import GoStrings
  import Utils
  import Shikimori
  import Cbz

  /** Where uploads arrive, where they are unpacked, and where the results go. */
  const InputDir: Path := ["input"]
  const WorkDir: Path := ["workdir"]
  const CbzDir: Path := ["output", "cbz"]

  /** The text between the title of the manga and the name of a volume. */
  const VolumeInfix: string := " — Том "

  // ---------------------------------------------------------------------------
  // Names

  /** IsZip: the name ends in ".zip", letter case included. */
  predicate IsZip(name: string) {
    GoStrings.HasSuffix(name, ".zip")
  }

  /** A name is a zip name exactly when it is some stem followed by ".zip". */
  lemma IsZipStem(name: string)
    ensures IsZip(name) <==> exists stem :: name == stem + ".zip"
  {
    if IsZip(name) {
      var stem := name[..|name| - 4];
      assert name == stem + ".zip";
    }
    if exists stem :: name == stem + ".zip" {
      var stem :| name == stem + ".zip";
      assert name[|name| - 4..] == ".zip";
    }
  }

  /** The cases of the IsZip table test. */
  lemma IsZipExamples()
    ensures IsZip("archive.zip")
    ensures !IsZip("manga.cbz") && !IsZip("no_extension") && !IsZip("backup.zip.old")
  {
    IsZipStem("archive.zip");
    assert "archive.zip" == "archive" + ".zip";
    assert "manga.cbz"[5..] != ".zip";
    assert "no_extension"[8..] != ".zip";
    assert "backup.zip.old"[10..] != ".zip";
  }

  /** The uploaded archive: input/<name>. */
  function ArchivePath(name: string): Path {
    Join(InputDir, name)
  }

  /** The workspace: workdir/ and the name without one trailing ".zip". */
  function WorkspacePath(name: string): Path {
    Join(WorkDir, GoStrings.TrimSuffix(name, ".zip"))
  }

  /** For an archive stem.zip the archive is input/stem.zip and the workspace workdir/stem. */
  lemma ArchiveAndWorkspace(stem: string)
    requires ValidName(stem)
    ensures ArchivePath(stem + ".zip") == ["input", stem + ".zip"]
    ensures WorkspacePath(stem + ".zip") == ["workdir", stem]
  {
    var name := stem + ".zip";
    assert '/' !in name by {
      assert forall i :: 0 <= i < |name| ==> name[i] == if i < |stem| then stem[i] else ".zip"[i - |stem|];
    }
    JoinName(InputDir, name);
    assert GoStrings.HasSuffix(name, ".zip") by {
      assert name[|name| - 4..] == ".zip";
    }
    assert GoStrings.TrimSuffix(name, ".zip") == stem;
    JoinName(WorkDir, stem);
  }

  // ---------------------------------------------------------------------------
  // Choosing the manga's folder

  /** An entry that can hold the manga: a directory not named __MACOSX... and not hidden. */
  predicate IsMangaCandidate(e: Entry) {
    IsDirNode(e.node) && !GoStrings.HasPrefix(e.name, "__MACOSX") && !GoStrings.HasPrefix(e.name, ".")
  }

  /** The position of the first candidate in the listing, if any. */
  function FirstCandidate(entries: seq<Entry>): (k: Option<nat>)
    ensures k.None? <==> forall j :: 0 <= j < |entries| ==> !IsMangaCandidate(entries[j])
    ensures k.Some? ==> k.value < |entries| && IsMangaCandidate(entries[k.value])
    ensures k.Some? ==> forall j :: 0 <= j < k.value ==> !IsMangaCandidate(entries[j])
  {
    if entries == [] then None
    else if IsMangaCandidate(entries[0]) then Some(0)
    else match FirstCandidate(entries[1..])
      case None => None
      case Some(k) => Some(k + 1)
  }

  /** The loop of ProcessZip that looks for the manga's folder and stops at the first. */
  method ChooseRoot(entries: seq<Entry>) returns (k: Option<nat>)
    ensures k == FirstCandidate(entries)
  {
    k := None;
    var i := 0;
    while i < |entries|
      invariant 0 <= i <= |entries|
      invariant forall j :: 0 <= j < i ==> !IsMangaCandidate(entries[j])
    {
      var e := entries[i];
      if IsDirNode(e.node) && !GoStrings.HasPrefix(e.name, "__MACOSX") && !GoStrings.HasPrefix(e.name, ".") {
        k := Some(i);
        break;
      }
      i := i + 1;
    }
    FirstCandidateUnique(entries, k);
  }

  /** The first candidate is the only position that is a candidate with none before it. */
  lemma FirstCandidateUnique(entries: seq<Entry>, k: Option<nat>)
    requires k.None? ==> forall j :: 0 <= j < |entries| ==> !IsMangaCandidate(entries[j])
    requires k.Some? ==> k.value < |entries| && IsMangaCandidate(entries[k.value])
    requires k.Some? ==> forall j :: 0 <= j < k.value ==> !IsMangaCandidate(entries[j])
    ensures k == FirstCandidate(entries)
  {
    var f := FirstCandidate(entries);
    if k.Some? && f.Some? {
      assert !(k.value < f.value) && !(f.value < k.value);
    }
  }

  // ---------------------------------------------------------------------------
  // Metadata

  /** What ProcessZip uses when the catalogue gives nothing: the folder's name as title. */
  function FallbackMetadata(mangaName: string): Shikimori.Metadata {
    Shikimori.Metadata(mangaName, "", "", "", "", "")
  }

  /** The metadata of the manga: the catalogue's, or the fallback when the lookup fails. */
  function MangaMetadata(mangaName: string, catalogue: Shikimori.Catalogue): (m: Shikimori.Metadata)
    ensures Shikimori.FetchMetadata(mangaName, catalogue).Ok? ==>
      m == Shikimori.FetchMetadata(mangaName, catalogue).value
    ensures Shikimori.FetchMetadata(mangaName, catalogue).Err? ==>
      m.title == mangaName && m.author == "" && m.description == "" && m.genres == ""
      && m.url == "" && m.coverUrl == ""
  {
    match Shikimori.FetchMetadata(mangaName, catalogue)
    case Ok(meta) => meta
    case Err(_) => FallbackMetadata(mangaName)
  }

  // ---------------------------------------------------------------------------
  // One volume

  /** The metadata of one volume: the title gains the volume's name, the rest is copied. */
  function VolumeMetadata(meta: Shikimori.Metadata, volumeName: string): (v: Shikimori.Metadata)
    ensures GoStrings.HasPrefix(v.title, meta.title)
    ensures v.title[|meta.title|..] == VolumeInfix + volumeName
    ensures v.(title := meta.title) == meta
  {
    var title := meta.title + VolumeInfix + volumeName;
    assert title[..|meta.title|] == meta.title;
    assert title[|meta.title|..] == VolumeInfix + volumeName;
    meta.(title := title)
  }

  /** The directory that receives the archives of a manga: output/cbz/<title>. */
  function OutputDir(title: string): Path {
    Join(CbzDir, title)
  }

  /** The file name of a volume's archive: "<manga>__<volume>.cbz" with spaces made safe. */
  function OutputName(mangaName: string, volumeName: string): (f: string)
    ensures ' ' !in f
    ensures GoStrings.HasSuffix(f, ".cbz")
    ensures |f| == |mangaName| + |volumeName| + 6
  {
    var f := Utils.SafeName(mangaName + "__" + volumeName) + ".cbz";
    assert f[|f| - 4..] == ".cbz";
    f
  }

  /** The archive of a volume: output/cbz/<title>/<manga>__<volume>.cbz. */
  function OutputPath(title: string, mangaName: string, volumeName: string): Path {
    Join(OutputDir(title), OutputName(mangaName, volumeName))
  }

  /** With plain names the archive lies four levels down, as the end-to-end test expects. */
  lemma OutputPathShape(title: string, mangaName: string, volumeName: string)
    requires ValidName(title)
    requires '/' !in mangaName && '/' !in volumeName
    ensures OutputPath(title, mangaName, volumeName) ==
      ["output", "cbz", title, Utils.SafeName(mangaName + "__" + volumeName) + ".cbz"]
  {
    var joined := mangaName + "__" + volumeName;
    var f := OutputName(mangaName, volumeName);
    assert '/' !in joined by {
      assert forall i :: 0 <= i < |joined| ==> joined[i] in mangaName || joined[i] == '_' || joined[i] in volumeName;
    }
    assert '/' !in f by {
      var safe := Utils.SafeName(joined);
      assert forall i :: 0 <= i < |safe| ==> safe[i] == joined[i] || safe[i] == '_';
      assert forall i :: 0 <= i < |f| ==> f[i] == if i < |safe| then safe[i] else ".cbz"[i - |safe|];
    }
    assert f != "" && f != "." && f != ".." by {
      assert |f| >= 6;
    }
    JoinName(CbzDir, title);
    JoinName(CbzDir + [title], f);
  }

  /** What convertVolume does: makes the output directory (ignoring failure), then
      packages the volume folder with the volume's metadata. */
  function ConvertVolumeResult(fs: Node, volumePath: Path, volumeName: string, mangaRoot: Path,
                               meta: Shikimori.Metadata): (Node, Option<FsError>)
  {
    var mangaName := BaseName(mangaRoot);
    Cbz.CbzResult(Utils.TryMkdirAll(fs, OutputDir(meta.title)), volumePath,
      VolumeMetadata(meta, volumeName), OutputPath(meta.title, mangaName, volumeName))
  }

  /** convertVolume(volumePath, volumeName, mangaRoot, meta). */
  method ConvertVolume(fs: Node, volumePath: Path, volumeName: string, mangaRoot: Path,
                       meta: Shikimori.Metadata) returns (fs': Node, err: Option<FsError>)
    ensures (fs', err) == ConvertVolumeResult(fs, volumePath, volumeName, mangaRoot, meta)
  {
    var mangaName := BaseName(mangaRoot);
    var cbzDir := OutputDir(meta.title);
    fs' := Utils.TryMkdirAll(fs, cbzDir);
    var outputBase := Utils.SafeName(mangaName + "__" + volumeName);
    var volumeMeta := VolumeMetadata(meta, volumeName);
    var cbzOut := Join(cbzDir, outputBase + ".cbz");
    fs', err := Cbz.CreateCbz(fs', volumePath, volumeMeta, cbzOut);
  }

  /** A converted volume's archive holds the manifest with the volume's title in it. */
  lemma ConvertVolumeWritesManifest(fs: Node, volumePath: Path, volumeName: string, mangaRoot: Path,
                                    meta: Shikimori.Metadata)
    requires OutputPath(meta.title, BaseName(mangaRoot), volumeName) != volumePath + [Cbz.ManifestName]
    requires ConvertVolumeResult(fs, volumePath, volumeName, mangaRoot, meta).1.None?
    ensures var fs' := ConvertVolumeResult(fs, volumePath, volumeName, mangaRoot, meta).0;
      var out := Lookup(fs', OutputPath(meta.title, BaseName(mangaRoot), volumeName));
      var xml := Cbz.Manifest(VolumeMetadata(meta, volumeName));
      && out.Some? && out.value.File? && out.value.blob.Zip?
      && Stored(Cbz.ManifestName, Raw(GoStrings.Utf8(xml))) in out.value.blob.members
      && xml[..|Cbz.Frame[0]| + |meta.title + VolumeInfix + volumeName|] == Cbz.Frame[0] + (meta.title + VolumeInfix + volumeName)
  {
    var mangaName := BaseName(mangaRoot);
    Cbz.CbzHoldsManifest(Utils.TryMkdirAll(fs, OutputDir(meta.title)), volumePath,
      VolumeMetadata(meta, volumeName), OutputPath(meta.title, mangaName, volumeName));
    Cbz.ManifestHoldsTitle(VolumeMetadata(meta, volumeName));
  }

  // ---------------------------------------------------------------------------
  // The pipeline

  /** What happened to one entry of the manga's folder (what ProcessZip logs about it;
      entries that are not directories are passed over without a word). */
  datatype VolumeReport =
    | NotAVolume(name: string)
    | NoImages(name: string)
    | Converted(name: string)
    | Failed(name: string, error: FsError)

  /** Why ProcessZip gives up before converting anything. */
  datatype ProcessError =
    | UnzipFailed(error: FsError)
    | WorkspaceUnreadable(error: FsError)
    | EmptyArchive
    | NoMangaRoot
    | RootUnreadable(error: FsError)

  /** One iteration of the volume loop. */
  function VolumeStep(fs: Node, e: Entry, mangaRoot: Path, meta: Shikimori.Metadata): (Node, VolumeReport) {
    if !IsDirNode(e.node) then (fs, NotAVolume(e.name))
    else
      var volPath := Join(mangaRoot, e.name);
      if !Utils.ImageBelow(fs, volPath) then (fs, NoImages(e.name))
      else
        var (fs', err) := ConvertVolumeResult(fs, volPath, e.name, mangaRoot, meta);
        (fs', if err.None? then Converted(e.name) else Failed(e.name, err.value))
  }

  /** The volume loop over the listing of the manga's folder: every entry in turn, a
      failed volume not stopping the ones after it. */
  function Volumes(fs: Node, es: seq<Entry>, mangaRoot: Path, meta: Shikimori.Metadata): (Node, seq<VolumeReport>)
    decreases es
  {
    if es == [] then (fs, [])
    else
      var (fs1, r) := VolumeStep(fs, es[0], mangaRoot, meta);
      var (fs2, rs) := Volumes(fs1, es[1..], mangaRoot, meta);
      (fs2, [r] + rs)
  }

  /** os.Remove whose error is ignored. */
  function TryRemove(fs: Node, p: Path): Node {
    match Remove(fs, p)
    case Ok(fs') => fs'
    case Err(_) => fs
  }

  /** The cleanup at the end of ProcessZip: the uploaded archive, then the workspace. */
  function Cleanup(fs: Node, zipPath: Path, workPath: Path): Node {
    RemoveAll(TryRemove(fs, zipPath), workPath)
  }

  /** One pass of the volume loop: only a directory holding images is converted. */
  method ConvertEntry(fs: Node, entry: Entry, mangaRoot: Path, meta: Shikimori.Metadata)
    returns (fs': Node, report: VolumeReport)
    ensures (fs', report) == VolumeStep(fs, entry, mangaRoot, meta)
  {
    fs' := fs;
    if !IsDirNode(entry.node) {
      return fs, NotAVolume(entry.name);
    }
    var volPath := Join(mangaRoot, entry.name);
    var found := Utils.ContainsImages(fs, volPath);
    if !found {
      return fs, NoImages(entry.name);
    }
    var volErr;
    fs', volErr := ConvertVolume(fs, volPath, entry.name, mangaRoot, meta);
    report := if volErr.None? then Converted(entry.name) else Failed(entry.name, volErr.value);
  }

  /** The loop of ProcessZip over the manga's folder: a directory holding images is
      converted, and whatever happens the loop goes on with the next entry. */
  method ConvertVolumes(fs: Node, entries: seq<Entry>, mangaRoot: Path, meta: Shikimori.Metadata)
    returns (fs': Node, reports: seq<VolumeReport>)
    ensures (fs', reports) == Volumes(fs, entries, mangaRoot, meta)
  {
    fs' := fs;
    reports := [];
    var i := 0;
    while i < |entries|
      invariant 0 <= i <= |entries|
      invariant Volumes(fs', entries[i..], mangaRoot, meta).0 == Volumes(fs, entries, mangaRoot, meta).0
      invariant reports + Volumes(fs', entries[i..], mangaRoot, meta).1 == Volumes(fs, entries, mangaRoot, meta).1
    {
      assert entries[i..][0] == entries[i] && entries[i..][1..] == entries[i + 1..];
      var report;
      fs', report := ConvertEntry(fs', entries[i], mangaRoot, meta);
      reports := reports + [report];
      i := i + 1;
    }
    assert entries[i..] == [] && reports + [] == reports;
  }

  /** What ProcessZip does to the filesystem, what it reports per entry, and its error. */
  function ProcessResult(fs: Node, name: string, catalogue: Shikimori.Catalogue)
    : (Node, seq<VolumeReport>, Option<ProcessError>)
  {
    var zipPath := ArchivePath(name);
    var workPath := WorkspacePath(name);
    var (fs1, unzipErr) := Utils.UnzipResult(fs, zipPath, workPath);
    if unzipErr.Some? then (fs1, [], Some(UnzipFailed(unzipErr.value)))
    else match ReadDir(fs1, workPath)
      case Err(e) => (fs1, [], Some(WorkspaceUnreadable(e)))
      case Ok(mangaDirs) =>
        if mangaDirs == [] then (fs1, [], Some(EmptyArchive))
        else match FirstCandidate(mangaDirs)
          case None => (fs1, [], Some(NoMangaRoot))
          case Some(k) =>
            var mangaRoot := Join(workPath, mangaDirs[k].name);
            var meta := MangaMetadata(BaseName(mangaRoot), catalogue);
            match ReadDir(fs1, mangaRoot)
            case Err(e) => (fs1, [], Some(RootUnreadable(e)))
            case Ok(entries) =>
              var (fs2, reports) := Volumes(fs1, entries, mangaRoot, meta);
              (Cleanup(fs2, zipPath, workPath), reports, None)
  }

  /** ProcessZip(name): unpack, find the manga's folder, look up its metadata, convert
      every volume that holds images, then remove the archive and the workspace. */
  method ProcessZip(fs: Node, name: string, catalogue: Shikimori.Catalogue)
    returns (fs': Node, reports: seq<VolumeReport>, err: Option<ProcessError>)
    ensures (fs', reports, err) == ProcessResult(fs, name, catalogue)
  {
    var zipPath := ArchivePath(name);
    var workPath := WorkspacePath(name);
    var unzipErr;
    fs', unzipErr := Utils.Unzip(fs, zipPath, workPath);
    reports := [];
    if unzipErr.Some? {
      return fs', [], Some(UnzipFailed(unzipErr.value));
    }
    var listing := ReadDir(fs', workPath);
    if listing.Err? {
      return fs', [], Some(WorkspaceUnreadable(listing.error));
    }
    var mangaDirs := listing.value;
    if |mangaDirs| == 0 {
      return fs', [], Some(EmptyArchive);
    }
    var root := ChooseRoot(mangaDirs);
    if root.None? {
      return fs', [], Some(NoMangaRoot);
    }
    var mangaRoot := Join(workPath, mangaDirs[root.value].name);
    var mangaName := BaseName(mangaRoot);
    var fetched := Shikimori.FetchMetadata(mangaName, catalogue);
    var meta := if fetched.Ok? then fetched.value else FallbackMetadata(mangaName);
    var rootListing := ReadDir(fs', mangaRoot);
    if rootListing.Err? {
      return fs', [], Some(RootUnreadable(rootListing.error));
    }
    fs', reports := ConvertVolumes(fs', rootListing.value, mangaRoot, meta);
    fs' := TryRemove(fs', zipPath);
    fs' := RemoveAll(fs', workPath);
    err := None;
  }

  // ---------------------------------------------------------------------------
  // What the pipeline promises

  /** Every entry of the manga's folder gets exactly one report, in listing order, and
      the ones passed over are exactly the entries that are not directories. */
  lemma {:induction false} VolumesReportEach(fs: Node, es: seq<Entry>, mangaRoot: Path, meta: Shikimori.Metadata)
    ensures var reports := Volumes(fs, es, mangaRoot, meta).1;
      && |reports| == |es|
      && (forall i :: 0 <= i < |es| ==> reports[i].name == es[i].name)
      && (forall i :: 0 <= i < |es| ==> (reports[i].NotAVolume? <==> !IsDirNode(es[i].node)))
    decreases es
  {
    if es != [] {
      var (fs1, r) := VolumeStep(fs, es[0], mangaRoot, meta);
      VolumesReportEach(fs1, es[1..], mangaRoot, meta);
      var rs := Volumes(fs1, es[1..], mangaRoot, meta).1;
      assert Volumes(fs, es, mangaRoot, meta).1 == [r] + rs;
      forall i | 1 <= i < |es|
        ensures ([r] + rs)[i] == rs[i - 1] && es[i] == es[1..][i - 1]
      {
      }
    }
  }

  /** One pass of the volume loop: an entry that is not a directory is passed over, a
      directory without images is skipped, and any other directory is converted; the
      filesystem changes only in the last case, by exactly what convertVolume does. */
  lemma VolumeStepChoice(fs: Node, e: Entry, mangaRoot: Path, meta: Shikimori.Metadata)
    ensures var (fs', r) := VolumeStep(fs, e, mangaRoot, meta);
      var volPath := Join(mangaRoot, e.name);
      && r.name == e.name
      && (r.NotAVolume? <==> !IsDirNode(e.node))
      && (r.NoImages? <==> IsDirNode(e.node) && !Utils.ImageBelow(fs, volPath))
      && (r.Converted? || r.Failed? <==> IsDirNode(e.node) && Utils.ImageBelow(fs, volPath))
      && (r.NotAVolume? || r.NoImages? ==> fs' == fs)
      && (r.Converted? || r.Failed? ==>
            && fs' == ConvertVolumeResult(fs, volPath, e.name, mangaRoot, meta).0
            && (r.Converted? <==> ConvertVolumeResult(fs, volPath, e.name, mangaRoot, meta).1.None?)
            && (r.Failed? ==> Some(r.error) == ConvertVolumeResult(fs, volPath, e.name, mangaRoot, meta).1))
  {
  }

  /** The volume loop over a + b is the loop over a followed by the loop over b. */
  lemma {:induction false} VolumesSplit(fs: Node, a: seq<Entry>, b: seq<Entry>, mangaRoot: Path,
                                        meta: Shikimori.Metadata)
    ensures var (fsA, rsA) := Volumes(fs, a, mangaRoot, meta);
      Volumes(fs, a + b, mangaRoot, meta) == (Volumes(fsA, b, mangaRoot, meta).0, rsA + Volumes(fsA, b, mangaRoot, meta).1)
    decreases a
  {
    if a == [] {
      assert a + b == b && [] + Volumes(fs, b, mangaRoot, meta).1 == Volumes(fs, b, mangaRoot, meta).1;
    } else {
      assert (a + b)[0] == a[0] && (a + b)[1..] == a[1..] + b;
      var (fs1, r) := VolumeStep(fs, a[0], mangaRoot, meta);
      VolumesSplit(fs1, a[1..], b, mangaRoot, meta);
      var (fsA, rsA) := Volumes(fs1, a[1..], mangaRoot, meta);
      var rsB := Volumes(fsA, b, mangaRoot, meta).1;
      assert [r] + (rsA + rsB) == ([r] + rsA) + rsB;
    }
  }

  /** The report of the i-th entry comes from the pass over that entry, made on the
      filesystem the earlier passes left: each directory holding images there is converted
      exactly once, in listing order, and a skipped entry changes nothing. */
  lemma VolumesSkipOrConvert(fs: Node, es: seq<Entry>, mangaRoot: Path, meta: Shikimori.Metadata, i: nat)
    requires i < |es|
    ensures var rs := Volumes(fs, es, mangaRoot, meta).1;
      var before := Volumes(fs, es[..i], mangaRoot, meta).0;
      var after := Volumes(fs, es[..i + 1], mangaRoot, meta).0;
      var volPath := Join(mangaRoot, es[i].name);
      && |rs| == |es|
      && (after, rs[i]) == VolumeStep(before, es[i], mangaRoot, meta)
      && (rs[i].NoImages? <==> IsDirNode(es[i].node) && !Utils.ImageBelow(before, volPath))
      && (rs[i].Converted? || rs[i].Failed? <==> IsDirNode(es[i].node) && Utils.ImageBelow(before, volPath))
      && (rs[i].NotAVolume? || rs[i].NoImages? ==> after == before)
      && (rs[i].Converted? || rs[i].Failed? ==> after == ConvertVolumeResult(before, volPath, es[i].name, mangaRoot, meta).0)
  {
    var (before, rsBefore) := Volumes(fs, es[..i], mangaRoot, meta);
    VolumesReportEach(fs, es[..i], mangaRoot, meta);
    VolumesReportEach(fs, es, mangaRoot, meta);
    assert es == es[..i] + es[i..];
    VolumesSplit(fs, es[..i], es[i..], mangaRoot, meta);
    assert es[..i + 1] == es[..i] + [es[i]];
    VolumesSplit(fs, es[..i], [es[i]], mangaRoot, meta);
    var (fs1, r) := VolumeStep(before, es[i], mangaRoot, meta);
    assert es[i..][0] == es[i] && [es[i]][0] == es[i] && [es[i]][1..] == [];
    assert Volumes(fs1, [], mangaRoot, meta) == (fs1, []) && [r] + [] == [r];
    assert Volumes(before, [es[i]], mangaRoot, meta) == (fs1, [r]);
    assert Volumes(before, es[i..], mangaRoot, meta).1[0] == r;
    assert Volumes(fs, es, mangaRoot, meta).1[i] == r;
    VolumeStepChoice(before, es[i], mangaRoot, meta);
  }

  /** An early error changes nothing but what the extraction wrote: the uploaded archive,
      the workspace and everything else that existed are still there. */
  lemma ProcessErrorKeeps(fs: Node, name: string, catalogue: Shikimori.Catalogue, q: Path)
    requires ProcessResult(fs, name, catalogue).2.Some?
    requires Lookup(fs, q).Some?
    ensures Lookup(ProcessResult(fs, name, catalogue).0, q).Some?
    ensures ProcessResult(fs, name, catalogue).1 == []
  {
    var zipPath := ArchivePath(name);
    var workPath := WorkspacePath(name);
    ProcessErrorState(fs, name, catalogue);
    match Utils.OpenArchive(fs, zipPath)
    case Err(_) =>
    case Ok(ms) => Utils.ExtractAllKeeps(fs, Utils.AsRead(ms, workPath, zipPath), workPath, q);
  }

  /** After an early error the filesystem is what the extraction left. */
  lemma ProcessErrorState(fs: Node, name: string, catalogue: Shikimori.Catalogue)
    requires ProcessResult(fs, name, catalogue).2.Some?
    ensures ProcessResult(fs, name, catalogue).0 == Utils.UnzipResult(fs, ArchivePath(name), WorkspacePath(name)).0
    ensures ProcessResult(fs, name, catalogue).1 == []
  {
    var workPath := WorkspacePath(name);
    var (fs1, unzipErr) := Utils.UnzipResult(fs, ArchivePath(name), workPath);
    if unzipErr.None? && ReadDir(fs1, workPath).Ok? {
      var mangaDirs := ReadDir(fs1, workPath).value;
      if mangaDirs != [] && FirstCandidate(mangaDirs).Some? {
        var mangaRoot := Join(workPath, mangaDirs[FirstCandidate(mangaDirs).value].name);
        assert ReadDir(fs1, mangaRoot).Err?;
      }
    }
  }

  /** Converting a volume writes only files. */
  lemma ConvertVolumeKeeps(fs: Node, volumePath: Path, volumeName: string, mangaRoot: Path,
                           meta: Shikimori.Metadata, q: Path)
    ensures FileAt(fs, q) ==> FileAt(ConvertVolumeResult(fs, volumePath, volumeName, mangaRoot, meta).0, q)
    ensures !HasSealedDir(fs) ==> !HasSealedDir(ConvertVolumeResult(fs, volumePath, volumeName, mangaRoot, meta).0)
  {
    var fs1 := Utils.TryMkdirAll(fs, OutputDir(meta.title));
    if FileAt(fs, q) {
      Utils.TryMkdirAllKeepsFile(fs, OutputDir(meta.title), q, Lookup(fs, q).value.blob);
    }
    if !HasSealedDir(fs) {
      Utils.TryMkdirAllNoSealed(fs, OutputDir(meta.title));
    }
    Cbz.CbzKeeps(fs1, volumePath, VolumeMetadata(meta, volumeName),
      OutputPath(meta.title, BaseName(mangaRoot), volumeName), q);
  }

  /** The volume loop writes only files. */
  lemma {:induction false} VolumesKeep(fs: Node, es: seq<Entry>, mangaRoot: Path, meta: Shikimori.Metadata, q: Path)
    ensures FileAt(fs, q) ==> FileAt(Volumes(fs, es, mangaRoot, meta).0, q)
    ensures !HasSealedDir(fs) ==> !HasSealedDir(Volumes(fs, es, mangaRoot, meta).0)
    decreases es
  {
    if es != [] {
      var e := es[0];
      if IsDirNode(e.node) && Utils.ImageBelow(fs, Join(mangaRoot, e.name)) {
        ConvertVolumeKeeps(fs, Join(mangaRoot, e.name), e.name, mangaRoot, meta, q);
      }
      VolumesKeep(VolumeStep(fs, e, mangaRoot, meta).0, es[1..], mangaRoot, meta, q);
    }
  }

  /** A successful run leaves neither the uploaded archive nor the workspace behind,
      when no directory in the tree is unlistable. */
  lemma ProcessCleansUp(fs: Node, stem: string, catalogue: Shikimori.Catalogue)
    requires ValidName(stem)
    requires !HasSealedDir(fs)
    requires ProcessResult(fs, stem + ".zip", catalogue).2.None?
    ensures Lookup(ProcessResult(fs, stem + ".zip", catalogue).0, ["input", stem + ".zip"]) == None
    ensures Lookup(ProcessResult(fs, stem + ".zip", catalogue).0, ["workdir", stem]) == None
  {
    var name := stem + ".zip";
    ArchiveAndWorkspace(stem);
    var zipPath := ArchivePath(name);
    var workPath := WorkspacePath(name);
    var ms := Utils.AsRead(Utils.OpenArchive(fs, zipPath).value, workPath, zipPath);
    var fs1 := Utils.ExtractAll(fs, ms, workPath).0;
    Utils.ExtractAllKeepsFileAt(fs, ms, workPath, zipPath);
    Utils.ExtractAllNoSealed(fs, ms, workPath);
    var k := FirstCandidate(ReadDir(fs1, workPath).value).value;
    var mangaRoot := Join(workPath, ReadDir(fs1, workPath).value[k].name);
    var meta := MangaMetadata(BaseName(mangaRoot), catalogue);
    var entries := ReadDir(fs1, mangaRoot).value;
    var fs2 := Volumes(fs1, entries, mangaRoot, meta).0;
    VolumesKeep(fs1, entries, mangaRoot, meta, zipPath);
    assert ProcessResult(fs, name, catalogue).0 == Cleanup(fs2, zipPath, workPath);
    CleanupRemovesBoth(fs2, stem);
  }

  /** The clean-up removes both the archive and the workspace, when the archive is a
      file and no directory is unlistable. */
  lemma CleanupRemovesBoth(fs: Node, stem: string)
    requires ValidName(stem)
    requires FileAt(fs, ["input", stem + ".zip"]) && !HasSealedDir(fs)
    ensures Lookup(Cleanup(fs, ["input", stem + ".zip"], ["workdir", stem]), ["input", stem + ".zip"]) == None
    ensures Lookup(Cleanup(fs, ["input", stem + ".zip"], ["workdir", stem]), ["workdir", stem]) == None
  {
    var zipPath: Path := ["input", stem + ".zip"];
    var workPath: Path := ["workdir", stem];
    assert !IsPrefix(zipPath, workPath) && !IsPrefix(workPath, zipPath) by {
      assert zipPath[0] != workPath[0];
    }
    RemoveFileGone(fs, zipPath, Lookup(fs, zipPath).value.blob);
    var fs1 := Remove(fs, zipPath).value;
    assert TryRemove(fs, zipPath) == fs1;
    RemoveAllFrame(fs1, workPath, zipPath);
    RemoveFrame(fs, zipPath, workPath);
    if Lookup(fs, workPath).Some? {
      LookupNoSealed(fs, workPath);
    }
    RemoveAllGone(fs1, workPath);
  }

  /** Unzip joins member names to the workspace without checking them, so a member called
      "../../input/<stem>.zip" in the archive <stem>.zip is written over the archive itself. */
  lemma MemberEscapesWorkspace(stem: string)
    requires ValidName(stem)
    ensures Join(WorkspacePath(stem + ".zip"), "../../input/" + stem + ".zip") == ArchivePath(stem + ".zip")
  {
    var name := stem + ".zip";
    ArchiveAndWorkspace(stem);
    assert ValidName(name) by {
      assert forall i :: 0 <= i < |name| ==> name[i] == if i < |stem| then stem[i] else ".zip"[i - |stem|];
    }
    var up, dir := "..", "input";
    var member := up + ['/'] + (up + ['/'] + (dir + ['/'] + name));
    assert "../../input/" + stem + ".zip" == member;
    SplitFourElements(up, up, dir, name);
    CleanClimbsOut([up, up, dir, name], stem, name);
  }

  /** An archive <stem>.zip holding a stored member "../../input/<stem>.zip" is never
      processed: the member truncates the archive before it is read, so ProcessZip returns
      an unzip error, converts nothing and deletes nothing; when the members before it were
      all extracted, the uploaded archive is left empty. */
  lemma ArchiveOverwrittenByMember(fs: Node, stem: string, catalogue: Shikimori.Catalogue,
                                   ms: seq<Member>, i: nat)
    requires ValidName(stem)
    requires Utils.OpenArchive(fs, ArchivePath(stem + ".zip")) == Ok(ms)
    requires i < |ms| && ms[i].Stored? && ms[i].name == "../../input/" + stem + ".zip"
    ensures ProcessResult(fs, stem + ".zip", catalogue).2.Some?
    ensures ProcessResult(fs, stem + ".zip", catalogue).1 == []
    ensures Utils.ExtractAll(fs, Utils.AsRead(ms, ["workdir", stem], ["input", stem + ".zip"])[..i], ["workdir", stem]).1.None? ==>
      && ProcessResult(fs, stem + ".zip", catalogue).2 == Some(UnzipFailed(CorruptMember))
      && Lookup(ProcessResult(fs, stem + ".zip", catalogue).0, ["input", stem + ".zip"]) == Some(File(Raw([])))
  {
    var name := stem + ".zip";
    var zipPath := ArchivePath(name);
    var workPath := WorkspacePath(name);
    ArchiveAndWorkspace(stem);
    MemberEscapesWorkspace(stem);
    Utils.UnzipOverArchiveFails(fs, zipPath, workPath, i);
    var rs := Utils.AsRead(ms, workPath, zipPath);
    if Utils.ExtractAll(fs, rs[..i], workPath).1.None? {
      assert ValidName(name) by {
        assert forall k :: 0 <= k < |name| ==> name[k] == if k < |stem| then stem[k] else ".zip"[k - |stem|];
      }
      assert ValidName("input") by {
        assert |"input"| == 5 && "input"[0] == 'i';
        assert forall k :: 0 <= k < 5 ==> "input"[k] != '/';
      }
      assert forall k :: 0 <= k < |zipPath| ==> ValidName(zipPath[k]);
      Utils.UnzipEmptiesArchive(fs, zipPath, workPath, i);
    }
  }

  /** Four path elements joined by separators split back into those four. */
  lemma SplitFourElements(a: string, b: string, c: string, d: string)
    requires '/' !in a && '/' !in b && '/' !in c && '/' !in d
    ensures GoStrings.Split(a + ['/'] + (b + ['/'] + (c + ['/'] + d)), '/') == [a, b, c, d]
  {
    GoStrings.SplitNoSeparator(d, '/');
    GoStrings.SplitAfterSeparator(c, '/', d);
    GoStrings.SplitAfterSeparator(b, '/', c + ['/'] + d);
    GoStrings.SplitAfterSeparator(a, '/', b + ['/'] + (c + ['/'] + d));
  }

  lemma CleanClimbsOut(parts: seq<string>, stem: string, name: string)
    requires ValidName(stem) && ValidName(name)
    requires parts == ["..", "..", "input", name]
    ensures Clean(["workdir", stem], parts) == ["input", name]
  {
    var p1, p2, p3 := parts[1..], parts[2..], parts[3..];
    assert parts[0] == ".." && p1[0] == ".." && p1[1..] == p2;
    assert p2[0] == "input" && p2[1..] == p3 && p3[0] == name && p3[1..] == [];
    assert "input" != "" && "input" != "." && "input" != ".." by {
      assert |"input"| == 5;
    }
    var w: Path := ["workdir", stem];
    assert w != [] && w[|w| - 1] != ".." && w[..|w| - 1] == ["workdir"];
    assert Clean(w, parts) == Clean(["workdir"], p1);
    var w1: Path := ["workdir"];
    assert w1 != [] && w1[|w1| - 1] != ".." && w1[..|w1| - 1] == [];
    assert Clean(["workdir"], p1) == Clean([], p2);
    assert [] + ["input"] == ["input"];
    assert Clean([], p2) == Clean(["input"], p3);
    assert ["input"] + [name] == ["input", name];
    assert Clean(["input"], p3) == Clean(["input", name], []);
  }
}
