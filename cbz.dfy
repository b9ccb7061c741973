/** internal/cbz.go: packaging one volume folder as a comic book archive with a
    ComicInfo.xml manifest. */
module Cbz {
  import opened Base
  import opened Fs
  import GoStrings
  import Shikimori
  import Utils

  /** The name of the manifest inside the volume folder and inside the archive. */
  const ManifestName: string := "ComicInfo.xml"

  // ---------------------------------------------------------------------------
  // The manifest

  /** The fixed text of the ComicInfo template around the five values it receives. */
  const Frame: seq<string> := [
    "<ComicInfo>\n  <Title>",
    "</Title>\n  <Writer>",
    "</Writer>\n  <Summary>",
    "</Summary>\n  <Genre>",
    "</Genre>\n  <Web>",
    "</Web>\n</ComicInfo>"
  ]

  /** The values the template receives, in order: title, author, description, genres, URL. */
  function Fields(meta: Shikimori.Metadata): seq<string> {
    [meta.title, meta.author, meta.description, meta.genres, meta.url]
  }

  /** Interleaves the template's text with the values, inserting each value as it is. */
  function Fill(frame: seq<string>, values: seq<string>): string
    requires |frame| == |values| + 1
  {
    if values == [] then frame[0] else frame[0] + values[0] + Fill(frame[1..], values[1..])
  }

  /** The ComicInfo.xml text for `meta`, with no escaping of the values. */
  function Manifest(meta: Shikimori.Metadata): string {
    Fill(Frame, Fields(meta))
  }

  /** The text up to the first '<', and the rest. */
  function TextUntilTag(s: string): (string, string) {
    if s == [] || s[0] == '<' then ([], s)
    else
      var (t, rest) := TextUntilTag(s[1..]);
      ([s[0]] + t, rest)
  }

  /** Reads the values back out of a filled template: each value runs to the next tag. */
  function Unfill(frame: seq<string>, s: string): Option<seq<string>>
    requires |frame| >= 1
    decreases |frame|
  {
    if |frame| == 1 then (if s == frame[0] then Some([]) else None)
    else if !GoStrings.HasPrefix(s, frame[0]) then None
    else
      var (t, rest) := TextUntilTag(s[|frame[0]|..]);
      match Unfill(frame[1..], rest)
      case None => None
      case Some(vs) => Some([t] + vs)
  }

  lemma {:induction false} TextUntilTagSplits(t: string, rest: string)
    requires '<' !in t
    requires rest == [] || rest[0] == '<'
    ensures TextUntilTag(t + rest) == (t, rest)
  {
    if t == [] {
      assert t + rest == rest;
    } else {
      assert (t + rest)[1..] == t[1..] + rest;
      TextUntilTagSplits(t[1..], rest);
      assert [t[0]] + t[1..] == t;
    }
  }

  /** Reading back a filled template gives the values, as long as no value holds a '<'. */
  lemma {:induction false} UnfillFill(frame: seq<string>, values: seq<string>)
    requires |frame| == |values| + 1
    requires forall i :: 1 <= i < |frame| ==> frame[i] != [] && frame[i][0] == '<'
    requires forall i :: 0 <= i < |values| ==> '<' !in values[i]
    ensures Unfill(frame, Fill(frame, values)) == Some(values)
  {
    if values != [] {
      var rest := Fill(frame[1..], values[1..]);
      var s := frame[0] + values[0] + rest;
      assert s[..|frame[0]|] == frame[0];
      assert s[|frame[0]|..] == values[0] + rest;
      assert rest[0] == frame[1][0] by {
        if |values| == 1 {
          assert rest == frame[1];
        } else {
          assert rest == frame[1] + values[1] + Fill(frame[2..], values[2..]);
        }
      }
      TextUntilTagSplits(values[0], rest);
      UnfillFill(frame[1..], values[1..]);
      assert [values[0]] + values[1..] == values;
    }
  }

  /** The manifest is readable: its five values come back out of it whenever none of
      them holds a '<'. */
  lemma ManifestRoundTrip(meta: Shikimori.Metadata)
    requires forall i :: 0 <= i < 5 ==> '<' !in Fields(meta)[i]
    ensures Unfill(Frame, Manifest(meta)) == Some(Fields(meta))
  {
    UnfillFill(Frame, Fields(meta));
  }

  /** The cover link is not part of the manifest. */
  lemma ManifestIgnoresCover(meta: Shikimori.Metadata, cover: string)
    ensures Manifest(meta.(coverUrl := cover)) == Manifest(meta)
  {
  }

  /** Text of the template placed inside the first value stands in for an empty second value. */
  lemma {:induction false} FillAbsorbs(frame: seq<string>, first: string, rest: seq<string>)
    requires |frame| == |rest| + 3
    ensures Fill(frame, [first + frame[1], ""] + rest) == Fill(frame, [first, frame[1]] + rest)
  {
    var tail := Fill(frame[2..], rest);
    assert frame[1..][0] == frame[1] && frame[1..][1..] == frame[2..];
    assert ([first + frame[1], ""] + rest)[1..] == [""] + rest;
    assert ([first, frame[1]] + rest)[1..] == [frame[1]] + rest;
    assert ([""] + rest)[1..] == rest && ([frame[1]] + rest)[1..] == rest;
    assert Fill(frame[1..], [""] + rest) == frame[1] + "" + tail;
    assert Fill(frame[1..], [frame[1]] + rest) == frame[1] + frame[1] + tail;
  }

  /** Because nothing is escaped, markup in a value can impersonate the fields after it:
      a title that ends in the Writer tag and no author gives the same manifest as the
      bare title with that tag as the author. */
  lemma ManifestNotEscaped(meta: Shikimori.Metadata)
    requires meta.author == Frame[1]
    ensures meta.(title := meta.title + Frame[1], author := "") != meta
    ensures Manifest(meta.(title := meta.title + Frame[1], author := "")) == Manifest(meta)
  {
    var forged := meta.(title := meta.title + Frame[1], author := "");
    assert |forged.title| > |meta.title|;
    var rest := [meta.description, meta.genres, meta.url];
    assert Fields(forged) == [meta.title + Frame[1], ""] + rest;
    assert Fields(meta) == [meta.title, Frame[1]] + rest;
    FillAbsorbs(Frame, meta.title, rest);
  }

  /** The manifest opens with the Title element holding the title as it is. */
  lemma ManifestHoldsTitle(meta: Shikimori.Metadata)
    ensures |Manifest(meta)| >= |Frame[0]| + |meta.title|
    ensures Manifest(meta)[..|Frame[0]| + |meta.title|] == Frame[0] + meta.title
  {
    var tail := Fill(Frame[1..], Fields(meta)[1..]);
    assert Manifest(meta) == (Frame[0] + meta.title) + tail;
  }

  // ---------------------------------------------------------------------------
  // Packaging

  /** filepath.Rel(folder, p): the path of `p` below the folder, "/"-separated. Every
      path the walk reports lies below the folder, so the second branch is not taken. */
  function Rel(folder: Path, p: Path): string {
    if IsPrefix(folder, p) then PathString(p[|folder|..]) else PathString(p)
  }

  /** The walk callback over the folder: every file becomes an entry named by its
      relative path and holding its content. A walk error stops it; a file that cannot
      be opened stops it after its (empty) entry has been created. */
  function Pack(vs: seq<Visit>, folder: Path): (seq<Member>, Option<FsError>) {
    if vs == [] then ([], None)
    else
      var v := vs[0];
      if v.Failed() then ([], Some(Utils.VisitError(v)))
      else if v.IsDir() then Pack(vs[1..], folder)
      else match v.node.value
        case File(b) =>
          var (ms, e) := Pack(vs[1..], folder);
          ([Stored(Rel(folder, v.path), b)] + ms, e)
        case _ => ([Stored(Rel(folder, v.path), Raw([]))], Some(PermissionDenied))
  }

  /** What CreateCBZ does to the filesystem, and the error it returns. The manifest is
      written first; the output is created empty, the folder is walked, and the output
      finally holds the entries written before any error. */
  function CbzResult(fs: Node, folder: Path, meta: Shikimori.Metadata, output: Path): (Node, Option<FsError>) {
    PackWith(fs, folder, Raw(GoStrings.Utf8(Manifest(meta))), output)
  }

  /** Where the manifest is written: filepath.Join(folder, "ComicInfo.xml"). */
  function ManifestPath(folder: Path): Path {
    folder + [ManifestName]
  }

  /** The manifest's path is the folder joined with the manifest's name. */
  lemma ManifestPathIsJoin(folder: Path)
    ensures ManifestPath(folder) == Join(folder, ManifestName)
  {
    assert ValidName(ManifestName) by {
      assert ManifestName[0] == 'C' && |ManifestName| == 13;
      assert forall i :: 0 <= i < |ManifestName| ==> ManifestName[i] != '/';
    }
    JoinName(folder, ManifestName);
  }

  /** CbzResult with the manifest's bytes already rendered. */
  function PackWith(fs: Node, folder: Path, xml: Blob, output: Path): (Node, Option<FsError>) {
    match Put(fs, ManifestPath(folder), xml)
    case Err(e) => (fs, Some(e))
    case Ok(fs1) =>
      match Put(fs1, output, Raw([]))
      case Err(e) => (fs1, Some(e))
      case Ok(fs2) =>
        var (ms, e) := Pack(WalkFrom(fs2, folder), folder);
        PutSameOutcome(fs1, output, Raw([]), Zip(ms));
        (Put(fs1, output, Zip(ms)).value, e)
  }

  /** CreateCBZ(folder, meta, output). */
  method CreateCbz(fs: Node, folder: Path, meta: Shikimori.Metadata, output: Path)
    returns (fs': Node, err: Option<FsError>)
    ensures (fs', err) == CbzResult(fs, folder, meta, output)
  {
    var xml := Manifest(meta);
    var written := Put(fs, ManifestPath(folder), Raw(GoStrings.Utf8(xml)));
    if written.Err? {
      return fs, Some(written.error);
    }
    var fs1 := written.value;
    var created := Put(fs1, output, Raw([]));
    if created.Err? {
      return fs1, Some(created.error);
    }
    var members;
    members, err := WriteEntries(WalkFrom(created.value, folder), folder);
    PutSameOutcome(fs1, output, Raw([]), Zip(members));
    fs' := Put(fs1, output, Zip(members)).value;
  }

  /** The walk of CreateCBZ: its callback run over each visit until one returns an error. */
  method WriteEntries(visits: seq<Visit>, folder: Path) returns (members: seq<Member>, err: Option<FsError>)
    ensures (members, err) == Pack(visits, folder)
  {
    members := [];
    err := None;
    var i := 0;
    while i < |visits|
      invariant 0 <= i <= |visits|
      invariant Pack(visits, folder).0 == members + Pack(visits[i..], folder).0
      invariant Pack(visits, folder).1 == Pack(visits[i..], folder).1
      invariant err.None?
    {
      var v := visits[i];
      assert visits[i..][0] == v && visits[i..][1..] == visits[i + 1..];
      ghost var rest := Pack(visits[i + 1..], folder);
      if v.Failed() {
        err := Some(Utils.VisitError(v));
        assert Pack(visits[i..], folder) == ([], err);
        assert members + [] == members;
        break;
      }
      if v.IsDir() {
        assert Pack(visits[i..], folder) == rest;
        i := i + 1;
        continue;
      }
      var rel := Rel(folder, v.path);
      if !v.node.value.File? {
        members := members + [Stored(rel, Raw([]))];
        err := Some(PermissionDenied);
        assert Pack(visits[i..], folder) == ([Stored(rel, Raw([]))], err);
        break;
      }
      var m := Stored(rel, v.node.value.blob);
      assert Pack(visits[i..], folder) == ([m] + rest.0, rest.1);
      assert (members + [m]) + rest.0 == members + ([m] + rest.0);
      members := members + [m];
      i := i + 1;
    }
    if err.None? {
      assert visits[i..] == [] && members + [] == members;
    }
  }

  // ---------------------------------------------------------------------------
  // What packaging promises

  /** If the manifest cannot be written nothing else happens: no output is created. */
  lemma CbzManifestFirst(fs: Node, folder: Path, meta: Shikimori.Metadata, output: Path)
    requires Put(fs, ManifestPath(folder), Raw(GoStrings.Utf8(Manifest(meta)))).Err?
    ensures CbzResult(fs, folder, meta, output).1.Some?
    ensures CbzResult(fs, folder, meta, output).0 == fs
    ensures Lookup(CbzResult(fs, folder, meta, output).0, output) == Lookup(fs, output)
  {
  }

  /** After a walk without errors every file met becomes an entry with its content. */
  lemma {:induction false} PackHoldsFiles(vs: seq<Visit>, folder: Path, k: nat)
    requires Pack(vs, folder).1.None?
    requires k < |vs| && !vs[k].IsDir()
    ensures vs[k].node.Some? && vs[k].node.value.File?
    ensures Stored(Rel(folder, vs[k].path), vs[k].node.value.blob) in Pack(vs, folder).0
  {
    if k > 0 {
      PackHoldsFiles(vs[1..], folder, k - 1);
      assert vs[1..][k - 1] == vs[k];
    }
  }

  /** Every entry of the archive comes from a file the walk met. */
  lemma {:induction false} PackOnlyFiles(vs: seq<Visit>, folder: Path, m: Member)
    requires Pack(vs, folder).1.None?
    requires m in Pack(vs, folder).0
    ensures m.Stored?
    ensures exists k :: (0 <= k < |vs| && !vs[k].IsDir() && vs[k].node == Some(File(m.blob)) &&
      m == Stored(Rel(folder, vs[k].path), m.blob))
  {
    var v := vs[0];
    if v.IsDir() || m != Stored(Rel(folder, v.path), v.node.value.blob) {
      PackOnlyFiles(vs[1..], folder, m);
      var k :| 0 <= k < |vs[1..]| && !vs[1..][k].IsDir() && vs[1..][k].node == Some(File(m.blob))
        && m == Stored(Rel(folder, vs[1..][k].path), m.blob);
      assert vs[k + 1] == vs[1..][k];
    }
  }

  /** The walk callback returns an error on this visit: the walk reported one, or the
      file cannot be opened. */
  predicate Stops(v: Visit) {
    v.Failed() || (!v.IsDir() && !v.node.value.File?)
  }

  /** The index of the first visit the callback stops at, or |vs|. */
  function FirstStop(vs: seq<Visit>): (k: nat)
    ensures k <= |vs|
    ensures forall j :: 0 <= j < k ==> !Stops(vs[j])
    ensures k < |vs| ==> Stops(vs[k])
  {
    if vs == [] then 0 else if Stops(vs[0]) then 0 else 1 + FirstStop(vs[1..])
  }

  /** One entry per regular file met, in walk order, named by its relative path and
      holding its content. */
  function FileEntries(vs: seq<Visit>, folder: Path): (ms: seq<Member>)
    ensures |ms| <= |vs|
  {
    if vs == [] then []
    else
      var v := vs[0];
      (if v.node.Some? && v.node.value.File? then [Stored(Rel(folder, v.path), v.node.value.blob)] else [])
      + FileEntries(vs[1..], folder)
  }

  /** The callback's first error ends the walk and is returned: the entries are those of
      the files before it, plus the empty entry of a file that could not be opened; a walk
      without one gives exactly one entry per file. */
  lemma {:induction false} PackStopsAtFirstError(vs: seq<Visit>, folder: Path)
    ensures var k := FirstStop(vs);
      var (ms, e) := Pack(vs, folder);
      && (e.Some? <==> k < |vs|)
      && (k == |vs| ==> ms == FileEntries(vs, folder))
      && (k < |vs| && vs[k].Failed() ==>
            e == Some(Utils.VisitError(vs[k])) && ms == FileEntries(vs[..k], folder))
      && (k < |vs| && !vs[k].Failed() ==>
            e == Some(PermissionDenied)
            && ms == FileEntries(vs[..k], folder) + [Stored(Rel(folder, vs[k].path), Raw([]))])
  {
    if vs != [] {
      var v := vs[0];
      if Stops(v) {
        assert vs[..0] == [];
        assert [] + [Stored(Rel(folder, v.path), Raw([]))] == [Stored(Rel(folder, v.path), Raw([]))];
      } else {
        PackStopsAtFirstError(vs[1..], folder);
        var k := FirstStop(vs[1..]);
        assert vs[1..][k..] == vs[k + 1..];
        if k < |vs[1..]| {
          assert vs[..k + 1][0] == v && vs[..k + 1][1..] == vs[1..][..k];
          assert vs[1..][k] == vs[k + 1];
        }
        var head := if v.node.value.File? then [Stored(Rel(folder, v.path), v.node.value.blob)] else [];
        assert v.IsDir() ==> head == [];
        if k < |vs[1..]| {
          var rest := FileEntries(vs[1..][..k], folder);
          var last := [Stored(Rel(folder, vs[1..][k].path), Raw([]))];
          assert head + (rest + last) == (head + rest) + last;
        }
      }
    }
  }

  /** When the output cannot be created, the error is returned, the manifest stays written
      and nothing else is touched. */
  lemma PackWithCreateFails(fs: Node, folder: Path, xml: Blob, output: Path)
    requires Put(fs, ManifestPath(folder), xml).Ok?
    requires Put(Put(fs, ManifestPath(folder), xml).value, output, Raw([])).Err?
    ensures var fs1 := Put(fs, ManifestPath(folder), xml).value;
      && PackWith(fs, folder, xml, output) == (fs1, Some(Put(fs1, output, Raw([])).error))
      && Lookup(fs1, ManifestPath(folder)) == Some(File(xml))
      && (!IsPrefix(output, ManifestPath(folder)) ==> Lookup(fs1, output) == Lookup(fs, output))
  {
    PutHere(fs, ManifestPath(folder), xml);
    if !IsPrefix(output, ManifestPath(folder)) {
      PutFrame(fs, ManifestPath(folder), xml, output);
    }
  }

  /** Once the manifest is written and the output created, the walk's outcome is returned
      and the output holds exactly the entries the walk wrote, even when it stopped early. */
  lemma PackWithWalk(fs: Node, folder: Path, xml: Blob, output: Path)
    requires Put(fs, ManifestPath(folder), xml).Ok?
    requires Put(Put(fs, ManifestPath(folder), xml).value, output, Raw([])).Ok?
    ensures var fs2 := Put(Put(fs, ManifestPath(folder), xml).value, output, Raw([])).value;
      var (ms, e) := Pack(WalkFrom(fs2, folder), folder);
      && PackWith(fs, folder, xml, output).1 == e
      && Lookup(PackWith(fs, folder, xml, output).0, output) == Some(File(Zip(ms)))
  {
    var fs1 := Put(fs, ManifestPath(folder), xml).value;
    var fs2 := Put(fs1, output, Raw([])).value;
    var ms := Pack(WalkFrom(fs2, folder), folder).0;
    PutSameOutcome(fs1, output, Raw([]), Zip(ms));
    PutHere(fs1, output, Zip(ms));
  }

  /** A walk without errors that meets the manifest file packs it under its own name. */
  lemma PackHoldsManifest(vs: seq<Visit>, folder: Path, b: Blob)
    requires Pack(vs, folder).1.None?
    requires Visit(folder + [ManifestName], Some(File(b))) in vs
    ensures Stored(ManifestName, b) in Pack(vs, folder).0
  {
    var xmlPath := folder + [ManifestName];
    var k :| 0 <= k < |vs| && vs[k] == Visit(xmlPath, Some(File(b)));
    PackHoldsFiles(vs, folder, k);
    assert xmlPath[|folder|..] == [ManifestName];
  }

  /** A successful CreateCBZ leaves at the output an archive whose entries include the
      manifest under its own name, holding the manifest's text. */
  lemma CbzHoldsManifest(fs: Node, folder: Path, meta: Shikimori.Metadata, output: Path)
    requires output != folder + [ManifestName]
    requires CbzResult(fs, folder, meta, output).1.None?
    ensures var fs' := CbzResult(fs, folder, meta, output).0;
      && Lookup(fs', output).Some? && Lookup(fs', output).value.File?
      && Lookup(fs', output).value.blob.Zip?
      && Stored(ManifestName, Raw(GoStrings.Utf8(Manifest(meta)))) in Lookup(fs', output).value.blob.members
  {
    PackWithHoldsManifest(fs, folder, Raw(GoStrings.Utf8(Manifest(meta))), output);
  }

  lemma PackWithHoldsManifest(fs: Node, folder: Path, xml: Blob, output: Path)
    requires output != folder + [ManifestName]
    requires PackWith(fs, folder, xml, output).1.None?
    ensures var fs' := PackWith(fs, folder, xml, output).0;
      && Lookup(fs', output).Some? && Lookup(fs', output).value.File?
      && Lookup(fs', output).value.blob.Zip?
      && Stored(ManifestName, xml) in Lookup(fs', output).value.blob.members
  {
    var xmlPath := folder + [ManifestName];
    var fs1 := Put(fs, xmlPath, xml).value;
    var fs2 := Put(fs1, output, Raw([])).value;
    ManifestSurvives(fs, xmlPath, xml, output);
    var vs := WalkFrom(fs2, folder);
    WalkPacksManifest(fs2, folder, xml);
    var ms := Pack(vs, folder).0;
    PutSameOutcome(fs1, output, Raw([]), Zip(ms));
    PutHere(fs1, output, Zip(ms));
  }

  /** The manifest written first is still there once the output has been created. */
  lemma ManifestSurvives(fs: Node, xmlPath: Path, xml: Blob, output: Path)
    requires output != xmlPath
    requires Put(fs, xmlPath, xml).Ok? && Put(Put(fs, xmlPath, xml).value, output, Raw([])).Ok?
    ensures Lookup(Put(Put(fs, xmlPath, xml).value, output, Raw([])).value, xmlPath) == Some(File(xml))
  {
    PutHere(fs, xmlPath, xml);
    PutKeepsFile(Put(fs, xmlPath, xml).value, output, Raw([]), xmlPath, xml);
  }

  /** A walk of the folder that holds the manifest packs it, unless the walk fails. */
  lemma WalkPacksManifest(fs: Node, folder: Path, xml: Blob)
    requires Lookup(fs, folder + [ManifestName]) == Some(File(xml))
    requires Pack(WalkFrom(fs, folder), folder).1.None?
    ensures Stored(ManifestName, xml) in Pack(WalkFrom(fs, folder), folder).0
  {
    WalkFromReaches(fs, folder, [ManifestName]);
    PackHoldsManifest(WalkFrom(fs, folder), folder, xml);
  }

  /** Packaging a volume writes only files: a file elsewhere stays a file, and no
      unlistable directory appears. */
  lemma CbzKeeps(fs: Node, folder: Path, meta: Shikimori.Metadata, output: Path, q: Path)
    ensures FileAt(fs, q) ==> FileAt(CbzResult(fs, folder, meta, output).0, q)
    ensures !HasSealedDir(fs) ==> !HasSealedDir(CbzResult(fs, folder, meta, output).0)
  {
    var xml := Raw(GoStrings.Utf8(Manifest(meta)));
    var first := Put(fs, ManifestPath(folder), xml);
    if first.Ok? {
      var fs1 := first.value;
      if FileAt(fs, q) {
        PutKeepsFileAt(fs, ManifestPath(folder), xml, q);
      }
      if !HasSealedDir(fs) {
        PutNoSealed(fs, ManifestPath(folder), xml);
      }
      if Put(fs1, output, Raw([])).Ok? {
        var (ms, e) := Pack(WalkFrom(Put(fs1, output, Raw([])).value, folder), folder);
        PutSameOutcome(fs1, output, Raw([]), Zip(ms));
        if FileAt(fs1, q) {
          PutKeepsFileAt(fs1, output, Zip(ms), q);
        }
        if !HasSealedDir(fs1) {
          PutNoSealed(fs1, output, Zip(ms));
        }
      }
    }
  }
}
