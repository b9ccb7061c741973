/** internal/utils.go: image names, safe names, the image inspector and zip extraction. */
module Utils {
  import opened Base
  import opened Fs
  import GoStrings
  import Ordering

  // ---------------------------------------------------------------------------
  // Names

  /** filepath.Ext of a base name: the text from the last dot on, or "" without a dot. */
  function Ext(name: string): string {
    var k := GoStrings.LastIndex(name, '.');
    if k < 0 then "" else name[k..]
  }

  /** The extension is empty, or a dot and what follows it to the end of the name, with
      no dot after it. */
  lemma ExtShape(name: string)
    ensures var e := Ext(name);
      e == "" || (e[0] == '.' && GoStrings.HasSuffix(name, e) && '.' !in e[1..])
  {
  }

  /** isImage: the lower-cased extension is .jpg, .jpeg or .png. */
  predicate IsImage(name: string) {
    var ext := GoStrings.ToLower(Ext(name));
    ext == ".jpg" || ext == ".jpeg" || ext == ".png"
  }

  /** `name` ends with `suffix` when compared case-insensitively. */
  predicate HasSuffixFold(name: string, suffix: string) {
    |suffix| <= |name| && GoStrings.ToLower(name[|name| - |suffix|..]) == suffix
  }

  lemma LowerOnlyFromSame(c: char, d: char)
    requires d == '.' || 'a' <= d <= 'z'
    requires GoStrings.LowerChar(c) == d
    ensures c == d || c == (d as int - 32) as char
    ensures (c == '.') == (d == '.')
  {
  }

  /** An extension `suf` (a dot and lower-case letters) is the name's extension, case
      folded, exactly when the name ends with it case-insensitively. */
  lemma ExtFold(name: string, suf: string)
    requires |suf| >= 2 && suf[0] == '.'
    requires forall i :: 1 <= i < |suf| ==> 'a' <= suf[i] <= 'z'
    ensures GoStrings.ToLower(Ext(name)) == suf <==> HasSuffixFold(name, suf)
  {
    var e := Ext(name);
    ExtShape(name);
    GoStrings.ToLowerPointwise(e);
    if |suf| <= |name| {
      GoStrings.ToLowerPointwise(name[|name| - |suf|..]);
    }
    if GoStrings.ToLower(e) == suf {
      assert GoStrings.HasSuffix(name, e);
      assert name[|name| - |suf|..] == e;
    }
    if HasSuffixFold(name, suf) {
      var k := |name| - |suf|;
      var tail := name[k..];
      forall i | 0 <= i < |suf|
        ensures (tail[i] == '.') == (i == 0)
      {
        assert GoStrings.LowerChar(tail[i]) == suf[i];
        LowerOnlyFromSame(tail[i], suf[i]);
      }
      assert name[k] == '.';
      forall j | k < j < |name|
        ensures name[j] != '.'
      {
        assert tail[j - k] == name[j];
      }
    }
  }

  /** isImage holds exactly for names ending in .jpg, .jpeg or .png in any letter case. */
  lemma IsImageBySuffix(name: string)
    ensures IsImage(name) <==>
      HasSuffixFold(name, ".jpg") || HasSuffixFold(name, ".jpeg") || HasSuffixFold(name, ".png")
  {
    ExtFold(name, ".jpg");
    ExtFold(name, ".jpeg");
    ExtFold(name, ".png");
  }

  /** SafeName: every space becomes an underscore. */
  function SafeName(name: string): (r: string)
    ensures |r| == |name|
    ensures ' ' !in r
    ensures forall i :: 0 <= i < |name| && name[i] != ' ' ==> r[i] == name[i]
    ensures forall i :: 0 <= i < |name| && name[i] == ' ' ==> r[i] == '_'
  {
    GoStrings.ReplaceAll(name, ' ', '_')
  }

  /** SafeName is idempotent. */
  lemma SafeNameIdempotent(name: string)
    ensures SafeName(SafeName(name)) == SafeName(name)
  {
    var once := SafeName(name);
    assert forall i :: 0 <= i < |once| ==> SafeName(once)[i] == once[i];
  }

  // ---------------------------------------------------------------------------
  // The image inspector

  /** A walk callback that sees an image file: no error, not a directory, image name. */
  predicate ImageVisit(v: Visit) {
    !v.Failed() && !v.IsDir() && IsImage(BaseName(v.path))
  }

  /** Some file at any depth of the subtree (itself called `name`) has an image name;
      unlistable directories hide what they hold. */
  predicate HasImage(n: Node, name: Name) {
    match n
    case File(_) => IsImage(name)
    case Sealed(isDir) => !isDir && IsImage(name)
    case Dir(cs) => AnyHasImage(cs)
  }

  /** Some entry of the listing holds an image. */
  predicate AnyHasImage(cs: seq<Entry>) {
    cs != [] && (HasImage(cs[0].node, cs[0].name) || AnyHasImage(cs[1..]))
  }

  /** The paths of the image visits, in walk order. */
  function ImagePaths(vs: seq<Visit>): (r: seq<string>)
    ensures |r| <= |vs|
  {
    if vs == [] then []
    else (if ImageVisit(vs[0]) then [PathString(vs[0].path)] else []) + ImagePaths(vs[1..])
  }

  lemma {:induction false} ImagePathsConcat(a: seq<Visit>, b: seq<Visit>)
    ensures ImagePaths(a + b) == ImagePaths(a) + ImagePaths(b)
  {
    if a != [] {
      assert (a + b)[1..] == a[1..] + b;
      ImagePathsConcat(a[1..], b);
    } else {
      assert a + b == b;
    }
  }

  /** The walk meets an image exactly when the tree holds one. */
  lemma {:induction false} WalkFindsImage(n: Node, p: Path)
    ensures ImagePaths(Walk(n, p)) != [] <==> HasImage(n, BaseName(p))
  {
    match n
    case File(_) =>
    case Sealed(_) =>
    case Dir(cs) =>
      ImagePathsConcat([Visit(p, Some(n))], WalkAll(cs, p));
      WalkAllFindsImage(cs, p);
  }

  lemma {:induction false} WalkAllFindsImage(cs: seq<Entry>, p: Path)
    ensures ImagePaths(WalkAll(cs, p)) != [] <==> AnyHasImage(cs)
  {
    if cs != [] {
      var head := Walk(cs[0].node, p + [cs[0].name]);
      ImagePathsConcat(head, WalkAll(cs[1..], p));
      WalkFindsImage(cs[0].node, p + [cs[0].name]);
      WalkAllFindsImage(cs[1..], p);
      assert BaseName(p + [cs[0].name]) == cs[0].name;
    }
  }

  /** Whether the tree at `p` holds an image, the way ContainsImages answers it. */
  predicate ImageBelow(fs: Node, p: Path) {
    Lookup(fs, p).Some? && HasImage(Lookup(fs, p).value, BaseName(p))
  }

  /** ContainsImages: walks the tree at `p` and stops at the first image file; walk
      errors count as "nothing there". */
  method ContainsImages(fs: Node, p: Path) returns (found: bool)
    ensures found <==> ImageBelow(fs, p)
  {
    var visits := WalkFrom(fs, p);
    found := false;
    var i := 0;
    while i < |visits|
      invariant 0 <= i <= |visits|
      invariant forall j :: 0 <= j < i ==> !ImageVisit(visits[j])
    {
      var v := visits[i];
      if !v.Failed() && !v.IsDir() && IsImage(BaseName(v.path)) {
        found := true;
        break;
      }
      i := i + 1;
    }
    if found {
      assert ImageVisit(visits[i]);
    }
    ImagePathsNonEmpty(visits);
    if Lookup(fs, p).Some? {
      WalkFindsImage(Lookup(fs, p).value, p);
    }
  }

  /** The index of the first visit whose callback sees an error, or |vs|. */
  function FirstFailure(vs: seq<Visit>): (k: nat)
    ensures k <= |vs|
    ensures forall j :: 0 <= j < k ==> !vs[j].Failed()
    ensures k < |vs| ==> vs[k].Failed()
  {
    if vs == [] then 0 else if vs[0].Failed() then 0 else 1 + FirstFailure(vs[1..])
  }

  /** The error a failed visit carries. */
  function VisitError(v: Visit): FsError {
    if v.node.None? then NotExist else PermissionDenied
  }

  /** The image paths collected from a walk are non-empty exactly when it meets an image. */
  lemma {:induction false} ImagePathsNonEmpty(vs: seq<Visit>)
    ensures ImagePaths(vs) != [] <==> exists i :: 0 <= i < |vs| && ImageVisit(vs[i])
  {
    if vs != [] {
      ImagePathsNonEmpty(vs[1..]);
      if exists i :: 0 <= i < |vs| && ImageVisit(vs[i]) {
        var i :| 0 <= i < |vs| && ImageVisit(vs[i]);
        if i > 0 {
          assert ImageVisit(vs[1..][i - 1]);
        }
      }
      if exists i :: 0 <= i < |vs[1..]| && ImageVisit(vs[1..][i]) {
        var i :| 0 <= i < |vs[1..]| && ImageVisit(vs[1..][i]);
        assert ImageVisit(vs[i + 1]);
      }
    }
  }

  /** Every collected path is the path of an image visit. */
  lemma {:induction false} ImagePathsAreImages(vs: seq<Visit>, s: string)
    requires s in ImagePaths(vs)
    ensures exists i :: 0 <= i < |vs| && ImageVisit(vs[i]) && PathString(vs[i].path) == s
  {
    if vs == [] {
      assert false;
    } else if ImageVisit(vs[0]) && s == PathString(vs[0].path) {
      assert ImageVisit(vs[0]) && PathString(vs[0].path) == s;
    } else {
      assert s in ImagePaths(vs[1..]);
      ImagePathsAreImages(vs[1..], s);
      var i :| 0 <= i < |vs[1..]| && ImageVisit(vs[1..][i]) && PathString(vs[1..][i].path) == s;
      assert vs[i + 1] == vs[1..][i];
    }
  }

  /** Every image visit is collected. */
  lemma {:induction false} ImagePathsComplete(vs: seq<Visit>, i: nat)
    requires i < |vs| && ImageVisit(vs[i])
    ensures PathString(vs[i].path) in ImagePaths(vs)
  {
    if i > 0 {
      assert vs[1..][i - 1] == vs[i];
      ImagePathsComplete(vs[1..], i - 1);
    }
  }

  /** On a walk without errors, every file at any depth below the folder whose name is an
      image name is collected. */
  lemma ImageFilesListed(fs: Node, folder: Path, q: Path)
    requires FirstFailure(WalkFrom(fs, folder)) == |WalkFrom(fs, folder)|
    requires q != [] && IsImage(q[|q| - 1])
    requires Lookup(fs, folder + q).Some? && !IsDirNode(Lookup(fs, folder + q).value)
    ensures PathString(folder + q) in ImagePaths(WalkFrom(fs, folder))
  {
    var vs := WalkFrom(fs, folder);
    WalkFromReaches(fs, folder, q);
    var v := Visit(folder + q, Lookup(fs, folder + q));
    var i :| 0 <= i < |vs| && vs[i] == v;
    assert BaseName(folder + q) == q[|q| - 1];
    ImagePathsComplete(vs, i);
  }

  /** What ListImages returns on an error-free walk lists every image file below the
      folder, and nothing that is not one. */
  lemma ListImagesExactly(fs: Node, folder: Path, images: seq<string>, q: Path, s: string)
    requires FirstFailure(WalkFrom(fs, folder)) == |WalkFrom(fs, folder)|
    requires multiset(images) == multiset(ImagePaths(WalkFrom(fs, folder)[..|WalkFrom(fs, folder)|]))
    ensures q != [] && IsImage(q[|q| - 1]) && Lookup(fs, folder + q).Some? && !IsDirNode(Lookup(fs, folder + q).value)
      ==> PathString(folder + q) in images
    ensures s in images ==>
      (exists i :: 0 <= i < |WalkFrom(fs, folder)| && ImageVisit(WalkFrom(fs, folder)[i])
                   && PathString(WalkFrom(fs, folder)[i].path) == s)
  {
    var vs := WalkFrom(fs, folder);
    assert vs[..|vs|] == vs;
    if q != [] && IsImage(q[|q| - 1]) && Lookup(fs, folder + q).Some? && !IsDirNode(Lookup(fs, folder + q).value) {
      ImageFilesListed(fs, folder, q);
      assert PathString(folder + q) in multiset(images);
    }
    if s in images {
      assert s in multiset(ImagePaths(vs));
      ImagePathsAreImages(vs, s);
    }
  }

  /** ListImages: collects the image files met by the walk until its first error, then
      sorts them; the error, if any, is returned beside them. */
  method ListImages(fs: Node, folder: Path) returns (images: seq<string>, err: Option<FsError>)
    ensures var vs := WalkFrom(fs, folder); var k := FirstFailure(vs);
      && Ordering.Sorted(images)
      && multiset(images) == multiset(ImagePaths(vs[..k]))
      && (err.Some? <==> k < |vs|)
      && (k < |vs| ==> err == Some(VisitError(vs[k])))
  {
    var collected;
    collected, err := CollectImages(WalkFrom(fs, folder));
    images := Ordering.SortStrings(collected);
  }

  /** The walk callback of ListImages: the image paths in walk order until the first
      error, and that error. */
  method CollectImages(visits: seq<Visit>) returns (collected: seq<string>, err: Option<FsError>)
    ensures var k := FirstFailure(visits);
      && collected == ImagePaths(visits[..k])
      && (err.Some? <==> k < |visits|)
      && (k < |visits| ==> err == Some(VisitError(visits[k])))
  {
    collected := [];
    err := None;
    var i := 0;
    while i < |visits|
      invariant 0 <= i <= |visits|
      invariant forall j :: 0 <= j < i ==> !visits[j].Failed()
      invariant collected == ImagePaths(visits[..i])
    {
      var v := visits[i];
      if v.Failed() {
        err := Some(VisitError(v));
        break;
      }
      assert visits[..i + 1] == visits[..i] + [v];
      ImagePathsConcat(visits[..i], [v]);
      assert ImagePaths([v]) == if ImageVisit(v) then [PathString(v.path)] else [];
      if !v.IsDir() && IsImage(BaseName(v.path)) {
        collected := collected + [PathString(v.path)];
      }
      i := i + 1;
    }
    FirstFailureAt(visits, i);
  }

  lemma {:induction false} FirstFailureAt(vs: seq<Visit>, i: nat)
    requires i <= |vs|
    requires forall j :: 0 <= j < i ==> !vs[j].Failed()
    requires i < |vs| ==> vs[i].Failed()
    ensures FirstFailure(vs) == i
  {
    if i > 0 {
      FirstFailureAt(vs[1..], i - 1);
    }
  }

  /** Without walk errors ListImages finds something exactly when ContainsImages is true. */
  lemma ListImagesAgreesWithContainsImages(fs: Node, p: Path)
    requires FirstFailure(WalkFrom(fs, p)) == |WalkFrom(fs, p)|
    ensures ImagePaths(WalkFrom(fs, p)) != [] <==> ImageBelow(fs, p)
  {
    var vs := WalkFrom(fs, p);
    ImagePathsNonEmpty(vs);
    if Lookup(fs, p).Some? {
      WalkFindsImage(Lookup(fs, p).value, p);
    }
  }

  // ---------------------------------------------------------------------------
  // Extraction

  /** How one member's extraction ends: go on with the next, or stop with an error. */
  datatype Step = Next(fs: Node) | Stop(fs: Node, error: FsError)

  /** filepath.Dir of a cleaned relative path. */
  function Parent(p: Path): Path {
    if p == [] then [] else p[..|p| - 1]
  }

  /** MkdirAll whose error is ignored, as Unzip does. */
  function TryMkdirAll(fs: Node, p: Path): Node {
    match MkdirAll(fs, p)
    case Ok(fs') => fs'
    case Err(_) => fs
  }

  /** One iteration of Unzip's loop. */
  function ExtractMember(fs: Node, m: Member, dest: Path): Step {
    var path := Join(dest, m.name);
    match m
    case Folder(_) => Next(TryMkdirAll(fs, path))
    case Stored(_, blob) =>
      (match Put(TryMkdirAll(fs, Parent(path)), path, blob)
       case Ok(fs') => Next(fs')
       case Err(e) => Stop(TryMkdirAll(fs, Parent(path)), e))
    case Corrupt(_) =>
      (match Put(TryMkdirAll(fs, Parent(path)), path, Raw([]))
       case Ok(fs') => Stop(fs', CorruptMember)
       case Err(e) => Stop(TryMkdirAll(fs, Parent(path)), e))
  }

  /** The members extracted in order, stopping at the first failure. */
  function ExtractAll(fs: Node, ms: seq<Member>, dest: Path): (Node, Option<FsError>)
    decreases ms
  {
    if ms == [] then (fs, None)
    else match ExtractMember(fs, ms[0], dest)
      case Next(fs') => ExtractAll(fs', ms[1..], dest)
      case Stop(fs', e) => (fs', Some(e))
  }

  /** zip.OpenReader: the members of the archive at `src`. */
  function OpenArchive(fs: Node, src: Path): Result<seq<Member>, FsError> {
    match Lookup(fs, src)
    case None => Err(NotExist)
    case Some(File(Zip(ms))) => Ok(ms)
    case Some(File(Raw(_))) => Err(NotAnArchive)
    case Some(Dir(_)) => Err(IsADirectory)
    case Some(Sealed(_)) => Err(PermissionDenied)
  }

  /** A member as extraction reads it. archive/zip reads a member's data from the
      still-open archive only when the member is opened, after os.OpenFile has truncated
      the member's target: a stored member written over the archive itself finds it empty
      and cannot be read back. */
  function MemberAsRead(m: Member, dest: Path, src: Path): (r: Member)
    ensures r.name == m.name
    ensures r.Corrupt? <==> m.Corrupt? || (m.Stored? && Join(dest, m.name) == src)
    ensures !r.Corrupt? ==> r == m
  {
    if m.Stored? && Join(dest, m.name) == src then Corrupt(m.name) else m
  }

  /** The members of the archive at `src` as extraction into `dest` reads them. */
  function AsRead(ms: seq<Member>, dest: Path, src: Path): (rs: seq<Member>)
    ensures |rs| == |ms|
  {
    seq(|ms|, i requires 0 <= i < |ms| => MemberAsRead(ms[i], dest, src))
  }

  /** What Unzip does to the filesystem, and the error it returns. */
  function UnzipResult(fs: Node, src: Path, dest: Path): (Node, Option<FsError>) {
    match OpenArchive(fs, src)
    case Err(e) => (fs, Some(e))
    case Ok(ms) => ExtractAll(fs, AsRead(ms, dest, src), dest)
  }

  /** Unzip: writes each member to dest joined with its name, creating parent
      directories; stops at the first member that cannot be written or read. */
  method Unzip(fs: Node, src: Path, dest: Path) returns (fs': Node, err: Option<FsError>)
    ensures (fs', err) == UnzipResult(fs, src, dest)
  {
    var archive := OpenArchive(fs, src);
    if archive.Err? {
      return fs, Some(archive.error);
    }
    var ms := archive.value;
    ghost var asRead := AsRead(ms, dest, src);
    fs' := fs;
    var i := 0;
    while i < |ms|
      invariant 0 <= i <= |ms|
      invariant ExtractAll(fs', asRead[i..], dest) == ExtractAll(fs, asRead, dest)
    {
      assert asRead[i..][0] == MemberAsRead(ms[i], dest, src) && asRead[i..][1..] == asRead[i + 1..];
      var failure;
      fs', failure := ExtractOne(fs', ms[i], dest, src);
      if failure.Some? {
        return fs', failure;
      }
      i := i + 1;
    }
    err := None;
  }

  /** The body of Unzip's loop for one member: a folder is made (its error ignored); for a
      file the parent is made, the target opened (created or truncated), then the member
      read and copied into it. */
  method ExtractOne(fs: Node, m: Member, dest: Path, src: Path) returns (fs': Node, err: Option<FsError>)
    ensures var step := ExtractMember(fs, MemberAsRead(m, dest, src), dest);
      && fs' == step.fs
      && (err.None? <==> step.Next?)
      && (err.Some? ==> err.value == step.error)
  {
    var path := Join(dest, m.name);
    if m.Folder? {
      return TryMkdirAll(fs, path), None;
    }
    fs' := TryMkdirAll(fs, Parent(path));
    var created := Put(fs', path, Raw([]));
    if m.Stored? {
      PutSameOutcome(fs', path, Raw([]), m.blob);
    }
    if created.Err? {
      return fs', Some(created.error);
    }
    if m.Corrupt? || path == src {
      return created.value, Some(CorruptMember);
    }
    fs' := Put(fs', path, m.blob).value;
    err := None;
  }

  // ---------------------------------------------------------------------------
  // What extraction promises

  /** Unzip stops at the first member that fails: what follows it is never touched. */
  lemma {:induction false} ExtractAllStops(fs: Node, ms: seq<Member>, rest: seq<Member>, dest: Path)
    requires ExtractAll(fs, ms, dest).1.Some?
    ensures ExtractAll(fs, ms + rest, dest) == ExtractAll(fs, ms, dest)
    decreases ms
  {
    assert (ms + rest)[0] == ms[0] && (ms + rest)[1..] == ms[1..] + rest;
    match ExtractMember(fs, ms[0], dest)
    case Next(fs') => ExtractAllStops(fs', ms[1..], rest, dest);
    case Stop(_, _) =>
  }

  /** A member whose data cannot be read makes Unzip fail. */
  lemma {:induction false} ExtractAllCorruptFails(fs: Node, ms: seq<Member>, dest: Path, i: nat)
    requires i < |ms| && ms[i].Corrupt?
    ensures ExtractAll(fs, ms, dest).1.Some?
    decreases ms
  {
    if i > 0 {
      match ExtractMember(fs, ms[0], dest)
      case Next(fs') => ExtractAllCorruptFails(fs', ms[1..], dest, i - 1);
      case Stop(_, _) =>
    }
  }

  /** When the first members all extract, the rest start from what they left. */
  lemma {:induction false} ExtractAllThen(fs: Node, ms: seq<Member>, rest: seq<Member>, dest: Path)
    requires ExtractAll(fs, ms, dest).1.None?
    ensures ExtractAll(fs, ms + rest, dest) == ExtractAll(ExtractAll(fs, ms, dest).0, rest, dest)
    decreases ms
  {
    if ms == [] {
      assert ms + rest == rest;
    } else {
      assert (ms + rest)[0] == ms[0] && (ms + rest)[1..] == ms[1..] + rest;
      ExtractAllThen(ExtractMember(fs, ms[0], dest).fs, ms[1..], rest, dest);
    }
  }

  /** An archive with a stored member that is written over the archive itself never
      unpacks without an error. */
  lemma UnzipOverArchiveFails(fs: Node, src: Path, dest: Path, i: nat)
    requires OpenArchive(fs, src).Ok? && i < |OpenArchive(fs, src).value|
    requires OpenArchive(fs, src).value[i].Stored?
    requires Join(dest, OpenArchive(fs, src).value[i].name) == src
    ensures UnzipResult(fs, src, dest).1.Some?
  {
    var ms := OpenArchive(fs, src).value;
    ExtractAllCorruptFails(fs, AsRead(ms, dest, src), dest, i);
  }

  /** When extraction reaches a stored member written over the archive itself, os.OpenFile
      truncates the archive and the member's read fails: Unzip returns that error and
      leaves the archive empty. */
  lemma UnzipEmptiesArchive(fs: Node, src: Path, dest: Path, i: nat)
    requires src != [] && forall k :: 0 <= k < |src| ==> ValidName(src[k])
    requires OpenArchive(fs, src).Ok? && i < |OpenArchive(fs, src).value|
    requires OpenArchive(fs, src).value[i].Stored?
    requires Join(dest, OpenArchive(fs, src).value[i].name) == src
    requires ExtractAll(fs, AsRead(OpenArchive(fs, src).value, dest, src)[..i], dest).1.None?
    ensures UnzipResult(fs, src, dest).1 == Some(CorruptMember)
    ensures Lookup(UnzipResult(fs, src, dest).0, src) == Some(File(Raw([])))
  {
    var ms := OpenArchive(fs, src).value;
    var rs := AsRead(ms, dest, src);
    var before := ExtractAll(fs, rs[..i], dest).0;
    assert rs == rs[..i] + rs[i..];
    ExtractAllThen(fs, rs[..i], rs[i..], dest);
    ExtractAllKeepsFileAt(fs, rs[..i], dest, src);
    var fs1 := TryMkdirAll(before, Parent(src));
    TryMkdirAllKeepsFile(before, Parent(src), src, Lookup(before, src).value.blob);
    PutOverFile(fs1, src, Raw([]));
    PutHere(fs1, src, Raw([]));
    assert rs[i..][0] == Corrupt(ms[i].name);
    assert ExtractMember(before, rs[i], dest) == Stop(Put(fs1, src, Raw([])).value, CorruptMember);
  }

  /** MkdirAll with its error ignored never takes away a path. */
  lemma TryMkdirAllKeeps(fs: Node, p: Path, q: Path)
    requires Lookup(fs, q).Some?
    ensures Lookup(TryMkdirAll(fs, p), q).Some?
  {
    if MkdirAll(fs, p).Ok? {
      MkdirAllKeeps(fs, p, q);
    }
  }

  /** Extraction only adds: every path that existed still exists, even after a failure. */
  lemma {:induction false} ExtractAllKeeps(fs: Node, ms: seq<Member>, dest: Path, q: Path)
    requires Lookup(fs, q).Some?
    ensures Lookup(ExtractAll(fs, ms, dest).0, q).Some?
    decreases ms
  {
    if ms != [] {
      var m := ms[0];
      var path := Join(dest, m.name);
      if m.Folder? {
        TryMkdirAllKeeps(fs, path, q);
        ExtractAllKeeps(TryMkdirAll(fs, path), ms[1..], dest, q);
      } else {
        var fs1 := TryMkdirAll(fs, Parent(path));
        TryMkdirAllKeeps(fs, Parent(path), q);
        var b := if m.Stored? then m.blob else Raw([]);
        if Put(fs1, path, b).Ok? {
          PutKeeps(fs1, path, b, q);
          if m.Stored? {
            ExtractAllKeeps(Put(fs1, path, b).value, ms[1..], dest, q);
          }
        }
      }
    }
  }

  /** MkdirAll with its error ignored leaves a file where it was. */
  lemma TryMkdirAllKeepsFile(fs: Node, p: Path, q: Path, b: Blob)
    requires Lookup(fs, q) == Some(File(b))
    ensures Lookup(TryMkdirAll(fs, p), q) == Some(File(b))
  {
    if MkdirAll(fs, p).Ok? {
      if IsPrefix(q, p) {
        MkdirAllBlocked(fs, p, q, b);
      } else {
        MkdirAllFrame(fs, p, q);
      }
    }
  }

  /** A file survives a successful extraction when no later member is written to its path. */
  lemma {:induction false} ExtractAllKeepsFile(fs: Node, ms: seq<Member>, dest: Path, q: Path, b: Blob)
    requires Lookup(fs, q) == Some(File(b))
    requires ExtractAll(fs, ms, dest).1.None?
    requires forall j :: 0 <= j < |ms| && ms[j].Stored? ==> Join(dest, ms[j].name) != q
    ensures Lookup(ExtractAll(fs, ms, dest).0, q) == Some(File(b))
    decreases ms
  {
    if ms != [] {
      var m := ms[0];
      var path := Join(dest, m.name);
      if m.Folder? {
        TryMkdirAllKeepsFile(fs, path, q, b);
        ExtractAllKeepsFile(TryMkdirAll(fs, path), ms[1..], dest, q, b);
      } else if m.Stored? {
        var fs1 := TryMkdirAll(fs, Parent(path));
        TryMkdirAllKeepsFile(fs, Parent(path), q, b);
        if Put(fs1, path, m.blob).Ok? {
          if IsPrefix(q, path) {
            PutBlocked(fs1, path, q, b, m.blob);
          } else {
            PutFrame(fs1, path, m.blob, q);
          }
          ExtractAllKeepsFile(Put(fs1, path, m.blob).value, ms[1..], dest, q, b);
        }
      }
    }
  }

  /** After a successful Unzip every member file holds its data, unless a later member
      was written to the same path (the last one wins). */
  lemma {:induction false} ExtractAllWrites(fs: Node, ms: seq<Member>, dest: Path, i: nat)
    requires i < |ms| && ms[i].Stored?
    requires ExtractAll(fs, ms, dest).1.None?
    requires forall j :: i < j < |ms| && ms[j].Stored? ==> Join(dest, ms[j].name) != Join(dest, ms[i].name)
    ensures Lookup(ExtractAll(fs, ms, dest).0, Join(dest, ms[i].name)) == Some(File(ms[i].blob))
    decreases ms
  {
    var m := ms[0];
    var path := Join(dest, m.name);
    match ExtractMember(fs, m, dest)
    case Next(fs') =>
      if i == 0 {
        var fs1 := TryMkdirAll(fs, Parent(path));
        PutHere(fs1, path, m.blob);
        ExtractAllKeepsFile(fs', ms[1..], dest, path, m.blob);
      } else {
        ExtractAllWrites(fs', ms[1..], dest, i - 1);
      }
    case Stop(_, _) =>
  }

  /** Extraction never turns a file into a directory: a member written over a file
      replaces its content, and no directory can be made where a file is. */
  lemma {:induction false} ExtractAllKeepsFileAt(fs: Node, ms: seq<Member>, dest: Path, q: Path)
    requires FileAt(fs, q)
    ensures FileAt(ExtractAll(fs, ms, dest).0, q)
    decreases ms
  {
    if ms != [] {
      var m := ms[0];
      var path := Join(dest, m.name);
      if m.Folder? {
        TryMkdirAllKeepsFile(fs, path, q, Lookup(fs, q).value.blob);
        ExtractAllKeepsFileAt(TryMkdirAll(fs, path), ms[1..], dest, q);
      } else {
        var fs1 := TryMkdirAll(fs, Parent(path));
        TryMkdirAllKeepsFile(fs, Parent(path), q, Lookup(fs, q).value.blob);
        var b := if m.Stored? then m.blob else Raw([]);
        if Put(fs1, path, b).Ok? {
          PutKeepsFileAt(fs1, path, b, q);
          if m.Stored? {
            ExtractAllKeepsFileAt(Put(fs1, path, b).value, ms[1..], dest, q);
          }
        }
      }
    }
  }

  lemma TryMkdirAllNoSealed(fs: Node, p: Path)
    requires !HasSealedDir(fs)
    ensures !HasSealedDir(TryMkdirAll(fs, p))
  {
    if MkdirAll(fs, p).Ok? {
      MkdirAllNoSealed(fs, p);
    }
  }

  /** Extraction creates no unlistable directory. */
  lemma {:induction false} ExtractAllNoSealed(fs: Node, ms: seq<Member>, dest: Path)
    requires !HasSealedDir(fs)
    ensures !HasSealedDir(ExtractAll(fs, ms, dest).0)
    decreases ms
  {
    if ms != [] {
      var m := ms[0];
      var path := Join(dest, m.name);
      if m.Folder? {
        TryMkdirAllNoSealed(fs, path);
        ExtractAllNoSealed(TryMkdirAll(fs, path), ms[1..], dest);
      } else {
        var fs1 := TryMkdirAll(fs, Parent(path));
        TryMkdirAllNoSealed(fs, Parent(path));
        var b := if m.Stored? then m.blob else Raw([]);
        if Put(fs1, path, b).Ok? {
          PutNoSealed(fs1, path, b);
          if m.Stored? {
            ExtractAllNoSealed(Put(fs1, path, b).value, ms[1..], dest);
          }
        }
      }
    }
  }
}
