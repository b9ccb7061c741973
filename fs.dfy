/** The filesystem the converter works on, as a value.

    The whole working directory is one `Node`; a directory lists its entries in the
    order Go's os.ReadDir and filepath.Walk report them (sorted by name), and every
    operation that adds an entry keeps that order. Paths are sequences of names
    relative to the working directory. */
module Fs {
  import opened Base
  import GoStrings
  import Ordering

  type Name = string
  type Path = seq<Name>

  /** A file's content: opaque bytes or, for a zip archive, its members
      (the byte format of zip is not modelled). */
  datatype Blob = Raw(bytes: seq<bv8>) | Zip(members: seq<Member>)

  /** One entry of a zip archive, named by its slash-separated path inside the archive. */
  datatype Member =
    | Folder(name: string)
    | Stored(name: string, blob: Blob)
    /** a file entry whose data cannot be read back (zip.File.Open or the copy fails) */
    | Corrupt(name: string)

  /** `Sealed` is an entry the process has no access to: opening the file, listing
      the directory or creating anything inside it fails. */
  datatype Node = File(blob: Blob) | Dir(children: seq<Entry>) | Sealed(isDir: bool)

  datatype Entry = Entry(name: Name, node: Node)

  datatype FsError =
    | NotExist
    | NotADirectory
    | IsADirectory
    | PermissionDenied
    | DirectoryNotEmpty
    /** the path climbs above the working directory, which the model does not hold */
    | OutsideRoot
    /** zip.OpenReader on a file that is not a zip archive */
    | NotAnArchive
    /** zip.File.Open or io.Copy failed on an archive member */
    | CorruptMember

  /** os.FileInfo.IsDir */
  predicate IsDirNode(n: Node) {
    n.Dir? || (n.Sealed? && n.isDir)
  }

  /** filepath.Base of a cleaned relative path. */
  function BaseName(p: Path): Name {
    if p == [] then "." else p[|p| - 1]
  }

  /** The text of a cleaned relative path, as filepath.Join prints it. */
  function PathString(p: Path): string {
    if p == [] then "." else GoStrings.Join(p, "/")
  }

  /** Whether `q` is `p` or one of its ancestors. */
  predicate IsPrefix(q: Path, p: Path) {
    |q| <= |p| && p[..|q|] == q
  }

  /** The lexical cleaning filepath.Join applies: empty and "." elements vanish and ".."
      removes the element before it (or stays, at the start of a relative path). */
  function Clean(acc: Path, parts: seq<string>): Path
    decreases parts
  {
    if parts == [] then acc
    else if parts[0] == "" || parts[0] == "." then Clean(acc, parts[1..])
    else if parts[0] == ".." then
      Clean(if acc != [] && acc[|acc| - 1] != ".." then acc[..|acc| - 1] else acc + [".."], parts[1..])
    else Clean(acc + [parts[0]], parts[1..])
  }

  /** filepath.Join(base, s) for a cleaned relative `base`. */
  function Join(base: Path, s: string): Path {
    Clean(base, GoStrings.Split(s, '/'))
  }

  /** A name a directory can list: not empty, not "." or "..", no separator. */
  predicate ValidName(s: string) {
    s != "" && s != "." && s != ".." && '/' !in s
  }

  /** Joining a single valid name appends it. */
  lemma JoinName(base: Path, name: Name)
    requires ValidName(name)
    ensures Join(base, name) == base + [name]
  {
    GoStrings.SplitNoSeparator(name, '/');
    assert Clean(base, [name]) == Clean(base + [name], []);
  }

  /** The node of the first entry called `name`. */
  function Child(cs: seq<Entry>, name: Name): (r: Option<Node>)
    ensures r.Some? <==> exists i :: 0 <= i < |cs| && cs[i].name == name
  {
    if cs == [] then None
    else if cs[0].name == name then Some(cs[0].node)
    else Child(cs[1..], name)
  }

  /** Inserts `e` before the first entry whose name sorts after it. */
  function InsertSorted(cs: seq<Entry>, e: Entry): (r: seq<Entry>)
    ensures |r| == |cs| + 1
  {
    if cs == [] || Ordering.Below(e.name, cs[0].name) then [e] + cs
    else [cs[0]] + InsertSorted(cs[1..], e)
  }

  /** Replaces the first entry called e.name by `e`. */
  function Replace(cs: seq<Entry>, e: Entry): (r: seq<Entry>)
    ensures |r| == |cs|
  {
    if cs == [] then []
    else if cs[0].name == e.name then [e] + cs[1..]
    else [cs[0]] + Replace(cs[1..], e)
  }

  /** Sets the entry called e.name to `e`: replaced when present, else inserted in name order. */
  function Upsert(cs: seq<Entry>, e: Entry): seq<Entry> {
    if Child(cs, e.name).Some? then Replace(cs, e) else InsertSorted(cs, e)
  }

  /** Drops every entry called `name`. */
  function Without(cs: seq<Entry>, name: Name): seq<Entry> {
    if cs == [] then []
    else if cs[0].name == name then Without(cs[1..], name)
    else [cs[0]] + Without(cs[1..], name)
  }

  lemma {:induction false} ChildInsertSorted(cs: seq<Entry>, e: Entry, x: Name)
    requires Child(cs, e.name).None?
    ensures Child(InsertSorted(cs, e), x) == if x == e.name then Some(e.node) else Child(cs, x)
  {
    if cs != [] && !Ordering.Below(e.name, cs[0].name) {
      ChildInsertSorted(cs[1..], e, x);
    }
  }

  lemma {:induction false} ChildReplace(cs: seq<Entry>, e: Entry, x: Name)
    requires Child(cs, e.name).Some?
    ensures Child(Replace(cs, e), x) == if x == e.name then Some(e.node) else Child(cs, x)
  {
    if cs != [] && cs[0].name != e.name {
      ChildReplace(cs[1..], e, x);
    }
  }

  /** After Upsert the entry called e.name is `e`; every other name reads as before. */
  lemma ChildUpsert(cs: seq<Entry>, e: Entry, x: Name)
    ensures Child(Upsert(cs, e), x) == if x == e.name then Some(e.node) else Child(cs, x)
  {
    if Child(cs, e.name).Some? {
      ChildReplace(cs, e, x);
    } else {
      ChildInsertSorted(cs, e, x);
    }
  }

  /** After Without no entry is called `name`; every other name reads as before. */
  lemma {:induction false} ChildWithout(cs: seq<Entry>, name: Name, x: Name)
    ensures Child(Without(cs, name), x) == if x == name then None else Child(cs, x)
  {
    if cs != [] {
      ChildWithout(cs[1..], name, x);
    }
  }

  /** os.Lstat: the node at `p`, if it can be reached. */
  function Lookup(n: Node, p: Path): Option<Node>
    decreases p
  {
    if p == [] then Some(n)
    else match n
      case Dir(cs) =>
        (match Child(cs, p[0])
         case None => None
         case Some(c) => Lookup(c, p[1..]))
      case _ => None
  }

  /** os.ReadDir: the entries of the directory at `p`, in name order. */
  function ReadDir(root: Node, p: Path): Result<seq<Entry>, FsError> {
    match Lookup(root, p)
    case None => Err(NotExist)
    case Some(Dir(cs)) => Ok(cs)
    case Some(Sealed(isDir)) => Err(if isDir then PermissionDenied else NotADirectory)
    case Some(File(_)) => Err(NotADirectory)
  }

  /** os.MkdirAll: makes `p` and every missing ancestor a directory. */
  function MkdirAll(n: Node, p: Path): Result<Node, FsError>
    decreases p
  {
    if p == [] then (if IsDirNode(n) then Ok(n) else Err(NotADirectory))
    else match n
      case Dir(cs) =>
        if p[0] == ".." then Err(OutsideRoot)
        else
          var c := match Child(cs, p[0]) case Some(c) => c case None => Dir([]);
          (match MkdirAll(c, p[1..])
           case Ok(c') => Ok(Dir(Upsert(cs, Entry(p[0], c'))))
           case Err(e) => Err(e))
      case File(_) => Err(NotADirectory)
      case Sealed(isDir) => Err(if isDir then PermissionDenied else NotADirectory)
  }

  /** os.OpenFile(p, O_WRONLY|O_CREATE|O_TRUNC) followed by writing `b` (also os.WriteFile
      and os.Create): the parent must be a directory, and `p` must not be one. */
  function Put(n: Node, p: Path, b: Blob): Result<Node, FsError>
    decreases p
  {
    if p == [] then Err(IsADirectory)
    else match n
      case Dir(cs) =>
        if p[0] == ".." then Err(OutsideRoot)
        else if |p| == 1 then
          (match Child(cs, p[0])
           case None => Ok(Dir(Upsert(cs, Entry(p[0], File(b)))))
           case Some(File(_)) => Ok(Dir(Upsert(cs, Entry(p[0], File(b)))))
           case Some(Dir(_)) => Err(IsADirectory)
           case Some(Sealed(isDir)) => Err(if isDir then IsADirectory else PermissionDenied))
        else
          (match Child(cs, p[0])
           case None => Err(NotExist)
           case Some(c) =>
             (match Put(c, p[1..], b)
              case Ok(c') => Ok(Dir(Upsert(cs, Entry(p[0], c'))))
              case Err(e) => Err(e)))
      case File(_) => Err(NotADirectory)
      case Sealed(isDir) => Err(if isDir then PermissionDenied else NotADirectory)
  }

  /** os.Remove: deletes a file or an empty directory. */
  function Remove(n: Node, p: Path): Result<Node, FsError>
    decreases p
  {
    if p == [] then Err(PermissionDenied)
    else match n
      case Dir(cs) =>
        (match Child(cs, p[0])
         case None => Err(NotExist)
         case Some(c) =>
           if |p| == 1 then
             (match c
              case Dir(gs) => if gs == [] then Ok(Dir(Without(cs, p[0]))) else Err(DirectoryNotEmpty)
              case Sealed(isDir) => if isDir then Err(DirectoryNotEmpty) else Ok(Dir(Without(cs, p[0])))
              case File(_) => Ok(Dir(Without(cs, p[0]))))
           else
             (match Remove(c, p[1..])
              case Ok(c') => Ok(Dir(Upsert(cs, Entry(p[0], c'))))
              case Err(e) => Err(e)))
      case File(_) => Err(NotADirectory)
      case Sealed(isDir) => Err(if isDir then PermissionDenied else NotADirectory)
  }

  /** What os.RemoveAll leaves of a subtree: nothing, unless it holds a directory that
      cannot be listed, which stays together with its ancestors. */
  function Prune(n: Node): Option<Node> {
    match n
    case File(_) => None
    case Sealed(isDir) => if isDir then Some(n) else None
    case Dir(cs) => var rest := PruneAll(cs); if rest == [] then None else Some(Dir(rest))
  }

  function PruneAll(cs: seq<Entry>): seq<Entry> {
    if cs == [] then []
    else match Prune(cs[0].node)
      case None => PruneAll(cs[1..])
      case Some(m) => [Entry(cs[0].name, m)] + PruneAll(cs[1..])
  }

  /** os.RemoveAll: deletes `p` and everything below it. Go refuses to remove the working
      directory itself ("."), and a missing path is not an error. */
  function RemoveAll(n: Node, p: Path): Node
    decreases p
  {
    if p == [] then n
    else match n
      case Dir(cs) =>
        (match Child(cs, p[0])
         case None => n
         case Some(c) =>
           if |p| == 1 then
             (match Prune(c)
              case None => Dir(Without(cs, p[0]))
              case Some(c') => Dir(Upsert(cs, Entry(p[0], c'))))
           else Dir(Upsert(cs, Entry(p[0], RemoveAll(c, p[1..])))))
      case _ => n
  }

  /** One call of filepath.Walk's callback: the path and what Lstat found there (None when
      Lstat failed). */
  datatype Visit = Visit(path: Path, node: Option<Node>) {
    /** The callback receives a non-nil error: Lstat failed or the directory cannot be listed. */
    predicate Failed() {
      node.None? || node.value == Sealed(true)
    }

    /** The callback's info.IsDir(). */
    predicate IsDir() {
      node.Some? && IsDirNode(node.value)
    }
  }

  /** The calls filepath.Walk makes below `n` (found at `p`) when its callback never
      stops it: pre-order, entries in listing order, an unlistable directory visited
      once with an error and not entered. */
  function Walk(n: Node, p: Path): seq<Visit> {
    match n
    case Dir(cs) => [Visit(p, Some(n))] + WalkAll(cs, p)
    case _ => [Visit(p, Some(n))]
  }

  function WalkAll(cs: seq<Entry>, p: Path): seq<Visit> {
    if cs == [] then [] else Walk(cs[0].node, p + [cs[0].name]) + WalkAll(cs[1..], p)
  }

  /** filepath.Walk(root, fn) on the working directory `fs`. */
  function WalkFrom(fs: Node, root: Path): (vs: seq<Visit>)
    ensures |vs| >= 1 && vs[0].path == root
  {
    match Lookup(fs, root)
    case None => [Visit(root, None)]
    case Some(n) => Walk(n, root)
  }

  // ---------------------------------------------------------------------------
  // What the mutating operations change and what they leave alone.

  /** Put leaves the written file at `p`. */
  lemma {:induction false} PutHere(n: Node, p: Path, b: Blob)
    requires Put(n, p, b).Ok?
    ensures Lookup(Put(n, p, b).value, p) == Some(File(b))
    decreases p
  {
    var cs := n.children;
    if |p| == 1 {
      ChildUpsert(cs, Entry(p[0], File(b)), p[0]);
    } else {
      var c := Child(cs, p[0]).value;
      PutHere(c, p[1..], b);
      ChildUpsert(cs, Entry(p[0], Put(c, p[1..], b).value), p[0]);
    }
  }

  /** Put changes nothing outside `p` and its ancestors. */
  lemma {:induction false} PutFrame(n: Node, p: Path, b: Blob, q: Path)
    requires Put(n, p, b).Ok?
    requires !IsPrefix(q, p)
    ensures Lookup(Put(n, p, b).value, q) == Lookup(n, q)
    decreases p
  {
    var cs := n.children;
    if |p| == 1 {
      ChildUpsert(cs, Entry(p[0], File(b)), q[0]);
    } else {
      var c := Child(cs, p[0]).value;
      ChildUpsert(cs, Entry(p[0], Put(c, p[1..], b).value), q[0]);
      if q[0] == p[0] {
        PutFrame(c, p[1..], b, q[1..]);
      }
    }
  }

  /** Whether Put succeeds does not depend on what is written. */
  lemma {:induction false} PutSameOutcome(n: Node, p: Path, b: Blob, b': Blob)
    ensures Put(n, p, b).Ok? == Put(n, p, b').Ok?
    ensures Put(n, p, b).Err? ==> Put(n, p, b) == Put(n, p, b')
    decreases p
  {
    if p != [] && n.Dir? && p[0] != ".." && |p| > 1 {
      match Child(n.children, p[0])
      case None =>
      case Some(c) => PutSameOutcome(c, p[1..], b, b');
    }
  }

  /** Put never takes away a path that was there. */
  lemma {:induction false} PutKeeps(n: Node, p: Path, b: Blob, q: Path)
    requires Put(n, p, b).Ok?
    requires Lookup(n, q).Some?
    ensures Lookup(Put(n, p, b).value, q).Some?
    decreases p
  {
    if !IsPrefix(q, p) {
      PutFrame(n, p, b, q);
    } else if q != [] {
      var cs := n.children;
      if |p| == 1 {
        ChildUpsert(cs, Entry(p[0], File(b)), p[0]);
      } else {
        var c := Child(cs, p[0]).value;
        ChildUpsert(cs, Entry(p[0], Put(c, p[1..], b).value), p[0]);
        PutKeeps(c, p[1..], b, q[1..]);
      }
    }
  }

  /** MkdirAll leaves a directory at `p`. */
  lemma {:induction false} MkdirAllHere(n: Node, p: Path)
    requires MkdirAll(n, p).Ok?
    ensures Lookup(MkdirAll(n, p).value, p).Some?
    ensures IsDirNode(Lookup(MkdirAll(n, p).value, p).value)
    decreases p
  {
    if p != [] {
      var cs := n.children;
      var c := match Child(cs, p[0]) case Some(c) => c case None => Dir([]);
      MkdirAllHere(c, p[1..]);
      ChildUpsert(cs, Entry(p[0], MkdirAll(c, p[1..]).value), p[0]);
    }
  }

  /** MkdirAll changes nothing outside `p` and its ancestors. */
  lemma {:induction false} MkdirAllFrame(n: Node, p: Path, q: Path)
    requires MkdirAll(n, p).Ok?
    requires !IsPrefix(q, p)
    ensures Lookup(MkdirAll(n, p).value, q) == Lookup(n, q)
    decreases p
  {
    if p != [] {
      var cs := n.children;
      var c := match Child(cs, p[0]) case Some(c) => c case None => Dir([]);
      ChildUpsert(cs, Entry(p[0], MkdirAll(c, p[1..]).value), q[0]);
      if q[0] == p[0] {
        if Child(cs, p[0]).Some? {
          MkdirAllFrame(c, p[1..], q[1..]);
        } else {
          MkdirAllFresh(p[1..], q[1..]);
        }
      }
    }
  }

  /** Inside a directory MkdirAll creates, only the new chain exists. */
  lemma {:induction false} MkdirAllFresh(p: Path, q: Path)
    requires MkdirAll(Dir([]), p).Ok?
    requires !IsPrefix(q, p)
    ensures Lookup(MkdirAll(Dir([]), p).value, q) == None
    decreases p
  {
    if p != [] {
      var c' := MkdirAll(Dir([]), p[1..]).value;
      ChildUpsert([], Entry(p[0], c'), q[0]);
      if q[0] == p[0] {
        MkdirAllFresh(p[1..], q[1..]);
      }
    }
  }

  /** MkdirAll never takes away a path that was there. */
  lemma {:induction false} MkdirAllKeeps(n: Node, p: Path, q: Path)
    requires MkdirAll(n, p).Ok?
    requires Lookup(n, q).Some?
    ensures Lookup(MkdirAll(n, p).value, q).Some?
    decreases p
  {
    if !IsPrefix(q, p) {
      MkdirAllFrame(n, p, q);
    } else if q != [] {
      var cs := n.children;
      var c := Child(cs, p[0]).value;
      ChildUpsert(cs, Entry(p[0], MkdirAll(c, p[1..]).value), p[0]);
      MkdirAllKeeps(c, p[1..], q[1..]);
    }
  }

  /** A file in the way: MkdirAll fails on a path at or below a file. */
  lemma {:induction false} MkdirAllBlocked(n: Node, q: Path, p: Path, b: Blob)
    requires Lookup(n, p) == Some(File(b))
    requires IsPrefix(p, q)
    ensures MkdirAll(n, q).Err?
    decreases p
  {
    if p != [] && q[0] != ".." {
      var c := Child(n.children, p[0]).value;
      assert IsPrefix(p[1..], q[1..]);
      MkdirAllBlocked(c, q[1..], p[1..], b);
    }
  }

  /** A file in the way: Put fails on a path strictly below a file. */
  lemma {:induction false} PutBlocked(n: Node, q: Path, p: Path, b: Blob, b': Blob)
    requires Lookup(n, p) == Some(File(b))
    requires IsPrefix(p, q) && p != q
    ensures Put(n, q, b').Err?
    decreases p
  {
    if p != [] && q[0] != ".." {
      var c := Child(n.children, p[0]).value;
      assert IsPrefix(p[1..], q[1..]) && p[1..] != q[1..] by {
        assert p == [p[0]] + p[1..] && q[..|p|] == p;
      }
      PutBlocked(c, q[1..], p[1..], b, b');
    }
  }

  /** The entry Child finds is one of the directory's entries. */
  lemma {:induction false} ChildIndex(cs: seq<Entry>, name: Name)
    requires Child(cs, name).Some?
    ensures exists k :: 0 <= k < |cs| && cs[k] == Entry(name, Child(cs, name).value)
  {
    if cs[0].name != name {
      ChildIndex(cs[1..], name);
      var k :| 0 <= k < |cs[1..]| && cs[1..][k] == Entry(name, Child(cs, name).value);
      assert cs[k + 1] == cs[1..][k];
    }
  }

  /** Looking up a longer path is looking up its tail from where the head leads. */
  lemma {:induction false} LookupAppend(n: Node, p: Path, q: Path)
    ensures Lookup(n, p + q) == match Lookup(n, p) case None => None case Some(m) => Lookup(m, q)
    decreases p
  {
    if p == [] {
      assert p + q == q;
    } else {
      assert (p + q)[0] == p[0] && (p + q)[1..] == p[1..] + q;
      if n.Dir? && Child(n.children, p[0]).Some? {
        LookupAppend(Child(n.children, p[0]).value, p[1..], q);
      }
    }
  }

  /** filepath.Walk reaches everything a lookup reaches below its root. */
  lemma {:induction false} WalkReaches(n: Node, p: Path, q: Path)
    requires Lookup(n, q).Some?
    ensures Visit(p + q, Lookup(n, q)) in Walk(n, p)
    decreases q
  {
    if q == [] {
      assert p + q == p;
      assert Walk(n, p)[0] == Visit(p, Some(n));
    } else {
      var cs := n.children;
      var c := Child(cs, q[0]).value;
      ChildIndex(cs, q[0]);
      var k :| 0 <= k < |cs| && cs[k] == Entry(q[0], c);
      WalkReaches(c, p + [q[0]], q[1..]);
      assert p + [q[0]] + q[1..] == p + q;
      WalkAllHolds(cs, p, k);
      assert Walk(n, p) == [Visit(p, Some(n))] + WalkAll(cs, p);
    }
  }

  /** Every visit below one entry is a visit of the directory's walk. */
  lemma {:induction false} WalkAllHolds(cs: seq<Entry>, p: Path, k: nat)
    requires k < |cs|
    ensures forall v :: v in Walk(cs[k].node, p + [cs[k].name]) ==> v in WalkAll(cs, p)
    decreases k
  {
    if k > 0 {
      WalkAllHolds(cs[1..], p, k - 1);
      assert cs[1..][k - 1] == cs[k];
    }
  }

  /** Writing a file leaves every other file where it was. */
  lemma PutKeepsFile(n: Node, p: Path, b: Blob, q: Path, bq: Blob)
    requires Put(n, p, b).Ok?
    requires Lookup(n, q) == Some(File(bq)) && q != p
    ensures Lookup(Put(n, p, b).value, q) == Some(File(bq))
  {
    if IsPrefix(q, p) {
      PutBlocked(n, p, q, bq, b);
    } else {
      PutFrame(n, p, b, q);
    }
  }

  /** filepath.Walk from `root` reaches every path below it that a lookup reaches. */
  lemma WalkFromReaches(fs: Node, root: Path, q: Path)
    requires Lookup(fs, root + q).Some?
    ensures Visit(root + q, Lookup(fs, root + q)) in WalkFrom(fs, root)
  {
    LookupAppend(fs, root, q);
    WalkReaches(Lookup(fs, root).value, root, q);
  }

  /** os.Remove deletes a file. */
  lemma {:induction false} RemoveFileGone(n: Node, p: Path, b: Blob)
    requires Lookup(n, p) == Some(File(b))
    ensures p != [] ==> Remove(n, p).Ok? && Lookup(Remove(n, p).value, p) == None
    decreases p
  {
    if p != [] {
      var cs := n.children;
      var c := Child(cs, p[0]).value;
      if |p| == 1 {
        assert Lookup(c, p[1..]) == Some(c);
        ChildWithout(cs, p[0], p[0]);
      } else {
        RemoveFileGone(c, p[1..], b);
        ChildUpsert(cs, Entry(p[0], Remove(c, p[1..]).value), p[0]);
      }
    }
  }

  /** os.Remove changes nothing outside `p` and its ancestors. */
  lemma {:induction false} RemoveFrame(n: Node, p: Path, q: Path)
    requires Remove(n, p).Ok?
    requires !IsPrefix(p, q) && !IsPrefix(q, p)
    ensures Lookup(Remove(n, p).value, q) == Lookup(n, q)
    decreases p
  {
    var cs := n.children;
    var c := Child(cs, p[0]).value;
    if |p| == 1 {
      ChildWithout(cs, p[0], q[0]);
    } else {
      ChildUpsert(cs, Entry(p[0], Remove(c, p[1..]).value), q[0]);
      if q[0] == p[0] {
        RemoveFrame(c, p[1..], q[1..]);
      }
    }
  }

  /** Whether the subtree holds a directory that cannot be listed. */
  predicate HasSealedDir(n: Node) {
    match n
    case File(_) => false
    case Sealed(isDir) => isDir
    case Dir(cs) => exists i :: 0 <= i < |cs| && HasSealedDir(cs[i].node)
  }

  /** Without unlistable directories, RemoveAll leaves nothing of a subtree. */
  lemma {:induction false} PruneAllGone(n: Node)
    requires !HasSealedDir(n)
    ensures Prune(n) == None
  {
    match n
    case File(_) =>
    case Sealed(_) =>
    case Dir(cs) => PruneAllListGone(cs);
  }

  lemma {:induction false} PruneAllListGone(cs: seq<Entry>)
    requires forall i :: 0 <= i < |cs| ==> !HasSealedDir(cs[i].node)
    ensures PruneAll(cs) == []
  {
    if cs != [] {
      PruneAllGone(cs[0].node);
      PruneAllListGone(cs[1..]);
    }
  }

  /** RemoveAll deletes `p` unless an unlistable directory is below it. */
  lemma {:induction false} RemoveAllGone(n: Node, p: Path)
    requires p != []
    requires Lookup(n, p).Some? ==> !HasSealedDir(Lookup(n, p).value)
    ensures Lookup(RemoveAll(n, p), p) == None
    decreases p
  {
    if n.Dir? {
      var cs := n.children;
      match Child(cs, p[0])
      case None =>
      case Some(c) =>
        if |p| == 1 {
          assert Lookup(n, p) == Lookup(c, p[1..]) == Some(c);
          PruneAllGone(c);
          ChildWithout(cs, p[0], p[0]);
        } else {
          ChildUpsert(cs, Entry(p[0], RemoveAll(c, p[1..])), p[0]);
          RemoveAllGone(c, p[1..]);
        }
    }
  }

  /** RemoveAll changes nothing outside `p` and its ancestors. */
  lemma {:induction false} RemoveAllFrame(n: Node, p: Path, q: Path)
    requires !IsPrefix(p, q) && !IsPrefix(q, p)
    ensures Lookup(RemoveAll(n, p), q) == Lookup(n, q)
    decreases p
  {
    if n.Dir? {
      var cs := n.children;
      match Child(cs, p[0])
      case None =>
      case Some(c) =>
        if |p| == 1 {
          match Prune(c)
          case None => ChildWithout(cs, p[0], q[0]);
          case Some(c') => ChildUpsert(cs, Entry(p[0], c'), q[0]);
        } else {
          ChildUpsert(cs, Entry(p[0], RemoveAll(c, p[1..])), q[0]);
          if q[0] == p[0] {
            RemoveAllFrame(c, p[1..], q[1..]);
          }
        }
    }
  }

  /** Whether a file, not a directory, is found at `p`. */
  predicate FileAt(n: Node, p: Path) {
    Lookup(n, p).Some? && Lookup(n, p).value.File?
  }

  /** Writing over an existing file succeeds: os.OpenFile with O_TRUNC reopens it. */
  lemma {:induction false} PutOverFile(n: Node, p: Path, b: Blob)
    requires p != [] && forall k :: 0 <= k < |p| ==> ValidName(p[k])
    requires FileAt(n, p)
    ensures Put(n, p, b).Ok?
    decreases p
  {
    assert n.Dir? && p[0] != ".." && Child(n.children, p[0]).Some?;
    var c := Child(n.children, p[0]).value;
    if |p| > 1 {
      assert Lookup(c, p[1..]) == Lookup(n, p);
      PutOverFile(c, p[1..], b);
    } else {
      assert Lookup(c, p[1..]) == Lookup(n, p);
    }
  }

  /** Writing a file never turns a file into anything else. */
  lemma PutKeepsFileAt(n: Node, p: Path, b: Blob, q: Path)
    requires Put(n, p, b).Ok? && FileAt(n, q)
    ensures FileAt(Put(n, p, b).value, q)
  {
    if q == p {
      PutHere(n, p, b);
    } else {
      PutKeepsFile(n, p, b, q, Lookup(n, q).value.blob);
    }
  }

  lemma {:induction false} InsertSortedFrom(cs: seq<Entry>, e: Entry)
    ensures forall x :: x in InsertSorted(cs, e) ==> x == e || x in cs
  {
    if cs != [] && !Ordering.Below(e.name, cs[0].name) {
      InsertSortedFrom(cs[1..], e);
    }
  }

  lemma {:induction false} ReplaceFrom(cs: seq<Entry>, e: Entry)
    ensures forall x :: x in Replace(cs, e) ==> x == e || x in cs
  {
    if cs != [] && cs[0].name != e.name {
      ReplaceFrom(cs[1..], e);
    }
  }

  /** Setting an entry introduces no node other than the new one. */
  lemma UpsertNoSealed(cs: seq<Entry>, e: Entry)
    requires !HasSealedDir(Dir(cs)) && !HasSealedDir(e.node)
    ensures !HasSealedDir(Dir(Upsert(cs, e)))
  {
    InsertSortedFrom(cs, e);
    ReplaceFrom(cs, e);
    var us := Upsert(cs, e);
    forall i | 0 <= i < |us|
      ensures !HasSealedDir(us[i].node)
    {
      assert us[i] in us;
      if us[i] != e {
        var j :| 0 <= j < |cs| && cs[j] == us[i];
      }
    }
  }

  lemma ChildNoSealed(cs: seq<Entry>, name: Name)
    requires !HasSealedDir(Dir(cs)) && Child(cs, name).Some?
    ensures !HasSealedDir(Child(cs, name).value)
  {
    ChildIndex(cs, name);
  }

  /** Writing a file creates no unlistable directory. */
  lemma {:induction false} PutNoSealed(n: Node, p: Path, b: Blob)
    requires Put(n, p, b).Ok? && !HasSealedDir(n)
    ensures !HasSealedDir(Put(n, p, b).value)
    decreases p
  {
    var cs := n.children;
    if |p| == 1 {
      UpsertNoSealed(cs, Entry(p[0], File(b)));
    } else {
      var c := Child(cs, p[0]).value;
      ChildNoSealed(cs, p[0]);
      PutNoSealed(c, p[1..], b);
      UpsertNoSealed(cs, Entry(p[0], Put(c, p[1..], b).value));
    }
  }

  /** Making directories creates no unlistable directory. */
  lemma {:induction false} MkdirAllNoSealed(n: Node, p: Path)
    requires MkdirAll(n, p).Ok? && !HasSealedDir(n)
    ensures !HasSealedDir(MkdirAll(n, p).value)
    decreases p
  {
    if p != [] {
      var cs := n.children;
      var c := match Child(cs, p[0]) case Some(c) => c case None => Dir([]);
      if Child(cs, p[0]).Some? {
        ChildNoSealed(cs, p[0]);
      }
      MkdirAllNoSealed(c, p[1..]);
      UpsertNoSealed(cs, Entry(p[0], MkdirAll(c, p[1..]).value));
    }
  }

  /** A tree without unlistable directories has none in any of its subtrees. */
  lemma {:induction false} LookupNoSealed(n: Node, p: Path)
    requires !HasSealedDir(n) && Lookup(n, p).Some?
    ensures !HasSealedDir(Lookup(n, p).value)
    decreases p
  {
    if p != [] {
      ChildNoSealed(n.children, p[0]);
      LookupNoSealed(Child(n.children, p[0]).value, p[1..]);
    }
  }
}
