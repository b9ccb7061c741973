/** cmd/main.go: the watcher that turns filesystem events on input/ into conversions.

    Time is in milliseconds and passed in: the moment an event arrives or a timer fires
    is a parameter, and what waitStable observes while it polls is a sequence of polls,
    each the time of the loop check and the result of the stat made after it. */
module Watcher {
  import opened Base
  import opened Fs
  import GoStrings
  import Shikimori
  import Convert

  /** How long a file's size must stay unchanged before it is processed. */
  const StableWindow: int := 2000
  /** The pause between two polls of the size. */
  const CheckInterval: int := 300

  // ---------------------------------------------------------------------------
  // Events

  /** fsnotify.Op: a set of bits, one per kind of change. */
  type Op = bv32

  const OpCreate: Op := 1
  const OpWrite: Op := 2
  const OpRemove: Op := 4
  const OpRename: Op := 8
  const OpChmod: Op := 16

  /** The event loop schedules an event when it is a creation, a write, a rename or a
      change of mode, alone or together with other kinds. */
  predicate Relevant(op: Op) {
    op & (OpCreate | OpWrite | OpRename | OpChmod) != 0
  }

  /** An event is scheduled exactly when it carries one of the four kinds; a removal
      alone is ignored. */
  lemma RelevantKinds(op: Op)
    ensures Relevant(op) <==>
      op & OpCreate != 0 || op & OpWrite != 0 || op & OpRename != 0 || op & OpChmod != 0
    ensures !Relevant(OpRemove) && Relevant(OpRemove | OpWrite)
  {
  }

  // ---------------------------------------------------------------------------
  // Paths

  /** The path without its trailing separators. */
  function TrimTrailingSlashes(s: string): (t: string)
    ensures |t| <= |s| && t == s[..|t|]
    ensures t == [] || t[|t| - 1] != '/'
    ensures forall i :: |t| <= i < |s| ==> s[i] == '/'
  {
    if s != [] && s[|s| - 1] == '/' then TrimTrailingSlashes(s[..|s| - 1]) else s
  }

  /** filepath.Base: the last element of the path, "." for an empty path and "/" for a
      path of separators only. */
  function PathBase(path: string): string {
    if path == "" then "."
    else
      var t := TrimTrailingSlashes(path);
      if t == "" then "/" else t[GoStrings.LastIndex(t, '/') + 1..]
  }

  /** The base is never empty, and it is one element: it holds no separator unless it
      is the root itself. */
  lemma PathBaseIsElement(path: string)
    ensures PathBase(path) != ""
    ensures PathBase(path) == "/" || '/' !in PathBase(path)
  {
    var t := TrimTrailingSlashes(path);
    if path != "" && t != "" {
      var k := GoStrings.LastIndex(t, '/');
      var b := t[k + 1..];
      assert t[|t| - 1] != '/';
      assert k < |t| - 1;
      assert forall i :: 0 <= i < |b| ==> b[i] == t[k + 1 + i];
    }
  }

  /** The base of a file name inside a directory is the file name, whatever the directory. */
  lemma PathBaseOfChild(dir: string, name: string)
    requires ValidName(name)
    ensures PathBase(dir + "/" + name) == name
    ensures PathBase(name) == name
  {
    var s := dir + "/" + name;
    assert s[|s| - 1] == name[|name| - 1];
    assert TrimTrailingSlashes(s) == s;
    assert TrimTrailingSlashes(name) == name;
    var k := GoStrings.LastIndex(s, '/');
    assert s[|dir|] == '/';
    assert forall j :: |dir| < j < |s| ==> s[j] == name[j - |dir| - 1] && s[j] != '/';
    assert k == |dir|;
    assert s[k + 1..] == name;
    assert forall j :: 0 <= j < |name| ==> name[j] != '/';
    assert GoStrings.LastIndex(name, '/') == -1;
  }

  // ---------------------------------------------------------------------------
  // Waiting for a file to stop growing

  /** What one stat of the file gives: its size, or an error. */
  datatype Probe = Size(bytes: nat) | Missing

  /** One pass of the polling loop: the time the loop condition read, and the stat result. */
  datatype Poll = Poll(at: int, probe: Probe)

  /** How the wait ends: the size held for a whole window, a stat failed, or the polls
      end while the loop is still waiting. */
  datatype Verdict = Stable | Unstable | Pending

  /** The polling loop from a deadline and the last size seen. */
  function Settle(deadline: int, lastSize: int, window: int, polls: seq<Poll>): Verdict
    decreases |polls|
  {
    if polls == [] then Pending
    else if polls[0].at >= deadline then Stable
    else match polls[0].probe
      case Missing => Unstable
      case Size(size) =>
        if size == lastSize then Settle(deadline, lastSize, window, polls[1..])
        else Settle(polls[0].at + window, size, window, polls[1..])
  }

  /** waitStable started at `start`: the deadline is one window away and no size is known. */
  function WaitVerdict(start: int, window: int, polls: seq<Poll>): Verdict {
    Settle(start + window, -1, window, polls)
  }

  /** waitStable(path, window). */
  method WaitStable(start: int, window: int, polls: seq<Poll>) returns (v: Verdict)
    ensures v == WaitVerdict(start, window, polls)
  {
    var deadline := start + window;
    var lastSize: int := -1;
    var i := 0;
    while i < |polls|
      invariant 0 <= i <= |polls|
      invariant Settle(deadline, lastSize, window, polls[i..]) == WaitVerdict(start, window, polls)
    {
      var poll := polls[i];
      assert polls[i..][0] == poll && polls[i..][1..] == polls[i + 1..];
      if !(poll.at < deadline) {
        return Stable;
      }
      if poll.probe.Missing? {
        return Unstable;
      }
      if poll.probe.bytes != lastSize {
        deadline := poll.at + window;
        lastSize := poll.probe.bytes;
      }
      i := i + 1;
    }
    return Pending;
  }

  /** The size seen before poll `j`: the starting size for the first one. */
  function SizeBefore(lastSize: int, polls: seq<Poll>, j: nat): int
    requires j < |polls|
  {
    if j == 0 then lastSize
    else match polls[j - 1].probe
      case Size(size) => size
      case Missing => -1
  }

  /** Poll `j` saw a size different from the one before it, which moves the deadline. */
  predicate Changed(lastSize: int, polls: seq<Poll>, j: nat)
    requires j < |polls|
  {
    polls[j].probe.Size? && polls[j].probe.bytes != SizeBefore(lastSize, polls, j)
  }

  /** The clock the loop reads never goes back (Go's monotonic clock). */
  predicate Monotone(polls: seq<Poll>) {
    forall i, j :: 0 <= i < j < |polls| ==> polls[i].at <= polls[j].at
  }

  lemma {:induction false} SettleStable(deadline: int, lastSize: int, window: int, polls: seq<Poll>)
    requires Settle(deadline, lastSize, window, polls) == Stable
    requires Monotone(polls)
    requires polls != [] ==> deadline <= polls[0].at + window
    ensures exists k :: (0 <= k < |polls|
      && polls[k].at >= deadline
      && (forall j :: 0 <= j < k ==> polls[j].probe.Size?)
      && (forall j :: 0 <= j < k && Changed(lastSize, polls, j) ==> polls[k].at >= polls[j].at + window))
    decreases |polls|
  {
    if polls[0].at < deadline {
      var size := polls[0].probe.bytes;
      var d' := if size == lastSize then deadline else polls[0].at + window;
      var rest := polls[1..];
      assert Monotone(rest) by {
        forall i, j | 0 <= i < j < |rest|
          ensures rest[i].at <= rest[j].at
        {
          assert rest[i] == polls[i + 1] && rest[j] == polls[j + 1];
        }
      }
      assert rest != [] ==> d' <= rest[0].at + window by {
        if rest != [] {
          assert rest[0] == polls[1];
        }
      }
      SettleStable(d', size, window, rest);
      var k' :| 0 <= k' < |rest|
        && rest[k'].at >= d'
        && (forall j :: 0 <= j < k' ==> rest[j].probe.Size?)
        && (forall j :: 0 <= j < k' && Changed(size, rest, j) ==> rest[k'].at >= rest[j].at + window);
      var k := k' + 1;
      assert polls[k] == rest[k'];
      forall j | 0 <= j < k
        ensures polls[j].probe.Size?
      {
        if j > 0 {
          assert polls[j] == rest[j - 1];
        }
      }
      forall j | 0 <= j < k && Changed(lastSize, polls, j)
        ensures polls[k].at >= polls[j].at + window
      {
        if j > 0 {
          ChangedShift(lastSize, polls, j);
        }
      }
    }
  }

  /** Seen from the second poll on, poll `j` changes the size exactly when it did before. */
  lemma ChangedShift(lastSize: int, polls: seq<Poll>, j: nat)
    requires 0 < j < |polls| && polls[0].probe.Size?
    ensures Changed(lastSize, polls, j) == Changed(polls[0].probe.bytes, polls[1..], j - 1)
  {
    assert polls[j] == polls[1..][j - 1];
    if j > 1 {
      assert polls[j - 1] == polls[1..][j - 2];
    }
  }

  /** waitStable says yes only after a quiet window: some poll `k` came at least one window
      after the start and after every poll that saw the size change, and every stat before
      it succeeded (the first poll always sees a change). */
  lemma StableAfterQuietWindow(start: int, window: int, polls: seq<Poll>)
    requires Monotone(polls)
    requires polls != [] ==> start <= polls[0].at
    requires WaitVerdict(start, window, polls) == Stable
    ensures exists k :: (0 <= k < |polls|
      && polls[k].at >= start + window
      && (forall j :: 0 <= j < k ==> polls[j].probe.Size?)
      && (forall j :: 0 <= j < k && Changed(-1, polls, j) ==> polls[k].at >= polls[j].at + window))
  {
    SettleStable(start + window, -1, window, polls);
  }

  /** A failed stat ends the wait at once, as long as it comes within the first window:
      every earlier stat succeeded and every poll so far fell before the start's deadline. */
  lemma {:induction false} SettleMissing(deadline: int, lastSize: int, window: int, polls: seq<Poll>, lo: int, k: nat)
    requires k < |polls| && polls[k].probe.Missing?
    requires forall j :: 0 <= j < k ==> polls[j].probe.Size?
    requires forall j :: 0 <= j <= k ==> lo <= polls[j].at < lo + window
    requires lo + window <= deadline
    ensures Settle(deadline, lastSize, window, polls) == Unstable
    decreases k
  {
    if k > 0 {
      var size := polls[0].probe.bytes;
      var d' := if size == lastSize then deadline else polls[0].at + window;
      forall j | 0 <= j <= k - 1
        ensures lo <= polls[1..][j].at < lo + window
      {
        assert polls[1..][j] == polls[j + 1];
      }
      SettleMissing(d', size, window, polls[1..], lo, k - 1);
    }
  }

  /** waitStable says no exactly at a failed stat: if it says no, some stat failed and every
      stat before it succeeded; and a failed stat within the first window makes it say no. */
  lemma MissingAborts(start: int, window: int, polls: seq<Poll>, k: nat)
    requires k < |polls| && polls[k].probe.Missing?
    requires forall j :: 0 <= j < k ==> polls[j].probe.Size?
    requires forall j :: 0 <= j <= k ==> start <= polls[j].at < start + window
    ensures WaitVerdict(start, window, polls) == Unstable
  {
    SettleMissing(start + window, -1, window, polls, start, k);
  }

  lemma {:induction false} SettleUnstable(deadline: int, lastSize: int, window: int, polls: seq<Poll>)
    requires Settle(deadline, lastSize, window, polls) == Unstable
    ensures exists k :: (0 <= k < |polls| && polls[k].probe.Missing?
      && forall j :: 0 <= j < k ==> polls[j].probe.Size?)
    decreases |polls|
  {
    if polls[0].at < deadline && polls[0].probe.Size? {
      var size := polls[0].probe.bytes;
      var d' := if size == lastSize then deadline else polls[0].at + window;
      SettleUnstable(d', size, window, polls[1..]);
      var k' :| 0 <= k' < |polls[1..]| && polls[1..][k'].probe.Missing?
        && forall j :: 0 <= j < k' ==> polls[1..][j].probe.Size?;
      assert polls[k' + 1] == polls[1..][k'];
      forall j | 0 < j < k' + 1
        ensures polls[j].probe.Size?
      {
        assert polls[j] == polls[1..][j - 1];
      }
    }
  }

  /** The other half: a "no" always comes from the first failed stat. */
  lemma UnstableMeansMissing(start: int, window: int, polls: seq<Poll>)
    requires WaitVerdict(start, window, polls) == Unstable
    ensures exists k :: (0 <= k < |polls| && polls[k].probe.Missing?
      && forall j :: 0 <= j < k ==> polls[j].probe.Size?)
  {
    SettleUnstable(start + window, -1, window, polls);
  }

  /** While the size stays the same the deadline stays put: the wait ends as Stable exactly
      when some poll reaches the deadline, and never as Unstable. */
  lemma {:induction false} SettleSteady(deadline: int, size: nat, window: int, polls: seq<Poll>)
    requires forall j :: 0 <= j < |polls| ==> polls[j].probe == Size(size)
    ensures Settle(deadline, size, window, polls) == Stable <==>
      exists k :: 0 <= k < |polls| && polls[k].at >= deadline
    ensures Settle(deadline, size, window, polls) != Unstable
    decreases |polls|
  {
    if polls != [] && polls[0].at < deadline {
      SettleSteady(deadline, size, window, polls[1..]);
      if exists k :: 0 <= k < |polls| && polls[k].at >= deadline {
        var k :| 0 <= k < |polls| && polls[k].at >= deadline;
        assert polls[1..][k - 1] == polls[k];
      }
      if exists k :: 0 <= k < |polls[1..]| && polls[1..][k].at >= deadline {
        var k :| 0 <= k < |polls[1..]| && polls[1..][k].at >= deadline;
        assert polls[k + 1] == polls[1..][k];
      }
    }
  }

  /** A file of steady size polled every CheckInterval from the start: the wait ends as
      Stable once there have been eight polls (the eighth comes 2100 ms in, past the
      2000 ms window), and is still going on before that. */
  lemma SteadyFileAccepted(start: int, size: nat, n: nat)
    ensures var polls := seq(n, j requires 0 <= j < n => Poll(start + j * CheckInterval, Size(size)));
      WaitVerdict(start, StableWindow, polls) == if n >= 8 then Stable else Pending
  {
    var polls := seq(n, j requires 0 <= j < n => Poll(start + j * CheckInterval, Size(size)));
    if n > 0 {
      var deadline := start + StableWindow;
      var rest := polls[1..];
      assert Settle(deadline, -1, StableWindow, polls) == Settle(deadline, size, StableWindow, rest);
      SettleSteady(deadline, size, StableWindow, rest);
      if n >= 8 {
        assert rest[6].at >= deadline;
      } else {
        forall k | 0 <= k < |rest|
          ensures rest[k].at < deadline
        {
          assert rest[k].at == start + (k + 1) * CheckInterval;
        }
        SettleSteadyPending(deadline, size, StableWindow, rest);
      }
    }
  }

  lemma {:induction false} SettleSteadyPending(deadline: int, size: nat, window: int, polls: seq<Poll>)
    requires forall j :: 0 <= j < |polls| ==> polls[j].probe == Size(size) && polls[j].at < deadline
    ensures Settle(deadline, size, window, polls) == Pending
    decreases |polls|
  {
    if polls != [] {
      SettleSteadyPending(deadline, size, window, polls[1..]);
    }
  }

  // ---------------------------------------------------------------------------
  // The debounce map

  /** A time.AfterFunc timer: when it fires next, and whether it is still to fire (a timer
      that has fired stays in the map while its callback runs). */
  datatype Timer = Timer(id: nat, deadline: int, armed: bool)

  /** How a timer's callback ended. */
  datatype Outcome =
    /** the polls ended while waitStable was still waiting: the callback is still running */
    | StillWaiting
    /** waitStable said no: nothing was processed */
    | Skipped
    /** waitStable said yes and ProcessZip ran */
    | Processed(reports: seq<Convert.VolumeReport>, error: Option<Convert.ProcessError>)

  /** What ProcessZip does, as a function of the filesystem and the archive's name. */
  type Pipeline = (Node, string) -> (Node, seq<Convert.VolumeReport>, Option<Convert.ProcessError>)

  /** internal.ProcessZip, looking metadata up in `catalogue`. */
  function ProcessZipWith(catalogue: Shikimori.Catalogue): Pipeline {
    (fs, name) => Convert.ProcessResult(fs, name, catalogue)
  }

  /** The map from event paths to their timers, behind the mutex of the event loop. */
  class Debouncer {
    var timers: map<string, Timer>
    var nextId: nat

    /** Only .zip paths have timers, and no two paths share one. */
    ghost predicate Valid()
      reads this
    {
      && (forall p :: p in timers ==> Convert.IsZip(PathBase(p)) && timers[p].id < nextId)
      && (forall p, q :: p in timers && q in timers && p != q ==> timers[p].id != timers[q].id)
    }

    constructor()
      ensures Valid() && timers == map[] && nextId == 0
    {
      timers := map[];
      nextId := 0;
    }

    /** scheduleProcess(path) at time `now`: a path whose base is not a .zip name is
        ignored; a path with a timer has it reset to fire one window from now; any other
        path gets a new timer that fires one window from now. */
    method Schedule(path: string, now: int)
      requires Valid()
      modifies this
      ensures Valid()
      ensures !Convert.IsZip(PathBase(path)) ==> timers == old(timers) && nextId == old(nextId)
      ensures Convert.IsZip(PathBase(path)) && path in old(timers) ==>
        timers == old(timers)[path := Timer(old(timers)[path].id, now + StableWindow, true)]
        && nextId == old(nextId)
      ensures Convert.IsZip(PathBase(path)) && path !in old(timers) ==>
        timers == old(timers)[path := Timer(old(nextId), now + StableWindow, true)]
        && nextId == old(nextId) + 1
    {
      if !Convert.IsZip(PathBase(path)) {
        return;
      }
      ghost var before := timers;
      if path in timers {
        timers := timers[path := Timer(timers[path].id, now + StableWindow, true)];
        KeepsValid(before, path);
        return;
      }
      timers := timers[path := Timer(nextId, now + StableWindow, true)];
      nextId := nextId + 1;
      KeepsValid(before, path);
    }

    /** The map after one path's timer was set or dropped is valid when the map before
        it was and the path's timer, if any, carries a fresh or its own id. */
    lemma KeepsValid(before: map<string, Timer>, path: string)
      requires forall p :: p in before ==> Convert.IsZip(PathBase(p)) && before[p].id < nextId
      requires forall p, q :: p in before && q in before && p != q ==> before[p].id != before[q].id
      requires forall p :: p != path ==> (p in timers <==> p in before) && (p in timers ==> timers[p] == before[p])
      requires path in timers ==> Convert.IsZip(PathBase(path)) && timers[path].id < nextId
      requires path in timers ==>
        ((path in before && timers[path].id == before[path].id)
         || forall p :: p in before ==> before[p].id < timers[path].id)
      ensures Valid()
    {
      forall p | p in timers
        ensures Convert.IsZip(PathBase(p)) && timers[p].id < nextId
      {
        if p != path {
          assert p in before && timers[p] == before[p];
        }
      }
      forall p, q | p in timers && q in timers && p != q
        ensures timers[p].id != timers[q].id
      {
        if p == path {
          assert q in before && timers[q] == before[q];
        } else if q == path {
          assert p in before && timers[p] == before[p];
        } else {
          assert timers[p] == before[p] && timers[q] == before[q];
        }
      }
    }

    /** One event of the watch loop: scheduled when its kind is relevant. */
    method HandleEvent(path: string, op: Op, now: int)
      requires Valid()
      modifies this
      ensures Valid()
      ensures !Relevant(op) ==> timers == old(timers) && nextId == old(nextId)
      ensures Relevant(op) && Convert.IsZip(PathBase(path)) ==>
        path in timers && timers[path].deadline == now + StableWindow && timers[path].armed
      ensures forall p :: p != path ==> (p in timers <==> p in old(timers)) && (p in timers ==> timers[p] == old(timers)[p])
    {
      if Relevant(op) {
        Schedule(path, now);
      }
    }

    /** The timer of `path` fires at `now`: its callback runs, and the timer is dropped
        once the callback ends (a callback still waiting leaves it in the map, disarmed). */
    method Fire(path: string, now: int, fs: Node, polls: seq<Poll>, catalogue: Shikimori.Catalogue)
      returns (fs': Node, outcome: Outcome)
      requires Valid()
      requires path in timers && timers[path].armed && timers[path].deadline <= now
      modifies this
      ensures Valid() && nextId == old(nextId)
      ensures (fs', outcome) == CallbackResult(path, now, fs, polls, ProcessZipWith(catalogue))
      ensures outcome == StillWaiting ==> timers == old(timers)[path := old(timers)[path].(armed := false)]
      ensures outcome != StillWaiting ==> timers == old(timers) - {path}
    {
      Disarm(path);
      fs', outcome := RunCallback(path, now, fs, polls, catalogue);
      if outcome != StillWaiting {
        Release(path);
        DropUpdated(old(timers), path, old(timers)[path].(armed := false));
      }
    }

    /** A timer that has fired stays in the map, no longer armed. */
    method Disarm(path: string)
      requires Valid() && path in timers
      modifies this
      ensures Valid() && nextId == old(nextId)
      ensures timers == old(timers)[path := old(timers)[path].(armed := false)]
    {
      ghost var before := timers;
      timers := timers[path := timers[path].(armed := false)];
      KeepsValid(before, path);
    }

    /** delete(timers, path) at the end of the callback. */
    method Release(path: string)
      requires Valid()
      modifies this
      ensures Valid() && nextId == old(nextId)
      ensures timers == old(timers) - {path}
    {
      ghost var before := timers;
      timers := timers - {path};
      KeepsValid(before, path);
    }
  }

  /** Dropping a key forgets what it was last set to. */
  lemma DropUpdated<K, V>(m: map<K, V>, k: K, v: V)
    ensures m[k := v] - {k} == m - {k}
  {
  }

  /** What the callback of the timer of `path` does when it starts at `now`: wait for the
      file to settle, and run the pipeline on its base name when it did. */
  function CallbackResult(path: string, now: int, fs: Node, polls: seq<Poll>, process: Pipeline): (Node, Outcome)
  {
    match WaitVerdict(now, StableWindow, polls)
    case Pending => (fs, StillWaiting)
    case Unstable => (fs, Skipped)
    case Stable =>
      var (fs', reports, err) := process(fs, PathBase(path));
      (fs', Processed(reports, err))
  }

  /** The body of the timer's callback. */
  method RunCallback(path: string, now: int, fs: Node, polls: seq<Poll>, catalogue: Shikimori.Catalogue)
    returns (fs': Node, outcome: Outcome)
    ensures (fs', outcome) == CallbackResult(path, now, fs, polls, ProcessZipWith(catalogue))
  {
    var v := WaitStable(now, StableWindow, polls);
    if v == Pending {
      return fs, StillWaiting;
    }
    if v == Unstable {
      return fs, Skipped;
    }
    var reports, err;
    fs', reports, err := Convert.ProcessZip(fs, PathBase(path), catalogue);
    outcome := Processed(reports, err);
  }

  /** The pipeline runs only after waitStable said yes, on the base name of the event's
      path; without a yes the filesystem is untouched, and the callback ends unless the
      wait is still going on. */
  lemma CallbackProcessesOnlyStable(path: string, now: int, fs: Node, polls: seq<Poll>, process: Pipeline)
    ensures var (fs', outcome) := CallbackResult(path, now, fs, polls, process);
      && (outcome.Processed? <==> WaitVerdict(now, StableWindow, polls) == Stable)
      && (outcome.Processed? ==> (fs', outcome.reports, outcome.error) == process(fs, PathBase(path)))
      && (!outcome.Processed? ==> fs' == fs)
      && (outcome == StillWaiting <==> WaitVerdict(now, StableWindow, polls) == Pending)
  {
  }

  // ---------------------------------------------------------------------------
  // The start-up scan

  /** An entry of input/ that the start-up scan processes: a .zip name that is not a directory. */
  predicate IsArchiveEntry(e: Entry) {
    !IsDirNode(e.node) && Convert.IsZip(e.name)
  }

  /** One ProcessZip call of the scan: the name and what ProcessZip returned. */
  datatype Run = Run(name: string, reports: seq<Convert.VolumeReport>, error: Option<Convert.ProcessError>)

  /** One pass of the scan's loop: an archive entry is processed, any other entry passed over. */
  function ScanStep(fs: Node, e: Entry, process: Pipeline): (Node, seq<Run>) {
    if !IsArchiveEntry(e) then (fs, [])
    else
      var (fs1, reports, err) := process(fs, e.name);
      (fs1, [Run(e.name, reports, err)])
  }

  /** The scan's loop over the listing taken at its start. */
  function ScanEntries(fs: Node, es: seq<Entry>, process: Pipeline): (Node, seq<Run>)
    decreases es
  {
    if es == [] then (fs, [])
    else
      var (fs1, run) := ScanStep(fs, es[0], process);
      var (fs2, runs) := ScanEntries(fs1, es[1..], process);
      (fs2, run + runs)
  }

  /** scanExisting("input"): nothing when the directory cannot be listed. */
  function ScanResult(fs: Node, catalogue: Shikimori.Catalogue): (Node, seq<Run>) {
    match ReadDir(fs, Convert.InputDir)
    case Err(_) => (fs, [])
    case Ok(es) => ScanEntries(fs, es, ProcessZipWith(catalogue))
  }

  /** The body of scanExisting's loop for one entry. */
  method ScanEntry(fs: Node, f: Entry, process: Pipeline) returns (fs': Node, run: seq<Run>)
    ensures (fs', run) == ScanStep(fs, f, process)
  {
    if IsDirNode(f.node) || !Convert.IsZip(f.name) {
      return fs, [];
    }
    var (fs1, reports, err) := process(fs, f.name);
    return fs1, [Run(f.name, reports, err)];
  }

  /** scanExisting("input"). */
  method ScanExisting(fs: Node, catalogue: Shikimori.Catalogue) returns (fs': Node, runs: seq<Run>)
    ensures (fs', runs) == ScanResult(fs, catalogue)
  {
    var listing := ReadDir(fs, Convert.InputDir);
    if listing.Err? {
      return fs, [];
    }
    fs', runs := ScanAll(fs, listing.value, ProcessZipWith(catalogue));
  }

  /** The loop of scanExisting over the listing taken at its start, running `process`
      (ProcessZip) on each archive. */
  method ScanAll(fs: Node, entries: seq<Entry>, process: Pipeline) returns (fs': Node, runs: seq<Run>)
    ensures (fs', runs) == ScanEntries(fs, entries, process)
  {
    fs' := fs;
    runs := [];
    var i := 0;
    while i < |entries|
      invariant 0 <= i <= |entries|
      invariant ScanEntries(fs', entries[i..], process).0 == ScanEntries(fs, entries, process).0
      invariant runs + ScanEntries(fs', entries[i..], process).1 == ScanEntries(fs, entries, process).1
    {
      assert entries[i..][0] == entries[i] && entries[i..][1..] == entries[i + 1..];
      var run;
      fs', run := ScanEntry(fs', entries[i], process);
      ghost var rest := ScanEntries(fs', entries[i + 1..], process).1;
      assert (runs + run) + rest == runs + (run + rest);
      runs := runs + run;
      i := i + 1;
    }
    assert entries[i..] == [] && runs + [] == runs;
  }

  /** The names of the archive entries, in listing order. */
  function ArchiveNames(es: seq<Entry>): (names: seq<string>)
    ensures |names| <= |es|
  {
    if es == [] then []
    else if IsArchiveEntry(es[0]) then [es[0].name] + ArchiveNames(es[1..])
    else ArchiveNames(es[1..])
  }

  /** A name is among the archive names exactly when some archive entry carries it. */
  lemma {:induction false} ArchiveNamesExactly(es: seq<Entry>, name: string)
    ensures name in ArchiveNames(es) <==> exists i :: 0 <= i < |es| && IsArchiveEntry(es[i]) && es[i].name == name
  {
    if es != [] {
      ArchiveNamesExactly(es[1..], name);
      if exists i :: 0 <= i < |es| && IsArchiveEntry(es[i]) && es[i].name == name {
        var i :| 0 <= i < |es| && IsArchiveEntry(es[i]) && es[i].name == name;
        if i > 0 {
          assert es[1..][i - 1] == es[i];
        }
      }
      if exists i :: 0 <= i < |es[1..]| && IsArchiveEntry(es[1..][i]) && es[1..][i].name == name {
        var i :| 0 <= i < |es[1..]| && IsArchiveEntry(es[1..][i]) && es[1..][i].name == name;
        assert es[i + 1] == es[1..][i];
      }
    }
  }

  /** One pass runs ProcessZip on the entry's name exactly when it is an archive entry. */
  lemma ScanStepRuns(fs: Node, e: Entry, process: Pipeline)
    ensures var run := ScanStep(fs, e, process).1;
      (IsArchiveEntry(e) ==> |run| == 1 && run[0].name == e.name) && (!IsArchiveEntry(e) ==> run == [])
  {
  }

  /** The scan calls ProcessZip once for each archive entry, in listing order, and for
      nothing else. */
  lemma {:induction false} ScanRunsEachArchive(fs: Node, es: seq<Entry>, process: Pipeline)
    ensures var runs := ScanEntries(fs, es, process).1;
      |runs| == |ArchiveNames(es)| && forall i :: 0 <= i < |runs| ==> runs[i].name == ArchiveNames(es)[i]
    decreases es
  {
    if es != [] {
      var (fs1, run) := ScanStep(fs, es[0], process);
      ScanStepRuns(fs, es[0], process);
      ScanRunsEachArchive(fs1, es[1..], process);
      var runs := ScanEntries(fs1, es[1..], process).1;
      var names := ArchiveNames(es[1..]);
      assert ScanEntries(fs, es, process).1 == run + runs;
      if IsArchiveEntry(es[0]) {
        assert ArchiveNames(es) == [es[0].name] + names;
        forall i | 1 <= i < 1 + |runs|
          ensures (run + runs)[i].name == ([es[0].name] + names)[i]
        {
          assert (run + runs)[i] == runs[i - 1];
        }
      } else {
        assert ArchiveNames(es) == names && run + runs == runs;
      }
    }
  }
}
