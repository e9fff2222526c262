/** Copying snapshots off the server, file operation by file operation: any number
    of copies and catch-ups, from one installation or several, interleaved, and
    each able to crash at any point.

    Whether a target is on another filesystem is decided before a copy begins
    and is not part of the model. */
module BackupCopy {
  import opened Basics
  import opened Backups
  import Canonical

  type Installation = string

  /** What a reader makes of a file: its digest, and the installation whose
      database it is, when it is a readable one. */
  datatype Reader = Reader(sha: Bytes -> Canonical.Digest, owner: Bytes -> Option<Installation>)

  function Partial(name: string): string {
    name + ".partial"
  }

  function Reverse<T>(s: seq<T>): seq<T> {
    if s == [] then [] else [s[|s| - 1]] + Reverse(s[..|s| - 1])
  }

  function Select(list: seq<string>, setAside: bool): seq<string> {
    if list == [] then []
    else
      Select(list[..|list| - 1], setAside)
      + (if IsSetAside(list[|list| - 1]) == setAside then [list[|list| - 1]] else [])
  }

  /** The installation's own kind of backups first, newest first, then the
      databases restores set aside. */
  function Candidates(list: seq<string>): seq<string> {
    Reverse(Select(list, false)) + Reverse(Select(list, true))
  }

  function FirstReadable(r: Reader, files: Files, names: seq<string>): Option<Installation> {
    if names == [] then None
    else if names[0] in files && r.owner(files[names[0]]).Some? then r.owner(files[names[0]])
    else FirstReadable(r, files, names[1..])
  }

  /** A directory with nothing readable belongs to whoever copies there first. */
  predicate SameInstallation(r: Reader, files: Files, list: seq<string>, content: Bytes) {
    var theirs := FirstReadable(r, files, Candidates(list));
    theirs.None? || theirs == r.owner(content)
  }

  // ------------------------------------------------------------- the machine

  /** Where a job stands. `Writing` says how much of the snapshot its partial
      file was last given. */
  datatype Pc =
    | CatchingUp | Rechecking
    | Arrived | Claimed | Clearing | Writing(written: nat) | Synced | Verified | Placed
    | Retaining | Pruning(victims: seq<string>)
    | Finished

  datatype Job = Job(name: string, content: Bytes, keep: nat, pc: Pc)

  /** What the environment decides in one operation: the listing it answers with,
      how far a write gets, and whether the operation is complete and durable and
      reads back what is stored. */
  datatype Choice = Choice(list: seq<string>, upto: nat, ok: bool)

  predicate Looks(pc: Pc) {
    pc.Arrived? || pc.Rechecking? || pc.Retaining?
  }

  /** How much of `content` is there after a write that had come to `written`. */
  function Reach(written: nat, upto: nat, content: Bytes): (n: nat)
    ensures n <= |content| && (written <= |content| ==> written <= n)
  {
    Min(Max(written, upto), |content|)
  }

  function Move(r: Reader, files: Files, j: Job, c: Choice): (Files, Pc) {
    var partial := Partial(j.name);
    match j.pc
    case CatchingUp =>
      if j.name !in files then (files, Arrived)
      else if |SnapshotNames(files)| > Max(j.keep, 1) then (files, Rechecking)
      else (files, Finished)
    case Rechecking => (files, if SameInstallation(r, files, c.list, j.content) then Retaining else Finished)
    case Arrived => (files, if SameInstallation(r, files, c.list, j.content) then Claimed else Finished)
    case Claimed => (files, if j.name in files then Finished else Clearing)
    case Clearing => (files - {partial}, Writing(0))
    case Writing(written) =>
      var n := Reach(written, c.upto, j.content);
      (files[partial := j.content[..n]], if c.ok && n == |j.content| then Synced else Writing(n))
    case Synced =>
      if c.ok && partial in files && r.sha(files[partial]) == r.sha(j.content) then (files, Verified)
      else (files - {partial}, Finished)
    case Verified =>
      if partial in files then ((files - {partial})[j.name := files[partial]], Placed) else (files, Finished)
    case Placed => if c.ok then (files, Retaining) else (files - {j.name}, Finished)
    case Retaining => (files, Pruning(c.list[..Excess(c.list, j.keep)]))
    case Pruning(victims) =>
      if victims == [] then (files, Finished)
      else if victims[0] in files then (files - {victims[0]}, Pruning(victims[1..]))
      else (files, Finished)
    case Finished => (files, Finished)
  }

  datatype World = World(files: Files, jobs: map<nat, Job>)

  datatype Event = Begin(id: nat, job: Job) | Step(id: nat, choice: Choice) | Crash(id: nat)

  ghost predicate Enabled(w: World, e: Event) {
    match e
    case Begin(id, job) => id !in w.jobs && IsOwnBackup(job.name) && (job.pc.Arrived? || job.pc.CatchingUp?)
    case Step(id, choice) =>
      id in w.jobs && (Looks(w.jobs[id].pc) ==> Lists(choice.list, SnapshotNames(w.files)))
    case Crash(id) => id in w.jobs
  }

  function Next(r: Reader, w: World, e: Event): World {
    match e
    case Begin(id, job) => w.(jobs := w.jobs[id := job])
    case Step(id, choice) =>
      if id !in w.jobs then w
      else
        var moved := Move(r, w.files, w.jobs[id], choice);
        World(moved.0, w.jobs[id := w.jobs[id].(pc := moved.1)])
    case Crash(id) => w.(jobs := w.jobs - {id})
  }

  ghost predicate Run(r: Reader, w: World, events: seq<Event>, w': World)
    decreases |events|
  {
    if events == [] then w == w'
    else Enabled(w, events[0]) && Run(r, Next(r, w, events[0]), events[1..], w')
  }

  lemma {:induction false} RunOn(r: Reader, w: World, first: seq<Event>, middle: World, second: seq<Event>, w': World)
    requires Run(r, w, first, middle) && Run(r, middle, second, w')
    ensures Run(r, w, first + second, w')
    decreases |first|
  {
    if first == [] {
      assert first + second == second;
    } else {
      assert (first + second)[1..] == first[1..] + second;
      RunOn(r, Next(r, w, first[0]), first[1..], middle, second, w');
    }
  }

  lemma OneStep(r: Reader, w: World, e: Event)
    requires Enabled(w, e)
    ensures Run(r, w, [e], Next(r, w, e))
  {
    var rest := [e][1..];
    assert rest == [];
    assert Run(r, Next(r, w, e), rest, Next(r, w, e));
  }

  lemma RunMore(r: Reader, w: World, events: seq<Event>, w': World, e: Event)
    requires Run(r, w, events, w') && Enabled(w', e)
    ensures Run(r, w, events + [e], Next(r, w', e))
  {
    OneStep(r, w', e);
    RunOn(r, w, events, w', [e], Next(r, w', e));
  }

  predicate Live(w: World, id: nat) {
    id in w.jobs && !w.jobs[id].pc.Finished?
  }

  lemma PartialIsNoSnapshot(name: string, other: string)
    requires IsSnapshot(other)
    ensures Partial(name) != other
  {
    assert Partial(name)[|Partial(name)| - 1] == 'l';
    assert other[|other| - 3..][2] == other[|other| - 1];
  }

  lemma PartialsDiffer(a: string, b: string)
    ensures Partial(a) == Partial(b) <==> a == b
  {
    assert Partial(a)[..|a|] == a && Partial(b)[..|b|] == b;
  }

  // --------------------------------------------------- what every run keeps

  /** Jobs bear the names of an installation's own backups and delete nothing but
      snapshots. */
  ghost predicate WellNamed(j: Job) {
    && IsOwnBackup(j.name)
    && (j.pc.Writing? ==> j.pc.written <= |j.content|)
    && (j.pc.Pruning? ==> forall name <- j.pc.victims :: IsSnapshot(name))
  }

  ghost predicate AllWellNamed(w: World) {
    forall id <- w.jobs :: WellNamed(w.jobs[id])
  }

  lemma EventKeepsNames(r: Reader, w: World, e: Event)
    requires AllWellNamed(w) && Enabled(w, e)
    ensures AllWellNamed(Next(r, w, e))
  {
    if e.Step? && w.jobs[e.id].pc.Retaining? {
      var list, j := e.choice.list, w.jobs[e.id];
      forall name <- list[..Excess(list, j.keep)]
        ensures IsSnapshot(name)
      {
        assert name in list;
      }
    }
  }

  lemma {:induction false} RunKeepsNames(r: Reader, w: World, events: seq<Event>, w': World)
    requires AllWellNamed(w) && Run(r, w, events, w')
    ensures AllWellNamed(w')
    decreases |events|
  {
    if events != [] {
      EventKeepsNames(r, w, events[0]);
      RunKeepsNames(r, Next(r, w, events[0]), events[1..], w');
    }
  }

  // -------------------------------------------- runs of one job, operation by operation

  function Two(a: Job, b: Job): map<nat, Job> {
    map[0 := a, 1 := b]
  }

  const Go := Choice([], 0, true)

  lemma BothBegin(r: Reader, files: Files, a: Job, b: Job) returns (events: seq<Event>)
    requires IsOwnBackup(a.name) && IsOwnBackup(b.name) && a.pc.Arrived? && b.pc.Arrived?
    ensures Run(r, World(files, map[]), events, World(files, Two(a, b)))
  {
    var w0 := World(files, map[]);
    var w1 := Next(r, w0, Begin(0, a));
    OneStep(r, w0, Begin(0, a));
    RunMore(r, w0, [Begin(0, a)], w1, Begin(1, b));
    events := [Begin(0, a)] + [Begin(1, b)];
    assert Next(r, w1, Begin(1, b)).jobs == Two(a, b);
  }

  /** Both may look before either has added anything. */
  lemma BothClaim(r: Reader, files: Files, list: seq<string>, a: Job, b: Job) returns (events: seq<Event>)
    requires a.pc.Arrived? && b.pc.Arrived? && a.name !in files && b.name !in files
    requires Lists(list, SnapshotNames(files))
    requires SameInstallation(r, files, list, a.content) && SameInstallation(r, files, list, b.content)
    ensures Run(r, World(files, Two(a, b)), events,
                World(files, Two(a.(pc := Clearing), b.(pc := Clearing))))
  {
    var go := Choice(list, 0, true);
    var w0 := World(files, Two(a, b));
    var w1 := World(files, Two(a.(pc := Claimed), b));
    var w2 := World(files, Two(a.(pc := Claimed), b.(pc := Claimed)));
    var w3 := World(files, Two(a.(pc := Clearing), b.(pc := Claimed)));
    assert Next(r, w0, Step(0, go)).jobs == w1.jobs;
    OneStep(r, w0, Step(0, go));
    assert Next(r, w1, Step(1, go)).jobs == w2.jobs;
    RunMore(r, w0, [Step(0, go)], w1, Step(1, go));
    assert Next(r, w2, Step(0, go)).jobs == w3.jobs;
    RunMore(r, w0, [Step(0, go)] + [Step(1, go)], w2, Step(0, go));
    assert Next(r, w3, Step(1, go)).jobs == Two(a.(pc := Clearing), b.(pc := Clearing));
    RunMore(r, w0, [Step(0, go)] + [Step(1, go)] + [Step(0, go)], w3, Step(1, go));
    events := [Step(0, go)] + [Step(1, go)] + [Step(0, go)] + [Step(1, go)];
  }

  /** Two jobs whose names are free, in a directory both may claim, come to be
      past every check together. */
  lemma BothClear(r: Reader, files: Files, list: seq<string>, a: Job, b: Job) returns (events: seq<Event>)
    requires IsOwnBackup(a.name) && IsOwnBackup(b.name) && a.name !in files && b.name !in files
    requires a.pc.Arrived? && b.pc.Arrived? && Lists(list, SnapshotNames(files))
    requires SameInstallation(r, files, list, a.content) && SameInstallation(r, files, list, b.content)
    ensures Run(r, World(files, map[]), events, World(files, Two(a.(pc := Clearing), b.(pc := Clearing))))
  {
    var begins := BothBegin(r, files, a, b);
    var claims := BothClaim(r, files, list, a, b);
    RunOn(r, World(files, map[]), begins, World(files, Two(a, b)), claims,
      World(files, Two(a.(pc := Clearing), b.(pc := Clearing))));
    events := begins + claims;
  }
}
