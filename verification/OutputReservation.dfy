/**
 Reserving an output directory (scripts/code-mode-model-matrix.ts): walk down from the repository
 root, inspect each segment, create it if it is missing, and look again if somebody else was faster.
 Paths are absolute and normalised, as sequences of segments.
*/
module OutputReservation {
  import opened Wrappers
  import opened Sequences

  type Path = seq<string>

  datatype Kind = Directory | File | Symlink

  datatype ReserveError =
    | OutsideRepository
    | TraversesSymlink
    | AlreadyExists
    | ParentNotDirectory
    | SystemError

  // ---------------------------------------------------------------------------------------
  // Staying inside the repository

  predicate Normalised(p: Path) {
    forall i :: 0 <= i < |p| ==> p[i] != "" && p[i] != "." && p[i] != ".."
  }

  function CommonLength(a: Path, b: Path): (n: nat)
    ensures n <= |a| && n <= |b| && a[..n] == b[..n]
    ensures n < |a| && n < |b| ==> a[n] != b[n]
  {
    if a == [] || b == [] || a[0] != b[0] then 0 else
      assert a == [a[0]] + a[1..] && b == [b[0]] + b[1..];
      1 + CommonLength(a[1..], b[1..])
  }

  /** `path.relative`: up to the common part, then down. */
  function Relative(root: Path, output: Path): Path {
    var n := CommonLength(root, output);
    seq(|root| - n, _ => "..") + output[n..]
  }

  predicate StaysInside(relative: Path) {
    relative != [] && relative[0] != ".."
  }

  /** The check on the relative path accepts exactly the strict descendants of the root, and then the
      walk ends at the output. */
  lemma {:induction false} AcceptsStrictDescendants(root: Path, output: Path)
    requires Normalised(output)
    ensures StaysInside(Relative(root, output)) <==> root < output
    ensures root < output ==> root + Relative(root, output) == output
  {
    var n := CommonLength(root, output);
    assert root < output ==> forall i :: 0 <= i < |root| ==> root[i] == output[i];
  }

  // ---------------------------------------------------------------------------------------
  // One call, with other creators at work at any moment

  predicate IsDirectory(entries: map<Path, Kind>, p: Path) {
    p in entries && entries[p] == Directory
  }

  /** The directory a path would be created in is there; the top of the file system always is. */
  predicate HasParent(entries: map<Path, Kind>, p: Path) {
    |p| <= 1 || IsDirectory(entries, p[..|p| - 1])
  }

  predicate Grew(was: map<Path, Kind>, entries: map<Path, Kind>) {
    forall p :: p in was ==> p in entries && entries[p] == was[p]
  }

  /** A file system that only grows.  Before each operation others may have added entries.  `faults`
      counts the operations that failed for a reason other than what is there. */
  class Disk {
    var entries: map<Path, Kind>
    ghost var faults: nat

    method OthersCreate()
      modifies `entries
      ensures Grew(old(entries), entries)
    {
      ghost var none: map<Path, Kind> := map[];
      assert none.Keys !! entries.Keys;
      var added: map<Path, Kind> :| added.Keys !! entries.Keys;
      entries := entries + added;
    }

    /** None when nothing is there. */
    method Lstat(p: Path) returns (r: Result<Option<Kind>, ReserveError>)
      modifies this
      ensures Grew(old(entries), entries)
      ensures r.Ok? ==> r.value == (if p in entries then Some(entries[p]) else None) && faults == old(faults)
      ensures r.Err? ==> r.error == SystemError && faults > old(faults)
    {
      OthersCreate();
      if * {
        faults := faults + 1;
        return Err(SystemError);
      }
      r := Ok(if p in entries then Some(entries[p]) else None);
    }

    /** False when the path exists already. */
    method Mkdir(p: Path) returns (r: Result<bool, ReserveError>)
      modifies this
      ensures Grew(old(entries), entries)
      ensures r.Ok? ==> p in entries && faults == old(faults)
      ensures r == Ok(true) ==> p !in old(entries) && entries[p] == Directory && HasParent(entries, p)
      ensures r.Err? ==> r.error == SystemError && faults >= old(faults)
      ensures r.Err? ==> faults > old(faults) || !HasParent(entries, p)
    {
      OthersCreate();
      if p in entries {
        return Ok(false);
      }
      if !HasParent(entries, p) {
        return Err(SystemError);
      }
      if * {
        faults := faults + 1;
        return Err(SystemError);
      }
      entries := entries[p := Directory];
      return Ok(true);
    }
  }

  /** Why a walk to `output` stops at its first n segments. */
  predicate StopsAt(entries: map<Path, Kind>, output: Path, n: nat, error: ReserveError) {
    && n <= |output| && output[..n] in entries
    && match entries[output[..n]]
       case Symlink => error == TraversesSymlink
       case File => error == if n == |output| then AlreadyExists else ParentNotDirectory
       case Directory => error == AlreadyExists && n == |output|
  }

  /** The walk comes past directories to segment n and stops there. */
  predicate WalkStopsAt(entries: map<Path, Kind>, root: Path, output: Path, n: nat, error: ReserveError) {
    |root| < n && StopsAt(entries, output, n, error)
    && forall m :: |root| < m < n ==> IsDirectory(entries, output[..m])
  }

  /** Apart from what the call created itself, nothing is in its way: no output, and only directories above it. */
  predicate WayIsOpen(entries: map<Path, Kind>, root: Path, output: Path, created: set<Path>) {
    forall n :: |root| < n <= |output| && output[..n] in entries && output[..n] !in created ==>
      n < |output| && IsDirectory(entries, output[..n])
  }

  predicate RootIsThere(entries: map<Path, Kind>, root: Path) {
    root == [] || IsDirectory(entries, root)
  }

  /** New directories between the root and the output. */
  ghost predicate NewBelow(was: map<Path, Kind>, entries: map<Path, Kind>, root: Path, output: Path,
                           created: set<Path>) {
    forall p :: p in created ==> p !in was && IsDirectory(entries, p) && root < p <= output
  }

  predicate DirectoriesTo(entries: map<Path, Kind>, root: Path, output: Path, reached: nat) {
    reached <= |output| && forall n :: |root| < n <= reached ==> IsDirectory(entries, output[..n])
  }

  predicate NoDeeperThan(created: set<Path>, reached: nat) {
    forall p :: p in created ==> |p| <= reached
  }

  /** The first `reached` segments are directories, those created among them were not there before. */
  ghost predicate Walked(was: map<Path, Kind>, entries: map<Path, Kind>, root: Path, output: Path, reached: nat,
                         created: set<Path>) {
    && root <= output && |root| <= reached
    && NewBelow(was, entries, root, output, created)
    && DirectoriesTo(entries, root, output, reached)
    && NoDeeperThan(created, reached)
  }

  lemma {:induction false} WalkedStays(was: map<Path, Kind>, entries: map<Path, Kind>, later: map<Path, Kind>,
                                       root: Path, output: Path, reached: nat, created: set<Path>)
    requires Walked(was, entries, root, output, reached, created) && Grew(entries, later)
    ensures Walked(was, later, root, output, reached, created)
  {
  }

  /** One more segment is a directory; it may have been created now. */
  lemma {:induction false} WalkedOn(was: map<Path, Kind>, entries: map<Path, Kind>, root: Path, output: Path,
                                    reached: nat, created: set<Path>, now: set<Path>)
    requires Walked(was, entries, root, output, reached, created)
    requires reached < |output| && IsDirectory(entries, output[..reached + 1])
    requires now == {} || (now == {output[..reached + 1]} && output[..reached + 1] !in was)
    ensures Walked(was, entries, root, output, reached + 1, created + now)
  {
    assert output[..reached] <= output[..reached + 1];
    assert root == output[..|root|];
    assert |output[..reached + 1]| > |root| && root <= output[..reached + 1];
  }

  /** What the walk meets at the next segment is in its way. */
  lemma {:induction false} WalkStops(was: map<Path, Kind>, entries: map<Path, Kind>, root: Path, output: Path,
                                     reached: nat, created: set<Path>, error: ReserveError)
    requires Walked(was, entries, root, output, reached, created)
    requires reached < |output| && StopsAt(entries, output, reached + 1, error)
    ensures WalkStopsAt(entries, root, output, reached + 1, error)
    ensures output !in created && !WayIsOpen(entries, root, output, created)
  {
    var path := output[..reached + 1];
    assert |output[..reached]| < |path| <= |output|;
    assert path !in created && output !in created;
    assert path in entries;
  }

  lemma {:induction false} WalkedToTheEnd(was: map<Path, Kind>, entries: map<Path, Kind>, root: Path, output: Path,
                                          created: set<Path>)
    requires Walked(was, entries, root, output, |output|, created) && output in created
    ensures WayIsOpen(entries, root, output, created) && output !in was
  {
    assert output[..|output|] == output;
  }

  lemma {:induction false} NothingNew(entries: map<Path, Kind>, root: Path, output: Path)
    ensures NewBelow(entries, entries, root, output, {})
  {
  }

  lemma {:induction false} WalkedNowhere(entries: map<Path, Kind>, root: Path, output: Path)
    requires root <= output
    ensures Walked(entries, entries, root, output, |root|, {})
  {
  }

  /** The parent of the next segment is a directory. */
  lemma {:induction false} ParentIsWalked(was: map<Path, Kind>, entries: map<Path, Kind>, root: Path, output: Path,
                                          reached: nat, created: set<Path>)
    requires Walked(was, entries, root, output, reached, created) && reached < |output|
    requires Grew(was, entries)
    ensures RootIsThere(was, root) ==> HasParent(entries, output[..reached + 1])
  {
    assert output[..reached + 1][..reached] == output[..reached];
    assert output[..|root|] == root;
  }

  /** A call fails only for what it found or because an operation failed; with its way open it succeeds. */
  method ReserveOutputDir(disk: Disk, root: Path, output: Path)
    returns (r: Result<(), ReserveError>, ghost created: set<Path>)
    requires Normalised(output)
    modifies disk
    ensures Grew(old(disk.entries), disk.entries) && disk.faults >= old(disk.faults)
    ensures r == Err(OutsideRepository) <==> !(root < output)
    ensures NewBelow(old(disk.entries), disk.entries, root, output, created)
    ensures r.Ok? <==> output in created
    ensures r.Ok? ==> DirectoriesTo(disk.entries, root, output, |output|)
    ensures r.Err? && root < output && r.error != SystemError ==>
              exists n :: WalkStopsAt(disk.entries, root, output, n, r.error)
    ensures r == Err(SystemError) ==> disk.faults > old(disk.faults) || !RootIsThere(old(disk.entries), root)
    ensures root < output && disk.faults == old(disk.faults) && RootIsThere(old(disk.entries), root) ==>
              (r.Ok? <==> WayIsOpen(disk.entries, root, output, created))
    ensures output in old(disk.entries) ==> r.Err?
  {
    hide CommonLength, Relative, NewBelow, DirectoriesTo, NoDeeperThan, WayIsOpen, WalkStopsAt, HasParent;
    created := {};
    ghost var was := disk.entries;
    NothingNew(was, root, output);
    var relative := Relative(root, output);
    AcceptsStrictDescendants(root, output);
    if !StaysInside(relative) {
      return Err(OutsideRepository), created;
    }
    var current := root;
    WalkedNowhere(was, root, output);
    assert output[..|root|] == root;
    for i := 0 to |relative|
      invariant Grew(was, disk.entries) && disk.faults == old(disk.faults)
      invariant current == output[..|root| + i]
      invariant Walked(was, disk.entries, root, output, |root| + i, created)
      invariant output in created <==> i == |relative|
    {
      ghost var reached := |root| + i;
      current := current + [relative[i]];
      assert current == output[..reached + 1];
      assert output[..|output|] == output;
      while true
        invariant Grew(was, disk.entries) && disk.faults == old(disk.faults)
        invariant Walked(was, disk.entries, root, output, reached, created)
        invariant output !in created
        // a second pass finds the path, so there is no third
        decreases if current in disk.entries then 0 else 1
      {
        ghost var seen := disk.entries;
        var inspected := disk.Lstat(current);
        WalkedStays(was, seen, disk.entries, root, output, reached, created);
        if inspected.Err? {
          return Err(inspected.error), created;
        }
        var stats := inspected.value;
        if stats.Some? {
          if stats.value == Symlink {
            WalkStops(was, disk.entries, root, output, reached, created, TraversesSymlink);
            return Err(TraversesSymlink), created;
          }
          if current == output {
            WalkStops(was, disk.entries, root, output, reached, created, AlreadyExists);
            return Err(AlreadyExists), created;
          }
          if stats.value != Directory {
            WalkStops(was, disk.entries, root, output, reached, created, ParentNotDirectory);
            return Err(ParentNotDirectory), created;
          }
          WalkedOn(was, disk.entries, root, output, reached, created, {});
          assert created + {} == created;
          break;
        }
        seen := disk.entries;
        var made := disk.Mkdir(current);
        WalkedStays(was, seen, disk.entries, root, output, reached, created);
        if made.Err? {
          ParentIsWalked(was, disk.entries, root, output, reached, created);
          return Err(made.error), created;
        }
        if made.value {
          assert current !in was;
          WalkedOn(was, disk.entries, root, output, reached, created, {current});
          created := created + {current};
          break;
        }
      }
    }
    WalkedToTheEnd(was, disk.entries, root, output, created);
    return Ok(()), created;
  }

  // ---------------------------------------------------------------------------------------
  // Any number of processes

  datatype Phase = Inspect | Create | Returned | Failed(error: ReserveError)

  /** The path up to and including segment k. */
  function At(root: Path, segments: Path, k: nat): Path
    requires k < |segments|
  {
    root + segments[..k + 1]
  }

  lemma {:induction false} LastIsOutput(root: Path, segments: Path, k: nat)
    requires k < |segments|
    ensures At(root, segments, k) == root + segments <==> k + 1 == |segments|
  {
    assert segments[..|segments|] == segments;
    assert |At(root, segments, k)| == |root| + k + 1;
  }

  /** `index` is the segment being worked on and `passes` counts the rounds of the retry loop for it. */
  datatype Process = Process(root: Path, segments: Path, index: nat, passes: nat, phase: Phase) {
    function Current(): Path
      requires index < |segments|
    {
      At(root, segments, index)
    }

    function Output(): Path {
      root + segments
    }

    predicate Running() {
      phase == Inspect || phase == Create
    }

    function Advanced(): Process {
      if index + 1 == |segments| then this.(index := |segments|, phase := Returned)
      else this.(index := index + 1, passes := 1, phase := Inspect)
    }
  }

  /** `owner` records which process created a path. */
  datatype World = World(entries: map<Path, Kind>, owner: map<Path, nat>, processes: seq<Process>)

  datatype Event =
    | Begin(root: Path, segments: Path)
    | Lstat(process: nat)
    | Mkdir(process: nat)
    | Fault(process: nat)
    | SomebodyCreates(path: Path, kind: Kind)

  function OnLstat(w: World, p: Process): Process
    requires p.index < |p.segments|
  {
    if p.Current() !in w.entries then p.(phase := Create)
    else if w.entries[p.Current()] == Symlink then p.(phase := Failed(TraversesSymlink))
    else if p.Current() == p.Output() then p.(phase := Failed(AlreadyExists))
    else if w.entries[p.Current()] != Directory then p.(phase := Failed(ParentNotDirectory))
    else p.Advanced()
  }

  predicate Able(w: World, i: nat, phase: Phase) {
    i < |w.processes| && w.processes[i].phase == phase && w.processes[i].index < |w.processes[i].segments|
  }

  function Step(w: World, e: Event): World {
    match e
    case Begin(root, segments) =>
      if segments == [] then w else w.(processes := w.processes + [Process(root, segments, 0, 1, Inspect)])
    case Lstat(i) =>
      if !Able(w, i, Inspect) then w
      else w.(processes := w.processes[i := OnLstat(w, w.processes[i])])
    case Mkdir(i) =>
      if !Able(w, i, Create) then w else
        var p := w.processes[i];
        if p.Current() in w.entries then
          w.(processes := w.processes[i := p.(passes := p.passes + 1, phase := Inspect)])
        else if !HasParent(w.entries, p.Current()) then
          w.(processes := w.processes[i := p.(phase := Failed(SystemError))])
        else
          World(w.entries[p.Current() := Directory], w.owner[p.Current() := i], w.processes[i := p.Advanced()])
    case Fault(i) =>
      if i < |w.processes| && w.processes[i].Running()
      then w.(processes := w.processes[i := w.processes[i].(phase := Failed(SystemError))]) else w
    case SomebodyCreates(path, kind) =>
      if path in w.entries then w else w.(entries := w.entries[path := kind])
  }

  function Exec(w: World, events: seq<Event>): World {
    if events == [] then w else Step(Exec(w, events[..|events| - 1]), events[|events| - 1])
  }

  function Empty(entries: map<Path, Kind>): World {
    World(entries, map[], [])
  }

  /** What one process knows about the file system. */
  predicate Sound(w: World, i: nat)
    requires i < |w.processes|
  {
    var p := w.processes[i];
    && p.index <= |p.segments| && p.segments != []
    && (p.Running() ==> p.index < |p.segments| && 1 <= p.passes <= 2)
    && (p.phase == Create ==> p.passes == 1)
    && (p.phase == Inspect && p.passes == 2 ==> p.Current() in w.entries)
    && (forall k :: 0 <= k < p.index ==> IsDirectory(w.entries, At(p.root, p.segments, k)))
    && (p.phase == Returned ==> p.index == |p.segments| && p.Output() in w.owner && w.owner[p.Output()] == i)
    && (p.phase.Failed? && p.phase.error != SystemError ==> HasReason(w.entries, p))
  }

  /** The segment the process failed at is what its error says. */
  predicate HasReason(entries: map<Path, Kind>, p: Process)
    requires p.phase.Failed?
  {
    p.index < |p.segments| && StopsAt(entries, p.Output(), |p.root| + p.index + 1, p.phase.error)
  }

  ghost predicate Inv(w: World) {
    && (forall q :: q in w.owner ==> q in w.entries)
    && forall i :: 0 <= i < |w.processes| ==> Sound(w, i)
  }

  /** Entries and owners are never taken back. */
  ghost predicate Extends(w: World, n: World) {
    && (forall q :: q in w.entries ==> q in n.entries && n.entries[q] == w.entries[q])
    && (forall q :: q in w.owner ==> q in n.owner && n.owner[q] == w.owner[q])
  }

  lemma {:induction false} SoundStays(w: World, n: World, i: nat)
    requires i < |w.processes| && i < |n.processes| && n.processes[i] == w.processes[i]
    requires Sound(w, i) && Extends(w, n)
    ensures Sound(n, i)
  {
  }

  lemma {:induction false} StepExtends(w: World, e: Event)
    requires Inv(w)
    ensures Extends(w, Step(w, e))
  {
    hide HasParent, Sound;
  }

  lemma {:induction false} LstatIsSound(w: World, i: nat)
    requires Inv(w) && Able(w, i, Inspect)
    ensures Sound(Step(w, Lstat(i)), i)
  {
    var p := w.processes[i];
    assert Sound(w, i);
    assert p.Output()[..|p.root| + p.index + 1] == p.Current();
    LastIsOutput(p.root, p.segments, p.index);
  }

  lemma {:induction false} MkdirIsSound(w: World, i: nat)
    requires Inv(w) && Able(w, i, Create)
    ensures Sound(Step(w, Mkdir(i)), i)
  {
    var p := w.processes[i];
    assert Sound(w, i);
    if p.Current() in w.entries {
      hide At, IsDirectory;
    } else if HasParent(w.entries, p.Current()) {
      StepExtends(w, Mkdir(i));
      CreationIsSound(w, i);
    } else {
      hide HasParent, Sound;
      assert Step(w, Mkdir(i)) == Step(w, Fault(i));
      FaultIsSound(w, i);
    }
  }

  lemma {:induction false} CreationIsSound(w: World, i: nat)
    requires Able(w, i, Create) && w.processes[i].Current() !in w.entries
    requires HasParent(w.entries, w.processes[i].Current())
    requires Sound(w, i) && Extends(w, Step(w, Mkdir(i)))
    ensures Sound(Step(w, Mkdir(i)), i)
  {
    hide HasParent;
    var p := w.processes[i];
    LastIsOutput(p.root, p.segments, p.index);
  }

  lemma {:induction false} StepKeepsInv(w: World, e: Event)
    requires Inv(w)
    ensures Inv(Step(w, e))
  {
    hide Sound, HasParent, At;
    var n := Step(w, e);
    StepExtends(w, e);
    forall i | 0 <= i < |n.processes|
      ensures Sound(n, i)
    {
      if i < |w.processes| && n.processes[i] == w.processes[i] {
        SoundStays(w, n, i);
      } else {
        match e {
          case Begin(root, segments) => BeginIsSound(w, root, segments);
          case Lstat(j) => LstatIsSound(w, i);
          case Mkdir(j) => MkdirIsSound(w, i);
          case Fault(j) => FaultIsSound(w, i);
          case SomebodyCreates(_, _) =>
        }
      }
    }
  }

  lemma {:induction false} BeginIsSound(w: World, root: Path, segments: Path)
    requires segments != []
    ensures Sound(Step(w, Begin(root, segments)), |w.processes|)
  {
  }

  lemma {:induction false} FaultIsSound(w: World, i: nat)
    requires i < |w.processes| && Sound(w, i) && w.processes[i].Running()
    ensures Sound(Step(w, Fault(i)), i)
  {
  }

  lemma {:induction false} ExecKeepsInv(w: World, events: seq<Event>)
    requires Inv(w)
    ensures Inv(Exec(w, events))
  {
    if events != [] {
      ExecKeepsInv(w, events[..|events| - 1]);
      StepKeepsInv(Exec(w, events[..|events| - 1]), events[|events| - 1]);
    }
  }

  /** Exclusive reservation, for every interleaving: a process that returns has itself created its
      last segment and stands on real directories all the way; two processes that return reserved
      different directories; and no segment takes a third pass. */
  lemma {:induction false} ReservationIsExclusive(entries: map<Path, Kind>, events: seq<Event>)
    ensures var w := Exec(Empty(entries), events);
            && (forall i :: 0 <= i < |w.processes| && w.processes[i].phase == Returned ==>
                  && w.processes[i].Output() in w.owner && w.owner[w.processes[i].Output()] == i
                  && forall k :: 0 <= k < |w.processes[i].segments| ==>
                       IsDirectory(w.entries, At(w.processes[i].root, w.processes[i].segments, k)))
            && (forall i, j :: 0 <= i < j < |w.processes|
                  && w.processes[i].phase == Returned && w.processes[j].phase == Returned
                  ==> w.processes[i].Output() != w.processes[j].Output())
            && (forall i :: 0 <= i < |w.processes| && w.processes[i].Running() ==> w.processes[i].passes <= 2)
  {
    ExecKeepsInv(Empty(entries), events);
    var w := Exec(Empty(entries), events);
    hide Exec;
    forall i | 0 <= i < |w.processes|
      ensures Sound(w, i)
      ensures w.processes[i].Running() ==> w.processes[i].passes <= 2
    {
    }
  }

  /** What is there already cannot be reserved. */
  lemma {:induction false} OwnersAreNew(entries: map<Path, Kind>, events: seq<Event>)
    ensures var w := Exec(Empty(entries), events);
            && (forall q :: q in w.owner ==> q !in entries)
            && (forall q :: q in entries ==> q in w.entries)
  {
    if events != [] {
      OwnersAreNew(entries, events[..|events| - 1]);
      ExecKeepsInv(Empty(entries), events[..|events| - 1]);
    }
  }

  // ---------------------------------------------------------------------------------------
  // Nobody fails without a reason

  /** A process that is about to create a segment has its parent. */
  lemma {:induction false} ParentIsThere(w: World, p: Process)
    requires RootIsThere(w.entries, p.root) && p.index < |p.segments|
    requires forall k :: 0 <= k < p.index ==> IsDirectory(w.entries, At(p.root, p.segments, k))
    ensures HasParent(w.entries, p.Current())
  {
    var path := p.Current();
    if p.index == 0 {
      assert path[..|path| - 1] == p.root;
    } else {
      assert path[..|path| - 1] == At(p.root, p.segments, p.index - 1);
    }
  }

  lemma {:induction false} ExecGrows(entries: map<Path, Kind>, events: seq<Event>)
    ensures Grew(entries, Exec(Empty(entries), events).entries)
  {
    if events != [] {
      hide Step;
      ExecGrows(entries, events[..|events| - 1]);
      ExecKeepsInv(Empty(entries), events[..|events| - 1]);
      StepExtends(Exec(Empty(entries), events[..|events| - 1]), events[|events| - 1]);
    }
  }

  /** A step on which a process fails with a system error is a fault, or there is no root. */
  lemma {:induction false} StepFails(w: World, e: Event, i: nat)
    requires Inv(w) && i < |w.processes| && w.processes[i].phase != Failed(SystemError)
    requires Step(w, e).processes[i].phase == Failed(SystemError)
    ensures e == Fault(i) || !RootIsThere(w.entries, w.processes[i].root)
    ensures Step(w, e).processes[i].root == w.processes[i].root
  {
    if e == Mkdir(i) && RootIsThere(w.entries, w.processes[i].root) {
      assert Sound(w, i);
      ParentIsThere(w, w.processes[i]);
    }
  }

  lemma {:induction false} SystemErrorsAreFaults(entries: map<Path, Kind>, events: seq<Event>, i: nat)
    ensures var w := Exec(Empty(entries), events);
            i < |w.processes| && w.processes[i].phase == Failed(SystemError) ==>
              Fault(i) in events || !RootIsThere(entries, w.processes[i].root)
  {
    if events != [] {
      hide Step, Inv;
      var n := |events| - 1;
      var before, e := Exec(Empty(entries), events[..n]), events[n];
      SystemErrorsAreFaults(entries, events[..n], i);
      ExecKeepsInv(Empty(entries), events[..n]);
      ExecGrows(entries, events[..n]);
      var w := Step(before, e);
      assert w == Exec(Empty(entries), events) && e in events;
      hide Exec;
      if i < |w.processes| && w.processes[i].phase == Failed(SystemError) {
        assert i < |before.processes|;
        if before.processes[i].phase != Failed(SystemError) {
          StepFails(before, e, i);
        }
      }
    }
  }

  /** For every interleaving: a process that fails with a system error had a fault, or its root was no
      directory to begin with; one that fails otherwise came past directories to what its error names. */
  lemma {:induction false} FailuresHaveReasons(entries: map<Path, Kind>, events: seq<Event>, i: nat)
    requires i < |Exec(Empty(entries), events).processes|
    requires Exec(Empty(entries), events).processes[i].phase.Failed?
    ensures var w := Exec(Empty(entries), events);
            var p := w.processes[i];
            if p.phase.error == SystemError then Fault(i) in events || !RootIsThere(entries, p.root)
            else exists n :: WalkStopsAt(w.entries, p.root, p.Output(), n, p.phase.error)
  {
    var w := Exec(Empty(entries), events);
    SystemErrorsAreFaults(entries, events, i);
    ExecKeepsInv(Empty(entries), events);
    hide Exec;
    var p := w.processes[i];
    assert Sound(w, i);
    if p.phase.error != SystemError {
      var n := |p.root| + p.index + 1;
      forall m | |p.root| < m < n
        ensures IsDirectory(w.entries, p.Output()[..m])
      {
        assert p.Output()[..m] == At(p.root, p.segments, m - |p.root| - 1);
      }
      assert WalkStopsAt(w.entries, p.root, p.Output(), n, p.phase.error);
    }
  }

  // ---------------------------------------------------------------------------------------
  // Everybody finishes

  /** How many more steps a process can take: four for each segment, fewer on the second pass. */
  function StepsLeft(p: Process): int {
    if !p.Running() then 0
    else 4 * (|p.segments| - p.index) - 2 * (p.passes - 1) - (if p.phase == Create then 1 else 0)
  }

  /** The step a running process takes next. */
  function NextStep(p: Process, i: nat): Event {
    if p.phase == Inspect then Lstat(i) else Mkdir(i)
  }

  lemma {:induction false} StepsLeftIsPositive(w: World, i: nat)
    requires Inv(w) && i < |w.processes|
    ensures 0 <= StepsLeft(w.processes[i]) <= 4 * |w.processes[i].segments|
    ensures w.processes[i].Running() ==> StepsLeft(w.processes[i]) > 0
  {
    assert Sound(w, i);
  }

  lemma {:induction false} LstatGoesDown(w: World, p: Process)
    requires p.phase == Inspect && p.index < |p.segments| && 1 <= p.passes <= 2
    ensures StepsLeft(OnLstat(w, p)) < StepsLeft(p)
  {
    hide IsDirectory, At;
  }

  lemma {:induction false} MkdirGoesDown(p: Process)
    requires p.phase == Create && p.index < |p.segments| && p.passes == 1
    ensures StepsLeft(p.(passes := 2, phase := Inspect)) < StepsLeft(p)
    ensures StepsLeft(p.(phase := Failed(SystemError))) < StepsLeft(p)
    ensures StepsLeft(p.Advanced()) < StepsLeft(p)
  {
  }

  lemma {:induction false} InRange(w: World, i: nat)
    requires Inv(w) && i < |w.processes| && w.processes[i].Running()
    ensures var p := w.processes[i];
            p.index < |p.segments| && 1 <= p.passes <= 2 && (p.phase == Create ==> p.passes == 1)
  {
    assert Sound(w, i);
  }

  /** A step of its own brings a process closer to its end; the others do not hold it up. */
  lemma {:induction false} StepsGoDown(w: World, i: nat, e: Event)
    requires Inv(w) && i < |w.processes|
    ensures i < |Step(w, e).processes|
    ensures var p, n := w.processes[i], Step(w, e).processes[i];
            && (n == p || StepsLeft(n) < StepsLeft(p))
            && (p.Running() && e == NextStep(p, i) ==> StepsLeft(n) < StepsLeft(p))
  {
    var p := w.processes[i];
    StepsLeftIsPositive(w, i);
    if p.Running() {
      InRange(w, i);
      if p.phase == Inspect {
        LstatGoesDown(w, p);
      } else {
        MkdirGoesDown(p);
      }
    }
    hide HasParent, OnLstat, Inv;
    assert !Failed(SystemError).Inspect? && StepsLeft(p.(phase := Failed(SystemError))) == 0;
    hide StepsLeft;
  }

  /** Every turn has the process take both kinds of step, somewhere among other events. */
  ghost predicate IsTurn(turn: seq<Event>, i: nat) {
    Lstat(i) in turn && Mkdir(i) in turn
  }

  lemma {:induction false} ExecConcat(w: World, earlier: seq<Event>, later: seq<Event>)
    ensures Exec(w, earlier + later) == Exec(Exec(w, earlier), later)
  {
    hide Step;
    if later == [] {
      assert earlier + later == earlier;
    } else {
      var n := |later| - 1;
      assert (earlier + later)[..|earlier| + n] == earlier + later[..n];
      ExecConcat(w, earlier, later[..n]);
    }
  }

  /** After some events the process is where it was, and none of them was its next step, or it is closer
      to its end. */
  lemma {:induction false} TurnGoesDown(w: World, i: nat, turn: seq<Event>)
    requires Inv(w) && i < |w.processes|
    ensures Inv(Exec(w, turn)) && i < |Exec(w, turn).processes|
    ensures var p, n := w.processes[i], Exec(w, turn).processes[i];
            StepsLeft(n) < StepsLeft(p) || (n == p && (p.Running() ==> NextStep(p, i) !in turn))
  {
    ExecKeepsInv(w, turn);
    if turn != [] {
      var n := |turn| - 1;
      TurnGoesDown(w, i, turn[..n]);
      ExecKeepsInv(w, turn[..n]);
      StepsGoDown(Exec(w, turn[..n]), i, turn[n]);
      assert turn == turn[..n] + [turn[n]];
      hide Step, Inv, StepsLeft, NextStep;
    }
  }

  lemma {:induction false} TurnsGoDown(w: World, i: nat, turns: seq<seq<Event>>)
    requires Inv(w) && i < |w.processes|
    requires forall t :: 0 <= t < |turns| ==> IsTurn(turns[t], i)
    ensures var n := Exec(w, Flatten(turns));
            && Inv(n) && i < |n.processes|
            && (!n.processes[i].Running() || StepsLeft(n.processes[i]) <= StepsLeft(w.processes[i]) - |turns|)
    decreases |turns|
  {
    hide StepsLeft, Step, Inv, Exec, NextStep, IsTurn;
    if turns == [] {
      NothingHappens(w, turns);
    } else {
      var fewer, last := turns[..|turns| - 1], turns[|turns| - 1];
      TurnsGoDown(w, i, fewer);
      FlattenLast(turns);
      ExecConcat(w, Flatten(fewer), last);
      var n := Exec(w, Flatten(fewer));
      TurnGoesDown(n, i, last);
      if n.processes[i].Running() {
        HasNextStep(n.processes[i], i, last);
      } else {
        FinishedStays(n, i, last);
      }
    }
  }

  lemma {:induction false} NothingHappens(w: World, turns: seq<seq<Event>>)
    requires turns == []
    ensures Exec(w, Flatten(turns)) == w
  {
  }

  lemma {:induction false} HasNextStep(p: Process, i: nat, turn: seq<Event>)
    requires IsTurn(turn, i)
    ensures NextStep(p, i) in turn
  {
  }

  /** A process that gets its turn again and again finishes, whatever the others do, after four turns for
      each segment at the latest. */
  lemma {:induction false} EverybodyFinishes(w: World, i: nat, turns: seq<seq<Event>>)
    requires Inv(w) && i < |w.processes|
    requires forall t :: 0 <= t < |turns| ==> IsTurn(turns[t], i)
    requires |turns| >= 4 * |w.processes[i].segments|
    ensures i < |Exec(w, Flatten(turns)).processes| && !Exec(w, Flatten(turns)).processes[i].Running()
  {
    TurnsGoDown(w, i, turns);
    StepsLeftIsPositive(w, i);
    StepsLeftIsPositive(Exec(w, Flatten(turns)), i);
  }

  lemma {:induction false} FinishedStays(w: World, i: nat, events: seq<Event>)
    requires i < |w.processes| && !w.processes[i].Running()
    ensures i < |Exec(w, events).processes| && Exec(w, events).processes[i] == w.processes[i]
  {
    if events != [] {
      FinishedStays(w, i, events[..|events| - 1]);
    }
  }

  // ---------------------------------------------------------------------------------------
  // Somebody wins

  /** The root is a directory, and so is what exists of the parents below it. */
  predicate OpenWay(entries: map<Path, Kind>, root: Path, segments: Path) {
    RootIsThere(entries, root)
    && forall k :: 0 <= k < |segments| - 1 && At(root, segments, k) in entries ==>
              IsDirectory(entries, At(root, segments, k))
  }

  /** All processes want the same output and its parents, as far as they exist, are directories. */
  ghost predicate Contest(w: World, root: Path, segments: Path) {
    && (forall i :: 0 <= i < |w.processes| ==> w.processes[i].root == root && w.processes[i].segments == segments)
    && OpenWay(w.entries, root, segments)
    && (root + segments in w.entries ==>
          && w.entries[root + segments] == Directory
          && root + segments in w.owner
          && w.owner[root + segments] < |w.processes|
          && w.processes[w.owner[root + segments]].phase == Returned)
    && (forall i :: 0 <= i < |w.processes| && w.processes[i].phase.Failed?
          ==> w.processes[i].phase.error == AlreadyExists && root + segments in w.entries)
  }

  predicate Ordinary(e: Event, root: Path, segments: Path) {
    e.Lstat? || e.Mkdir? || e == Begin(root, segments)
  }

  lemma {:induction false} LstatKeepsContest(w: World, i: nat, root: Path, segments: Path)
    requires Inv(w) && Contest(w, root, segments) && segments != []
    ensures Contest(Step(w, Lstat(i)), root, segments)
  {
    if Able(w, i, Inspect) {
      var p := w.processes[i];
      assert Sound(w, i);
      LastIsOutput(root, segments, p.index);
    }
  }

  lemma {:induction false} MkdirKeepsContest(w: World, i: nat, root: Path, segments: Path)
    requires Inv(w) && Contest(w, root, segments) && segments != []
    ensures Contest(Step(w, Mkdir(i)), root, segments)
  {
    if Able(w, i, Create) {
      var p := w.processes[i];
      assert Sound(w, i);
      ParentIsThere(w, p);
      LastIsOutput(root, segments, p.index);
    }
  }

  lemma {:induction false} ExecKeepsContest(w: World, events: seq<Event>, root: Path, segments: Path)
    requires Inv(w) && Contest(w, root, segments) && segments != []
    requires forall e :: e in events ==> Ordinary(e, root, segments)
    ensures Contest(Exec(w, events), root, segments)
  {
    if events != [] {
      var before, e := events[..|events| - 1], events[|events| - 1];
      assert e in events;
      ExecKeepsInv(w, before);
      ExecKeepsContest(w, before, root, segments);
      match e {
        case Lstat(i) => LstatKeepsContest(Exec(w, before), i, root, segments);
        case Mkdir(i) => MkdirKeepsContest(Exec(w, before), i, root, segments);
        case _ =>
      }
    }
  }

  /** If the root is a directory, the output is free, its existing parents are directories, and only these
      processes touch the file system, without faults, then once all of them have finished one has returned. */
  lemma {:induction false} SomebodyWins(entries: map<Path, Kind>, events: seq<Event>, root: Path, segments: Path)
    requires segments != [] && root + segments !in entries
    requires OpenWay(entries, root, segments)
    requires forall e :: e in events ==> Ordinary(e, root, segments)
    requires var w := Exec(Empty(entries), events);
             w.processes != [] && forall i :: 0 <= i < |w.processes| ==> !w.processes[i].Running()
    ensures var w := Exec(Empty(entries), events);
            exists i :: 0 <= i < |w.processes| && w.processes[i].phase == Returned
  {
    ExecKeepsContest(Empty(entries), events, root, segments);
    var w := Exec(Empty(entries), events);
    assert !w.processes[0].Running();
    if w.processes[0].phase.Failed? {
      assert w.processes[w.owner[root + segments]].phase == Returned;
    }
  }
}
