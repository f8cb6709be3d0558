/**
 * Extraction as other processes see it: a staging folder beside the destination, filled entry by entry,
 * then moved into place. Any step can fail, and others may add to the disk between any two steps.
 */
module BackupInstall {
  import opened Results
  import opened Text
  import opened ArchivePaths
  import opened BackupWalk
  import opened BackupArchive

  // ----- What one archive unpacks to, on its own -----

  const BARE: Files := map[[] := Folder]

  function Unpacked(entries: seq<TarEntry>, windows: bool): Outcome {
    TakeAll(BARE, entries, Some([]), windows)
  }

  /** A folder of a disk holds exactly a tree, its root included. */
  ghost predicate Holds(nodes: Files, at: Path, tree: Files) {
    && (forall x | at <= x :: x in nodes <==> x[|at|..] in tree)
    && (forall x | at <= x && x in nodes :: nodes[x] == tree[x[|at|..]])
  }

  ghost predicate Underway(nodes: Files, at: Path, tree: Files) {
    && Grounded(nodes) && Canonical(at) && at in nodes && nodes[at] == Folder
    && Holds(nodes, at, tree)
  }

  lemma SplitPrefix(at: Path, p: Path, x: Path)
    requires x <= at + p
    ensures at <= x ==> x[|at|..] <= p
    ensures !(at <= x) ==> x < at
  {
    if |x| >= |at| {
      assert x[..|at|] == (at + p)[..|at|] == at;
    } else {
      assert x == (at + p)[..|x|] == at[..|x|];
    }
  }

  lemma JoinPrefix(at: Path, p: Path, q: Path)
    ensures q <= p <==> at + q <= at + p
    ensures at <= at + q && (at + q)[|at|..] == q
  {
    if at + q <= at + p {
      assert q == (at + q)[|at|..] == (at + p)[..|at + q|][|at|..] == p[..|q|];
    }
  }

  lemma BlockedAlike(nodes: Files, at: Path, tree: Files, p: Path)
    requires Underway(nodes, at, tree)
    ensures Blocked(nodes, at + p) <==> Blocked(tree, p)
  {
    if Blocked(nodes, at + p) {
      var x :| x in Prefixes(at + p) && x in nodes && nodes[x].File?;
      SplitPrefix(at, p, x);
      if !(at <= x) { AncestorOf(nodes, at, x); }
      assert x[|at|..] in Prefixes(p);
    }
    if Blocked(tree, p) {
      var q :| q in Prefixes(p) && q in tree && tree[q].File?;
      JoinPrefix(at, p, q);
      assert at + q in Prefixes(at + p);
    }
  }

  lemma FoldersHold(nodes: Files, at: Path, tree: Files, p: Path)
    requires Holds(nodes, at, tree)
    ensures Holds(WithFolders(nodes, at + p), at, WithFolders(tree, p))
  {
    forall x | at <= x
      ensures x <= at + p <==> x[|at|..] <= p
    {
      assert x == at + x[|at|..];
      JoinPrefix(at, p, x[|at|..]);
    }
  }

  lemma FoldersAlike(nodes: Files, at: Path, tree: Files, p: Path)
    requires Underway(nodes, at, tree) && !Blocked(nodes, at + p)
    ensures Underway(WithFolders(nodes, at + p), at, WithFolders(tree, p))
  {
    hide Blocked, Holds, Prefixes;
    FoldersStayInside(nodes, at, at + p);
    FoldersHold(nodes, at, tree, p);
    hide Grounded;
  }

  lemma FileHolds(nodes: Files, at: Path, tree: Files, p: Path, node: Node)
    requires Holds(nodes, at, tree) && at + p !in nodes
    ensures p !in tree && Holds(nodes[at + p := node], at, tree[p := node])
  {
    JoinPrefix(at, p, p);
    forall x | at <= x && x[|at|..] == p ensures x == at + p {
      assert x == at + x[|at|..];
    }
  }

  lemma FileAlike(nodes: Files, at: Path, tree: Files, p: Path, node: Node)
    requires Underway(nodes, at, tree) && p != [] && at + p !in nodes
    requires at + p[..|p| - 1] in nodes && nodes[at + p[..|p| - 1]] == Folder
    ensures p !in tree && Underway(nodes[at + p := node], at, tree[p := node])
  {
    hide Holds, Grounded;
    assert (at + p)[..|at + p| - 1] == at + p[..|p| - 1];
    FileStaysGrounded(nodes, at + p, node);
    FileHolds(nodes, at, tree, p, node);
  }

  lemma DirectoryAlike(nodes: Files, at: Path, tree: Files, p: Path)
    requires Underway(nodes, at, tree)
    ensures TakeDirectory(nodes, at + p).result.Ok? <==> TakeDirectory(tree, p).result.Ok?
    ensures Underway(TakeDirectory(nodes, at + p).nodes, at, TakeDirectory(tree, p).nodes)
  {
    BlockedAlike(nodes, at, tree, p);
    if !Blocked(nodes, at + p) { FoldersAlike(nodes, at, tree, p); }
    hide Blocked, Underway, WithFolders;
  }

  lemma NewFileAlike(nodes: Files, at: Path, tree: Files, p: Path, data: seq<byte>)
    requires Underway(nodes, at, tree) && p != []
    ensures TakeFile(nodes, at + p, data).result.Ok? <==> TakeFile(tree, p, data).result.Ok?
    ensures Underway(TakeFile(nodes, at + p, data).nodes, at, TakeFile(tree, p, data).nodes)
  {
    var up := p[..|p| - 1];
    assert (at + p)[..|at + p| - 1] == at + up;
    BlockedAlike(nodes, at, tree, up);
    if !Blocked(nodes, at + up) {
      FoldersAlike(nodes, at, tree, up);
      FoldersStayInside(nodes, at, at + up);
      var made := WithFolders(nodes, at + up);
      JoinPrefix(at, p, p);
      assert at + p in made <==> p in WithFolders(tree, up);
      if at + p !in made {
        FileAlike(made, at, WithFolders(tree, up), p, File(data));
      }
    }
    hide Blocked, Underway, WithFolders, Grounded, Confined, Holds;
  }

  /** Taking an entry does the same thing wherever the folder is, and whatever else is on the disk. */
  lemma TakeAlike(nodes: Files, at: Path, tree: Files, entry: TarEntry, windows: bool)
    requires Underway(nodes, at, tree)
    ensures var there, here := Take(nodes, entry, Some(at), windows), Take(tree, entry, Some([]), windows);
            (there.result.Ok? <==> here.result.Ok?) && Underway(there.nodes, at, here.nodes)
  {
    TargetExactly(entry.name, at, windows);
    TargetExactly(entry.name, [], windows);
    hide TargetFor;
    var p := Segments(entry.name);
    assert [] + p == p;
    hide Segments;
    if TargetFor(entry.name, Some(at), windows).Ok? && !entry.kind.Unsupported? {
      TakeTo(nodes, entry, at, windows, at + p);
      TakeTo(tree, entry, [], windows, p);
      DirectoryAlike(nodes, at, tree, p);
      NewFileAlike(nodes, at, tree, p, entry.data);
      hide Take, TakeDirectory, TakeFile, Underway;
    }
  }

  lemma {:induction false} UnpackedStep(tree: Files, entries: seq<TarEntry>, i: nat, windows: bool)
    requires i < |entries| && TakeAll(tree, entries[..i], Some([]), windows).result.Ok?
    ensures var sofar := TakeAll(tree, entries[..i], Some([]), windows);
            var next := Take(sofar.nodes, entries[i], Some([]), windows);
            var more := TakeAll(tree, entries[..i + 1], Some([]), windows);
            more.nodes == next.nodes && (more.result.Ok? <==> next.result.Ok?)
    decreases i
  {
    hide Take, Summary.Plus;
    var first := Take(tree, entries[0], Some([]), windows);
    if i == 0 {
      assert entries[..1][1..] == [];
    } else {
      assert entries[..i][1..] == entries[1..][..i - 1];
      assert entries[..i + 1][1..] == entries[1..][..i];
      UnpackedStep(first.nodes, entries[1..], i - 1, windows);
    }
  }

  // ----- The protocol -----

  /**
   * Occupied before anything is staged; nothing could be staged; not opened and cleaned up, or not opened and stranded;
   * occupied when everything is staged; an empty folder not cleared away; not moved.
   */
  datatype Why = Occupied | NotStaged | CleanedUp | Stranded | OccupiedMeanwhile | NotCleared | NotMoved

  datatype Phase =
    | Starting
    | Checked
    | Opening(taken: nat)
    | Forgetting
    | Opened
    | Committing
    | Clearing
    | Moving
    | Installed
    | Refused(why: Why)

  datatype Job = Job(entries: seq<TarEntry>, final: Path, suffix: string, windows: bool) {
    /** The destination's own name with a suffix; for the filesystem root, the suffix alone. */
    function Staging(): Path {
      if final == [] then [suffix]
      else final[..|final| - 1] + [final[|final| - 1] + suffix]
    }
  }

  /** `theirs` is what was on the disk at the start and everything others have added since. */
  datatype State = State(phase: Phase, nodes: Files, theirs: Files)

  ghost predicate Occupying(nodes: Files, at: Path) {
    at in nodes && nodes[at] == Folder && exists x | x in nodes :: at < x
  }

  ghost predicate SameOutside(a: Files, b: Files, at: Path) {
    forall x | !(at <= x) :: (x in a <==> x in b) && (x in a ==> a[x] == b[x])
  }

  function Without(nodes: Files, at: Path): (r: Files)
    ensures forall x :: x in r <==> x in nodes && !(at <= x)
    ensures forall x | x in r :: r[x] == nodes[x]
  {
    map x | x in nodes && !(at <= x) :: nodes[x]
  }

  /** rename(2): the tree at one path is at the other, and nothing else changes. */
  ghost predicate Renamed(before: Files, after: Files, from: Path, to: Path) {
    && (forall x | to <= x :: x in after <==> from + x[|to|..] in before)
    && (forall x | to <= x && x in after :: after[x] == before[from + x[|to|..]])
    && (forall x | !(to <= x) :: x in after <==> x in before && !(from <= x))
    && (forall x | !(to <= x) && x in after :: after[x] == before[x])
  }

  ghost predicate OthersAdd(s: State, t: State, job: Job, added: Files) {
    && (forall x | x in added :: x !in s.nodes && !(job.Staging() <= x))
    && Grounded(s.nodes + added)
    && t == State(s.phase, s.nodes + added, s.theirs + added)
  }

  predicate HasFolder(nodes: Files, at: Path) { at in nodes && nodes[at] == Folder }

  /**
   * Checking, staging and opening. A failed read may leave anything inside the staging folder, and so may a failed
   * cleanup; neither takes the folder itself away.
   */
  ghost predicate Opens(s: State, t: State, job: Job, ok: bool) {
    match s.phase
    case Starting =>
      t == if Occupying(s.nodes, job.final) then s.(phase := Refused(Occupied)) else s.(phase := Checked)
    case Checked =>
      t == if ok && !Blocked(s.nodes, job.Staging())
           then s.(phase := Opening(0), nodes := WithFolders(s.nodes, job.Staging()))
           else s.(phase := Refused(NotStaged))
    case Opening(i) =>
      if i < |job.entries| && ok then
        Canonical(job.Staging()) &&
        var taken := Take(s.nodes, job.entries[i], Some(job.Staging()), job.windows);
        t == State(if taken.result.Ok? then Opening(i + 1) else Forgetting, taken.nodes, s.theirs)
      else if ok then
        t == s.(phase := Opened)
      else
        && t.phase == Forgetting && t.theirs == s.theirs
        && SameOutside(s.nodes, t.nodes, job.Staging()) && Grounded(t.nodes) && HasFolder(t.nodes, job.Staging())
    case Forgetting =>
      if ok then
        t == State(Refused(CleanedUp), Without(s.nodes, job.Staging()), s.theirs)
      else
        && t.phase == Refused(Stranded) && t.theirs == s.theirs
        && SameOutside(s.nodes, t.nodes, job.Staging()) && Grounded(t.nodes) && HasFolder(t.nodes, job.Staging())
    case _ => false
  }

  /** Checking again, clearing an empty folder out of the way, and the move. */
  ghost predicate Commits(s: State, t: State, job: Job, ok: bool) {
    match s.phase
    case Opened =>
      t == if Occupying(s.nodes, job.final) then s.(phase := Refused(OccupiedMeanwhile)) else s.(phase := Committing)
    case Committing =>
      t == if job.final in s.nodes && s.nodes[job.final] == Folder then s.(phase := Clearing) else s.(phase := Moving)
    case Clearing =>
      t == if ok && job.final in s.nodes && s.nodes[job.final] == Folder && !Occupying(s.nodes, job.final)
           then s.(phase := Moving, nodes := s.nodes - {job.final})
           else s.(phase := Refused(NotCleared))
    case Moving =>
      if ok && job.final !in s.nodes then
        t.phase == Installed && t.theirs == s.theirs && Renamed(s.nodes, t.nodes, job.Staging(), job.final)
      else
        t == s.(phase := Refused(NotMoved))
    case _ => false
  }

  ghost predicate Next(s: State, t: State, job: Job) {
    || (exists added :: OthersAdd(s, t, job, added))
    || (exists ok :: Opens(s, t, job, ok))
    || (exists ok :: Commits(s, t, job, ok))
  }

  ghost predicate Begins(s: State, job: Job) {
    && s.phase == Starting && s.theirs == s.nodes
    && Grounded(s.nodes) && [] in s.nodes && s.nodes[[]] == Folder
    && Canonical(job.final) && Canonical(job.Staging()) && job.suffix != ""
    && forall x | job.Staging() <= x :: x !in s.nodes
  }

  ghost predicate Reaches(run: seq<State>, job: Job) {
    && run != [] && Begins(run[0], job)
    && forall i | 0 <= i < |run| - 1 :: Next(run[i], run[i + 1], job)
  }

  // ----- What every step keeps -----

  lemma Beside(job: Job, x: Path)
    requires job.final != [] && job.suffix != ""
    ensures !(job.final <= x && job.Staging() <= x)
    ensures x <= job.Staging() ==> !(job.final <= x)
    ensures x <= job.final ==> !(job.Staging() <= x)
  {
    var f, g := job.final, job.Staging();
    var n := |f| - 1;
    assert |f| == |g| && f[n] != g[n];
    if f <= x { assert x[n] == f[n]; }
    if g <= x { assert x[n] == g[n]; }
  }

  /** Outside the staging folder, and until the move, the disk is theirs: plus its parents, less one empty folder. */
  ghost predicate OnlyTheirs(nodes: Files, theirs: Files, final: Path, staging: Path, lost: bool) {
    && (forall x | x in nodes && !(staging <= x) :: (x in theirs && nodes[x] == theirs[x]) || x < staging)
    && (forall x | x in theirs ::
          (x in nodes && nodes[x] == theirs[x]) || (lost && x == final && theirs[x] == Folder && x !in nodes))
    && (forall x | x in theirs :: !(staging <= x))
  }

  ghost predicate StagingIs(phase: Phase, nodes: Files, job: Job) {
    match phase
    case Starting => NothingAt(nodes, job.Staging())
    case Checked => NothingAt(nodes, job.Staging())
    case Opening(i) => i <= |job.entries| && Filled(nodes, job, job.entries[..i])
    case Forgetting => HasFolder(nodes, job.Staging())
    case Refused(Stranded) => HasFolder(nodes, job.Staging())
    case Refused(Occupied) => NothingAt(nodes, job.Staging())
    case Refused(NotStaged) => NothingAt(nodes, job.Staging())
    case Refused(CleanedUp) => NothingAt(nodes, job.Staging())
    case _ => Filled(nodes, job, job.entries)
  }

  ghost predicate NothingAt(nodes: Files, at: Path) {
    forall x | at <= x :: x !in nodes
  }

  ghost predicate Filled(nodes: Files, job: Job, entries: seq<TarEntry>) {
    && Unpacked(entries, job.windows).result.Ok?
    && Underway(nodes, job.Staging(), Unpacked(entries, job.windows).nodes)
  }

  /**
   * After the move: the whole tree is there, whatever else there is below it is theirs, and nothing of theirs is
   * gone.
   */
  ghost predicate InPlace(nodes: Files, theirs: Files, final: Path, staging: Path, tree: Files) {
    && (forall x | final <= x && x[|final|..] in tree :: x in nodes && nodes[x] == tree[x[|final|..]])
    && (forall x | x in nodes && final <= x :: x[|final|..] in tree || (x in theirs && nodes[x] == theirs[x]))
    && (forall x | x in theirs :: x in nodes && nodes[x] == theirs[x])
    && NothingAt(nodes, staging)
  }

  predicate MayHaveLost(phase: Phase) {
    phase.Moving? || phase == Refused(NotMoved)
  }

  ghost predicate Proper(job: Job) {
    Canonical(job.final) && Canonical(job.Staging()) && job.suffix != "" && job.final != []
  }

  ghost predicate Based(nodes: Files) {
    Grounded(nodes) && [] in nodes && nodes[[]] == Folder
  }

  ghost predicate Safe(s: State, job: Job) {
    && Based(s.nodes)
    && if s.phase.Installed? then
         && Unpacked(job.entries, job.windows).result.Ok?
         && InPlace(s.nodes, s.theirs, job.final, job.Staging(), Unpacked(job.entries, job.windows).nodes)
       else
         && OnlyTheirs(s.nodes, s.theirs, job.final, job.Staging(), MayHaveLost(s.phase))
         && StagingIs(s.phase, s.nodes, job)
  }

  // Others

  lemma FilledDependsOnStaging(a: Files, b: Files, job: Job, entries: seq<TarEntry>)
    requires Filled(a, job, entries) && Grounded(b)
    requires forall x | job.Staging() <= x :: (x in b <==> x in a) && (x in a ==> b[x] == a[x])
    ensures Filled(b, job, entries)
  {
    hide Unpacked, Grounded, Canonical, Job.Staging;
    assert job.Staging() <= job.Staging();
  }

  lemma OthersAddOnlyTheirs(nodes: Files, theirs: Files, added: Files, final: Path, staging: Path, lost: bool)
    requires OnlyTheirs(nodes, theirs, final, staging, lost)
    requires forall x | x in added :: x !in nodes && !(staging <= x)
    ensures OnlyTheirs(nodes + added, theirs + added, final, staging, lost)
  {
  }

  lemma OthersAddInPlace(nodes: Files, theirs: Files, added: Files, final: Path, staging: Path, tree: Files)
    requires InPlace(nodes, theirs, final, staging, tree)
    requires forall x | x in added :: x !in nodes && !(staging <= x)
    ensures InPlace(nodes + added, theirs + added, final, staging, tree)
  {
  }

  lemma OthersKeepSafe(s: State, t: State, job: Job, added: Files)
    requires Safe(s, job) && Proper(job) && OthersAdd(s, t, job, added)
    ensures Safe(t, job)
  {
    hide Unpacked, Grounded, Canonical, OnlyTheirs, InPlace, Filled, Job.Staging;
    if s.phase.Installed? {
      OthersAddInPlace(s.nodes, s.theirs, added, job.final, job.Staging(), Unpacked(job.entries, job.windows).nodes);
    } else {
      OthersAddOnlyTheirs(s.nodes, s.theirs, added, job.final, job.Staging(), MayHaveLost(s.phase));
      match s.phase
      case Starting =>
      case Checked =>
      case Forgetting =>
      case Refused(Stranded) =>
      case Refused(Occupied) =>
      case Refused(NotStaged) =>
      case Refused(CleanedUp) =>
      case Opening(i) => FilledDependsOnStaging(s.nodes, t.nodes, job, job.entries[..i]);
      case _ => FilledDependsOnStaging(s.nodes, t.nodes, job, job.entries);
    }
  }

  // Checking, staging and opening

  lemma OnlyTheirsOutside(a: Files, b: Files, theirs: Files, final: Path, staging: Path, lost: bool)
    requires OnlyTheirs(a, theirs, final, staging, lost) && SameOutside(a, b, staging)
    ensures OnlyTheirs(b, theirs, final, staging, lost)
  {
  }

  lemma ParentsAreNotTheirs(nodes: Files, theirs: Files, final: Path, staging: Path, lost: bool)
    requires OnlyTheirs(nodes, theirs, final, staging, lost)
    ensures OnlyTheirs(WithFolders(nodes, staging), theirs, final, staging, lost) || lost
  {
  }

  lemma StagingIsBare(nodes: Files, at: Path)
    requires NothingAt(nodes, at)
    ensures Holds(WithFolders(nodes, at), at, BARE)
  {
    forall x | at <= x && x <= at ensures x == at && x[|at|..] == [] {
    }
  }

  lemma StagingStarts(s: State, job: Job)
    requires Safe(s, job) && Proper(job) && s.phase.Checked? && !Blocked(s.nodes, job.Staging())
    ensures Safe(s.(phase := Opening(0), nodes := WithFolders(s.nodes, job.Staging())), job)
  {
    hide Blocked, Grounded, OnlyTheirs, Holds, Job.Staging, Canonical, NothingAt, WithFolders;
    var at := job.Staging();
    var made := WithFolders(s.nodes, at);
    FoldersStayInside(s.nodes, [], at);
    BasedStays(s.nodes, made, []);
    ParentsAreNotTheirs(s.nodes, s.theirs, job.final, at, false);
    StagingIsBare(s.nodes, at);
    assert job.entries[..0] == [];
    UnpackedNone(job.windows);
    hide Confined, Unpacked;
    assert Filled(made, job, []);
  }

  lemma UnpackedNone(windows: bool)
    ensures Unpacked([], windows) == Outcome(BARE, Ok(EMPTY))
  {
  }

  lemma BasedStays(a: Files, b: Files, at: Path)
    requires Based(a) && Confined(a, b, at) && Grounded(b)
    ensures Based(b)
  {
  }

  lemma EntryFills(s: State, job: Job, i: nat)
    requires Proper(job) && i < |job.entries| && Filled(s.nodes, job, job.entries[..i])
    ensures var taken := Take(s.nodes, job.entries[i], Some(job.Staging()), job.windows);
            taken.result.Ok? ==> Filled(taken.nodes, job, job.entries[..i + 1])
  {
    hide Job.Staging, Take, Grounded, Canonical, Holds;
    var tree := Unpacked(job.entries[..i], job.windows).nodes;
    TakeAlike(s.nodes, job.Staging(), tree, job.entries[i], job.windows);
    UnpackedStep(BARE, job.entries, i, job.windows);
    hide TakeAll, Underway;
  }

  lemma ConfinedIsSameOutside(a: Files, b: Files, at: Path)
    requires Confined(a, b, at)
    ensures SameOutside(a, b, at)
  {
  }

  lemma FolderStays(a: Files, b: Files, at: Path)
    requires Confined(a, b, at) && HasFolder(a, at)
    ensures HasFolder(b, at)
  {
  }

  lemma EntryKeepsSafe(s: State, t: State, job: Job, i: nat)
    requires Safe(s, job) && Proper(job) && s.phase == Opening(i) && i < |job.entries|
    requires var taken := Take(s.nodes, job.entries[i], Some(job.Staging()), job.windows);
             t == State(if taken.result.Ok? then Opening(i + 1) else Forgetting, taken.nodes, s.theirs)
    ensures Safe(t, job)
  {
    hide Job.Staging, Take, Unpacked, Grounded, Canonical, Holds, OnlyTheirs, Confined, SameOutside;
    var at := job.Staging();
    EntryFills(s, job, i);
    assert HasFolder(s.nodes, at);
    hide Filled, Underway;
    TakeStaysInside(s.nodes, job.entries[i], at, job.windows);
    BasedStays(s.nodes, t.nodes, at);
    FolderStays(s.nodes, t.nodes, at);
    ConfinedIsSameOutside(s.nodes, t.nodes, at);
    OnlyTheirsOutside(s.nodes, t.nodes, s.theirs, job.final, at, false);
  }

  lemma WithoutIsGrounded(nodes: Files, at: Path)
    requires Based(nodes) && at != []
    ensures Based(Without(nodes, at)) && SameOutside(nodes, Without(nodes, at), at)
  {
    forall x | x in Without(nodes, at) && x != []
      ensures x[..|x| - 1] in Without(nodes, at)
    {
      assert at <= x[..|x| - 1] ==> at <= x;
    }
  }

  lemma OpensKeepsSafe(s: State, t: State, job: Job, ok: bool)
    requires Safe(s, job) && Proper(job) && Opens(s, t, job, ok)
    ensures Safe(t, job)
  {
    hide Unpacked, Grounded, Canonical, OnlyTheirs, InPlace, Filled, Job.Staging, Take, WithFolders, Blocked, Occupying;
    assert job.Staging() != [] by { Beside(job, []); }
    match s.phase
    case Starting =>
    case Checked =>
      if ok && !Blocked(s.nodes, job.Staging()) { StagingStarts(s, job); }
    case Opening(i) =>
      if i < |job.entries| && ok {
        EntryKeepsSafe(s, t, job, i);
      } else if ok {
        assert job.entries[..i] == job.entries;
      } else {
        OnlyTheirsOutside(s.nodes, t.nodes, s.theirs, job.final, job.Staging(), false);
      }
    case Forgetting =>
      WithoutIsGrounded(s.nodes, job.Staging());
      OnlyTheirsOutside(s.nodes, t.nodes, s.theirs, job.final, job.Staging(), false);
    case _ =>
  }

  // The commit

  lemma OneLess(nodes: Files, theirs: Files, final: Path, staging: Path)
    requires OnlyTheirs(nodes, theirs, final, staging, false)
    requires final in nodes && nodes[final] == Folder && !(staging <= final)
    ensures OnlyTheirs(nodes - {final}, theirs, final, staging, true)
  {
  }

  lemma EmptyFolderLeaves(nodes: Files, at: Path)
    requires Based(nodes) && at != [] && at in nodes && nodes[at] == Folder && !Occupying(nodes, at)
    ensures Based(nodes - {at})
  {
    var less := nodes - {at};
    forall x | x in less && x != []
      ensures x[..|x| - 1] in less && less[x[..|x| - 1]] == Folder
    {
      assert x[..|x| - 1] == at ==> at < x;
    }
  }

  lemma ClearingKeepsSafe(s: State, job: Job)
    requires Safe(s, job) && Proper(job) && s.phase.Clearing?
    requires job.final in s.nodes && s.nodes[job.final] == Folder && !Occupying(s.nodes, job.final)
    ensures Safe(s.(phase := Moving, nodes := s.nodes - {job.final}), job)
  {
    hide Unpacked, Grounded, Canonical, OnlyTheirs, Job.Staging, Occupying, Filled, Based;
    Beside(job, job.final);
    EmptyFolderLeaves(s.nodes, job.final);
    OneLess(s.nodes, s.theirs, job.final, job.Staging());
    BasedIsGrounded(s.nodes - {job.final});
    FilledDependsOnStaging(s.nodes, s.nodes - {job.final}, job, job.entries);
  }

  lemma BasedIsGrounded(nodes: Files)
    requires Based(nodes)
    ensures Grounded(nodes)
  {
  }

  lemma ShiftedUp(from: Path, to: Path, x: Path)
    requires to < x
    ensures var up, was := x[..|x| - 1], from + x[|to|..];
      to <= up && was != [] && was[..|was| - 1] == from + up[|to|..]
  {
    var up := x[..|x| - 1];
    assert up[|to|..] == x[|to|..][..|x| - |to| - 1];
    assert (from + x[|to|..])[..|from + x[|to|..]| - 1] == from + up[|to|..];
  }

  lemma GroundedAt(nodes: Files, x: Path)
    requires Grounded(nodes) && x in nodes && x != []
    ensures x[..|x| - 1] in nodes && nodes[x[..|x| - 1]] == Folder
  {
  }

  lemma MovedIsGrounded(before: Files, after: Files, from: Path, to: Path, x: Path)
    requires Grounded(before) && Renamed(before, after, from, to) && x in after && to < x
    ensures x[..|x| - 1] in after && after[x[..|x| - 1]] == Folder
  {
    hide Grounded;
    ShiftedUp(from, to, x);
    GroundedAt(before, from + x[|to|..]);
  }

  lemma UnmovedIsGrounded(before: Files, after: Files, from: Path, to: Path, x: Path)
    requires Grounded(before) && Renamed(before, after, from, to) && x in after && x != [] && !(to <= x)
    ensures x[..|x| - 1] in after && after[x[..|x| - 1]] == Folder
  {
    var up := x[..|x| - 1];
    assert !(to <= up);
    assert from <= up ==> from <= x;
  }

  lemma RenamedGrounded(before: Files, after: Files, job: Job)
    requires job.final != [] && job.suffix != ""
    requires Grounded(before) && job.Staging() in before && before[job.Staging()] == Folder
    requires Renamed(before, after, job.Staging(), job.final)
    ensures Grounded(after)
  {
    var from, to := job.Staging(), job.final;
    forall x | x in after && x != []
      ensures x[..|x| - 1] in after && after[x[..|x| - 1]] == Folder
    {
      if to < x {
        MovedIsGrounded(before, after, from, to, x);
      } else if x == to {
        var up := x[..|x| - 1];
        assert up == from[..|from| - 1];
        Beside(job, from);
        assert !(to <= up) && !(from <= up);
      } else {
        UnmovedIsGrounded(before, after, from, to, x);
      }
    }
  }

  lemma RenameHolds(before: Files, after: Files, from: Path, to: Path, tree: Files)
    requires Renamed(before, after, from, to) && Holds(before, from, tree)
    ensures Holds(after, to, tree)
  {
    forall x | to <= x
      ensures from <= from + x[|to|..] && (from + x[|to|..])[|from|..] == x[|to|..]
    {
      JoinPrefix(from, x[|to|..], x[|to|..]);
    }
  }

  lemma RenameLosesNothing(before: Files, after: Files, theirs: Files, from: Path, to: Path, x: Path)
    requires Renamed(before, after, from, to) && Based(before) && to !in before
    requires from in before && before[from] == Folder
    requires OnlyTheirs(before, theirs, to, from, true)
    requires x in theirs
    ensures x in after && after[x] == theirs[x]
  {
    if to <= x {
      if x in before { AncestorOf(before, x, to); }
      assert x == to;
      assert from + to[|to|..] == from;
    }
  }

  lemma RenameInPlace(before: Files, after: Files, theirs: Files, job: Job, tree: Files)
    requires Proper(job) && Based(before) && job.final !in before
    requires Renamed(before, after, job.Staging(), job.final) && Underway(before, job.Staging(), tree)
    requires OnlyTheirs(before, theirs, job.final, job.Staging(), true)
    ensures InPlace(after, theirs, job.final, job.Staging(), tree)
  {
    RenameHolds(before, after, job.Staging(), job.final, tree);
    forall x | x in theirs ensures x in after && after[x] == theirs[x] {
      RenameLosesNothing(before, after, theirs, job.Staging(), job.final, x);
    }
    forall x | job.Staging() <= x ensures x !in after {
      Beside(job, x);
    }
    hide Grounded, OnlyTheirs, Occupying, Job.Staging, Underway;
  }

  lemma MovingKeepsSafe(s: State, t: State, job: Job)
    requires Safe(s, job) && Proper(job) && s.phase.Moving? && job.final !in s.nodes
    requires t.phase == Installed && t.theirs == s.theirs && Renamed(s.nodes, t.nodes, job.Staging(), job.final)
    ensures Safe(t, job)
    ensures Holds(t.nodes, job.final, Unpacked(job.entries, job.windows).nodes)
  {
    hide Unpacked, Job.Staging, Canonical, OnlyTheirs, Holds, Occupying, Grounded;
    var tree := Unpacked(job.entries, job.windows).nodes;
    RenameInPlace(s.nodes, t.nodes, s.theirs, job, tree);
    RenameHolds(s.nodes, t.nodes, job.Staging(), job.final, tree);
    RenamedGrounded(s.nodes, t.nodes, job);
    Beside(job, []);
    hide Renamed, InPlace;
  }

  lemma CommitsKeepsSafe(s: State, t: State, job: Job, ok: bool)
    requires Safe(s, job) && Proper(job) && Commits(s, t, job, ok)
    ensures Safe(t, job)
  {
    hide Unpacked, Grounded, Canonical, OnlyTheirs, InPlace, Filled, Job.Staging, Occupying, Renamed;
    match s.phase
    case Opened =>
    case Committing =>
      LostIsWeaker(s.nodes, s.theirs, job.final, job.Staging());
    case Clearing =>
      if t.phase.Moving? { ClearingKeepsSafe(s, job); }
      else { LostIsWeaker(s.nodes, s.theirs, job.final, job.Staging()); }
    case Moving =>
      if t.phase.Installed? { MovingKeepsSafe(s, t, job); }
    case _ =>
  }

  lemma LostIsWeaker(nodes: Files, theirs: Files, final: Path, staging: Path)
    requires OnlyTheirs(nodes, theirs, final, staging, false)
    ensures OnlyTheirs(nodes, theirs, final, staging, true)
  {
  }

  lemma NextKeepsSafe(s: State, t: State, job: Job)
    requires Safe(s, job) && Proper(job) && Next(s, t, job)
    ensures Safe(t, job)
  {
    hide Safe, Proper, OthersAdd, Opens, Commits;
    if added :| OthersAdd(s, t, job, added) {
      OthersKeepSafe(s, t, job, added);
    } else if ok :| Opens(s, t, job, ok) {
      OpensKeepsSafe(s, t, job, ok);
    } else {
      var ok :| Commits(s, t, job, ok);
      CommitsKeepsSafe(s, t, job, ok);
    }
  }

  lemma {:induction false} RunIsSafe(run: seq<State>, job: Job, i: nat)
    requires Reaches(run, job) && job.final != [] && i < |run|
    ensures Safe(run[i], job) && Proper(job)
  {
    hide Next, Unpacked;
    if i > 0 {
      RunIsSafe(run, job, i - 1);
      assert Next(run[i - 1], run[i - 1 + 1], job);
      NextKeepsSafe(run[i - 1], run[i], job);
    }
  }

  // ----- What holds in every reachable state -----

  /** Until the move, nothing at or below the destination comes from the archive. */
  lemma NeverPartOfTheArchive(run: seq<State>, job: Job, i: nat, x: Path)
    requires Reaches(run, job) && job.final != [] && i < |run| && !run[i].phase.Installed?
    requires x in run[i].nodes && job.final <= x
    ensures x in run[i].theirs && run[i].nodes[x] == run[i].theirs[x]
  {
    hide Reaches, StagingIs;
    RunIsSafe(run, job, i);
    Beside(job, x);
  }

  /** Nothing that was there or that others added is ever taken away, but for one empty folder at the destination. */
  lemma OthersLoseAtMostAnEmptyFolder(run: seq<State>, job: Job, i: nat, x: Path)
    requires Reaches(run, job) && job.final != [] && i < |run| && x in run[i].theirs
    ensures || (x in run[i].nodes && run[i].nodes[x] == run[i].theirs[x])
            || (x == job.final && run[i].theirs[x] == Folder && MayHaveLost(run[i].phase))
  {
    hide Reaches, StagingIs;
    RunIsSafe(run, job, i);
  }

  /** Success is the whole archive: nothing of it is missing, and the staging folder is gone. */
  lemma SuccessIsComplete(run: seq<State>, job: Job, i: nat)
    requires Reaches(run, job) && job.final != [] && i < |run| && run[i].phase.Installed?
    ensures Unpacked(job.entries, job.windows).result.Ok?
    ensures var tree := Unpacked(job.entries, job.windows).nodes;
            && (forall x | job.final <= x && x[|job.final|..] in tree ::
                  x in run[i].nodes && run[i].nodes[x] == tree[x[|job.final|..]])
            && NothingAt(run[i].nodes, job.Staging())
  {
    hide Reaches, Unpacked;
    RunIsSafe(run, job, i);
  }

  /** At the instant it appears, the destination holds exactly the archive. */
  lemma TheMoveIsExact(run: seq<State>, job: Job, i: nat)
    requires Reaches(run, job) && job.final != [] && i + 1 < |run|
    requires !run[i].phase.Installed? && run[i + 1].phase.Installed?
    ensures Holds(run[i + 1].nodes, job.final, Unpacked(job.entries, job.windows).nodes)
  {
    RunIsSafe(run, job, i);
    var s, t := run[i], run[i + 1];
    assert Next(s, t, job);
    hide Reaches, Unpacked, Safe, Proper, OthersAdd;
    assert !(exists added :: OthersAdd(s, t, job, added)) by { OthersKeepPhase(s, t, job); }
    assert !(exists ok :: Opens(s, t, job, ok)) by { OpeningDoesNotInstall(s, t, job); }
    var ok :| Commits(s, t, job, ok);
    MovesOnlyWhenFree(s, t, job, ok);
    MovingKeepsSafe(s, t, job);
  }

  lemma OthersKeepPhase(s: State, t: State, job: Job)
    requires s.phase != t.phase
    ensures !(exists added :: OthersAdd(s, t, job, added))
  {
  }

  lemma OpeningDoesNotInstall(s: State, t: State, job: Job)
    requires t.phase.Installed?
    ensures !(exists ok :: Opens(s, t, job, ok))
  {
    hide Take, Blocked, Occupying;
  }

  lemma MovesOnlyWhenFree(s: State, t: State, job: Job, ok: bool)
    requires Commits(s, t, job, ok) && t.phase.Installed?
    ensures s.phase.Moving? && job.final !in s.nodes && t.theirs == s.theirs
    ensures Renamed(s.nodes, t.nodes, job.Staging(), job.final)
  {
    hide Renamed, Occupying;
  }

  /**
   * An install that could not happen, or that found the destination taken meanwhile, leaves the whole tree at the
   * staging path.
   */
  lemma RefusedInstallKeepsTheTree(run: seq<State>, job: Job, i: nat)
    requires Reaches(run, job) && job.final != [] && i < |run|
    requires run[i].phase in {Refused(OccupiedMeanwhile), Refused(NotCleared), Refused(NotMoved)}
    ensures Unpacked(job.entries, job.windows).result.Ok?
    ensures Holds(run[i].nodes, job.Staging(), Unpacked(job.entries, job.windows).nodes)
  {
    hide Reaches, Unpacked, Holds, OnlyTheirs, InPlace, Based, Proper, Job.Staging, Grounded, Canonical;
    RunIsSafe(run, job, i);
  }

  /** A restore refused before it began leaves nothing at the staging path. */
  lemma RefusedUpFrontStagesNothing(run: seq<State>, job: Job, i: nat)
    requires Reaches(run, job) && job.final != [] && i < |run| && run[i].phase == Refused(Occupied)
    ensures NothingAt(run[i].nodes, job.Staging())
  {
    hide Reaches, Unpacked, Holds;
    RunIsSafe(run, job, i);
  }

  /**
   * A failed opening that was cleaned up has left nothing at the staging path and taken nothing of theirs, for good.
   */
  lemma ACleanedOpeningLeavesNothing(run: seq<State>, job: Job, i: nat)
    requires Reaches(run, job) && job.final != [] && i < |run|
    requires run[i].phase in {Refused(NotStaged), Refused(CleanedUp)}
    ensures NothingAt(run[i].nodes, job.Staging())
    ensures forall x | x in run[i].theirs :: x in run[i].nodes && run[i].nodes[x] == run[i].theirs[x]
  {
    hide Reaches, Unpacked, Holds, NothingAt;
    RunIsSafe(run, job, i);
  }

  ghost predicate RefusedAtOnce(s: State, job: Job) {
    && Occupying(s.nodes, job.final) && (s.phase == Starting || s.phase == Refused(Occupied))
    && NothingAt(s.nodes, job.Staging())
  }

  lemma NextRefusesAtOnce(s: State, t: State, job: Job)
    requires RefusedAtOnce(s, job) && Next(s, t, job)
    ensures RefusedAtOnce(t, job)
  {
    hide Take, WithFolders, Blocked, Renamed, Grounded, Job.Staging;
    assert forall ok :: !Commits(s, t, job, ok);
    if added :| OthersAdd(s, t, job, added) {
    } else if ok :| Opens(s, t, job, ok) {
    }
  }

  /** A destination that holds something is refused before anything is staged, and stays refused. */
  lemma {:induction false} AnOccupiedDestinationIsRefused(run: seq<State>, job: Job, i: nat)
    requires Reaches(run, job) && i < |run| && Occupying(run[0].nodes, job.final)
    ensures RefusedAtOnce(run[i], job)
  {
    hide Next;
    if i == 0 {
      StartsBare(run, job);
    } else {
      AnOccupiedDestinationIsRefused(run, job, i - 1);
      assert Next(run[i - 1], run[i - 1 + 1], job);
      hide RefusedAtOnce;
      NextRefusesAtOnce(run[i - 1], run[i], job);
    }
  }

  /** What ended without being installed, and left the staging folder behind. */
  predicate LeavesStaging(why: Why) { why in {Stranded, OccupiedMeanwhile, NotCleared, NotMoved} }

  /**
   * The staging folder is still there exactly in those ends; so an opening ends stranded only if its cleanup did not
   * happen.
   */
  lemma StagingIsLeftExactly(run: seq<State>, job: Job, i: nat)
    requires Reaches(run, job) && job.final != [] && i < |run| && run[i].phase.Refused?
    ensures job.Staging() in run[i].nodes <==> LeavesStaging(run[i].phase.why)
    ensures run[i].phase.why == Stranded ==>
      forall x | x in run[i].theirs :: x in run[i].nodes && run[i].nodes[x] == run[i].theirs[x]
  {
    hide Reaches, Safe, Job.Staging;
    RunIsSafe(run, job, i);
    StagingIsLeft(run[i], job);
    if run[i].phase.why == Stranded { StrandedKeepsTheirs(run[i], job); }
  }

  lemma StagingIsLeft(s: State, job: Job)
    requires Safe(s, job) && s.phase.Refused?
    ensures job.Staging() in s.nodes <==> LeavesStaging(s.phase.why)
  {
    hide Unpacked, Holds, Job.Staging, Based, OnlyTheirs, Grounded, Canonical;
    assert job.Staging() <= job.Staging();
  }

  lemma StrandedKeepsTheirs(s: State, job: Job)
    requires Safe(s, job) && s.phase == Refused(Stranded)
    ensures forall x | x in s.theirs :: x in s.nodes && s.nodes[x] == s.theirs[x]
  {
    hide Unpacked, Holds, Job.Staging, Based, StagingIs;
  }

  lemma FailingIsAStep(s: State, job: Job)
    requires Safe(s, job) && s.phase.Opening?
    ensures Next(s, s.(phase := Forgetting), job)
  {
    StagedInEither(s, job);
    hide Safe, HasFolder, Job.Staging, SameOutside, Grounded;
    assert Opens(s, s.(phase := Forgetting), job, false);
  }

  lemma CleaningIsAStep(s: State, job: Job)
    requires Safe(s, job) && s.phase.Forgetting?
    ensures Next(s, State(Refused(CleanedUp), Without(s.nodes, job.Staging()), s.theirs), job)
  {
    StagedInEither(s, job);
    hide Safe, HasFolder, Job.Staging, SameOutside, Grounded, Without;
    assert Opens(s, State(Refused(CleanedUp), Without(s.nodes, job.Staging()), s.theirs), job, true);
  }

  lemma AnOpeningCanFail(run: seq<State>, job: Job) returns (more: seq<State>)
    requires Reaches(run, job) && job.final != []
    requires run[|run| - 1].phase.Opening? || run[|run| - 1].phase.Forgetting?
    ensures run <= more && Reaches(more, job) && more[|more| - 1].phase.Forgetting?
  {
    RunIsSafe(run, job, |run| - 1);
    var last := run[|run| - 1];
    hide *;
    more := run;
    if last.phase.Opening? {
      FailingIsAStep(last, job);
      ReachesOneMore(run, last.(phase := Forgetting), job);
      more := run + [last.(phase := Forgetting)];
    }
  }

  lemma AFailureCanBeCleanedUp(run: seq<State>, job: Job) returns (more: seq<State>)
    requires Reaches(run, job) && job.final != [] && run[|run| - 1].phase.Forgetting?
    ensures run < more && Reaches(more, job) && more[|more| - 1].phase == Refused(CleanedUp)
    ensures NothingAt(more[|more| - 1].nodes, job.Staging())
  {
    RunIsSafe(run, job, |run| - 1);
    var last := run[|run| - 1];
    hide *;
    CleaningIsAStep(last, job);
    var cleaned := State(Refused(CleanedUp), Without(last.nodes, job.Staging()), last.theirs);
    ReachesOneMore(run, cleaned, job);
    more := run + [cleaned];
    ACleanedOpeningLeavesNothing(more, job, |more| - 1);
  }

  /** An opening that has begun can fail, and one that failed can be cleaned up, whatever else has happened. */
  lemma AFailedOpeningCanBeCleanedUp(run: seq<State>, job: Job) returns (more: seq<State>)
    requires Reaches(run, job) && job.final != []
    requires run[|run| - 1].phase.Opening? || run[|run| - 1].phase.Forgetting?
    ensures run < more && Reaches(more, job) && more[|more| - 1].phase == Refused(CleanedUp)
    ensures NothingAt(more[|more| - 1].nodes, job.Staging())
  {
    hide *;
    var failed := AnOpeningCanFail(run, job);
    more := AFailureCanBeCleanedUp(failed, job);
  }

  lemma StagedInEither(s: State, job: Job)
    requires Safe(s, job) && (s.phase.Opening? || s.phase.Forgetting?)
    ensures HasFolder(s.nodes, job.Staging()) && Grounded(s.nodes) && SameOutside(s.nodes, s.nodes, job.Staging())
  {
    hide Unpacked, OnlyTheirs;
  }

  // ----- A destination that is the filesystem root -----

  ghost predicate StuckAtRoot(s: State, job: Job) {
    && Based(s.nodes) && Canonical(job.Staging())
    && match s.phase
       case Starting => true
       case Checked => true
       case Opening(_) => job.Staging() in s.nodes
       case Opened => job.Staging() in s.nodes
       case Forgetting => true
       case Refused(why) => why != NotCleared && why != NotMoved
       case _ => false
  }

  lemma RootStaysStuck(s: State, t: State, job: Job)
    requires job.final == [] && StuckAtRoot(s, job) && Next(s, t, job)
    ensures StuckAtRoot(t, job)
  {
    if added :| OthersAdd(s, t, job, added) {
    } else if ok :| Opens(s, t, job, ok) {
      RootOpens(s, t, job, ok);
    } else {
      hide Grounded, Canonical;
      var ok :| Commits(s, t, job, ok);
      assert [] < job.Staging();
    }
  }

  lemma RootOpens(s: State, t: State, job: Job, ok: bool)
    requires job.final == [] && StuckAtRoot(s, job) && Opens(s, t, job, ok)
    ensures StuckAtRoot(t, job)
  {
    hide Take, Blocked, Grounded, Canonical, Confined, Occupying, WithFolders;
    var at := job.Staging();
    assert !(at <= []);
    match s.phase
    case Checked =>
      if ok && !Blocked(s.nodes, at) {
        FoldersStayInside(s.nodes, [], at);
        BasedStays(s.nodes, t.nodes, []);
      }
    case Opening(i) =>
      if i < |job.entries| && ok {
        TakeStaysInside(s.nodes, job.entries[i], at, job.windows);
        BasedStays(s.nodes, t.nodes, at);
        ConfinedKeeps(s.nodes, t.nodes, at);
      }
    case Forgetting =>
      WithoutIsGrounded(s.nodes, at);
    case _ =>
  }

  lemma ConfinedKeeps(a: Files, b: Files, at: Path)
    requires Confined(a, b, at) && at in a
    ensures at in b
  {
  }

  /** Staging beside the root is staging inside it, so the second check always finds it occupied. */
  lemma {:induction false} TheRootIsNeverInstalled(run: seq<State>, job: Job, i: nat)
    requires Reaches(run, job) && job.final == [] && i < |run|
    ensures StuckAtRoot(run[i], job) && !run[i].phase.Installed?
  {
    hide Next;
    if i > 0 {
      TheRootIsNeverInstalled(run, job, i - 1);
      assert Next(run[i - 1], run[i - 1 + 1], job);
      RootStaysStuck(run[i - 1], run[i], job);
    }
  }

  // ----- Exactly when a restore can succeed -----

  /** What a restore needs of the disk it starts on, and of its archive. */
  ghost predicate Installable(s: State, job: Job) {
    && job.final != []
    && !Occupying(s.nodes, job.final) && (job.final in s.nodes ==> s.nodes[job.final] == Folder)
    && !Blocked(s.nodes, job.Staging())
    && Unpacked(job.entries, job.windows).result.Ok?
  }

  /** One step in which nothing fails and nobody else does anything. */
  ghost predicate Succeeds(s: State, t: State, job: Job) { Opens(s, t, job, true) || Commits(s, t, job, true) }

  ghost predicate FaultFree(run: seq<State>, job: Job) {
    forall i | 0 <= i < |run| - 1 :: Succeeds(run[i], run[i + 1], job)
  }

  lemma Prolonged(run: seq<State>, t: State, job: Job)
    requires run != [] && FaultFree(run, job) && Succeeds(run[|run| - 1], t, job)
    ensures FaultFree(run + [t], job)
  {
    var more := run + [t];
    hide Succeeds;
    forall i | 0 <= i < |more| - 1 ensures Succeeds(more[i], more[i + 1], job) {
      if i < |run| - 1 { assert Succeeds(run[i], run[i + 1], job); }
    }
  }

  lemma FaultFreeReaches(run: seq<State>, job: Job)
    requires run != [] && Begins(run[0], job) && FaultFree(run, job)
    ensures Reaches(run, job)
  {
    hide Opens, Commits, OthersAdd, Begins;
    forall i | 0 <= i < |run| - 1 ensures Next(run[i], run[i + 1], job) {
      assert Succeeds(run[i], run[i + 1], job);
    }
  }

  /** Nothing of others is taken away or added along such a run. */
  lemma SucceedingKeepsTheirs(s: State, t: State, job: Job)
    requires Succeeds(s, t, job)
    ensures t.theirs == s.theirs
  {
    hide Take, WithFolders, Blocked, Occupying, Renamed;
  }

  lemma {:induction false} PrefixUnpacks(entries: seq<TarEntry>, i: nat, windows: bool)
    requires i <= |entries| && Unpacked(entries, windows).result.Ok?
    ensures Unpacked(entries[..i], windows).result.Ok?
    decreases |entries| - i
  {
    if i == |entries| {
      assert entries[..i] == entries;
    } else {
      PrefixUnpacks(entries, i + 1, windows);
      hide TakeAll;
      PrefixOfMore(BARE, entries, i, windows);
    }
  }

  lemma {:induction false} PrefixOfMore(tree: Files, entries: seq<TarEntry>, i: nat, windows: bool)
    requires i < |entries| && TakeAll(tree, entries[..i + 1], Some([]), windows).result.Ok?
    ensures TakeAll(tree, entries[..i], Some([]), windows).result.Ok?
    decreases i
  {
    hide Take, Summary.Plus;
    if i > 0 {
      assert entries[..i][1..] == entries[1..][..i - 1] && entries[..i + 1][1..] == entries[1..][..i];
      PrefixOfMore(Take(tree, entries[0], Some([]), windows).nodes, entries[1..], i - 1, windows);
    }
  }

  lemma EntryIsTaken(s: State, job: Job, i: nat)
    requires Proper(job) && s.phase == Opening(i) && i < |job.entries| && Filled(s.nodes, job, job.entries[..i])
    requires Unpacked(job.entries, job.windows).result.Ok?
    ensures Take(s.nodes, job.entries[i], Some(job.Staging()), job.windows).result.Ok?
  {
    hide Job.Staging, Take, Grounded, Canonical, Holds;
    PrefixUnpacks(job.entries, i + 1, job.windows);
    UnpackedStep(BARE, job.entries, i, job.windows);
    TakeAlike(s.nodes, job.Staging(), Unpacked(job.entries[..i], job.windows).nodes, job.entries[i], job.windows);
    hide TakeAll, Underway;
  }

  /** A run that has come to a state, with what is known of that state. */
  ghost predicate Come(run: seq<State>, s: State, job: Job, phase: Phase) {
    && run != [] && run[0] == s && FaultFree(run, job) && Reaches(run, job)
    && run[|run| - 1].phase == phase && run[|run| - 1].theirs == s.theirs
  }

  lemma ComesFurther(run: seq<State>, s: State, job: Job, phase: Phase, t: State) returns (more: seq<State>)
    requires Come(run, s, job, phase) && Succeeds(run[|run| - 1], t, job)
    ensures more == run + [t] && Come(more, s, job, t.phase) && more[|more| - 1] == t
  {
    more := run + [t];
    Prolonged(run, t, job);
    SucceedingKeepsTheirs(run[|run| - 1], t, job);
    assert Begins(more[0], job) by { assert Begins(run[0], job); }
    FaultFreeReaches(more, job);
    hide Succeeds, FaultFree, Reaches;
  }

  lemma OpeningBegins(s: State, job: Job) returns (run: seq<State>)
    requires Begins(s, job) && Installable(s, job)
    ensures Come(run, s, job, Opening(0))
  {
    hide Unpacked, WithFolders, Blocked, Occupying, Grounded, Canonical, Job.Staging;
    run := [s];
    FaultFreeReaches(run, job);
    run := ComesFurther(run, s, job, Starting, s.(phase := Checked));
    run := ComesFurther(run, s, job, Checked,
                        s.(phase := Opening(0), nodes := WithFolders(s.nodes, job.Staging())));
  }

  lemma OneMoreTaken(run: seq<State>, s: State, job: Job, i: nat) returns (more: seq<State>)
    requires Come(run, s, job, Opening(i)) && i < |job.entries| && job.final != []
    requires Unpacked(job.entries, job.windows).result.Ok?
    ensures Come(more, s, job, Opening(i + 1))
  {
    var last := run[|run| - 1];
    OpeningIsFilled(run, s, job, i);
    EntryIsTaken(last, job, i);
    hide Unpacked, Take, Filled, Job.Staging, FaultFree, Reaches;
    var taken := Take(last.nodes, job.entries[i], Some(job.Staging()), job.windows);
    var t := State(Opening(i + 1), taken.nodes, last.theirs);
    assert Opens(last, t, job, true);
    hide Opens, Commits;
    more := ComesFurther(run, s, job, Opening(i), t);
  }

  lemma OpeningIsFilled(run: seq<State>, s: State, job: Job, i: nat)
    requires Come(run, s, job, Opening(i)) && i <= |job.entries| && job.final != []
    ensures Filled(run[|run| - 1].nodes, job, job.entries[..i]) && Proper(job)
  {
    hide FaultFree, Reaches, Filled, Job.Staging, OnlyTheirs, Based, Proper;
    RunIsSafe(run, job, |run| - 1);
  }

  lemma AllTaken(run: seq<State>, s: State, job: Job) returns (more: seq<State>)
    requires Come(run, s, job, Opening(|job.entries|))
    ensures Come(more, s, job, Opened)
  {
    hide FaultFree, Reaches, Job.Staging;
    var t := run[|run| - 1].(phase := Opened);
    assert Opens(run[|run| - 1], t, job, true);
    hide Opens, Commits;
    more := ComesFurther(run, s, job, Opening(|job.entries|), t);
  }

  lemma {:induction false} OpeningGoesOn(run: seq<State>, s: State, job: Job, i: nat) returns (more: seq<State>)
    requires Come(run, s, job, Opening(i)) && i <= |job.entries| && job.final != []
    requires Unpacked(job.entries, job.windows).result.Ok?
    ensures Come(more, s, job, Opened)
    decreases |job.entries| - i
  {
    hide Come, Unpacked;
    if i == |job.entries| {
      more := AllTaken(run, s, job);
    } else {
      more := OneMoreTaken(run, s, job, i);
      more := OpeningGoesOn(more, s, job, i + 1);
    }
  }

  /** What was free when a restore began, and nobody has touched, is free when it is opened. */
  lemma StillFree(s: State, t: State, job: Job)
    requires Begins(s, job) && Installable(s, job) && Safe(t, job) && t.phase.Opened? && t.theirs == s.theirs
    ensures !Occupying(t.nodes, job.final)
    ensures job.final in t.nodes ==> t.nodes[job.final] == Folder
  {
    hide Unpacked, Canonical, Blocked, StagingIs;
    Beside(job, job.final);
    forall x | x in t.nodes && job.final < x ensures false {
      Beside(job, x);
      assert x in s.nodes;
      AncestorOf(s.nodes, x, job.final);
    }
  }

  function MovedPaths(nodes: Files, from: Path, to: Path): set<Path> {
    set y | y in nodes && from <= y :: to + y[|from|..]
  }

  /** The disk after rename(2). */
  function RenamedTo(nodes: Files, from: Path, to: Path): Files {
    map x | x in nodes.Keys + MovedPaths(nodes, from, to)
            && if to <= x then from + x[|to|..] in nodes else x in nodes && !(from <= x)
      :: if to <= x then nodes[from + x[|to|..]] else nodes[x]
  }

  lemma RenameExists(nodes: Files, from: Path, to: Path)
    ensures Renamed(nodes, RenamedTo(nodes, from, to), from, to)
  {
    forall x | to <= x && from + x[|to|..] in nodes
      ensures x in MovedPaths(nodes, from, to)
    {
      var y := from + x[|to|..];
      assert from <= y && y[|from|..] == x[|to|..] && to + x[|to|..] == x;
    }
  }

  lemma CommitBegins(run: seq<State>, s: State, job: Job) returns (more: seq<State>)
    requires Installable(s, job) && Come(run, s, job, Opened)
    ensures Come(more, s, job, Committing)
    ensures job.final in more[|more| - 1].nodes ==>
      more[|more| - 1].nodes[job.final] == Folder && !Occupying(more[|more| - 1].nodes, job.final)
  {
    var last := run[|run| - 1];
    assert Begins(s, job);
    RunIsSafe(run, job, |run| - 1);
    StillFree(s, last, job);
    hide FaultFree, Reaches, Job.Staging, Installable, Begins, Safe, Proper, Occupying;
    var t := last.(phase := Committing);
    assert Commits(last, t, job, true);
    hide Opens, Commits;
    more := ComesFurther(run, s, job, Opened, t);
  }

  lemma WayIsCleared(run: seq<State>, s: State, job: Job) returns (more: seq<State>)
    requires Come(run, s, job, Committing)
    requires job.final in run[|run| - 1].nodes ==>
      run[|run| - 1].nodes[job.final] == Folder && !Occupying(run[|run| - 1].nodes, job.final)
    ensures Come(more, s, job, Moving) && job.final !in more[|more| - 1].nodes
  {
    hide FaultFree, Reaches, Job.Staging, Occupying;
    var last := run[|run| - 1];
    if job.final in last.nodes {
      var t := last.(phase := Clearing);
      assert Commits(last, t, job, true);
      var u := t.(phase := Moving, nodes := t.nodes - {job.final});
      assert Commits(t, u, job, true);
      hide Opens, Commits;
      more := ComesFurther(run, s, job, Committing, t);
      more := ComesFurther(more, s, job, Clearing, u);
    } else {
      var t := last.(phase := Moving);
      assert Commits(last, t, job, true);
      hide Opens, Commits;
      more := ComesFurther(run, s, job, Committing, t);
    }
  }

  lemma MoveHappens(run: seq<State>, s: State, job: Job) returns (more: seq<State>)
    requires Come(run, s, job, Moving) && job.final !in run[|run| - 1].nodes
    ensures Come(more, s, job, Installed) && |more| > 1 && !more[|more| - 2].phase.Installed?
  {
    hide FaultFree, Reaches, Job.Staging, Occupying, Renamed;
    var last := run[|run| - 1];
    var moved := RenamedTo(last.nodes, job.Staging(), job.final);
    RenameExists(last.nodes, job.Staging(), job.final);
    var t := State(Installed, moved, last.theirs);
    assert Commits(last, t, job, true);
    hide Opens, Commits;
    more := ComesFurther(run, s, job, Moving, t);
  }

  /** From a free destination a sound archive is restored: the run in which nothing fails installs it. */
  lemma FaultFreeInstalls(s: State, job: Job) returns (run: seq<State>)
    requires Begins(s, job) && Installable(s, job)
    ensures Come(run, s, job, Installed) && |run| > 1 && !run[|run| - 2].phase.Installed?
  {
    assert job.final != [] && Unpacked(job.entries, job.windows).result.Ok?;
    run := OpeningBegins(s, job);
    hide Come, Begins, Installable, Unpacked;
    run := OpeningGoesOn(run, s, job, 0);
    run := CommitBegins(run, s, job);
    run := WayIsCleared(run, s, job);
    run := MoveHappens(run, s, job);
  }

  lemma StepKeepsTheirs(s: State, t: State, job: Job, ok: bool)
    requires Opens(s, t, job, ok) || Commits(s, t, job, ok)
    ensures t.theirs == s.theirs
  {
    hide Take, WithFolders, Blocked, Occupying, Renamed;
  }

  /** What was there at the start is theirs for ever, but for an empty folder at the destination. */
  ghost predicate StartKept(s: State, start: Files, final: Path) {
    forall x | x in start :: x in s.theirs && (s.theirs[x] == start[x] || (x == final && start[x] == Folder))
  }

  lemma OthersKeepTheStart(s: State, t: State, job: Job, start: Files, added: Files)
    requires Safe(s, job) && OthersAdd(s, t, job, added) && StartKept(s, start, job.final)
    ensures StartKept(t, start, job.final)
  {
    hide Unpacked, Based, StagingIs, Job.Staging;
    forall x | x in start
      ensures x in t.theirs && (t.theirs[x] == start[x] || (x == job.final && start[x] == Folder))
    {
      assert x in s.theirs;
    }
  }

  lemma {:induction false} TheStartIsKept(run: seq<State>, job: Job, i: nat)
    requires Reaches(run, job) && job.final != [] && i < |run|
    ensures StartKept(run[i], run[0].nodes, job.final)
  {
    hide Opens, Commits, OthersAdd, Begins, StartKept;
    if i > 0 {
      TheStartIsKept(run, job, i - 1);
      RunIsSafe(run, job, i - 1);
      assert Next(run[i - 1], run[i - 1 + 1], job);
      hide Safe, Proper, Reaches, Next, StartKept;
      NextKeepsTheStart(run[i - 1], run[i], job, run[0].nodes);
    } else {
      StartIsTheirs(run, job);
    }
  }

  lemma NextKeepsTheStart(s: State, t: State, job: Job, start: Files)
    requires Safe(s, job) && Next(s, t, job) && StartKept(s, start, job.final)
    ensures StartKept(t, start, job.final)
  {
    hide Safe, Opens, Commits, OthersAdd;
    if added :| OthersAdd(s, t, job, added) {
      OthersKeepTheStart(s, t, job, start, added);
    } else if ok :| Opens(s, t, job, ok) {
      StepKeepsTheirs(s, t, job, ok);
    } else {
      var ok :| Commits(s, t, job, ok);
      StepKeepsTheirs(s, t, job, ok);
    }
  }

  lemma StartIsTheirs(run: seq<State>, job: Job)
    requires Reaches(run, job)
    ensures StartKept(run[0], run[0].nodes, job.final) && run[0].phase == Starting
  {
    hide Next, Grounded, Canonical, Job.Staging;
  }

  lemma {:induction false} TheMove(run: seq<State>, job: Job, i: nat) returns (k: nat)
    requires Reaches(run, job) && i < |run| && run[i].phase.Installed?
    ensures k < i && !run[k].phase.Installed? && run[k + 1].phase.Installed?
  {
    hide *;
    StartIsTheirs(run, job);
    if run[i - 1].phase.Installed? { k := TheMove(run, job, i - 1); } else { k := i - 1; }
  }

  /** At the move the tree is staged, the destination is free and nothing of theirs but an empty folder is gone. */
  lemma AtTheMove(run: seq<State>, job: Job, k: nat)
    requires Reaches(run, job) && job.final != [] && k + 1 < |run|
    requires !run[k].phase.Installed? && run[k + 1].phase.Installed?
    ensures var s := run[k];
      && Based(s.nodes) && job.final !in s.nodes && job.Staging() in s.nodes
      && OnlyTheirs(s.nodes, s.theirs, job.final, job.Staging(), true)
  {
    RunIsSafe(run, job, k);
    var s, t := run[k], run[k + 1];
    assert Next(s, t, job);
    hide Reaches, Unpacked, Safe, Proper, OthersAdd, OnlyTheirs;
    assert !(exists added :: OthersAdd(s, t, job, added)) by { OthersKeepPhase(s, t, job); }
    assert !(exists ok :: Opens(s, t, job, ok)) by { OpeningDoesNotInstall(s, t, job); }
    var ok :| Commits(s, t, job, ok);
    MovesOnlyWhenFree(s, t, job, ok);
    SafeMoving(s, job);
  }

  lemma SafeMoving(s: State, job: Job)
    requires Safe(s, job) && s.phase.Moving?
    ensures Based(s.nodes) && job.Staging() in s.nodes
    ensures OnlyTheirs(s.nodes, s.theirs, job.final, job.Staging(), true)
  {
    hide Unpacked, OnlyTheirs;
  }

  lemma OccupantsStay(s: State, start: Files, job: Job)
    requires job.final != [] && job.suffix != "" && Based(s.nodes)
    requires OnlyTheirs(s.nodes, s.theirs, job.final, job.Staging(), true) && StartKept(s, start, job.final)
    ensures Occupying(start, job.final) ==> Occupying(s.nodes, job.final)
    ensures job.final in start && start[job.final].File? ==> job.final in s.nodes && s.nodes[job.final].File?
  {
    if y :| y in start && job.final < y {
      assert y in s.nodes;
      AncestorOf(s.nodes, y, job.final);
    }
    if job.final in start && start[job.final].File? {
      assert job.final in s.theirs && s.theirs[job.final] == start[job.final];
    }
  }

  lemma FilesStay(s: State, start: Files, job: Job, x: Path)
    requires OnlyTheirs(s.nodes, s.theirs, job.final, job.Staging(), true) && StartKept(s, start, job.final)
    requires x in start && start[x].File? && x != job.final
    ensures x in s.nodes && s.nodes[x].File?
  {
  }

  /** Had the start stood in the way, it would still do so at the move. */
  lemma NothingStoodInTheWay(s: State, start: Files, job: Job)
    requires job.final != [] && job.suffix != "" && NothingAt(start, job.Staging())
    requires Based(s.nodes) && job.final !in s.nodes && job.Staging() in s.nodes
    requires OnlyTheirs(s.nodes, s.theirs, job.final, job.Staging(), true) && StartKept(s, start, job.final)
    ensures !Occupying(start, job.final) && (job.final in start ==> start[job.final] == Folder)
    ensures !Blocked(start, job.Staging())
  {
    OccupantsStay(s, start, job);
    hide OnlyTheirs, StartKept;
    if x :| x in Prefixes(job.Staging()) && x in start && start[x].File? {
      Beside(job, x);
      FilesStay(s, start, job, x);
      AncestorOf(s.nodes, job.Staging(), x);
      assert false;
    }
  }

  ghost predicate RunsTo(run: seq<State>, s: State, job: Job, phase: Phase) {
    Reaches(run, job) && run[0] == s && run[|run| - 1].phase == phase
  }

  /** A restore can succeed exactly from a free destination, below the root, with an archive that unpacks. */
  lemma InstallableExactly(s: State, job: Job)
    requires Begins(s, job)
    ensures Installable(s, job)
      <==> exists run: seq<State> :: RunsTo(run, s, job, Installed)
  {
    hide Unpacked, Begins, FaultFree;
    if Installable(s, job) {
      var run := FaultFreeInstalls(s, job);
      assert RunsTo(run, s, job, Installed);
    }
    if run: seq<State> :| RunsTo(run, s, job, Installed) {
      InstalledWasInstallable(run, job);
    }
  }

  lemma InstalledWasInstallable(run: seq<State>, job: Job)
    requires Reaches(run, job) && run[|run| - 1].phase.Installed?
    ensures Installable(run[0], job)
  {
    var i := |run| - 1;
    hide Unpacked, Next, Occupying, Blocked, StartKept, OnlyTheirs, NothingAt;
    assert Begins(run[0], job) && NothingAt(run[0].nodes, job.Staging()) by { StartsBare(run, job); }
    if job.final == [] { TheRootIsNeverInstalled(run, job, i); }
    SuccessIsComplete(run, job, i);
    var k := TheMove(run, job, i);
    AtTheMove(run, job, k);
    TheStartIsKept(run, job, k);
    NothingStoodInTheWay(run[k], run[0].nodes, job);
  }

  lemma StartsBare(run: seq<State>, job: Job)
    requires Reaches(run, job)
    ensures Begins(run[0], job) && NothingAt(run[0].nodes, job.Staging())
  {
    hide Next;
  }

  /** What somebody puts into the destination while the archive is being opened. */
  function Intrusion(nodes: Files, final: Path): Files {
    (if final in nodes then map[] else map[final := Folder]) + map[final + ["intruder"] := File([])]
  }

  lemma IntrusionIsGrounded(nodes: Files, final: Path)
    requires Grounded(nodes) && final != [] && final[..|final| - 1] in nodes && nodes[final[..|final| - 1]] == Folder
    requires (final in nodes ==> nodes[final] == Folder) && final + ["intruder"] !in nodes
    ensures Grounded(nodes + Intrusion(nodes, final))
  {
    var inside := final + ["intruder"];
    var all := nodes + Intrusion(nodes, final);
    assert inside[..|inside| - 1] == final;
    forall x | x in all && x != [] ensures x[..|x| - 1] in all && all[x[..|x| - 1]] == Folder {
      if x in nodes { assert x[..|x| - 1] in nodes; }
    }
  }

  lemma IntruderIsNew(nodes: Files, final: Path)
    requires Grounded(nodes) && !Occupying(nodes, final)
    ensures final + ["intruder"] !in nodes
  {
    var inside := final + ["intruder"];
    assert final < inside && inside[..|inside| - 1] == final;
    if inside in nodes { GroundedAt(nodes, inside); }
  }

  lemma IntruderOccupies(nodes: Files, final: Path)
    requires final in nodes ==> nodes[final] == Folder
    ensures Occupying(nodes + Intrusion(nodes, final), final)
  {
    assert final < final + ["intruder"];
    assert final + ["intruder"] in nodes + Intrusion(nodes, final);
  }

  lemma IntrusionFits(s: State, job: Job)
    requires Proper(job) && Based(s.nodes) && job.Staging() in s.nodes && !Occupying(s.nodes, job.final)
    requires job.final in s.nodes ==> s.nodes[job.final] == Folder
    ensures OthersAdd(s, State(s.phase, s.nodes + Intrusion(s.nodes, job.final), s.theirs + Intrusion(s.nodes, job.final)),
                      job, Intrusion(s.nodes, job.final))
    ensures Occupying(s.nodes + Intrusion(s.nodes, job.final), job.final)
  {
    SiblingsShareAFolder(s.nodes, job);
    IntruderIsNew(s.nodes, job.final);
    IntruderOccupies(s.nodes, job.final);
    Beside(job, job.final + ["intruder"]);
    Beside(job, job.final);
    assert job.final <= job.final + ["intruder"];
    hide Canonical, Job.Staging, Occupying;
    IntrusionIsGrounded(s.nodes, job.final);
    hide Grounded;
  }

  lemma SiblingsShareAFolder(nodes: Files, job: Job)
    requires Grounded(nodes) && job.final != [] && job.Staging() in nodes
    ensures job.final[..|job.final| - 1] in nodes && nodes[job.final[..|job.final| - 1]] == Folder
  {
    assert job.final[..|job.final| - 1] == job.Staging()[..|job.Staging()| - 1];
  }

  /** The second check can refuse what the first let through, with the whole tree already staged. */
  lemma ATakenDestinationStrandsTheTree(s: State, job: Job) returns (run: seq<State>)
    requires Begins(s, job) && Installable(s, job)
    ensures RunsTo(run, s, job, Refused(OccupiedMeanwhile))
    ensures Holds(run[|run| - 1].nodes, job.Staging(), Unpacked(job.entries, job.windows).nodes)
  {
    assert job.final != [] && Unpacked(job.entries, job.windows).result.Ok?;
    run := OpeningBegins(s, job);
    run := OpeningGoesOn(run, s, job, 0);
    OpenedIsFree(run, s, job);
    hide Begins, Installable, Unpacked, FaultFree, Occupying, Job.Staging, Holds, Based, Proper, Reaches;
    run := AnIntruderIsMet(run, job);
    RefusedInstallKeepsTheTree(run, job, |run| - 1);
  }

  lemma AnIntruderIsMet(run: seq<State>, job: Job) returns (more: seq<State>)
    requires run != [] && Reaches(run, job) && run[|run| - 1].phase == Opened
    requires var last := run[|run| - 1];
      && Proper(job) && Based(last.nodes) && job.Staging() in last.nodes && !Occupying(last.nodes, job.final)
      && (job.final in last.nodes ==> last.nodes[job.final] == Folder)
    ensures RunsTo(more, run[0], job, Refused(OccupiedMeanwhile))
  {
    hide Reaches, Occupying, Job.Staging, Based, Proper;
    var last := run[|run| - 1];
    var added := Intrusion(last.nodes, job.final);
    IntrusionFits(last, job);
    var t := State(Opened, last.nodes + added, last.theirs + added);
    var u := t.(phase := Refused(OccupiedMeanwhile));
    hide Intrusion;
    assert Commits(t, u, job, true);
    hide OthersAdd, Commits, Opens;
    assert Next(last, t, job) && Next(t, u, job);
    hide Next;
    ReachesOneMore(run, t, job);
    ReachesOneMore(run + [t], u, job);
    more := run + [t] + [u];
  }

  lemma OpenedIsFree(run: seq<State>, s: State, job: Job)
    requires Come(run, s, job, Opened) && Begins(s, job) && Installable(s, job)
    ensures var last := run[|run| - 1];
      && Proper(job) && Based(last.nodes) && job.Staging() in last.nodes && !Occupying(last.nodes, job.final)
      && (job.final in last.nodes ==> last.nodes[job.final] == Folder)
  {
    hide Unpacked, FaultFree, Reaches, Blocked, OnlyTheirs;
    RunIsSafe(run, job, |run| - 1);
    StillFree(s, run[|run| - 1], job);
  }

  lemma ReachesOneMore(run: seq<State>, t: State, job: Job)
    requires Reaches(run, job) && Next(run[|run| - 1], t, job)
    ensures Reaches(run + [t], job)
  {
    hide Next, Begins;
    var more := run + [t];
    forall i | 0 <= i < |more| - 1 ensures Next(more[i], more[i + 1], job) {
      if i < |run| - 1 { assert Next(run[i], run[i + 1], job); }
    }
  }

  // ----- From one tree to another -----

  lemma SealedUnpacks(m: Files)
    requires IsTree(m) && forall p | p in Tree(m) :: Separatorless(p)
    ensures Unpacked(Sealed(m, Tree(m)), false).result.Ok?
    ensures forall p | p != [] :: p in Unpacked(Sealed(m, Tree(m)), false).nodes <==> p in KeptPart(m)
    ensures forall p | p in KeptPart(m) :: Unpacked(Sealed(m, Tree(m)), false).nodes[p] == m[p]
  {
    assert FreshFolder(BARE, []);
    OpeningUndoesSealing(BARE, [], m, {}, false);
    NothingGone(Tree(m));
    ClosureOfTree(m);
    hide Tree, Sealed, IsTree, FreshFolder;
    var got := Unpacked(Sealed(m, Tree(m)), false).nodes;
    forall p | p != []
      ensures p in got <==> p in KeptPart(m)
      ensures p in got ==> got[p] == KeptPart(m)[p]
    {
      assert [] < p && p[0..] == p;
    }
  }

  lemma HeldAt(nodes: Files, at: Path, tree: Files, p: Path)
    requires Holds(nodes, at, tree)
    ensures at + p in nodes <==> p in tree
    ensures p in tree ==> nodes[at + p] == tree[p]
  {
    JoinPrefix(at, p, p);
  }

  lemma KeptIsMembership(m: Files, p: Path)
    requires p != []
    ensures p in KeptPart(m) <==> p in m && Kept(p)
  {
    hide Kept;
  }

  /** The whole journey: what appears at the destination is what the tree held when it was sealed. */
  lemma RestoreReproducesTheTree(m: Files, run: seq<State>, job: Job, i: nat, p: Path)
    requires IsTree(m) && forall q | q in Tree(m) :: Separatorless(q)
    requires job.entries == Sealed(m, Tree(m)) && !job.windows && job.final != []
    requires Reaches(run, job) && i + 1 < |run| && !run[i].phase.Installed? && run[i + 1].phase.Installed?
    requires p != []
    ensures job.final + p in run[i + 1].nodes <==> p in m && Kept(p)
    ensures p in m && Kept(p) ==> run[i + 1].nodes[job.final + p] == m[p]
  {
    KeptIsMembership(m, p);
    hide Reaches, Unpacked, Tree, Sealed, IsTree, Kept, KeptPart, Separatorless, Holds;
    TheMoveIsExact(run, job, i);
    SealedUnpacks(m);
    HeldAt(run[i + 1].nodes, job.final, Unpacked(job.entries, job.windows).nodes, p);
  }

  /**
   * And it does appear: from a free destination, the run of a restore in which nothing fails ends with that very
   * tree.
   */
  lemma ASealedTreeIsRestored(m: Files, s: State, job: Job) returns (run: seq<State>)
    requires IsTree(m) && forall q | q in Tree(m) :: Separatorless(q)
    requires job.entries == Sealed(m, Tree(m)) && !job.windows && job.final != [] && Begins(s, job)
    requires !Occupying(s.nodes, job.final) && (job.final in s.nodes ==> s.nodes[job.final] == Folder)
    requires !Blocked(s.nodes, job.Staging())
    ensures RunsTo(run, s, job, Installed) && FaultFree(run, job)
    ensures forall p | p != [] :: job.final + p in run[|run| - 1].nodes <==> p in m && Kept(p)
    ensures forall p | p != [] && p in m && Kept(p) ::
      job.final + p in run[|run| - 1].nodes && run[|run| - 1].nodes[job.final + p] == m[p]
  {
    SealedUnpacks(m);
    hide Unpacked, Tree, Sealed, IsTree, Kept, Separatorless, Occupying, Blocked, Begins, FaultFree, Reaches;
    run := FaultFreeInstalls(s, job);
    forall p | p != []
      ensures job.final + p in run[|run| - 1].nodes <==> p in m && Kept(p)
      ensures p in m && Kept(p) ==> run[|run| - 1].nodes[job.final + p] == m[p]
    {
      RestoreReproducesTheTree(m, run, job, |run| - 2, p);
    }
  }
}
