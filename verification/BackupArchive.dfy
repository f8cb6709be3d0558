/**
 * A tree becomes a list of archive entries, and a list of entries becomes a tree again. The cipher, the
 * compression and the tar bytes between the two are a lossless transport here.
 */
module BackupArchive {
  import opened Results
  import opened Text
  import opened ArchivePaths
  import opened BackupWalk

  datatype Kind = Directory | RegularFile | Unsupported

  datatype TarEntry = TarEntry(name: string, kind: Kind, data: seq<byte>)

  datatype Summary = Summary(files: nat, directories: nat, skipped: nat, bytes: nat) {
    function Plus(other: Summary): Summary {
      Summary(files + other.files, directories + other.directories, skipped + other.skipped, bytes + other.bytes)
    }
  }

  const EMPTY := Summary(0, 0, 0, 0)

  // ----- Writing -----

  function EntryOf(m: Files, p: Path): TarEntry
    requires p in m
  {
    match m[p]
    case Folder => TarEntry(Normalised(Spelled(p)) + "/", Directory, [])
    case File(data) => TarEntry(Normalised(Spelled(p)), RegularFile, data)
  }

  function Weight(entry: TarEntry): Summary {
    match entry.kind
    case Directory => Summary(0, 1, 0, 0)
    case RegularFile => Summary(1, 0, 0, |entry.data|)
    case Unsupported => EMPTY
  }

  function Tally(entries: seq<TarEntry>): Summary {
    if entries == [] then EMPTY else Weight(entries[0]).Plus(Tally(entries[1..]))
  }

  lemma PlusLaws(x: Summary, y: Summary, z: Summary)
    ensures x.Plus(y).Plus(z) == x.Plus(y.Plus(z))
    ensures x.Plus(y) == y.Plus(x)
    ensures EMPTY.Plus(x) == x == x.Plus(EMPTY)
  {
  }

  lemma {:induction false} TallyAppend(a: seq<TarEntry>, b: seq<TarEntry>)
    ensures Tally(a + b) == Tally(a).Plus(Tally(b))
  {
    hide Weight;
    hide Summary.Plus;
    PlusLaws(Tally(b), EMPTY, EMPTY);
    if a == [] {
      assert a + b == b;
    } else {
      assert (a + b)[1..] == a[1..] + b;
      TallyAppend(a[1..], b);
      PlusLaws(Weight(a[0]), Tally(a[1..]), Tally(b));
    }
  }

  function Skips(n: nat): Summary { Summary(0, 0, n, 0) }

  lemma CountsOne(entries: seq<TarEntry>, entry: TarEntry, skipped: nat)
    ensures Tally(entries + [entry]).Plus(Skips(skipped)) == Tally(entries).Plus(Skips(skipped)).Plus(Weight(entry))
  {
    TallyAppend(entries, [entry]);
    PlusLaws(Weight(entry), EMPTY, EMPTY);
    hide Weight, Tally;
    assert Tally([entry]) == Weight(entry) by { TallyOne(entry); }
  }

  lemma SkipsOne(sum: Summary, skipped: nat)
    ensures sum.Plus(Skips(skipped)).Plus(Skips(1)) == sum.Plus(Skips(skipped + 1))
  {
  }

  lemma SkipsNone()
    ensures Tally([]).Plus(Skips(0)) == EMPTY
  {
    PlusLaws(Skips(0), EMPTY, EMPTY);
    hide Summary.Plus;
  }

  lemma TallyOne(entry: TarEntry)
    ensures Tally([entry]) == Weight(entry)
  {
    PlusLaws(Weight(entry), EMPTY, EMPTY);
  }

  function Sealed(m: Files, paths: seq<Path>): (r: seq<TarEntry>)
    requires forall p | p in paths :: p in m
    ensures |r| == |paths|
    ensures forall i | 0 <= i < |paths| :: r[i] == EntryOf(m, paths[i])
  {
    seq(|paths|, i requires 0 <= i < |paths| => EntryOf(m, paths[i]))
  }

  /** A folder goes in under its path and a slash, a file under its path with its bytes. */
  lemma EntryExactly(m: Files, p: Path)
    requires p in m && p != [] && Canonical(p) && Separatorless(p)
    ensures EntryOf(m, p)
         == match m[p]
            case Folder => TarEntry(Spelled(p) + "/", Directory, [])
            case File(data) => TarEntry(Spelled(p), RegularFile, data)
  {
    SpelledIsNormal(p);
  }

  /** The walked paths less those that vanished before they could be read. */
  function StillThere(paths: seq<Path>, gone: set<Path>): (r: seq<Path>)
    ensures |r| <= |paths|
    ensures forall p :: p in r <==> p in paths && p !in gone
  {
    if paths == [] then []
    else
      var last := paths[|paths| - 1];
      assert paths == paths[..|paths| - 1] + [last];
      StillThere(paths[..|paths| - 1], gone) + if last in gone then [] else [last]
  }

  /** The paths to seal; none without a root. */
  function Tree(m: Files): (r: seq<Path>)
    ensures forall p | p in r :: p in m
  {
    WalkStaysBelow(m, [], Pruned);
    if [] in m then Walk(m, [], Pruned) else []
  }

  lemma OneMoreStillThere(paths: seq<Path>, gone: set<Path>, i: nat)
    requires i < |paths|
    ensures StillThere(paths[..i + 1], gone) == StillThere(paths[..i], gone) + if paths[i] in gone then [] else [paths[i]]
  {
    assert paths[..i + 1][..i] == paths[..i];
  }

  lemma OneMoreSealed(m: Files, paths: seq<Path>, p: Path)
    requires p in m && forall q | q in paths :: q in m
    ensures Sealed(m, paths + [p]) == Sealed(m, paths) + [EntryOf(m, p)]
  {
    hide EntryOf;
  }

  /** What disappeared is counted as skipped and never fatal. */
  method WriteEntries(m: Files, gone: set<Path>) returns (entries: seq<TarEntry>, summary: Summary)
    ensures entries == Sealed(m, StillThere(Tree(m), gone))
    ensures summary == Tally(entries).Plus(Skips(|Tree(m)| - |entries|))
  {
    hide Summary.Plus, Tally, Weight, Tree, EntryOf, StillThere, Sealed;
    var walked := Tree(m);
    entries, summary := [], EMPTY;
    SkipsNone();
    for i := 0 to |walked|
      invariant |entries| <= i && entries == Sealed(m, StillThere(walked[..i], gone))
      invariant summary == Tally(entries).Plus(Skips(i - |entries|))
    {
      var path := walked[i];
      OneMoreStillThere(walked, gone, i);
      if path in gone {
        assert StillThere(walked[..i], gone) + [] == StillThere(walked[..i], gone);
        summary := summary.Plus(Skips(1));
        SkipsOne(Tally(entries), i - |entries|);
      } else {
        var entry := EntryOf(m, path);
        CountsOne(entries, entry, i - |entries|);
        OneMoreSealed(m, StillThere(walked[..i], gone), path);
        entries := entries + [entry];
        summary := summary.Plus(Weight(entry));
      }
    }
    assert walked[..|walked|] == walked;
  }

  // ----- Reading -----

  datatype Failure = Unsafe(name: string) | NotRestored(name: string) | InTheWay(path: Path)

  datatype Outcome = Outcome(nodes: Files, result: Result<Summary, Failure>)

  function Prefixes(p: Path): (r: set<Path>)
    ensures forall x :: x in r <==> x <= p
  {
    assert forall x | x <= p :: p[..|x|] == x;
    set k | 0 <= k <= |p| :: p[..k]
  }

  predicate Blocked(nodes: Files, p: Path) {
    exists x | x in Prefixes(p) :: x in nodes && nodes[x].File?
  }

  /** Directory.CreateDirectory: the folder and every missing ancestor. */
  function WithFolders(nodes: Files, p: Path): (r: Files)
    ensures forall x :: x in r <==> x in nodes || x <= p
    ensures forall x | x in r :: r[x] == if x in nodes then nodes[x] else Folder
  {
    nodes + map x | x in Prefixes(p) && x !in nodes :: Folder
  }

  function TakeDirectory(nodes: Files, target: Path): Outcome {
    if Blocked(nodes, target) then Outcome(nodes, Err(InTheWay(target)))
    else Outcome(WithFolders(nodes, target), Ok(Summary(0, 1, 0, 0)))
  }

  /** The parents first, then the file itself, which must not be there yet. */
  function TakeFile(nodes: Files, target: Path, data: seq<byte>): Outcome
    requires target != []
  {
    var parent := target[..|target| - 1];
    if Blocked(nodes, parent) then Outcome(nodes, Err(InTheWay(target)))
    else
      var made := WithFolders(nodes, parent);
      if target in made then Outcome(made, Err(InTheWay(target)))
      else Outcome(made[target := File(data)], Ok(Summary(1, 0, 0, |data|)))
  }

  ghost predicate ReadyFor(nodes: Files, destination: Option<Path>) {
    destination.Some? ==> Canonical(destination.value)
  }

  function Take(nodes: Files, entry: TarEntry, destination: Option<Path>, windows: bool): Outcome
    requires ReadyFor(nodes, destination)
  {
    match TargetFor(entry.name, destination, windows)
    case Err(_) => Outcome(nodes, Err(Unsafe(entry.name)))
    case Ok(target) =>
      if entry.kind.Unsupported? then Outcome(nodes, Err(NotRestored(entry.name)))
      else if target.None? then Outcome(nodes, Ok(Weight(entry)))
      else
        TargetExactly(entry.name, destination.value, windows);
        if entry.kind.Directory? then TakeDirectory(nodes, target.value)
        else TakeFile(nodes, target.value, entry.data)
  }

  lemma TakeTo(nodes: Files, entry: TarEntry, destination: Path, windows: bool, full: Path)
    requires Canonical(destination) && !entry.kind.Unsupported?
    requires TargetFor(entry.name, Some(destination), windows) == Ok(Some(full)) && full != []
    ensures Take(nodes, entry, Some(destination), windows) ==
            if entry.kind.Directory? then TakeDirectory(nodes, full) else TakeFile(nodes, full, entry.data)
  {
    hide TargetFor, TakeDirectory, TakeFile, Canonical;
  }

  function TakeAll(nodes: Files, entries: seq<TarEntry>, destination: Option<Path>, windows: bool): Outcome
    requires ReadyFor(nodes, destination)
    decreases |entries|
  {
    if entries == [] then Outcome(nodes, Ok(EMPTY))
    else
      var first := Take(nodes, entries[0], destination, windows);
      if first.result.Err? then first
      else
        var rest := TakeAll(first.nodes, entries[1..], destination, windows);
        Outcome(rest.nodes,
                if rest.result.Err? then rest.result else Ok(first.result.value.Plus(rest.result.value)))
  }

  /** Counted on top of what came before. */
  function After(summary: Summary, rest: Outcome): Outcome {
    Outcome(rest.nodes, if rest.result.Err? then rest.result else Ok(summary.Plus(rest.result.value)))
  }

  lemma AfterStep(summary: Summary, nodes: Files, entries: seq<TarEntry>, destination: Option<Path>, windows: bool)
    requires ReadyFor(nodes, destination) && entries != []
    ensures var first := Take(nodes, entries[0], destination, windows);
            After(summary, TakeAll(nodes, entries, destination, windows)) ==
            if first.result.Err? then first
            else After(summary.Plus(first.result.value), TakeAll(first.nodes, entries[1..], destination, windows))
  {
    hide Take, Summary.Plus;
    var first := Take(nodes, entries[0], destination, windows);
    if first.result.Ok? {
      var rest := TakeAll(first.nodes, entries[1..], destination, windows);
      if rest.result.Ok? {
        PlusLaws(summary, first.result.value, rest.result.value);
      }
    }
  }

  lemma AfterNone(summary: Summary, done: Outcome)
    ensures After(EMPTY, done) == done
    ensures After(summary, Outcome(done.nodes, Ok(EMPTY))) == Outcome(done.nodes, Ok(summary))
  {
  }

  class Disk {
    var nodes: Files

    constructor (nodes: Files)
      ensures this.nodes == nodes
    {
      this.nodes := nodes;
    }

    method ReadArchive(entries: seq<TarEntry>, destination: Option<Path>, windows: bool)
      returns (result: Result<Summary, Failure>)
      requires ReadyFor(nodes, destination)
      modifies this
      ensures Outcome(nodes, result) == TakeAll(old(nodes), entries, destination, windows)
    {
      hide Take, TakeAll, After, Summary.Plus;
      var summary := EMPTY;
      var i := 0;
      AfterNone(EMPTY, TakeAll(nodes, entries, destination, windows));
      while i < |entries|
        invariant 0 <= i <= |entries|
        invariant After(summary, TakeAll(nodes, entries[i..], destination, windows))
               == TakeAll(old(nodes), entries, destination, windows)
      {
        AfterStep(summary, nodes, entries[i..], destination, windows);
        assert entries[i..][1..] == entries[i + 1..];
        var taken := Take(nodes, entries[i], destination, windows);
        nodes := taken.nodes;
        if taken.result.Err? {
          assert Outcome(nodes, taken.result) == taken;
          return taken.result;
        }
        summary := summary.Plus(taken.result.value);
        i := i + 1;
      }
      assert entries[i..] == [];
      TakeAllNone(nodes, destination, windows);
      AfterNone(summary, TakeAll(nodes, [], destination, windows));
      result := Ok(summary);
    }
  }

  lemma TakeAllNone(nodes: Files, destination: Option<Path>, windows: bool)
    requires ReadyFor(nodes, destination)
    ensures TakeAll(nodes, [], destination, windows) == Outcome(nodes, Ok(EMPTY))
  {
  }

  // ----- Checking without writing -----

  /** Verify writes nothing, and passes exactly when every name is safe and every kind is restorable. */
  lemma {:induction false} VerifyExactly(nodes: Files, entries: seq<TarEntry>, windows: bool)
    ensures var checked := TakeAll(nodes, entries, None, windows);
            && checked.nodes == nodes
            && (checked.result.Ok? <==>
                forall e | e in entries :: TargetFor(e.name, None, windows).Ok? && !e.kind.Unsupported?)
            && (checked.result.Ok? ==> checked.result.value == Tally(entries))
  {
    hide Escapes, EntryPath, Contained, Summary.Plus, Weight;
    if entries != [] {
      VerifyExactly(nodes, entries[1..], windows);
      assert entries == [entries[0]] + entries[1..];
    }
  }

  // ----- What an opening refuses -----

  /** A file where a folder must be, or anything where a new file must be. */
  predicate Obstructed(nodes: Files, entry: TarEntry, target: Path) {
    if entry.kind.Directory? then exists x | x in Prefixes(target) :: x in nodes && nodes[x].File?
    else target in nodes || exists x | x in Prefixes(target) && x != target :: x in nodes && nodes[x].File?
  }

  /** Why this entry is refused, if it is: its name, its kind, or what is in its way. */
  predicate RefusedFor(nodes: Files, entry: TarEntry, at: Path, windows: bool, why: Failure) {
    match TargetFor(entry.name, Some(at), windows)
    case Err(_) => why == Unsafe(entry.name)
    case Ok(None) => false
    case Ok(Some(target)) =>
      if entry.kind.Unsupported? then why == NotRestored(entry.name)
      else why == InTheWay(target) && Obstructed(nodes, entry, target)
  }

  lemma ParentPrefixes(target: Path)
    requires target != []
    ensures forall x :: x in Prefixes(target[..|target| - 1]) <==> x in Prefixes(target) && x != target
  {
  }

  lemma TakeExactly(nodes: Files, entry: TarEntry, at: Path, windows: bool)
    requires Canonical(at)
    ensures var taken := Take(nodes, entry, Some(at), windows);
      && (taken.result.Err? <==> exists why :: RefusedFor(nodes, entry, at, windows, why))
      && (taken.result.Err? ==> RefusedFor(nodes, entry, at, windows, taken.result.error))
      && (taken.result.Ok? ==> taken.result.value == Weight(entry))
  {
    TargetExactly(entry.name, at, windows);
    hide TargetFor, Segments, Canonical;
    match TargetFor(entry.name, Some(at), windows)
    case Err(_) => assert RefusedFor(nodes, entry, at, windows, Unsafe(entry.name));
    case Ok(target) =>
      ParentPrefixes(target.value);
      hide Prefixes;
      if entry.kind.Unsupported? {
        assert RefusedFor(nodes, entry, at, windows, NotRestored(entry.name));
      } else {
        TakeTo(nodes, entry, at, windows, target.value);
        hide Take;
        assert Obstructed(nodes, entry, target.value) ==> RefusedFor(nodes, entry, at, windows, InTheWay(target.value));
      }
  }

  /** The first entries of an archive are taken and the next is refused. */
  ghost predicate StopsAt(nodes: Files, entries: seq<TarEntry>, at: Path, windows: bool, i: nat, why: Failure)
    requires Canonical(at)
  {
    && i < |entries| && TakeAll(nodes, entries[..i], Some(at), windows).result.Ok?
    && RefusedFor(TakeAll(nodes, entries[..i], Some(at), windows).nodes, entries[i], at, windows, why)
  }

  lemma StopsFurtherOn(nodes: Files, entries: seq<TarEntry>, at: Path, windows: bool, i: nat, why: Failure)
    requires Canonical(at) && entries != [] && Take(nodes, entries[0], Some(at), windows).result.Ok?
    ensures StopsAt(Take(nodes, entries[0], Some(at), windows).nodes, entries[1..], at, windows, i, why)
      <==> StopsAt(nodes, entries, at, windows, i + 1, why)
  {
    hide Take, RefusedFor, Summary.Plus, Canonical;
    if i < |entries| - 1 {
      assert entries[..i + 1][1..] == entries[1..][..i] && entries[..i + 1][0] == entries[0];
      assert entries[1..][i] == entries[i + 1];
    }
  }

  lemma NothingStopsHere(nodes: Files, entries: seq<TarEntry>, at: Path, windows: bool, why: Failure)
    requires Canonical(at) && entries != [] && Take(nodes, entries[0], Some(at), windows).result.Ok?
    ensures !StopsAt(nodes, entries, at, windows, 0, why)
  {
    assert entries[..0] == [];
    TakeExactly(nodes, entries[0], at, windows);
    hide Take, RefusedFor, Canonical;
  }

  lemma AllGoOn(nodes: Files, entries: seq<TarEntry>, at: Path, windows: bool)
    requires Canonical(at) && entries != []
    requires var first := Take(nodes, entries[0], Some(at), windows);
      && first.result.Ok?
      && forall i: nat, why :: !StopsAt(first.nodes, entries[1..], at, windows, i, why)
    ensures forall i: nat, why :: !StopsAt(nodes, entries, at, windows, i, why)
  {
    hide Take, StopsAt, Canonical;
    forall i: nat, why ensures !StopsAt(nodes, entries, at, windows, i, why) {
      if i == 0 { NothingStopsHere(nodes, entries, at, windows, why); }
      else { StopsFurtherOn(nodes, entries, at, windows, i - 1, why); }
    }
  }

  lemma AllAreSafe(nodes: Files, entries: seq<TarEntry>, at: Path, windows: bool)
    requires Canonical(at) && entries != [] && Take(nodes, entries[0], Some(at), windows).result.Ok?
    requires forall e | e in entries[1..] :: TargetFor(e.name, Some(at), windows).Ok? && !e.kind.Unsupported?
    ensures forall e | e in entries :: TargetFor(e.name, Some(at), windows).Ok? && !e.kind.Unsupported?
  {
    hide TargetFor;
    assert entries == [entries[0]] + entries[1..];
  }

  /**
   * An opening fails exactly when it comes to an entry that it must refuse, and says why; one that succeeds has taken
   * every entry, each with a safe name and of a kind it can restore, and counts them all.
   */
  lemma {:induction false} OpeningExactly(nodes: Files, entries: seq<TarEntry>, at: Path, windows: bool)
    requires Canonical(at)
    ensures var done := TakeAll(nodes, entries, Some(at), windows);
      && (done.result.Err? ==> exists i: nat :: StopsAt(nodes, entries, at, windows, i, done.result.error))
      && (done.result.Ok? ==> forall i: nat, why :: !StopsAt(nodes, entries, at, windows, i, why))
      && (done.result.Ok? ==> done.result.value == Tally(entries))
      && (done.result.Ok? ==> forall e | e in entries :: TargetFor(e.name, Some(at), windows).Ok? && !e.kind.Unsupported?)
    decreases |entries|
  {
    hide Take, TargetFor, Obstructed, Summary.Plus, Weight, Canonical;
    if entries != [] {
      TakeExactly(nodes, entries[0], at, windows);
      var first := Take(nodes, entries[0], Some(at), windows);
      assert entries[..0] == [];
      if first.result.Ok? {
        OpeningExactly(first.nodes, entries[1..], at, windows);
        var rest := TakeAll(first.nodes, entries[1..], Some(at), windows);
        hide StopsAt;
        if rest.result.Err? {
          var i: nat :| StopsAt(first.nodes, entries[1..], at, windows, i, rest.result.error);
          StopsFurtherOn(nodes, entries, at, windows, i, rest.result.error);
        } else {
          AllGoOn(nodes, entries, at, windows);
          AllAreSafe(nodes, entries, at, windows);
        }
      } else {
        assert StopsAt(nodes, entries, at, windows, 0, first.result.error);
      }
    }
  }

  // ----- Nothing lands outside the destination -----

  ghost predicate Confined(before: Files, after: Files, destination: Path) {
    && (forall p | p in before :: p in after && after[p] == before[p])
    && (forall p | p in after && p !in before :: destination < p)
  }

  lemma FoldersStayInside(nodes: Files, destination: Path, target: Path)
    requires Grounded(nodes) && destination in nodes && destination <= target
    requires !Blocked(nodes, target)
    ensures Confined(nodes, WithFolders(nodes, target), destination)
    ensures Grounded(WithFolders(nodes, target))
    ensures WithFolders(nodes, target)[target] == Folder
  {
    var made := WithFolders(nodes, target);
    forall x | x in made && x !in nodes
      ensures destination < x
    {
      if x <= destination { AncestorOf(nodes, destination, x); }
      Comparable(destination, x, target);
    }
    forall x | x in made && x != []
      ensures x[..|x| - 1] in made && made[x[..|x| - 1]] == Folder
    {
      var up := x[..|x| - 1];
      if x <= target {
        assert up <= target && up in Prefixes(target);
      }
    }
    assert target in Prefixes(target);
  }

  lemma Comparable(a: Path, b: Path, t: Path)
    requires a <= t && b <= t
    ensures a < b || b <= a
  {
  }

  lemma TakeStaysInside(nodes: Files, entry: TarEntry, destination: Path, windows: bool)
    requires Grounded(nodes) && destination in nodes && Canonical(destination)
    ensures var taken := Take(nodes, entry, Some(destination), windows);
            Confined(nodes, taken.nodes, destination) && Grounded(taken.nodes)
  {
    TargetExactly(entry.name, destination, windows);
    hide TargetFor, Segments;
    var target := TargetFor(entry.name, Some(destination), windows);
    if target.Ok? && !entry.kind.Unsupported? {
      TakeTo(nodes, entry, destination, windows, target.value.value);
      if entry.kind.Directory? {
        DirectoryStaysInside(nodes, target.value.value, destination);
      } else {
        FileStaysInside(nodes, target.value.value, destination, entry.data);
      }
    }
  }

  lemma FileStaysGrounded(nodes: Files, target: Path, node: Node)
    requires Grounded(nodes) && target != [] && target !in nodes
    requires target[..|target| - 1] in nodes && nodes[target[..|target| - 1]] == Folder
    ensures Grounded(nodes[target := node])
  {
  }

  lemma FileStaysConfined(nodes: Files, made: Files, destination: Path, target: Path, node: Node)
    requires Confined(nodes, made, destination) && destination < target && target !in made
    ensures Confined(nodes, made[target := node], destination)
  {
  }

  lemma DirectoryStaysInside(nodes: Files, full: Path, destination: Path)
    requires Grounded(nodes) && destination in nodes && destination < full
    ensures Confined(nodes, TakeDirectory(nodes, full).nodes, destination)
    ensures Grounded(TakeDirectory(nodes, full).nodes)
  {
    if !Blocked(nodes, full) {
      FoldersStayInside(nodes, destination, full);
    }
    hide Blocked, WithFolders, Grounded;
  }

  lemma FileStaysInside(nodes: Files, full: Path, destination: Path, data: seq<byte>)
    requires Grounded(nodes) && destination in nodes && destination < full
    ensures Confined(nodes, TakeFile(nodes, full, data).nodes, destination)
    ensures Grounded(TakeFile(nodes, full, data).nodes)
  {
    var parent := full[..|full| - 1];
    if !Blocked(nodes, parent) {
      var made := WithFolders(nodes, parent);
      FoldersStayInside(nodes, destination, parent);
      assert parent in made;
      if full !in made {
        FileStaysGrounded(made, full, File(data));
        FileStaysConfined(nodes, made, destination, full, File(data));
      }
    }
    hide Blocked, WithFolders, Grounded, Confined;
  }

  /** Whatever an archive holds, opening it changes nothing that was there and adds only below the destination. */
  lemma {:induction false} ExtractionIsConfined(
    nodes: Files, entries: seq<TarEntry>, destination: Path, windows: bool)
    requires Grounded(nodes) && destination in nodes && Canonical(destination)
    ensures var done := TakeAll(nodes, entries, Some(destination), windows);
            Confined(nodes, done.nodes, destination) && Grounded(done.nodes)
    decreases |entries|
  {
    if entries != [] {
      TakeStaysInside(nodes, entries[0], destination, windows);
      var first := Take(nodes, entries[0], Some(destination), windows);
      if first.result.Ok? {
        ExtractionIsConfined(first.nodes, entries[1..], destination, windows);
      }
    }
  }

  // ----- The round trip -----

  /** The part of a tree that a list of its paths brings back: those paths and the folders on the way. */
  ghost function Closure(m: Files, paths: seq<Path>): Files {
    map p | p in m && p != [] && (exists w | w in paths :: p <= w) :: m[p]
  }

  /** What a disk holds once a tree has been put below one of its folders: that tree there, and no other change. */
  ghost predicate Restores(before: Files, after: Files, at: Path, tree: Files) {
    && (forall x | at < x :: x in after <==> x[|at|..] in tree)
    && (forall x | at < x && x in after :: after[x] == tree[x[|at|..]])
    && (forall x | !(at < x) :: x in after <==> x in before)
    && (forall x | !(at < x) && x in after :: after[x] == before[x])
  }

  ghost predicate FreshFolder(nodes: Files, at: Path) {
    && Grounded(nodes) && Canonical(at)
    && at in nodes && nodes[at] == Folder
    && forall p | p in nodes :: !(at < p)
  }

  predicate Restorable(p: Path, windows: bool) {
    p != [] && Canonical(p) && Separatorless(p) && (windows ==> ':' !in Spelled(p))
  }

  lemma BelowOrAbove(at: Path, p: Path, x: Path)
    requires x <= at + p
    ensures at < x ==> x[|at|..] <= p && x[|at|..] != []
    ensures !(at < x) ==> x <= at
  {
    var t := at + p;
    assert t[..|at|] == at;
    if |x| > |at| {
      assert x[..|at|] == t[..|at|];
      assert p == t[|at|..];
    } else {
      assert x == t[..|x|] == at[..|x|];
    }
  }

  lemma ShiftedPrefix(at: Path, p: Path, x: Path)
    requires at < x
    ensures x <= at + p <==> x[|at|..] <= p
  {
    assert x == at + x[|at|..];
    if x <= at + p { BelowOrAbove(at, p, x); }
  }

  lemma ClosureGrows(m: Files, paths: seq<Path>, p: Path, q: Path)
    ensures q in Closure(m, paths + [p]) <==> q in Closure(m, paths) || (q in m && q != [] && q <= p)
  {
    forall w | w in paths && q <= w ensures exists v | v in paths + [p] :: q <= v {
      assert w in paths + [p];
    }
    assert p in paths + [p];
  }

  /** The way down to a path of the tree is all folders, before and after. */
  lemma WayIsClear(nodes: Files, now: Files, at: Path, m: Files, paths: seq<Path>, p: Path)
    requires FreshFolder(nodes, at) && IsTree(m) && p in m && m[p] == Folder
    requires Restores(nodes, now, at, Closure(m, paths))
    ensures !Blocked(now, at + p)
  {
    forall x | x <= at + p && x in now
      ensures now[x] == Folder
    {
      BelowOrAbove(at, p, x);
      if at < x {
        AncestorOf(m, p, x[|at|..]);
      } else {
        AncestorOf(nodes, at, x);
      }
    }
  }

  lemma FoldersExtend(nodes: Files, now: Files, at: Path, m: Files, paths: seq<Path>, p: Path)
    requires FreshFolder(nodes, at) && IsTree(m) && p in m && m[p] == Folder
    requires Restores(nodes, now, at, Closure(m, paths))
    ensures Restores(nodes, WithFolders(now, at + p), at, Closure(m, paths + [p]))
  {
    var made := WithFolders(now, at + p);
    forall x | at < x
      ensures x in made <==> x[|at|..] in Closure(m, paths + [p])
      ensures x in made ==> made[x] == m[x[|at|..]]
    {
      ShiftedPrefix(at, p, x);
      ClosureGrows(m, paths, p, x[|at|..]);
      if x <= at + p {
        AncestorOf(m, p, x[|at|..]);
      }
    }
    forall x | !(at < x) && x <= at + p
      ensures x in nodes
    {
      BelowOrAbove(at, p, x);
      AncestorOf(nodes, at, x);
    }
  }

  lemma ClosureWithFile(m: Files, paths: seq<Path>, p: Path)
    requires IsTree(m) && p in m && m[p].File? && p != []
    ensures Closure(m, paths + [p]) == Closure(m, paths + [p[..|p| - 1]])[p := m[p]]
  {
    var up := p[..|p| - 1];
    forall q
      ensures q in Closure(m, paths + [p]) <==> q in Closure(m, paths + [up]) || q == p
    {
      ClosureGrows(m, paths, up, q);
      ClosureGrows(m, paths, p, q);
      assert q <= p <==> q == p || q <= up;
    }
  }

  lemma RestoresOne(before: Files, after: Files, at: Path, tree: Files, p: Path, node: Node)
    requires Restores(before, after, at, tree) && p != []
    ensures Restores(before, after[at + p := node], at, tree[p := node])
  {
    assert (at + p)[|at|..] == p && at < at + p;
    forall x | at < x && x[|at|..] == p ensures x == at + p {
      assert x == at + x[|at|..];
    }
  }

  lemma NotThereYet(nodes: Files, made: Files, at: Path, m: Files, paths: seq<Path>, p: Path)
    requires IsTree(m) && p in m && m[p].File? && p != []
    requires forall w | w in paths :: w in m && w != p
    requires Restores(nodes, made, at, Closure(m, paths + [p[..|p| - 1]]))
    ensures at + p !in made
  {
    var up := p[..|p| - 1];
    forall w | w in paths ensures !(p <= w) {
      if p <= w { AncestorOf(m, w, p); }
    }
    assert p !in Closure(m, paths);
    ClosureGrows(m, paths, up, p);
    assert (at + p)[|at|..] == p && at < at + p;
  }

  lemma FileExtends(nodes: Files, now: Files, at: Path, m: Files, paths: seq<Path>, p: Path)
    requires FreshFolder(nodes, at) && IsTree(m) && p in m && m[p].File? && p != []
    requires forall w | w in paths :: w in m && w != p
    requires Restores(nodes, now, at, Closure(m, paths))
    ensures var made := WithFolders(now, at + p[..|p| - 1]);
            && at + p !in made
            && Restores(nodes, made[at + p := m[p]], at, Closure(m, paths + [p]))
  {
    var up := p[..|p| - 1];
    FoldersExtend(nodes, now, at, m, paths, up);
    var made := WithFolders(now, at + up);
    NotThereYet(nodes, made, at, m, paths, p);
    RestoresOne(nodes, made, at, Closure(m, paths + [up]), p, m[p]);
    ClosureWithFile(m, paths, p);
  }

  lemma SealedEntryLands(m: Files, now: Files, at: Path, p: Path, windows: bool)
    requires Canonical(at) && p in m && Restorable(p, windows)
    ensures EntryOf(m, p).kind.Directory? <==> m[p] == Folder
    ensures Take(now, EntryOf(m, p), Some(at), windows) ==
            match m[p]
            case Folder => TakeDirectory(now, at + p)
            case File(data) => TakeFile(now, at + p, data)
  {
    OrdinaryNamesAreAccepted(p, at, windows);
    SpelledIsNormal(p);
    TakeTo(now, EntryOf(m, p), at, windows, at + p);
    hide TargetFor, Take, TakeDirectory, TakeFile, Normalised, Spelled;
  }

  lemma TakeFolderExtends(nodes: Files, now: Files, at: Path, m: Files, paths: seq<Path>, p: Path)
    requires FreshFolder(nodes, at) && IsTree(m) && p in m && m[p] == Folder
    requires Restores(nodes, now, at, Closure(m, paths))
    ensures var taken := TakeDirectory(now, at + p);
            && taken.result == Ok(Summary(0, 1, 0, 0))
            && Restores(nodes, taken.nodes, at, Closure(m, paths + [p]))
  {
    WayIsClear(nodes, now, at, m, paths, p);
    FoldersExtend(nodes, now, at, m, paths, p);
    hide Blocked, WithFolders, Restores, Closure, IsTree, FreshFolder;
  }

  lemma TakeFileExtends(nodes: Files, now: Files, at: Path, m: Files, paths: seq<Path>, p: Path)
    requires FreshFolder(nodes, at) && IsTree(m) && p in m && m[p].File? && p != []
    requires forall w | w in paths :: w in m && w != p
    requires Restores(nodes, now, at, Closure(m, paths))
    ensures var taken := TakeFile(now, at + p, m[p].data);
            && taken.result == Ok(Summary(1, 0, 0, |m[p].data|))
            && Restores(nodes, taken.nodes, at, Closure(m, paths + [p]))
  {
    var up := p[..|p| - 1];
    WayIsClear(nodes, now, at, m, paths, up);
    FileExtends(nodes, now, at, m, paths, p);
    assert (at + p)[..|at + p| - 1] == at + up;
    hide Blocked, WithFolders, Restores, Closure, IsTree, FreshFolder;
  }

  /** One entry of a sealed tree, opened. */
  lemma TakeExtends(nodes: Files, now: Files, at: Path, m: Files, paths: seq<Path>, p: Path, windows: bool)
    requires FreshFolder(nodes, at) && IsTree(m) && p in m && Restorable(p, windows)
    requires forall w | w in paths :: w in m && w != p
    requires Restores(nodes, now, at, Closure(m, paths))
    ensures var taken := Take(now, EntryOf(m, p), Some(at), windows);
            && taken.result == Ok(Weight(EntryOf(m, p)))
            && Restores(nodes, taken.nodes, at, Closure(m, paths + [p]))
  {
    SealedEntryLands(m, now, at, p, windows);
    hide Take, TakeDirectory, TakeFile, Restores, Closure, IsTree, Normalised, Spelled;
    if m[p] == Folder {
      TakeFolderExtends(nodes, now, at, m, paths, p);
    } else {
      TakeFileExtends(nodes, now, at, m, paths, p);
    }
  }

  ghost predicate Distinct(paths: seq<Path>) {
    forall i, j | 0 <= i < j < |paths| :: paths[i] != paths[j]
  }

  lemma {:induction false} OpeningRestores(
    nodes: Files, now: Files, at: Path, m: Files, done: seq<Path>, todo: seq<Path>, windows: bool)
    requires FreshFolder(nodes, at) && IsTree(m)
    requires forall p | p in todo :: p in m && Restorable(p, windows)
    requires forall p | p in done :: p in m
    requires Distinct(done + todo)
    requires Restores(nodes, now, at, Closure(m, done))
    ensures var got := TakeAll(now, Sealed(m, todo), Some(at), windows);
            && got.result == Ok(Tally(Sealed(m, todo)))
            && Restores(nodes, got.nodes, at, Closure(m, done + todo))
    decreases |todo|
  {
    hide Take, Restores, Closure, EntryOf, Weight, Summary.Plus, Restorable, IsTree;
    if todo == [] {
      assert done + todo == done;
    } else {
      var p := todo[0];
      forall w | w in done ensures w != p {
        var i :| 0 <= i < |done| && done[i] == w;
        assert (done + todo)[i] == w && (done + todo)[|done|] == p;
      }
      TakeExtends(nodes, now, at, m, done, p, windows);
      assert Sealed(m, todo)[0] == EntryOf(m, p);
      assert Sealed(m, todo)[1..] == Sealed(m, todo[1..]);
      assert (done + [p]) + todo[1..] == done + todo;
      var taken := Take(now, EntryOf(m, p), Some(at), windows);
      OpeningRestores(nodes, taken.nodes, at, m, done + [p], todo[1..], windows);
    }
  }

  // ----- Sealing a tree and opening it again -----

  /** The part of a tree that a backup holds. */
  ghost function KeptPart(m: Files): Files {
    map p | p in m && p != [] && Kept(p) :: m[p]
  }

  lemma StillThereKeepsOrder(paths: seq<Path>, gone: set<Path>)
    requires Distinct(paths)
    ensures Distinct(StillThere(paths, gone))
  {
    if paths != [] {
      var front := paths[..|paths| - 1];
      StillThereKeepsOrder(front, gone);
      assert paths[|paths| - 1] !in front;
    }
  }

  lemma TreeIsDistinct(m: Files)
    ensures Distinct(Tree(m))
  {
    WalkParentsFirst(m, [], Pruned);
  }

  /**
   * Whatever disappeared while the tree was read, opening the archive into a fresh folder rebuilds what was
   * sealed, with the folders on the way to it, and reports the same numbers.
   */
  lemma OpeningUndoesSealing(nodes: Files, at: Path, m: Files, gone: set<Path>, windows: bool)
    requires FreshFolder(nodes, at) && IsTree(m)
    requires forall p | p in Tree(m) && p !in gone :: Separatorless(p) && (windows ==> ':' !in Spelled(p))
    ensures var paths := StillThere(Tree(m), gone);
            var got := TakeAll(nodes, Sealed(m, paths), Some(at), windows);
            && got.result == Ok(Tally(Sealed(m, paths)))
            && Restores(nodes, got.nodes, at, Closure(m, paths))
  {
    var paths := StillThere(Tree(m), gone);
    TreeIsDistinct(m);
    StillThereKeepsOrder(Tree(m), gone);
    forall p | p in paths
      ensures Restorable(p, windows)
    {
      WalkExactly(m, p);
    }
    assert [] + paths == paths;
    assert Closure(m, []) == map[];
    OpeningRestores(nodes, nodes, at, m, [], paths, windows);
  }

  lemma {:induction false} NothingGone(paths: seq<Path>)
    ensures StillThere(paths, {}) == paths
  {
    if paths != [] {
      NothingGone(paths[..|paths| - 1]);
    }
  }

  lemma ClosureOfTree(m: Files)
    requires IsTree(m)
    ensures Closure(m, Tree(m)) == KeptPart(m)
  {
    forall p | p in m && p != []
      ensures p in Closure(m, Tree(m)) <==> Kept(p)
    {
      WalkExactly(m, p);
      forall w | w in Tree(m) && p <= w ensures Kept(p) {
        WalkExactly(m, w);
        if Pruned(p) { PrunedIsInherited(p, w); }
      }
    }
  }

  // ----- Exactly when the round trip is faithful -----

  /** Below a folder, no name holds a separator. */
  ghost predicate CleanBelow(nodes: Files, at: Path) {
    forall x | x in nodes && at < x :: Separatorless(x[|at|..])
  }

  lemma FoldersStayClean(nodes: Files, at: Path, p: Path)
    requires CleanBelow(nodes, at) && Separatorless(p)
    ensures CleanBelow(WithFolders(nodes, at + p), at)
  {
    forall x | x <= at + p && at < x
      ensures Separatorless(x[|at|..])
    {
      BelowOrAbove(at, p, x);
    }
  }

  lemma TargetStaysClean(nodes: Files, at: Path, p: Path, data: seq<byte>)
    requires CleanBelow(nodes, at) && Separatorless(p) && p != []
    ensures CleanBelow(TakeDirectory(nodes, at + p).nodes, at)
    ensures CleanBelow(TakeFile(nodes, at + p, data).nodes, at)
  {
    FoldersStayClean(nodes, at, p);
    var up := p[..|p| - 1];
    assert (at + p)[..|at + p| - 1] == at + up;
    FoldersStayClean(nodes, at, up);
    assert (at + p)[|at|..] == p;
    hide Blocked, WithFolders;
  }

  lemma {:induction false} OpeningStaysClean(nodes: Files, entries: seq<TarEntry>, at: Path, windows: bool)
    requires Canonical(at) && CleanBelow(nodes, at)
    ensures CleanBelow(TakeAll(nodes, entries, Some(at), windows).nodes, at)
    decreases |entries|
  {
    if entries != [] {
      var entry := entries[0];
      TargetExactly(entry.name, at, windows);
      SegmentsHaveNoSeparators(entry.name);
      hide TargetFor, Segments, CleanBelow;
      var target := TargetFor(entry.name, Some(at), windows);
      if target.Ok? && !entry.kind.Unsupported? {
        TakeTo(nodes, entry, at, windows, target.value.value);
        TargetStaysClean(nodes, at, Segments(entry.name), entry.data);
      }
      var first := Take(nodes, entry, Some(at), windows);
      assert CleanBelow(first.nodes, at);
      if first.result.Ok? {
        OpeningStaysClean(first.nodes, entries[1..], at, windows);
      }
    }
  }

  lemma KeptIsVisited(m: Files)
    requires IsTree(m)
    ensures forall p | p in Tree(m) :: p != [] && p in KeptPart(m)
  {
    forall p | p in Tree(m) ensures p != [] && p in KeptPart(m) {
      WalkExactly(m, p);
    }
  }

  lemma CleanWhereItLands(before: Files, after: Files, at: Path, tree: Files, p: Path)
    requires Restores(before, after, at, tree) && CleanBelow(after, at) && p in tree && p != []
    ensures Separatorless(p)
  {
    hide Separatorless;
    var x := at + p;
    assert x[|at|..] == p && at < x;
    assert x in after;
  }

  /** Only names without a separator can come back at all. */
  lemma OnlyCleanNamesComeBack(nodes: Files, at: Path, m: Files)
    requires FreshFolder(nodes, at) && IsTree(m)
    requires Restores(nodes, TakeAll(nodes, Sealed(m, Tree(m)), Some(at), false).nodes, at, KeptPart(m))
    ensures forall p | p in Tree(m) :: Separatorless(p)
  {
    var entries := Sealed(m, Tree(m));
    var got := TakeAll(nodes, entries, Some(at), false).nodes;
    hide TakeAll, Sealed, Separatorless, Tree, KeptPart, Restores;
    OpeningStaysClean(nodes, entries, at, false);
    hide CleanBelow;
    KeptIsVisited(m);
    forall p | p in Tree(m) ensures Separatorless(p) {
      CleanWhereItLands(nodes, got, at, KeptPart(m), p);
    }
  }

  /** A backup restores to exactly what it was taken from if and only if no name it holds contains a backslash. */
  lemma RoundTripExactly(nodes: Files, at: Path, m: Files)
    requires FreshFolder(nodes, at) && IsTree(m)
    ensures var entries := Sealed(m, Tree(m));
            var got := TakeAll(nodes, entries, Some(at), false);
            got.result == Ok(Tally(entries)) && Restores(nodes, got.nodes, at, KeptPart(m))
            <==> forall p | p in Tree(m) :: Separatorless(p)
  {
    ClosureOfTree(m);
    NothingGone(Tree(m));
    hide TakeAll, Sealed, Tally, Tree, Restores, FreshFolder, Separatorless;
    if forall p | p in Tree(m) :: Separatorless(p) {
      OpeningUndoesSealing(nodes, at, m, {}, false);
    }
    if Restores(nodes, TakeAll(nodes, Sealed(m, Tree(m)), Some(at), false).nodes, at, KeptPart(m)) {
      OnlyCleanNamesComeBack(nodes, at, m);
    }
  }

  const BACKSLASHED: Path := ["a\\b"]

  function OneFile(data: seq<byte>): Files {
    map[[] := Folder, BACKSLASHED := File(data)]
  }

  lemma OneFileIsATree(data: seq<byte>)
    ensures IsTree(OneFile(data))
  {
    assert BACKSLASHED[..|BACKSLASHED| - 1] == [];
    assert Plain("a\\b");
  }

  lemma CleanCannotHold(nodes: Files, got: Files, at: Path, tree: Files, p: Path)
    requires CleanBelow(got, at) && p in tree && p != [] && !Separatorless(p)
    ensures !Restores(nodes, got, at, tree)
  {
    assert (at + p)[|at|..] == p && at < at + p;
  }

  /** One file whose name is a backslash between two letters comes back as a folder and a file in it. */
  lemma ABackslashDoesNotSurvive(nodes: Files, at: Path, data: seq<byte>)
    requires FreshFolder(nodes, at)
    ensures IsTree(OneFile(data))
    ensures var m := OneFile(data);
            !Restores(nodes, TakeAll(nodes, Sealed(m, Tree(m)), Some(at), false).nodes, at, KeptPart(m))
  {
    var m, p := OneFile(data), BACKSLASHED;
    OneFileIsATree(data);
    BackslashFileIsKept();
    assert p in m && p != [] && !Separatorless(p) by { assert '\\' in p[0]; }
    assert CleanBelow(nodes, at);
    hide Kept, OneFile, Tree, Sealed, TakeAll, Separatorless, CleanBelow, Restores, IsTree, FreshFolder;
    OpeningStaysClean(nodes, Sealed(m, Tree(m)), at, false);
    CleanCannotHold(nodes, TakeAll(nodes, Sealed(m, Tree(m)), Some(at), false).nodes, at, KeptPart(m), p);
  }

  lemma BackslashFileIsKept()
    ensures Kept(BACKSLASHED)
  {
    assert Spelled(["a\\b"]) == "a\\b";
    assert Replaced("a\\b", '\\', '/') == "a/b";
  }

  // ----- The numbers are the tree's -----

  ghost function FilesAmong(m: Files, paths: seq<Path>): set<Path> {
    set p | p in paths && p in m && m[p].File?
  }

  ghost function FoldersAmong(m: Files, paths: seq<Path>): set<Path> {
    set p | p in paths && p in m && m[p].Folder?
  }

  /** How many bytes a set of files holds. */
  ghost function SizeOf(m: Files, files: set<Path>): nat
    requires forall p | p in files :: p in m && m[p].File?
  {
    if files == {} then 0
    else
      var p :| p in files;
      |m[p].data| + SizeOf(m, files - {p})
  }

  lemma {:induction false} SizeOfAny(m: Files, files: set<Path>, p: Path)
    requires (forall q | q in files :: q in m && m[q].File?) && p in files
    ensures SizeOf(m, files) == |m[p].data| + SizeOf(m, files - {p})
    decreases files
  {
    var q :| q in files && SizeOf(m, files) == |m[q].data| + SizeOf(m, files - {q});
    if q != p {
      SizeOfAny(m, files - {q}, p);
      SizeOfAny(m, files - {p}, q);
      assert files - {q} - {p} == files - {p} - {q};
    }
  }

  lemma AmongGrows(m: Files, paths: seq<Path>)
    requires paths != [] && paths[0] in m && paths[0] !in paths[1..]
    ensures |FilesAmong(m, paths)| == |FilesAmong(m, paths[1..])| + if m[paths[0]].File? then 1 else 0
    ensures |FoldersAmong(m, paths)| == |FoldersAmong(m, paths[1..])| + if m[paths[0]].Folder? then 1 else 0
  {
    var p := paths[0];
    assert FilesAmong(m, paths) == FilesAmong(m, paths[1..]) + if m[p].File? then {p} else {};
    assert FoldersAmong(m, paths) == FoldersAmong(m, paths[1..]) + if m[p].Folder? then {p} else {};
  }

  lemma SizeGrows(m: Files, paths: seq<Path>)
    requires paths != [] && paths[0] in m && paths[0] !in paths[1..]
    ensures SizeOf(m, FilesAmong(m, paths))
         == SizeOf(m, FilesAmong(m, paths[1..])) + if m[paths[0]].File? then |m[paths[0]].data| else 0
  {
    var p := paths[0];
    if m[p].File? {
      SizeOfAny(m, FilesAmong(m, paths), p);
      assert FilesAmong(m, paths) - {p} == FilesAmong(m, paths[1..]);
    } else {
      assert FilesAmong(m, paths) == FilesAmong(m, paths[1..]);
    }
  }

  lemma WeightOfEntry(m: Files, p: Path, rest: Summary)
    requires p in m
    ensures Weight(EntryOf(m, p)).Plus(rest).files == rest.files + if m[p].File? then 1 else 0
    ensures Weight(EntryOf(m, p)).Plus(rest).directories == rest.directories + if m[p].Folder? then 1 else 0
    ensures Weight(EntryOf(m, p)).Plus(rest).skipped == rest.skipped
    ensures Weight(EntryOf(m, p)).Plus(rest).bytes == rest.bytes + if m[p].File? then |m[p].data| else 0
  {
    hide Normalised, Spelled;
  }

  /** What is reported is how many files and folders the archive really holds, and how many bytes are in the files. */
  lemma {:induction false} CountsAreTheTrees(m: Files, paths: seq<Path>)
    requires Distinct(paths) && forall p | p in paths :: p in m
    ensures Tally(Sealed(m, paths)).files == |FilesAmong(m, paths)|
    ensures Tally(Sealed(m, paths)).directories == |FoldersAmong(m, paths)|
    ensures Tally(Sealed(m, paths)).skipped == 0
    ensures Tally(Sealed(m, paths)).bytes == SizeOf(m, FilesAmong(m, paths))
    decreases |paths|
  {
    hide EntryOf, Weight, Summary.Plus;
    if paths == [] {
      assert FilesAmong(m, paths) == {} && FoldersAmong(m, paths) == {};
    } else {
      assert Sealed(m, paths)[1..] == Sealed(m, paths[1..]);
      CountsAreTheTrees(m, paths[1..]);
      AmongGrows(m, paths);
      SizeGrows(m, paths);
      hide SizeOf, FilesAmong, FoldersAmong;
      WeightOfEntry(m, paths[0], Tally(Sealed(m, paths[1..])));
    }
  }
}
