/**
 * Retention at a backup destination: which archives a window removes, and what any number of
 * overlapping passes can do to what is stored.
 */
module Retention {
  import opened Results
  import opened Text

  /** Ticks of 100 ns since the start of the calendar. */
  type Instant = nat

  const TICKS_PER_DAY: nat := 864_000_000_000

  datatype RemoteArchive = RemoteArchive(name: string, bytes: int)

  /** The instant a name carries; None when it carries none, and the archive is then not ours. */
  type Naming = string -> Option<Instant>

  /** The one exception the rule can raise: the cutoff falls before the calendar begins. */
  datatype Trouble = BeforeTheCalendar

  predicate Ours(name: string, instantOf: Naming) {
    instantOf(name).Some?
  }

  predicate OlderThan(name: string, cutoff: Instant, instantOf: Naming) {
    Ours(name, instantOf) && instantOf(name).value < cutoff
  }

  predicate AtOrAfter(name: string, cutoff: Instant, instantOf: Naming) {
    Ours(name, instantOf) && cutoff <= instantOf(name).value
  }

  function Expired(all: seq<RemoteArchive>, now: Instant, retentionDays: int, instantOf: Naming)
    : Result<seq<RemoteArchive>, Trouble>
  {
    if retentionDays <= 0 then Ok([])
    else if now < retentionDays * TICKS_PER_DAY then Err(BeforeTheCalendar)
    else
      var cutoff := now - retentionDays * TICKS_PER_DAY;
      var ours := Filter((a: RemoteArchive) => Ours(a.name, instantOf), all);
      var past := Filter((a: RemoteArchive) => OlderThan(a.name, cutoff, instantOf), ours);
      if |past| == |ours| then Ok([]) else Ok(past)
  }

  lemma {:induction false} FilterShorter<T>(keep: T -> bool, s: seq<T>)
    ensures |Filter(keep, s)| == |s| <==> forall x | x in s :: keep(x)
  {
    if s != [] {
      FilterShorter(keep, s[1..]);
      assert forall x | x in s :: x == s[0] || x in s[1..];
    }
  }

  /** The floor: something is removed exactly when something of ours is young enough to stay. */
  lemma ExpiredExactly(all: seq<RemoteArchive>, now: Instant, retentionDays: int, instantOf: Naming, a: RemoteArchive)
    requires Expired(all, now, retentionDays, instantOf).Ok?
    ensures var cutoff := now - retentionDays * 864_000_000_000;
      a in Expired(all, now, retentionDays, instantOf).value <==>
        && retentionDays > 0 && a in all
        && instantOf(a.name).Some? && instantOf(a.name).value < cutoff
        && exists y | y in all :: instantOf(y.name).Some? && instantOf(y.name).value >= cutoff
  {
    if retentionDays > 0 {
      var cutoff := now - retentionDays * TICKS_PER_DAY;
      var ours := Filter((x: RemoteArchive) => Ours(x.name, instantOf), all);
      var young := (x: RemoteArchive) => OlderThan(x.name, cutoff, instantOf);
      FilterShorter(young, ours);
      if |Filter(young, ours)| != |ours| {
        var y :| y in ours && !young(y);
        assert y in all && AtOrAfter(y.name, cutoff, instantOf);
      }
      forall y | y in all && AtOrAfter(y.name, cutoff, instantOf)
        ensures |Filter(young, ours)| != |ours|
      {
        assert y in ours && !young(y);
      }
    }
  }

  lemma OneFiltered<T>(keep: T -> bool, x: T)
    ensures Filter(keep, [x]) == if keep(x) then [x] else []
  {
    assert [x][1..] == [];
  }

  lemma {:induction false} NoneFiltered<T>(keep: T -> bool, s: seq<T>)
    requires forall x | x in s :: !keep(x)
    ensures Filter(keep, s) == []
  {
    if s != [] {
      assert s[0] in s;
      NoneFiltered(keep, s[1..]);
    }
  }

  lemma {:induction false} FilterTwice<T>(first: T -> bool, second: T -> bool, both: T -> bool, s: seq<T>)
    requires forall x | x in s :: both(x) <==> first(x) && second(x)
    ensures Filter(second, Filter(first, s)) == Filter(both, s)
  {
    if s != [] {
      var rest := Filter(first, s[1..]);
      assert Filter(second, Filter(first, s)) == (if both(s[0]) then [s[0]] else []) + Filter(second, rest) by {
        assert s[0] in s;
        FilterAppend(second, if first(s[0]) then [s[0]] else [], rest);
        assert [] + rest == rest;
        OneFiltered(second, s[0]);
      }
      FilterTwice(first, second, both, s[1..]);
    }
  }

  /** What is removed is taken from the listing in its order, as often as it is listed. */
  lemma ExpiredKeepsOrder(all: seq<RemoteArchive>, now: Instant, retentionDays: int, instantOf: Naming)
    requires Expired(all, now, retentionDays, instantOf).Ok?
    ensures var past := Expired(all, now, retentionDays, instantOf).value;
      past == Filter((a: RemoteArchive) => a in past, all)
  {
    var past := Expired(all, now, retentionDays, instantOf).value;
    var kept := (a: RemoteArchive) => a in past;
    if past == [] {
      NoneFiltered(kept, all);
    } else {
      var cutoff := now - retentionDays * TICKS_PER_DAY;
      var ours := (a: RemoteArchive) => Ours(a.name, instantOf);
      var older := (a: RemoteArchive) => OlderThan(a.name, cutoff, instantOf);
      forall a | a in all ensures kept(a) <==> ours(a) && older(a) { assert past == Filter(older, Filter(ours, all)); }
      FilterTwice(ours, older, kept, all);
    }
  }

  /** A listing cut short only ever removes less: its answer is contained in the full one's. */
  lemma PartialListingRemovesLess(
    part: seq<RemoteArchive>, all: seq<RemoteArchive>, now: Instant, retentionDays: int, instantOf: Naming)
    requires forall a | a in part :: a in all
    requires Expired(part, now, retentionDays, instantOf).Ok?
    ensures Expired(all, now, retentionDays, instantOf).Ok?
    ensures forall a | a in Expired(part, now, retentionDays, instantOf).value ::
              a in Expired(all, now, retentionDays, instantOf).value
  {
    forall a | a in Expired(part, now, retentionDays, instantOf).value
      ensures a in Expired(all, now, retentionDays, instantOf).value
    {
      ExpiredExactly(part, now, retentionDays, instantOf, a);
      ExpiredExactly(all, now, retentionDays, instantOf, a);
    }
  }

  // ----- Overlapping passes over one destination -----

  /** A stored object. A listing shows only its name; a delete reaches only the target's own folder. */
  datatype Blob = Blob(folder: string, name: string)

  const OWN_FOLDER: string := ""

  datatype Pass =
    | Listing(found: seq<RemoteArchive>)
    | Deleting(todo: seq<RemoteArchive>)

  datatype State = State(blobs: set<Blob>, passes: map<nat, Pass>)

  datatype Step =
    | Upload(blob: Blob)
    | Begin(id: nat)
    | PageArrives(id: nat, page: seq<RemoteArchive>)
    | Decide(id: nat, now: Instant, retentionDays: int)
    | DeleteNext(id: nat, accepted: bool)
    | Abandon(id: nat)

  predicate Stored(s: State, name: string) {
    exists b | b in s.blobs :: b.name == name
  }

  /** A page shows names that are stored while it is read; pages of one listing are read at different times. */
  predicate Enabled(s: State, step: Step) {
    match step
    case Upload(_) => true
    case Begin(id) => id !in s.passes
    case PageArrives(id, page) =>
      id in s.passes && s.passes[id].Listing? && forall a | a in page :: Stored(s, a.name)
    case Decide(id, _, _) => id in s.passes && s.passes[id].Listing?
    case DeleteNext(id, _) => id in s.passes && s.passes[id].Deleting? && s.passes[id].todo != []
    case Abandon(id) => id in s.passes
  }

  function Apply(s: State, step: Step, instantOf: Naming): State
    requires Enabled(s, step)
  {
    match step
    case Upload(blob) => s.(blobs := s.blobs + {blob})
    case Begin(id) => s.(passes := s.passes[id := Listing([])])
    case PageArrives(id, page) => s.(passes := s.passes[id := Listing(s.passes[id].found + page)])
    case Decide(id, now, days) =>
      (match Expired(s.passes[id].found, now, days, instantOf)
       case Ok(past) => s.(passes := s.passes[id := Deleting(past)])
       case Err(_) => s.(passes := s.passes - {id}))
    case DeleteNext(id, accepted) =>
      var todo := s.passes[id].todo;
      s.(blobs := if accepted then s.blobs - {Blob(OWN_FOLDER, todo[0].name)} else s.blobs,
         passes := s.passes[id := Deleting(todo[1..])])
    case Abandon(id) => s.(passes := s.passes - {id})
  }

  predicate Runs(s: State, steps: seq<Step>, instantOf: Naming)
    decreases |steps|
  {
    steps == [] || (Enabled(s, steps[0]) && Runs(Apply(s, steps[0], instantOf), steps[1..], instantOf))
  }

  function After(s: State, steps: seq<Step>, instantOf: Naming): State
    requires Runs(s, steps, instantOf)
    decreases |steps|
  {
    if steps == [] then s else After(Apply(s, steps[0], instantOf), steps[1..], instantOf)
  }

  // ----- The largest cutoff that has removed anything -----

  function Later(m: Option<Instant>, cutoff: Instant): (r: Option<Instant>) {
    Some(if m.Some? && cutoff < m.value then m.value else cutoff)
  }

  function Cutoff(s: State, step: Step, m: Option<Instant>, instantOf: Naming): Option<Instant>
    requires Enabled(s, step)
  {
    if step.Decide? then
      match Expired(s.passes[step.id].found, step.now, step.retentionDays, instantOf)
      case Ok(past) => if past == [] then m else Later(m, step.now - step.retentionDays * TICKS_PER_DAY)
      case Err(_) => m
    else m
  }

  function HighestCutoff(s: State, steps: seq<Step>, m: Option<Instant>, instantOf: Naming): Option<Instant>
    requires Runs(s, steps, instantOf)
    decreases |steps|
  {
    if steps == [] then m
    else HighestCutoff(Apply(s, steps[0], instantOf), steps[1..], Cutoff(s, steps[0], m, instantOf), instantOf)
  }

  predicate Below(name: string, m: Option<Instant>, instantOf: Naming) {
    m.Some? && OlderThan(name, m.value, instantOf)
  }

  ghost predicate Survivor(s: State, m: Option<Instant>, instantOf: Naming) {
    m.Some? ==> exists b | b in s.blobs :: AtOrAfter(b.name, m.value, instantOf)
  }

  ghost predicate PassSound(p: Pass, s: State, m: Option<Instant>, instantOf: Naming) {
    match p
    case Listing(found) =>
      forall a | a in found && Ours(a.name, instantOf) :: Stored(s, a.name) || Below(a.name, m, instantOf)
    case Deleting(todo) =>
      forall a | a in todo :: Below(a.name, m, instantOf)
  }

  ghost predicate Sound(s: State, m: Option<Instant>, instantOf: Naming) {
    && Survivor(s, m, instantOf)
    && forall id | id in s.passes :: PassSound(s.passes[id], s, m, instantOf)
  }

  lemma StepKeepsSound(s: State, step: Step, m: Option<Instant>, instantOf: Naming)
    requires Sound(s, m, instantOf) && Enabled(s, step)
    ensures Sound(Apply(s, step, instantOf), Cutoff(s, step, m, instantOf), instantOf)
  {
    var t := Apply(s, step, instantOf);
    match step
    case Upload(blob) =>
      if m.Some? {
        var b :| b in s.blobs && AtOrAfter(b.name, m.value, instantOf);
        assert b in t.blobs;
      }
      forall name | Stored(s, name) ensures Stored(t, name) {
        var w :| w in s.blobs && w.name == name;
        assert w in t.blobs;
      }
    case Begin(id) =>
    case PageArrives(id, page) =>
      forall name | Stored(s, name) ensures Stored(t, name) {}
    case Decide(id, now, days) =>
      DecideKeepsSound(s, id, now, days, m, instantOf);
    case DeleteNext(id, accepted) =>
      DeleteKeepsSound(s, id, accepted, m, instantOf);
    case Abandon(id) =>
  }

  /** A decision to remove something rests on a listed archive at or after its cutoff. */
  lemma DecisionIsAnchored(found: seq<RemoteArchive>, now: Instant, days: int, instantOf: Naming)
    requires Expired(found, now, days, instantOf).Ok? && Expired(found, now, days, instantOf).value != []
    ensures now >= days * TICKS_PER_DAY && days > 0
    ensures exists y | y in found :: AtOrAfter(y.name, now - days * TICKS_PER_DAY, instantOf)
    ensures forall a | a in Expired(found, now, days, instantOf).value ::
      OlderThan(a.name, now - days * TICKS_PER_DAY, instantOf)
  {
    var past := Expired(found, now, days, instantOf).value;
    ExpiredExactly(found, now, days, instantOf, past[0]);
    forall a | a in past ensures OlderThan(a.name, now - days * TICKS_PER_DAY, instantOf) {
      ExpiredExactly(found, now, days, instantOf, a);
    }
  }

  lemma DecideKeepsSound(s: State, id: nat, now: Instant, days: int, m: Option<Instant>, instantOf: Naming)
    requires Sound(s, m, instantOf) && Enabled(s, Decide(id, now, days))
    ensures Sound(Apply(s, Decide(id, now, days), instantOf), Cutoff(s, Decide(id, now, days), m, instantOf), instantOf)
  {
    var found := s.passes[id].found;
    var answer := Expired(found, now, days, instantOf);
    if answer.Ok? && answer.value != [] {
      DecisionIsAnchored(found, now, days, instantOf);
      hide Expired;
      var cutoff := now - days * TICKS_PER_DAY;
      var y :| y in found && AtOrAfter(y.name, cutoff, instantOf);
      if !(m.Some? && cutoff < m.value) {
        assert PassSound(s.passes[id], s, m, instantOf);
        assert Stored(s, y.name);
      }
    } else {
      hide Expired;
    }
  }

  lemma DeleteKeepsSound(s: State, id: nat, accepted: bool, m: Option<Instant>, instantOf: Naming)
    requires Sound(s, m, instantOf) && Enabled(s, DeleteNext(id, accepted))
    ensures Sound(Apply(s, DeleteNext(id, accepted), instantOf), m, instantOf)
  {
    var t := Apply(s, DeleteNext(id, accepted), instantOf);
    var todo := s.passes[id].todo;
    assert PassSound(s.passes[id], s, m, instantOf);
    assert Below(todo[0].name, m, instantOf);
    var b :| b in s.blobs && AtOrAfter(b.name, m.value, instantOf);
    assert b in t.blobs;
    forall name | Stored(s, name) && name != todo[0].name
      ensures Stored(t, name)
    {
      var w :| w in s.blobs && w.name == name;
      assert w in t.blobs;
    }
    forall i | i in t.passes
      ensures PassSound(t.passes[i], t, m, instantOf)
    {
      assert PassSound(s.passes[i], s, m, instantOf);
    }
  }

  lemma {:induction false} RunKeepsSound(s: State, steps: seq<Step>, m: Option<Instant>, instantOf: Naming)
    requires Sound(s, m, instantOf) && Runs(s, steps, instantOf)
    ensures Sound(After(s, steps, instantOf), HighestCutoff(s, steps, m, instantOf), instantOf)
    decreases |steps|
  {
    if steps != [] {
      StepKeepsSound(s, steps[0], m, instantOf);
      RunKeepsSound(Apply(s, steps[0], instantOf), steps[1..], Cutoff(s, steps[0], m, instantOf), instantOf);
    }
  }

  predicate Deletable(b: Blob, m: Option<Instant>, instantOf: Naming) {
    b.folder == OWN_FOLDER && Below(b.name, m, instantOf)
  }

  lemma {:induction false} HighestCutoffGrows(s: State, steps: seq<Step>, m: Option<Instant>, instantOf: Naming)
    requires Runs(s, steps, instantOf)
    ensures forall name :: Below(name, m, instantOf) ==> Below(name, HighestCutoff(s, steps, m, instantOf), instantOf)
    decreases |steps|
  {
    if steps != [] {
      HighestCutoffGrows(Apply(s, steps[0], instantOf), steps[1..], Cutoff(s, steps[0], m, instantOf), instantOf);
    }
  }

  lemma {:induction false} RunKeepsUndeletable(s: State, steps: seq<Step>, m: Option<Instant>, instantOf: Naming, b: Blob)
    requires Sound(s, m, instantOf) && Runs(s, steps, instantOf)
    requires b in s.blobs && !Deletable(b, HighestCutoff(s, steps, m, instantOf), instantOf)
    ensures b in After(s, steps, instantOf).blobs
    decreases |steps|
  {
    if steps != [] {
      var t := Apply(s, steps[0], instantOf);
      HighestCutoffGrows(s, steps, m, instantOf);
      if steps[0].DeleteNext? {
        assert PassSound(s.passes[steps[0].id], s, m, instantOf);
      }
      assert b in t.blobs;
      StepKeepsSound(s, steps[0], m, instantOf);
      RunKeepsUndeletable(t, steps[1..], Cutoff(s, steps[0], m, instantOf), instantOf, b);
    }
  }

  /**
   * Whatever interleaves, a destination that held an archive of ours still holds one, and one that is
   * at or after every cutoff any pass has acted on.
   */
  lemma NeverTheLastArchive(s: State, steps: seq<Step>, instantOf: Naming)
    requires s.passes == map[] && (exists b | b in s.blobs :: Ours(b.name, instantOf))
    requires Runs(s, steps, instantOf)
    ensures exists b | b in After(s, steps, instantOf).blobs ::
              && Ours(b.name, instantOf)
              && var m := HighestCutoff(s, steps, None, instantOf);
                 m.Some? ==> AtOrAfter(b.name, m.value, instantOf)
  {
    RunKeepsSound(s, steps, None, instantOf);
    if HighestCutoff(s, steps, None, instantOf).None? {
      var b :| b in s.blobs && Ours(b.name, instantOf);
      RunKeepsUndeletable(s, steps, None, instantOf, b);
    }
  }

  /** Nothing leaves the destination but our own archives, in the target's own folder, older than a cutoff acted on. */
  lemma OnlyExpiredArchivesLeave(s: State, steps: seq<Step>, instantOf: Naming, b: Blob)
    requires s.passes == map[] && Runs(s, steps, instantOf)
    requires b in s.blobs && b !in After(s, steps, instantOf).blobs
    ensures b.folder == OWN_FOLDER && Ours(b.name, instantOf)
    ensures var m := HighestCutoff(s, steps, None, instantOf); m.Some? && instantOf(b.name).value < m.value
  {
    if !Deletable(b, HighestCutoff(s, steps, None, instantOf), instantOf) {
      RunKeepsUndeletable(s, steps, None, instantOf, b);
      assert false;
    }
  }

  // ----- The target's own folder -----

  predicate IsOwn(b: Blob, instantOf: Naming) { b.folder == OWN_FOLDER && Ours(b.name, instantOf) }

  ghost predicate OwnHolds(s: State, instantOf: Naming) { exists b | b in s.blobs :: IsOwn(b, instantOf) }

  /** An archive a delete could reach is at or after the cutoff, if there is one. */
  ghost predicate OwnSurvivor(s: State, m: Option<Instant>, instantOf: Naming) {
    m.Some? ==> exists b | b in s.blobs :: IsOwn(b, instantOf) && AtOrAfter(b.name, m.value, instantOf)
  }

  /** Whenever a decision raises the highest cutoff, an archive in the own folder is stored at or after it. */
  ghost predicate Anchored(s: State, steps: seq<Step>, m: Option<Instant>, instantOf: Naming)
    requires Runs(s, steps, instantOf)
    decreases |steps|
  {
    steps == [] ||
    var next := Cutoff(s, steps[0], m, instantOf);
    && (next != m ==> OwnSurvivor(s, next, instantOf))
    && Anchored(Apply(s, steps[0], instantOf), steps[1..], next, instantOf)
  }

  lemma StepKeepsOwn(s: State, step: Step, m: Option<Instant>, instantOf: Naming)
    requires Sound(s, m, instantOf) && Enabled(s, step) && OwnSurvivor(s, m, instantOf)
    requires Cutoff(s, step, m, instantOf) != m ==> OwnSurvivor(s, Cutoff(s, step, m, instantOf), instantOf)
    ensures OwnSurvivor(Apply(s, step, instantOf), Cutoff(s, step, m, instantOf), instantOf)
  {
    hide Expired;
    var t, next := Apply(s, step, instantOf), Cutoff(s, step, m, instantOf);
    if next.Some? {
      var b :| b in s.blobs && IsOwn(b, instantOf) && AtOrAfter(b.name, next.value, instantOf);
      if step.DeleteNext? { assert PassSound(s.passes[step.id], s, m, instantOf); }
      assert b in t.blobs;
    }
  }

  lemma {:induction false} RunKeepsOwn(s: State, steps: seq<Step>, m: Option<Instant>, instantOf: Naming)
    requires Sound(s, m, instantOf) && OwnSurvivor(s, m, instantOf)
    requires Runs(s, steps, instantOf) && Anchored(s, steps, m, instantOf)
    ensures OwnSurvivor(After(s, steps, instantOf), HighestCutoff(s, steps, m, instantOf), instantOf)
    decreases |steps|
  {
    if steps != [] {
      StepKeepsSound(s, steps[0], m, instantOf);
      StepKeepsOwn(s, steps[0], m, instantOf);
      hide Sound, OwnSurvivor, Apply, Cutoff, Enabled;
      RunKeepsOwn(Apply(s, steps[0], instantOf), steps[1..], Cutoff(s, steps[0], m, instantOf), instantOf);
    }
  }

  /** Whatever interleaves, the own folder keeps an archive if every decision was anchored in it. */
  lemma OwnFolderKeepsOne(s: State, steps: seq<Step>, instantOf: Naming)
    requires s.passes == map[] && OwnHolds(s, instantOf)
    requires Runs(s, steps, instantOf) && Anchored(s, steps, None, instantOf)
    ensures OwnHolds(After(s, steps, instantOf), instantOf)
    ensures OwnSurvivor(After(s, steps, instantOf), HighestCutoff(s, steps, None, instantOf), instantOf)
  {
    RunKeepsOwn(s, steps, None, instantOf);
    if HighestCutoff(s, steps, None, instantOf).None? {
      var b :| b in s.blobs && IsOwn(b, instantOf);
      RunKeepsUndeletable(s, steps, None, instantOf, b);
    }
  }

  ghost predicate AllOwn(s: State) { forall b | b in s.blobs :: b.folder == OWN_FOLDER }

  predicate UploadsOwn(steps: seq<Step>) {
    forall i | 0 <= i < |steps| && steps[i].Upload? :: steps[i].blob.folder == OWN_FOLDER
  }

  lemma {:induction false} OwnStoreIsAnchored(s: State, steps: seq<Step>, m: Option<Instant>, instantOf: Naming)
    requires Sound(s, m, instantOf) && Runs(s, steps, instantOf) && AllOwn(s) && UploadsOwn(steps)
    ensures Anchored(s, steps, m, instantOf)
    decreases |steps|
  {
    if steps != [] {
      var t, next := Apply(s, steps[0], instantOf), Cutoff(s, steps[0], m, instantOf);
      StepKeepsSound(s, steps[0], m, instantOf);
      hide Expired, Sound;
      assert Survivor(t, next, instantOf) by { SoundSurvives(t, next, instantOf); }
      if next != m {
        assert t.blobs == s.blobs;
        var b :| b in t.blobs && AtOrAfter(b.name, next.value, instantOf);
        assert IsOwn(b, instantOf);
      }
      assert AllOwn(t) && UploadsOwn(steps[1..]);
      OwnStoreIsAnchored(t, steps[1..], next, instantOf);
    }
  }

  lemma SoundSurvives(s: State, m: Option<Instant>, instantOf: Naming)
    requires Sound(s, m, instantOf)
    ensures Survivor(s, m, instantOf)
  {
  }

  /** A destination whose every object is in the target's own folder never loses its last archive there. */
  lemma AnOwnStoreKeepsOne(s: State, steps: seq<Step>, instantOf: Naming)
    requires s.passes == map[] && OwnHolds(s, instantOf) && AllOwn(s) && UploadsOwn(steps)
    requires Runs(s, steps, instantOf)
    ensures OwnHolds(After(s, steps, instantOf), instantOf)
  {
    OwnStoreIsAnchored(s, steps, None, instantOf);
    OwnFolderKeepsOne(s, steps, instantOf);
  }

  // One pass by itself

  function Deletes(id: nat, n: nat): (steps: seq<Step>)
    ensures |steps| == n
  {
    if n == 0 then [] else [DeleteNext(id, true)] + Deletes(id, n - 1)
  }

  /** A whole prune: the listing, the decision, and a delete that is accepted for each archive decided on. */
  function Prune(id: nat, found: seq<RemoteArchive>, now: Instant, days: int, n: nat): seq<Step> {
    [Begin(id)] + ([PageArrives(id, found)] + ([Decide(id, now, days)] + Deletes(id, n)))
  }

  predicate Names(archives: seq<RemoteArchive>, name: string) { exists a | a in archives :: a.name == name }

  lemma {:induction false} DeletesReach(s: State, id: nat, todo: seq<RemoteArchive>, instantOf: Naming)
    requires id in s.passes && s.passes[id] == Deleting(todo)
    ensures Runs(s, Deletes(id, |todo|), instantOf)
    ensures forall b ::
      (b in After(s, Deletes(id, |todo|), instantOf).blobs
       <==> b in s.blobs && !(b.folder == OWN_FOLDER && Names(todo, b.name)))
    decreases |todo|
  {
    var steps := Deletes(id, |todo|);
    if todo != [] {
      var t := Apply(s, steps[0], instantOf);
      assert steps[1..] == Deletes(id, |todo| - 1);
      DeletesReach(t, id, todo[1..], instantOf);
      assert todo == [todo[0]] + todo[1..];
      forall name ensures Names(todo, name) <==> name == todo[0].name || Names(todo[1..], name) {
        if Names(todo[1..], name) { var a :| a in todo[1..] && a.name == name; assert a in todo; }
      }
    }
  }

  lemma RunsFirst(s: State, step: Step, rest: seq<Step>, instantOf: Naming)
    requires Enabled(s, step) && Runs(Apply(s, step, instantOf), rest, instantOf)
    ensures Runs(s, [step] + rest, instantOf)
    ensures After(s, [step] + rest, instantOf) == After(Apply(s, step, instantOf), rest, instantOf)
  {
    assert ([step] + rest)[1..] == rest;
    hide Apply, Enabled;
  }

  /** At any moment an upload can land while a pass is under way, and that pass can be given up with no more deleted. */
  lemma APassMayBeGivenUp(s: State, id: nat, blob: Blob, instantOf: Naming)
    requires id in s.passes
    ensures var steps := [Upload(blob)] + [Abandon(id)];
      && Runs(s, steps, instantOf)
      && After(s, steps, instantOf) == State(s.blobs + {blob}, s.passes - {id})
  {
    var t := s.(blobs := s.blobs + {blob});
    assert [Abandon(id)][1..] == [];
    assert Runs(t, [Abandon(id)], instantOf);
    assert After(t, [Abandon(id)], instantOf) == State(s.blobs + {blob}, s.passes - {id});
    RunsFirst(s, Upload(blob), [Abandon(id)], instantOf);
  }

  lemma PruneReaches(s: State, id: nat, found: seq<RemoteArchive>, now: Instant, days: int, instantOf: Naming)
    requires id !in s.passes && (forall a | a in found :: Stored(s, a.name)) && Expired(found, now, days, instantOf).Ok?
    ensures var past := Expired(found, now, days, instantOf).value;
      var steps := Prune(id, found, now, days, |past|);
      && Runs(s, steps, instantOf)
      && forall b ::
           (b in After(s, steps, instantOf).blobs
            <==> b in s.blobs && !(b.folder == OWN_FOLDER && Names(past, b.name)))
  {
    hide Expired, Runs, After;
    var past := Expired(found, now, days, instantOf).value;
    var listing := s.(passes := s.passes[id := Listing([])]);
    var listed := s.(passes := s.passes[id := Listing(found)]);
    var decided := s.(passes := s.passes[id := Deleting(past)]);
    assert [] + found == found;
    assert listing.passes[id := Listing(found)] == listed.passes && listed.passes[id := Deleting(past)] == decided.passes;
    assert Apply(s, Begin(id), instantOf) == listing;
    assert Enabled(listing, PageArrives(id, found)) && Apply(listing, PageArrives(id, found), instantOf) == listed;
    assert Enabled(listed, Decide(id, now, days)) && Apply(listed, Decide(id, now, days), instantOf) == decided;
    DeletesReach(decided, id, past, instantOf);
    RunsFirst(listed, Decide(id, now, days), Deletes(id, |past|), instantOf);
    RunsFirst(listing, PageArrives(id, found), [Decide(id, now, days)] + Deletes(id, |past|), instantOf);
    RunsFirst(s, Begin(id), [PageArrives(id, found)] + ([Decide(id, now, days)] + Deletes(id, |past|)), instantOf);
  }

  /** The listing shows every stored name and no other. */
  ghost predicate Shows(found: seq<RemoteArchive>, s: State) {
    (forall a | a in found :: Stored(s, a.name)) && forall b | b in s.blobs :: Names(found, b.name)
  }

  /**
   * A prune nobody interferes with leaves the own folder an archive exactly when it had one and, if anything is removed,
   * one there was at or after the cutoff. An archive that stays in a folder below does not count.
   */
  lemma OwnFolderKeepsOneExactly(s: State, id: nat, found: seq<RemoteArchive>, now: Instant, days: int, instantOf: Naming)
    requires id !in s.passes && Shows(found, s) && Expired(found, now, days, instantOf).Ok?
    ensures var past := Expired(found, now, days, instantOf).value;
      var steps := Prune(id, found, now, days, |past|);
      && Runs(s, steps, instantOf)
      && (OwnHolds(After(s, steps, instantOf), instantOf) <==>
            && OwnHolds(s, instantOf)
            && (past == [] || (now >= days * TICKS_PER_DAY && OwnSurvivor(s, Some(now - days * TICKS_PER_DAY), instantOf))))
  {
    PruneReaches(s, id, found, now, days, instantOf);
    var past := Expired(found, now, days, instantOf).value;
    var end := After(s, Prune(id, found, now, days, |past|), instantOf);
    if past != [] { DecisionIsAnchored(found, now, days, instantOf); }
    var cutoff := now - days * TICKS_PER_DAY;
    forall b | b in s.blobs && IsOwn(b, instantOf) && past != []
      ensures b in end.blobs <==> AtOrAfter(b.name, cutoff, instantOf)
    {
      PastNames(found, now, days, instantOf, b.name);
    }
    hide Expired, Runs, After;
  }

  lemma PastNames(found: seq<RemoteArchive>, now: Instant, days: int, instantOf: Naming, name: string)
    requires Expired(found, now, days, instantOf).Ok? && Expired(found, now, days, instantOf).value != []
    requires Names(found, name) && Ours(name, instantOf)
    ensures Names(Expired(found, now, days, instantOf).value, name)
      <==> !AtOrAfter(name, now - days * TICKS_PER_DAY, instantOf)
  {
    var past := Expired(found, now, days, instantOf).value;
    DecisionIsAnchored(found, now, days, instantOf);
    forall a | a in found && a.name == name
      ensures a in past <==> !AtOrAfter(name, now - days * TICKS_PER_DAY, instantOf)
    {
      ExpiredExactly(found, now, days, instantOf, a);
    }
    forall a | a in past ensures a in found { ExpiredExactly(found, now, days, instantOf, a); }
  }

  const BELOW: string := "b/"

  /** A young archive in a folder below keeps the rule from holding back, and the own folder is emptied. */
  lemma AnOwnFolderIsEmptied(past: string, young: string, instantOf: Naming)
    requires instantOf(past) == Some(0) && instantOf(young) == Some(1)
    ensures
      var s := State({Blob(OWN_FOLDER, past), Blob(BELOW, young)}, map[]);
      var steps := Prune(0, [RemoteArchive(past, 0), RemoteArchive(young, 0)], TICKS_PER_DAY + 1, 1, 1);
      && OwnHolds(s, instantOf) && Runs(s, steps, instantOf)
      && !OwnHolds(After(s, steps, instantOf), instantOf)
  {
    var s := State({Blob(OWN_FOLDER, past), Blob(BELOW, young)}, map[]);
    var found := [RemoteArchive(past, 0), RemoteArchive(young, 0)];
    var now := TICKS_PER_DAY + 1;
    assert Blob(OWN_FOLDER, past) in s.blobs && Blob(BELOW, young) in s.blobs;
    assert found[0] in found && found[1] in found;
    OneIsPast(past, young, instantOf);
    assert OwnHolds(s, instantOf) by { assert IsOwn(Blob(OWN_FOLDER, past), instantOf); }
    assert Shows(found, s);
    hide Expired, Runs, After;
    OwnFolderKeepsOneExactly(s, 0, found, now, 1, instantOf);
  }

  lemma OneIsPast(past: string, young: string, instantOf: Naming)
    requires instantOf(past) == Some(0) && instantOf(young) == Some(1)
    ensures Expired([RemoteArchive(past, 0), RemoteArchive(young, 0)], TICKS_PER_DAY + 1, 1, instantOf)
         == Ok([RemoteArchive(past, 0)])
  {
    var a, b := RemoteArchive(past, 0), RemoteArchive(young, 0);
    var ours := (x: RemoteArchive) => Ours(x.name, instantOf);
    var older := (x: RemoteArchive) => OlderThan(x.name, 1, instantOf);
    assert [a, b][1..] == [b] && [b][1..] == [];
    assert Filter(ours, [b]) == [b] && Filter(ours, [a, b]) == [a] + [b] == [a, b];
    assert Filter(older, [b]) == [] && Filter(older, [a, b]) == [a] + [] == [a];
  }

  // ----- A window longer than the calendar -----

  /** The rule raises its exception exactly when a window reaches back past the calendar's start. */
  lemma ExpiredThrowsExactly(all: seq<RemoteArchive>, now: Instant, days: int, instantOf: Naming)
    ensures Expired(all, now, days, instantOf).Err? <==> days > 0 && now - days * TICKS_PER_DAY < 0
  {
  }

  /** Such a window had nothing to remove: no archive is that old, and the pass that met it deletes nothing. */
  lemma AThrowingPassDeletesNothing(s: State, id: nat, now: Instant, days: int, instantOf: Naming)
    requires Enabled(s, Decide(id, now, days)) && Expired(s.passes[id].found, now, days, instantOf).Err?
    ensures forall name | Ours(name, instantOf) :: instantOf(name).value >= now - days * TICKS_PER_DAY
    ensures var t := Apply(s, Decide(id, now, days), instantOf);
      t.blobs == s.blobs && id !in t.passes && forall accepted :: !Enabled(t, DeleteNext(id, accepted))
  {
    ExpiredThrowsExactly(s.passes[id].found, now, days, instantOf);
    hide Expired;
  }
}
