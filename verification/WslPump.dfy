/**
 * Carrying a session's bytes both ways between a client and the Windows half it started: two copies, each
 * reading, writing and flushing one chunk at a time, raced against each other and against an interruption.
 */
module WslPump {
  import opened Results
  import opened Tasks
  import opened Text

  const BUFFER_BYTES := 64 * 1024

  // ----- One direction -----

  datatype At =
    | Reading
    | Writing(hand: seq<byte>)
    | Flushing
    | Closing(ok: bool)
    | Finished(ok: bool)

  /**
   * One direction's copy: what its source has sent and whether it has ended, how much of that was read, what the
   * far end was given and how much of that was flushed, and whether the far end was closed.
   */
  datatype Copy = Copy(
    closes: bool, sent: seq<byte>, ended: bool, read: nat, given: seq<byte>, flushed: nat, at: At, closed: bool)

  datatype Move =
    | Sends(chunk: seq<byte>)
    | Ends
    | Reads(count: nat)
    | ReadsTheEnd
    | ReadFails
    | Writes
    | WriteFails(written: nat)
    | Flushes
    | FlushFails
    | Closes

  predicate CanMove(c: Copy, m: Move) {
    match m
    case Sends(_) => !c.ended
    case Ends => !c.ended
    case Reads(count) => c.at.Reading? && 0 < count <= BUFFER_BYTES && c.read + count <= |c.sent|
    case ReadsTheEnd => c.at.Reading? && c.ended && c.read == |c.sent|
    case ReadFails => c.at.Reading?
    case Writes => c.at.Writing?
    case WriteFails(written) => c.at.Writing? && written <= |c.at.hand|
    case Flushes => c.at.Flushing?
    case FlushFails => c.at.Flushing?
    case Closes => c.at.Closing?
  }

  /** Only the copy toward the child has an end of its own to close, whichever way its loop is left. */
  function Left(c: Copy, ok: bool): Copy {
    c.(at := if c.closes then Closing(ok) else Finished(ok))
  }

  function Moved(c: Copy, m: Move): Copy
    requires CanMove(c, m)
  {
    match m
    case Sends(chunk) => c.(sent := c.sent + chunk)
    case Ends => c.(ended := true)
    case Reads(count) => c.(read := c.read + count, at := Writing(c.sent[c.read..c.read + count]))
    case ReadsTheEnd => Left(c, true)
    case ReadFails => Left(c, false)
    case Writes => c.(given := c.given + c.at.hand, at := Flushing)
    case WriteFails(written) => Left(c.(given := c.given + c.at.hand[..written]), false)
    case Flushes => c.(flushed := |c.given|, at := Reading)
    case FlushFails => Left(c, false)
    case Closes => c.(closed := true, at := Finished(c.at.ok))
  }

  /**
   * Bytes reach the far end in order, once each, flushed before more are read; a copy that ends well has carried
   * everything.
   */
  predicate Faithful(c: Copy) {
    && c.read <= |c.sent|
    && c.given <= c.sent[..c.read]
    && (c.at.Reading? || c.at.Flushing? ==> c.given == c.sent[..c.read])
    && (c.at.Writing? ==> c.given + c.at.hand == c.sent[..c.read])
    && (c.at.Reading? || c.at.Writing? ==> c.flushed == |c.given|)
    && (c.at.Closing? || c.at.Finished? ==> c.at.ok ==> c.ended && c.given == c.sent && c.flushed == |c.sent|)
    && (c.at.Closing? ==> c.closes)
    && (c.closed <==> c.closes && c.at.Finished?)
  }

  lemma MoveKeepsFaithful(c: Copy, m: Move)
    requires Faithful(c) && CanMove(c, m)
    ensures Faithful(Moved(c, m))
  {
    match m
    case Sends(chunk) => assert (c.sent + chunk)[..c.read] == c.sent[..c.read];
    case Reads(count) => assert c.sent[..c.read + count] == c.sent[..c.read] + c.sent[c.read..c.read + count];
    case ReadsTheEnd => assert c.sent[..c.read] == c.sent;
    case _ =>
  }

  predicate CanGo(c: Copy, moves: seq<Move>)
    decreases |moves|
  {
    moves == [] || (CanMove(c, moves[0]) && CanGo(Moved(c, moves[0]), moves[1..]))
  }

  function Gone(c: Copy, moves: seq<Move>): Copy
    requires CanGo(c, moves)
    decreases |moves|
  {
    if moves == [] then c else Gone(Moved(c, moves[0]), moves[1..])
  }

  /** The sizes of the reads that take all of what is left: any at all that fit the buffer and add up. */
  predicate Portions(counts: seq<nat>, left: nat)
    decreases |counts|
  {
    if counts == [] then left == 0
    else 0 < counts[0] <= 64 * 1024 && counts[0] <= left && Portions(counts[1..], left - counts[0])
  }

  /**
   * However what was sent is portioned out to the reads, a copy in which nothing fails delivers it all and ends well.
   */
  lemma {:induction false} EveryPortioningArrives(c: Copy, counts: seq<nat>) returns (moves: seq<Move>)
    requires Faithful(c) && c.at.Reading? && c.ended && Portions(counts, |c.sent| - c.read)
    ensures CanGo(c, moves)
    ensures var d := Gone(c, moves);
      && d.at == Finished(true) && d.given == c.sent && d.flushed == |c.sent| && d.closed == c.closes
      && forall i | 0 <= i < |counts| :: Reads(counts[i]) in moves
    decreases |counts|
  {
    if counts == [] {
      moves := [ReadsTheEnd] + if c.closes then [Closes] else [];
      assert moves[1..] == if c.closes then [Closes] else [];
      assert [Closes][1..] == [];
      MoveKeepsFaithful(c, ReadsTheEnd);
    } else {
      var c1 := Moved(c, Reads(counts[0]));
      var c2 := Moved(c1, Writes);
      var c3 := Moved(c2, Flushes);
      MoveKeepsFaithful(c, Reads(counts[0]));
      MoveKeepsFaithful(c1, Writes);
      MoveKeepsFaithful(c2, Flushes);
      var rest := EveryPortioningArrives(c3, counts[1..]);
      hide Faithful;
      moves := [Reads(counts[0])] + ([Writes] + ([Flushes] + rest));
      assert moves[1..] == [Writes] + ([Flushes] + rest) && moves[1..][1..] == [Flushes] + rest;
      assert ([Flushes] + rest)[1..] == rest;
      assert CanGo(c2, [Flushes] + rest) && Gone(c2, [Flushes] + rest) == Gone(c3, rest);
      assert CanGo(c1, moves[1..]) && Gone(c1, moves[1..]) == Gone(c3, rest);
    }
  }

  // ----- The copy loop itself -----

  /** A stream to read from, holding what its far end sends before it ends; a read may fall short or fail. */
  class Source {
    var rest: seq<byte>

    constructor (bytes: seq<byte>)
      ensures rest == bytes
    {
      rest := bytes;
    }

    method Read(buffer: array<byte>) returns (ok: bool, read: nat)
      requires buffer.Length > 0
      modifies this, buffer
      ensures ok ==> read <= buffer.Length && read <= |old(rest)| && (read == 0 <==> old(rest) == [])
      ensures ok ==> buffer[..read] == old(rest)[..read] && rest == old(rest)[read..]
      ensures !ok ==> rest == old(rest)
    {
      ok := *;
      read := 0;
      if ok && rest != [] {
        read :| 0 < read <= buffer.Length && read <= |rest|;
        forall i | 0 <= i < read { buffer[i] := rest[i]; }
        rest := rest[read..];
      }
    }
  }

  /** A stream to write to, with what it was given and how much of that was flushed; a write may stop part way. */
  class Sink {
    var given: seq<byte>
    var flushed: nat
    var closed: bool

    constructor ()
      ensures given == [] && flushed == 0 && !closed
    {
      given, flushed, closed := [], 0, false;
    }

    method Write(buffer: array<byte>, count: nat) returns (ok: bool)
      requires count <= buffer.Length
      modifies `given
      ensures old(given) <= given <= old(given) + buffer[..count]
      ensures ok ==> given == old(given) + buffer[..count]
    {
      var written: nat :| written <= count;
      given := given + buffer[..written];
      ok := written == count;
    }

    method Flush() returns (ok: bool)
      modifies `flushed
      ensures ok ==> flushed == |given|
    {
      ok := *;
      if ok { flushed := |given|; }
    }

    method Close()
      modifies `closed
      ensures closed
    {
      closed := true;
    }
  }

  /** Carries everything to the source's end, through one reused buffer, or fails having carried a prefix. */
  method Carry(from: Source, to: Sink) returns (ok: bool)
    modifies from, to`given, to`flushed
    ensures old(to.given) <= to.given <= old(to.given) + old(from.rest)
    ensures ok ==> from.rest == [] && to.given == old(to.given) + old(from.rest)
    ensures ok && old(from.rest) != [] ==> to.flushed == |to.given|
  {
    var buffer := new byte[BUFFER_BYTES];
    ghost var sent, already, taken := from.rest, to.given, 0;
    var read: nat;
    ok, read := from.Read(buffer);
    if ok { taken := read; }
    while ok && read > 0
      invariant fresh(buffer) && buffer.Length == BUFFER_BYTES
      invariant taken <= |sent| && from.rest == sent[taken..]
      invariant ok ==> read <= buffer.Length && read <= taken && buffer[..read] == sent[taken - read..taken]
      invariant ok ==> to.given == already + sent[..taken - read]
      invariant ok && read == 0 ==> from.rest == [] && (sent != [] ==> to.flushed == |to.given|)
      invariant Between(already, to.given, sent)
      decreases |sent| - taken + if ok && read > 0 then 1 else 0
    {
      Chunk(already, sent, taken - read, taken);
      ghost var before := to.given;
      ok := to.Write(buffer, read);
      CutChunk(already, sent, taken - read, taken, before, to.given);
      if ok {
        ok := to.Flush();
        if ok {
          ok, read := from.Read(buffer);
          if ok {
            Rest(sent, taken, read);
            taken := taken + read;
          }
        }
      }
    }
  }

  /** What a far end may hold after some of `sent` was carried to it. */
  ghost predicate Between(already: seq<byte>, given: seq<byte>, sent: seq<byte>) {
    already <= given <= already + sent
  }

  lemma Chunk(already: seq<byte>, sent: seq<byte>, a: nat, b: nat)
    requires a <= b <= |sent|
    ensures already + sent[..a] + sent[a..b] == already + sent[..b]
  {
  }

  lemma CutChunk(already: seq<byte>, sent: seq<byte>, a: nat, b: nat, before: seq<byte>, given: seq<byte>)
    requires a <= b <= |sent| && before == already + sent[..a] && before <= given <= before + sent[a..b]
    ensures Between(already, given, sent)
  {
    Chunk(already, sent, a, b);
    assert already + sent[..b] <= already + sent;
  }

  lemma Rest(sent: seq<byte>, taken: nat, read: nat)
    requires taken + read <= |sent|
    ensures sent[taken..][..read] == sent[taken..taken + read] && sent[taken..][read..] == sent[taken + read..]
  {
  }

  /** The far end is closed whichever way the copy ended. */
  method CarryThenClose(from: Source, to: Sink) returns (ok: bool)
    modifies from, to
    ensures to.closed
    ensures old(to.given) <= to.given <= old(to.given) + old(from.rest)
    ensures ok ==> from.rest == [] && to.given == old(to.given) + old(from.rest)
    ensures ok && old(from.rest) != [] ==> to.flushed == |to.given|
  {
    ok := Carry(from, to);
    to.Close();
  }

  // ----- The race -----

  datatype Ending = ClientClosed | WindowsHalfClosed | Interrupted

  datatype Task = Upstream | Downstream | Interruption | Window

  const RACE: seq<Task> := [Upstream, Downstream, Interruption]

  const LAST_WORDS: seq<Task> := [Downstream, Interruption, Window]

  datatype Phase =
    | Starting
    | Racing
    | Raced(first: Task)
    | Waiting(since: nat)
    | Heard(first: Task)
    | Returned(ending: Ending)
    | Threw

  /** Completions in order: before the race was entered, until its outcome was looked at, and after that. */
  datatype Log = Log(before: seq<Task>, racing: seq<Task>, waiting: seq<Task>)

  datatype State = State(
    now: nat,
    up: Copy,
    down: Copy,
    doneAt: map<Task, nat>,
    settled: bool,
    phase: Phase,
    log: Log)

  function Logged(s: State, task: Task): Log {
    if s.phase.Starting? then s.log.(before := s.log.before + [task])
    else if s.settled then s.log.(waiting := s.log.waiting + [task])
    else s.log.(racing := s.log.racing + [task])
  }

  function Completed(s: State, task: Task): State {
    s.(doneAt := s.doneAt[task := s.now],
       log := Logged(s, task),
       phase := match s.phase
                case Racing => if task in RACE then Raced(task) else Racing
                case Waiting(_) => if task in LAST_WORDS then Heard(task) else s.phase
                case other => other)
  }

  /** What follows the race: an interruption ends the session, a client that hung up is waited for. */
  function AfterTheRace(s: State, first: Task, bound: nat): State {
    if first == Interruption then s.(phase := Returned(Interrupted), settled := true)
    else if !s.up.at.Finished? then s.(phase := Returned(WindowsHalfClosed), settled := true)
    else LastWords(s, bound)
  }

  /** A bound of no length is over before anything is asked. */
  function LastWords(s: State, bound: nat): State {
    var w := if bound == 0
             then s.(doneAt := s.doneAt[Window := s.now], log := s.log.(racing := s.log.racing + [Window]))
             else s;
    match FirstListed(LAST_WORDS, w.log.before + w.log.racing)
    case Some(first) => w.(phase := Heard(first), settled := true)
    case None => w.(phase := Waiting(s.now), settled := true)
  }

  /** The downstream copy is awaited, so its failure is thrown; the upstream copy never is. */
  function Heeded(s: State, first: Task): State {
    if first == Downstream && !(s.down.at.Finished? && s.down.at.ok) then s.(phase := Threw)
    else s.(phase := Returned(if first == Interruption then Interrupted else ClientClosed))
  }

  datatype Action =
    | MoveUp(move: Move)
    | MoveDown(move: Move)
    | Interrupts
    | Tick
    | WindowElapses
    | Resume

  predicate CanResume(s: State) { s.phase.Starting? || s.phase.Raced? || s.phase.Heard? }

  predicate CanElapse(s: State, bound: nat) { s.phase.Waiting? && s.now >= s.phase.since + bound }

  predicate Enabled(s: State, a: Action, bound: nat) {
    match a
    case MoveUp(move) => CanMove(s.up, move)
    case MoveDown(move) => CanMove(s.down, move)
    case Interrupts => Interruption !in s.doneAt
    case Tick => !CanResume(s) && !CanElapse(s, bound)
    case WindowElapses => CanElapse(s, bound)
    case Resume => CanResume(s)
  }

  function Apply(s: State, a: Action, bound: nat): State
    requires Enabled(s, a, bound)
  {
    match a
    case MoveUp(move) =>
      var m := s.(up := Moved(s.up, move));
      if m.up.at.Finished? && !s.up.at.Finished? then Completed(m, Upstream) else m
    case MoveDown(move) =>
      var m := s.(down := Moved(s.down, move));
      if m.down.at.Finished? && !s.down.at.Finished? then Completed(m, Downstream) else m
    case Interrupts => Completed(s, Interruption)
    case Tick => s.(now := s.now + 1)
    case WindowElapses => Completed(s, Window)
    case Resume => Resumed(s, bound)
  }

  function Resumed(s: State, bound: nat): State
    requires CanResume(s)
  {
    match s.phase
    case Starting =>
      (match FirstListed(RACE, s.log.before)
       case Some(first) => s.(phase := Raced(first))
       case None => s.(phase := Racing))
    case Raced(first) => AfterTheRace(s, first, bound)
    case Heard(first) => Heeded(s, first)
  }

  function Fresh(closes: bool): Copy { Copy(closes, [], false, 0, [], 0, Reading, false) }

  predicate Starts(s: State) {
    s == State(0, Fresh(true), Fresh(false), map[], false, Starting, Log([], [], []))
  }

  predicate Plays(s: State, actions: seq<Action>, bound: nat)
    decreases |actions|
  {
    actions == [] || (Enabled(s, actions[0], bound) && Plays(Apply(s, actions[0], bound), actions[1..], bound))
  }

  function After(s: State, actions: seq<Action>, bound: nat): State
    requires Plays(s, actions, bound)
    decreases |actions|
  {
    if actions == [] then s else After(Apply(s, actions[0], bound), actions[1..], bound)
  }

  // ----- The invariant -----

  function Winner(log: Log): Option<Task> { WhenAny(RACE, log.before, log.racing) }

  function Last(log: Log): Option<Task> { WhenAny(LAST_WORDS, log.before + log.racing, log.waiting) }

  /** The ending the completions alone determine. */
  function Verdict(log: Log): Option<Ending> {
    match Winner(log)
    case None => None
    case Some(first) =>
      if first == Interruption then Some(Interrupted)
      else if Upstream !in log.before + log.racing then Some(WindowsHalfClosed)
      else match Last(log)
           case None => None
           case Some(last) => Some(if last == Interruption then Interrupted else ClientClosed)
  }

  predicate Listed(done: set<Task>, log: Log) {
    forall k :: k in done <==> k in log.before + log.racing + log.waiting
  }

  /** The race was won by a copy and the client's was over when its outcome was looked at. */
  predicate HungUp(log: Log) {
    Winner(log).Some? && Winner(log) != Some(Interruption) && Upstream in log.before + log.racing
  }

  predicate Recorded(s: State) {
    && Listed(s.doneAt.Keys, s.log)
    && (s.settled <==> s.phase.Waiting? || s.phase.Heard? || s.phase.Returned? || s.phase.Threw?)
    && (!s.settled ==> s.log.waiting == [])
    && match s.phase
       case Starting => s.log.racing == []
       case Racing => Winner(s.log) == None
       case Raced(first) => Winner(s.log) == Some(first)
       case Waiting(_) => HungUp(s.log) && Last(s.log) == None
       case Heard(first) => HungUp(s.log) && Last(s.log) == Some(first)
       case Returned(ending) => Verdict(s.log) == Some(ending)
       case Threw => HungUp(s.log) && Last(s.log) == Some(Downstream)
  }

  predicate Carried(s: State) {
    && Faithful(s.up) && Faithful(s.down) && s.up.closes && !s.down.closes
    && (Upstream in s.doneAt <==> s.up.at.Finished?)
    && (Downstream in s.doneAt <==> s.down.at.Finished?)
    && (s.phase == Returned(ClientClosed) ==> Upstream in s.doneAt)
    && (s.phase == Returned(ClientClosed) && Last(s.log) == Some(Downstream) ==> s.down.at == Finished(true))
    && (s.phase == Threw ==> s.down.at == Finished(false))
  }

  predicate Timely(s: State, bound: nat) {
    && (forall k | k in s.doneAt :: s.doneAt[k] <= s.now)
    && match s.phase
       case Starting => s.now == 0 && Window !in s.doneAt
       case Racing => s.doneAt == map[]
       case Raced(first) =>
         && first in RACE && first in s.doneAt && Window !in s.doneAt
         && (forall k | k in s.doneAt :: s.doneAt[k] == s.now)
       case Waiting(since) => s.doneAt == map[Upstream := since] && s.now <= since + bound
       case Heard(first) =>
         && first in s.doneAt && Upstream in s.doneAt && s.now <= s.doneAt[Upstream] + bound
         && (forall k | k in s.doneAt && k != Upstream :: s.doneAt[k] == s.now)
       case _ => true
  }

  /** The window closes when the bound has passed since the hang-up, and one of no length when it is asked for. */
  predicate Waited(s: State, bound: nat) {
    && (Window in s.doneAt ==> Upstream in s.doneAt && s.doneAt[Window] == s.doneAt[Upstream] + bound)
    && (bound == 0 && HungUp(s.log) && s.settled ==> Window in s.log.before + s.log.racing)
  }

  predicate Sound(s: State, bound: nat) { Recorded(s) && Carried(s) && Timely(s, bound) && Waited(s, bound) }

  // ----- A completion keeps it -----

  lemma WinnerStays(log: Log, task: Task)
    ensures Winner(log.(racing := log.racing + [task]))
         == if Winner(log).Some? then Winner(log) else if task in RACE then Some(task) else None
    ensures Winner(log.(waiting := log.waiting + [task])) == Winner(log)
  {
    OneMore(RACE, log.racing, task);
    hide FirstListed, FirstToComplete;
  }

  lemma LastStays(log: Log, task: Task)
    ensures Last(log.(waiting := log.waiting + [task]))
         == if Last(log).Some? then Last(log) else if task in LAST_WORDS then Some(task) else None
  {
    OneMore(LAST_WORDS, log.waiting, task);
    hide FirstListed, FirstToComplete;
  }

  lemma CompletionIsListed(s: State, task: Task)
    requires task !in s.doneAt && Listed(s.doneAt.Keys, s.log)
    requires (!s.settled ==> s.log.waiting == []) && (s.phase.Starting? ==> s.log.racing == [])
    ensures Listed(Completed(s, task).doneAt.Keys, Completed(s, task).log)
  {
  }

  lemma CompletionIsRecorded(s: State, task: Task)
    requires task !in s.doneAt && Recorded(s)
    ensures Recorded(Completed(s, task))
  {
    hide Winner, Last, Listed;
    CompletionIsListed(s, task);
    if s.phase.Starting? {
    } else if s.settled {
      WinnerStays(s.log, task);
      LastStays(s.log, task);
    } else {
      WinnerStays(s.log, task);
    }
  }

  lemma CompletionIsTimely(s: State, task: Task, bound: nat)
    requires task !in s.doneAt && Timely(s, bound)
    requires task == Window ==> s.phase.Waiting?
    ensures Timely(Completed(s, task), bound)
  {
    hide Winner, Last, Listed;
  }

  lemma WindowIsOpen(s: State, bound: nat)
    requires Timely(s, bound) && s.phase.Waiting?
    ensures Window !in s.doneAt
  {
  }

  /** A move of either copy, before what its completion does to the race. */
  lemma MovingKeepsTheRest(s: State, up: Copy, down: Copy, bound: nat)
    requires Recorded(s) && Timely(s, bound)
    ensures Recorded(s.(up := up, down := down)) && Timely(s.(up := up, down := down), bound)
  {
    hide Winner, Last, Listed, Verdict, HungUp;
  }

  lemma AClosedSessionStaysHeard(s: State, task: Task)
    requires Recorded(s) && task !in s.doneAt && s.phase == Returned(ClientClosed)
    ensures Last(Completed(s, task).log) == Last(s.log)
  {
    hide Winner, Last, Listed;
    LastStays(s.log, task);
  }

  lemma CompletionIsWaited(s: State, task: Task, bound: nat)
    requires task !in s.doneAt && Recorded(s) && Timely(s, bound) && Waited(s, bound)
    requires task == Window ==> CanElapse(s, bound)
    ensures Waited(Completed(s, task), bound)
  {
    hide Winner, Last, Listed, Verdict;
    WinnerStays(s.log, task);
  }

  /** What a copy's completion does, the copy having moved already. */
  lemma CompletionKeepsSound(s: State, task: Task, bound: nat)
    requires task !in s.doneAt && Recorded(s) && Timely(s, bound) && Waited(s, bound)
    requires task == Window ==> CanElapse(s, bound)
    requires Faithful(s.up) && Faithful(s.down) && s.up.closes && !s.down.closes
    requires Upstream in s.doneAt || task == Upstream <==> s.up.at.Finished?
    requires Downstream in s.doneAt || task == Downstream <==> s.down.at.Finished?
    requires s.phase == Returned(ClientClosed) ==>
      Upstream in s.doneAt && (Last(s.log) == Some(Downstream) ==> s.down.at == Finished(true))
    requires s.phase == Threw ==> s.down.at == Finished(false)
    ensures Sound(Completed(s, task), bound)
  {
    hide Winner, Last, Listed, Verdict, HungUp, Faithful;
    CompletionIsRecorded(s, task);
    CompletionIsTimely(s, task, bound);
    CompletionIsWaited(s, task, bound);
    if s.phase == Returned(ClientClosed) { AClosedSessionStaysHeard(s, task); }
    assert Carried(Completed(s, task)) by { hide Recorded, Timely; }
    hide Recorded, Carried, Timely, Waited;
  }

  // ----- Every step keeps it -----

  lemma MovingUpKeepsSound(s: State, move: Move, bound: nat)
    requires Sound(s, bound) && CanMove(s.up, move)
    ensures Sound(Apply(s, MoveUp(move), bound), bound)
  {
    hide Winner, Last, Listed, Verdict, HungUp, Faithful;
    var m := s.(up := Moved(s.up, move));
    MoveKeepsFaithful(s.up, move);
    MovingKeepsTheRest(s, m.up, m.down, bound);
    if m.up.at.Finished? && !s.up.at.Finished? {
      hide Recorded, Timely, Moved;
      CompletionKeepsSound(m, Upstream, bound);
    } else {
      assert m.up.at.Finished? == s.up.at.Finished? && m.up.closes;
      hide Recorded, Timely;
    }
  }

  lemma MovingDownKeepsSound(s: State, move: Move, bound: nat)
    requires Sound(s, bound) && CanMove(s.down, move)
    ensures Sound(Apply(s, MoveDown(move), bound), bound)
  {
    hide Winner, Last, Listed, Verdict, HungUp, Faithful;
    var m := s.(down := Moved(s.down, move));
    MoveKeepsFaithful(s.down, move);
    MovingKeepsTheRest(s, m.up, m.down, bound);
    if m.down.at.Finished? && !s.down.at.Finished? {
      hide Recorded, Timely, Moved;
      CompletionKeepsSound(m, Downstream, bound);
    } else {
      assert s.down.at.Finished? ==> m.down.at == s.down.at;
      assert m.down.at.Finished? == s.down.at.Finished? && !m.down.closes;
      hide Recorded, Timely;
    }
  }

  lemma StartingKeepsSound(s: State, bound: nat)
    requires Sound(s, bound) && s.phase.Starting?
    ensures Sound(Resumed(s, bound), bound)
  {
    if Winner(s.log) == None {
      assert Upstream in RACE && Downstream in RACE && Interruption in RACE;
      assert s.log.before + s.log.racing + s.log.waiting == s.log.before;
      assert FirstListed(RACE, s.log.before) == None;
      forall k ensures k !in s.doneAt { assert k == Window || k !in s.log.before; }
      assert s.doneAt == map[];
    }
    hide Last, Listed, Verdict, HungUp, Faithful;
  }

  /** What is so when the last words are asked for. */
  predicate Asking(w: State, bound: nat) {
    && w.phase.Raced? && HungUp(w.log) && Upstream in w.doneAt && !w.settled && w.log.waiting == []
    && Listed(w.doneAt.Keys, w.log) && Carried(w) && (forall k | k in w.doneAt :: w.doneAt[k] == w.now)
    && (Window in w.doneAt <==> bound == 0)
  }

  lemma TheLastWordsAreAsked(s: State, bound: nat)
    requires Sound(s, bound) && s.phase.Raced? && s.phase.first != Interruption && s.up.at.Finished?
    ensures bound > 0 ==> Asking(s, bound)
    ensures bound == 0 ==>
      Asking(s.(doneAt := s.doneAt[Window := s.now], log := s.log.(racing := s.log.racing + [Window])), bound)
  {
    var w := s.(doneAt := s.doneAt[Window := s.now], log := s.log.(racing := s.log.racing + [Window]));
    WinnerStays(s.log, Window);
    assert s.log.before + s.log.racing + s.log.waiting == s.log.before + s.log.racing;
    assert w.log.before + w.log.racing == s.log.before + s.log.racing + [Window];
    assert Upstream in s.log.before + s.log.racing;
    assert Listed(w.doneAt.Keys, w.log);
    hide Winner, Last, Listed, Verdict, Faithful;
  }

  lemma OnlyTheClientIsDone(w: State, bound: nat)
    requires Asking(w, bound) && FirstListed(LAST_WORDS, w.log.before + w.log.racing) == None
    ensures w.doneAt == map[Upstream := w.now]
  {
    assert Downstream in LAST_WORDS && Interruption in LAST_WORDS && Window in LAST_WORDS;
    assert w.log.before + w.log.racing + w.log.waiting == w.log.before + w.log.racing;
    assert forall k | k in w.doneAt :: k == Upstream;
    assert w.doneAt.Keys == {Upstream};
  }

  lemma AskingKeepsSound(w: State, bound: nat)
    requires Asking(w, bound)
    ensures match FirstListed(LAST_WORDS, w.log.before + w.log.racing)
            case Some(first) => Sound(w.(phase := Heard(first), settled := true), bound)
            case None => Sound(w.(phase := Waiting(w.now), settled := true), bound)
  {
    var asked := FirstListed(LAST_WORDS, w.log.before + w.log.racing);
    assert Last(w.log) == asked;
    assert w.log.before + w.log.racing + w.log.waiting == w.log.before + w.log.racing;
    if asked == None {
      OnlyTheClientIsDone(w, bound);
    } else {
      assert asked.value in w.doneAt;
    }
    hide Winner, Last, Listed, Verdict, HungUp, Faithful, FirstListed;
  }

  lemma RacedKeepsSound(s: State, bound: nat)
    requires Sound(s, bound) && s.phase.Raced?
    ensures Sound(Resumed(s, bound), bound)
  {
    if s.phase.first != Interruption && s.up.at.Finished? {
      TheLastWordsAreAsked(s, bound);
      hide Sound, FirstListed, Asking;
      if bound == 0 {
        AskingKeepsSound(s.(doneAt := s.doneAt[Window := s.now], log := s.log.(racing := s.log.racing + [Window])), bound);
      } else {
        AskingKeepsSound(s, bound);
      }
    } else {
      assert s.log.before + s.log.racing + s.log.waiting == s.log.before + s.log.racing;
      assert Upstream in s.doneAt <==> Upstream in s.log.before + s.log.racing;
      hide Winner, Last, Listed, Faithful, FirstListed;
    }
  }

  lemma HeardKeepsSound(s: State, bound: nat)
    requires Sound(s, bound) && s.phase.Heard?
    ensures Sound(Resumed(s, bound), bound)
  {
    hide Winner, Last, Listed, Faithful;
  }

  /** Every step, of either copy or of the race, keeps the invariant. */
  lemma StepKeepsSound(s: State, a: Action, bound: nat)
    requires Sound(s, bound) && Enabled(s, a, bound)
    ensures Sound(Apply(s, a, bound), bound)
  {
    match a
    case MoveUp(move) => hide Sound; MovingUpKeepsSound(s, move, bound);
    case MoveDown(move) => hide Sound; MovingDownKeepsSound(s, move, bound);
    case Interrupts => hide Winner, Last, Listed, Verdict, HungUp, Faithful; CompletionKeepsSound(s, Interruption, bound);
    case WindowElapses =>
      hide Winner, Last, Listed, Verdict, HungUp, Faithful;
      WindowIsOpen(s, bound);
      CompletionKeepsSound(s, Window, bound);
    case Tick => hide Winner, Last, Listed, Verdict, HungUp, Faithful;
    case Resume =>
      if s.phase.Starting? { StartingKeepsSound(s, bound); }
      else if s.phase.Raced? { RacedKeepsSound(s, bound); }
      else { HeardKeepsSound(s, bound); }
      hide Sound, Resumed;
  }

  lemma {:induction false} RunKeepsSound(s: State, actions: seq<Action>, bound: nat)
    requires Sound(s, bound) && Plays(s, actions, bound)
    ensures Sound(After(s, actions, bound), bound)
    decreases |actions|
  {
    if actions == [] {
    } else {
      StepKeepsSound(s, actions[0], bound);
      hide Sound, Apply, Enabled;
      RunKeepsSound(Apply(s, actions[0], bound), actions[1..], bound);
    }
  }

  lemma ReachedIsSound(start: State, actions: seq<Action>, bound: nat)
    requires Starts(start) && Plays(start, actions, bound)
    ensures Sound(After(start, actions, bound), bound)
  {
    assert Sound(start, bound);
    RunKeepsSound(start, actions, bound);
  }

  // ----- What a run promises -----

  predicate Over(s: State) { s.phase.Returned? || s.phase.Threw? }

  /** Under every interleaving each far end holds a prefix of what was read, and of what was sent. */
  lemma BytesArriveInOrder(start: State, actions: seq<Action>, bound: nat)
    requires Starts(start) && Plays(start, actions, bound)
    ensures var s := After(start, actions, bound);
      && s.up.read <= |s.up.sent| && s.up.given <= s.up.sent[..s.up.read]
      && s.down.read <= |s.down.sent| && s.down.given <= s.down.sent[..s.down.read]
      && (s.up.closed <==> Upstream in s.doneAt) && !s.down.closed
  {
    hide Recorded, Timely, Plays, After;
    ReachedIsSound(start, actions, bound);
  }

  /**
   * A client that hung up and heard the Windows half out got every byte of it, and the child's stdin was closed; the
   * child got every byte of the client's unless the copy toward it failed.
   */
  lemma AHangUpLosesNothing(start: State, actions: seq<Action>, bound: nat)
    requires Starts(start) && Plays(start, actions, bound)
    ensures var s := After(start, actions, bound);
      s.phase == Returned(ClientClosed) ==>
        && s.up.closed && s.up.at.Finished?
        && (s.up.at.ok ==> s.up.ended && s.up.given == s.up.sent && s.up.flushed == |s.up.sent|)
        && (Last(s.log) == Some(Downstream) ==>
              s.down.ended && s.down.given == s.down.sent && s.down.flushed == |s.down.sent|)
  {
    hide Recorded, Timely, Plays, After, Last;
    ReachedIsSound(start, actions, bound);
  }

  /** An interruption or the Windows half's leaving is answered at once, and a hang-up within the bound. */
  lemma WaitIsBounded(start: State, actions: seq<Action>, bound: nat)
    requires Starts(start) && Plays(start, actions, bound)
    ensures var s := After(start, actions, bound);
      !Over(s) ==>
        && (Upstream in s.doneAt ==> s.now <= s.doneAt[Upstream] + bound)
        && (forall k | k in {Downstream, Interruption} && k in s.doneAt :: s.now == s.doneAt[k])
  {
    hide Recorded, Carried, Plays, After;
    ReachedIsSound(start, actions, bound);
  }

  /** The wait for last words is given up at the bound and not before; without a bound there is no wait at all. */
  lemma WaitIsExact(start: State, actions: seq<Action>, bound: nat)
    requires Starts(start) && Plays(start, actions, bound)
    ensures var s := After(start, actions, bound);
      && (Window in s.doneAt ==> Upstream in s.doneAt && s.doneAt[Window] == s.doneAt[Upstream] + bound)
      && (bound == 0 && Over(s) && HungUp(s.log) ==> Window in s.log.before + s.log.racing)
  {
    hide Carried, Timely, Plays, After, HungUp, Winner, Last, Listed;
    ReachedIsSound(start, actions, bound);
  }

  const RACERS: set<Task> := {Upstream, Downstream, Interruption}

  const SPEAKERS: set<Task> := {Downstream, Interruption, Window}

  /** The client's side is asked for first, then the Windows half's, then the interruption. */
  lemma WinnerExactly(log: Log)
    ensures Winner(log) == Some(Upstream) <==> Chosen(log.before, log.racing, RACERS, {}, Upstream)
    ensures Winner(log) == Some(Downstream) <==> Chosen(log.before, log.racing, RACERS, {Upstream}, Downstream)
    ensures Winner(log) == Some(Interruption)
      <==> Chosen(log.before, log.racing, RACERS, {Upstream, Downstream}, Interruption)
    ensures Winner(log) != Some(Window)
  {
    var done := log.before;
    assert RACE[0] == Upstream && RACE[1] == Downstream && RACE[2] == Interruption;
    ChosenExactly(RACE, done, log.racing, 0, RACERS, {});
    ChosenExactly(RACE, done, log.racing, 1, RACERS, {Upstream});
    ChosenExactly(RACE, done, log.racing, 2, RACERS, {Upstream, Downstream});
    WhenAnyExactly(RACE, done, log.racing, Window);
    hide WhenAny;
  }

  /** For the last words the Windows half is asked for first, then the interruption, then the window. */
  lemma LastExactly(log: Log)
    ensures var done := log.before + log.racing;
      && (Last(log) == Some(Downstream) <==> Chosen(done, log.waiting, SPEAKERS, {}, Downstream))
      && (Last(log) == Some(Interruption) <==> Chosen(done, log.waiting, SPEAKERS, {Downstream}, Interruption))
      && (Last(log) == Some(Window) <==> Chosen(done, log.waiting, SPEAKERS, {Downstream, Interruption}, Window))
      && Last(log) != Some(Upstream)
  {
    var done := log.before + log.racing;
    assert LAST_WORDS[0] == Downstream && LAST_WORDS[1] == Interruption && LAST_WORDS[2] == Window;
    ChosenExactly(LAST_WORDS, done, log.waiting, 0, SPEAKERS, {});
    ChosenExactly(LAST_WORDS, done, log.waiting, 1, SPEAKERS, {Downstream});
    ChosenExactly(LAST_WORDS, done, log.waiting, 2, SPEAKERS, {Downstream, Interruption});
    WhenAnyExactly(LAST_WORDS, done, log.waiting, Upstream);
    hide WhenAny;
  }

  /** Which ending it is, by the order of completions and by how the downstream copy ended, and by nothing else. */
  lemma EndingExactly(start: State, actions: seq<Action>, bound: nat)
    requires Starts(start) && Plays(start, actions, bound)
    ensures var s := After(start, actions, bound);
      Over(s) ==>
        && (s.phase == Returned(Interrupted)
            <==> Winner(s.log) == Some(Interruption) || (HungUp(s.log) && Last(s.log) == Some(Interruption)))
        && (s.phase == Returned(WindowsHalfClosed)
            <==> Winner(s.log) == Some(Downstream) && Upstream !in s.log.before + s.log.racing)
        && (s.phase == Returned(ClientClosed)
            <==> HungUp(s.log)
                 && (Last(s.log) == Some(Window) || (Last(s.log) == Some(Downstream) && s.down.at == Finished(true))))
        && (s.phase == Threw
            <==> HungUp(s.log) && Last(s.log) == Some(Downstream) && s.down.at == Finished(false))
  {
    hide Timely, Plays, After, Listed, Faithful, FirstListed, FirstToComplete;
    ReachedIsSound(start, actions, bound);
    var s := After(start, actions, bound);
    WinnerIsListed(s.log);
    hide Winner, Last;
  }

  /** How the copy toward the child ended never shows: with the same completions, a run that lost bytes ends alike. */
  lemma UpstreamNeverShows(start: State, a: seq<Action>, b: seq<Action>, bound: nat)
    requires Starts(start) && Plays(start, a, bound) && Plays(start, b, bound)
    requires var (s, t) := (After(start, a, bound), After(start, b, bound));
      Over(s) && Over(t) && s.log == t.log && s.down.at == t.down.at
    ensures After(start, a, bound).phase == After(start, b, bound).phase
  {
    hide Plays, After, Winner, Last, HungUp;
    EndingExactly(start, a, bound);
    EndingExactly(start, b, bound);
    var s, t := After(start, a, bound), After(start, b, bound);
    match s.phase
    case Returned(ending) => match ending { case ClientClosed => case WindowsHalfClosed => case Interrupted => }
    case _ =>
  }

  lemma WinnerIsListed(log: Log)
    ensures Winner(log).Some? ==> Winner(log).value in RACE && Winner(log).value in log.before + log.racing
    ensures Last(log).Some? ==> Last(log).value in LAST_WORDS
  {
  }

  /** What the log says of an interruption that completed before everything else. */
  lemma AFirstInterruptionIsChosen(log: Log)
    requires log.before + log.racing != [] && (log.before + log.racing)[0] == Interruption
    ensures Winner(log) == Some(Interruption) || (HungUp(log) && Last(log) == Some(Interruption))
      <==> !(Downstream in log.before || (Upstream in log.before && Downstream in log.before + log.racing))
  {
    assert RACE[1..] == [Downstream, Interruption] && RACE[1..][1..] == [Interruption];
    assert LAST_WORDS[1..] == [Interruption, Window];
    var seen := log.before + log.racing;
    assert FirstListed(LAST_WORDS, seen) == Some(if Downstream in seen then Downstream else Interruption);
    if log.before == [] {
      assert FirstListed(RACE, log.before) == None;
      assert log.racing[0] == Interruption;
    } else {
      assert log.before[0] == Interruption && Interruption in log.before;
      assert FirstListed(RACE[1..][1..], log.before) == Some(Interruption);
      assert FirstListed(RACE[1..], log.before) == Some(if Downstream in log.before then Downstream else Interruption);
      assert FirstListed(RACE, log.before)
          == Some(if Upstream in log.before then Upstream else if Downstream in log.before then Downstream else Interruption);
    }
    hide FirstListed, FirstToComplete;
  }

  /**
   * An interruption that completes first of all gives the interrupted ending unless the Windows half had already left
   * when the race was entered, or the client had and the Windows half left before the outcome was looked at.
   */
  lemma FirstInterruptionExactly(start: State, actions: seq<Action>, bound: nat)
    requires Starts(start) && Plays(start, actions, bound)
    ensures var s := After(start, actions, bound);
      var seen := s.log.before + s.log.racing;
      Over(s) && seen != [] && seen[0] == Interruption ==>
        (s.phase == Returned(Interrupted)
         <==> !(Downstream in s.log.before || (Upstream in s.log.before && Downstream in seen)))
  {
    EndingExactly(start, actions, bound);
    hide Plays, After, Winner, Last;
    var s := After(start, actions, bound);
    if s.log.before + s.log.racing != [] && (s.log.before + s.log.racing)[0] == Interruption {
      AFirstInterruptionIsChosen(s.log);
    }
  }

  // ----- Time is never held -----

  function Rank(phase: Phase): nat {
    match phase
    case Starting => 5
    case Racing => 4
    case Raced(_) => 3
    case Waiting(_) => 2
    case Heard(_) => 1
    case _ => 0
  }

  /** The steps of a run that carry bytes or tell of them; the peers decide how many there are. */
  function Moves(actions: seq<Action>): nat {
    if actions == [] then 0
    else (if actions[0].MoveUp? || actions[0].MoveDown? then 1 else 0) + Moves(actions[1..])
  }

  /** How many steps other than moves and the clock's can still be taken. */
  function Budget(s: State): nat { Rank(s.phase) + if Interruption in s.doneAt then 0 else 1 }

  lemma StepSpends(s: State, a: Action, bound: nat)
    requires Enabled(s, a, bound)
    ensures Apply(s, a, bound).now + Budget(s) + Moves([a]) >= 1 + s.now + Budget(Apply(s, a, bound))
  {
    hide FirstListed, Moved;
  }

  lemma {:induction false} RunSpends(s: State, actions: seq<Action>, bound: nat)
    requires Plays(s, actions, bound)
    ensures After(s, actions, bound).now + Budget(s) + Moves(actions)
         >= |actions| + s.now + Budget(After(s, actions, bound))
    decreases |actions|
  {
    if actions == [] {
    } else {
      StepSpends(s, actions[0], bound);
      hide Budget, Apply, Enabled;
      RunSpends(Apply(s, actions[0], bound), actions[1..], bound);
    }
  }

  /** A step other than a move is always possible, and a run of more than six of them past the bound is over. */
  lemma EveryLongRunEnds(start: State, actions: seq<Action>, bound: nat)
    requires Starts(start) && Plays(start, actions, bound)
    ensures var s := After(start, actions, bound);
      && (Enabled(s, Tick, bound) || Enabled(s, Resume, bound) || Enabled(s, WindowElapses, bound))
      && (Upstream in s.doneAt && |actions| - Moves(actions) > 6 + s.doneAt[Upstream] + bound ==> Over(s))
      && (forall k | k in {Downstream, Interruption} && k in s.doneAt ::
            |actions| - Moves(actions) > 6 + s.doneAt[k] ==> Over(s))
  {
    WaitIsBounded(start, actions, bound);
    RunSpends(start, actions, bound);
    hide Plays, After;
  }

  lemma PlaysFirst(s: State, a: Action, rest: seq<Action>, bound: nat)
    requires Enabled(s, a, bound) && Plays(Apply(s, a, bound), rest, bound)
    ensures Plays(s, [a] + rest, bound) && After(s, [a] + rest, bound) == After(Apply(s, a, bound), rest, bound)
  {
    assert ([a] + rest)[1..] == rest;
    hide Apply, Enabled;
  }

  lemma PlaysNothing(s: State, bound: nat)
    ensures Plays(s, [], bound) && After(s, [], bound) == s
  {
  }

  const OVERTAKEN: seq<Action> :=
    [Interrupts] + ([MoveDown(Ends)] + ([MoveDown(ReadsTheEnd)] + ([Resume] + ([Resume] + []))))

  /** An interruption that came first is not the ending when the Windows half has left by the time anyone asks. */
  lemma AnInterruptionIsOvertaken(start: State, bound: nat)
    requires Starts(start)
    ensures Plays(start, OVERTAKEN, bound)
    ensures var s := After(start, OVERTAKEN, bound);
      s.log.before == [Interruption, Downstream] && s.phase == Returned(WindowsHalfClosed)
  {
    hide Plays, After;
    var s1 := Completed(start, Interruption);
    var s2 := s1.(down := s1.down.(ended := true));
    var s3 := Completed(s2.(down := s2.down.(at := Finished(true))), Downstream);
    var s4 := s3.(phase := Raced(Downstream));
    var s5 := s4.(phase := Returned(WindowsHalfClosed), settled := true);
    assert s3.log.before == [Interruption, Downstream];
    assert FirstListed(RACE, s3.log.before) == Some(Downstream);
    assert Enabled(start, Interrupts, bound) && Apply(start, Interrupts, bound) == s1;
    assert Enabled(s1, MoveDown(Ends), bound) && Apply(s1, MoveDown(Ends), bound) == s2;
    assert Enabled(s2, MoveDown(ReadsTheEnd), bound) && Apply(s2, MoveDown(ReadsTheEnd), bound) == s3;
    assert Enabled(s3, Resume, bound) && Apply(s3, Resume, bound) == s4;
    assert Enabled(s4, Resume, bound) && Apply(s4, Resume, bound) == s5;
    hide Apply, Enabled, Completed;
    PlaysNothing(s5, bound);
    PlaysFirst(s4, Resume, [], bound);
    PlaysFirst(s3, Resume, [Resume] + [], bound);
    PlaysFirst(s2, MoveDown(ReadsTheEnd), [Resume] + ([Resume] + []), bound);
    PlaysFirst(s1, MoveDown(Ends), [MoveDown(ReadsTheEnd)] + ([Resume] + ([Resume] + [])), bound);
    PlaysFirst(start, Interrupts, [MoveDown(Ends)] + ([MoveDown(ReadsTheEnd)] + ([Resume] + ([Resume] + []))), bound);
  }

  const LOST: seq<Action> :=
    [MoveUp(Sends([7]))] + ([MoveUp(Reads(1))] + ([MoveUp(WriteFails(0))] + ([MoveUp(Closes)] + [])))

  const HUNG_UP: seq<Action> := [MoveDown(Ends)] + ([MoveDown(ReadsTheEnd)] + ([Resume] + ([Resume] + ([Resume] + []))))

  const DROPPED := Copy(true, [7], false, 1, [], 0, Finished(false), true)

  lemma AMessageIsLost(start: State, bound: nat)
    requires Starts(start)
    ensures Plays(start, LOST, bound)
    ensures After(start, LOST, bound) == Completed(start.(up := DROPPED), Upstream)
  {
    hide Plays, After;
    var s1 := start.(up := start.up.(sent := [7]));
    var s2 := s1.(up := s1.up.(read := 1, at := Writing([7])));
    var s3 := s2.(up := s2.up.(at := Closing(false)));
    var s4 := Completed(s3.(up := s3.up.(closed := true, at := Finished(false))), Upstream);
    assert Enabled(start, MoveUp(Sends([7])), bound) && Apply(start, MoveUp(Sends([7])), bound) == s1;
    assert Enabled(s1, MoveUp(Reads(1)), bound) && Apply(s1, MoveUp(Reads(1)), bound) == s2;
    assert Enabled(s2, MoveUp(WriteFails(0)), bound) && Apply(s2, MoveUp(WriteFails(0)), bound) == s3;
    assert Enabled(s3, MoveUp(Closes), bound) && Apply(s3, MoveUp(Closes), bound) == s4;
    hide Apply, Enabled, Completed;
    PlaysNothing(s4, bound);
    PlaysFirst(s3, MoveUp(Closes), [], bound);
    PlaysFirst(s2, MoveUp(WriteFails(0)), [MoveUp(Closes)] + [], bound);
    PlaysFirst(s1, MoveUp(Reads(1)), [MoveUp(WriteFails(0))] + ([MoveUp(Closes)] + []), bound);
    PlaysFirst(start, MoveUp(Sends([7])), [MoveUp(Reads(1))] + ([MoveUp(WriteFails(0))] + ([MoveUp(Closes)] + [])), bound);
  }

  lemma TheClientHangsUp(s: State, bound: nat)
    requires s.phase.Starting? && s.log == Log([Upstream], [], []) && s.up.at.Finished? && bound > 0
    requires s.down == Fresh(false)
    ensures Plays(s, HUNG_UP, bound)
    ensures After(s, HUNG_UP, bound).phase == Returned(ClientClosed) && After(s, HUNG_UP, bound).up == s.up
  {
    hide Plays, After;
    var s1 := s.(down := s.down.(ended := true));
    var s2 := Completed(s1.(down := s1.down.(at := Finished(true))), Downstream);
    var s3 := s2.(phase := Raced(Upstream));
    var s4 := s3.(phase := Heard(Downstream), settled := true);
    var s5 := s4.(phase := Returned(ClientClosed));
    assert s2.log == Log([Upstream, Downstream], [], []);
    assert FirstListed(RACE, s2.log.before) == Some(Upstream);
    assert FirstListed(LAST_WORDS, s3.log.before + s3.log.racing) == Some(Downstream);
    assert Enabled(s, MoveDown(Ends), bound) && Apply(s, MoveDown(Ends), bound) == s1;
    assert Enabled(s1, MoveDown(ReadsTheEnd), bound) && Apply(s1, MoveDown(ReadsTheEnd), bound) == s2;
    assert Enabled(s2, Resume, bound) && Apply(s2, Resume, bound) == s3;
    assert Enabled(s3, Resume, bound) && Apply(s3, Resume, bound) == s4;
    assert Enabled(s4, Resume, bound) && Apply(s4, Resume, bound) == s5;
    assert s5.up == s.up;
    hide Apply, Enabled, Completed;
    PlaysNothing(s5, bound);
    PlaysFirst(s4, Resume, [], bound);
    PlaysFirst(s3, Resume, [Resume] + [], bound);
    PlaysFirst(s2, Resume, [Resume] + ([Resume] + []), bound);
    PlaysFirst(s1, MoveDown(ReadsTheEnd), [Resume] + ([Resume] + ([Resume] + [])), bound);
    PlaysFirst(s, MoveDown(Ends), [MoveDown(ReadsTheEnd)] + ([Resume] + ([Resume] + ([Resume] + []))), bound);
  }

  lemma {:induction false} PlaysThen(s: State, first: seq<Action>, rest: seq<Action>, bound: nat)
    requires Plays(s, first, bound) && Plays(After(s, first, bound), rest, bound)
    ensures Plays(s, first + rest, bound) && After(s, first + rest, bound) == After(After(s, first, bound), rest, bound)
    decreases |first|
  {
    if first == [] {
      assert first + rest == rest;
    } else {
      assert (first + rest)[1..] == first[1..] + rest;
      hide Apply, Enabled;
      PlaysThen(Apply(s, first[0], bound), first[1..], rest, bound);
    }
  }

  /** The copy toward the child is never awaited, so a message it lost still ends as an orderly hang-up. */
  lemma ALostMessageIsNotReported(start: State, bound: nat)
    requires Starts(start) && bound > 0
    ensures Plays(start, LOST + HUNG_UP, bound)
    ensures var s := After(start, LOST + HUNG_UP, bound);
      s.phase == Returned(ClientClosed) && s.up.at == Finished(false) && s.up.sent == [7] && s.up.given == []
  {
    hide Plays, After;
    AMessageIsLost(start, bound);
    TheClientHangsUp(Completed(start.(up := DROPPED), Upstream), bound);
    PlaysThen(start, LOST, HUNG_UP, bound);
  }
}
