/**
 * How a server's run ends: a race between its own completion, the client, the parent and a signal; a drain
 * after end-of-stream; then cancellation under a deadline. Time is discrete, what the process itself can do
 * it does before time moves on, and everything else may happen at any moment or never.
 */
module ServerLifetime {
  import opened Results
  import opened Tasks

  // ----- Endings -----

  datatype PosixSignal = SIGHUP | SIGINT | SIGQUIT | SIGTERM

  function Number(signal: PosixSignal): nat {
    match signal
    case SIGHUP => 1
    case SIGINT => 2
    case SIGQUIT => 3
    case SIGTERM => 15
  }

  datatype ExitReason = ClientClosed | ParentGone | Signalled

  datatype HostEnding = HostEnding(code: nat, reason: ExitReason)

  datatype Task = Run | Client | Parent | Signal | Window

  /** How a completed run completed. */
  datatype RunEnd = Finished | Cancelled | Faulted

  function EndingOf(first: Task, signal: PosixSignal): HostEnding {
    match first
    case Signal => HostEnding(128 + Number(signal), Signalled)
    case Parent => HostEnding(0, ParentGone)
    case _ => HostEnding(0, ClientClosed)
  }

  // ----- The two races -----

  const RACE: seq<Task> := [Run, Client, Parent, Signal]

  const DRAIN_RACE: seq<Task> := [Run, Window, Parent, Signal]

  // ----- The state -----

  datatype Timings = Timings(drain: nat, deadline: nat)

  /** Threw carries the ending the run's own exception took the place of. */
  datatype Phase =
    | Entering
    | Serving
    | Raced(first: Task)
    | Draining(since: nat)
    | Drained(cut: Task)
    | Stopping(ending: HostEnding)
    | Returned(ending: HostEnding)
    | Threw(ending: HostEnding)

  /** Completions in order: before the first race was entered, before the drain was, and after it. */
  datatype Log = Log(before: seq<Task>, racing: seq<Task>, draining: seq<Task>)

  datatype State = State(
    now: nat,
    doneAt: map<Task, nat>,
    how: RunEnd,
    signal: PosixSignal,
    phase: Phase,
    drainEntered: bool,
    cancelledAt: Option<nat>,
    callbacksAt: Option<nat>,
    forced: seq<HostEnding>,
    log: Log)

  function Logged(s: State, task: Task): Log {
    if s.phase.Entering? then s.log.(before := s.log.before + [task])
    else if s.drainEntered then s.log.(draining := s.log.draining + [task])
    else s.log.(racing := s.log.racing + [task])
  }

  function Completed(s: State, task: Task): State {
    s.(doneAt := s.doneAt[task := s.now],
       log := Logged(s, task),
       phase := match s.phase
                case Serving => if task in RACE then Raced(task) else Serving
                case Draining(_) => if task in DRAIN_RACE then Drained(task) else s.phase
                case other => other)
  }

  /** What follows either race: a run that is over is awaited; one that is not is cancelled, the timer armed first. */
  function Settled(s: State, ending: HostEnding): State {
    if Run in s.doneAt then s.(phase := if s.how.Finished? then Returned(ending) else Threw(ending))
    else s.(phase := Stopping(ending), cancelledAt := Some(s.now))
  }

  /** Entering the drain; a window of no length is over before anything is asked. */
  function DrainStarted(s: State, t: Timings): State {
    var w := if t.drain == 0
             then s.(doneAt := s.doneAt[Window := s.now], log := s.log.(racing := s.log.racing + [Window]))
             else s;
    match FirstListed(DRAIN_RACE, w.log.before + w.log.racing)
    case Some(first) => w.(phase := Drained(first), drainEntered := true)
    case None => w.(phase := Draining(s.now), drainEntered := true)
  }

  // ----- The steps -----

  datatype Action =
    | ClientCloses
    | ParentDies
    | SignalArrives(signal: PosixSignal)
    | RunEnds(how: RunEnd)
    | CallbacksReturn
    | Tick
    | WindowElapses
    | Resume
    | Finish
    | Fire

  predicate CanResume(s: State) {
    s.phase.Entering? || s.phase.Raced? || s.phase.Drained?
  }

  predicate CanElapse(s: State, t: Timings) {
    s.phase.Draining? && s.now >= s.phase.since + t.drain
  }

  predicate CanFinish(s: State) {
    s.phase.Stopping? && s.callbacksAt.Some? && Run in s.doneAt
  }

  predicate CanFire(s: State, t: Timings) {
    s.phase.Stopping? && s.cancelledAt.Some? && s.now >= s.cancelledAt.value + t.deadline && s.forced == []
  }

  predicate Urgent(s: State, t: Timings) {
    CanResume(s) || CanElapse(s, t) || CanFinish(s) || CanFire(s, t)
  }

  predicate Enabled(s: State, a: Action, t: Timings) {
    match a
    case ClientCloses => Client !in s.doneAt
    case ParentDies => Parent !in s.doneAt
    case SignalArrives(_) => Signal !in s.doneAt
    case RunEnds(_) => Run !in s.doneAt
    case CallbacksReturn => s.phase.Stopping? && s.callbacksAt.None?
    case Tick => !Urgent(s, t)
    case WindowElapses => CanElapse(s, t)
    case Resume => CanResume(s)
    case Finish => CanFinish(s)
    case Fire => CanFire(s, t)
  }

  function Apply(s: State, a: Action, t: Timings): State
    requires Enabled(s, a, t)
  {
    match a
    case ClientCloses => Completed(s, Client)
    case ParentDies => Completed(s, Parent)
    case SignalArrives(signal) => Completed(s.(signal := signal), Signal)
    case RunEnds(how) => Completed(s.(how := how), Run)
    case CallbacksReturn => s.(callbacksAt := Some(s.now))
    case Tick => s.(now := s.now + 1)
    case WindowElapses => Completed(s, Window)
    case Resume => Resumed(s, t)
    case Finish => s.(phase := if s.how.Faulted? then Threw(s.phase.ending) else Returned(s.phase.ending))
    case Fire => s.(forced := s.forced + [s.phase.ending])
  }

  function Resumed(s: State, t: Timings): State
    requires CanResume(s)
  {
    match s.phase
    case Entering =>
      (match FirstListed(RACE, s.log.before)
       case Some(first) => s.(phase := Raced(first))
       case None => s.(phase := Serving))
    case Raced(first) =>
      var ending := EndingOf(first, s.signal);
      if ending.reason.ClientClosed? then DrainStarted(s, t) else Settled(s, ending)
    case Drained(cut) => Settled(s, EndingOf(cut, s.signal))
  }

  predicate Starts(s: State) {
    && s.now == 0 && s.phase.Entering? && s.doneAt == map[] && !s.drainEntered
    && s.cancelledAt.None? && s.callbacksAt.None? && s.forced == [] && s.log == Log([], [], [])
  }

  predicate Plays(s: State, actions: seq<Action>, t: Timings)
    decreases |actions|
  {
    actions == [] || (Enabled(s, actions[0], t) && Plays(Apply(s, actions[0], t), actions[1..], t))
  }

  function After(s: State, actions: seq<Action>, t: Timings): State
    requires Plays(s, actions, t)
    decreases |actions|
  {
    if actions == [] then s else After(Apply(s, actions[0], t), actions[1..], t)
  }

  // ----- What every step keeps about time -----

  const OUTSIDE: set<Task> := {Run, Client, Parent, Signal}

  predicate AllNow(s: State, tasks: set<Task>) {
    forall k | k in tasks && k in s.doneAt :: s.doneAt[k] == s.now
  }

  /** The one event an ending stands for, at the instant the token was cancelled. */
  predicate Cause(s: State, t: Timings, ending: HostEnding, at: nat) {
    match ending.reason
    case Signalled => Signal in s.doneAt && s.doneAt[Signal] == at && ending.code == 128 + Number(s.signal)
    case ParentGone => Parent in s.doneAt && s.doneAt[Parent] == at && ending.code == 0
    case ClientClosed => Client in s.doneAt && at == s.doneAt[Client] + t.drain && ending.code == 0
  }

  /** Cancelled no later than any completion allows: a drain after the client, at once for the others. */
  predicate NotLate(s: State, t: Timings, at: nat) {
    && at <= s.now
    && (Client in s.doneAt ==> at <= s.doneAt[Client] + t.drain)
    && (forall k | k in {Run, Parent, Signal} && k in s.doneAt :: at <= s.doneAt[k])
  }

  /** The run was over and the cancellation callbacks had returned before the instant `due`. */
  predicate StoppedBefore(s: State, due: nat) {
    Run in s.doneAt && s.doneAt[Run] < due && s.callbacksAt.Some? && s.callbacksAt.value < due
  }

  predicate StoppedBy(s: State, due: nat) { StoppedBefore(s, due + 1) }

  // ----- What the order of completions says -----

  function Winner(log: Log): Option<Task> { WhenAny(RACE, log.before, log.racing) }

  function Cut(log: Log): Option<Task> { WhenAny(DRAIN_RACE, log.before + log.racing, log.draining) }

  /** The race was won by an end-of-stream: the run's or the client's. */
  predicate AtEnd(winner: Option<Task>) { winner == Some(Run) || winner == Some(Client) }

  predicate Urging(winner: Option<Task>) { winner == Some(Parent) || winner == Some(Signal) }

  /** The ending the completions alone determine: the race's winner, or the drain's when the winner is end-of-stream. */
  function Verdict(log: Log, signal: PosixSignal): Option<HostEnding> {
    if Urging(Winner(log)) then Some(EndingOf(Winner(log).value, signal))
    else if AtEnd(Winner(log)) && Cut(log).Some? then Some(EndingOf(Cut(log).value, signal))
    else None
  }

  lemma WinnerStays(log: Log, task: Task)
    ensures Winner(log.(racing := log.racing + [task]))
         == if Winner(log).Some? then Winner(log) else if task in RACE then Some(task) else None
  {
    OneMore(RACE, log.racing, task);
    hide FirstListed, FirstToComplete;
  }

  lemma WinnerIgnoresTheDrain(log: Log, task: Task)
    ensures Winner(log.(draining := log.draining + [task])) == Winner(log)
  {
  }

  lemma CutStays(log: Log, task: Task)
    ensures Cut(log.(draining := log.draining + [task]))
         == if Cut(log).Some? then Cut(log) else if task in DRAIN_RACE then Some(task) else None
  {
    OneMore(DRAIN_RACE, log.draining, task);
    hide FirstListed, FirstToComplete;
  }

  predicate Listed(done: set<Task>, log: Log) {
    forall k :: k in done <==> k in log.before + log.racing + log.draining
  }

  predicate Recorded(s: State) {
    && Listed(s.doneAt.Keys, s.log)
    && (!s.drainEntered ==> s.log.draining == [])
    && (Ending(s) && !s.drainEntered ==> Urging(Winner(s.log)))
    && (s.drainEntered ==> AtEnd(Winner(s.log)))
    && match s.phase
       case Entering => s.log.racing == [] && !s.drainEntered
       case Serving => Winner(s.log) == None && !s.drainEntered
       case Raced(first) => Winner(s.log) == Some(first) && !s.drainEntered
       case Draining(_) => Cut(s.log) == None && s.drainEntered
       case Drained(cut) => Cut(s.log) == Some(cut) && s.drainEntered
       case Stopping(ending) => Verdict(s.log, s.signal) == Some(ending)
       case Returned(ending) => Verdict(s.log, s.signal) == Some(ending)
       case Threw(ending) => Verdict(s.log, s.signal) == Some(ending)
  }

  // ----- The invariant -----

  predicate Serial(s: State) {
    match s.phase
    case Entering => s.now == 0
    case Serving => s.doneAt == map[]
    case Raced(first) => first in RACE && first in s.doneAt && AllNow(s, OUTSIDE)
    case Draining(since) => s.doneAt.Keys == {Client} && s.doneAt[Client] == since
    case Drained(cut) => cut in DRAIN_RACE && cut in s.doneAt && AllNow(s, {Run, Parent, Signal})
    case _ => true
  }

  /** Where the drain stands against its window. */
  predicate Windowed(s: State, t: Timings) {
    match s.phase
    case Entering => Window !in s.doneAt
    case Raced(first) => Window !in s.doneAt
    case Draining(since) => s.now <= since + t.drain
    case Drained(cut) =>
      && (Client in s.doneAt ==> s.now <= s.doneAt[Client] + t.drain)
      && (cut == Run || Client in s.doneAt)
      && (cut == Window ==> Client in s.doneAt && s.now == s.doneAt[Client] + t.drain)
    case _ => true
  }

  predicate Ending(s: State) { s.phase.Stopping? || s.phase.Returned? || s.phase.Threw? }

  /** What cancellation and the deadline timer have done. */
  predicate Stopped(s: State, t: Timings) {
    && (!Ending(s) ==> s.cancelledAt.None?)
    && (s.phase.Stopping? ==> s.cancelledAt.Some?)
    && (s.cancelledAt.None? ==> s.callbacksAt.None? && s.forced == [])
    && (s.cancelledAt.Some? ==> NotLate(s, t, s.cancelledAt.value))
    && |s.forced| <= 1
    && (Ending(s) ==>
          && (s.cancelledAt.Some? ==> Cause(s, t, s.phase.ending, s.cancelledAt.value))
          && (s.forced != [] ==> s.forced == [s.phase.ending]))
  }

  /** What the deadline timer may and must have seen. */
  predicate Punctual(s: State, t: Timings) {
    && (CanFinish(s) ==> s.now == s.doneAt[Run] || s.now == s.callbacksAt.value)
    && (s.callbacksAt.Some? ==> s.callbacksAt.value <= s.now)
    && (s.cancelledAt.Some? ==>
          var due := s.cancelledAt.value + t.deadline;
          && (s.forced != [] ==> s.now >= due && !StoppedBefore(s, due))
          && (s.forced == [] ==> if s.phase.Stopping? then s.now <= due else StoppedBy(s, due)))
  }

  /** Whether the awaited run's own exception comes out in place of the ending. */
  predicate Rethrown(s: State) { s.how.Faulted? || (s.how.Cancelled? && s.cancelledAt.None?) }

  predicate Awaited(s: State) {
    s.phase.Returned? || s.phase.Threw? ==> Run in s.doneAt && (s.phase.Threw? <==> Rethrown(s))
  }

  /** A drain of no length is over when it is entered. */
  predicate NoDrain(s: State, t: Timings) {
    s.drainEntered && t.drain == 0 ==> Cut(s.log) == Some(Run) || Cut(s.log) == Some(Window)
  }

  predicate Sound(s: State, t: Timings) {
    && (forall k | k in s.doneAt :: s.doneAt[k] <= s.now)
    && Serial(s) && Windowed(s, t) && Stopped(s, t) && Punctual(s, t) && Recorded(s) && Awaited(s) && NoDrain(s, t)
  }

  // ----- A completion keeps the invariant -----

  predicate Completes(s: State, task: Task, t: Timings) {
    task !in s.doneAt && (task == Window ==> CanElapse(s, t))
  }

  lemma CompletionIsListed(s: State, task: Task)
    requires task !in s.doneAt && Listed(s.doneAt.Keys, s.log) && (!s.drainEntered ==> s.log.draining == [])
    requires s.phase.Entering? ==> s.log.racing == [] && !s.drainEntered
    ensures Listed(Completed(s, task).doneAt.Keys, Completed(s, task).log)
  {
  }

  lemma CompletionIsRecorded(s: State, task: Task)
    requires task !in s.doneAt && Recorded(s)
    ensures Recorded(Completed(s, task))
  {
    hide Winner, Cut, Listed, EndingOf;
    CompletionIsListed(s, task);
    var c := Completed(s, task);
    if s.phase.Entering? {
    } else if s.drainEntered {
      CutStays(s.log, task);
      assert Winner(c.log) == Winner(s.log) by { WinnerIgnoresTheDrain(s.log, task); }
    } else {
      WinnerStays(s.log, task);
    }
  }

  lemma CompletionIsOrderly(s: State, task: Task, t: Timings)
    requires Completes(s, task, t) && Serial(s) && Windowed(s, t) && (forall k | k in s.doneAt :: s.doneAt[k] <= s.now)
    ensures Serial(Completed(s, task)) && Windowed(Completed(s, task), t)
  {
  }

  lemma CompletionIsNotLate(s: State, task: Task, t: Timings)
    requires Completes(s, task, t) && Stopped(s, t) && Punctual(s, t)
    ensures Stopped(Completed(s, task), t) && Punctual(Completed(s, task), t)
  {
  }

  lemma CompletionIsAwaited(s: State, task: Task)
    requires task !in s.doneAt && Awaited(s)
    ensures Awaited(Completed(s, task))
  {
  }

  lemma CompletionKeepsNoDrain(s: State, task: Task, t: Timings)
    requires task !in s.doneAt && Recorded(s) && NoDrain(s, t)
    ensures NoDrain(Completed(s, task), t)
  {
    hide Winner, Cut, Listed, Verdict;
    CutStays(s.log, task);
  }

  lemma CompletionKeepsSound(s: State, task: Task, t: Timings)
    requires Completes(s, task, t) && Sound(s, t)
    ensures Sound(Completed(s, task), t)
  {
    CompletionIsRecorded(s, task);
    CompletionIsOrderly(s, task, t);
    CompletionIsNotLate(s, task, t);
    CompletionKeepsNoDrain(s, task, t);
    CompletionIsAwaited(s, task);
    hide Recorded, Serial, Windowed, Stopped, Punctual, Awaited, NoDrain;
  }

  lemma WinnersAreDone(done: set<Task>, log: Log)
    requires Listed(done, log)
    ensures Winner(log).Some? ==> Winner(log).value in done
    ensures Cut(log).Some? ==> Cut(log).value in done
  {
    hide FirstListed, FirstToComplete;
  }

  lemma ANewSignalKeepsSound(s: State, signal: PosixSignal, t: Timings)
    requires Sound(s, t) && Signal !in s.doneAt
    ensures Sound(s.(signal := signal), t)
  {
    hide Winner, Cut, Listed;
    WinnersAreDone(s.doneAt.Keys, s.log);
    assert Verdict(s.log, signal) == Verdict(s.log, s.signal);
    hide Verdict;
  }

  lemma ANewEndKeepsSound(s: State, how: RunEnd, t: Timings)
    requires Sound(s, t) && Run !in s.doneAt
    ensures Sound(s.(how := how), t)
  {
    hide Winner, Cut, Verdict, Listed;
  }

  lemma TheWindowIsOpen(s: State, t: Timings)
    requires Sound(s, t) && s.phase.Draining?
    ensures Window !in s.doneAt
  {
    hide Recorded, Stopped, Punctual;
    assert s.doneAt.Keys == {Client};
  }

  // ----- The other steps keep it -----

  lemma TimeKeepsSound(s: State, t: Timings)
    requires Sound(s, t) && !Urgent(s, t)
    ensures Sound(s.(now := s.now + 1), t)
  {
    hide Winner, Cut, Verdict, Listed;
  }

  lemma NobodyIsDone(s: State)
    requires Listed(s.doneAt.Keys, s.log) && s.log == Log(s.log.before, [], []) && Window !in s.doneAt
    requires Winner(s.log) == None
    ensures s.doneAt == map[]
  {
    assert Run in RACE && Client in RACE && Parent in RACE && Signal in RACE;
    assert s.log.before + s.log.racing + s.log.draining == s.log.before;
    assert FirstListed(RACE, s.log.before) == None;
    forall k ensures k !in s.doneAt { assert k == Window || k !in s.log.before; }
    assert s.doneAt.Keys == {};
  }

  lemma EnteringKeepsSound(s: State, t: Timings)
    requires Sound(s, t) && s.phase.Entering?
    ensures Sound(Resumed(s, t), t)
  {
    if Winner(s.log) == None { NobodyIsDone(s); }
    hide Cut, Verdict, Listed;
  }

  lemma SettlingKeepsSound(s: State, ending: HostEnding, t: Timings)
    requires Sound(s, t) && !Ending(s) && NotLate(s, t, s.now)
    requires Verdict(s.log, s.signal) == Some(ending) && (!s.drainEntered ==> Urging(Winner(s.log)))
    requires Run !in s.doneAt ==> Cause(s, t, ending, s.now)
    ensures Sound(Settled(s, ending), t)
  {
    hide Winner, Cut, Verdict, Listed;
  }

  /** A window of no length is over when the drain is entered. */
  lemma TheEmptyWindowKeepsSound(s: State)
    requires Listed(s.doneAt.Keys, s.log) && s.log.draining == [] && Window !in s.doneAt
    ensures Listed(s.doneAt.Keys + {Window}, s.log.(racing := s.log.racing + [Window]))
  {
  }

  /** What is so when the drain asks who is done already. */
  predicate Asking(w: State, t: Timings) {
    && w.phase.Raced? && AtEnd(Some(w.phase.first)) && w.phase.first in w.doneAt && Winner(w.log) == Some(w.phase.first)
    && AllNow(w, OUTSIDE) && (forall k | k in w.doneAt :: w.doneAt[k] <= w.now)
    && (Window in w.doneAt ==> w.doneAt[Window] == w.now) && (Window in w.doneAt <==> t.drain == 0)
    && Listed(w.doneAt.Keys, w.log) && !w.drainEntered && w.log.draining == []
    && Stopped(w, t) && Punctual(w, t)
  }

  lemma TheDrainAsks(s: State, t: Timings)
    requires Sound(s, t) && s.phase.Raced? && AtEnd(Some(s.phase.first))
    ensures t.drain > 0 ==> Asking(s, t)
    ensures t.drain == 0 ==>
      Asking(s.(doneAt := s.doneAt[Window := s.now], log := s.log.(racing := s.log.racing + [Window])), t)
  {
    WinnerStays(s.log, Window);
    TheEmptyWindowKeepsSound(s);
    assert s.doneAt.Keys + {Window} == s.doneAt[Window := s.now].Keys;
    hide Winner, Cut, Listed, Verdict;
  }

  lemma TheDrainIsCut(w: State, cut: Task, t: Timings)
    requires Asking(w, t) && Cut(w.log) == Some(cut) && cut in w.doneAt && cut in DRAIN_RACE
    requires w.phase.first == Run ==> cut == Run
    requires t.drain == 0 ==> cut == Run || cut == Window
    ensures Sound(w.(phase := Drained(cut), drainEntered := true), t)
  {
    hide Winner, Cut, Listed, Verdict;
  }

  lemma TheDrainWaits(w: State, t: Timings)
    requires Asking(w, t) && Cut(w.log) == None && w.doneAt.Keys == {Client} && t.drain > 0
    ensures Sound(w.(phase := Draining(w.now), drainEntered := true), t)
  {
    hide Winner, Cut, Listed, Verdict;
  }

  lemma OnlyTheClientIsDone(w: State, t: Timings)
    requires Asking(w, t) && FirstListed(DRAIN_RACE, w.log.before + w.log.racing) == None
    ensures w.doneAt.Keys == {Client}
  {
    assert Run in DRAIN_RACE && Window in DRAIN_RACE && Parent in DRAIN_RACE && Signal in DRAIN_RACE;
    assert w.log.before + w.log.racing + w.log.draining == w.log.before + w.log.racing;
    hide Stopped, Punctual, FirstListed, Winner;
    assert forall k | k in w.doneAt :: k == Client;
    assert w.phase.first == Client;
  }

  lemma AnOpenWindowComesFirst(done: seq<Task>)
    requires Window in done
    ensures FirstListed(DRAIN_RACE, done) == Some(if Run in done then Run else Window)
  {
    assert DRAIN_RACE[1..][0] == Window;
  }

  lemma AskingKeepsSound(w: State, t: Timings)
    requires Asking(w, t)
    ensures match FirstListed(DRAIN_RACE, w.log.before + w.log.racing)
            case Some(first) => Sound(w.(phase := Drained(first), drainEntered := true), t)
            case None => Sound(w.(phase := Draining(w.now), drainEntered := true), t)
  {
    hide Sound;
    var asked := FirstListed(DRAIN_RACE, w.log.before + w.log.racing);
    assert Cut(w.log) == asked;
    match asked
    case Some(cut) =>
      assert w.log.before + w.log.racing + w.log.draining == w.log.before + w.log.racing;
      assert w.phase.first == Run ==> cut == Run;
      if t.drain == 0 { AnOpenWindowComesFirst(w.log.before + w.log.racing); }
      TheDrainIsCut(w, cut, t);
    case None =>
      OnlyTheClientIsDone(w, t);
      TheDrainWaits(w, t);
  }

  lemma DrainingKeepsSound(s: State, t: Timings)
    requires Sound(s, t) && s.phase.Raced? && AtEnd(Some(s.phase.first))
    ensures Sound(DrainStarted(s, t), t)
  {
    TheDrainAsks(s, t);
    hide Sound, FirstListed, Asking;
    if t.drain == 0 {
      AskingKeepsSound(s.(doneAt := s.doneAt[Window := s.now], log := s.log.(racing := s.log.racing + [Window])), t);
    } else {
      AskingKeepsSound(s, t);
    }
  }

  lemma ResumingKeepsSound(s: State, t: Timings)
    requires Sound(s, t) && CanResume(s)
    ensures Sound(Resumed(s, t), t)
  {
    hide Winner, Cut, Listed;
    match s.phase
    case Entering => EnteringKeepsSound(s, t);
    case Raced(first) =>
      if AtEnd(Some(first)) { DrainingKeepsSound(s, t); } else { SettlingKeepsSound(s, EndingOf(first, s.signal), t); }
    case Drained(cut) => SettlingKeepsSound(s, EndingOf(cut, s.signal), t);
  }

  lemma StoppingKeepsSound(s: State, a: Action, t: Timings)
    requires Sound(s, t) && Enabled(s, a, t) && (a.CallbacksReturn? || a.Finish? || a.Fire?)
    ensures Sound(Apply(s, a, t), t)
  {
    hide Winner, Cut, Verdict, Listed;
  }

  /** Every step, whatever happens in it, keeps the invariant. */
  lemma StepKeepsSound(s: State, a: Action, t: Timings)
    requires Sound(s, t) && Enabled(s, a, t)
    ensures Sound(Apply(s, a, t), t)
  {
    hide Recorded, Serial, Windowed, Stopped, Punctual;
    match a
    case ClientCloses => CompletionKeepsSound(s, Client, t);
    case ParentDies => CompletionKeepsSound(s, Parent, t);
    case SignalArrives(signal) =>
      ANewSignalKeepsSound(s, signal, t);
      CompletionKeepsSound(s.(signal := signal), Signal, t);
    case RunEnds(how) =>
      ANewEndKeepsSound(s, how, t);
      CompletionKeepsSound(s.(how := how), Run, t);
    case WindowElapses =>
      assert Window !in s.doneAt by { TheWindowIsOpen(s, t); }
      CompletionKeepsSound(s, Window, t);
    case Tick => TimeKeepsSound(s, t);
    case Resume => ResumingKeepsSound(s, t);
    case _ => StoppingKeepsSound(s, a, t);
  }

  lemma {:induction false} RunKeepsSound(s: State, actions: seq<Action>, t: Timings)
    requires Sound(s, t) && Plays(s, actions, t)
    ensures Sound(After(s, actions, t), t)
    decreases |actions|
  {
    if actions == [] {
    } else {
      StepKeepsSound(s, actions[0], t);
      hide Sound, Apply, Enabled;
      RunKeepsSound(Apply(s, actions[0], t), actions[1..], t);
    }
  }

  // ----- Bounded shutdown -----

  predicate Over(s: State) { s.phase.Returned? || s.phase.Threw? || s.forced != [] }

  lemma StartIsSound(s: State, t: Timings)
    requires Starts(s)
    ensures Sound(s, t)
  {
  }

  /** Every state a run can come to. */
  lemma ReachedIsSound(start: State, actions: seq<Action>, t: Timings)
    requires Starts(start) && Plays(start, actions, t)
    ensures Sound(After(start, actions, t), t)
  {
    StartIsSound(start, t);
    RunKeepsSound(start, actions, t);
  }

  /**
   * While the server has neither returned nor been forced out, no more than drain and deadline have passed since
   * end-of-stream, and no more than the deadline since a signal, the loss of the parent or the run's own end.
   */
  lemma ShutdownIsBounded(start: State, actions: seq<Action>, t: Timings)
    requires Starts(start) && Plays(start, actions, t)
    ensures var s := After(start, actions, t);
      !Over(s) ==>
        && (Client in s.doneAt ==> s.now <= s.doneAt[Client] + t.drain + t.deadline)
        && (forall k | k in {Run, Parent, Signal} && k in s.doneAt :: s.now <= s.doneAt[k] + t.deadline)
  {
    ReachedIsSound(start, actions, t);
    hide Recorded, Plays, After;
  }

  /** Nothing is cancelled early: at once for a signal or a lost parent, at the end of the drain for end-of-stream. */
  lemma CancellationHasACause(start: State, actions: seq<Action>, t: Timings)
    requires Starts(start) && Plays(start, actions, t)
    ensures var s := After(start, actions, t);
      s.cancelledAt.Some? ==>
        && Ending(s) && Cause(s, t, s.phase.ending, s.cancelledAt.value)
        && (Run in s.doneAt ==> s.cancelledAt.value <= s.doneAt[Run])
  {
    ReachedIsSound(start, actions, t);
    hide Recorded, Plays, After, Cause;
  }

  /**
   * Forced out at most once, with the ending a return would have given, past the deadline, and not when the run was
   * over and the cancellation had been delivered before it; and always when one of the two came later.
   */
  lemma ForcedExactly(start: State, actions: seq<Action>, t: Timings)
    requires Starts(start) && Plays(start, actions, t)
    ensures var s := After(start, actions, t);
      match s.cancelledAt
      case None => s.forced == []
      case Some(at) =>
        && Ending(s)
        && (s.forced != [] ==> s.forced == [s.phase.ending] && s.now >= at + t.deadline && !StoppedBefore(s, at + t.deadline))
        && (s.now > at + t.deadline && !StoppedBy(s, at + t.deadline) ==> s.forced == [s.phase.ending])
  {
    hide Recorded, Serial, Windowed, NotLate, Plays, After, Cause;
    ReachedIsSound(start, actions, t);
  }

  lemma PlaysFirst(s: State, a: Action, rest: seq<Action>, t: Timings)
    requires Enabled(s, a, t) && Plays(Apply(s, a, t), rest, t)
    ensures Plays(s, [a] + rest, t) && After(s, [a] + rest, t) == After(Apply(s, a, t), rest, t)
  {
    assert ([a] + rest)[1..] == rest;
    hide Apply, Enabled;
  }

  const HELD: seq<Action> :=
    [Resume] + ([SignalArrives(SIGINT)] + ([Resume] + ([RunEnds(Cancelled)] + ([Tick] + [Fire]))))

  lemma ASignalCancels(start: State, t: Timings)
    requires Starts(start)
    ensures var rest := [RunEnds(Cancelled)] + ([Tick] + [Fire]);
      var s := Completed(start.(phase := Serving, signal := SIGINT), Signal)
               .(phase := Stopping(HostEnding(130, Signalled)), cancelledAt := Some(0));
      Plays(s, rest, t) ==> Plays(start, HELD, t) && After(start, HELD, t) == After(s, rest, t)
  {
    hide Plays, After;
    var s1 := start.(phase := Serving);
    var s2 := Completed(s1.(signal := SIGINT), Signal);
    var s3 := s2.(phase := Stopping(HostEnding(130, Signalled)), cancelledAt := Some(0));
    assert FirstListed(RACE, []) == None by { hide Completed; }
    assert Enabled(start, Resume, t) && Apply(start, Resume, t) == s1;
    assert Enabled(s1, SignalArrives(SIGINT), t) && Apply(s1, SignalArrives(SIGINT), t) == s2;
    assert Enabled(s2, Resume, t) && Apply(s2, Resume, t) == s3;
    hide Apply, Enabled, Completed;
    var rest := [RunEnds(Cancelled)] + ([Tick] + [Fire]);
    if Plays(s3, rest, t) {
      PlaysFirst(s2, Resume, rest, t);
      PlaysFirst(s1, SignalArrives(SIGINT), [Resume] + rest, t);
      PlaysFirst(start, Resume, [SignalArrives(SIGINT)] + ([Resume] + rest), t);
    }
  }

  /** A callback that holds the cancellation forces out a server whose run is long over. */
  lemma AHeldCancellationForcesAFinishedRun(start: State, t: Timings)
    requires Starts(start) && t.deadline == 1
    ensures Plays(start, HELD, t)
    ensures var s := After(start, HELD, t);
      Run in s.doneAt && s.doneAt[Run] == 0 && s.now == 1 && s.forced == [HostEnding(130, Signalled)]
  {
    ASignalCancels(start, t);
    hide Plays, After;
    var s3 := Completed(start.(phase := Serving, signal := SIGINT), Signal)
              .(phase := Stopping(HostEnding(130, Signalled)), cancelledAt := Some(0));
    var s4 := Completed(s3.(how := Cancelled), Run);
    var s5 := s4.(now := 1);
    var s6 := s5.(forced := [HostEnding(130, Signalled)]);
    assert Enabled(s3, RunEnds(Cancelled), t) && Apply(s3, RunEnds(Cancelled), t) == s4;
    assert Enabled(s4, Tick, t) && Apply(s4, Tick, t) == s5;
    assert Enabled(s5, Fire, t) && Apply(s5, Fire, t) == s6;
    hide Apply, Enabled;
    PlaysNothing(s6, t);
    assert [Fire] == [Fire] + [];
    PlaysFirst(s5, Fire, [], t);
    PlaysFirst(s4, Tick, [Fire], t);
    PlaysFirst(s3, RunEnds(Cancelled), [Tick] + [Fire], t);
  }

  lemma PlaysNothing(s: State, t: Timings)
    ensures Plays(s, [], t) && After(s, [], t) == s
  {
  }

  // ----- Time is never held -----

  function Rank(s: State): nat {
    match s.phase
    case Entering => 7
    case Serving => 6
    case Raced(_) => 5
    case Draining(_) => 4
    case Drained(_) => 3
    case Stopping(_) => if s.forced == [] then 2 else 1
    case _ => 0
  }

  function One(b: bool): nat { if b then 1 else 0 }

  /** How many steps other than the clock's can still be taken. */
  function Budget(s: State): nat {
    Rank(s) + Pending(s.doneAt) + One(s.callbacksAt.None?)
  }

  function Pending(doneAt: map<Task, nat>): nat {
    One(Client !in doneAt) + One(Parent !in doneAt) + One(Signal !in doneAt) + One(Run !in doneAt)
  }

  lemma CompletionSpends(s: State, task: Task)
    requires if task == Window then s.phase.Draining? else task !in s.doneAt
    ensures Completed(s, task).now == s.now && Budget(s) >= 1 + Budget(Completed(s, task))
  {
    var c := Completed(s, task);
    assert Rank(c) <= Rank(s) - One(task == Window);
    assert c.doneAt == s.doneAt[task := s.now] && c.callbacksAt == s.callbacksAt;
    hide Completed, Rank, Logged;
  }

  lemma ResumingSpends(s: State, t: Timings)
    requires CanResume(s)
    ensures Resumed(s, t).now == s.now && Budget(s) >= 1 + Budget(Resumed(s, t))
  {
    hide FirstListed, EndingOf;
    var r := Resumed(s, t);
    assert Rank(r) < Rank(s) && r.callbacksAt == s.callbacksAt && r.now == s.now;
    assert r.doneAt == s.doneAt || r.doneAt == s.doneAt[Window := s.now];
    hide Resumed, Rank;
  }

  lemma StepSpends(s: State, a: Action, t: Timings)
    requires Enabled(s, a, t)
    ensures Apply(s, a, t).now + Budget(s) >= 1 + s.now + Budget(Apply(s, a, t))
  {
    hide Pending, Completed, Resumed;
    match a
    case ClientCloses => CompletionSpends(s, Client);
    case ParentDies => CompletionSpends(s, Parent);
    case SignalArrives(signal) => CompletionSpends(s.(signal := signal), Signal);
    case RunEnds(how) => CompletionSpends(s.(how := how), Run);
    case WindowElapses => CompletionSpends(s, Window);
    case Resume => ResumingSpends(s, t);
    case _ =>
  }

  lemma {:induction false} RunSpends(s: State, actions: seq<Action>, t: Timings)
    requires Plays(s, actions, t)
    ensures After(s, actions, t).now + Budget(s) >= |actions| + s.now + Budget(After(s, actions, t))
    decreases |actions|
  {
    if actions == [] {
    } else {
      StepSpends(s, actions[0], t);
      hide Budget, Apply, Enabled;
      RunSpends(Apply(s, actions[0], t), actions[1..], t);
    }
  }

  /** Some step can always be taken, and a run of more than twelve steps past the bound is over. */
  lemma EveryLongRunEnds(start: State, actions: seq<Action>, t: Timings)
    requires Starts(start) && Plays(start, actions, t)
    ensures var s := After(start, actions, t);
      && (exists a :: Enabled(s, a, t))
      && (Client in s.doneAt && |actions| > 12 + s.doneAt[Client] + t.drain + t.deadline ==> Over(s))
      && (forall k | k in {Run, Parent, Signal} && k in s.doneAt ::
            |actions| > 12 + s.doneAt[k] + t.deadline ==> Over(s))
  {
    ShutdownIsBounded(start, actions, t);
    RunSpends(start, actions, t);
    var s := After(start, actions, t);
    assert Enabled(s, Tick, t) || Enabled(s, Resume, t) || Enabled(s, WindowElapses, t) || Enabled(s, Finish, t)
        || Enabled(s, Fire, t);
    hide Plays, After, Enabled;
  }

  // ----- Who ended it -----

  const RACERS: set<Task> := {Run, Client, Parent, Signal}

  const DRAINERS: set<Task> := {Run, Window, Parent, Signal}

  /** The server's own end is asked for first, then the client, the parent and the signal. */
  lemma WinnerExactly(log: Log)
    ensures Winner(log) == Some(Run) <==> Chosen(log.before, log.racing, RACERS, {}, Run)
    ensures Winner(log) == Some(Client) <==> Chosen(log.before, log.racing, RACERS, {Run}, Client)
    ensures Winner(log) == Some(Parent) <==> Chosen(log.before, log.racing, RACERS, {Run, Client}, Parent)
    ensures Winner(log) == Some(Signal) <==> Chosen(log.before, log.racing, RACERS, {Run, Client, Parent}, Signal)
    ensures Winner(log) != Some(Window)
  {
    var done := log.before;
    assert RACE[0] == Run && RACE[1] == Client && RACE[2] == Parent && RACE[3] == Signal;
    ChosenExactly(RACE, done, log.racing, 0, RACERS, {});
    ChosenExactly(RACE, done, log.racing, 1, RACERS, {Run});
    ChosenExactly(RACE, done, log.racing, 2, RACERS, {Run, Client});
    ChosenExactly(RACE, done, log.racing, 3, RACERS, {Run, Client, Parent});
    WhenAnyExactly(RACE, done, log.racing, Window);
    hide WhenAny;
  }

  /** In the drain the window is asked for between the server's end and the parent. */
  lemma CutExactly(log: Log)
    ensures var done := log.before + log.racing;
      && (Cut(log) == Some(Run) <==> Chosen(done, log.draining, DRAINERS, {}, Run))
      && (Cut(log) == Some(Window) <==> Chosen(done, log.draining, DRAINERS, {Run}, Window))
      && (Cut(log) == Some(Parent) <==> Chosen(done, log.draining, DRAINERS, {Run, Window}, Parent))
      && (Cut(log) == Some(Signal) <==> Chosen(done, log.draining, DRAINERS, {Run, Window, Parent}, Signal))
      && Cut(log) != Some(Client)
  {
    var done := log.before + log.racing;
    assert DRAIN_RACE[0] == Run && DRAIN_RACE[1] == Window && DRAIN_RACE[2] == Parent && DRAIN_RACE[3] == Signal;
    ChosenExactly(DRAIN_RACE, done, log.draining, 0, DRAINERS, {});
    ChosenExactly(DRAIN_RACE, done, log.draining, 1, DRAINERS, {Run});
    ChosenExactly(DRAIN_RACE, done, log.draining, 2, DRAINERS, {Run, Window});
    ChosenExactly(DRAIN_RACE, done, log.draining, 3, DRAINERS, {Run, Window, Parent});
    WhenAnyExactly(DRAIN_RACE, done, log.draining, Client);
    hide WhenAny;
  }

  /** The signal won the race, or the race was won by an end-of-stream and the signal cut the drain. */
  predicate SignalWon(log: Log) {
    Winner(log) == Some(Signal) || (AtEnd(Winner(log)) && Cut(log) == Some(Signal))
  }

  predicate ParentWon(log: Log) {
    Winner(log) == Some(Parent) || (AtEnd(Winner(log)) && Cut(log) == Some(Parent))
  }

  lemma TheVerdictIsAnswered(start: State, actions: seq<Action>, t: Timings)
    requires Starts(start) && Plays(start, actions, t)
    ensures var s := After(start, actions, t); Ending(s) ==> Verdict(s.log, s.signal) == Some(s.phase.ending)
  {
    hide Winner, Cut, Listed, Serial, Windowed, Stopped, Punctual;
    ReachedIsSound(start, actions, t);
    hide Plays, After;
  }

  /** The code a shell gives a process that one of these signals ended. */
  function Code(signal: PosixSignal): nat {
    match signal
    case SIGHUP => 129
    case SIGINT => 130
    case SIGQUIT => 131
    case SIGTERM => 143
  }

  /**
   * What a run answers is settled by the order of completions alone, and is the signal's code exactly for the signal.
   */
  lemma EndingExactly(start: State, actions: seq<Action>, t: Timings)
    requires Starts(start) && Plays(start, actions, t)
    ensures var s := After(start, actions, t);
      Ending(s) ==>
        && (s.phase.ending == HostEnding(Code(s.signal), Signalled) <==> SignalWon(s.log))
        && (s.phase.ending == HostEnding(0, ParentGone) <==> ParentWon(s.log))
        && (s.phase.ending == HostEnding(0, ClientClosed) <==> !SignalWon(s.log) && !ParentWon(s.log))
  {
    hide Plays, After, Winner, Cut;
    TheVerdictIsAnswered(start, actions, t);
  }

  /** Without a drain nothing can cut it: an end-of-stream that wins the race is the ending. */
  lemma WithoutADrainNothingCuts(start: State, actions: seq<Action>, t: Timings)
    requires Starts(start) && Plays(start, actions, t) && t.drain == 0
    ensures var s := After(start, actions, t);
      Ending(s) && AtEnd(Winner(s.log)) ==> s.phase.ending == HostEnding(0, ClientClosed)
  {
    hide Plays, After, Winner, Cut, Listed, Serial, Windowed, Stopped, Punctual, Awaited;
    ReachedIsSound(start, actions, t);
  }

  /**
   * Once over, a run's own exception comes out exactly when it faulted, or was cancelled though the token never was;
   * otherwise the ending is returned. Neither happens before the run is over.
   */
  lemma ReturnExactly(start: State, actions: seq<Action>, t: Timings)
    requires Starts(start) && Plays(start, actions, t)
    ensures var s := After(start, actions, t);
      Ending(s) && !s.phase.Stopping? ==>
        && Run in s.doneAt
        && (s.phase.Threw? <==> s.how.Faulted? || (s.how.Cancelled? && s.cancelledAt.None?))
        && (s.phase.Returned? <==> s.how.Finished? || (s.how.Cancelled? && s.cancelledAt.Some?))
  {
    hide Recorded, Serial, Windowed, Stopped, Punctual, Plays, After;
    ReachedIsSound(start, actions, t);
  }

  lemma StepKeepsTheEnding(s: State, a: Action, t: Timings)
    requires Ending(s) && Enabled(s, a, t) && (forall e | e in s.forced :: e == s.phase.ending)
    ensures var s' := Apply(s, a, t);
      Ending(s') && s'.phase.ending == s.phase.ending && s'.cancelledAt == s.cancelledAt
      && forall e | e in s'.forced :: e == s.phase.ending
  {
  }

  /** Nothing that arrives after the ending is chosen changes it. */
  lemma {:induction false} EndingIsFinal(s: State, actions: seq<Action>, t: Timings)
    requires Ending(s) && Plays(s, actions, t) && (forall e | e in s.forced :: e == s.phase.ending)
    ensures var s' := After(s, actions, t);
      Ending(s') && s'.phase.ending == s.phase.ending && s'.cancelledAt == s.cancelledAt
      && forall e | e in s'.forced :: e == s.phase.ending
    decreases |actions|
  {
    if actions == [] {
    } else {
      StepKeepsTheEnding(s, actions[0], t);
      hide Apply, Enabled;
      EndingIsFinal(Apply(s, actions[0], t), actions[1..], t);
    }
  }
}
