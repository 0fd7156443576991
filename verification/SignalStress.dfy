/**
 * The signal stress program (harness/box86_mutex_signal_stress.c): WORKERS threads that increment a
 * plain counter under a mutex, ITERATIONS times each, while a coordinator keeps signalling them.
 *
 * The increment is a load and a store.  A handler may run between any two steps of a thread; it
 * touches only `handled`.  As in FirstUseBarrier, an action of a thread that cannot go on (it spins,
 * waits for the mutex, or has returned) leaves the state as it is.
 */
module SignalStress {
  import opened Tally

  const WORD: nat := 0x1_0000_0000

  datatype Config = Config(workers: nat, iterations: nat, signals: nat, exclusive: bool, errorFree: bool) {
    /** The signalled thread is workers[i % WORKERS]. */
    predicate Valid() {
      workers < WORD && iterations < WORD && signals < WORD && (signals > 0 ==> workers > 0)
    }

    function Sections(): nat {
      workers * iterations
    }
  }

  datatype Pc = Arrive | AwaitStart | Lock | LockError | Load | Store | Unlock | UnlockError

  /** `i` is the loop counter, `temp` the loaded value, `pending` an undelivered signal. */
  datatype Worker = Worker(pc: Pc, i: nat, temp: nat, pending: bool)

  datatype CoordPc = AwaitReady | Release | Kill | Join | Exit

  datatype State = State(workers: seq<Worker>, coord: CoordPc, sent: nat, ready: nat, start: nat,
                         count: nat, failures: nat, handled: nat, locked: bool)

  datatype Action = Coordinator(ok: bool) | Thread(id: nat, ok: bool) | Handler(id: nat)

  function Inc(x: nat): nat { (x + 1) % WORD }

  function Init(cfg: Config): State {
    State(seq(cfg.workers, i => Worker(Arrive, 0, 0, false)), AwaitReady, 0, 0, 0, 0, 0, 0, false)
  }

  function Put(s: State, i: nat, w: Worker): State
    requires i < |s.workers|
  {
    s.(workers := s.workers[i := w])
  }

  function WorkerStep(cfg: Config, s: State, i: nat, ok: bool): State
    requires i < |s.workers|
  {
    var w := s.workers[i];
    match w.pc
    case Arrive => Put(s, i, w.(pc := AwaitStart)).(ready := Inc(s.ready))
    case AwaitStart => if s.start == 1 then Put(s, i, w.(pc := Lock)) else s
    case Lock =>
      if w.i >= cfg.iterations then s  // the thread has returned
      else if !ok then (if cfg.errorFree then s else Put(s, i, w.(pc := LockError)))
      else if cfg.exclusive && s.locked then s
      else Put(s, i, w.(pc := Load)).(locked := true)
    case LockError => Put(s, i, w.(pc := Load)).(failures := Inc(s.failures))
    case Load => Put(s, i, w.(pc := Store, temp := s.count))
    case Store => Put(s, i, w.(pc := Unlock)).(count := Inc(w.temp))
    case Unlock =>
      if ok then Put(s, i, w.(pc := Lock, i := w.i + 1)).(locked := false)
      else if cfg.errorFree then s
      else Put(s, i, w.(pc := UnlockError))
    case UnlockError => Put(s, i, w.(pc := Lock, i := w.i + 1)).(failures := Inc(s.failures))
  }

  function CoordinatorStep(cfg: Config, s: State, ok: bool): State
    requires cfg.Valid() && |s.workers| == cfg.workers
  {
    match s.coord
    case AwaitReady => if s.ready == cfg.workers then s.(coord := Release) else s
    case Release => s.(coord := Kill, start := 1)
    case Kill =>
      if s.sent >= cfg.signals then s.(coord := Join)
      else if !ok then (if cfg.errorFree then s else s.(sent := s.sent + 1, failures := Inc(s.failures)))
      else
        var k := s.sent % cfg.workers;
        Put(s, k, s.workers[k].(pending := true)).(sent := s.sent + 1)
    case Join =>
      if forall i :: 0 <= i < |s.workers| ==> s.workers[i].pc == Lock && s.workers[i].i >= cfg.iterations
      then s.(coord := Exit) else s
    case Exit => s
  }

  function Step(cfg: Config, s: State, a: Action): State
    requires cfg.Valid() && |s.workers| == cfg.workers
  {
    match a
    case Coordinator(ok) => CoordinatorStep(cfg, s, ok)
    case Thread(i, ok) => if i < |s.workers| then WorkerStep(cfg, s, i, ok) else s
    case Handler(i) =>
      if i < |s.workers| && s.workers[i].pending
      then Put(s, i, s.workers[i].(pending := false)).(handled := Inc(s.handled))
      else s
  }

  /** What `run` returns. */
  function Status(cfg: Config, s: State): nat {
    if s.count != cfg.Sections() % WORD then 4
    else if s.handled == 0 || s.failures != 0 then 5
    else 0
  }

  datatype Run = Run(states: seq<State>, acts: seq<Action>) {
    function Last(): State
      requires states != []
    {
      states[|states| - 1]
    }
  }

  ghost predicate IsRun(cfg: Config, run: Run)
    requires cfg.Valid()
  {
    && |run.states| == |run.acts| + 1
    && run.states[0] == Init(cfg)
    && forall k :: 0 <= k < |run.acts| ==>
         |run.states[k].workers| == cfg.workers
         && run.states[k + 1] == Step(cfg, run.states[k], run.acts[k])
  }

  // ---------------------------------------------------------------- the counter

  /** The increments a worker has stored. */
  function Stores(w: Worker): nat {
    w.i + if w.pc == Unlock || w.pc == UnlockError then 1 else 0
  }

  predicate Holding(w: Worker) { w.pc == Store }

  /** A store, while another worker stands between its own load and store. */
  predicate Overtakes(s: State, a: Action) {
    && a.Thread? && a.id < |s.workers| && Holding(s.workers[a.id])
    && exists j :: 0 <= j < |s.workers| && j != a.id && Holding(s.workers[j])
  }

  predicate EverOvertaken(run: Run, n: nat)
    requires n <= |run.acts| < |run.states|
  {
    exists k :: 0 <= k < n && Overtakes(run.states[k], run.acts[k])
  }

  predicate InLoopBody(pc: Pc) { pc != Arrive && pc != AwaitStart && pc != Lock }

  predicate WithinBounds(cfg: Config, w: Worker) {
    w.i <= cfg.iterations && (InLoopBody(w.pc) ==> w.i < cfg.iterations)
  }

  predicate Bounded(cfg: Config, s: State) {
    && |s.workers| == cfg.workers
    && (forall i :: 0 <= i < |s.workers| ==> WithinBounds(cfg, s.workers[i]))
    && (s.coord == Exit ==> forall i :: 0 <= i < |s.workers| ==>
          s.workers[i].pc == Lock && s.workers[i].i == cfg.iterations)
  }

  /** As long as no store was overtaken, the counter and every loaded value are exact. */
  predicate Faithful(s: State) {
    && s.count == Sum(s.workers, Stores) % WORD
    && forall i :: 0 <= i < |s.workers| && Holding(s.workers[i]) ==> s.workers[i].temp == s.count
  }

  /** No loaded value, and not the counter, exceeds the stores made; all are below `total`. */
  predicate NeverAhead(s: State, total: nat) {
    && s.count <= total
    && forall i :: 0 <= i < |s.workers| && Holding(s.workers[i]) ==> s.workers[i].temp <= total
  }

  /** An update is lost, or is going to be: this never heals. */
  predicate Losing(s: State, total: nat) {
    || (exists j :: 0 <= j < |s.workers| && Holding(s.workers[j]) && s.workers[j].temp < total)
    || (&& s.count < total
        && forall i :: 0 <= i < |s.workers| && Holding(s.workers[i]) ==> s.workers[i].temp < total)
  }

  // What the steps do to the counter.

  predicate Moved(s: State, s': State, i: nat) {
    i < |s.workers| && |s'.workers| == |s.workers| && s'.workers == s.workers[i := s'.workers[i]]
  }

  predicate Loads(s: State, s': State, i: nat) {
    && Moved(s, s', i) && s'.count == s.count
    && !Holding(s.workers[i]) && Holding(s'.workers[i])
    && s'.workers[i].temp == s.count && Stores(s'.workers[i]) == Stores(s.workers[i])
  }

  predicate StoresBack(s: State, s': State, i: nat) {
    && Moved(s, s', i) && s'.count == Inc(s.workers[i].temp)
    && Holding(s.workers[i]) && !Holding(s'.workers[i])
    && Stores(s'.workers[i]) == Stores(s.workers[i]) + 1
  }

  predicate Idles(s: State, s': State, i: nat) {
    && Moved(s, s', i) && s'.count == s.count
    && Holding(s.workers[i]) == Holding(s'.workers[i]) && s.workers[i].temp == s'.workers[i].temp
    && Stores(s'.workers[i]) == Stores(s.workers[i])
  }

  /** What a step may do: nothing to the workers, or one of the three above to worker i. */
  predicate Kind(s: State, a: Action, s': State, i: nat) {
    || (s'.workers == s.workers && s'.count == s.count && (a.Thread? && a.id < |s.workers| ==> !Holding(s.workers[a.id])))
    || (Loads(s, s', i) && !Overtakes(s, a))
    || (Idles(s, s', i) && !Overtakes(s, a))
    || (StoresBack(s, s', i) && a.Thread? && a.id == i)
  }

  /** What the step does to worker i and to the counter, by where the worker stands. */
  predicate Effect(s: State, s': State, i: nat) {
    && Moved(s, s', i) && s'.coord == s.coord
    && (if s.workers[i].pc == Load then Loads(s, s', i)
        else if Holding(s.workers[i]) then StoresBack(s, s', i)
        else Idles(s, s', i))
  }

  lemma WorkerEffect(cfg: Config, s: State, i: nat, ok: bool)
    requires i < |s.workers| && WorkerStep(cfg, s, i, ok) != s
    ensures Effect(s, WorkerStep(cfg, s, i, ok), i)
  {
    WorkerMoves(cfg, s, i, ok);
    hide Moved;
  }

  lemma WorkerMoves(cfg: Config, s: State, i: nat, ok: bool)
    requires i < |s.workers|
    ensures Moved(s, WorkerStep(cfg, s, i, ok), i) && WorkerStep(cfg, s, i, ok).coord == s.coord
  {
    var w := WorkerStep(cfg, s, i, ok).workers[i];
    assert WorkerStep(cfg, s, i, ok).workers == s.workers[i := w];
  }

  lemma HolderMoves(cfg: Config, s: State, i: nat, ok: bool)
    requires i < |s.workers| && Holding(s.workers[i])
    ensures WorkerStep(cfg, s, i, ok) != s
  {
    assert WorkerStep(cfg, s, i, ok).workers[i].pc == Unlock;
  }

  lemma WorkerKinds(cfg: Config, s: State, i: nat, ok: bool)
    requires i < |s.workers|
    ensures Kind(s, Thread(i, ok), WorkerStep(cfg, s, i, ok), i)
  {
    if WorkerStep(cfg, s, i, ok) != s {
      WorkerEffect(cfg, s, i, ok);
    }
    if Holding(s.workers[i]) {
      HolderMoves(cfg, s, i, ok);
    }
    hide WorkerStep, Loads, Idles, StoresBack;
  }

  lemma WorkerStaysWithin(cfg: Config, s: State, i: nat, ok: bool)
    requires i < |s.workers| && WithinBounds(cfg, s.workers[i])
    ensures WithinBounds(cfg, WorkerStep(cfg, s, i, ok).workers[i])
    ensures s.workers[i].pc == Lock && s.workers[i].i == cfg.iterations ==> WorkerStep(cfg, s, i, ok) == s
  {
  }

  lemma WorkerKeepsBounded(cfg: Config, s: State, i: nat, ok: bool)
    requires Bounded(cfg, s) && i < |s.workers|
    ensures Bounded(cfg, WorkerStep(cfg, s, i, ok))
  {
    WorkerStaysWithin(cfg, s, i, ok);
    if WorkerStep(cfg, s, i, ok) != s {
      WorkerEffect(cfg, s, i, ok);
    }
    hide WorkerStep, Loads, Idles, StoresBack, InLoopBody;
  }

  lemma StepKinds(cfg: Config, s: State, a: Action) returns (i: nat)
    requires cfg.Valid() && Bounded(cfg, s)
    ensures Bounded(cfg, Step(cfg, s, a)) && Kind(s, a, Step(cfg, s, a), i)
  {
    match a
    case Coordinator(ok) =>
      i := if cfg.workers == 0 then 0 else s.sent % cfg.workers;
    case Thread(k, ok) =>
      i := k;
      if k < |s.workers| {
        WorkerKinds(cfg, s, k, ok);
        WorkerKeepsBounded(cfg, s, k, ok);
      }
    case Handler(k) =>
      i := k;
  }

  lemma KindsKeepFaithful(s: State, a: Action, s': State, i: nat)
    requires Faithful(s) && Kind(s, a, s', i) && !Overtakes(s, a)
    ensures Faithful(s')
  {
    if s'.workers != s.workers {
      SumUpdate(s.workers, i, s'.workers[i], Stores);
    }
  }

  /** `total` and `total'` are the stores made before and after. */
  lemma KindsKeepLosing(s: State, s': State, i: nat, total: nat, total': nat)
    requires NeverAhead(s, total) && total' < WORD
    requires ((Loads(s, s', i) || Idles(s, s', i)) && total' == total) || (StoresBack(s, s', i) && total' == total + 1)
    ensures NeverAhead(s', total')
    ensures Losing(s, total) ==> Losing(s', total')
    ensures StoresBack(s, s', i) && (exists j :: 0 <= j < |s.workers| && j != i && Holding(s.workers[j])) ==> Losing(s', total')
  {
    if Losing(s, total) && exists j :: 0 <= j < |s.workers| && j != i && Holding(s.workers[j]) && s.workers[j].temp < total {
      var j :| 0 <= j < |s.workers| && j != i && Holding(s.workers[j]) && s.workers[j].temp < total;
      assert Holding(s'.workers[j]) && s'.workers[j].temp < total';
    }
    if StoresBack(s, s', i) && exists j :: 0 <= j < |s.workers| && j != i && Holding(s.workers[j]) {
      var j :| 0 <= j < |s.workers| && j != i && Holding(s.workers[j]);
      assert Holding(s'.workers[j]) && s'.workers[j].temp < total';
    }
  }

  lemma {:induction false} Reachable(cfg: Config, run: Run, n: nat)
    requires cfg.Valid() && IsRun(cfg, run) && n <= |run.acts|
    ensures Bounded(cfg, run.states[n])
  {
    if n > 0 {
      Reachable(cfg, run, n - 1);
      var _ := StepKinds(cfg, run.states[n - 1], run.acts[n - 1]);
    }
  }

  lemma RunKind(cfg: Config, run: Run, k: nat) returns (i: nat)
    requires cfg.Valid() && IsRun(cfg, run) && k < |run.acts|
    ensures Kind(run.states[k], run.acts[k], run.states[k + 1], i)
  {
    Reachable(cfg, run, k);
    i := StepKinds(cfg, run.states[k], run.acts[k]);
  }

  lemma {:induction false} FaithfulUntilOvertaken(cfg: Config, run: Run, n: nat)
    requires cfg.Valid() && IsRun(cfg, run) && n <= |run.acts| && !EverOvertaken(run, n)
    ensures Faithful(run.states[n])
  {
    if n == 0 {
      SumUniform(Init(cfg).workers, 0, Stores);
    } else {
      assert !EverOvertaken(run, n - 1);
      FaithfulUntilOvertaken(cfg, run, n - 1);
      var i := RunKind(cfg, run, n - 1);
      KindsKeepFaithful(run.states[n - 1], run.acts[n - 1], run.states[n], i);
    }
  }

  lemma {:induction false} LosingOnceOvertaken(cfg: Config, run: Run, n: nat)
    requires cfg.Valid() && cfg.Sections() < WORD && IsRun(cfg, run) && n <= |run.acts|
    ensures NeverAhead(run.states[n], Sum(run.states[n].workers, Stores))
    ensures EverOvertaken(run, n) ==> Losing(run.states[n], Sum(run.states[n].workers, Stores))
  {
    hide Kind, Losing, NeverAhead, Overtakes, Step;
    if n == 0 {
      NothingStored(cfg);
    } else {
      LosingOnceOvertaken(cfg, run, n - 1);
      var i := RunKind(cfg, run, n - 1);
      StoresFit(cfg, run, n);
      KindsCarryLosing(run.states[n - 1], run.acts[n - 1], run.states[n], i);
      OvertakenMore(run, n);
    }
  }

  lemma NothingStored(cfg: Config)
    ensures Sum(Init(cfg).workers, Stores) == 0 && NeverAhead(Init(cfg), 0)
  {
    SumUniform(Init(cfg).workers, 0, Stores);
  }

  lemma OvertakenMore(run: Run, n: nat)
    requires 0 < n <= |run.acts| < |run.states|
    ensures EverOvertaken(run, n) <==> EverOvertaken(run, n - 1) || Overtakes(run.states[n - 1], run.acts[n - 1])
  {
  }

  lemma KindsCarryLosing(s: State, a: Action, s': State, i: nat)
    requires Kind(s, a, s', i) && NeverAhead(s, Sum(s.workers, Stores)) && Sum(s'.workers, Stores) < WORD
    ensures NeverAhead(s', Sum(s'.workers, Stores))
    ensures Losing(s, Sum(s.workers, Stores)) || Overtakes(s, a) ==> Losing(s', Sum(s'.workers, Stores))
  {
    if s'.workers != s.workers {
      SumUpdate(s.workers, i, s'.workers[i], Stores);
      KindsKeepLosing(s, s', i, Sum(s.workers, Stores), Sum(s'.workers, Stores));
    }
  }

  lemma StoresFit(cfg: Config, run: Run, n: nat)
    requires cfg.Valid() && IsRun(cfg, run) && n <= |run.acts|
    ensures Sum(run.states[n].workers, Stores) <= cfg.Sections()
    ensures run.states[n].coord.Exit? ==> Sum(run.states[n].workers, Stores) == cfg.Sections()
  {
    Reachable(cfg, run, n);
    SumAtMost(run.states[n].workers, cfg.iterations, Stores);
    if run.states[n].coord.Exit? {
      SumUniform(run.states[n].workers, cfg.iterations, Stores);
    }
  }

  /**
   * Exact detection, for a mutex that may admit anyone and fail any call: a finished run reports a
   * lost increment (status 4) if and only if some store was made while another worker stood between
   * its own load and store.  One lost update is never made up for by another.
   */
  lemma LostUpdateIsExact(cfg: Config, run: Run)
    requires cfg.Valid() && cfg.Sections() < WORD && IsRun(cfg, run) && run.Last().coord.Exit?
    ensures Status(cfg, run.Last()) == 4 <==> EverOvertaken(run, |run.acts|)
  {
    var n := |run.acts|;
    StoresFit(cfg, run, n);
    Reachable(cfg, run, n);
    LosingOnceOvertaken(cfg, run, n);
    if !EverOvertaken(run, n) {
      FaithfulUntilOvertaken(cfg, run, n);
    }
  }

  // ---------------------------------------------------------------- a mutex that excludes

  predicate Inside(w: Worker) { w.pc == Load || w.pc == Store || w.pc == Unlock }

  predicate Excluded(s: State) {
    && (forall i :: 0 <= i < |s.workers| ==> s.workers[i].pc != LockError && s.workers[i].pc != UnlockError)
    && (forall i, j :: 0 <= i < j < |s.workers| ==> !Inside(s.workers[i]) || !Inside(s.workers[j]))
    && (forall i :: 0 <= i < |s.workers| && Inside(s.workers[i]) ==> s.locked)
    && s.failures == 0
  }

  /** Worker i goes in only past an open lock, and only a worker going out opens it. */
  predicate Respects(s: State, s': State, i: nat) {
    && Moved(s, s', i) && s'.failures == s.failures
    && s'.workers[i].pc != LockError && s'.workers[i].pc != UnlockError
    && (Inside(s'.workers[i]) ==> s'.locked && (Inside(s.workers[i]) || !s.locked))
    && (s.locked && !s'.locked ==> Inside(s.workers[i]) && !Inside(s'.workers[i]))
  }

  lemma WorkerRespects(cfg: Config, s: State, i: nat, ok: bool)
    requires i < |s.workers| && cfg.exclusive && cfg.errorFree
    requires s.workers[i].pc != LockError && s.workers[i].pc != UnlockError
    requires Inside(s.workers[i]) ==> s.locked
    ensures Respects(s, WorkerStep(cfg, s, i, ok), i)
  {
  }

  lemma RespectKeepsExcluded(s: State, s': State, i: nat)
    requires Excluded(s) && Respects(s, s', i)
    ensures Excluded(s')
  {
  }

  lemma StepKeepsExcluded(cfg: Config, s: State, a: Action)
    requires cfg.Valid() && |s.workers| == cfg.workers && cfg.exclusive && cfg.errorFree && Excluded(s)
    ensures Excluded(Step(cfg, s, a))
  {
    if a.Thread? && a.id < |s.workers| {
      WorkerRespects(cfg, s, a.id, a.ok);
      RespectKeepsExcluded(s, WorkerStep(cfg, s, a.id, a.ok), a.id);
    } else if a.Handler? {
      HandlerKeepsExcluded(cfg, s, a);
    } else if a.Coordinator? {
      CoordinatorKeepsExcluded(cfg, s, a);
    }
  }

  lemma HandlerKeepsExcluded(cfg: Config, s: State, a: Action)
    requires cfg.Valid() && |s.workers| == cfg.workers && Excluded(s) && a.Handler?
    ensures Excluded(Step(cfg, s, a))
  {
  }

  lemma CoordinatorKeepsExcluded(cfg: Config, s: State, a: Action)
    requires cfg.Valid() && |s.workers| == cfg.workers && cfg.errorFree && Excluded(s) && a.Coordinator?
    ensures Excluded(Step(cfg, s, a))
  {
  }

  lemma {:induction false} AlwaysExcluded(cfg: Config, run: Run, n: nat)
    requires cfg.Valid() && IsRun(cfg, run) && cfg.exclusive && cfg.errorFree && n <= |run.acts|
    ensures Excluded(run.states[n])
  {
    if n > 0 {
      AlwaysExcluded(cfg, run, n - 1);
      StepKeepsExcluded(cfg, run.states[n - 1], run.acts[n - 1]);
    }
  }

  // ---------------------------------------------------------------- what was counted

  /** How often an event happens in the first n steps. */
  ghost function Occurrences(cfg: Config, run: Run, n: nat, event: (Config, State, Action) -> bool): nat
    requires n <= |run.acts| && |run.states| == |run.acts| + 1
  {
    if n == 0 then 0
    else Occurrences(cfg, run, n - 1, event) + if event(cfg, run.states[n - 1], run.acts[n - 1]) then 1 else 0
  }

  /** A handler runs: its thread has a signal to take. */
  predicate Handles(cfg: Config, s: State, a: Action) {
    a.Handler? && a.id < |s.workers| && s.workers[a.id].pending
  }

  /** A call of `pthread_kill`, whatever it returns. */
  predicate Kills(cfg: Config, s: State, a: Action) {
    a.Coordinator? && s.coord.Kill? && s.sent < cfg.signals && (a.ok || !cfg.errorFree)
  }

  /** One that gives a thread a signal it did not have yet. */
  predicate Raises(cfg: Config, s: State, a: Action) {
    && a.Coordinator? && s.coord.Kill? && s.sent < cfg.signals && a.ok
    && 0 < cfg.workers == |s.workers| && !s.workers[s.sent % cfg.workers].pending
  }

  predicate StoresCount(cfg: Config, s: State, a: Action) {
    a.Thread? && a.id < |s.workers| && s.workers[a.id].pc.Store?
  }

  /** A lock, an unlock or a kill that returns non-zero. */
  predicate CallFails(cfg: Config, s: State, a: Action) {
    && !cfg.errorFree && !a.Handler? && !a.ok
    && match a
       case Coordinator(_) => s.coord.Kill? && s.sent < cfg.signals
       case Thread(i, _) =>
         && i < |s.workers|
         && (s.workers[i].pc.Unlock? || (s.workers[i].pc.Lock? && s.workers[i].i < cfg.iterations))
  }

  function One(happens: bool): nat { if happens then 1 else 0 }

  /** A signal not yet taken, an error seen and not yet counted, and the mutex calls made. */
  function Undelivered(w: Worker): nat { One(w.pending) }

  function Uncounted(w: Worker): nat { One(w.pc.LockError? || w.pc.UnlockError?) }

  function MutexCalls(w: Worker): nat {
    2 * w.i + match w.pc
              case Arrive | AwaitStart | Lock => 0
              case UnlockError => 2
              case _ => 1
  }

  /** One worker's step, on what it stores and the signals it is given. */
  predicate WorkerBooks(cfg: Config, s: State, s': State, a: Action, w: Worker, w': Worker) {
    && Stores(w') == Stores(w) + One(StoresCount(cfg, s, a))
    && Undelivered(w') + One(Handles(cfg, s, a)) == Undelivered(w) + One(Raises(cfg, s, a))
  }

  /** And on the calls it makes. */
  predicate WorkerCalls(cfg: Config, s: State, s': State, a: Action, w: Worker, w': Worker) {
    MutexCalls(w') + s'.sent >= MutexCalls(w) + s.sent + One(CallFails(cfg, s, a))
  }

  predicate WorkerFailures(cfg: Config, s: State, s': State, a: Action, w: Worker, w': Worker) {
    && s'.failures < WORD
    && (s'.failures + Uncounted(w')) % WORD == (s.failures + Uncounted(w) + One(CallFails(cfg, s, a))) % WORD
  }

  predicate Counters(cfg: Config, s: State, s': State, a: Action) {
    && s'.handled == (if Handles(cfg, s, a) then Inc(s.handled) else s.handled)
    && s'.sent == s.sent + One(Kills(cfg, s, a))
  }

  /** The same for the totals. */
  predicate StepBooks(cfg: Config, s: State, s': State, a: Action) {
    && Sum(s'.workers, Stores) == Sum(s.workers, Stores) + One(StoresCount(cfg, s, a))
    && Sum(s'.workers, Undelivered) + One(Handles(cfg, s, a)) == Sum(s.workers, Undelivered) + One(Raises(cfg, s, a))
  }

  predicate StepCalls(cfg: Config, s: State, s': State, a: Action) {
    && s'.failures < WORD
    && (s'.failures + Sum(s'.workers, Uncounted)) % WORD
       == (s.failures + Sum(s.workers, Uncounted) + One(CallFails(cfg, s, a))) % WORD
    && Sum(s'.workers, MutexCalls) + s'.sent >= Sum(s.workers, MutexCalls) + s.sent + One(CallFails(cfg, s, a))
  }

  lemma WorkerIsBooked(cfg: Config, s: State, i: nat, ok: bool)
    requires i < |s.workers|
    ensures WorkerBooks(cfg, s, WorkerStep(cfg, s, i, ok), Thread(i, ok), s.workers[i], WorkerStep(cfg, s, i, ok).workers[i])
    ensures Counters(cfg, s, WorkerStep(cfg, s, i, ok), Thread(i, ok))
  {
  }

  lemma WorkerIsCalled(cfg: Config, s: State, i: nat, ok: bool)
    requires i < |s.workers|
    ensures WorkerCalls(cfg, s, WorkerStep(cfg, s, i, ok), Thread(i, ok), s.workers[i], WorkerStep(cfg, s, i, ok).workers[i])
  {
  }

  lemma WorkerIsFailed(cfg: Config, s: State, i: nat, ok: bool)
    requires i < |s.workers| && s.failures < WORD
    ensures WorkerFailures(cfg, s, WorkerStep(cfg, s, i, ok), Thread(i, ok), s.workers[i], WorkerStep(cfg, s, i, ok).workers[i])
  {
    var s' := WorkerStep(cfg, s, i, ok);
    var w, w' := s.workers[i], s'.workers[i];
    assert s'.failures == if Uncounted(w) == 1 then Inc(s.failures) else s.failures;
    assert Uncounted(w') == One(CallFails(cfg, s, Thread(i, ok)));
  }

  /** One worker changed: its numbers move the totals. */
  lemma LedgerAdds(cfg: Config, s: State, s': State, a: Action, i: nat)
    requires Moved(s, s', i) && WorkerBooks(cfg, s, s', a, s.workers[i], s'.workers[i])
    requires WorkerCalls(cfg, s, s', a, s.workers[i], s'.workers[i])
    requires WorkerFailures(cfg, s, s', a, s.workers[i], s'.workers[i])
    ensures StepBooks(cfg, s, s', a) && StepCalls(cfg, s, s', a)
  {
    hide Stores, Undelivered, Uncounted, MutexCalls, StoresCount, Handles, Raises, Kills, CallFails, One;
    SumUpdate(s.workers, i, s'.workers[i], Stores);
    SumUpdate(s.workers, i, s'.workers[i], Undelivered);
    SumUpdate(s.workers, i, s'.workers[i], Uncounted);
    SumUpdate(s.workers, i, s'.workers[i], MutexCalls);
    var u, u' := Uncounted(s.workers[i]), Uncounted(s'.workers[i]);
    AddMod(s'.failures + u', s.failures + u + One(CallFails(cfg, s, a)), Sum(s.workers, Uncounted) - u);
  }

  lemma ThreadLedger(cfg: Config, s: State, i: nat, ok: bool)
    requires cfg.Valid() && i < |s.workers| == cfg.workers && s.failures < WORD
    ensures var s' := Step(cfg, s, Thread(i, ok));
      StepBooks(cfg, s, s', Thread(i, ok)) && StepCalls(cfg, s, s', Thread(i, ok)) && Counters(cfg, s, s', Thread(i, ok))
  {
    assert Step(cfg, s, Thread(i, ok)) == WorkerStep(cfg, s, i, ok);
    hide Step, WorkerStep, StepBooks, StepCalls, Counters, WorkerBooks, WorkerCalls, WorkerFailures;
    WorkerMoves(cfg, s, i, ok);
    WorkerIsBooked(cfg, s, i, ok);
    WorkerIsCalled(cfg, s, i, ok);
    WorkerIsFailed(cfg, s, i, ok);
    LedgerAdds(cfg, s, WorkerStep(cfg, s, i, ok), Thread(i, ok), i);
  }

  lemma HandlerLedger(cfg: Config, s: State, i: nat)
    requires cfg.Valid() && i < |s.workers| == cfg.workers && s.workers[i].pending && s.failures < WORD
    ensures var s' := Step(cfg, s, Handler(i));
      StepBooks(cfg, s, s', Handler(i)) && StepCalls(cfg, s, s', Handler(i)) && Counters(cfg, s, s', Handler(i))
  {
    LedgerAdds(cfg, s, Step(cfg, s, Handler(i)), Handler(i), i);
  }

  lemma KillLedger(cfg: Config, s: State, ok: bool)
    requires cfg.Valid() && |s.workers| == cfg.workers && Kills(cfg, s, Coordinator(ok)) && s.failures < WORD
    ensures var s' := Step(cfg, s, Coordinator(ok));
      StepBooks(cfg, s, s', Coordinator(ok)) && StepCalls(cfg, s, s', Coordinator(ok)) && Counters(cfg, s, s', Coordinator(ok))
  {
    if ok {
      SignalLedger(cfg, s, s.sent % cfg.workers);
      hide StepBooks, StepCalls, WorkerStep;
    } else {
      FailedKillLedger(cfg, s);
      hide StepBooks, StepCalls, WorkerStep;
    }
  }

  lemma FailedKillLedger(cfg: Config, s: State)
    requires cfg.Valid() && |s.workers| == cfg.workers && Kills(cfg, s, Coordinator(false)) && s.failures < WORD
    ensures var s' := Step(cfg, s, Coordinator(false));
      StepBooks(cfg, s, s', Coordinator(false)) && StepCalls(cfg, s, s', Coordinator(false))
  {
    var s', a := Step(cfg, s, Coordinator(false)), Coordinator(false);
    assert s' == s.(sent := s.sent + 1, failures := Inc(s.failures)) && One(CallFails(cfg, s, a)) == 1;
    assert One(StoresCount(cfg, s, a)) == One(Handles(cfg, s, a)) == One(Raises(cfg, s, a)) == 0;
    hide Step, WorkerStep, CallFails, StoresCount, Handles, Raises, Stores, Undelivered, Uncounted, MutexCalls;
    AddMod(Inc(s.failures), s.failures + 1, Sum(s.workers, Uncounted));
  }

  lemma SignalLedger(cfg: Config, s: State, k: nat)
    requires cfg.Valid() && |s.workers| == cfg.workers && Kills(cfg, s, Coordinator(true)) && s.failures < WORD
    requires 0 < cfg.workers && k == s.sent % cfg.workers
    ensures var s' := Step(cfg, s, Coordinator(true));
      StepBooks(cfg, s, s', Coordinator(true)) && StepCalls(cfg, s, s', Coordinator(true))
  {
    var s', a := Step(cfg, s, Coordinator(true)), Coordinator(true);
    assert Moved(s, s', k) && WorkerBooks(cfg, s, s', a, s.workers[k], s'.workers[k]);
    assert WorkerCalls(cfg, s, s', a, s.workers[k], s'.workers[k]) && WorkerFailures(cfg, s, s', a, s.workers[k], s'.workers[k]);
    hide *;
    LedgerAdds(cfg, s, s', a, k);
  }

  lemma StepIsLedgered(cfg: Config, s: State, a: Action)
    requires cfg.Valid() && |s.workers| == cfg.workers && s.failures < WORD
    ensures var s' := Step(cfg, s, a);
      StepBooks(cfg, s, s', a) && StepCalls(cfg, s, s', a) && Counters(cfg, s, s', a)
  {
    match a
    case Thread(i, ok) => if i < |s.workers| { ThreadLedger(cfg, s, i, ok); }
    case Handler(i) => if Handles(cfg, s, a) { HandlerLedger(cfg, s, i); }
    case Coordinator(ok) => if Kills(cfg, s, a) { KillLedger(cfg, s, ok); }
  }

  /** Where the books of a run stand. */
  predicate Booked(s: State, stores: nat, raises: nat, handles: nat, kills: nat, fails: nat) {
    && stores == Sum(s.workers, Stores)
    && raises == handles + Sum(s.workers, Undelivered)
    && s.handled == handles % 0x1_0000_0000
    && s.sent == kills
    && s.failures < WORD && (s.failures + Sum(s.workers, Uncounted)) % 0x1_0000_0000 == fails % 0x1_0000_0000
    && fails <= Sum(s.workers, MutexCalls) + s.sent
  }

  lemma BooksGoOn(cfg: Config, s: State, s': State, a: Action, stores: nat, raises: nat, handles: nat, kills: nat, fails: nat)
    requires Booked(s, stores, raises, handles, kills, fails)
    requires StepBooks(cfg, s, s', a) && StepCalls(cfg, s, s', a) && Counters(cfg, s, s', a)
    ensures s'.failures < WORD
    ensures Booked(s', stores + One(StoresCount(cfg, s, a)), raises + One(Raises(cfg, s, a)), handles + One(Handles(cfg, s, a)),
                   kills + One(Kills(cfg, s, a)), fails + One(CallFails(cfg, s, a)))
  {
    hide Stores, Undelivered, Uncounted, MutexCalls, StoresCount, Handles, Raises, Kills, CallFails;
    AddMod(s.failures + Sum(s.workers, Uncounted), fails, One(CallFails(cfg, s, a)));
    AddMod(handles % WORD, handles, 1);
  }

  lemma AddMod(x: int, y: int, d: int)
    requires x % WORD == y % WORD
    ensures (x + d) % WORD == (y + d) % WORD
  {
  }

  /**
   * The ledger of a run, whatever the mutex does.  The signals given are those taken and those still
   * waiting; `handled` counts the handlers that ran and `failures` the calls that failed, less those
   * seen but not yet counted, both modulo the word.
   */
  lemma {:induction false} Ledger(cfg: Config, run: Run, n: nat)
    requires cfg.Valid() && IsRun(cfg, run) && n <= |run.acts|
    ensures Booked(run.states[n], Occurrences(cfg, run, n, StoresCount), Occurrences(cfg, run, n, Raises),
                   Occurrences(cfg, run, n, Handles), Occurrences(cfg, run, n, Kills), Occurrences(cfg, run, n, CallFails))
    ensures run.states[n].failures < WORD
  {
    hide Step, Init, Booked, StepBooks, StepCalls, Counters, StoresCount, Handles, Raises, Kills, CallFails;
    if n == 0 {
      NothingYet(cfg);
    } else {
      var s, a := run.states[n - 1], run.acts[n - 1];
      Ledger(cfg, run, n - 1);
      NextState(cfg, run, n - 1);
      StepIsLedgered(cfg, s, a);
      BooksGoOn(cfg, s, run.states[n], a, Occurrences(cfg, run, n - 1, StoresCount),
                Occurrences(cfg, run, n - 1, Raises), Occurrences(cfg, run, n - 1, Handles),
                Occurrences(cfg, run, n - 1, Kills), Occurrences(cfg, run, n - 1, CallFails));
    }
  }

  lemma NextState(cfg: Config, run: Run, k: nat)
    requires cfg.Valid() && IsRun(cfg, run) && k < |run.acts|
    ensures |run.states[k].workers| == cfg.workers && run.states[k + 1] == Step(cfg, run.states[k], run.acts[k])
  {
  }

  lemma NothingYet(cfg: Config)
    ensures Booked(Init(cfg), 0, 0, 0, 0, 0) && Init(cfg).failures < WORD
  {
    var ws := Init(cfg).workers;
    SumUniform(ws, 0, Stores);
    SumUniform(ws, 0, Undelivered);
    SumUniform(ws, 0, Uncounted);
    SumUniform(ws, 0, MutexCalls);
  }

  // ---------------------------------------------------------------- the verdict

  lemma {:induction false} NeverOccurs(cfg: Config, run: Run, n: nat, event: (Config, State, Action) -> bool)
    requires n <= |run.acts| && |run.states| == |run.acts| + 1
    ensures Occurrences(cfg, run, n, event) == 0 <==> forall k :: 0 <= k < n ==> !event(cfg, run.states[k], run.acts[k])
  {
    if n > 0 {
      NeverOccurs(cfg, run, n - 1, event);
    }
  }

  lemma {:induction false} RaisesAreKills(cfg: Config, run: Run, n: nat)
    requires n <= |run.acts| && |run.states| == |run.acts| + 1
    ensures Occurrences(cfg, run, n, Raises) <= Occurrences(cfg, run, n, Kills)
  {
    if n > 0 {
      RaisesAreKills(cfg, run, n - 1);
    }
  }

  /** The loop over the signals makes them all. */
  predicate Sending(cfg: Config, s: State) {
    s.sent <= cfg.signals && (s.coord.Join? || s.coord.Exit? ==> s.sent == cfg.signals)
  }

  lemma StepKeepsSending(cfg: Config, s: State, a: Action)
    requires cfg.Valid() && |s.workers| == cfg.workers && Sending(cfg, s)
    ensures Sending(cfg, Step(cfg, s, a))
  {
    if a.Thread? && a.id < |s.workers| {
      ThreadSendsNothing(cfg, s, a.id, a.ok);
      hide WorkerStep;
    }
  }

  lemma ThreadSendsNothing(cfg: Config, s: State, i: nat, ok: bool)
    requires i < |s.workers|
    ensures WorkerStep(cfg, s, i, ok).sent == s.sent && WorkerStep(cfg, s, i, ok).coord == s.coord
  {
  }

  lemma {:induction false} AlwaysSending(cfg: Config, run: Run, n: nat)
    requires cfg.Valid() && IsRun(cfg, run) && n <= |run.acts|
    ensures Sending(cfg, run.states[n])
  {
    hide Step, Sending;
    if n > 0 {
      AlwaysSending(cfg, run, n - 1);
      StepKeepsSending(cfg, run.states[n - 1], run.acts[n - 1]);
    } else {
      InitSends(cfg);
    }
  }

  lemma InitSends(cfg: Config)
    ensures Sending(cfg, Init(cfg))
  {
  }

  /** A finished run has made every kill, joined every worker and counted every failure it saw. */
  lemma AtTheEnd(cfg: Config, run: Run)
    requires cfg.Valid() && IsRun(cfg, run) && run.Last().coord.Exit?
    ensures var n := |run.acts|;
      && Occurrences(cfg, run, n, Kills) == cfg.signals
      && Occurrences(cfg, run, n, StoresCount) == cfg.workers * cfg.iterations
      && run.Last().handled == Occurrences(cfg, run, n, Handles) <= cfg.signals
      && run.Last().failures == Occurrences(cfg, run, n, CallFails) % 0x1_0000_0000
      && Occurrences(cfg, run, n, CallFails) <= 2 * (cfg.workers * cfg.iterations) + cfg.signals
  {
    var n, last := |run.acts|, run.Last();
    Ledger(cfg, run, n);
    AlwaysSending(cfg, run, n);
    RaisesAreKills(cfg, run, n);
    Reachable(cfg, run, n);
    hide Kills, StoresCount, Handles, CallFails, Raises, Booked, Sending, Bounded, Occurrences;
    BooksClose(cfg, last, Occurrences(cfg, run, n, StoresCount), Occurrences(cfg, run, n, Raises),
               Occurrences(cfg, run, n, Handles), Occurrences(cfg, run, n, Kills), Occurrences(cfg, run, n, CallFails));
  }

  lemma BooksClose(cfg: Config, s: State, stores: nat, raises: nat, handles: nat, kills: nat, fails: nat)
    requires cfg.Valid() && Bounded(cfg, s) && Sending(cfg, s) && s.coord.Exit?
    requires Booked(s, stores, raises, handles, kills, fails) && raises <= kills
    ensures kills == cfg.signals && stores == cfg.workers * cfg.iterations && s.handled == handles <= cfg.signals
    ensures s.failures == fails % 0x1_0000_0000 && fails <= 2 * (cfg.workers * cfg.iterations) + cfg.signals
  {
    FinalSums(cfg, s);
    hide Stores, Uncounted, MutexCalls, Undelivered, Bounded;
  }

  lemma FinalSums(cfg: Config, s: State)
    requires Bounded(cfg, s) && s.coord.Exit?
    ensures Sum(s.workers, Stores) == cfg.workers * cfg.iterations
    ensures Sum(s.workers, Uncounted) == 0 && Sum(s.workers, MutexCalls) == 2 * (cfg.workers * cfg.iterations)
  {
    SumUniform(s.workers, cfg.iterations, Stores);
    SumUniform(s.workers, 0, Uncounted);
    SumUniform(s.workers, 2 * cfg.iterations, MutexCalls);
    Twice(cfg.workers, cfg.iterations);
  }

  lemma Twice(x: nat, y: nat)
    ensures x * (2 * y) == 2 * (x * y)
  {
  }

  ghost predicate Happens(cfg: Config, run: Run, event: (Config, State, Action) -> bool)
    requires |run.states| == |run.acts| + 1
  {
    exists k :: 0 <= k < |run.acts| && event(cfg, run.states[k], run.acts[k])
  }

  lemma HappensIff(cfg: Config, run: Run, event: (Config, State, Action) -> bool)
    requires |run.states| == |run.acts| + 1
    ensures Occurrences(cfg, run, |run.acts|, event) > 0 <==> Happens(cfg, run, event)
  {
    NeverOccurs(cfg, run, |run.acts|, event);
  }

  /** The second test, for any mutex and a run of any length. */
  lemma SecondTestModuloWord(cfg: Config, run: Run)
    requires cfg.Valid() && IsRun(cfg, run) && run.Last().coord.Exit?
    ensures var wrong := run.Last().count != cfg.workers * cfg.iterations % 0x1_0000_0000;
      var failed := Occurrences(cfg, run, |run.acts|, CallFails) % 0x1_0000_0000 != 0;
      Status(cfg, run.Last()) == if wrong then 4 else if !Happens(cfg, run, Handles) || failed then 5 else 0
  {
    AtTheEnd(cfg, run);
    HappensIff(cfg, run, Handles);
    hide IsRun, Handles, CallFails, Happens;
  }

  /**
   * The whole verdict, as long as the failures cannot wrap: 4 if a store was made in another worker's
   * window, otherwise 5 if no handler ran or some call failed, otherwise 0.
   */
  lemma VerdictIsExact(cfg: Config, run: Run)
    requires cfg.Valid() && 2 * cfg.Sections() + cfg.signals < 0x1_0000_0000 && IsRun(cfg, run) && run.Last().coord.Exit?
    ensures Status(cfg, run.Last())
         == if EverOvertaken(run, |run.acts|) then 4
            else if !Happens(cfg, run, Handles) || Happens(cfg, run, CallFails) then 5 else 0
  {
    AtTheEnd(cfg, run);
    LostUpdateIsExact(cfg, run);
    HappensIff(cfg, run, Handles);
    HappensIff(cfg, run, CallFails);
    hide IsRun, Handles, CallFails, Happens;
  }

  /**
   * A mutex that excludes and never fails loses nothing, wherever the handlers run: at every moment
   * the counter is the number of stores made, modulo the word; and a finished run passes exactly when
   * some handler ran.
   */
  lemma NoLostUpdate(cfg: Config, run: Run, n: nat)
    requires cfg.Valid() && IsRun(cfg, run) && cfg.exclusive && cfg.errorFree && n <= |run.acts|
    ensures run.states[n].count == Sum(run.states[n].workers, Stores) % 0x1_0000_0000
    ensures run.states[n].count == Occurrences(cfg, run, n, StoresCount) % 0x1_0000_0000
    ensures n == |run.acts| && run.Last().coord.Exit? ==>
              Status(cfg, run.Last()) == if Happens(cfg, run, Handles) then 0 else 5
  {
    CountsStores(cfg, run, n);
    hide *;
    if n == |run.acts| && run.Last().coord.Exit? {
      PassesIfHandled(cfg, run);
    }
  }

  lemma NothingOvertaken(cfg: Config, run: Run, n: nat)
    requires cfg.Valid() && IsRun(cfg, run) && cfg.exclusive && cfg.errorFree && n <= |run.acts|
    ensures !EverOvertaken(run, n)
  {
    forall k | 0 <= k < n ensures !Overtakes(run.states[k], run.acts[k]) {
      AlwaysExcluded(cfg, run, k);
      hide IsRun;
    }
    hide Overtakes;
  }

  lemma CountsStores(cfg: Config, run: Run, n: nat)
    requires cfg.Valid() && IsRun(cfg, run) && cfg.exclusive && cfg.errorFree && n <= |run.acts|
    ensures run.states[n].count == Sum(run.states[n].workers, Stores) % 0x1_0000_0000
    ensures run.states[n].count == Occurrences(cfg, run, n, StoresCount) % 0x1_0000_0000
  {
    NothingOvertaken(cfg, run, n);
    FaithfulUntilOvertaken(cfg, run, n);
    Ledger(cfg, run, n);
    hide IsRun, Handles, CallFails, Stores, Undelivered, Uncounted, MutexCalls, StoresCount, Raises, Kills, EverOvertaken;
  }

  lemma FinalCount(cfg: Config, run: Run)
    requires cfg.Valid() && IsRun(cfg, run) && cfg.exclusive && cfg.errorFree && run.Last().coord.Exit?
    ensures run.Last().count == cfg.workers * cfg.iterations % 0x1_0000_0000
  {
    assert run.Last() == run.states[|run.acts|];
    hide Init, Step, Occurrences, Stores, Handles, StoresCount, Kills, CallFails;
    CountsStores(cfg, run, |run.acts|);
    AtTheEnd(cfg, run);
  }

  lemma PassesIfHandled(cfg: Config, run: Run)
    requires cfg.Valid() && IsRun(cfg, run) && cfg.exclusive && cfg.errorFree && run.Last().coord.Exit?
    ensures Status(cfg, run.Last()) == if Happens(cfg, run, Handles) then 0 else 5
  {
    FinalCount(cfg, run);
    hide *;
    NothingFails(cfg, run);
    NeverOccurs(cfg, run, |run.acts|, CallFails);
    SecondTestModuloWord(cfg, run);
  }

  lemma NothingFails(cfg: Config, run: Run)
    requires cfg.errorFree && |run.states| == |run.acts| + 1
    ensures forall k :: 0 <= k < |run.acts| ==> !CallFails(cfg, run.states[k], run.acts[k])
  {
  }
}
