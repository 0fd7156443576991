/**
 * The mutex first-use stress program (harness/box86_mutex_first_use_stress.c): WORKERS threads and
 * a coordinator that meet in every round through seven shared 32-bit counters.
 *
 * A schedule is any sequence of actions.  An action names the thread that runs next and, where that
 * thread is calling the mutex, whether the call would return zero.  A thread that is spinning, or
 * waiting for a mutex, leaves the state as it is, so every sequence is a legal schedule.
 */
module FirstUseBarrier {
  import opened Tally

  const WORD: nat := 0x1_0000_0000

  /** `exclusive`: a held mutex is not granted again.  `errorFree`: its calls never fail. */
  datatype Config = Config(workers: nat, rounds: nat, exclusive: bool, errorFree: bool) {
    /** What the 32-bit counters of the program can hold. */
    predicate Valid() {
      workers < WORD && rounds < WORD - 1
    }

    /** How many critical sections a complete run has. */
    function Sections(): nat {
      workers * rounds
    }
  }

  /** Where a worker stands inside one round. */
  datatype Pc = AwaitRound | Ready | AwaitStart | Lock | LockError | Enter | Overlap | Leave
              | Unlock | UnlockError | Done | AwaitClear | Depart

  datatype Worker = Worker(pc: Pc, round: nat)

  datatype CoordPc = ResetReady | ResetDone | ResetDeparted | Publish | AwaitReady | Start
                   | AwaitDone | Clear | AwaitDeparted | Join | Exit

  datatype State = State(
    workers: seq<Worker>, coord: CoordPc, round: nat,
    roundId: nat, ready: nat, startId: nat, done: nat, departed: nat,
    inside: nat, overlaps: nat, failures: nat,
    locked: set<nat>)  // the rounds whose mutex is held

  datatype Action = Coordinator | Thread(id: nat, ok: bool)

  function Inc(x: nat): nat { (x + 1) % WORD }

  function Dec(x: nat): nat { (x + WORD - 1) % WORD }

  function Init(cfg: Config): State {
    State(seq(cfg.workers, i => Worker(AwaitRound, 1)), if cfg.rounds == 0 then Join else ResetReady, 1,
          0, 0, 0, 0, 0, 0, 0, 0, {})
  }

  function Move(s: State, i: nat, pc: Pc): State
    requires i < |s.workers|
  {
    s.(workers := s.workers[i := s.workers[i].(pc := pc)])
  }

  function WorkerStep(cfg: Config, s: State, i: nat, ok: bool): State
    requires i < |s.workers|
  {
    var w := s.workers[i];
    if w.round > cfg.rounds then s  // the thread has returned
    else match w.pc
      case AwaitRound => if s.roundId == w.round then Move(s, i, Ready) else s
      case Ready => Move(s, i, AwaitStart).(ready := Inc(s.ready))
      case AwaitStart => if s.startId == w.round then Move(s, i, Lock) else s
      case Lock =>
        if !ok then (if cfg.errorFree then s else Move(s, i, LockError))
        else if cfg.exclusive && w.round in s.locked then s
        else Move(s, i, Enter).(locked := s.locked + {w.round})
      case LockError => Move(s, i, Enter).(failures := Inc(s.failures))
      case Enter =>
        var n := Inc(s.inside);
        Move(s, i, if n != 1 then Overlap else Leave).(inside := n)
      case Overlap => Move(s, i, Leave).(overlaps := Inc(s.overlaps))
      case Leave => Move(s, i, Unlock).(inside := Dec(s.inside))
      case Unlock =>
        if ok then Move(s, i, Done).(locked := s.locked - {w.round})
        else if cfg.errorFree then s
        else Move(s, i, UnlockError)
      case UnlockError => Move(s, i, Done).(failures := Inc(s.failures))
      case Done => Move(s, i, AwaitClear).(done := Inc(s.done))
      case AwaitClear => if s.roundId == 0 then Move(s, i, Depart) else s
      case Depart =>
        s.(workers := s.workers[i := Worker(AwaitRound, w.round + 1)], departed := Inc(s.departed))
  }

  function CoordinatorStep(cfg: Config, s: State): State {
    match s.coord
    case ResetReady => s.(coord := ResetDone, ready := 0)
    case ResetDone => s.(coord := ResetDeparted, done := 0)
    case ResetDeparted => s.(coord := Publish, departed := 0)
    case Publish => s.(coord := AwaitReady, roundId := s.round)
    case AwaitReady => if s.ready == cfg.workers then s.(coord := Start) else s
    case Start => s.(coord := AwaitDone, startId := s.round)
    case AwaitDone => if s.done == cfg.workers then s.(coord := Clear) else s
    case Clear => s.(coord := AwaitDeparted, roundId := 0)
    case AwaitDeparted =>
      if s.departed != cfg.workers then s
      else s.(coord := if s.round < cfg.rounds then ResetReady else Join, round := s.round + 1)
    case Join =>
      if forall i :: 0 <= i < |s.workers| ==> s.workers[i].round > cfg.rounds then s.(coord := Exit) else s
    case Exit => s
  }

  function Step(cfg: Config, s: State, a: Action): State {
    match a
    case Coordinator => CoordinatorStep(cfg, s)
    case Thread(i, ok) => if i < |s.workers| then WorkerStep(cfg, s, i, ok) else s
  }

  /** A run: the states it goes through, and the schedule of the actions between them. */
  datatype Run = Run(states: seq<State>, acts: seq<Action>) {
    function Last(): State
      requires states != []
    {
      states[|states| - 1]
    }
  }

  ghost predicate IsRun(cfg: Config, run: Run) {
    && |run.states| == |run.acts| + 1
    && run.states[0] == Init(cfg)
    && forall k :: 0 <= k < |run.acts| ==> run.states[k + 1] == Step(cfg, run.states[k], run.acts[k])
  }

  /** What `run` returns once the workers are joined: true is the failing status 1. */
  predicate Failed(s: State) {
    s.overlaps != 0 || s.inside != 0 || s.failures != 0
  }

  // ---------------------------------------------------------------- positions

  function PcIndex(pc: Pc): nat {
    match pc
    case AwaitRound => 0 case Ready => 1 case AwaitStart => 2 case Lock => 3 case LockError => 4
    case Enter => 5 case Overlap => 6 case Leave => 7 case Unlock => 8 case UnlockError => 9
    case Done => 10 case AwaitClear => 11 case Depart => 12
  }

  function Rank(w: Worker): nat { 13 * w.round + PcIndex(w.pc) }

  predicate Crosses(w: Worker, w': Worker, mark: Worker) { Rank(w) < Rank(mark) <= Rank(w') }

  /** The workers that have come at least as far as `mark`. */
  function Past(ws: seq<Worker>, mark: Worker): set<nat> {
    set i: nat | i < |ws| && Rank(ws[i]) >= Rank(mark)
  }

  /** The workers between the increment and the decrement of `inside`. */
  function Inside(ws: seq<Worker>): set<nat> {
    set i: nat | i < |ws| && (ws[i].pc == Overlap || ws[i].pc == Leave)
  }

  /** The workers between a granted lock and their unlock. */
  function Section(ws: seq<Worker>): set<nat> {
    set i: nat | i < |ws| && PcIndex(Enter) <= PcIndex(ws[i].pc) <= PcIndex(Unlock)
  }

  lemma PastUpdate(ws: seq<Worker>, i: nat, w: Worker, mark: Worker)
    requires i < |ws|
    requires Rank(w) >= Rank(ws[i])
    ensures |Past(ws[i := w], mark)|
         == |Past(ws, mark)| + if Crosses(ws[i], w, mark) then 1 else 0
  {
    assert Past(ws[i := w], mark)
        == if Crosses(ws[i], w, mark) then Past(ws, mark) + {i} else Past(ws, mark);
  }

  // ---------------------------------------------------------------- the barrier invariant

  predicate InLoop(c: CoordPc) { c != Join && c != Exit }

  /** The part of round `round` a worker may be in, for each place of the coordinator. */
  predicate InPhase(coord: CoordPc, round: nat, w: Worker) {
    match coord
    case AwaitReady => w.round == round && PcIndex(w.pc) <= PcIndex(AwaitStart)
    case Start => w == Worker(AwaitStart, round)
    case AwaitDone => w.round == round && PcIndex(AwaitStart) <= PcIndex(w.pc) <= PcIndex(AwaitClear)
    case Clear => w == Worker(AwaitClear, round)
    case AwaitDeparted =>
      (w.round == round && PcIndex(AwaitClear) <= PcIndex(w.pc)) || w == Worker(AwaitRound, round + 1)
    case _ => w == Worker(AwaitRound, round)
  }

  predicate Signals(s: State) {
    && s.roundId == (if s.coord.AwaitReady? || s.coord.Start? || s.coord.AwaitDone? || s.coord.Clear?
                     then s.round else 0)
    && s.startId == (if s.coord.AwaitDone? || s.coord.Clear? || s.coord.AwaitDeparted?
                     then s.round else s.round - 1)
  }

  /** Each counter, from its reset on, counts the workers past its point of the current round. */
  predicate Counters(s: State) {
    && (InLoop(s.coord) && !s.coord.ResetReady? ==>
          s.ready == |Past(s.workers, Worker(AwaitStart, s.round))|)
    && (InLoop(s.coord) && !s.coord.ResetReady? && !s.coord.ResetDone? ==>
          s.done == |Past(s.workers, Worker(AwaitClear, s.round))|)
    && (InLoop(s.coord) && !s.coord.ResetReady? && !s.coord.ResetDone? && !s.coord.ResetDeparted? ==>
          s.departed == |Past(s.workers, Worker(AwaitRound, s.round + 1))|)
    && s.inside == |Inside(s.workers)|
  }

  predicate Shape(cfg: Config, s: State) {
    && |s.workers| == cfg.workers
    && 1 <= s.round
    && (if InLoop(s.coord) then s.round <= cfg.rounds else s.round == cfg.rounds + 1)
    && (forall i :: 0 <= i < |s.workers| ==> InPhase(s.coord, s.round, s.workers[i]))
    && Signals(s)
  }

  predicate Inv(cfg: Config, s: State) {
    Shape(cfg, s) && Counters(s)
  }

  /** For a mutex that excludes and never fails: it is held exactly while one worker is in. */
  predicate Excluded(s: State) {
    && |Section(s.workers)| <= 1
    && s.locked == (if Section(s.workers) == {} then {} else {s.round})
    && forall i :: 0 <= i < |s.workers| ==> !s.workers[i].pc.LockError? && !s.workers[i].pc.UnlockError?
  }

  lemma InitInv(cfg: Config)
    requires cfg.Valid()
    ensures Inv(cfg, Init(cfg)) && Excluded(Init(cfg))
  {
    var s := Init(cfg);
    assert Inside(s.workers) == {} && Section(s.workers) == {};
  }

  lemma CountsFit(cfg: Config, ws: seq<Worker>, mark: Worker)
    requires |ws| == cfg.workers
    ensures |Past(ws, mark)| <= cfg.workers
    ensures |Inside(ws)| <= cfg.workers
  {
    FullSet(Past(ws, mark), cfg.workers);
    FullSet(Inside(ws), cfg.workers);
  }

  lemma InsideUpdate(ws: seq<Worker>, i: nat, w: Worker)
    requires i < |ws|
    ensures Inside(ws[i := w])
         == if w.pc == Overlap || w.pc == Leave then Inside(ws) + {i} else Inside(ws) - {i}
  {
  }

  lemma SectionUpdate(ws: seq<Worker>, i: nat, w: Worker)
    requires i < |ws|
    ensures Section(ws[i := w])
         == if PcIndex(Enter) <= PcIndex(w.pc) <= PcIndex(Unlock) then Section(ws) + {i} else Section(ws) - {i}
  {
  }

  predicate Leaves(w: Worker, w': Worker, mark: Pc) {
    PcIndex(w.pc) <= PcIndex(mark) < PcIndex(w'.pc)
  }

  /** The order of the lines of one round. */
  predicate Follows(w: Worker, w': Worker) {
    if w.pc.Depart? then w' == Worker(AwaitRound, w.round + 1)
    else
      && w'.round == w.round
      && PcIndex(w.pc) < PcIndex(w'.pc)
      && (Leaves(w, w', Ready) <==> w.pc.Ready?)
      && (Leaves(w, w', Lock) <==> w.pc.Lock?)
      && (Leaves(w, w', Enter) <==> w.pc.Enter?)
      && (Leaves(w, w', Unlock) <==> w.pc.Unlock?)
      && (Leaves(w, w', Done) <==> w.pc.Done?)
  }

  lemma WorkerFollows(cfg: Config, s: State, i: nat, ok: bool)
    requires i < |s.workers| && WorkerStep(cfg, s, i, ok) != s
    ensures Follows(s.workers[i], WorkerStep(cfg, s, i, ok).workers[i])
    ensures s.workers[i].round <= cfg.rounds
  {
  }

  /** Following the lines of a round passes each mark at its own increment. */
  lemma FollowsCrosses(w: Worker, w': Worker, round: nat)
    requires Follows(w, w') && (w.round == round || w == Worker(AwaitRound, round + 1))
    requires w.pc.Depart? || (w.round == round && w'.round == round)
    ensures Rank(w) < Rank(w')
    ensures Crosses(w, w', Worker(AwaitStart, round)) <==> w.pc == Ready
    ensures Crosses(w, w', Worker(AwaitClear, round)) <==> w.pc == Done
    ensures Crosses(w, w', Worker(AwaitRound, round + 1)) <==> w.pc == Depart
  {
  }

  lemma OneInPhase(cfg: Config, s: State, i: nat, ok: bool)
    requires i < |s.workers| && InPhase(s.coord, s.round, s.workers[i]) && Signals(s)
    requires 1 <= s.round && if InLoop(s.coord) then s.round <= cfg.rounds else s.round == cfg.rounds + 1
    requires WorkerStep(cfg, s, i, ok) != s
    ensures InPhase(s.coord, s.round, WorkerStep(cfg, s, i, ok).workers[i])
    ensures InLoop(s.coord) && s.workers[i].round == s.round
  {
  }

  lemma WorkerInPhase(cfg: Config, s: State, i: nat, ok: bool)
    requires Shape(cfg, s) && i < |s.workers|
    requires WorkerStep(cfg, s, i, ok) != s
    ensures InPhase(s.coord, s.round, WorkerStep(cfg, s, i, ok).workers[i])
    ensures InLoop(s.coord) && s.workers[i].round == s.round
  {
    hide WorkerStep, InPhase, Signals;
    OneInPhase(cfg, s, i, ok);
  }

  /** A worker's step goes forward, stays in the phase, and passes each mark at its own increment. */
  lemma WorkerAdvances(cfg: Config, s: State, i: nat, ok: bool)
    requires Shape(cfg, s) && i < |s.workers|
    requires WorkerStep(cfg, s, i, ok) != s
    ensures var w, w' := s.workers[i], WorkerStep(cfg, s, i, ok).workers[i];
            && WorkerStep(cfg, s, i, ok).workers == s.workers[i := w']
            && Rank(w) < Rank(w')
            && InPhase(s.coord, s.round, w')
            && InLoop(s.coord)
            && (Crosses(w, w', Worker(AwaitStart, s.round)) <==> w.pc == Ready)
            && (Crosses(w, w', Worker(AwaitClear, s.round)) <==> w.pc == Done)
            && (Crosses(w, w', Worker(AwaitRound, s.round + 1)) <==> w.pc == Depart)
  {
    WorkerFollows(cfg, s, i, ok);
    WorkerInPhase(cfg, s, i, ok);
    FollowsCrosses(s.workers[i], WorkerStep(cfg, s, i, ok).workers[i], s.round);
  }

  lemma WorkerKeepsShape(cfg: Config, s: State, i: nat, ok: bool)
    requires Shape(cfg, s) && i < |s.workers|
    ensures Shape(cfg, WorkerStep(cfg, s, i, ok))
  {
    if WorkerStep(cfg, s, i, ok) != s {
      WorkerAdvances(cfg, s, i, ok);
    }
  }

  /** Only worker `i` may differ. */
  predicate Moved(s: State, s': State, i: nat) {
    i < |s.workers| && |s'.workers| == |s.workers| && s'.workers == s.workers[i := s'.workers[i]]
  }

  lemma IncDec(x: nat)
    ensures x < WORD - 1 ==> Inc(x) == x + 1
    ensures 0 < x < WORD ==> Dec(x) == x - 1
  {
  }

  /** What one worker's step does to the counters: only the increment it stands at takes effect. */
  predicate Counted(s: State, s': State, w: Worker, w': Worker) {
    && s'.ready == (if w.pc.Ready? then Inc(s.ready) else s.ready)
    && s'.done == (if w.pc.Done? then Inc(s.done) else s.done)
    && s'.departed == (if w.pc.Depart? then Inc(s.departed) else s.departed)
    && s'.inside == (if w.pc.Enter? then Inc(s.inside) else if w.pc.Leave? then Dec(s.inside) else s.inside)
    && (w.pc.Enter? ==> w'.pc.Overlap? || w'.pc.Leave?)
    && (w.pc.Overlap? ==> w'.pc.Leave?)
    && (!w.pc.Enter? && !w.pc.Overlap? ==> !w'.pc.Overlap? && !w'.pc.Leave?)
    && s'.coord == s.coord && s'.round == s.round
  }

  lemma WorkerCounts(cfg: Config, s: State, i: nat, ok: bool)
    requires i < |s.workers| && WorkerStep(cfg, s, i, ok) != s
    ensures Moved(s, WorkerStep(cfg, s, i, ok), i)
    ensures Counted(s, WorkerStep(cfg, s, i, ok), s.workers[i], WorkerStep(cfg, s, i, ok).workers[i])
  {
  }

  lemma InsideCounted(cfg: Config, s: State, s': State, i: nat)
    requires cfg.Valid() && |s.workers| == cfg.workers && Moved(s, s', i)
    requires s.inside == |Inside(s.workers)|
    requires Counted(s, s', s.workers[i], s'.workers[i])
    ensures s'.inside == |Inside(s'.workers)|
  {
    CountsFit(cfg, s.workers, s.workers[i]);
    CountsFit(cfg, s'.workers, s.workers[i]);
    IncDec(s.inside);
    InsideUpdate(s.workers, i, s'.workers[i]);
    var pc := s.workers[i].pc;
    assert i in Inside(s.workers) <==> pc.Overlap? || pc.Leave?;
    SetMoves(Inside(s.workers), Inside(s'.workers), i);
  }

  lemma MarkCounted(cfg: Config, s: State, s': State, i: nat, mark: Worker, n: nat, n': nat)
    requires cfg.Valid() && |s.workers| == cfg.workers && Moved(s, s', i)
    requires Rank(s.workers[i]) < Rank(s'.workers[i])
    requires n == |Past(s.workers, mark)|
    requires n' == if Crosses(s.workers[i], s'.workers[i], mark) then Inc(n) else n
    ensures n' == |Past(s'.workers, mark)|
  {
    CountsFit(cfg, s'.workers, mark);
    PastUpdate(s.workers, i, s'.workers[i], mark);
  }

  lemma WorkerKeepsCounters(cfg: Config, s: State, i: nat, ok: bool)
    requires cfg.Valid() && Inv(cfg, s) && i < |s.workers|
    ensures Counters(WorkerStep(cfg, s, i, ok))
  {
    var s' := WorkerStep(cfg, s, i, ok);
    if s' != s {
      WorkerAdvances(cfg, s, i, ok);
      WorkerCounts(cfg, s, i, ok);
      AdvanceKeepsCounters(cfg, s, s', i);
    }
  }

  lemma AdvanceKeepsCounters(cfg: Config, s: State, s': State, i: nat)
    requires cfg.Valid() && |s.workers| == cfg.workers && Counters(s) && Moved(s, s', i)
    requires Rank(s.workers[i]) < Rank(s'.workers[i])
    requires InPhase(s.coord, s.round, s.workers[i])
    requires Counted(s, s', s.workers[i], s'.workers[i])
    requires Crosses(s.workers[i], s'.workers[i], Worker(AwaitStart, s.round)) <==> s.workers[i].pc == Ready
    requires Crosses(s.workers[i], s'.workers[i], Worker(AwaitClear, s.round)) <==> s.workers[i].pc == Done
    requires Crosses(s.workers[i], s'.workers[i], Worker(AwaitRound, s.round + 1)) <==> s.workers[i].pc == Depart
    ensures Counters(s')
  {
    InsideCounted(cfg, s, s', i);
    if InLoop(s.coord) && !s.coord.ResetReady? {
      MarkCounted(cfg, s, s', i, Worker(AwaitStart, s.round), s.ready, s'.ready);
      if !s.coord.ResetDone? {
        MarkCounted(cfg, s, s', i, Worker(AwaitClear, s.round), s.done, s'.done);
        if !s.coord.ResetDeparted? {
          MarkCounted(cfg, s, s', i, Worker(AwaitRound, s.round + 1), s.departed, s'.departed);
        }
      }
    }
  }

  /** A count that reaches the number of workers leaves nobody behind the mark. */
  lemma AllPast(ws: seq<Worker>, mark: Worker)
    requires |Past(ws, mark)| == |ws|
    ensures forall i :: 0 <= i < |ws| ==> Rank(ws[i]) >= Rank(mark)
  {
    FullSet(Past(ws, mark), |ws|);
    forall i | 0 <= i < |ws| ensures Rank(ws[i]) >= Rank(mark) {
      assert i in Past(ws, mark);
    }
  }

  /** When the coordinator moves on, every worker is already where the next phase wants it. */
  lemma NextPhase(cfg: Config, s: State, w: Worker)
    requires InPhase(s.coord, s.round, w)
    requires s.coord.AwaitReady? ==> Rank(w) >= Rank(Worker(AwaitStart, s.round))
    requires s.coord.AwaitDone? ==> Rank(w) >= Rank(Worker(AwaitClear, s.round))
    requires s.coord.AwaitDeparted? ==> Rank(w) >= Rank(Worker(AwaitRound, s.round + 1))
    requires CoordinatorStep(cfg, s) != s
    ensures InPhase(CoordinatorStep(cfg, s).coord, CoordinatorStep(cfg, s).round, w)
  {
  }

  lemma CoordinatorKeepsShape(cfg: Config, s: State)
    requires Inv(cfg, s)
    ensures Shape(cfg, CoordinatorStep(cfg, s))
  {
    hide InPhase;
    var s' := CoordinatorStep(cfg, s);
    if s' != s {
      if s.coord.AwaitReady? { AllPast(s.workers, Worker(AwaitStart, s.round)); }
      else if s.coord.AwaitDone? { AllPast(s.workers, Worker(AwaitClear, s.round)); }
      else if s.coord.AwaitDeparted? { AllPast(s.workers, Worker(AwaitRound, s.round + 1)); }
      forall i | 0 <= i < |s.workers| ensures InPhase(s'.coord, s'.round, s.workers[i]) {
        NextPhase(cfg, s, s.workers[i]);
      }
    }
  }

  lemma CoordinatorKeepsCounters(cfg: Config, s: State)
    requires Inv(cfg, s)
    ensures Counters(CoordinatorStep(cfg, s))
  {
    forall i | 0 <= i < |s.workers| ensures InPhase(s.coord, s.round, s.workers[i]) {}
    if s.coord.ResetReady? { assert Past(s.workers, Worker(AwaitStart, s.round)) == {}; }
    if s.coord.ResetDone? { assert Past(s.workers, Worker(AwaitClear, s.round)) == {}; }
    if s.coord.ResetDeparted? { assert Past(s.workers, Worker(AwaitRound, s.round + 1)) == {}; }
  }

  lemma StepKeepsInv(cfg: Config, s: State, a: Action)
    requires cfg.Valid() && Inv(cfg, s)
    ensures Inv(cfg, Step(cfg, s, a))
  {
    match a
    case Coordinator =>
      CoordinatorKeepsShape(cfg, s);
      CoordinatorKeepsCounters(cfg, s);
    case Thread(i, ok) =>
      if i < |s.workers| {
        WorkerKeepsShape(cfg, s, i, ok);
        WorkerKeepsCounters(cfg, s, i, ok);
      }
  }

  /** What one step of a worker does to a mutex that excludes and never fails. */
  predicate Locked(s: State, s': State, w: Worker, w': Worker) {
    && (w.pc.Lock? ==> w.round !in s.locked && w'.pc.Enter? && s'.locked == s.locked + {w.round})
    && (w.pc.Unlock? ==> w'.pc.Done? && s'.locked == s.locked - {w.round})
    && (!w.pc.Lock? && !w.pc.Unlock? ==>
          && s'.locked == s.locked
          && (PcIndex(Enter) <= PcIndex(w.pc) <= PcIndex(Unlock)
              <==> PcIndex(Enter) <= PcIndex(w'.pc) <= PcIndex(Unlock)))
    && !w'.pc.LockError? && !w'.pc.UnlockError?
    && s'.round == s.round
  }

  lemma WorkerLocks(cfg: Config, s: State, i: nat, ok: bool)
    requires i < |s.workers| && WorkerStep(cfg, s, i, ok) != s && cfg.exclusive && cfg.errorFree
    requires !s.workers[i].pc.LockError? && !s.workers[i].pc.UnlockError?
    ensures Moved(s, WorkerStep(cfg, s, i, ok), i)
    ensures Locked(s, WorkerStep(cfg, s, i, ok), s.workers[i], WorkerStep(cfg, s, i, ok).workers[i])
  {
  }

  lemma LockKeepsExcluded(s: State, s': State, i: nat)
    requires Excluded(s) && Moved(s, s', i) && Locked(s, s', s.workers[i], s'.workers[i])
    requires s.workers[i].pc.Lock? || s.workers[i].pc.Unlock? ==> s.workers[i].round == s.round
    ensures Excluded(s')
  {
    var w, w' := s.workers[i], s'.workers[i];
    SectionUpdate(s.workers, i, w');
    if w.pc.Lock? {
      assert Section(s'.workers) == {i};
    } else if w.pc.Unlock? {
      assert i in Section(s.workers);
      assert |Section(s.workers) - {i}| == 0;
    } else {
      assert Section(s'.workers) == Section(s.workers);
    }
  }

  lemma CoordinatorKeepsExcluded(cfg: Config, s: State)
    requires Inv(cfg, s) && Excluded(s)
    ensures Excluded(CoordinatorStep(cfg, s))
  {
    if CoordinatorStep(cfg, s).round != s.round {
      AllPast(s.workers, Worker(AwaitRound, s.round + 1));
      forall i | 0 <= i < |s.workers| ensures i !in Section(s.workers) {
        assert InPhase(s.coord, s.round, s.workers[i]);
      }
      assert Section(s.workers) == {};
    }
  }

  lemma StepKeepsExcluded(cfg: Config, s: State, a: Action)
    requires Inv(cfg, s) && cfg.exclusive && cfg.errorFree && Excluded(s)
    ensures Excluded(Step(cfg, s, a))
  {
    match a
    case Coordinator => CoordinatorKeepsExcluded(cfg, s);
    case Thread(i, ok) =>
      if i < |s.workers| && WorkerStep(cfg, s, i, ok) != s {
        WorkerInPhase(cfg, s, i, ok);
        WorkerLocks(cfg, s, i, ok);
        LockKeepsExcluded(s, WorkerStep(cfg, s, i, ok), i);
      }
  }

  // ---------------------------------------------------------------- every reachable state

  lemma {:induction false} Reachable(cfg: Config, run: Run, k: nat)
    requires cfg.Valid() && IsRun(cfg, run) && k < |run.states|
    ensures Inv(cfg, run.states[k])
    ensures cfg.exclusive && cfg.errorFree ==> Excluded(run.states[k])
  {
    if k == 0 {
      InitInv(cfg);
    } else {
      Reachable(cfg, run, k - 1);
      StepKeepsInv(cfg, run.states[k - 1], run.acts[k - 1]);
      if cfg.exclusive && cfg.errorFree {
        StepKeepsExcluded(cfg, run.states[k - 1], run.acts[k - 1]);
      }
    }
  }

  /** The coordinator is about to reset or publish a round. */
  predicate Resetting(c: CoordPc) {
    c.ResetReady? || c.ResetDone? || c.ResetDeparted? || c.Publish?
  }

  /**
   * Lock-step, whatever the mutex does: each counter that is waited for counts the workers past its
   * increment; nobody is behind a worker that has begun a round; and while the coordinator resets
   * the counters, no worker can move.
   */
  lemma LockStep(cfg: Config, run: Run, k: nat)
    requires cfg.Valid() && IsRun(cfg, run) && k < |run.states|
    ensures var s := run.states[k];
            && (s.coord.AwaitReady? ==> s.ready == |Past(s.workers, Worker(AwaitStart, s.round))|)
            && (s.coord.AwaitDone? ==> s.done == |Past(s.workers, Worker(AwaitClear, s.round))|)
            && (s.coord.AwaitDeparted? ==> s.departed == |Past(s.workers, Worker(AwaitRound, s.round + 1))|)
            && (forall i, j :: 0 <= i < |s.workers| && 0 <= j < |s.workers| && s.workers[i].pc != AwaitRound ==>
                  s.workers[i].round <= s.workers[j].round)
            && (Resetting(s.coord) ==> forall i, ok :: 0 <= i < |s.workers| ==>
                  WorkerStep(cfg, s, i, ok) == s)
  {
    Reachable(cfg, run, k);
    var s := run.states[k];
    forall i | 0 <= i < |s.workers| ensures InPhase(s.coord, s.round, s.workers[i]) {}
  }

  /** A mutex that excludes and never fails lets one worker in at a time. */
  lemma OneInside(cfg: Config, run: Run, k: nat)
    requires cfg.Valid() && IsRun(cfg, run) && cfg.exclusive && cfg.errorFree && k < |run.states|
    ensures |Inside(run.states[k].workers)| <= 1
  {
    Reachable(cfg, run, k);
    SubsetSize(Inside(run.states[k].workers), Section(run.states[k].workers));
  }

  // ---------------------------------------------------------------- what the verdict detects

  /** How often an event happens in the first n steps. */
  ghost function Occurrences(cfg: Config, run: Run, n: nat, event: (Config, State, Action) -> bool): nat
    requires n <= |run.acts| && |run.states| == |run.acts| + 1
  {
    if n == 0 then 0
    else Occurrences(cfg, run, n - 1, event) + if event(cfg, run.states[n - 1], run.acts[n - 1]) then 1 else 0
  }

  predicate Runs(cfg: Config, s: State, a: Action) {
    a.Thread? && a.id < |s.workers| && s.workers[a.id].round <= cfg.rounds
  }

  /** A lock call returns. */
  predicate LockReturns(cfg: Config, s: State, a: Action) {
    Runs(cfg, s, a) && s.workers[a.id].pc.Lock? && Step(cfg, s, a) != s
  }

  /** A worker enters while another is between the two changes of `inside`. */
  predicate EntersOccupied(cfg: Config, s: State, a: Action) {
    Runs(cfg, s, a) && s.workers[a.id].pc.Enter? && Inside(s.workers) != {}
  }

  /** A mutex call returns non-zero. */
  predicate CallFails(cfg: Config, s: State, a: Action) {
    Runs(cfg, s, a) && (s.workers[a.id].pc.Lock? || s.workers[a.id].pc.Unlock?) && !a.ok && !cfg.errorFree
  }

  predicate NeverTogether(run: Run) {
    forall k :: 0 <= k < |run.states| ==> |Inside(run.states[k].workers)| <= 1
  }

  predicate NoCallFails(cfg: Config, run: Run)
    requires |run.states| == |run.acts| + 1
  {
    forall k :: 0 <= k < |run.acts| ==> !CallFails(cfg, run.states[k], run.acts[k])
  }

  function FullRounds(w: Worker): nat { if w.round == 0 then 0 else w.round - 1 }

  function LocksReturned(w: Worker): nat { FullRounds(w) + if PcIndex(w.pc) > PcIndex(Lock) then 1 else 0 }

  function Entries(w: Worker): nat { FullRounds(w) + if PcIndex(w.pc) > PcIndex(Enter) then 1 else 0 }

  function CallsReturned(w: Worker): nat {
    2 * FullRounds(w) + if PcIndex(w.pc) > PcIndex(Unlock) then 2 else if PcIndex(w.pc) > PcIndex(Lock) then 1 else 0
  }

  /** Workers that have seen an overlap, or an error, and not yet counted it. */
  function OverlapPending(ws: seq<Worker>): set<nat> { set i: nat | i < |ws| && ws[i].pc.Overlap? }

  function ErrorPending(ws: seq<Worker>): set<nat> {
    set i: nat | i < |ws| && (ws[i].pc.LockError? || ws[i].pc.UnlockError?)
  }

  /** One worker's step as its own totals see it. */
  predicate Totalled(cfg: Config, s: State, a: Action, w: Worker, w': Worker) {
    && LocksReturned(w') == LocksReturned(w) + (if LockReturns(cfg, s, a) then 1 else 0)
    && Entries(w') >= Entries(w) + (if EntersOccupied(cfg, s, a) then 1 else 0)
    && CallsReturned(w') >= CallsReturned(w) + (if CallFails(cfg, s, a) then 1 else 0)
  }

  /** One worker's step as the two failure counters see it. */
  predicate Tallied(cfg: Config, s: State, a: Action, s': State, w: Worker, w': Worker) {
    && s'.overlaps == (if w.pc.Overlap? then Inc(s.overlaps) else s.overlaps)
    && s'.failures == (if w.pc.LockError? || w.pc.UnlockError? then Inc(s.failures) else s.failures)
    && (w'.pc.Overlap? <==> EntersOccupied(cfg, s, a))
    && (w'.pc.LockError? || w'.pc.UnlockError? <==> CallFails(cfg, s, a))
  }

  lemma WorkerTotalled(cfg: Config, s: State, i: nat, ok: bool, w': Worker)
    requires i < |s.workers| && s.workers[i].round >= 1
    requires Runs(cfg, s, Thread(i, ok)) && Step(cfg, s, Thread(i, ok)) != s && Follows(s.workers[i], w')
    ensures Totalled(cfg, s, Thread(i, ok), s.workers[i], w')
  {
  }

  /** The increment of `inside` returns 1 exactly when nobody else was in. */
  lemma EnterSees(cfg: Config, s: State, i: nat)
    requires cfg.Valid() && |s.workers| == cfg.workers && s.inside == |Inside(s.workers)|
    requires i < |s.workers| && s.workers[i].pc.Enter?
    ensures Inc(s.inside) == 1 <==> Inside(s.workers) == {}
  {
    FullSet(Inside(s.workers) + {i}, cfg.workers);
    assert i !in Inside(s.workers);
    assert |Inside(s.workers) + {i}| == |Inside(s.workers)| + 1;
    IncDec(s.inside);
  }

  lemma WorkerTallied(cfg: Config, s: State, i: nat, ok: bool)
    requires i < |s.workers| && WorkerStep(cfg, s, i, ok) != s
    requires Moved(s, WorkerStep(cfg, s, i, ok), i)
    requires s.workers[i].pc.Enter? ==> (Inc(s.inside) == 1 <==> Inside(s.workers) == {})
    ensures Tallied(cfg, s, Thread(i, ok), WorkerStep(cfg, s, i, ok), s.workers[i], WorkerStep(cfg, s, i, ok).workers[i])
  {
  }

  lemma EventsMove(cfg: Config, s: State, a: Action)
    requires LockReturns(cfg, s, a) || EntersOccupied(cfg, s, a) || CallFails(cfg, s, a)
    ensures a.Thread? && a.id < |s.workers| && Step(cfg, s, a) != s
  {
    var s' := Step(cfg, s, a);
    assert s'.workers[a.id].pc != s.workers[a.id].pc || LockReturns(cfg, s, a);
  }

  /** What every step does to the totals; the steps that move no worker leave them alone. */
  predicate Effect(cfg: Config, s: State, a: Action, s': State) {
    if s'.workers == s.workers then
      && s'.overlaps == s.overlaps && s'.failures == s.failures
      && !LockReturns(cfg, s, a) && !EntersOccupied(cfg, s, a) && !CallFails(cfg, s, a)
    else
      && a.Thread? && Moved(s, s', a.id) && Runs(cfg, s, a)
      && Totalled(cfg, s, a, s.workers[a.id], s'.workers[a.id])
      && Tallied(cfg, s, a, s', s.workers[a.id], s'.workers[a.id])
      && Counted(s, s', s.workers[a.id], s'.workers[a.id])
  }

  lemma StepTallied(cfg: Config, s: State, a: Action)
    requires cfg.Valid() && Inv(cfg, s)
    ensures Effect(cfg, s, a, Step(cfg, s, a))
  {
    var s' := Step(cfg, s, a);
    if a.Thread? && s' != s {
      WorkerAdvances(cfg, s, a.id, a.ok);
      WorkerCounts(cfg, s, a.id, a.ok);
      WorkerFollows(cfg, s, a.id, a.ok);
      assert InPhase(s.coord, s.round, s.workers[a.id]);
      WorkerTotalled(cfg, s, a.id, a.ok, s'.workers[a.id]);
      if s.workers[a.id].pc.Enter? { EnterSees(cfg, s, a.id); }
      WorkerTallied(cfg, s, a.id, a.ok);
    } else if LockReturns(cfg, s, a) || EntersOccupied(cfg, s, a) || CallFails(cfg, s, a) {
      EventsMove(cfg, s, a);
      assert false;
    }
  }

  lemma RunEffect(cfg: Config, run: Run, k: nat)
    requires cfg.Valid() && IsRun(cfg, run) && k < |run.acts|
    ensures Effect(cfg, run.states[k], run.acts[k], run.states[k + 1])
  {
    Reachable(cfg, run, k);
    StepTallied(cfg, run.states[k], run.acts[k]);
  }

  lemma EffectTotals(cfg: Config, s: State, a: Action, s': State)
    requires Effect(cfg, s, a, s')
    ensures Sum(s'.workers, LocksReturned)
         == Sum(s.workers, LocksReturned) + if LockReturns(cfg, s, a) then 1 else 0
    ensures Sum(s'.workers, Entries)
         >= Sum(s.workers, Entries) + if EntersOccupied(cfg, s, a) then 1 else 0
    ensures Sum(s'.workers, CallsReturned)
         >= Sum(s.workers, CallsReturned) + if CallFails(cfg, s, a) then 1 else 0
  {
    if s'.workers != s.workers {
      SumUpdate(s.workers, a.id, s'.workers[a.id], LocksReturned);
      SumUpdate(s.workers, a.id, s'.workers[a.id], Entries);
      SumUpdate(s.workers, a.id, s'.workers[a.id], CallsReturned);
    }
  }

  lemma NothingReturned(cfg: Config)
    ensures Sum(Init(cfg).workers, LocksReturned) == 0
    ensures Sum(Init(cfg).workers, Entries) == 0
    ensures Sum(Init(cfg).workers, CallsReturned) == 0
  {
    var ws := Init(cfg).workers;
    SumUniform(ws, 0, LocksReturned);
    SumUniform(ws, 0, Entries);
    SumUniform(ws, 0, CallsReturned);
  }

  /** The running totals of a run, against what the state remembers. */
  lemma {:induction false} Ledger(cfg: Config, run: Run, n: nat)
    requires cfg.Valid() && IsRun(cfg, run) && n <= |run.acts|
    ensures Occurrences(cfg, run, n, LockReturns) == Sum(run.states[n].workers, LocksReturned)
    ensures Occurrences(cfg, run, n, EntersOccupied) <= Sum(run.states[n].workers, Entries)
    ensures Occurrences(cfg, run, n, CallFails) <= Sum(run.states[n].workers, CallsReturned)
  {
    NothingReturned(cfg);
    hide Effect, Step, Init, LockReturns, EntersOccupied, CallFails;
    if n > 0 {
      Ledger(cfg, run, n - 1);
      RunEffect(cfg, run, n - 1);
      EffectTotals(cfg, run.states[n - 1], run.acts[n - 1], run.states[n]);
    }
  }

  lemma PendingMoves(cfg: Config, s: State, a: Action, s': State)
    requires a.Thread? && Moved(s, s', a.id) && Tallied(cfg, s, a, s', s.workers[a.id], s'.workers[a.id])
    ensures var pc := s.workers[a.id].pc;
            && |OverlapPending(s'.workers)| + (if pc.Overlap? then 1 else 0)
               == |OverlapPending(s.workers)| + (if EntersOccupied(cfg, s, a) then 1 else 0)
            && |ErrorPending(s'.workers)| + (if pc.LockError? || pc.UnlockError? then 1 else 0)
               == |ErrorPending(s.workers)| + (if CallFails(cfg, s, a) then 1 else 0)
  {
    SetMoves(OverlapPending(s.workers), OverlapPending(s'.workers), a.id);
    SetMoves(ErrorPending(s.workers), ErrorPending(s'.workers), a.id);
  }

  lemma SetMoves(before: set<nat>, after: set<nat>, i: nat)
    requires before - {i} == after - {i}
    ensures |after| + (if i in before then 1 else 0) == |before| + (if i in after then 1 else 0)
  {
    assert i in before ==> before == (before - {i}) + {i};
    assert i in after ==> after == (after - {i}) + {i};
    assert i !in before ==> before == before - {i};
    assert i !in after ==> after == after - {i};
  }

  lemma IncWrapped(n: nat)
    ensures Inc(n % WORD) == (n + 1) % WORD
  {
  }

  /** The failure counters hold what was seen and already counted, modulo the word. */
  predicate Agree(s: State, entered: nat, failed: nat) {
    && |OverlapPending(s.workers)| <= entered
    && s.overlaps == (entered - |OverlapPending(s.workers)|) % 0x1_0000_0000
    && |ErrorPending(s.workers)| <= failed
    && s.failures == (failed - |ErrorPending(s.workers)|) % 0x1_0000_0000
  }

  lemma EffectAgrees(cfg: Config, s: State, a: Action, s': State, entered: nat, failed: nat)
    requires Effect(cfg, s, a, s') && Agree(s, entered, failed)
    ensures Agree(s', entered + (if EntersOccupied(cfg, s, a) then 1 else 0),
                  failed + (if CallFails(cfg, s, a) then 1 else 0))
  {
    if s'.workers != s.workers {
      PendingMoves(cfg, s, a, s');
      IncWrapped(entered - |OverlapPending(s.workers)|);
      IncWrapped(failed - |ErrorPending(s.workers)|);
    }
  }

  lemma NothingPending(cfg: Config)
    ensures Agree(Init(cfg), 0, 0)
  {
    assert OverlapPending(Init(cfg).workers) == {} && ErrorPending(Init(cfg).workers) == {};
  }

  lemma {:induction false} FailureLedger(cfg: Config, run: Run, n: nat)
    requires cfg.Valid() && IsRun(cfg, run) && n <= |run.acts|
    ensures Agree(run.states[n], Occurrences(cfg, run, n, EntersOccupied), Occurrences(cfg, run, n, CallFails))
  {
    NothingPending(cfg);
    hide Effect, Step, Init, Agree, EntersOccupied, CallFails;
    if n > 0 {
      FailureLedger(cfg, run, n - 1);
      RunEffect(cfg, run, n - 1);
      EffectAgrees(cfg, run.states[n - 1], run.acts[n - 1], run.states[n],
                   Occurrences(cfg, run, n - 1, EntersOccupied), Occurrences(cfg, run, n - 1, CallFails));
    }
  }

  lemma {:induction false} NeverOccurs(cfg: Config, run: Run, n: nat)
    requires |run.states| == |run.acts| + 1 && n <= |run.acts|
    ensures Occurrences(cfg, run, n, CallFails) == 0
       <==> forall k :: 0 <= k < n ==> !CallFails(cfg, run.states[k], run.acts[k])
  {
    if n > 0 {
      NeverOccurs(cfg, run, n - 1);
    }
  }

  /** One step's effect on who is inside. */
  lemma EffectInside(cfg: Config, s: State, a: Action, s': State)
    requires Effect(cfg, s, a, s')
    ensures EntersOccupied(cfg, s, a) ==> |Inside(s'.workers)| >= 2
    ensures !EntersOccupied(cfg, s, a) && |Inside(s.workers)| <= 1 ==> |Inside(s'.workers)| <= 1
  {
    if s'.workers != s.workers {
      SetMoves(Inside(s.workers), Inside(s'.workers), a.id);
      assert Inside(s.workers) == {} <==> |Inside(s.workers)| == 0;
      assert a.id in Inside(s.workers) <==> s.workers[a.id].pc.Overlap? || s.workers[a.id].pc.Leave?;
    }
  }

  lemma NobodyInsideAtFirst(cfg: Config)
    ensures |Inside(Init(cfg).workers)| == 0
  {
    assert Inside(Init(cfg).workers) == {};
  }

  /** Entering an occupied section is the only way for two workers to be there together. */
  lemma {:induction false} TogetherIsEntered(cfg: Config, run: Run, n: nat)
    requires cfg.Valid() && IsRun(cfg, run) && n <= |run.acts|
    ensures Occurrences(cfg, run, n, EntersOccupied) == 0
       <==> forall k :: 0 <= k <= n ==> |Inside(run.states[k].workers)| <= 1
  {
    NobodyInsideAtFirst(cfg);
    hide Effect, EntersOccupied, Inside, Step, Init;
    if n > 0 {
      TogetherIsEntered(cfg, run, n - 1);
      RunEffect(cfg, run, n - 1);
      EffectInside(cfg, run.states[n - 1], run.acts[n - 1], run.states[n]);
    }
  }

  lemma ExitTotals(cfg: Config, s: State)
    requires Inv(cfg, s) && s.coord.Exit?
    ensures Sum(s.workers, LocksReturned) == cfg.Sections()
    ensures Sum(s.workers, Entries) == cfg.Sections()
    ensures Sum(s.workers, CallsReturned) == 2 * cfg.Sections()
    ensures OverlapPending(s.workers) == {} && ErrorPending(s.workers) == {} && s.inside == 0
  {
    forall i | 0 <= i < |s.workers| ensures s.workers[i] == Worker(AwaitRound, cfg.rounds + 1) {
      assert InPhase(s.coord, s.round, s.workers[i]);
    }
    hide Inv, Shape, Signals, InPhase;
    SumUniform(s.workers, cfg.rounds, LocksReturned);
    SumUniform(s.workers, cfg.rounds, Entries);
    SumUniform(s.workers, 2 * cfg.rounds, CallsReturned);
    NobodyThere(s, cfg.rounds + 1);
    InsideIsCounted(cfg, s);
    Twice(cfg.workers, cfg.rounds);
  }

  lemma InsideIsCounted(cfg: Config, s: State)
    requires Inv(cfg, s)
    ensures |s.workers| == cfg.workers && s.inside == |Inside(s.workers)|
  {
  }

  lemma NobodyThere(s: State, round: nat)
    requires forall i :: 0 <= i < |s.workers| ==> s.workers[i] == Worker(AwaitRound, round)
    ensures OverlapPending(s.workers) == {} && ErrorPending(s.workers) == {} && Inside(s.workers) == {}
  {
  }

  lemma Twice(a: nat, b: nat)
    ensures a * (2 * b) == 2 * (a * b)
  {
  }

  /** A finished run has returned from exactly WORKERS * ROUNDS lock calls. */
  lemma Acquisitions(cfg: Config, run: Run)
    requires cfg.Valid() && IsRun(cfg, run) && run.Last().coord.Exit?
    ensures Occurrences(cfg, run, |run.acts|, LockReturns) == cfg.Sections()
  {
    Reachable(cfg, run, |run.acts|);
    Ledger(cfg, run, |run.acts|);
    ExitTotals(cfg, run.Last());
  }

  /**
   * The verdict of any finished run, however long: it passes if and only if the occupied entries and
   * the failed calls are both multiples of 2^32, which is what the 32-bit counters can tell.
   */
  lemma VerdictModuloWord(cfg: Config, run: Run)
    requires cfg.Valid() && IsRun(cfg, run) && run.Last().coord.Exit?
    ensures !Failed(run.Last()) <==>
              && Occurrences(cfg, run, |run.acts|, EntersOccupied) % 0x1_0000_0000 == 0
              && Occurrences(cfg, run, |run.acts|, CallFails) % 0x1_0000_0000 == 0
  {
    Reachable(cfg, run, |run.acts|);
    FailureLedger(cfg, run, |run.acts|);
    ExitTotals(cfg, run.Last());
  }

  lemma EventsFit(cfg: Config, run: Run)
    requires cfg.Valid() && 2 * cfg.Sections() < WORD
    requires IsRun(cfg, run) && run.Last().coord.Exit?
    ensures Occurrences(cfg, run, |run.acts|, EntersOccupied) < WORD
    ensures Occurrences(cfg, run, |run.acts|, CallFails) < WORD
  {
    Reachable(cfg, run, |run.acts|);
    Ledger(cfg, run, |run.acts|);
    ExitTotals(cfg, run.Last());
    hide Inv, IsRun, Occurrences;
  }

  /**
   * Exact detection, for a mutex that may admit anyone at any time and fail any call: a finished run
   * passes if and only if no two workers were ever in together and no call ever failed.  (The
   * counters are 32 bits wide, so the run must be too short to wrap them.)
   */
  lemma VerdictIsExact(cfg: Config, run: Run)
    requires cfg.Valid() && 2 * cfg.Sections() < 0x1_0000_0000
    requires IsRun(cfg, run) && run.Last().coord.Exit?
    ensures !Failed(run.Last()) <==> NeverTogether(run) && NoCallFails(cfg, run)
  {
    hide Failed, Step, Init, Inside, EntersOccupied, CallFails;
    EventsFit(cfg, run);
    VerdictModuloWord(cfg, run);
    NeverOccurs(cfg, run, |run.acts|);
    TogetherIsEntered(cfg, run, |run.acts|);
  }

  /** A mutex that excludes and never fails always passes. */
  lemma CorrectMutexPasses(cfg: Config, run: Run)
    requires cfg.Valid() && IsRun(cfg, run)
    requires cfg.exclusive && cfg.errorFree && run.Last().coord.Exit?
    ensures !Failed(run.Last())
  {
    hide Failed, Step, Init, Inside, EntersOccupied;
    forall k | 0 <= k < |run.states| ensures |Inside(run.states[k].workers)| <= 1 {
      OneInside(cfg, run, k);
    }
    VerdictModuloWord(cfg, run);
    NeverOccurs(cfg, run, |run.acts|);
    TogetherIsEntered(cfg, run, |run.acts|);
  }

  // ---------------------------------------------------------------- progress

  function CoordIndex(c: CoordPc): nat {
    match c
    case ResetReady => 0 case ResetDone => 1 case ResetDeparted => 2 case Publish => 3 case AwaitReady => 4
    case Start => 5 case AwaitDone => 6 case Clear => 7 case AwaitDeparted => 8 case Join => 0 case Exit => 1
  }

  /** How far the whole program has come. */
  function Progress(s: State): nat {
    Sum(s.workers, Rank) + 9 * s.round + CoordIndex(s.coord)
  }

  /** How many steps that are neither a spin nor a wait a complete run takes at most. */
  function Budget(cfg: Config): nat {
    13 * cfg.Sections() + 9 * cfg.rounds + 1
  }

  predicate Moves(cfg: Config, s: State, a: Action) { Step(cfg, s, a) != s }

  lemma StepProgresses(cfg: Config, s: State, a: Action)
    requires Inv(cfg, s) && Step(cfg, s, a) != s
    ensures Progress(Step(cfg, s, a)) > Progress(s)
  {
    if a.Thread? {
      WorkerAdvances(cfg, s, a.id, a.ok);
      WorkerCounts(cfg, s, a.id, a.ok);
      SumUpdate(s.workers, a.id, Step(cfg, s, a).workers[a.id], Rank);
    }
  }

  lemma ProgressBounds(cfg: Config, s: State)
    requires Inv(cfg, s)
    ensures Progress(s) <= 13 * cfg.workers + 9 + Budget(cfg)
    ensures !s.coord.Exit? ==> Progress(s) < 13 * cfg.workers + 9 + Budget(cfg)
  {
    var top := 13 * (cfg.rounds + 1);
    forall i | 0 <= i < |s.workers| ensures Rank(s.workers[i]) <= top {
      assert InPhase(s.coord, s.round, s.workers[i]);
    }
    SumAtMost(s.workers, top, Rank);
    Spread(cfg.workers, cfg.rounds);
  }

  lemma Spread(a: nat, b: nat)
    ensures a * (13 * (b + 1)) == 13 * (a * b) + 13 * a
  {
  }

  /** Someone short of a mark that the count has not reached. */
  lemma SomeoneBehind(ws: seq<Worker>, mark: Worker) returns (i: nat)
    requires |Past(ws, mark)| != |ws|
    ensures i < |ws| && Rank(ws[i]) < Rank(mark)
  {
    FullSet(Past(ws, mark), |ws|);
    i :| 0 <= i < |ws| && i !in Past(ws, mark);
  }

  predicate Willing(cfg: Config, a: Action) {
    a.Thread? ==> a.id < cfg.workers && a.ok
  }

  /**
   * The mutex of the round is held by nobody that will let go: every worker is past its unlock or
   * waits for the lock, and one does wait.
   */
  predicate Jammed(cfg: Config, s: State) {
    && cfg.exclusive && s.coord.AwaitDone? && s.round in s.locked
    && (forall i :: 0 <= i < |s.workers| ==> s.workers[i].pc.Lock? || s.workers[i].pc.AwaitClear?)
    && exists i :: 0 <= i < |s.workers| && s.workers[i].pc.Lock?
  }

  lemma OneCanMove(cfg: Config, s: State, i: nat)
    requires i < |s.workers| && InPhase(s.coord, s.round, s.workers[i]) && Signals(s) && 1 <= s.round <= cfg.rounds
    requires s.workers[i].pc.Lock? && cfg.exclusive ==> s.round !in s.locked
    requires s.coord.AwaitReady? ==> PcIndex(s.workers[i].pc) < PcIndex(AwaitStart)
    requires s.coord.AwaitDone? ==> PcIndex(s.workers[i].pc) < PcIndex(AwaitClear)
    requires s.coord.AwaitDeparted? ==> s.workers[i].round == s.round
    requires s.coord.AwaitReady? || s.coord.AwaitDone? || s.coord.AwaitDeparted?
    ensures Moves(cfg, s, Thread(i, true))
  {
    assert Step(cfg, s, Thread(i, true)).workers[i] != s.workers[i];
  }

  /** A worker that the coordinator waits for can move, or one that it waits for in turn. */
  lemma WorkerCanMove(cfg: Config, s: State, i: nat) returns (a: Action)
    requires Inv(cfg, s) && i < |s.workers| && !Jammed(cfg, s)
    requires s.coord.AwaitReady? ==> PcIndex(s.workers[i].pc) < PcIndex(AwaitStart)
    requires s.coord.AwaitDone? ==> PcIndex(s.workers[i].pc) < PcIndex(AwaitClear)
    requires s.coord.AwaitDeparted? ==> s.workers[i].round == s.round
    requires s.coord.AwaitReady? || s.coord.AwaitDone? || s.coord.AwaitDeparted?
    ensures Willing(cfg, a) && Moves(cfg, s, a)
  {
    var j := i;
    assert InPhase(s.coord, s.round, s.workers[i]);
    if s.workers[i].pc.Lock? && cfg.exclusive && s.round in s.locked {
      j :| 0 <= j < |s.workers| && !s.workers[j].pc.Lock? && !s.workers[j].pc.AwaitClear?;
      assert InPhase(s.coord, s.round, s.workers[j]);
    }
    a := Thread(j, true);
    hide Counters, Step;
    OneCanMove(cfg, s, j);
  }

  /** Unless it is jammed, every state but the last has a thread whose next step is neither a spin nor a wait. */
  lemma SomeoneMoves(cfg: Config, s: State) returns (a: Action)
    requires Inv(cfg, s) && !s.coord.Exit? && !Jammed(cfg, s)
    ensures Willing(cfg, a) && Moves(cfg, s, a)
  {
    if s.coord.AwaitReady? && s.ready != cfg.workers {
      var i := SomeoneBehind(s.workers, Worker(AwaitStart, s.round));
      assert InPhase(s.coord, s.round, s.workers[i]);
      a := WorkerCanMove(cfg, s, i);
    } else if s.coord.AwaitDone? && s.done != cfg.workers {
      var i := SomeoneBehind(s.workers, Worker(AwaitClear, s.round));
      assert InPhase(s.coord, s.round, s.workers[i]);
      a := WorkerCanMove(cfg, s, i);
    } else if s.coord.AwaitDeparted? && s.departed != cfg.workers {
      var i := SomeoneBehind(s.workers, Worker(AwaitRound, s.round + 1));
      assert InPhase(s.coord, s.round, s.workers[i]);
      a := WorkerCanMove(cfg, s, i);
    } else {
      a := Coordinator;
      assert forall i :: 0 <= i < |s.workers| ==> InPhase(s.coord, s.round, s.workers[i]);
      assert Step(cfg, s, a).coord != s.coord;
    }
  }

  /** In a jammed state all threads spin or wait. */
  lemma JammedIsStuck(cfg: Config, s: State, a: Action)
    requires Inv(cfg, s) && Jammed(cfg, s) && Willing(cfg, a)
    ensures !Moves(cfg, s, a)
  {
    match a
    case Coordinator =>
      var i :| 0 <= i < |s.workers| && s.workers[i].pc.Lock?;
      assert InPhase(s.coord, s.round, s.workers[i]);
      if s.done == cfg.workers {
        AllPast(s.workers, Worker(AwaitClear, s.round));
      }
    case Thread(i, ok) =>
      assert InPhase(s.coord, s.round, s.workers[i]);
  }

  /**
   * Deadlock, exactly: when lock calls succeed if they may, a state before the last in which nobody
   * can move is a jammed one.
   */
  lemma StuckIff(cfg: Config, s: State)
    requires Inv(cfg, s) && !s.coord.Exit?
    ensures (forall a :: Willing(cfg, a) ==> !Moves(cfg, s, a)) <==> Jammed(cfg, s)
  {
    if Jammed(cfg, s) {
      forall a | Willing(cfg, a) ensures !Moves(cfg, s, a) {
        JammedIsStuck(cfg, s, a);
      }
    } else {
      var a := SomeoneMoves(cfg, s);
    }
  }

  lemma ExcludedIsNotJammed(cfg: Config, s: State)
    requires Excluded(s)
    ensures !Jammed(cfg, s)
  {
    if Jammed(cfg, s) {
      var i :| i in Section(s.workers);
      assert false;
    }
  }

  function Faultless(cfg: Config): Config { cfg.(errorFree := true) }

  lemma NoFailureSameStep(cfg: Config, s: State, a: Action)
    requires !CallFails(cfg, s, a)
    ensures Step(Faultless(cfg), s, a) == Step(cfg, s, a)
  {
  }

  /** A run jams only after a call that failed. */
  lemma JamNeedsFailure(cfg: Config, run: Run, k: nat)
    requires cfg.Valid() && IsRun(cfg, run) && k < |run.states| && Jammed(cfg, run.states[k])
    ensures exists m :: 0 <= m < k && CallFails(cfg, run.states[m], run.acts[m])
  {
    if forall m :: 0 <= m < k ==> !CallFails(cfg, run.states[m], run.acts[m]) {
      var prefix := Run(run.states[..k + 1], run.acts[..k]);
      forall m | 0 <= m < k ensures prefix.states[m + 1] == Step(Faultless(cfg), prefix.states[m], prefix.acts[m]) {
        NoFailureSameStep(cfg, run.states[m], run.acts[m]);
      }
      hide Step, CallFails;
      assert IsRun(Faultless(cfg), prefix);
      Reachable(Faultless(cfg), prefix, k);
      ExcludedIsNotJammed(cfg, run.states[k]);
    }
  }

  lemma {:induction false} Monotone(cfg: Config, run: Run, lo: nat, hi: nat)
    requires cfg.Valid() && IsRun(cfg, run) && lo <= hi <= |run.acts|
    ensures run.states[hi] == run.states[lo] || Progress(run.states[hi]) > Progress(run.states[lo])
  {
    hide Step, Progress, Inv;
    if lo < hi {
      Monotone(cfg, run, lo, hi - 1);
      Reachable(cfg, run, hi - 1);
      if Step(cfg, run.states[hi - 1], run.acts[hi - 1]) != run.states[hi - 1] {
        StepProgresses(cfg, run.states[hi - 1], run.acts[hi - 1]);
      }
    }
  }

  /** A run spends at most its budget on steps that are neither spins nor waits. */
  lemma {:induction false} EffectiveSteps(cfg: Config, run: Run, n: nat)
    requires cfg.Valid() && IsRun(cfg, run) && n <= |run.acts|
    ensures Progress(run.states[n]) >= 13 * cfg.workers + 9 + Occurrences(cfg, run, n, Moves)
    ensures Occurrences(cfg, run, n, Moves) <= Budget(cfg)
  {
    if n == 0 {
      SumUniform(Init(cfg).workers, 13, Rank);
    } else {
      EffectiveSteps(cfg, run, n - 1);
      Reachable(cfg, run, n - 1);
      if Moves(cfg, run.states[n - 1], run.acts[n - 1]) {
        StepProgresses(cfg, run.states[n - 1], run.acts[n - 1]);
      }
    }
    Reachable(cfg, run, n);
    ProgressBounds(cfg, run.states[n]);
  }

  /** Between two points of the run every thread is scheduled at least once. */
  ghost predicate FairWindow(cfg: Config, run: Run, lo: nat, hi: nat) {
    && lo <= hi <= |run.acts|
    && forall a :: Willing(cfg, a) ==> a in run.acts[lo..hi]
  }

  lemma WindowProgresses(cfg: Config, run: Run, lo: nat, hi: nat)
    requires cfg.Valid() && IsRun(cfg, run) && FairWindow(cfg, run, lo, hi)
    requires !run.states[lo].coord.Exit? && !Jammed(cfg, run.states[lo])
    ensures Progress(run.states[hi]) > Progress(run.states[lo])
  {
    Reachable(cfg, run, lo);
    hide Inv, Jammed, Progress, Step;
    var a := SomeoneMoves(cfg, run.states[lo]);
    var k :| lo <= k < hi && run.acts[k] == a;
    Monotone(cfg, run, lo, k);
    Monotone(cfg, run, k + 1, hi);
    Reachable(cfg, run, k);
    if run.states[k] == run.states[lo] {
      StepProgresses(cfg, run.states[k], a);
    } else {
      Monotone(cfg, run, k, k + 1);
    }
  }

  ghost predicate JamsAt(cfg: Config, run: Run, cuts: seq<nat>)
    requires forall j :: 0 <= j < |cuts| ==> cuts[j] < |run.states|
  {
    exists j :: 0 <= j < |cuts| && Jammed(cfg, run.states[cuts[j]])
  }

  /** The cuts divide the run into windows in which every thread has a turn. */
  ghost predicate FairCuts(cfg: Config, run: Run, cuts: seq<nat>)
    requires |run.states| == |run.acts| + 1
  {
    && |cuts| > 0 && (forall j :: 0 <= j < |cuts| ==> cuts[j] <= |run.acts|)
    && forall j :: 0 <= j < |cuts| - 1 ==> FairWindow(cfg, run, cuts[j], cuts[j + 1])
  }

  lemma {:induction false} FairRunProgresses(cfg: Config, run: Run, cuts: seq<nat>)
    requires cfg.Valid() && IsRun(cfg, run) && FairCuts(cfg, run, cuts) && !JamsAt(cfg, run, cuts)
    ensures var s := run.states[cuts[|cuts| - 1]];
            s.coord.Exit? || Progress(s) >= 13 * cfg.workers + 9 + |cuts| - 1
  {
    hide Inv, Jammed, Progress, Step, Budget;
    var n := |cuts| - 1;
    Reachable(cfg, run, cuts[n]);
    ProgressBounds(cfg, run.states[cuts[n]]);
    if n == 0 {
      EffectiveSteps(cfg, run, cuts[0]);
    } else {
      assert FairWindow(cfg, run, cuts[n - 1], cuts[n]);
      var front := cuts[..n];
      assert FairCuts(cfg, run, front) by {
        forall j | 0 <= j < n - 1 ensures FairWindow(cfg, run, front[j], front[j + 1]) {
          assert FairWindow(cfg, run, cuts[j], cuts[j + 1]);
        }
      }
      FairRunProgresses(cfg, run, front);
      if run.states[cuts[n - 1]].coord.Exit? {
        Reachable(cfg, run, cuts[n - 1]);
        Monotone(cfg, run, cuts[n - 1], cuts[n]);
        ExitProgress(cfg, run.states[cuts[n - 1]]);
      } else {
        WindowProgresses(cfg, run, cuts[n - 1], cuts[n]);
      }
    }
  }

  /**
   * Every schedule that keeps giving each thread a turn finishes or jams: after Budget rounds of
   * turns, at the latest, the coordinator has returned or the end of some round of turns was jammed,
   * which takes a failed call.
   */
  lemma FairRunFinishes(cfg: Config, run: Run, cuts: seq<nat>)
    requires cfg.Valid() && IsRun(cfg, run) && FairCuts(cfg, run, cuts) && |cuts| > Budget(cfg)
    ensures run.states[cuts[|cuts| - 1]].coord.Exit? || JamsAt(cfg, run, cuts)
    ensures JamsAt(cfg, run, cuts) ==> exists m :: 0 <= m < |run.acts| && CallFails(cfg, run.states[m], run.acts[m])
  {
    if JamsAt(cfg, run, cuts) {
      var j :| 0 <= j < |cuts| && Jammed(cfg, run.states[cuts[j]]);
      JamNeedsFailure(cfg, run, cuts[j]);
    } else {
      FairRunProgresses(cfg, run, cuts);
      Reachable(cfg, run, cuts[|cuts| - 1]);
      ProgressBounds(cfg, run.states[cuts[|cuts| - 1]]);
    }
  }

  lemma ExitProgress(cfg: Config, s: State)
    requires Inv(cfg, s) && s.coord.Exit?
    ensures Progress(s) == 13 * cfg.workers + 9 + Budget(cfg)
  {
    assert forall i :: 0 <= i < |s.workers| ==> InPhase(s.coord, s.round, s.workers[i]);
    SumUniform(s.workers, 13 * (cfg.rounds + 1), Rank);
    Spread(cfg.workers, cfg.rounds);
  }
}
