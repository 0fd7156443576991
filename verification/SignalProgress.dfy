/**
 * That the signal stress program (SignalStress) starts its workers together, takes boundedly many
 * steps, and goes on until it ends, unless a mutex call has failed.
 */
module SignalProgress {
  import opened Tally
  import opened SignalStress

  function Arrived(w: Worker): nat { One(!w.pc.Arrive?) }

  predicate PastStart(w: Worker) { !w.pc.Arrive? && !w.pc.AwaitStart? }

  /** The workers are let go once all of them have arrived, and not before. */
  predicate Started(cfg: Config, s: State) {
    && |s.workers| == cfg.workers
    && s.ready == Sum(s.workers, Arrived)
    && (s.start == 0 || s.start == 1) && (s.start == 1 <==> s.coord.Kill? || s.coord.Join? || s.coord.Exit?)
    && (!s.coord.AwaitReady? ==> s.ready == cfg.workers)
    && (forall i :: 0 <= i < |s.workers| && PastStart(s.workers[i]) ==> s.start == 1)
  }

  /** How a worker arrives and starts. */
  predicate Arrives(s: State, s': State, w: Worker, w': Worker) {
    && s'.ready == (if w.pc.Arrive? then Inc(s.ready) else s.ready) && Arrived(w') == 1
    && s'.start == s.start && s'.coord == s.coord
    && (w.pc.Arrive? ==> w'.pc.AwaitStart?)
    && (w.pc.AwaitStart? && s.start != 1 ==> w'.pc.AwaitStart?)
  }

  lemma WorkerArrives(cfg: Config, s: State, i: nat, ok: bool)
    requires i < |s.workers|
    ensures Arrives(s, WorkerStep(cfg, s, i, ok), s.workers[i], WorkerStep(cfg, s, i, ok).workers[i])
  {
  }

  lemma ArrivalsFit(ws: seq<Worker>, i: nat)
    requires i < |ws| < WORD && ws[i].pc.Arrive?
    ensures Sum(ws, Arrived) < |ws|
  {
    var arrived := ws[i].(pc := AwaitStart);
    SumUpdate(ws, i, arrived, Arrived);
    SumAtMost(ws[i := arrived], 1, Arrived);
  }

  lemma ThreadKeepsStarted(cfg: Config, s: State, i: nat, ok: bool)
    requires cfg.Valid() && Started(cfg, s) && i < |s.workers|
    ensures Started(cfg, WorkerStep(cfg, s, i, ok))
  {
    var s' := WorkerStep(cfg, s, i, ok);
    WorkerMoves(cfg, s, i, ok);
    WorkerArrives(cfg, s, i, ok);
    SumUpdate(s.workers, i, s'.workers[i], Arrived);
    if s.workers[i].pc.Arrive? {
      ArrivalsFit(s.workers, i);
    }
    hide WorkerStep;
  }

  /** A signal given or taken moves nobody. */
  lemma SignalKeepsStarted(cfg: Config, s: State, i: nat, pending: bool, s': State)
    requires Started(cfg, s) && i < |s.workers| && s'.workers == s.workers[i := s.workers[i].(pending := pending)]
    requires s'.ready == s.ready && s'.start == s.start && s'.coord == s.coord
    ensures Started(cfg, s')
  {
    SumUpdate(s.workers, i, s'.workers[i], Arrived);
  }

  lemma StepKeepsStarted(cfg: Config, s: State, a: Action)
    requires cfg.Valid() && Started(cfg, s)
    ensures Started(cfg, Step(cfg, s, a))
  {
    match a
    case Thread(i, ok) => if i < |s.workers| { ThreadKeepsStarted(cfg, s, i, ok); }
    case Handler(i) => if Handles(cfg, s, a) { SignalKeepsStarted(cfg, s, i, false, Step(cfg, s, a)); }
    case Coordinator(ok) =>
      if Kills(cfg, s, a) && ok {
        SignalKeepsStarted(cfg, s, s.sent % cfg.workers, true, Step(cfg, s, a));
      }
  }

  /** So in every state of every run a worker past the start has all the others arrived. */
  lemma {:induction false} StartsTogether(cfg: Config, run: Run, n: nat)
    requires cfg.Valid() && IsRun(cfg, run) && n <= |run.acts|
    ensures Started(cfg, run.states[n])
    ensures var ws := run.states[n].workers;
      forall i, j :: 0 <= i < |ws| && 0 <= j < |ws| && PastStart(ws[i]) ==> !ws[j].pc.Arrive?
  {
    if n == 0 {
      SumUniform(Init(cfg).workers, 0, Arrived);
    } else {
      StartsTogether(cfg, run, n - 1);
      StepKeepsStarted(cfg, run.states[n - 1], run.acts[n - 1]);
    }
    hide Step, Init;
    if run.states[n].start == 1 {
      NobodyIsLate(cfg, run.states[n]);
    }
  }

  lemma NobodyIsLate(cfg: Config, s: State)
    requires cfg.Valid() && Started(cfg, s) && s.start == 1
    ensures forall j :: 0 <= j < cfg.workers ==> !s.workers[j].pc.Arrive?
  {
    forall j | 0 <= j < cfg.workers ensures !s.workers[j].pc.Arrive? {
      if s.workers[j].pc.Arrive? {
        ArrivalsFit(s.workers, j);
      }
    }
  }

  // Every step of a thread that changes anything brings the end nearer, and until the end there is one.

  function Rank(w: Worker): nat {
    6 * w.i + match w.pc
              case Arrive => 0 case AwaitStart => 1 case Lock => 2 case LockError => 3
              case Load => 4 case Store => 5 case Unlock => 6 case UnlockError => 7
  }

  function CoordIndex(c: CoordPc): nat {
    match c case AwaitReady => 0 case Release => 1 case Kill => 2 case Join => 3 case Exit => 4
  }

  function Progress(s: State): nat { Sum(s.workers, Rank) + s.sent + CoordIndex(s.coord) }

  predicate Changes(cfg: Config, s: State, a: Action) {
    cfg.Valid() && |s.workers| == cfg.workers && !a.Handler? && Step(cfg, s, a) != s
  }

  lemma WorkerRises(cfg: Config, s: State, i: nat, ok: bool)
    requires i < |s.workers|
    ensures var s' := WorkerStep(cfg, s, i, ok);
      s' == s || (Rank(s'.workers[i]) > Rank(s.workers[i]) && s'.sent == s.sent && s'.coord == s.coord)
  {
  }

  lemma StepProgresses(cfg: Config, s: State, a: Action)
    requires cfg.Valid() && |s.workers| == cfg.workers
    ensures Progress(Step(cfg, s, a)) >= Progress(s) + One(Changes(cfg, s, a))
  {
    var s' := Step(cfg, s, a);
    match a
    case Thread(i, ok) =>
      if i < |s.workers| && s' != s {
        WorkerMoves(cfg, s, i, ok);
        WorkerRises(cfg, s, i, ok);
        SumUpdate(s.workers, i, s'.workers[i], Rank);
      }
    case Handler(i) =>
      if Handles(cfg, s, a) { SumUpdate(s.workers, i, s'.workers[i], Rank); }
    case Coordinator(ok) =>
      if Kills(cfg, s, a) && ok {
        var k := s.sent % cfg.workers;
        SumUpdate(s.workers, k, s'.workers[k], Rank);
      }
  }

  lemma {:induction false} ChangesAreProgress(cfg: Config, run: Run, n: nat)
    requires cfg.Valid() && IsRun(cfg, run) && n <= |run.acts|
    ensures Occurrences(cfg, run, n, Changes) <= Progress(run.states[n])
  {
    hide Step, Progress, Changes;
    if n > 0 {
      ChangesAreProgress(cfg, run, n - 1);
      StepProgresses(cfg, run.states[n - 1], run.acts[n - 1]);
    }
  }

  /** A run takes no more than so many steps of its threads that change anything. */
  lemma EffectiveSteps(cfg: Config, run: Run)
    requires cfg.Valid() && IsRun(cfg, run)
    ensures Occurrences(cfg, run, |run.acts|, Changes) <= 6 * (cfg.workers * cfg.iterations) + 2 * cfg.workers + cfg.signals + 4
  {
    var n := |run.acts|;
    ChangesAreProgress(cfg, run, n);
    Reachable(cfg, run, n);
    AlwaysSending(cfg, run, n);
    hide IsRun, Changes;
    RanksFit(cfg, run.states[n]);
  }

  lemma RanksFit(cfg: Config, s: State)
    requires Bounded(cfg, s)
    ensures Sum(s.workers, Rank) <= 6 * (cfg.workers * cfg.iterations) + 2 * cfg.workers
  {
    SumAtMost(s.workers, 6 * cfg.iterations + 2, Rank);
    SixTimes(cfg.workers, cfg.iterations);
  }

  lemma SixTimes(x: nat, y: nat)
    ensures x * (6 * y + 2) == 6 * (x * y) + 2 * x
  {
  }

  /** The mutex is held by nobody that will let go, and someone wants it. */
  predicate Jammed(cfg: Config, s: State) {
    && cfg.exclusive && s.locked && s.coord.Join?
    && (forall i :: 0 <= i < |s.workers| ==> s.workers[i].pc.Lock?)
    && exists i :: 0 <= i < |s.workers| && s.workers[i].i < cfg.iterations
  }

  predicate StillRuns(cfg: Config, s: State, i: nat) {
    i < |s.workers| && !(s.workers[i].pc.Lock? && s.workers[i].i >= cfg.iterations)
  }

  lemma WorkerCanMove(cfg: Config, s: State, i: nat)
    requires StillRuns(cfg, s, i) && (s.workers[i].pc.AwaitStart? ==> s.start == 1)
    requires s.workers[i].pc.Lock? && cfg.exclusive ==> !s.locked
    ensures WorkerStep(cfg, s, i, true) != s
  {
    assert WorkerStep(cfg, s, i, true).workers[i].pc != s.workers[i].pc;
  }

  /** Unless it is jammed, every state before the end has a thread that can go on, if calls succeed when they may. */
  lemma SomeoneMoves(cfg: Config, s: State) returns (a: Action)
    requires cfg.Valid() && Started(cfg, s) && Sending(cfg, s) && !s.coord.Exit? && !Jammed(cfg, s)
    ensures !a.Handler? && a.ok && Changes(cfg, s, a)
  {
    a := Coordinator(true);
    if s.coord.AwaitReady? && s.ready != cfg.workers {
      if i: nat :| i < |s.workers| && s.workers[i].pc.Arrive? {
        a := Thread(i, true);
        WorkerCanMove(cfg, s, i);
      } else {
        SumUniform(s.workers, 1, Arrived);
      }
    } else if s.coord.Join? && exists i: nat :: StillRuns(cfg, s, i) {
      if i: nat :| StillRuns(cfg, s, i) && !s.workers[i].pc.Lock? {
        a := Thread(i, true);
        WorkerCanMove(cfg, s, i);
      } else {
        var i: nat :| StillRuns(cfg, s, i);
        a := Thread(i, true);
        WorkerCanMove(cfg, s, i);
      }
    } else {
      CoordinatorMoves(cfg, s);
    }
  }

  lemma CoordinatorMoves(cfg: Config, s: State)
    requires cfg.Valid() && |s.workers| == cfg.workers && !s.coord.Exit?
    requires s.coord.AwaitReady? ==> s.ready == cfg.workers
    requires s.coord.Join? ==> forall i: nat :: !StillRuns(cfg, s, i)
    ensures Changes(cfg, s, Coordinator(true))
  {
    var s' := Step(cfg, s, Coordinator(true));
    if s.coord.Join? {
      forall i | 0 <= i < |s.workers| ensures s.workers[i].pc == Lock && s.workers[i].i >= cfg.iterations {
        assert !StillRuns(cfg, s, i);
      }
    }
    assert s'.coord != s.coord || s'.sent != s.sent;
  }

  /** Deadlock, exactly. */
  lemma StuckIff(cfg: Config, s: State)
    requires cfg.Valid() && Started(cfg, s) && Sending(cfg, s) && !s.coord.Exit?
    ensures (forall a: Action :: !a.Handler? && a.ok ==> !Changes(cfg, s, a)) <==> Jammed(cfg, s)
  {
    if Jammed(cfg, s) {
      forall a: Action | !a.Handler? && a.ok ensures !Changes(cfg, s, a) {
        JammedIsStuck(cfg, s, a);
      }
    } else {
      var a := SomeoneMoves(cfg, s);
    }
  }

  lemma JammedIsStuck(cfg: Config, s: State, a: Action)
    requires Jammed(cfg, s) && !a.Handler? && a.ok
    ensures !Changes(cfg, s, a)
  {
  }

  /** With an excluding, error-free mutex the holder of the lock is inside, so nothing jams. */
  lemma StepKeepsHeld(cfg: Config, s: State, i: nat, ok: bool)
    requires cfg.errorFree && i < |s.workers| && (s.locked ==> exists j :: 0 <= j < |s.workers| && Inside(s.workers[j]))
    requires cfg.exclusive && Excluded(s)
    ensures var s' := WorkerStep(cfg, s, i, ok); s'.locked ==> exists j :: 0 <= j < |s'.workers| && Inside(s'.workers[j])
  {
    var s' := WorkerStep(cfg, s, i, ok);
    if s.locked && s'.locked {
      var j :| 0 <= j < |s.workers| && Inside(s.workers[j]);
      assert Inside(s'.workers[j]);
    } else if s'.locked {
      assert Inside(s'.workers[i]);
    }
  }

  lemma {:induction false} NeverJams(cfg: Config, run: Run, n: nat)
    requires cfg.Valid() && IsRun(cfg, run) && cfg.exclusive && cfg.errorFree && n <= |run.acts|
    ensures var s := run.states[n]; s.locked ==> exists j :: 0 <= j < |s.workers| && Inside(s.workers[j])
    ensures !Jammed(cfg, run.states[n])
  {
    if n > 0 {
      NeverJams(cfg, run, n - 1);
      AlwaysExcluded(cfg, run, n - 1);
      var s, a := run.states[n - 1], run.acts[n - 1];
      if a.Thread? && a.id < |s.workers| {
        StepKeepsHeld(cfg, s, a.id, a.ok);
      } else {
        OthersKeepHeld(cfg, s, a);
      }
    }
  }

  lemma OthersKeepHeld(cfg: Config, s: State, a: Action)
    requires cfg.Valid() && |s.workers| == cfg.workers && !(a.Thread? && a.id < |s.workers|)
    requires s.locked ==> exists j :: 0 <= j < |s.workers| && Inside(s.workers[j])
    ensures var s' := Step(cfg, s, a); s'.locked ==> exists j :: 0 <= j < |s'.workers| && Inside(s'.workers[j])
  {
    if s.locked {
      var j :| 0 <= j < |s.workers| && Inside(s.workers[j]);
      assert Inside(Step(cfg, s, a).workers[j]);
    }
  }
}
