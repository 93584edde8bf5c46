/** The end of xh_core_clear's wait for the refresh thread (xhook/xh_core.c): when no clear overlaps
    another clear or the creation of a refresh thread, the join is of a thread not joined before, and
    it ends. */
module RefreshStop {
  import opened Options
  import opened RefreshThread

  /** What may overlap with a clear: another clear, the creation of a refresh thread. */
  datatype Overlaps = Overlaps(clears: bool, creation: bool)

  ghost predicate Allowed(o: Overlaps, pc: map<Tid, Pc>) {
    && (!o.clears ==> forall t, u :: t in pc && u in pc && t != u && pc[t].Clear? ==> !pc[u].Clear?)
    && (!o.creation ==> forall t, u :: t in pc && u in pc && pc[t].Clear? ==> !MakesThread(pc[u]))
  }

  /** Neither. */
  ghost predicate Alone(s: State) {
    Allowed(Overlaps(false, false), s.pc)
  }

  /** Whoever clear joins is a refresh thread that has not been joined and does not sleep. */
  ghost predicate JoinSound(s: State) {
    forall t, w :: t in s.pc && s.pc[t] == Clear(JoinWorker(w)) ==> MayJoin(s, w)
  }

  predicate MayJoin(s: State, w: Tid) {
    w in s.pc && s.pc[w].Worker? && s.pc[w] != Worker(Joined) && s.pc[w] != Worker(Asleep)
  }

  /** Where the refresh thread is, unless it has been joined or there is none. */
  function LiveAt(s: State): Option<WorkerPc> {
    if Known(s) && s.pc[s.flags.worker] != Worker(Joined) then Some(s.pc[s.flags.worker].work) else None
  }

  // ---------- the invariant ----------

  /** Places at which the flags and the refresh thread disagree for a while. */
  datatype Kind = Plain | Made | Stopping | Stopped

  function KindOf(pc: Pc): Kind {
    match pc
    case Async(a) => if a == SetAsyncOk then Made else Plain
    case Clear(c) =>
      if c == SignalStop || c == UnlockStop || c == ReadThread || c.JoinWorker? then Stopping
      else if c == ResetAsyncOk then Stopped else Plain
    case _ => Plain
  }

  /** At most one thread is at such a place. */
  datatype Phase = Phase(kind: Kind, thread: Tid)

  predicate PhaseOk(pc: map<Tid, Pc>, p: Phase) {
    && (forall t :: t in pc ==> KindOf(pc[t]) == if t == p.thread then p.kind else Plain)
    && (p.kind != Plain ==> p.thread in pc)
  }

  predicate FlagsOk(f: Flags, live: Option<WorkerPc>, k: Kind) {
    && (live.Some? ==> f.asyncInited && (f.asyncInitOk || k == Made) && live.value != Joined)
    && (live.Some? && k != Stopping ==> f.running && live.value != UnlockExit && live.value != WorkerPc.Done)
    && (f.asyncInitOk ==> live.Some? || k == Stopped)
    && (k == Stopping ==> live.Some? && !f.running)
    && (k == Stopped ==> live == None)
    && (k == Made ==> live.Some?)
  }

  predicate PlaceOk(f: Flags, live: Option<WorkerPc>, pc: Pc) {
    match pc
    case Async(a) =>
      && (a == SetAsync ==> !f.asyncInited)
      && (a == SetRunning || a == CreateThread || a == ResetRunning ==> live == None && f.asyncInited)
      && (a == CreateThread ==> f.running)
    case Clear(c) =>
      && (c == LockStop || c == StopRunning ==> live.Some?)
      && (c == UnlockStop || c == ReadThread || c.JoinWorker? ==> live != Some(Asleep))
      && (c.JoinWorker? ==> c.thread == f.worker)
      && (c == ResetAsync ==> live == None && !f.asyncInitOk)
    case _ => true
  }

  ghost predicate Inv(s: State, p: Phase) {
    && Locked(s) && PhaseOk(s.pc, p) && FlagsOk(s.flags, LiveAt(s), p.kind)
    && (forall t :: t in s.pc ==> PlaceOk(s.flags, LiveAt(s), s.pc[t]))
    && (forall t :: t in s.pc && s.pc[t].Worker? ==> t == s.flags.worker || s.pc[t] == Worker(Joined))
  }

  /** The phase after thread t goes on at pc. */
  function Moved(p: Phase, t: Tid, pc: Pc): Phase {
    if KindOf(pc) != Plain then Phase(KindOf(pc), t) else if p.thread == t then Phase(Plain, t) else p
  }

  // ---------- one step of a thread, by kind ----------

  /** Entry points and requests leave the flags of the refresh thread alone. */
  lemma CallerStep(f: Flags, pc: Pc, act: Act, pc': Pc, f': Flags)
    requires ThreadStep(f, pc, act, pc', f') && (pc.Idle? || pc.Init?)
    ensures f'.asyncInited == f.asyncInited && f'.asyncInitOk == f.asyncInitOk && f'.running == f.running
    ensures f'.worker == f.worker && KindOf(pc') == Plain && !pc'.Worker? && act != Signal && !act.Create? && !act.Join?
    ensures forall live :: PlaceOk(f', live, pc')
  {
    hide WorkerStep, ClearStep, AsyncOnceStep, RequestStep;
  }

  lemma RequestMoves(f: Flags, at: RequestPc, act: Act, pc': Pc, f': Flags)
    requires RequestStep(f, at, act, pc', f')
    ensures f'.asyncInited == f.asyncInited && f'.asyncInitOk == f.asyncInitOk && f'.running == f.running
    ensures f'.worker == f.worker && (pc'.Idle? || pc'.Request?) && !act.Create? && !act.Join?
  {
  }

  /** A step of xh_core_init_async_once that creates no thread. */
  lemma AsyncStep(f: Flags, at: AsyncPc, act: Act, pc': Pc, f': Flags, live: Option<WorkerPc>, k: Kind)
    requires AsyncOnceStep(f, at, act, pc', f') && !act.Create?
    requires FlagsOk(f, live, k) && PlaceOk(f, live, Async(at)) && k != Stopping && k != Stopped
    requires KindOf(Async(at)) != Plain ==> k == Made
    ensures FlagsOk(f', live, if KindOf(Async(at)) == Made then Plain else k) && PlaceOk(f', live, pc')
    ensures f'.worker == f.worker && KindOf(pc') == Plain && !pc'.Worker? && act != Signal && !act.Join?
    ensures f'.asyncInited == f.asyncInited || HoldsCore(Async(at))
    ensures f'.running == f.running || HoldsCore(Async(at))
  {
  }

  lemma AsyncCreates(f: Flags, at: AsyncPc, act: Act, pc': Pc, f': Flags, live: Option<WorkerPc>, k: Kind)
    requires AsyncOnceStep(f, at, act, pc', f') && act.Create?
    requires FlagsOk(f, live, k) && PlaceOk(f, live, Async(at)) && k != Stopping && k != Stopped
    ensures at == CreateThread && f' == f.(worker := act.new') && live == None
    ensures FlagsOk(f', Some(LoopTest), Made) && pc' == Async(SetAsyncOk) && KindOf(pc') == Made
  {
  }

  /** A step of clear other than its signal and its join. */
  lemma ClearPlain(f: Flags, at: ClearPc, act: Act, pc': Pc, f': Flags, live: Option<WorkerPc>, k: Kind)
    requires ClearStep(f, at, act, pc', f') && act != Signal && !act.Join?
    requires FlagsOk(f, live, k) && PlaceOk(f, live, Clear(at)) && k == KindOf(Clear(at))
    ensures FlagsOk(f', live, KindOf(pc')) && PlaceOk(f', live, pc')
    ensures f'.worker == f.worker && !pc'.Worker? && !act.Create?
  {
  }

  lemma ClearSignals(f: Flags, at: ClearPc, pc': Pc, f': Flags)
    requires ClearStep(f, at, Signal, pc', f')
    ensures at == SignalStop && pc' == Clear(UnlockStop) && f' == f
  {
  }

  lemma ClearJoins(f: Flags, at: ClearPc, act: Act, pc': Pc, f': Flags)
    requires ClearStep(f, at, act, pc', f') && act.Join?
    ensures at == JoinWorker(act.joined) && pc' == Clear(ResetAsyncOk) && f' == f
  {
  }

  lemma WorkerMoves(f: Flags, at: WorkerPc, act: Act, pc': Pc, f': Flags, k: Kind)
    requires WorkerStep(f, at, act, pc', f') && FlagsOk(f, Some(at), k)
    ensures pc'.Worker? && FlagsOk(f', Some(pc'.work), k)
    ensures pc'.work == Asleep ==> f.running
    ensures f'.asyncInited == f.asyncInited && f'.asyncInitOk == f.asyncInitOk && f'.running == f.running
    ensures f'.worker == f.worker && act != Signal && !act.Create? && !act.Join? && pc' != Worker(Joined)
  {
  }

  // ---------- the phase ----------

  lemma PhaseMoves(pc: map<Tid, Pc>, p: Phase, t: Tid, pc': Pc)
    requires PhaseOk(pc, p) && t in pc && (KindOf(pc') != Plain ==> p.kind == Plain || p.thread == t)
    ensures PhaseOk(pc[t := pc'], Moved(p, t, pc'))
  {
    hide KindOf;
  }

  // ---------- one step of the system ----------

  /** A change of flags that other threads' places do not notice. */
  lemma OthersKeep(f: Flags, live: Option<WorkerPc>, f': Flags, live': Option<WorkerPc>, pc: Pc)
    requires PlaceOk(f, live, pc) && f'.worker == f.worker
    requires HoldsCore(pc) ==> f'.asyncInited == f.asyncInited && f'.running == f.running
    requires pc.Clear? ==> f'.asyncInitOk == f.asyncInitOk
    requires (live == None <==> live' == None) && (pc.Clear? && live' == Some(Asleep) ==> live == Some(Asleep))
    ensures PlaceOk(f', live', pc)
  {
    AsyncPlacesHold();
  }

  lemma AsyncPlacesHold()
    ensures HoldsCore(Async(SetAsync)) && HoldsCore(Async(SetRunning)) && HoldsCore(Async(CreateThread))
    ensures HoldsCore(Async(ResetRunning)) && HoldsCore(Async(SetAsyncOk))
  {
  }

  /** A step that moves one thread, not the refresh thread. */
  lemma OneMoves(s: State, p: Phase, t: Tid, pc': Pc, s': State)
    requires Inv(s, p) && t in s.pc && s'.pc == s.pc[t := pc'] && Locked(s')
    requires !s.pc[t].Worker? && !pc'.Worker? && s'.flags.worker == s.flags.worker
    requires KindOf(pc') != Plain ==> p.kind == Plain || p.thread == t
    requires FlagsOk(s'.flags, LiveAt(s), Moved(p, t, pc').kind) && PlaceOk(s'.flags, LiveAt(s), pc')
    requires forall u :: u in s.pc && u != t ==> PlaceOk(s'.flags, LiveAt(s), s.pc[u])
    ensures Inv(s', Moved(p, t, pc'))
  {
    hide FlagsOk, PlaceOk, KindOf, Locked, PhaseOk;
    PhaseMoves(s.pc, p, t, pc');
    assert LiveAt(s') == LiveAt(s);
  }

  lemma KindsApart(s: State, p: Phase, t: Tid)
    requires Inv(s, p) && Alone(s) && t in s.pc
    ensures s.pc[t].Clear? ==> p.kind == KindOf(s.pc[t])
    ensures s.pc[t].Clear? && p.kind != Plain ==> p.thread == t
    ensures MakesThread(s.pc[t]) ==> p.kind == Plain || p.kind == Made
    ensures p.kind != Plain && p.thread == t ==> p.kind == KindOf(s.pc[t])
    ensures p.kind == Plain ==> KindOf(s.pc[t]) == Plain
    ensures KindOf(s.pc[t]) != Plain ==> p == Phase(KindOf(s.pc[t]), t)
    ensures p.kind == Made ==> p.thread in s.pc && s.pc[p.thread] == Async(SetAsyncOk)
  {
    hide Locked, FlagsOk, PlaceOk;
  }

  lemma EntrySys(s: State, p: Phase, t: Tid, act: Act, pc': Pc, f': Flags, s': State)
    requires Inv(s, p) && Alone(s) && StepWith(s, t, act, pc', f', s') && Locked(s')
    requires s.pc[t].Idle? || s.pc[t].Init? || (s.pc[t].Request? && act != Signal)
    ensures Inv(s', Moved(p, t, pc'))
  {
    hide Locked, PhaseOk, KindOf, ThreadStep, PlaceOk;
    KindsApart(s, p, t);
    FromRequest(s.flags, s.pc[t], act, pc', f');
    PlainKinds(s.pc[t]);
    forall u | u in s.pc && u != t ensures PlaceOk(f', LiveAt(s), s.pc[u]) {
      OthersKeep(s.flags, LiveAt(s), f', LiveAt(s), s.pc[u]);
    }
    OneMoves(s, p, t, pc', s');
  }

  /** Requests and entry points together. */
  lemma FromRequest(f: Flags, pc: Pc, act: Act, pc': Pc, f': Flags)
    requires ThreadStep(f, pc, act, pc', f') && (pc.Idle? || pc.Init? || pc.Request?)
    ensures f'.asyncInited == f.asyncInited && f'.asyncInitOk == f.asyncInitOk && f'.running == f.running
    ensures f'.worker == f.worker && KindOf(pc') == Plain && !pc'.Worker? && !act.Create? && !act.Join?
    ensures act == Signal ==> pc.Request?
    ensures forall live :: PlaceOk(f', live, pc')
  {
    hide InitOnceStep, RequestStep, CallStep, KindOf, PlaceOk;
    if pc.Request? {
      RequestMoves(f, pc.req, act, pc', f');
      PlainKinds(pc');
    } else {
      CallerStep(f, pc, act, pc', f');
    }
  }

  lemma PlainKinds(pc: Pc)
    ensures pc.Idle? || pc.Init? || pc.Request? || pc.Worker? ==> KindOf(pc) == Plain
    ensures pc.Idle? || pc.Request? ==> forall f, live :: PlaceOk(f, live, pc)
  {
  }

  /** Only threads with the core mutex change the flags of the refresh thread in the async entry. */
  lemma AsyncSys(s: State, p: Phase, t: Tid, act: Act, pc': Pc, f': Flags, s': State)
    requires Inv(s, p) && Alone(s) && StepWith(s, t, act, pc', f', s') && Locked(s')
    requires s.pc[t].Async? && MakesThread(s.pc[t]) && !act.Create?
    ensures Inv(s', Moved(p, t, pc'))
  {
    hide PhaseOk, KindOf, AsyncOnceStep, PlaceOk, FlagsOk, HoldsCore, HoldsRefresh, MakesThread;
    KindsApart(s, p, t);
    AsyncStep(s.flags, s.pc[t].async, act, pc', f', LiveAt(s), p.kind);
    forall u | u in s.pc && u != t ensures PlaceOk(f', LiveAt(s), s.pc[u]) {
      assert !s.pc[u].Clear?;
      OthersKeep(s.flags, LiveAt(s), f', LiveAt(s), s.pc[u]);
    }
    MadeEnds(s, p, t, pc');
    OneMoves(s, p, t, pc', s');
  }

  /** The rest of xh_core_init_async_once may well meet a clear. */
  lemma AsyncPasses(f: Flags, at: AsyncPc, act: Act, pc': Pc, f': Flags)
    requires AsyncOnceStep(f, at, act, pc', f') && !MakesThread(Async(at))
    ensures f' == f && KindOf(pc') == Plain && !pc'.Worker? && !act.Create? && !act.Join? && act != Signal
    ensures forall live :: PlaceOk(f', live, pc')
  {
  }

  lemma PassesSys(s: State, p: Phase, t: Tid, act: Act, pc': Pc, f': Flags, s': State)
    requires Inv(s, p) && Alone(s) && StepWith(s, t, act, pc', f', s') && Locked(s')
    requires s.pc[t].Async? && !MakesThread(s.pc[t])
    ensures Inv(s', Moved(p, t, pc'))
  {
    hide Locked, PhaseOk, KindOf, AsyncOnceStep, PlaceOk, FlagsOk, MakesThread;
    KindsApart(s, p, t);
    AsyncPasses(s.flags, s.pc[t].async, act, pc', f');
    PassingIsPlain(s.pc[t]);
    OneMoves(s, p, t, pc', s');
  }

  lemma PassingIsPlain(pc: Pc)
    requires pc.Async? && !MakesThread(pc)
    ensures KindOf(pc) == Plain
  {
  }

  lemma MadeEnds(s: State, p: Phase, t: Tid, pc': Pc)
    requires Inv(s, p) && Alone(s) && t in s.pc && MakesThread(s.pc[t]) && KindOf(pc') == Plain
    ensures Moved(p, t, pc').kind == if KindOf(s.pc[t]) == Made then Plain else p.kind
  {
    hide Locked, FlagsOk, PlaceOk;
  }

  lemma CreatesAt(f: Flags, at: AsyncPc, act: Act, pc': Pc, f': Flags)
    requires AsyncOnceStep(f, at, act, pc', f') && act.Create?
    ensures MakesThread(Async(at))
  {
  }

  lemma AsyncMakes(s: State, p: Phase, t: Tid, act: Act, pc': Pc, f': Flags, s': State)
    requires Inv(s, p) && Alone(s) && StepWith(s, t, act, pc', f', s') && Locked(s')
    requires s.pc[t].Async? && act.Create?
    ensures Inv(s', Phase(Made, t))
  {
    hide PhaseOk, KindOf, AsyncOnceStep, FlagsOk, HoldsCore, HoldsRefresh;
    CreatesAt(s.flags, s.pc[t].async, act, pc', f');
    KindsApart(s, p, t);
    AsyncCreates(s.flags, s.pc[t].async, act, pc', f', LiveAt(s), p.kind);
    AsyncPlacesHold();
    NewPhase(s.pc, p, t, act.new', pc');
    assert LiveAt(s') == Some(LoopTest);
  }

  lemma NewPhase(pc: map<Tid, Pc>, p: Phase, t: Tid, w: Tid, pc': Pc)
    requires PhaseOk(pc, p) && t in pc && w !in pc && KindOf(pc') == Made
    requires p.kind == Plain || p.thread == t
    ensures PhaseOk(pc[t := pc'][w := Worker(LoopTest)], Phase(Made, t))
  {
  }

  /** A signal wakes the refresh thread, if it sleeps, and nobody else can be asleep. */
  lemma WakesUp(s: State, p: Phase, t: Tid, pc': Pc, s': State)
    requires Inv(s, p) && t in s.pc && !s.pc[t].Worker? && !pc'.Worker?
    requires Signalled(s.pc[t := pc'], s'.pc) && s'.flags == s.flags
    ensures s'.pc.Keys == s.pc.Keys && s'.pc[t] == pc'
    ensures forall u :: u in s.pc && u != t && !s.pc[u].Worker? ==> s'.pc[u] == s.pc[u]
    ensures forall u :: u in s'.pc && s'.pc[u].Worker? ==> u == s.flags.worker || s'.pc[u] == Worker(Joined)
    ensures LiveAt(s') == if LiveAt(s) == Some(Asleep) then Some(Woken) else LiveAt(s)
  {
    hide Locked, PhaseOk, FlagsOk, PlaceOk;
    var w, mid := s.flags.worker, s.pc[t := pc'];
    if LiveAt(s) == Some(Asleep) {
      assert mid[w] == Worker(Asleep);
      assert forall u :: u in mid && mid[u] == Worker(Asleep) ==> u == w;
    }
  }

  lemma PhaseWakes(pc: map<Tid, Pc>, pc': map<Tid, Pc>, p: Phase)
    requires PhaseOk(pc, p) && pc'.Keys == pc.Keys
    requires forall t :: t in pc ==> pc'[t] == pc[t] || (pc[t].Worker? && pc'[t].Worker?)
    ensures PhaseOk(pc', p)
  {
  }

  lemma FlagsWake(f: Flags, k: Kind)
    ensures FlagsOk(f, Some(Asleep), k) ==> FlagsOk(f, Some(Woken), k)
  {
  }

  lemma SignalSys(s: State, p: Phase, t: Tid, pc': Pc, f': Flags, s': State)
    requires Inv(s, p) && Alone(s) && StepWith(s, t, Signal, pc', f', s') && Locked(s') && s'.flags == s.flags
    requires !s.pc[t].Worker? && !pc'.Worker? && Moved(p, t, pc').kind == p.kind
    requires KindOf(pc') != Plain ==> p.kind == Plain || p.thread == t
    requires forall live :: live != Some(Asleep) ==> PlaceOk(f', live, pc')
    ensures Inv(s', Moved(p, t, pc'))
  {
    hide Locked, ThreadStep, PhaseOk, KindOf, PlaceOk, FlagsOk, Signalled, HoldsCore;
    PhaseMoves(s.pc, p, t, pc');
    WakesUp(s, p, t, pc', s');
    SignalKeepsKinds(s.pc[t := pc'], s'.pc);
    PhaseWakes(s.pc[t := pc'], s'.pc, Moved(p, t, pc'));
    FlagsWake(s.flags, p.kind);
    forall u | u in s'.pc && u != t ensures PlaceOk(s'.flags, LiveAt(s'), s'.pc[u]) {
      if s.pc[u].Worker? { WorkersAnywhere(s'.flags, LiveAt(s'), s'.pc[u]); }
      else { OthersKeep(s.flags, LiveAt(s), s'.flags, LiveAt(s'), s.pc[u]); }
    }
  }

  lemma WorkersAnywhere(f: Flags, live: Option<WorkerPc>, pc: Pc)
    ensures pc.Worker? || pc.Idle? ==> PlaceOk(f, live, pc)
  {
  }

  lemma RequestSignal(s: State, p: Phase, t: Tid, pc': Pc, f': Flags, s': State)
    requires Inv(s, p) && Alone(s) && StepWith(s, t, Signal, pc', f', s') && Locked(s') && s.pc[t].Request?
    ensures Inv(s', Moved(p, t, pc'))
  {
    hide Locked, PhaseOk, KindOf, PlaceOk, FlagsOk, Signalled, Inv;
    PhaseOfPlain(s, p, t);
    FromRequest(s.flags, s.pc[t], Signal, pc', f');
    SignalKeepsFlags(s.flags, s.pc[t].req, pc', f');
    SignalSys(s, p, t, pc', f', s');
  }

  lemma SignalKeepsFlags(f: Flags, at: RequestPc, pc': Pc, f': Flags)
    requires RequestStep(f, at, Signal, pc', f')
    ensures f' == f
  {
  }

  lemma PhaseOfPlain(s: State, p: Phase, t: Tid)
    requires Inv(s, p) && t in s.pc && s.pc[t].Request?
    ensures p.kind != Plain ==> p.thread != t
  {
    hide Locked, PlaceOk, FlagsOk;
  }

  // ---------- clear ----------

  /** No other thread's place depends on the flags while one is in clear. */
  lemma OthersIdle(s: State, t: Tid, u: Tid, f: Flags, live: Option<WorkerPc>)
    requires Alone(s) && t in s.pc && s.pc[t].Clear? && u in s.pc && u != t
    ensures PlaceOk(f, live, s.pc[u])
  {
  }

  lemma ClearSys(s: State, p: Phase, t: Tid, act: Act, pc': Pc, f': Flags, s': State)
    requires Inv(s, p) && Alone(s) && StepWith(s, t, act, pc', f', s') && Locked(s')
    requires s.pc[t].Clear? && act != Signal && !act.Join?
    ensures Inv(s', Moved(p, t, pc'))
  {
    hide Locked, PhaseOk, KindOf, PlaceOk, FlagsOk, ClearStep;
    KindsApart(s, p, t);
    ClearPlain(s.flags, s.pc[t].clear, act, pc', f', LiveAt(s), p.kind);
    forall u | u in s.pc && u != t ensures PlaceOk(f', LiveAt(s), s.pc[u]) {
      OthersIdle(s, t, u, f', LiveAt(s));
    }
    OneMoves(s, p, t, pc', s');
  }

  lemma ClearSignal(s: State, p: Phase, t: Tid, pc': Pc, f': Flags, s': State)
    requires Inv(s, p) && Alone(s) && StepWith(s, t, Signal, pc', f', s') && Locked(s') && s.pc[t].Clear?
    ensures Inv(s', Moved(p, t, pc'))
  {
    hide Locked, PhaseOk, PlaceOk, FlagsOk, Signalled, ClearStep, Inv;
    KindsApart(s, p, t);
    ClearSignals(s.flags, s.pc[t].clear, pc', f');
    AfterSignal(f');
    SignalSys(s, p, t, pc', f', s');
  }

  lemma AfterSignal(f: Flags)
    ensures forall live :: live != Some(Asleep) ==> PlaceOk(f, live, Clear(UnlockStop))
  {
  }

  lemma ClearJoin(s: State, p: Phase, t: Tid, act: Act, pc': Pc, f': Flags, s': State)
    requires Inv(s, p) && Alone(s) && StepWith(s, t, act, pc', f', s') && Locked(s') && s.pc[t].Clear? && act.Join?
    ensures Inv(s', Phase(Stopped, t))
  {
    hide Locked, ClearStep;
    KindsApart(s, p, t);
    ClearJoins(s.flags, s.pc[t].clear, act, pc', f');
    assert act.joined == s.flags.worker && s'.flags == s.flags;
    assert LiveAt(s') == None;
    forall u | u in s'.pc && u != t ensures PlaceOk(s'.flags, None, s'.pc[u]) {
      if u != act.joined { OthersIdle(s, t, u, s'.flags, None); }
    }
  }

  // ---------- the refresh thread ----------

  lemma WorkerSys(s: State, p: Phase, t: Tid, act: Act, pc': Pc, f': Flags, s': State)
    requires Inv(s, p) && Alone(s) && StepWith(s, t, act, pc', f', s') && Locked(s') && s.pc[t].Worker?
    ensures Inv(s', p) && t == s.flags.worker && s.pc[t] != Worker(Joined)
    ensures LiveAt(s').Some?
  {
    hide Locked, KindOf, PhaseOk, FlagsOk, PlaceOk, WorkerStep, HoldsCore;
    JoinedRests(s.flags, s.pc[t], act, pc', f');
    WorkerMoves(s.flags, s.pc[t].work, act, pc', f', p.kind);
    PlainKinds(pc');
    PlainKinds(s.pc[t]);
    assert LiveAt(s') == Some(pc'.work) && LiveAt(s) == Some(s.pc[t].work);
    assert s'.pc == s.pc[t := pc'];
    PhaseWakes(s.pc, s'.pc, p);
    forall u | u in s'.pc ensures PlaceOk(f', LiveAt(s'), s'.pc[u]) {
      if u == t { WorkersAnywhere(f', LiveAt(s'), pc'); }
      else if pc'.work == Asleep && s.pc[t].work != Asleep { StaysAwake(s, p, u, f'); }
      else { OthersKeep(s.flags, LiveAt(s), f', LiveAt(s'), s.pc[u]); }
    }
  }

  lemma JoinedRests(f: Flags, pc: Pc, act: Act, pc': Pc, f': Flags)
    requires ThreadStep(f, pc, act, pc', f') && pc.Worker?
    ensures WorkerStep(f, pc.work, act, pc', f') && pc != Worker(Joined)
  {
  }

  /** The refresh thread falls asleep only while it is to run, and then no clear waits for it. */
  lemma StaysAwake(s: State, p: Phase, u: Tid, f': Flags)
    requires Inv(s, p) && u in s.pc && s.flags.running && LiveAt(s).Some?
    requires f'.asyncInited == s.flags.asyncInited && f'.asyncInitOk == s.flags.asyncInitOk
    requires f'.running == s.flags.running && f'.worker == s.flags.worker
    ensures PlaceOk(f', Some(Asleep), s.pc[u])
  {
    hide Locked;
  }

  lemma ArrivalSys(s: State, p: Phase, t: Tid, s': State)
    requires Inv(s, p) && Arrives(s, t, s') && Locked(s')
    ensures Inv(s', if p.kind == Plain then Phase(Plain, t) else p)
  {
    hide Locked, FlagsOk, PlaceOk;
    WorkersAnywhere(s'.flags, LiveAt(s'), Idle);
    assert LiveAt(s') == LiveAt(s);
  }

  lemma InvStep(s: State, p: Phase, s': State) returns (p': Phase)
    requires Inv(s, p) && Alone(s) && Next(s, s')
    ensures Inv(s', p')
  {
    hide ThreadStep, Does, Inv, Alone;
    assert Locked(s) by { InvLocked(s, p); }
    LockedStep(s, s');
    if t :| Step(s, t, s') {
      var act, pc', f' :| StepWith(s, t, act, pc', f', s');
      match s.pc[t]
      case Worker(_) => WorkerSys(s, p, t, act, pc', f', s'); p' := p;
      case Async(_) =>
        if act.Create? { AsyncMakes(s, p, t, act, pc', f', s'); p' := Phase(Made, t); }
        else if !MakesThread(s.pc[t]) { PassesSys(s, p, t, act, pc', f', s'); p' := Moved(p, t, pc'); }
        else { AsyncSys(s, p, t, act, pc', f', s'); p' := Moved(p, t, pc'); }
      case Clear(_) =>
        if act == Signal { ClearSignal(s, p, t, pc', f', s'); p' := Moved(p, t, pc'); }
        else if act.Join? { ClearJoin(s, p, t, act, pc', f', s'); p' := Phase(Stopped, t); }
        else { ClearSys(s, p, t, act, pc', f', s'); p' := Moved(p, t, pc'); }
      case _ =>
        if act == Signal && s.pc[t].Request? { RequestSignal(s, p, t, pc', f', s'); }
        else { EntrySys(s, p, t, act, pc', f', s'); }
        p' := Moved(p, t, pc');
    } else {
      var t :| Arrives(s, t, s');
      ArrivalSys(s, p, t, s');
      p' := if p.kind == Plain then Phase(Plain, t) else p;
    }
  }

  lemma InvLocked(s: State, p: Phase)
    requires Inv(s, p)
    ensures Locked(s)
  {
  }

  lemma {:induction false} RunInv(states: seq<State>, i: nat) returns (p: Phase)
    requires Run(states) && i < |states| && forall j :: 0 <= j < i ==> Alone(states[j])
    ensures Inv(states[i], p)
  {
    if i == 0 {
      p := Phase(Plain, 0);
    } else {
      p := RunInv(states, i - 1);
      p := InvStep(states[i - 1], p, states[i]);
    }
  }

  // ---------- the join ----------

  /** The thread that clear joins is the refresh thread, has not been joined before, has been told to
      stop, and is awake. */
  lemma JoinIsFirst(states: seq<State>, i: nat, t: Tid, w: Tid)
    requires Run(states) && i < |states| && forall j :: 0 <= j < i ==> Alone(states[j])
    requires t in states[i].pc && states[i].pc[t] == Clear(JoinWorker(w))
    ensures var s := states[i];
      && w == s.flags.worker && w in s.pc && s.pc[w].Worker? && s.pc[w] != Worker(Joined)
      && s.pc[w] != Worker(Asleep) && !s.flags.running
  {
    hide Locked;
    var p := RunInv(states, i);
    assert PlaceOk(states[i].flags, LiveAt(states[i]), states[i].pc[t]);
  }

  lemma AloneIsSound(states: seq<State>, i: nat)
    requires Run(states) && i < |states| && forall j :: 0 <= j < |states| ==> Alone(states[j])
    ensures JoinSound(states[i])
  {
    hide Run, Alone;
    forall t, w | t in states[i].pc && states[i].pc[t] == Clear(JoinWorker(w)) ensures MayJoin(states[i], w) {
      JoinIsFirst(states, i, t, w);
    }
  }

  /** How many of its own steps a refresh thread that is to stop needs to end, at most. */
  function StepsLeft(w: WorkerPc): nat {
    match w
    case Joined => 0
    case Done => 0
    case UnlockExit => 1
    case LoopTest => 1
    case Pass => 2
    case LockPass => 3
    case UnlockTake => 4
    case TakeDo => 5
    case WaitTest => 2
    case LockLoop => 3
    case Woken => 3
    case Asleep => 4
  }

  /** A step of the refresh thread once it is to stop. */
  lemma StopsSooner(f: Flags, at: WorkerPc, act: Act, pc': Pc, f': Flags)
    requires WorkerStep(f, at, act, pc', f') && !f.running
    ensures pc'.Worker? && StepsLeft(pc'.work) < StepsLeft(at) && act != Signal && !act.Join? && !act.Create?
  {
  }

  /** While clear waits, each step of the refresh thread brings its end nearer and no other one keeps
      it off. */
  lemma Closer(s: State, p: Phase, t: Tid, w: Tid, s': State)
    requires Inv(s, p) && Alone(s) && Next(s, s') && t in s.pc && t in s'.pc
    requires s.pc[t] == Clear(JoinWorker(w)) && s'.pc[t] == Clear(JoinWorker(w))
    ensures w in s.pc && s.pc[w].Worker? && w in s'.pc && s'.pc[w].Worker?
    ensures StepsLeft(s'.pc[w].work) + (if Step(s, w, s') then 1 else 0) <= StepsLeft(s.pc[w].work)
  {
    hide Inv, Alone, StepWith, StepsLeft;
    WaitedFor(s, p, t, w);
    if Step(s, w, s') {
      var act, pc', f' :| StepWith(s, w, act, pc', f', s');
      CloserByOwn(s, w, act, pc', f', s');
    } else if u :| Step(s, u, s') {
      var act, pc', f' :| StepWith(s, u, act, pc', f', s');
      AsNear(s, t, u, w, act, pc', f', s');
    }
  }

  lemma WaitedFor(s: State, p: Phase, t: Tid, w: Tid)
    requires Inv(s, p) && t in s.pc && s.pc[t] == Clear(JoinWorker(w))
    ensures w in s.pc && s.pc[w].Worker? && s.pc[w] != Worker(Asleep) && s.pc[w] != Worker(Joined) && !s.flags.running
    ensures w == s.flags.worker
  {
    hide Locked;
    assert PlaceOk(s.flags, LiveAt(s), s.pc[t]) && p.kind == Stopping;
  }

  lemma CloserByOwn(s: State, w: Tid, act: Act, pc': Pc, f': Flags, s': State)
    requires StepWith(s, w, act, pc', f', s') && s.pc[w].Worker? && !s.flags.running
    ensures w in s'.pc && s'.pc[w].Worker? && StepsLeft(s'.pc[w].work) < StepsLeft(s.pc[w].work)
  {
    hide ThreadStep, StepsLeft, Signalled;
    JoinedRests(s.flags, s.pc[w], act, pc', f');
    StopsSooner(s.flags, s.pc[w].work, act, pc', f');
  }

  lemma AsNear(s: State, t: Tid, u: Tid, w: Tid, act: Act, pc': Pc, f': Flags, s': State)
    requires Alone(s) && StepWith(s, u, act, pc', f', s') && u != w && t in s.pc && w in s.pc && t in s'.pc
    requires s.pc[t] == Clear(JoinWorker(w)) && s'.pc[t] == s.pc[t] && s.pc[w].Worker? && s.pc[w] != Worker(Asleep)
    ensures w in s'.pc && s'.pc[w] == s.pc[w]
  {
    hide ThreadStep, Signalled;
    if act == Signal { OnlyWakes(s.pc[u := pc'], s'.pc, w); }
    if act.Join? { OnlyClearJoins(s.flags, s.pc[u], act, pc', f'); }
  }

  lemma OnlyWakes(pc: map<Tid, Pc>, pc': map<Tid, Pc>, w: Tid)
    requires Signalled(pc, pc') && w in pc && pc[w] != Worker(Asleep)
    ensures w in pc' && pc'[w] == pc[w]
  {
  }

  lemma OnlyClearJoins(f: Flags, pc: Pc, act: Act, pc': Pc, f': Flags)
    requires ThreadStep(f, pc, act, pc', f') && act.Join?
    ensures pc == Clear(JoinWorker(act.joined)) && pc' != pc
  {
    StepKnows(f, pc, act, pc', f');
  }

  /** Clear's join ends: when the refresh thread has taken the steps it needs, it has ended. */
  lemma {:induction false} JoinEnds(states: seq<State>, i: nat, j: nat, t: Tid, w: Tid) returns (k: nat)
    requires Run(states) && i <= j < |states| && forall n :: 0 <= n < j ==> Alone(states[n])
    requires forall n :: i <= n <= j ==> t in states[n].pc && states[n].pc[t] == Clear(JoinWorker(w))
    requires w in states[i].pc && states[i].pc[w].Worker?
    requires StepsOf(states, w, i, j) >= StepsLeft(states[i].pc[w].work)
    ensures i <= k <= j && w in states[k].pc && states[k].pc[w] == Worker(WorkerPc.Done)
    decreases j - i
  {
    hide Inv, Next, Step, StepsLeft, Alone;
    JoinIsFirst(states, i, t, w);
    if i == j || states[i].pc[w] == Worker(WorkerPc.Done) {
      NoneLeft(states[i].pc[w].work);
      k := i;
    } else {
      var p := RunInv(states, i);
      Closer(states[i], p, t, w, states[i + 1]);
      k := JoinEnds(states, i + 1, j, t, w);
    }
  }

  lemma NoneLeft(w: WorkerPc)
    ensures StepsLeft(w) == 0 ==> w == Joined || w == WorkerPc.Done
  {
  }
}
