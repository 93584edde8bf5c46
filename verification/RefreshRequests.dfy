/** No asynchronous refresh request is lost while no clear has begun (xhook/xh_core.c):
    a pass that starts after it follows, or is still on its way. */
module RefreshRequests {
  import opened Options
  import opened RefreshThread

  predicate NoClear(s: State) {
    forall t :: t in s.pc ==> !s.pc[t].Clear?
  }

  /** A request has been made since the latest start of a pass. */
  predicate Waiting(f: Flags) {
    f.served < f.requests
  }

  /** The worker has taken the request flag down and is about to start a pass. */
  predicate Committed(w: WorkerPc) {
    w == UnlockTake || w == LockPass
  }

  /** Where the worker is, if there is one. */
  function WorkerAt(s: State): Option<WorkerPc> {
    if Known(s) then Some(s.pc[s.flags.worker].work) else None
  }

  /** Places that only exist once the worker does. */
  predicate Needs(pc: Pc) {
    || pc == Async(SetAsyncOk) || pc == Request(LockRequest) || pc == Request(SetDo) || pc == Request(SignalDo)
    || pc == Request(UnlockRequest)
  }

  /** Places on the way to creating the worker, with the core mutex held. */
  predicate Creating(pc: Pc) {
    pc == Async(SetRunning) || pc == Async(CreateThread) || pc == Async(ResetRunning)
  }

  /** What the flags say, given where the worker is. */
  predicate FlagsOk(f: Flags, w: Option<WorkerPc>) {
    && (w.Some? ==>
          f.asyncInited && f.running && w.value != UnlockExit && w.value != WorkerPc.Done && w.value != Joined)
    && (f.asyncInitOk || f.pending ==> w.Some?)
    && f.served <= f.requests
    && (Waiting(f) ==> f.pending || (w.Some? && Committed(w.value)))
  }

  /** What a thread's place says, given the flags and whether there is a worker. */
  predicate PlaceOk(f: Flags, some: bool, pc: Pc) {
    && (Needs(pc) ==> some)
    && (Creating(pc) ==> !some && f.asyncInited) && (pc == Async(SetAsync) ==> !f.asyncInited)
    && (pc == Async(CreateThread) ==> f.running)
  }

  ghost predicate Inv(s: State) {
    && Locked(s)
    && FlagsOk(s.flags, WorkerAt(s))
    && (forall t :: t in s.pc ==> PlaceOk(s.flags, WorkerAt(s).Some?, s.pc[t]))
    && (forall t :: t in s.pc && s.pc[t].Worker? ==> t == s.flags.worker)
    && Awake(s)
  }

  /** The request flag is never up while the worker sleeps, except between the line that
      raises it and the signal, inside one critical section. */
  ghost predicate Awake(s: State) {
    s.flags.pending && WorkerAt(s) == Some(Asleep) ==>
      s.core.HeldBy? && s.core.thread in s.pc && s.pc[s.core.thread] == Request(SignalDo)
  }

  // ---------- one step of a thread, by kind ----------

  /** How a caller's step changes flags and place, for any worker place w. */
  predicate CallerKept(f: Flags, pc: Pc, act: Act, pc': Pc, f': Flags, w: Option<WorkerPc>) {
    && FlagsOk(f', w) && PlaceOk(f', w.Some?, pc') && f'.worker == f.worker
    && (f'.asyncInited == f.asyncInited || (f'.asyncInited && HoldsCore(pc)))
    && (f'.running == f.running || (HoldsCore(pc) && (f'.running || pc == Async(ResetRunning))))
    && (f'.pending && !f.pending ==> pc' == Request(SignalDo))
    && (act == Signal <==> pc == Request(SignalDo))
    && !act.Create? && !act.Join?
    && (HoldsCore(pc) && pc' != Request(SignalDo) ==> act != LockCore)
  }

  lemma AsyncKeeps(f: Flags, at: AsyncPc, act: Act, pc': Pc, f': Flags, w: Option<WorkerPc>)
    requires AsyncOnceStep(f, at, act, pc', f') && !act.Create?
    requires FlagsOk(f, w) && PlaceOk(f, w.Some?, Async(at))
    ensures CallerKept(f, Async(at), act, pc', f', w)
  {
  }

  lemma RequestKeeps(f: Flags, at: RequestPc, act: Act, pc': Pc, f': Flags, w: Option<WorkerPc>)
    requires RequestStep(f, at, act, pc', f')
    requires FlagsOk(f, w) && PlaceOk(f, w.Some?, Request(at))
    ensures CallerKept(f, Request(at), act, pc', f', w)
  {
  }

  lemma EntryKeeps(f: Flags, pc: Pc, act: Act, pc': Pc, f': Flags, w: Option<WorkerPc>)
    requires ThreadStep(f, pc, act, pc', f') && (pc.Idle? || pc.Init?)
    requires FlagsOk(f, w) && PlaceOk(f, w.Some?, pc)
    ensures CallerKept(f, pc, act, pc', f', w)
  {
  }

  lemma CallerKeeps(f: Flags, pc: Pc, act: Act, pc': Pc, f': Flags, w: Option<WorkerPc>)
    requires ThreadStep(f, pc, act, pc', f') && !pc.Worker? && !pc.Clear? && !act.Create?
    requires FlagsOk(f, w) && PlaceOk(f, w.Some?, pc)
    ensures CallerKept(f, pc, act, pc', f', w)
  {
    hide AsyncOnceStep, RequestStep, InitOnceStep, CallStep, CallerKept, FlagsOk, PlaceOk;
    match pc
    case Async(at) => AsyncKeeps(f, at, act, pc', f', w);
    case Request(at) => RequestKeeps(f, at, act, pc', f', w);
    case _ => EntryKeeps(f, pc, act, pc', f', w);
  }

  lemma CreateKeeps(f: Flags, pc: Pc, act: Act, pc': Pc, f': Flags, w: Option<WorkerPc>)
    requires ThreadStep(f, pc, act, pc', f') && act.Create? && !pc.Worker? && !pc.Clear?
    requires FlagsOk(f, w) && PlaceOk(f, w.Some?, pc)
    ensures w == None && pc == Async(CreateThread) && pc' == Async(SetAsyncOk) && f' == f.(worker := act.new')
    ensures FlagsOk(f', Some(LoopTest)) && PlaceOk(f', true, pc') && !f'.pending
  {
  }

  lemma WorkerKeeps(f: Flags, at: WorkerPc, act: Act, pc': Pc, f': Flags)
    requires WorkerStep(f, at, act, pc', f') && FlagsOk(f, Some(at))
    ensures pc'.Worker? && FlagsOk(f', Some(pc'.work))
    ensures f'.worker == f.worker && f'.asyncInited == f.asyncInited && f'.running == f.running
    ensures f'.pending && pc'.work == Asleep ==> f.pending && at == Asleep
    ensures act != Signal && !act.Create? && !act.Join?
  {
  }

  // ---------- the invariant over one step of the system ----------

  /** Other threads' places stay right when flags change under the core mutex. */
  lemma OthersKeep(f: Flags, f': Flags, pc: Pc, some: bool)
    requires PlaceOk(f, some, pc) && (f.asyncInited ==> f'.asyncInited)
    requires HoldsCore(pc) ==> f'.running == f.running && f'.asyncInited == f.asyncInited
    ensures PlaceOk(f', some, pc)
  {
  }

  lemma CallerPlain(s: State, t: Tid, act: Act, pc': Pc, f': Flags, s': State)
    requires Inv(s) && StepWith(s, t, act, pc', f', s') && !s.pc[t].Worker? && !s.pc[t].Clear?
    requires !act.Create? && act != Signal && Locked(s')
    ensures Inv(s')
  {
    hide ThreadStep, FlagsOk, PlaceOk, HoldsCore, HoldsRefresh, LocksLike;
    CallerKeeps(s.flags, s.pc[t], act, pc', f', WorkerAt(s));
    KindKept(s.flags, s.pc[t], act, pc', f');
    assert s'.pc == s.pc[t := pc'] && s'.flags == f';
    assert WorkerAt(s') == WorkerAt(s);
    forall u | u in s'.pc
      ensures PlaceOk(f', WorkerAt(s').Some?, s'.pc[u])
    {
      if u != t { OthersKeep(s.flags, f', s.pc[u], WorkerAt(s).Some?); }
    }
    CriticalPlaces();
  }

  lemma KindKept(f: Flags, pc: Pc, act: Act, pc': Pc, f': Flags)
    requires ThreadStep(f, pc, act, pc', f')
    ensures pc.Worker? == pc'.Worker? && LocksLike(pc, act, pc')
  {
    StepKnows(f, pc, act, pc', f');
    StepsLock(f, pc, act, pc', f');
  }

  lemma CriticalPlaces()
    ensures HoldsCore(Request(SignalDo)) && HoldsCore(Async(CreateThread)) && HoldsCore(Async(ResetRunning))
    ensures HoldsCore(Async(SetAsync)) && HoldsCore(Async(SetRunning)) && !HoldsCore(Worker(Asleep))
    ensures !HoldsCore(Worker(LoopTest))
  {
  }

  lemma Wakes(f: Flags)
    ensures FlagsOk(f, Some(Asleep)) ==> FlagsOk(f, Some(Woken))
  {
  }

  lemma CallerSignal(s: State, t: Tid, pc': Pc, f': Flags, s': State)
    requires Inv(s) && StepWith(s, t, Signal, pc', f', s') && !s.pc[t].Worker? && !s.pc[t].Clear? && Locked(s')
    ensures Inv(s')
  {
    hide ThreadStep, FlagsOk, PlaceOk, HoldsCore, HoldsRefresh, LocksLike;
    CallerKeeps(s.flags, s.pc[t], Signal, pc', f', WorkerAt(s));
    KindKept(s.flags, s.pc[t], Signal, pc', f');
    var w := s.flags.worker;
    if Known(s) && s.pc[w] == Worker(Asleep) {
      assert s.pc[t := pc'][w] == Worker(Asleep);
      assert s'.pc[w] == Worker(Woken);
      Wakes(f');
    }
    forall u | u in s'.pc
      ensures PlaceOk(f', WorkerAt(s').Some?, s'.pc[u])
    {
      WorkersNeedNothing(f', s'.pc[u]);
      if u != t && s'.pc[u] == s.pc[u] { OthersKeep(s.flags, f', s.pc[u], WorkerAt(s).Some?); }
    }
    CriticalPlaces();
  }

  lemma WorkersNeedNothing(f: Flags, pc: Pc)
    ensures pc.Worker? ==> PlaceOk(f, true, pc) && PlaceOk(f, false, pc)
    ensures pc.Idle? ==> PlaceOk(f, true, pc) && PlaceOk(f, false, pc)
  {
  }

  lemma CallerCreate(s: State, t: Tid, act: Act, pc': Pc, f': Flags, s': State)
    requires Inv(s) && StepWith(s, t, act, pc', f', s') && act.Create? && !s.pc[t].Worker? && !s.pc[t].Clear?
    requires Locked(s')
    ensures Inv(s')
  {
    hide ThreadStep, FlagsOk, HoldsCore, HoldsRefresh, LocksLike;
    CreateKeeps(s.flags, s.pc[t], act, pc', f', WorkerAt(s));
    KindKept(s.flags, s.pc[t], act, pc', f');
    CriticalPlaces();
    assert WorkerAt(s') == Some(LoopTest);
    forall u | u in s'.pc
      ensures PlaceOk(f', true, s'.pc[u])
    {
      if u != t && u != act.new' {
        assert !HoldsCore(s.pc[u]);
      }
    }
  }

  lemma WorkerMoves(s: State, t: Tid, act: Act, pc': Pc, f': Flags, s': State)
    requires Inv(s) && StepWith(s, t, act, pc', f', s') && s.pc[t].Worker? && Locked(s')
    ensures Inv(s')
  {
    hide ThreadStep, FlagsOk, PlaceOk, HoldsCore, HoldsRefresh, LocksLike, WorkerStep;
    var at := s.pc[t].work;
    WorkerOnly(s.flags, s.pc[t], act, pc', f');
    WorkerKeeps(s.flags, at, act, pc', f');
    assert s'.pc == s.pc[t := pc'] && s'.flags == f';
    forall u | u in s'.pc
      ensures PlaceOk(f', true, s'.pc[u])
    {
      if u != t { OthersKeep(s.flags, f', s.pc[u], true); } else { WorkersNeedNothing(f', pc'); }
    }
    CriticalPlaces();
  }

  lemma WorkerOnly(f: Flags, pc: Pc, act: Act, pc': Pc, f': Flags)
    requires ThreadStep(f, pc, act, pc', f') && pc.Worker?
    ensures WorkerStep(f, pc.work, act, pc', f')
  {
  }

  lemma Arrival(s: State, t: Tid, s': State)
    requires Inv(s) && Arrives(s, t, s') && Locked(s')
    ensures Inv(s')
  {
    hide FlagsOk, PlaceOk, HoldsCore, HoldsRefresh;
    assert WorkerAt(s') == WorkerAt(s);
    forall u | u in s'.pc
      ensures PlaceOk(s'.flags, WorkerAt(s').Some?, s'.pc[u])
    {
      if u == t { WorkersNeedNothing(s'.flags, Idle); }
    }
  }

  lemma InvStep(s: State, s': State)
    requires Inv(s) && Next(s, s') && NoClear(s)
    ensures Inv(s')
  {
    hide ThreadStep, Does, Inv;
    assert Locked(s) by { InvLocked(s); }
    LockedStep(s, s');
    if t :| Step(s, t, s') {
      var act, pc', f' :| StepWith(s, t, act, pc', f', s');
      if s.pc[t].Worker? {
        WorkerMoves(s, t, act, pc', f', s');
      } else if act == Signal {
        CallerSignal(s, t, pc', f', s');
      } else if act.Create? {
        CallerCreate(s, t, act, pc', f', s');
      } else {
        CallerPlain(s, t, act, pc', f', s');
      }
    } else {
      var t :| Arrives(s, t, s');
      Arrival(s, t, s');
    }
  }

  lemma InvLocked(s: State)
    requires Inv(s)
    ensures Locked(s)
  {
  }

  lemma {:induction false} RunInv(states: seq<State>, i: nat)
    requires Run(states) && i < |states| && forall j :: 0 <= j < i ==> NoClear(states[j])
    ensures Inv(states[i])
  {
    if i > 0 {
      RunInv(states, i - 1);
      InvStep(states[i - 1], states[i]);
    }
  }

  /** Along every run without a clear, a request that no pass has started after is still
      pending or taken by a worker about to start one; and the worker does not sleep
      through a pending request. */
  lemma NoRequestLost(states: seq<State>, i: nat)
    requires Run(states) && i < |states| && forall j :: 0 <= j < i ==> NoClear(states[j])
    ensures var s := states[i];
      && s.flags.served <= s.flags.requests
      && (Waiting(s.flags) ==> Known(s) && (s.flags.pending || Committed(s.pc[s.flags.worker].work)))
      && (s.flags.pending && Known(s) && s.pc[s.flags.worker] == Worker(Asleep) ==>
            s.core.HeldBy? && s.core.thread in s.pc && s.pc[s.core.thread] == Request(SignalDo))
      && (forall t :: t in s.pc && s.pc[t].Worker? ==> t == s.flags.worker)
  {
    RunInv(states, i);
  }

  // ---------- progress ----------

  /** How many of its own steps the worker needs before it starts a pass, at most. */
  function Distance(w: WorkerPc): nat {
    match w
    case LockPass => 1
    case UnlockTake => 2
    case TakeDo => 3
    case WaitTest => 4
    case LockLoop => 5
    case Woken => 5
    case LoopTest => 6
    case Asleep => 6
    case Pass => 7
    case UnlockExit => 8
    case Done => 8
    case Joined => 8
  }

  /** With a request waiting, each step of the worker brings the pass that serves it
      closer, or is its start. */
  lemma WorkerProgress(s: State, act: Act, pc': Pc, f': Flags, s': State)
    requires Inv(s) && Waiting(s.flags) && StepWith(s, s.flags.worker, act, pc', f', s')
    ensures !Waiting(s'.flags) || (pc'.Worker? && Distance(pc'.work) < Distance(s.pc[s.flags.worker].work))
  {
    hide Does, Locked, PlaceOk;
    WorkerOnly(s.flags, s.pc[s.flags.worker], act, pc', f');
    DoesFlags(s, s.flags.worker, act, pc', f', s');
  }

  lemma DoesFlags(s: State, t: Tid, act: Act, pc: Pc, f: Flags, s': State)
    requires Does(s, t, act, pc, f, s')
    ensures s'.flags == f
  {
  }

  /** A step of any other thread does not push it back. */
  lemma OthersDoNotDelay(s: State, t: Tid, act: Act, pc': Pc, f': Flags, s': State)
    requires Inv(s) && Inv(s') && Waiting(s.flags) && StepWith(s, t, act, pc', f', s') && t != s.flags.worker
    requires !s.pc[t].Clear?
    ensures !Waiting(s'.flags) ||
            (Known(s') && s'.flags.worker == s.flags.worker &&
             Distance(s'.pc[s'.flags.worker].work) <= Distance(s.pc[s.flags.worker].work))
  {
    hide ThreadStep, Locked, PlaceOk, Signalled;
    var w := s.flags.worker;
    assert Known(s) && !s.pc[t].Worker?;
    if act.Create? {
      CreateKeeps(s.flags, s.pc[t], act, pc', f', WorkerAt(s));
    } else {
      CallerKeeps(s.flags, s.pc[t], act, pc', f', WorkerAt(s));
      if act == Signal { SignalKeepsKinds(s.pc[t := pc'], s'.pc); SignalWakes(s.pc[t := pc'], s'.pc); }
    }
  }

  lemma SignalWakes(pc: map<Tid, Pc>, pc': map<Tid, Pc>)
    requires Signalled(pc, pc')
    ensures pc'.Keys == pc.Keys
    ensures forall t :: t in pc ==> pc'[t] == pc[t] || (pc[t] == Worker(Asleep) && pc'[t] == Worker(Woken))
  {
  }

  /** Requests are never taken back. */
  lemma MoreRequests(s: State, t: Tid, act: Act, pc': Pc, f': Flags, s': State)
    requires StepWith(s, t, act, pc', f', s')
    ensures s'.flags == f' && f'.requests >= s.flags.requests
  {
    hide Signalled, ThreadStep;
    StepKnows(s.flags, s.pc[t], act, pc', f');
  }

  /** One step with a request waiting: it is served, or the pass is as near as it was, and nearer when
      the step is the worker's. */
  lemma Nearer(s: State, s': State)
    requires Inv(s) && Inv(s') && NoClear(s) && Next(s, s') && Waiting(s.flags)
    ensures s'.flags.requests >= s.flags.requests && s'.flags.served <= s'.flags.requests
    ensures WorkerAt(s).Some?
    ensures Waiting(s'.flags) ==>
      && WorkerAt(s').Some? && s'.flags.worker == s.flags.worker
      && Distance(WorkerAt(s').value) + (if Step(s, s.flags.worker, s') then 1 else 0) <= Distance(WorkerAt(s).value)
  {
    hide ThreadStep, Does, Locked, Distance, Awake, PlaceOk;
    var w := s.flags.worker;
    if Step(s, w, s') {
      var act, pc', f' :| StepWith(s, w, act, pc', f', s');
      WorkerProgress(s, act, pc', f', s');
      MoreRequests(s, w, act, pc', f', s');
      WorkerOnly(s.flags, s.pc[w], act, pc', f');
      WorkerStays(s, act, pc', f', s');
    } else if t :| Step(s, t, s') {
      var act, pc', f' :| StepWith(s, t, act, pc', f', s');
      OthersDoNotDelay(s, t, act, pc', f', s');
      MoreRequests(s, t, act, pc', f', s');
    }
  }

  /** The worker is where its step took it. */
  lemma WorkerStays(s: State, act: Act, pc': Pc, f': Flags, s': State)
    requires Inv(s) && StepWith(s, s.flags.worker, act, pc', f', s') && s.pc[s.flags.worker].Worker?
    ensures s'.flags.worker == s.flags.worker && s'.flags.worker in s'.pc && s'.pc[s'.flags.worker] == pc'
  {
    hide ThreadStep, Locked, PlaceOk, Awake, Signalled, WorkerStep;
    WorkerOnly(s.flags, s.pc[s.flags.worker], act, pc', f');
    WorkerKeeps(s.flags, s.pc[s.flags.worker].work, act, pc', f');
  }

  /** A request that is waiting is served by a pass: in a run without a clear, by the time the worker
      has taken the steps that separate it from a pass one has started after the request. */
  lemma {:induction false} PassComes(states: seq<State>, i: nat, j: nat) returns (k: nat)
    requires Run(states) && i <= j < |states| && forall n :: 0 <= n < j ==> NoClear(states[n])
    requires Waiting(states[i].flags)
    requires var w := WorkerAt(states[i]);
      w.Some? ==> StepsOf(states, states[i].flags.worker, i, j) >= Distance(w.value)
    ensures i < k <= j && states[k].flags.served >= states[i].flags.requests
    decreases j - i
  {
    hide Inv, Next, Distance, Step;
    RunInv(states, i);
    WaitingHasWorker(states[i]);
    assert i < j;
    RunInv(states, i + 1);
    Nearer(states[i], states[i + 1]);
    if Waiting(states[i + 1].flags) {
      k := PassComes(states, i + 1, j);
    } else {
      k := i + 1;
    }
  }

  lemma WaitingHasWorker(s: State)
    requires Inv(s) && Waiting(s.flags)
    ensures WorkerAt(s).Some? && Distance(WorkerAt(s).value) > 0
  {
    hide Locked, PlaceOk, Awake;
  }

  /** Whoever holds a mutex, the worker or anyone else, is not itself blocked: without a clear there
      is no nested locking. */
  lemma HoldersRun(s: State, u: Tid)
    requires Inv(s) && NoClear(s) && u in s.pc && (s.core == HeldBy(u) || s.refresh == HeldBy(u))
    ensures !WantsCore(s.pc[u]) && !WantsRefresh(s.pc[u]) && s.pc[u] != Worker(Asleep)
    ensures s.pc[u] != Worker(WorkerPc.Done)
  {
  }
}
