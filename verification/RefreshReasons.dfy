/** Why a refresh thread runs a pass, and why a call of xh_core_refresh fails (xhook/xh_core.c). */
module RefreshReasons {
  import opened RefreshThread
  import opened RefreshRequests
  import opened RefreshCalls

  // ---------- a pass answers a request ----------

  /** The request flag goes up and down in one place each, and the refresh thread is about to take it down only
      when it has seen it up. */
  predicate PendingLike(f: Flags, pc: Pc, pc': Pc, f': Flags) {
    && (f'.pending && !f.pending ==> pc == Request(SetDo))
    && (f.pending && !f'.pending ==> pc == Worker(TakeDo))
    && (pc' == Worker(TakeDo) ==> f'.pending) && (pc == Worker(TakeDo) ==> pc' == Worker(UnlockTake) && !f'.pending)
  }

  lemma CallerPending(f: Flags, pc: Pc, act: Act, pc': Pc, f': Flags)
    requires ThreadStep(f, pc, act, pc', f') && (pc.Idle? || pc.Init? || pc.Async? || pc.Request?)
    ensures PendingLike(f, pc, pc', f')
  {
    hide WorkerStep, ClearStep;
  }

  lemma OtherPending(f: Flags, pc: Pc, act: Act, pc': Pc, f': Flags)
    requires ThreadStep(f, pc, act, pc', f') && (pc.Worker? || pc.Clear?)
    ensures PendingLike(f, pc, pc', f')
  {
    hide InitOnceStep, AsyncOnceStep, RequestStep, CallStep;
  }

  lemma StepPending(f: Flags, pc: Pc, act: Act, pc': Pc, f': Flags)
    requires ThreadStep(f, pc, act, pc', f')
    ensures PendingLike(f, pc, pc', f')
  {
    hide ThreadStep, PendingLike;
    if pc.Worker? || pc.Clear? { OtherPending(f, pc, act, pc', f'); } else { CallerPending(f, pc, act, pc', f'); }
  }

  ghost predicate TakersSee(s: State) {
    forall t :: At(s, t, Worker(TakeDo)) ==> s.flags.pending
  }

  lemma TakersKeep(s: State, s': State)
    requires Locked(s) && TakersSee(s) && Next(s, s')
    ensures TakersSee(s')
  {
    hide ThreadStep, Does, HoldsRefresh;
    if u :| Step(s, u, s') {
      var act, pc', f' :| StepWith(s, u, act, pc', f', s');
      StepPending(s.flags, s.pc[u], act, pc', f');
      StepKnows(s.flags, s.pc[u], act, pc', f');
      DoesStay(s, u, act, pc', f', s');
      forall t | At(s', t, Worker(TakeDo)) ensures s'.flags.pending {
        if t != u {
          NotMadeTaker(s, u, act, pc', f', s', t);
          assert s.core == HeldBy(t);
          assert s.pc[u] == Worker(TakeDo) ==> s.core == HeldBy(u);
        }
      }
    } else {
      var u :| Arrives(s, u, s');
      assert forall t :: At(s', t, Worker(TakeDo)) ==> At(s, t, Worker(TakeDo));
    }
  }

  /** A thread that is about to take the flag down came there by its own step. */
  lemma NotMadeTaker(s: State, u: Tid, act: Act, pc': Pc, f': Flags, s': State, t: Tid)
    requires StepWith(s, u, act, pc', f', s') && t != u && At(s', t, Worker(TakeDo))
    ensures At(s, t, Worker(TakeDo))
  {
    hide ThreadStep;
  }

  lemma {:induction false} RunTakers(states: seq<State>, n: nat)
    requires Run(states) && n < |states|
    ensures TakersSee(states[n])
  {
    hide Run, Next, Locked, TakersSee;
    if n > 0 {
      RunTakers(states, n - 1);
      StepAt(states, n - 1);
      TakersKeep(states[n - 1], states[n]);
    } else {
      NoneYet(states);
    }
  }

  lemma NoneYet(states: seq<State>)
    requires Run(states)
    ensures TakersSee(states[0]) && !states[0].flags.pending
  {
  }

  lemma PendingRises(states: seq<State>, n: nat) returns (t: Tid)
    requires Run(states) && n + 1 < |states| && !states[n].flags.pending && states[n + 1].flags.pending
    ensures Raised(states, n, t)
  {
    hide ThreadStep, Locked;
    StepAt(states, n);
    t :| Step(states[n], t, states[n + 1]);
    var act, pc', f' :| StepWith(states[n], t, act, pc', f', states[n + 1]);
    RaisedBy(states, n, t, act, pc', f');
  }

  lemma RaisedBy(states: seq<State>, n: nat, t: Tid, act: Act, pc': Pc, f': Flags)
    requires n + 1 < |states| && Locked(states[n]) && StepWith(states[n], t, act, pc', f', states[n + 1])
    requires !states[n].flags.pending && states[n + 1].flags.pending
    ensures Raised(states, n, t)
  {
    hide ThreadStep, Locked, Signalled;
    var s := states[n];
    StepPending(s.flags, s.pc[t], act, pc', f');
    SetDoIs(s.flags, act, pc', f');
    InsideLocks(s, t);
  }

  lemma SetDoIs(f: Flags, act: Act, pc': Pc, f': Flags)
    requires ThreadStep(f, Request(SetDo), act, pc', f')
    ensures act == Nothing && pc' == Request(SignalDo) && f' == f.(pending := true, requests := f.requests + 1)
  {
  }

  /** The flag is up since some call raised it. */
  lemma {:induction false} UpSince(states: seq<State>, m: nat) returns (x: nat, t: Tid)
    requires Run(states) && m < |states| && states[m].flags.pending
    ensures x < m && Raised(states, x, t) && forall y :: x < y <= m ==> states[y].flags.pending
  {
    hide Run, Raised;
    NoneYet(states);
    if states[m - 1].flags.pending {
      x, t := UpSince(states, m - 1);
    } else {
      x := m - 1;
      t := PendingRises(states, m - 1);
    }
  }

  /** Over every run: when a refresh thread takes the flag down, to run a pass, some call has raised it and no one
      has taken it down since. So the asynchronous passes are never more than the requests. */
  lemma PassAnswers(states: seq<State>, m: nat, v: Tid) returns (x: nat, t: Tid)
    requires Run(states) && m + 1 < |states|
    requires At(states[m], v, Worker(TakeDo)) && At(states[m + 1], v, Worker(UnlockTake))
    ensures x < m && Raised(states, x, t) && forall y :: x < y <= m ==> states[y].flags.pending
    ensures !states[m + 1].flags.pending
  {
    hide Run, Raised, Next, Locked;
    StepAt(states, m);
    RunTakers(states, m);
    x, t := UpSince(states, m);
    TakenDown(states[m], v, states[m + 1]);
  }

  lemma TakenDown(s: State, v: Tid, s': State)
    requires Next(s, s') && At(s, v, Worker(TakeDo)) && At(s', v, Worker(UnlockTake))
    ensures !s'.flags.pending
  {
    hide ThreadStep;
    if u :| Step(s, u, s') {
      var act, pc', f' :| StepWith(s, u, act, pc', f', s');
      StepPending(s.flags, s.pc[u], act, pc', f');
      if u != v { Undisturbed(s, u, act, pc', f', s', v); }
    }
  }

  lemma Undisturbed(s: State, u: Tid, act: Act, pc': Pc, f': Flags, s': State, v: Tid)
    requires StepWith(s, u, act, pc', f', s') && u != v && At(s, v, Worker(TakeDo))
    ensures At(s', v, Worker(TakeDo))
  {
    hide ThreadStep;
  }

  // ---------- why a call fails ----------

  /** Places with the first flag set by this thread or seen set. */
  predicate InitSeen(pc: Pc) {
    pc.Init? && (pc.init == SetInitOk || pc.init == UnlockInit || pc.init == CheckInitOk)
  }

  /** Between setting the second pair of flags: a refresh thread is being created. */
  predicate Making(pc: Pc) {
    pc == Async(SetRunning) || pc == Async(CreateThread) || pc == Async(SetAsyncOk) || pc == Async(ResetRunning)
  }

  predicate AsyncSeen(pc: Pc) {
    Making(pc) || pc == Async(UnlockAsync) || pc == Async(CheckAsyncOk)
  }

  predicate InitLike(f: Flags, pc: Pc, pc': Pc, f': Flags) {
    && (f.inited ==> f'.inited) && (f.initOk ==> f'.initOk)
    && (f'.inited && !f.inited ==>
          pc.Init? && pc.init == SetInited && pc'.Init? && pc'.isAsync == pc.isAsync
          && (pc'.init == SetInitOk || pc'.init == UnlockInit))
    && (pc.Init? && pc.init == SetInitOk ==> f'.initOk)
    && (InitSeen(pc') ==> f'.inited || InitSeen(pc))
    && (pc'.Init? && pc'.init == SetInited ==> !f'.inited)
  }

  predicate AsyncLike(f: Flags, pc: Pc, pc': Pc, f': Flags) {
    && (f.asyncInited ==> f'.asyncInited) && (f.asyncInitOk ==> f'.asyncInitOk)
    && (f'.asyncInited && !f.asyncInited ==> Making(pc'))
    && (Making(pc) ==> Making(pc') || f'.asyncInitOk || pc == Async(ResetRunning))
    && (AsyncSeen(pc') ==> f'.asyncInited || AsyncSeen(pc))
  }

  predicate RunningLike(f: Flags, pc: Pc, pc': Pc, f': Flags) {
    && (f'.running && !f.running ==> Making(pc'))
    && (Making(pc) ==> Making(pc') || !f'.running || pc == Async(SetAsyncOk))
  }

  lemma CallerLike(f: Flags, pc: Pc, act: Act, pc': Pc, f': Flags)
    requires ThreadStep(f, pc, act, pc', f') && (pc.Idle? || pc.Init?)
    ensures InitLike(f, pc, pc', f') && AsyncLike(f, pc, pc', f')
  {
    hide WorkerStep, ClearStep, AsyncOnceStep, RequestStep;
  }

  lemma RequestLike(f: Flags, pc: Pc, act: Act, pc': Pc, f': Flags)
    requires ThreadStep(f, pc, act, pc', f') && pc.Request?
    ensures InitLike(f, pc, pc', f') && AsyncLike(f, pc, pc', f')
  {
    hide WorkerStep, ClearStep, AsyncOnceStep, InitOnceStep, CallStep;
  }

  lemma CreatorLike(f: Flags, pc: Pc, act: Act, pc': Pc, f': Flags)
    requires ThreadStep(f, pc, act, pc', f') && pc.Async?
    ensures InitLike(f, pc, pc', f') && AsyncLike(f, pc, pc', f')
  {
    hide WorkerStep, ClearStep, InitOnceStep, RequestStep, CallStep;
  }

  lemma WorkerLike(f: Flags, pc: Pc, act: Act, pc': Pc, f': Flags)
    requires ThreadStep(f, pc, act, pc', f') && pc.Worker?
    ensures InitLike(f, pc, pc', f') && AsyncLike(f, pc, pc', f')
  {
    hide ClearStep, InitOnceStep, AsyncOnceStep, RequestStep, CallStep;
  }

  lemma StepLike(f: Flags, pc: Pc, act: Act, pc': Pc, f': Flags)
    requires ThreadStep(f, pc, act, pc', f') && !pc.Clear?
    ensures InitLike(f, pc, pc', f') && AsyncLike(f, pc, pc', f')
  {
    hide ThreadStep, InitLike, AsyncLike;
    match pc
    case Worker(_) => WorkerLike(f, pc, act, pc', f');
    case Async(_) => CreatorLike(f, pc, act, pc', f');
    case Request(_) => RequestLike(f, pc, act, pc', f');
    case _ => CallerLike(f, pc, act, pc', f');
  }

  /** Thread u's handler could not be installed at step m. */
  ghost predicate FailedAt(states: seq<State>, m: nat, u: Tid, a: bool)
    requires m + 1 < |states|
  {
    At(states[m], u, Init(SetInited, a)) && At(states[m + 1], u, Init(UnlockInit, a))
  }

  ghost predicate InitFailed(states: seq<State>, n: nat)
    requires n < |states|
  {
    exists m: nat, u, a :: m < n && FailedAt(states, m, u, a)
  }

  /** Another thread is between setting the two flags of xh_core_init_once. */
  ghost predicate InitUnderway(s: State) {
    exists u, a :: At(s, u, Init(SetInitOk, a))
  }

  /** A refresh thread could not be created. */
  ghost predicate CreateFailed(states: seq<State>, n: nat)
    requires n < |states|
  {
    exists m: nat, u :: m < n && At(states[m], u, Async(ResetRunning))
  }

  ghost predicate CreateUnderway(s: State) {
    exists u :: u in s.pc && Making(s.pc[u])
  }

  ghost predicate Seen(s: State) {
    forall t :: t in s.pc ==>
      && (InitSeen(s.pc[t]) ==> s.flags.inited) && (AsyncSeen(s.pc[t]) ==> s.flags.asyncInited)
      && (s.pc[t].Init? && s.pc[t].init == SetInited ==> !s.flags.inited)
  }

  ghost predicate Story(states: seq<State>, n: nat)
    requires n < |states|
  {
    var s := states[n];
    && Seen(s)
    && (s.flags.inited && !s.flags.initOk ==> InitUnderway(s) || InitFailed(states, n))
    && (s.flags.asyncInited && !s.flags.asyncInitOk ==> CreateUnderway(s) || CreateFailed(states, n))
  }

  lemma StillFailed(states: seq<State>, n: nat)
    requires n + 1 < |states|
    ensures InitFailed(states, n) ==> InitFailed(states, n + 1)
    ensures CreateFailed(states, n) ==> CreateFailed(states, n + 1)
  {
    hide FailedAt, At;
  }

  lemma SeenKept(s: State, u: Tid, s': State, pc': Pc, f': Flags, act: Act)
    requires Locked(s) && Seen(s) && u in s.pc && WorkersStay(s, u, act, pc', f', s')
    requires InitLike(s.flags, s.pc[u], pc', f') && AsyncLike(s.flags, s.pc[u], pc', f')
    ensures Seen(s')
  {
    hide HoldsRefresh;
    forall t | t in s'.pc
      ensures InitSeen(s'.pc[t]) ==> s'.flags.inited
      ensures AsyncSeen(s'.pc[t]) ==> s'.flags.asyncInited
      ensures s'.pc[t].Init? && s'.pc[t].init == SetInited ==> !s'.flags.inited
    {
      if t != u && t in s.pc && s'.pc[t].Init? && s'.pc[t].init == SetInited {
        assert s.core == HeldBy(t);
      }
    }
  }

  lemma InitGoesOn(states: seq<State>, n: nat, u: Tid, pc': Pc, f': Flags, act: Act)
    requires n + 1 < |states| && Story(states, n)
    requires var s, s' := states[n], states[n + 1];
      u in s.pc && WorkersStay(s, u, act, pc', f', s') && InitLike(s.flags, s.pc[u], pc', f')
    ensures var f := states[n + 1].flags;
      f.inited && !f.initOk ==> InitUnderway(states[n + 1]) || InitFailed(states, n + 1)
  {
    hide Seen, CreateUnderway, CreateFailed;
    var s, s' := states[n], states[n + 1];
    StillFailed(states, n);
    if s'.flags.inited && !s'.flags.initOk {
      if s.flags.inited {
        if v, a :| At(s, v, Init(SetInitOk, a)) { assert At(s', v, Init(SetInitOk, a)); }
      } else {
        assert At(s, u, Init(SetInited, pc'.isAsync));
        if pc'.init == UnlockInit {
          assert FailedAt(states, n, u, pc'.isAsync);
        } else {
          assert At(s', u, Init(SetInitOk, pc'.isAsync));
        }
      }
    }
  }

  lemma CreateGoesOn(states: seq<State>, n: nat, u: Tid, pc': Pc, f': Flags, act: Act)
    requires n + 1 < |states| && Story(states, n)
    requires var s, s' := states[n], states[n + 1];
      u in s.pc && WorkersStay(s, u, act, pc', f', s') && AsyncLike(s.flags, s.pc[u], pc', f')
    ensures var f := states[n + 1].flags;
      f.asyncInited && !f.asyncInitOk ==> CreateUnderway(states[n + 1]) || CreateFailed(states, n + 1)
  {
    hide Seen, InitUnderway, InitFailed;
    var s, s' := states[n], states[n + 1];
    StillFailed(states, n);
    if s'.flags.asyncInited && !s'.flags.asyncInitOk {
      if s.flags.asyncInited {
        if v :| v in s.pc && Making(s.pc[v]) {
          if v == u && !Making(pc') {
            assert At(states[n], u, Async(ResetRunning));
          } else {
            assert v in s'.pc && Making(s'.pc[v]);
          }
        }
      } else {
        assert u in s'.pc && Making(s'.pc[u]);
      }
    }
  }

  lemma StoryStep(states: seq<State>, n: nat)
    requires Run(states) && n + 1 < |states| && NoClear(states[n]) && Story(states, n)
    ensures Story(states, n + 1)
  {
    hide ThreadStep, Does, Locked, InitLike, AsyncLike, Making, InitSeen, AsyncSeen;
    var s, s' := states[n], states[n + 1];
    StepAt(states, n);
    if u :| Step(s, u, s') {
      var act, pc', f' :| StepWith(s, u, act, pc', f', s');
      StepLike(s.flags, s.pc[u], act, pc', f');
      StepKnows(s.flags, s.pc[u], act, pc', f');
      DoesStay(s, u, act, pc', f', s');
      SeenKept(s, u, s', pc', f', act);
      InitGoesOn(states, n, u, pc', f', act);
      CreateGoesOn(states, n, u, pc', f', act);
    } else {
      var u :| Arrives(s, u, s');
      Newcomer(states, n, u);
    }
  }

  lemma Newcomer(states: seq<State>, n: nat, u: Tid)
    requires n + 1 < |states| && Arrives(states[n], u, states[n + 1]) && Story(states, n)
    ensures Story(states, n + 1)
  {
    hide Making;
    var s, s' := states[n], states[n + 1];
    NobodyYet();
    StillFailed(states, n);
    if v, a :| At(s, v, Init(SetInitOk, a)) { assert At(s', v, Init(SetInitOk, a)); }
    if v :| v in s.pc && Making(s.pc[v]) { assert v in s'.pc && Making(s'.pc[v]); }
  }

  lemma NobodyYet()
    ensures !InitSeen(Idle) && !AsyncSeen(Idle)
  {
  }

  lemma {:induction false} RunStory(states: seq<State>, n: nat)
    requires Run(states) && n < |states| && forall x :: 0 <= x < n ==> NoClear(states[x])
    ensures Story(states, n)
  {
    hide Run, Story, NoClear;
    if n > 0 {
      RunStory(states, n - 1);
      StoryStep(states, n - 1);
    } else {
      StoryStarts(states);
    }
  }

  lemma StoryStarts(states: seq<State>)
    requires Run(states)
    ensures Story(states, 0)
  {
  }

  /** In a run without a clear a call is refused only when the handler could not be installed or a thread not
      created, or while another thread is still at it. */
  lemma RefusedWhy(states: seq<State>, k: nat, t: Tid, a: bool)
    requires Run(states) && k < |states| && (forall x :: 0 <= x < k ==> NoClear(states[x])) && Refused(states, k, t, a)
    ensures (At(states[k], t, Init(CheckInitOk, a)) && (InitUnderway(states[k]) || InitFailed(states, k)))
         || (At(states[k], t, Async(CheckAsyncOk)) && (CreateUnderway(states[k]) || CreateFailed(states, k)))
  {
    hide Run, NoClear, InitUnderway, InitFailed, CreateUnderway, CreateFailed;
    RunStory(states, k);
  }

  lemma {:induction false} FlagsStay(states: seq<State>, x: nat, n: nat)
    requires Run(states) && x <= n < |states| && forall y :: 0 <= y < n ==> NoClear(states[y])
    ensures states[x].flags.inited ==> states[n].flags.inited
    ensures states[x].flags.asyncInited ==> states[n].flags.asyncInited
    decreases n - x
  {
    hide Run, Next, Locked;
    if x < n {
      FlagsStay(states, x, n - 1);
      StepAt(states, n - 1);
      FlagsKept(states[n - 1], states[n]);
    }
  }

  lemma FlagsKept(s: State, s': State)
    requires Next(s, s') && NoClear(s)
    ensures (s.flags.inited ==> s'.flags.inited) && (s.flags.asyncInited ==> s'.flags.asyncInited)
  {
    hide ThreadStep, Does, InitLike, AsyncLike;
    if u :| Step(s, u, s') {
      var act, pc', f' :| StepWith(s, u, act, pc', f', s');
      StepLike(s.flags, s.pc[u], act, pc', f');
      LikeKeeps(s.flags, s.pc[u], pc', f');
      DoesFlags(s, u, act, pc', f', s');
    }
  }

  lemma LikeKeeps(f: Flags, pc: Pc, pc': Pc, f': Flags)
    requires InitLike(f, pc, pc', f') && AsyncLike(f, pc, pc', f')
    ensures (f.inited ==> f'.inited) && (f.asyncInited ==> f'.asyncInited)
  {
  }

  /** In a run without a clear the handler is installed by the first thread that comes to it, and the refresh
      thread created by the first one: where either happens, the flag has never been set before. */
  lemma FirstOnly(states: seq<State>, n: nat, t: Tid, a: bool)
    requires Run(states) && n < |states| && forall x :: 0 <= x < n ==> NoClear(states[x])
    ensures At(states[n], t, Init(SetInited, a)) ==> forall x :: 0 <= x <= n ==> !states[x].flags.inited
    ensures At(states[n], t, Async(SetAsync)) ==> forall x :: 0 <= x <= n ==> !states[x].flags.asyncInited
  {
    hide Run, NoClear, InitUnderway, InitFailed, CreateUnderway, CreateFailed, Locked;
    RunStory(states, n);
    RunInv(states, n);
    forall x | 0 <= x <= n
      ensures states[x].flags.inited ==> states[n].flags.inited
      ensures states[x].flags.asyncInited ==> states[n].flags.asyncInited
    {
      FlagsStay(states, x, n);
    }
  }

  // ---------- what the running flag says ----------

  lemma CreatorRuns(f: Flags, at: AsyncPc, act: Act, pc': Pc, f': Flags)
    requires AsyncOnceStep(f, at, act, pc', f')
    ensures RunningLike(f, Async(at), pc', f')
  {
  }

  lemma OthersRun(f: Flags, pc: Pc, act: Act, pc': Pc, f': Flags)
    requires ThreadStep(f, pc, act, pc', f') && !pc.Clear? && !pc.Async?
    ensures f'.running == f.running && RunningLike(f, pc, pc', f')
  {
    hide ClearStep, AsyncOnceStep;
  }

  lemma StepRuns(f: Flags, pc: Pc, act: Act, pc': Pc, f': Flags)
    requires ThreadStep(f, pc, act, pc', f') && !pc.Clear?
    ensures RunningLike(f, pc, pc', f')
  {
    hide AsyncOnceStep, InitOnceStep, RequestStep, WorkerStep, CallStep, RunningLike;
    if pc.Async? { CreatorRuns(f, pc.async, act, pc', f'); } else { OthersRun(f, pc, act, pc', f'); }
  }

  /** The flag is only up with a refresh thread there or about to be created. */
  ghost predicate RunningMeans(s: State) {
    s.flags.running ==> Known(s) || CreateUnderway(s)
  }

  lemma RunningStays(s: State, u: Tid, act: Act, pc': Pc, f': Flags, s': State)
    requires RunningMeans(s) && u in s.pc && WorkersStay(s, u, act, pc', f', s')
    requires KnowsLike(s.flags, s.pc[u], act, pc', f') && RunningLike(s.flags, s.pc[u], pc', f')
    requires s.pc[u] == Async(SetAsyncOk) ==> Known(s)
    ensures RunningMeans(s')
  {
    hide Making;
    if s'.flags.running {
      if Known(s) || act.Create? {
        assert Known(s');
      } else if s.flags.running {
        var v :| v in s.pc && Making(s.pc[v]);
        MakersWork(s.pc[v]);
        assert v in s'.pc && Making(s'.pc[v]);
      } else {
        assert u in s'.pc && Making(s'.pc[u]);
      }
    }
  }

  lemma MakersWork(pc: Pc)
    requires Making(pc)
    ensures !pc.Worker?
  {
  }

  lemma CreatedKnown(s: State, u: Tid)
    requires Inv(s) && At(s, u, Async(SetAsyncOk))
    ensures Known(s)
  {
    hide Locked, FlagsOk, Awake;
  }

  lemma RunningStep(s: State, s': State)
    requires Inv(s) && NoClear(s) && Next(s, s') && RunningMeans(s)
    ensures RunningMeans(s')
  {
    hide ThreadStep, Does, Inv, KnowsLike, RunningLike, Making, Known;
    if u :| Step(s, u, s') {
      var act, pc', f' :| StepWith(s, u, act, pc', f', s');
      StepRuns(s.flags, s.pc[u], act, pc', f');
      StepKnows(s.flags, s.pc[u], act, pc', f');
      KnowsActs(s.flags, s.pc[u], act, pc', f');
      DoesStay(s, u, act, pc', f', s');
      if s.pc[u] == Async(SetAsyncOk) { CreatedKnown(s, u); }
      RunningStays(s, u, act, pc', f', s');
    } else {
      var u :| Arrives(s, u, s');
      RunningArrives(s, u, s');
    }
  }

  lemma KnowsActs(f: Flags, pc: Pc, act: Act, pc': Pc, f': Flags)
    requires KnowsLike(f, pc, act, pc', f')
    ensures (act.Join? ==> pc.Clear?) && (act == Signal ==> pc' != Worker(Asleep))
  {
  }

  lemma RunningArrives(s: State, u: Tid, s': State)
    requires Arrives(s, u, s') && RunningMeans(s)
    ensures RunningMeans(s')
  {
    hide Making;
    if v :| v in s.pc && Making(s.pc[v]) { assert v in s'.pc && Making(s'.pc[v]); }
  }

  /** In a run without a clear. So a thread that cannot be created leaves the flag down. */
  lemma {:induction false} RunRunning(states: seq<State>, n: nat)
    requires Run(states) && n < |states| && forall x :: 0 <= x < n ==> NoClear(states[x])
    ensures RunningMeans(states[n])
  {
    hide Run, NoClear, RunningMeans, Next, Inv;
    if n > 0 {
      RunRunning(states, n - 1);
      RunInv(states, n - 1);
      StepAt(states, n - 1);
      RunningStep(states[n - 1], states[n]);
    } else {
      NotRunning(states);
    }
  }

  lemma NotRunning(states: seq<State>)
    requires Run(states)
    ensures RunningMeans(states[0])
  {
  }
}
