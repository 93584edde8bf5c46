/** What a call of xh_core_clear has done by the time it returns (xhook/xh_core.c). */
module RefreshClear {
  import opened RefreshThread
  import opened RefreshCalls

  /** Step k is t's, from a place of clear. */
  ghost predicate Leaves(states: seq<State>, k: nat, t: Tid, at: ClearPc)
    requires k + 1 < |states|
  {
    At(states[k], t, Clear(at)) && t in states[k + 1].pc && states[k + 1].pc[t] != Clear(at)
  }

  ghost predicate Went(states: seq<State>, i: nat, n: nat, t: Tid, at: ClearPc)
    requires i <= n < |states|
  {
    exists k: nat :: i <= k < n && Leaves(states, k, t, at)
  }

  /** There was no refresh thread to stop. */
  ghost predicate NoThread(states: seq<State>, i: nat, n: nat, t: Tid)
    requires i <= n < |states|
  {
    exists k: nat :: i <= k < n && Leaves(states, k, t, ReadAsyncOk) && !states[k].flags.asyncInitOk
  }

  ghost predicate WasJoined(states: seq<State>, i: nat, n: nat, t: Tid)
    requires i <= n < |states|
  {
    exists k: nat, w :: i <= k < n && Leaves(states, k, t, JoinWorker(w))
      && At(states[k], w, Worker(WorkerPc.Done)) && At(states[k + 1], w, Worker(Joined))
  }

  /** The refresh thread has been told to stop and joined. */
  ghost predicate Stopped(states: seq<State>, i: nat, n: nat, t: Tid)
    requires i <= n < |states|
  {
    && Went(states, i, n, t, StopRunning) && Went(states, i, n, t, SignalStop) && WasJoined(states, i, n, t)
    && Went(states, i, n, t, ResetAsyncOk)
  }

  /** There was no handler to remove. */
  ghost predicate NoHandler(states: seq<State>, i: nat, n: nat, t: Tid)
    requires i <= n < |states|
  {
    exists k: nat :: i <= k < n && Leaves(states, k, t, ReadInitOk) && !states[k].flags.initOk
  }

  ghost predicate Stage1(states: seq<State>, i: nat, n: nat, t: Tid)
    requires i <= n < |states|
  {
    NoThread(states, i, n, t) || Stopped(states, i, n, t)
  }

  ghost predicate Stage2(states: seq<State>, i: nat, n: nat, t: Tid)
    requires i <= n < |states|
  {
    Stage1(states, i, n, t) && Went(states, i, n, t, ResetAsync)
  }

  ghost predicate Stage3(states: seq<State>, i: nat, n: nat, t: Tid)
    requires i <= n < |states|
  {
    Stage2(states, i, n, t) && (NoHandler(states, i, n, t) || Went(states, i, n, t, ResetInitOk))
  }

  ghost predicate Stage4(states: seq<State>, i: nat, n: nat, t: Tid)
    requires i <= n < |states|
  {
    Stage3(states, i, n, t) && Went(states, i, n, t, ResetInited)
  }

  /** Everything, the freeing of all records included. */
  ghost predicate Cleared(states: seq<State>, i: nat, n: nat, t: Tid)
    requires i <= n < |states|
  {
    Stage4(states, i, n, t) && Went(states, i, n, t, FreeAll)
  }

  /** Where a clear may be, and what it has done by then. */
  ghost predicate ClearSoFar(states: seq<State>, i: nat, n: nat, t: Tid)
    requires i <= n < |states| && t in states[n].pc
  {
    && states[n].pc[t].Clear?
    && match states[n].pc[t].clear
      case ReadAsyncOk => true
      case LockStop => true
      case StopRunning => true
      case SignalStop => Went(states, i, n, t, StopRunning)
      case UnlockStop => Went(states, i, n, t, StopRunning) && Went(states, i, n, t, SignalStop)
      case ReadThread => Went(states, i, n, t, StopRunning) && Went(states, i, n, t, SignalStop)
      case JoinWorker(_) => Went(states, i, n, t, StopRunning) && Went(states, i, n, t, SignalStop)
      case ResetAsyncOk =>
        Went(states, i, n, t, StopRunning) && Went(states, i, n, t, SignalStop) && WasJoined(states, i, n, t)
      case ResetAsync => Stage1(states, i, n, t)
      case ReadInitOk => Stage2(states, i, n, t)
      case ResetInitOk => Stage2(states, i, n, t)
      case ResetInited => Stage3(states, i, n, t)
      case LockClear => Stage4(states, i, n, t)
      case LockClearRefresh => Stage4(states, i, n, t)
      case FreeAll => Stage4(states, i, n, t)
      case UnlockClear => Cleared(states, i, n, t)
  }

  lemma WentOn(states: seq<State>, i: nat, n: nat, t: Tid, at: ClearPc)
    requires i <= n && n + 1 < |states|
    ensures Went(states, i, n, t, at) ==> Went(states, i, n + 1, t, at)
    ensures Leaves(states, n, t, at) ==> Went(states, i, n + 1, t, at)
  {
    hide Leaves;
  }

  lemma OthersOn(states: seq<State>, i: nat, n: nat, t: Tid)
    requires i <= n && n + 1 < |states|
    ensures NoThread(states, i, n, t) ==> NoThread(states, i, n + 1, t)
    ensures NoHandler(states, i, n, t) ==> NoHandler(states, i, n + 1, t)
    ensures WasJoined(states, i, n, t) ==> WasJoined(states, i, n + 1, t)
    ensures Leaves(states, n, t, ReadAsyncOk) && !states[n].flags.asyncInitOk ==> NoThread(states, i, n + 1, t)
    ensures Leaves(states, n, t, ReadInitOk) && !states[n].flags.initOk ==> NoHandler(states, i, n + 1, t)
  {
    hide Leaves;
  }

  /** What has been done stays done. */
  lemma AllOn(states: seq<State>, i: nat, n: nat, t: Tid)
    requires i <= n && n + 1 < |states|
    ensures forall at :: Went(states, i, n, t, at) ==> Went(states, i, n + 1, t, at)
    ensures NoThread(states, i, n, t) ==> NoThread(states, i, n + 1, t)
    ensures NoHandler(states, i, n, t) ==> NoHandler(states, i, n + 1, t)
    ensures WasJoined(states, i, n, t) ==> WasJoined(states, i, n + 1, t)
    ensures Cleared(states, i, n, t) ==> Cleared(states, i, n + 1, t)
  {
    hide Went, NoThread, NoHandler, WasJoined;
    OthersOn(states, i, n, t);
    forall at ensures Went(states, i, n, t, at) ==> Went(states, i, n + 1, t, at) { WentOn(states, i, n, t, at); }
  }

  lemma JoinIs(s: State, t: Tid, f': Flags, s': State, w: Tid)
    requires StepWith(s, t, Join(w), Clear(ResetAsyncOk), f', s') && s.pc[t] == Clear(JoinWorker(w))
    ensures At(s, w, Worker(WorkerPc.Done)) && At(s', w, Worker(Joined))
  {
    hide ThreadStep;
  }

  lemma ClearMoves(states: seq<State>, i: nat, n: nat, t: Tid, act: Act, f': Flags)
    requires i <= n && n + 1 < |states| && t in states[n].pc && t in states[n + 1].pc && ClearSoFar(states, i, n, t)
    requires StepWith(states[n], t, act, states[n + 1].pc[t], f', states[n + 1])
    ensures states[n + 1].pc[t] == Idle ==> Cleared(states, i, n + 1, t)
    ensures states[n + 1].pc[t] != Idle ==> ClearSoFar(states, i, n + 1, t)
  {
    hide Went, NoThread, NoHandler, WasJoined, Does;
    var at := states[n].pc[t].clear;
    var pc' := states[n + 1].pc[t];
    AllOn(states, i, n, t);
    OthersOn(states, i, n, t);
    WentOn(states, i, n, t, at);
    assert ClearStep(states[n].flags, at, act, pc', f');
    assert pc' != Clear(at);
    assert Leaves(states, n, t, at);
    if at.JoinWorker? {
      JoinIs(states[n], t, f', states[n + 1], at.thread);
      JoinedNow(states, i, n, t, at.thread);
    }
  }

  lemma JoinedNow(states: seq<State>, i: nat, n: nat, t: Tid, w: Tid)
    requires i <= n && n + 1 < |states| && Leaves(states, n, t, JoinWorker(w))
    requires At(states[n], w, Worker(WorkerPc.Done)) && At(states[n + 1], w, Worker(Joined))
    ensures WasJoined(states, i, n + 1, t)
  {
    hide Leaves;
  }

  lemma SameSoFar(states: seq<State>, i: nat, n: nat, t: Tid)
    requires i <= n && n + 1 < |states| && t in states[n].pc && ClearSoFar(states, i, n, t)
    requires At(states[n + 1], t, states[n].pc[t])
    ensures ClearSoFar(states, i, n + 1, t)
  {
    hide Went, NoThread, NoHandler, WasJoined;
    AllOn(states, i, n, t);
  }

  lemma {:induction false} ClearHistory(states: seq<State>, i: nat, n: nat, t: Tid)
    requires Run(states) && i <= n < |states| && At(states[i], t, Clear(ReadAsyncOk))
    ensures t in states[n].pc && (ClearSoFar(states, i, n, t) || Cleared(states, i, n, t))
    decreases n - i
  {
    hide Run, Next, Cleared, Locked;
    if i < n {
      ClearHistory(states, i, n - 1, t);
      StepAt(states, n - 1);
      Present(states[n - 1], t, states[n]);
      AllOn(states, i, n - 1, t);
      if ClearSoFar(states, i, n - 1, t) {
        hide ThreadStep, Does;
        var own, act, f' := Moves(states[n - 1], t, states[n]);
        if own { ClearMoves(states, i, n - 1, t, act, f'); } else { SameSoFar(states, i, n - 1, t); }
      }
    }
  }

  /** Over every run: a clear that has returned has stopped and joined the refresh thread, if it found one to be
      there, has taken down the flags and has freed all records. */
  lemma ClearCall(states: seq<State>, i: nat, j: nat, t: Tid)
    requires Run(states) && i <= j < |states| && At(states[i], t, Clear(ReadAsyncOk)) && At(states[j], t, Idle)
    ensures NoThread(states, i, j, t) || Stopped(states, i, j, t)
    ensures Went(states, i, j, t, ResetAsync)
    ensures NoHandler(states, i, j, t) || Went(states, i, j, t, ResetInitOk)
    ensures Went(states, i, j, t, ResetInited) && Went(states, i, j, t, FreeAll)
  {
    hide Run, Went, NoThread, NoHandler, WasJoined;
    ClearHistory(states, i, j, t);
  }

  // ---------- what these steps do ----------

  lemma Effects(f: Flags, at: ClearPc, act: Act, pc': Pc, f': Flags)
    requires ClearStep(f, at, act, pc', f')
    ensures at == StopRunning ==> f' == f.(running := false)
    ensures at == SignalStop ==> act == Signal && f' == f
    ensures at == ResetAsyncOk ==> f' == f.(asyncInitOk := false)
    ensures at == ResetAsync ==> f' == f.(asyncInited := false)
    ensures at == ResetInitOk ==> f' == f.(initOk := false)
    ensures at == ResetInited ==> f' == f.(inited := false)
  {
  }

  lemma SignalWakes(s: State, t: Tid, pc': Pc, f': Flags, s': State)
    requires StepWith(s, t, Signal, pc', f', s') && s.pc[t].Clear?
    ensures (exists u :: At(s, u, Worker(Asleep))) ==> exists u :: At(s, u, Worker(Asleep)) && At(s', u, Worker(Woken))
  {
    hide ThreadStep;
    var mid := s.pc[t := pc'];
    if u :| At(s, u, Worker(Asleep)) {
      assert u in mid && mid[u] == Worker(Asleep);
      var v :| v in mid && mid[v] == Worker(Asleep) && s'.pc[v] == Worker(Woken);
      StepKnows(s.flags, s.pc[t], Signal, pc', f');
      assert At(s, v, Worker(Asleep)) && At(s', v, Worker(Woken));
    }
  }

  /** The steps named above: the thread is told to stop and signalled with the mutex held, each flag goes down,
      and the records are freed with both mutexes held. */
  lemma ClearDoes(states: seq<State>, k: nat, t: Tid, at: ClearPc)
    requires Run(states) && k + 1 < |states| && Leaves(states, k, t, at)
    ensures at == StopRunning ==> states[k].core == HeldBy(t) && !states[k + 1].flags.running
    ensures at == SignalStop ==> states[k].core == HeldBy(t)
    ensures at == SignalStop && (exists u :: At(states[k], u, Worker(Asleep))) ==>
      exists u :: At(states[k], u, Worker(Asleep)) && At(states[k + 1], u, Worker(Woken))
    ensures at == ResetAsyncOk ==> !states[k + 1].flags.asyncInitOk
    ensures at == ResetAsync ==> !states[k + 1].flags.asyncInited
    ensures at == ResetInitOk ==> !states[k + 1].flags.initOk
    ensures at == ResetInited ==> !states[k + 1].flags.inited
    ensures at == FreeAll ==> states[k].core == states[k].refresh == HeldBy(t)
  {
    hide Run, Next, Does, ThreadStep, Locked;
    StepAt(states, k);
    var own, act, f' := Moves(states[k], t, states[k + 1]);
    ClearsOwn(states[k].flags, at, act, states[k + 1].pc[t], f');
    InClear(states[k], t, at);
    if at == SignalStop { SignalWakes(states[k], t, states[k + 1].pc[t], f', states[k + 1]); }
  }

  lemma ClearsOwn(f: Flags, at: ClearPc, act: Act, pc': Pc, f': Flags)
    ensures ThreadStep(f, Clear(at), act, pc', f') ==>
      && (at == StopRunning ==> !f'.running) && (at == SignalStop ==> act == Signal)
      && (at == ResetAsyncOk ==> !f'.asyncInitOk) && (at == ResetAsync ==> !f'.asyncInited)
      && (at == ResetInitOk ==> !f'.initOk) && (at == ResetInited ==> !f'.inited)
  {
    hide ClearStep;
    if ThreadStep(f, Clear(at), act, pc', f') { Effects(f, at, act, pc', f'); }
  }

  lemma InClear(s: State, t: Tid, at: ClearPc)
    requires Locked(s) && At(s, t, Clear(at))
    ensures at == StopRunning || at == SignalStop || at == FreeAll ==> s.core == HeldBy(t)
    ensures at == FreeAll ==> s.refresh == HeldBy(t)
  {
  }
}
