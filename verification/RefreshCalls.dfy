/** What a call of xh_core_refresh has done by the time it returns (xhook/xh_core.c): the asynchronous one has
    raised the request flag and signalled, the synchronous one has run a pass, or the call found that
    initialization had not succeeded. */
module RefreshCalls {
  import opened RefreshThread
  import opened RefreshRequests

  ghost predicate At(s: State, t: Tid, pc: Pc) {
    t in s.pc && s.pc[t] == pc
  }

  // ---------- what happens on the way ----------

  /** The call gives up at step k: one of the two checks fails. */
  ghost predicate Refused(states: seq<State>, k: nat, t: Tid, a: bool)
    requires k < |states|
  {
    || (At(states[k], t, Init(CheckInitOk, a)) && !states[k].flags.initOk)
    || (a && At(states[k], t, Async(CheckAsyncOk)) && !states[k].flags.asyncInitOk)
  }

  /** Step k is t's: it raises the request flag while it holds the mutex. */
  ghost predicate Raised(states: seq<State>, k: nat, t: Tid)
    requires k + 1 < |states|
  {
    var f := states[k].flags;
    && At(states[k], t, Request(SetDo)) && At(states[k + 1], t, Request(SignalDo))
    && states[k].core == states[k + 1].core == HeldBy(t)
    && states[k + 1].flags == f.(pending := true, requests := f.requests + 1)
  }

  /** Thread t has held the mutex since it raised the flag at step k. */
  ghost predicate HeldSince(states: seq<State>, k: nat, n: nat, t: Tid)
    requires k < n < |states|
  {
    Raised(states, k, t) && forall x :: k < x <= n ==> states[x].core == HeldBy(t)
  }

  /** And it signals at step m, still inside. */
  ghost predicate Requested(states: seq<State>, k: nat, m: nat, t: Tid)
    requires k < m && m + 1 < |states|
  {
    && HeldSince(states, k, m, t) && At(states[m], t, Request(SignalDo)) && At(states[m + 1], t, Request(UnlockRequest))
    && ((exists u :: At(states[m], u, Worker(Asleep))) ==>
          exists u :: At(states[m], u, Worker(Asleep)) && At(states[m + 1], u, Worker(Woken)))
  }

  /** Thread t starts a pass of its own at step k. */
  ghost predicate Began(states: seq<State>, k: nat, t: Tid)
    requires k + 1 < |states|
  {
    && At(states[k], t, Request(LockSync)) && At(states[k + 1], t, Request(SyncPass))
    && states[k].refresh == Free && states[k + 1].refresh == HeldBy(t)
    && states[k + 1].flags.served == states[k].flags.requests
  }

  /** And has been in it since. */
  ghost predicate InPassSince(states: seq<State>, k: nat, n: nat, t: Tid)
    requires k < n < |states|
  {
    Began(states, k, t) && forall x :: k < x <= n ==> states[x].refresh == HeldBy(t)
  }

  // ---------- one thread along a run ----------

  /** A thread of the program is moved by its own steps alone. */
  lemma Moves(s: State, t: Tid, s': State) returns (own: bool, act: Act, f': Flags)
    requires Next(s, s') && t in s.pc && !s.pc[t].Worker?
    ensures t in s'.pc
    ensures own ==> StepWith(s, t, act, s'.pc[t], f', s') && s'.flags == f'
    ensures !own ==> s'.pc[t] == s.pc[t]
  {
    hide ThreadStep, Does;
    own, act, f' := false, Nothing, s.flags;
    if u :| Step(s, u, s') {
      var a, pc', f :| StepWith(s, u, a, pc', f, s');
      StepKnows(s.flags, s.pc[u], a, pc', f);
      DoesStay(s, u, a, pc', f, s');
      own, act, f' := u == t, a, f;
    }
  }

  lemma StepAt(states: seq<State>, i: nat)
    requires Run(states) && i + 1 < |states|
    ensures Next(states[i], states[i + 1]) && Locked(states[i]) && Locked(states[i + 1])
  {
    RunLocked(states, i);
    RunLocked(states, i + 1);
  }

  lemma InsideLocks(s: State, t: Tid)
    requires Locked(s) && t in s.pc
    ensures s.pc[t] == Request(SetDo) || s.pc[t] == Request(SignalDo) ==> s.core == HeldBy(t)
    ensures s.pc[t] == Request(SyncPass) ==> s.refresh == HeldBy(t)
  {
  }

  /** A call's own steps before it makes its request. */
  lemma EntryStep(f: Flags, pc: Pc, act: Act, pc': Pc, f': Flags)
    requires ThreadStep(f, pc, act, pc', f')
    ensures pc.Init? && pc' == Idle ==> pc == Init(CheckInitOk, pc.isAsync) && !f.initOk
    ensures pc.Init? && pc' != Idle ==>
      (pc'.Init? && pc'.isAsync == pc.isAsync) || (pc.isAsync && pc'.Async?)
      || (!pc.isAsync && pc' == Request(LockSync))
  {
    hide WorkerStep, ClearStep, AsyncOnceStep, RequestStep, CallStep;
  }

  lemma AsyncStep(f: Flags, at: AsyncPc, act: Act, pc': Pc, f': Flags)
    requires AsyncOnceStep(f, at, act, pc', f')
    ensures pc'.Async? || pc' == Request(LockRequest) || (pc' == Idle && at == CheckAsyncOk && !f.asyncInitOk)
  {
  }

  // ---------- the asynchronous call ----------

  /** Where a call may be that has not returned, and what it has done by then. */
  ghost predicate AsyncSoFar(states: seq<State>, i: nat, n: nat, t: Tid)
    requires i <= n < |states| && t in states[n].pc
  {
    match states[n].pc[t]
    case Init(_, a) => a
    case Async(_) => true
    case Request(LockRequest) => true
    case Request(SetDo) => true
    case Request(SignalDo) => exists k :: i <= k < n && HeldSince(states, k, n, t)
    case Request(UnlockRequest) => AsyncDone(states, i, n, t)
    case _ => false
  }

  ghost predicate AsyncDone(states: seq<State>, i: nat, n: nat, t: Tid)
    requires i <= n < |states|
  {
    exists k, m :: i <= k < m < n && Requested(states, k, m, t)
  }

  ghost predicate AsyncRefused(states: seq<State>, i: nat, n: nat, t: Tid)
    requires i <= n < |states|
  {
    exists k :: i <= k < n && Refused(states, k, t, true)
  }

  lemma StillOver(states: seq<State>, i: nat, n: nat, t: Tid)
    requires i <= n && n + 1 < |states|
    ensures AsyncDone(states, i, n, t) ==> AsyncDone(states, i, n + 1, t)
    ensures AsyncRefused(states, i, n, t) ==> AsyncRefused(states, i, n + 1, t)
    ensures Refused(states, n, t, true) ==> AsyncRefused(states, i, n + 1, t)
  {
    hide Refused, Requested;
  }

  lemma StaysSoFar(states: seq<State>, i: nat, n: nat, t: Tid)
    requires i <= n && n + 1 < |states| && t in states[n].pc && AsyncSoFar(states, i, n, t)
    requires At(states[n + 1], t, states[n].pc[t]) && Locked(states[n + 1])
    ensures AsyncSoFar(states, i, n + 1, t)
  {
    hide Locked, Requested, Raised;
    InsideLocks(states[n + 1], t);
    StillOver(states, i, n, t);
    if states[n].pc[t] == Request(SignalDo) {
      var k :| i <= k < n && HeldSince(states, k, n, t);
      assert HeldSince(states, k, n + 1, t);
    }
  }

  lemma SignalWakesOne(s: State, t: Tid, f': Flags, s': State)
    requires StepWith(s, t, Signal, Request(UnlockRequest), f', s') && s.pc[t] == Request(SignalDo)
    ensures (exists u :: At(s, u, Worker(Asleep))) ==>
      exists u :: At(s, u, Worker(Asleep)) && At(s', u, Worker(Woken))
  {
    hide ThreadStep;
    var mid := s.pc[t := Request(UnlockRequest)];
    if u :| At(s, u, Worker(Asleep)) {
      assert u in mid && mid[u] == Worker(Asleep);
      var v :| v in mid && mid[v] == Worker(Asleep) && s'.pc[v] == Worker(Woken);
      assert At(s, v, Worker(Asleep)) && At(s', v, Worker(Woken));
    }
  }

  lemma RequestMoves(states: seq<State>, i: nat, n: nat, t: Tid, act: Act, f': Flags)
    requires i <= n && n + 1 < |states| && t in states[n].pc && AsyncSoFar(states, i, n, t)
    requires states[n].pc[t].Request? && Locked(states[n]) && Locked(states[n + 1]) && t in states[n + 1].pc
    requires StepWith(states[n], t, act, states[n + 1].pc[t], f', states[n + 1]) && states[n + 1].flags == f'
    ensures AsyncSoFar(states, i, n + 1, t) || AsyncDone(states, i, n + 1, t)
  {
    hide Locked, Signalled;
    var s, s' := states[n], states[n + 1];
    InsideLocks(s, t);
    InsideLocks(s', t);
    StillOver(states, i, n, t);
    match s.pc[t].req
    case LockRequest =>
    case SetDo => assert HeldSince(states, n, n + 1, t);
    case SignalDo =>
      var k :| i <= k < n && HeldSince(states, k, n, t);
      SignalWakesOne(s, t, f', s');
      assert Requested(states, k, n, t);
    case UnlockRequest =>
  }

  lemma AsyncGoesOn(states: seq<State>, i: nat, n: nat, t: Tid)
    requires Run(states) && i <= n && n + 1 < |states| && t in states[n].pc && AsyncSoFar(states, i, n, t)
    ensures t in states[n + 1].pc
    ensures AsyncSoFar(states, i, n + 1, t) || AsyncDone(states, i, n + 1, t) || AsyncRefused(states, i, n + 1, t)
  {
    hide Run, Next, Locked, Does, InitOnceStep, AsyncOnceStep, RequestStep, AsyncDone, AsyncRefused, HeldSince;
    StepAt(states, n);
    var own, act, f' := Moves(states[n], t, states[n + 1]);
    if !own {
      StaysSoFar(states, i, n, t);
    } else if states[n].pc[t].Request? {
      RequestMoves(states, i, n, t, act, f');
    } else {
      StillOver(states, i, n, t);
      EntryStep(states[n].flags, states[n].pc[t], act, states[n + 1].pc[t], f');
      if states[n].pc[t].Async? {
        AsyncStep(states[n].flags, states[n].pc[t].async, act, states[n + 1].pc[t], f');
      }
    }
  }

  lemma {:induction false} AsyncHistory(states: seq<State>, i: nat, n: nat, t: Tid)
    requires Run(states) && i <= n < |states| && At(states[i], t, Init(ReadInited, true))
    ensures t in states[n].pc
    ensures AsyncSoFar(states, i, n, t) || AsyncDone(states, i, n, t) || AsyncRefused(states, i, n, t)
    decreases n - i
  {
    hide Run, Next, AsyncDone, AsyncRefused, HeldSince;
    if i < n {
      AsyncHistory(states, i, n - 1, t);
      if AsyncSoFar(states, i, n - 1, t) {
        AsyncGoesOn(states, i, n - 1, t);
      } else {
        StepAt(states, n - 1);
        Present(states[n - 1], t, states[n]);
        StillOver(states, i, n - 1, t);
      }
    }
  }

  /** Threads do not disappear. */
  lemma Present(s: State, t: Tid, s': State)
    requires Next(s, s') && t in s.pc
    ensures t in s'.pc
  {
    hide ThreadStep, Does;
    if u :| Step(s, u, s') {
      var a, pc', f :| StepWith(s, u, a, pc', f, s');
      StepKnows(s.flags, s.pc[u], a, pc', f);
      DoesStay(s, u, a, pc', f, s');
    }
  }

  /** Over every run, clears included: an asynchronous call that has returned found one of its two flags false,
      or has raised the request flag and signalled in one critical section. */
  lemma AsyncCall(states: seq<State>, i: nat, j: nat, t: Tid)
    requires Run(states) && i <= j < |states| && At(states[i], t, Init(ReadInited, true)) && At(states[j], t, Idle)
    ensures (exists k :: i <= k < j && Refused(states, k, t, true))
         || (exists k, m :: i <= k < m < j && Requested(states, k, m, t))
  {
    hide Run;
    AsyncHistory(states, i, j, t);
  }

  // ---------- the synchronous call ----------

  ghost predicate SyncSoFar(states: seq<State>, i: nat, n: nat, t: Tid)
    requires i <= n < |states| && t in states[n].pc
  {
    match states[n].pc[t]
    case Init(_, a) => !a
    case Request(LockSync) => true
    case Request(SyncPass) => exists k :: i <= k < n && InPassSince(states, k, n, t)
    case _ => false
  }

  /** It has run a pass of its own, from step k to step m. */
  ghost predicate Passed(states: seq<State>, k: nat, m: nat, t: Tid)
    requires k < m && m + 1 < |states|
  {
    && InPassSince(states, k, m, t) && At(states[m], t, Request(SyncPass)) && At(states[m + 1], t, Idle)
    && states[m + 1].refresh == Free
  }

  ghost predicate SyncDone(states: seq<State>, i: nat, n: nat, t: Tid)
    requires i <= n < |states|
  {
    || (exists k :: i <= k < n && Refused(states, k, t, false))
    || (exists k, m :: i <= k < m < n && Passed(states, k, m, t))
  }

  lemma StillSynced(states: seq<State>, i: nat, n: nat, t: Tid)
    requires i <= n && n + 1 < |states|
    ensures SyncDone(states, i, n, t) ==> SyncDone(states, i, n + 1, t)
    ensures Refused(states, n, t, false) ==> SyncDone(states, i, n + 1, t)
  {
    hide Refused, Passed;
  }

  lemma SyncStays(states: seq<State>, i: nat, n: nat, t: Tid)
    requires i <= n && n + 1 < |states| && t in states[n].pc && SyncSoFar(states, i, n, t)
    requires At(states[n + 1], t, states[n].pc[t]) && Locked(states[n + 1])
    ensures SyncSoFar(states, i, n + 1, t)
  {
    hide Locked, Began;
    InsideLocks(states[n + 1], t);
    if states[n].pc[t] == Request(SyncPass) {
      var k :| i <= k < n && InPassSince(states, k, n, t);
      assert InPassSince(states, k, n + 1, t);
    }
  }

  lemma SyncMoves(states: seq<State>, i: nat, n: nat, t: Tid, act: Act, f': Flags)
    requires i <= n && n + 1 < |states| && t in states[n].pc && SyncSoFar(states, i, n, t)
    requires states[n].pc[t].Request? && Locked(states[n]) && Locked(states[n + 1]) && t in states[n + 1].pc
    requires StepWith(states[n], t, act, states[n + 1].pc[t], f', states[n + 1]) && states[n + 1].flags == f'
    ensures SyncSoFar(states, i, n + 1, t) || SyncDone(states, i, n + 1, t)
  {
    hide Locked, Signalled;
    if states[n].pc[t].req == LockSync {
      InsideLocks(states[n + 1], t);
      assert InPassSince(states, n, n + 1, t);
    } else {
      var k :| i <= k < n && InPassSince(states, k, n, t);
      assert Passed(states, k, n, t);
    }
  }

  lemma SyncGoesOn(states: seq<State>, i: nat, n: nat, t: Tid)
    requires Run(states) && i <= n && n + 1 < |states| && t in states[n].pc && SyncSoFar(states, i, n, t)
    ensures t in states[n + 1].pc
    ensures SyncSoFar(states, i, n + 1, t) || SyncDone(states, i, n + 1, t)
  {
    hide Run, Next, Locked, Does, InitOnceStep, AsyncOnceStep, RequestStep, SyncDone, InPassSince;
    StepAt(states, n);
    var own, act, f' := Moves(states[n], t, states[n + 1]);
    if !own {
      SyncStays(states, i, n, t);
    } else if states[n].pc[t].Request? {
      SyncMoves(states, i, n, t, act, f');
    } else {
      StillSynced(states, i, n, t);
      EntryStep(states[n].flags, states[n].pc[t], act, states[n + 1].pc[t], f');
    }
  }

  lemma {:induction false} SyncHistory(states: seq<State>, i: nat, n: nat, t: Tid)
    requires Run(states) && i <= n < |states| && At(states[i], t, Init(ReadInited, false))
    ensures t in states[n].pc && (SyncSoFar(states, i, n, t) || SyncDone(states, i, n, t))
    decreases n - i
  {
    hide Run, Next, SyncDone, InPassSince;
    if i < n {
      SyncHistory(states, i, n - 1, t);
      if SyncSoFar(states, i, n - 1, t) {
        SyncGoesOn(states, i, n - 1, t);
      } else {
        StepAt(states, n - 1);
        Present(states[n - 1], t, states[n]);
        StillSynced(states, i, n - 1, t);
      }
    }
  }

  /** A synchronous call that has returned found the flag false, or has run a whole pass with the other mutex held. */
  lemma SyncCall(states: seq<State>, i: nat, j: nat, t: Tid)
    requires Run(states) && i <= j < |states| && At(states[i], t, Init(ReadInited, false)) && At(states[j], t, Idle)
    ensures (exists k :: i <= k < j && Refused(states, k, t, false))
         || (exists k, m :: i <= k < m < j && Passed(states, k, m, t))
  {
    hide Run;
    SyncHistory(states, i, j, t);
  }

  // ---------- a successful call and the pass after it ----------

  /** Some thread locks the mutex of passes at step n, to run one. */
  ghost predicate PassStarts(states: seq<State>, n: nat)
    requires n + 1 < |states|
  {
    exists u :: (At(states[n], u, Request(LockSync)) || At(states[n], u, Worker(LockPass)))
      && states[n].refresh == Free && states[n + 1].refresh == HeldBy(u)
  }

  lemma CallerServes(f: Flags, pc: Pc, act: Act, pc': Pc, f': Flags)
    requires ThreadStep(f, pc, act, pc', f') && (pc.Idle? || pc.Init? || pc.Async? || pc.Request?)
    ensures f'.served != f.served ==> act == LockRefresh && pc == Request(LockSync)
  {
    hide WorkerStep, ClearStep;
  }

  lemma OtherServes(f: Flags, pc: Pc, act: Act, pc': Pc, f': Flags)
    requires ThreadStep(f, pc, act, pc', f') && (pc.Worker? || pc.Clear?)
    ensures f'.served != f.served ==> act == LockRefresh && pc == Worker(LockPass)
  {
    hide InitOnceStep, AsyncOnceStep, RequestStep, CallStep;
  }

  lemma ServedStep(s: State, t: Tid, act: Act, pc': Pc, f': Flags, s': State)
    requires StepWith(s, t, act, pc', f', s') && f'.served != s.flags.served
    ensures At(s, t, Request(LockSync)) || At(s, t, Worker(LockPass))
    ensures s.refresh == Free && s'.refresh == HeldBy(t)
  {
    hide ThreadStep, Signalled;
    if s.pc[t].Worker? || s.pc[t].Clear? {
      OtherServes(s.flags, s.pc[t], act, pc', f');
    } else {
      CallerServes(s.flags, s.pc[t], act, pc', f');
    }
  }

  lemma CountsGrow(states: seq<State>, n: nat)
    requires Run(states) && n + 1 < |states|
    ensures states[n].flags.requests <= states[n + 1].flags.requests
    ensures states[n].flags.served != states[n + 1].flags.served ==> PassStarts(states, n)
  {
    hide ThreadStep, Does;
    var s, s' := states[n], states[n + 1];
    assert Next(s, s');
    if t :| Step(s, t, s') {
      var act, pc', f' :| StepWith(s, t, act, pc', f', s');
      MoreRequests(s, t, act, pc', f', s');
      if f'.served != s.flags.served { ServedStep(s, t, act, pc', f', s'); }
    }
  }

  lemma {:induction false} RequestsGrow(states: seq<State>, k: nat, n: nat)
    requires Run(states) && k <= n < |states|
    ensures states[k].flags.requests <= states[n].flags.requests
    decreases n - k
  {
    hide Run;
    if k < n {
      RequestsGrow(states, k, n - 1);
      CountsGrow(states, n - 1);
    }
  }

  lemma {:induction false} ServedBy(states: seq<State>, k: nat, n: nat) returns (p: nat)
    requires Run(states) && k <= n < |states| && states[k].flags.served < states[n].flags.served
    ensures k <= p < n && PassStarts(states, p)
    decreases n - k
  {
    hide Run, PassStarts;
    CountsGrow(states, n - 1);
    if states[n - 1].flags.served != states[n].flags.served { p := n - 1; } else { p := ServedBy(states, k, n - 1); }
  }

  /** In a run without a clear, an asynchronous call that succeeds is followed by a pass: one has started after the
      call raised the flag by the time the refresh thread has taken seven steps after the call. */
  lemma CallIsServed(states: seq<State>, i: nat, j: nat, n: nat, t: Tid) returns (k: nat, p: nat)
    requires Run(states) && i <= j <= n < |states| && forall x :: 0 <= x < n ==> NoClear(states[x])
    requires At(states[i], t, Init(ReadInited, true)) && At(states[j], t, Idle)
    requires forall x :: i <= x < j ==> !Refused(states, x, t, true)
    requires StepsOf(states, states[j].flags.worker, j, n) >= 7
    ensures i <= k < j && Raised(states, k, t)
    ensures k < p < n && PassStarts(states, p)
  {
    hide Run, Step, Refused, NoClear, PassStarts, Known, Raised;
    k := CallRaises(states, i, j, t);
    p := PassAfter(states, k, j, n, t);
  }

  lemma CallRaises(states: seq<State>, i: nat, j: nat, t: Tid) returns (k: nat)
    requires Run(states) && i <= j < |states|
    requires At(states[i], t, Init(ReadInited, true)) && At(states[j], t, Idle)
    requires forall x :: i <= x < j ==> !Refused(states, x, t, true)
    ensures i <= k && k + 1 < j && Raised(states, k, t)
  {
    hide Run, Refused, Raised;
    AsyncCall(states, i, j, t);
    var m: nat;
    k, m :| i <= k < m < j && Requested(states, k, m, t);
  }

  lemma PassAfter(states: seq<State>, k: nat, j: nat, n: nat, t: Tid) returns (p: nat)
    requires Run(states) && k + 1 < j <= n < |states| && forall x :: 0 <= x < n ==> NoClear(states[x])
    requires Raised(states, k, t) && StepsOf(states, states[j].flags.worker, j, n) >= 7
    ensures k < p < n && PassStarts(states, p)
  {
    hide Run, Step, NoClear, PassStarts, Known, At, Inv, WorkerAt, Distance;
    RunInv(states, k);
    InvCounts(states[k]);
    CountsGrow(states, k);
    RequestsGrow(states, k + 1, j);
    if states[k + 1].flags.served < states[j].flags.served {
      p := ServedBy(states, k + 1, j);
    } else {
      RunInv(states, j);
      NearEnough(states[j]);
      var q := PassComes(states, j, n);
      p := ServedBy(states, k + 1, q);
    }
  }

  lemma InvCounts(s: State)
    requires Inv(s)
    ensures s.flags.served <= s.flags.requests
  {
  }

  lemma NearEnough(s: State)
    requires Inv(s) && Waiting(s.flags)
    ensures WorkerAt(s).Some? ==> Distance(WorkerAt(s).value) <= 7
  {
  }
}
