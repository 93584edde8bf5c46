/** What can happen when xh_core_clear overlaps another clear, or the creation of a refresh thread
    (xhook/xh_core.c): one thread is joined twice, or clear waits for a thread that no one wakes. So
    clear's join is sound over all runs exactly when neither overlap is allowed. */
module RefreshOverlap {
  import opened RefreshThread
  import opened RefreshStop

  /** Some run with no other overlaps than these ends in this state. */
  ghost predicate Reached(o: Overlaps, s: State) {
    exists states :: RunTo(o, states, s)
  }

  ghost predicate RunTo(o: Overlaps, states: seq<State>, s: State) {
    Run(states) && AllAllowed(o, states) && states[|states| - 1] == s
  }

  ghost predicate AllAllowed(o: Overlaps, states: seq<State>) {
    forall i :: 0 <= i < |states| ==> Allowed(o, states[i].pc)
  }

  lemma Start(o: Overlaps) returns (s: State)
    ensures Reached(o, s) && Initial(s)
  {
    s := State(map[], Free, Free, Flags(false, false, false, false, false, false, 0, 0, 0));
    assert RunTo(o, [s], s);
  }

  lemma Goes(o: Overlaps, s: State, s': State)
    requires Reached(o, s) && Next(s, s') && Allowed(o, s'.pc)
    ensures Reached(o, s')
  {
    hide Next, Initial, Allowed;
    var states :| RunTo(o, states, s);
    assert RunTo(o, states + [s'], s');
  }

  /** Thread t may be in clear, or may be creating a thread, as far as the others are concerned. */
  ghost predicate Room(o: Overlaps, pc: map<Tid, Pc>, t: Tid, clear: bool, make: bool) {
    && (forall u, v :: u in pc && v in pc && u != t && v != t && u != v && pc[u].Clear? && pc[v].Clear? ==> o.clears)
    && (forall u, v :: u in pc && v in pc && u != t && v != t && pc[u].Clear? && MakesThread(pc[v]) ==> o.creation)
    && (clear ==> forall u :: u in pc && u != t ==> (pc[u].Clear? ==> o.clears) && (MakesThread(pc[u]) ==> o.creation))
    && (make ==> forall u :: u in pc && u != t && pc[u].Clear? ==> o.creation)
  }

  lemma Fits(o: Overlaps, pc: map<Tid, Pc>, t: Tid, pc': Pc)
    requires Room(o, pc, t, pc'.Clear?, MakesThread(pc'))
    ensures Allowed(o, pc[t := pc'])
  {
    hide MakesThread;
    if pc'.Clear? { ClearsMakeNone(pc'); }
  }

  lemma ClearsMakeNone(pc: Pc)
    requires pc.Clear?
    ensures !MakesThread(pc)
  {
  }

  /** A thread arrives. */
  lemma Comes(o: Overlaps, s: State, t: Tid) returns (s': State)
    requires Reached(o, s) && t !in s.pc && Room(o, s.pc, t, false, false)
    ensures Reached(o, s') && s' == s.(pc := s.pc[t := Idle])
  {
    hide Reached, Room;
    s' := s.(pc := s.pc[t := Idle]);
    assert Arrives(s, t, s');
    Fits(o, s.pc, t, Idle);
    Goes(o, s, s');
  }

  function CoreAfter(s: State, t: Tid, act: Act): Owner {
    if act == LockCore then HeldBy(t) else if act == UnlockCore then Free else s.core
  }

  function RefreshAfter(s: State, t: Tid, act: Act): Owner {
    if act == LockRefresh then HeldBy(t) else if act == UnlockRefresh then Free else s.refresh
  }

  /** The action can be taken, and concerns no other thread. */
  predicate CanAct(s: State, act: Act) {
    || act == Nothing || act == UnlockCore || act == UnlockRefresh
    || (act == LockCore && s.core == Free) || (act == LockRefresh && s.refresh == Free)
  }

  /** A thread takes such a step. */
  lemma Takes(o: Overlaps, s: State, t: Tid, act: Act, pc: Pc, f: Flags) returns (s': State)
    requires Reached(o, s) && t in s.pc && ThreadStep(s.flags, s.pc[t], act, pc, f) && CanAct(s, act)
    requires Room(o, s.pc, t, pc.Clear?, MakesThread(pc))
    ensures Reached(o, s')
    ensures s' == State(s.pc[t := pc], CoreAfter(s, t, act), RefreshAfter(s, t, act), f)
  {
    hide ThreadStep, Reached, Room;
    s' := State(s.pc[t := pc], CoreAfter(s, t, act), RefreshAfter(s, t, act), f);
    assert StepWith(s, t, act, pc, f, s');
    assert Step(s, t, s');
    Fits(o, s.pc, t, pc);
    Goes(o, s, s');
  }

  /** A thread that sleeps, if there is one. */
  predicate Sleeper(s: State, wake: Tid) {
    wake in s.pc && s.pc[wake] == Worker(Asleep)
  }

  /** A thread signals from one place of clear or of a request to the next; wake is who wakes up. */
  lemma Signals(o: Overlaps, s: State, t: Tid, pc: Pc, wake: Tid) returns (s': State)
    requires Reached(o, s) && t in s.pc && ThreadStep(s.flags, s.pc[t], Signal, pc, s.flags)
    requires !s.pc[t].Worker? && !pc.Worker? && wake != t && Room(o, s.pc, t, pc.Clear?, MakesThread(pc))
    requires (exists u :: Sleeper(s, u)) ==> Sleeper(s, wake)
    ensures Reached(o, s')
    ensures s' == s.(pc := if Sleeper(s, wake) then s.pc[t := pc][wake := Worker(Woken)] else s.pc[t := pc])
  {
    hide ThreadStep, Reached, Room;
    var mid := s.pc[t := pc];
    var pcs := if Sleeper(s, wake) then mid[wake := Worker(Woken)] else mid;
    s' := s.(pc := pcs);
    assert forall u :: u in mid && mid[u] == Worker(Asleep) ==> Sleeper(s, u);
    if Sleeper(s, wake) { assert mid[wake] == Worker(Asleep); }
    assert Signalled(mid, pcs);
    assert StepWith(s, t, Signal, pc, s.flags, s');
    assert Step(s, t, s');
    Fits(o, s.pc, t, pc);
    Wakes(o, mid, pcs);
    Goes(o, s, s');
  }

  lemma Wakes(o: Overlaps, pc: map<Tid, Pc>, pc': map<Tid, Pc>)
    requires Allowed(o, pc) && pc'.Keys == pc.Keys
    requires forall t :: t in pc' ==> pc'[t] == pc[t] || pc'[t].Worker?
    ensures Allowed(o, pc')
  {
  }

  lemma Creates(o: Overlaps, s: State, t: Tid, w: Tid) returns (s': State)
    requires Reached(o, s) && t in s.pc && s.pc[t] == Async(CreateThread) && w !in s.pc && Room(o, s.pc, t, false, true)
    ensures Reached(o, s')
    ensures s' == State(s.pc[t := Async(SetAsyncOk)][w := Worker(LoopTest)], s.core, s.refresh, s.flags.(worker := w))
  {
    hide Reached, Room;
    var f := s.flags.(worker := w);
    s' := State(s.pc[t := Async(SetAsyncOk)][w := Worker(LoopTest)], s.core, s.refresh, f);
    assert StepWith(s, t, Create(w), Async(SetAsyncOk), f, s');
    assert Step(s, t, s');
    Fits(o, s.pc, t, Async(SetAsyncOk));
    OneMore(o, s.pc[t := Async(SetAsyncOk)], w);
    Goes(o, s, s');
  }

  lemma OneMore(o: Overlaps, pc: map<Tid, Pc>, w: Tid)
    requires Allowed(o, pc) && w !in pc
    ensures Allowed(o, pc[w := Worker(LoopTest)])
  {
  }

  lemma Joins(o: Overlaps, s: State, t: Tid, w: Tid) returns (s': State)
    requires Reached(o, s) && t in s.pc && s.pc[t] == Clear(JoinWorker(w))
    requires w in s.pc && s.pc[w] == Worker(WorkerPc.Done)
    requires Room(o, s.pc, t, true, false)
    ensures Reached(o, s') && s' == s.(pc := s.pc[t := Clear(ResetAsyncOk)][w := Worker(Joined)])
  {
    hide Reached, Room;
    s' := s.(pc := s.pc[t := Clear(ResetAsyncOk)][w := Worker(Joined)]);
    assert StepWith(s, t, Join(w), Clear(ResetAsyncOk), s.flags, s');
    assert Step(s, t, s');
    Fits(o, s.pc, t, Clear(ResetAsyncOk));
    Wakes(o, s.pc[t := Clear(ResetAsyncOk)], s'.pc);
    Goes(o, s, s');
  }

  /** A thread's own moves leave the room it has. */
  lemma SameRoom(o: Overlaps, pc: map<Tid, Pc>, t: Tid, pc': Pc, clear: bool, make: bool)
    requires Room(o, pc, t, clear, make)
    ensures Room(o, pc[t := pc'], t, clear, make) && Room(o, pc, t, false, false)
    ensures Room(o, pc, t, clear, false) && Room(o, pc, t, false, make)
  {
    hide MakesThread;
  }

  /** So stretches of code that one thread runs alone can be put together. */
  lemma Then(o: Overlaps, s: State, t: Tid, act: Act, pc: Pc, f: Flags, clear: bool, make: bool) returns (s': State)
    requires Reached(o, s) && t in s.pc && ThreadStep(s.flags, s.pc[t], act, pc, f) && CanAct(s, act)
    requires Room(o, s.pc, t, clear, make) && (pc.Clear? ==> clear) && (!pc.Clear? && MakesThread(pc) ==> make)
    ensures Reached(o, s') && Room(o, s'.pc, t, clear, make)
    ensures s' == State(s.pc[t := pc], CoreAfter(s, t, act), RefreshAfter(s, t, act), f)
  {
    hide ThreadStep, Reached, Room, MakesThread;
    SameRoom(o, s.pc, t, pc, clear, make);
    if pc.Clear? { ClearsMakeNone(pc); }
    s' := Takes(o, s, t, act, pc, f);
  }

  // ---------- stretches of the code ----------

  /** xh_core_init_once, the first time, up to the flag. */
  lemma BeginsInit(o: Overlaps, s: State, t: Tid) returns (s': State)
    requires Reached(o, s) && t in s.pc && s.pc[t] == Init(ReadInited, true) && s.core == Free && !s.flags.inited
    requires Room(o, s.pc, t, false, false)
    ensures Reached(o, s') && Room(o, s'.pc, t, false, false)
    ensures s' == State(s.pc[t := Init(SetInited, true)], HeldBy(t), s.refresh, s.flags)
  {
    hide Reached, Room, AsyncOnceStep, RequestStep, WorkerStep, ClearStep, CallStep, MakesThread;
    NoMaker(Init(LockInit, true));
    NoMaker(Init(RecheckInited, true));
    NoMaker(Init(SetInited, true));
    s' := Then(o, s, t, Nothing, Init(LockInit, true), s.flags, false, false);
    s' := Then(o, s', t, LockCore, Init(RecheckInited, true), s'.flags, false, false);
    s' := Then(o, s', t, Nothing, Init(SetInited, true), s'.flags, false, false);
    assert s'.pc == s.pc[t := Init(SetInited, true)];
  }

  lemma NoMaker(pc: Pc)
    requires !pc.Async?
    ensures !MakesThread(pc)
  {
  }

  /** And the rest of it. */
  lemma EndsInit(o: Overlaps, s: State, t: Tid) returns (s': State)
    requires Reached(o, s) && t in s.pc && s.pc[t] == Init(SetInited, true)
    requires Room(o, s.pc, t, false, false)
    ensures Reached(o, s') && Room(o, s'.pc, t, false, false)
    ensures s' == State(s.pc[t := Init(CheckInitOk, true)], Free, s.refresh, s.flags.(inited := true, initOk := true))
  {
    hide Reached, Room, AsyncOnceStep, RequestStep, WorkerStep, ClearStep, CallStep, MakesThread;
    NoMaker(Init(SetInitOk, true));
    NoMaker(Init(UnlockInit, true));
    NoMaker(Init(CheckInitOk, true));
    s' := Then(o, s, t, Nothing, Init(SetInitOk, true), s.flags.(inited := true), false, false);
    s' := Then(o, s', t, Nothing, Init(UnlockInit, true), s'.flags.(initOk := true), false, false);
    s' := Then(o, s', t, UnlockCore, Init(CheckInitOk, true), s'.flags, false, false);
    assert s'.pc == s.pc[t := Init(CheckInitOk, true)];
  }

  /** An asynchronous refresh, up to the async part. */
  lemma Enters(o: Overlaps, s: State, t: Tid) returns (s': State)
    requires Reached(o, s) && t in s.pc && s.pc[t] == Idle && s.core == Free && !s.flags.inited
    requires Room(o, s.pc, t, false, false)
    ensures Reached(o, s')
    ensures s' == s.(pc := s.pc[t := Async(ReadAsync)], flags := s.flags.(inited := true, initOk := true))
  {
    hide Reached, Room, AsyncOnceStep, RequestStep, WorkerStep, ClearStep;
    s' := Then(o, s, t, Nothing, Init(ReadInited, true), s.flags, false, false);
    s' := BeginsInit(o, s', t);
    s' := EndsInit(o, s', t);
    s' := Then(o, s', t, Nothing, Async(ReadAsync), s'.flags, false, false);
    assert s'.pc == s.pc[t := Async(ReadAsync)];
  }

  /** xh_core_init_async_once creates thread w; the core mutex is still held. */
  lemma Makes(o: Overlaps, s: State, t: Tid, w: Tid) returns (s': State)
    requires Reached(o, s) && t in s.pc && s.pc[t] == Async(ReadAsync) && s.core == Free && w !in s.pc
    requires !s.flags.asyncInited && Room(o, s.pc, t, false, true)
    ensures Reached(o, s')
    ensures s' == State(s.pc[t := Async(SetAsyncOk)][w := Worker(LoopTest)], HeldBy(t), s.refresh,
                        s.flags.(asyncInited := true, running := true, worker := w))
  {
    hide Reached, Room, InitOnceStep, RequestStep, WorkerStep, ClearStep, CallStep;
    s' := Then(o, s, t, Nothing, Async(LockAsync), s.flags, false, true);
    s' := Then(o, s', t, LockCore, Async(RecheckAsync), s'.flags, false, true);
    s' := Then(o, s', t, Nothing, Async(SetAsync), s'.flags, false, true);
    s' := Then(o, s', t, Nothing, Async(SetRunning), s'.flags.(asyncInited := true), false, true);
    s' := Then(o, s', t, Nothing, Async(CreateThread), s'.flags.(running := true), false, true);
    s' := Creates(o, s', t, w);
    assert s'.pc == s.pc[t := Async(SetAsyncOk)][w := Worker(LoopTest)];
  }

  /** And leaves it again. */
  lemma Leaves(o: Overlaps, s: State, t: Tid) returns (s': State)
    requires Reached(o, s) && t in s.pc && s.pc[t] == Async(SetAsyncOk) && Room(o, s.pc, t, false, false)
    ensures Reached(o, s')
    ensures s' == State(s.pc[t := Async(CheckAsyncOk)], Free, s.refresh, s.flags.(asyncInitOk := true))
  {
    hide Reached, Room, InitOnceStep, RequestStep, WorkerStep, ClearStep, CallStep;
    s' := Then(o, s, t, Nothing, Async(UnlockAsync), s.flags.(asyncInitOk := true), false, false);
    s' := Then(o, s', t, UnlockCore, Async(CheckAsyncOk), s'.flags, false, false);
    assert s'.pc == s.pc[t := Async(CheckAsyncOk)];
  }

  /** Clear, up to its signal. */
  lemma BeginsStop(o: Overlaps, s: State, t: Tid) returns (s': State)
    requires Reached(o, s) && t in s.pc && s.pc[t] == Idle && s.core == Free && s.flags.asyncInitOk
    requires Room(o, s.pc, t, true, false)
    ensures Reached(o, s') && Room(o, s'.pc, t, true, false)
    ensures s' == State(s.pc[t := Clear(SignalStop)], HeldBy(t), s.refresh, s.flags.(running := false))
  {
    hide Reached, Room, InitOnceStep, AsyncOnceStep, RequestStep, WorkerStep;
    s' := Then(o, s, t, Nothing, Clear(ReadAsyncOk), s.flags, true, false);
    s' := Then(o, s', t, Nothing, Clear(LockStop), s'.flags, true, false);
    s' := Then(o, s', t, LockCore, Clear(StopRunning), s'.flags, true, false);
    s' := Then(o, s', t, Nothing, Clear(SignalStop), s'.flags.(running := false), true, false);
    assert s'.pc == s.pc[t := Clear(SignalStop)];
  }

  /** From the signal to the join; wake wakes up if anyone sleeps. */
  lemma EndsStop(o: Overlaps, s: State, t: Tid, wake: Tid) returns (s': State)
    requires Reached(o, s) && t in s.pc && s.pc[t] == Clear(SignalStop) && wake != t
    requires (exists u :: Sleeper(s, u)) ==> Sleeper(s, wake)
    requires Room(o, s.pc, t, true, false)
    ensures Reached(o, s') && s'.core == Free && s'.refresh == s.refresh && s'.flags == s.flags
    ensures var stopped := s.pc[t := Clear(JoinWorker(s.flags.worker))];
      s'.pc == if Sleeper(s, wake) then stopped[wake := Worker(Woken)] else stopped
  {
    hide Reached, Room, InitOnceStep, AsyncOnceStep, RequestStep, WorkerStep, CallStep;
    s' := Signals(o, s, t, Clear(UnlockStop), wake);
    WokenRoom(o, s.pc, s'.pc, t);
    s' := Then(o, s', t, UnlockCore, Clear(ReadThread), s'.flags, true, false);
    s' := Then(o, s', t, Nothing, Clear(JoinWorker(s'.flags.worker)), s'.flags, true, false);
  }

  lemma WokenRoom(o: Overlaps, pc: map<Tid, Pc>, pc': map<Tid, Pc>, t: Tid)
    requires Room(o, pc, t, true, false) && pc'.Keys == pc.Keys
    requires forall u :: u in pc' && u != t ==> pc'[u] == pc[u] || pc'[u].Worker?
    ensures Room(o, pc', t, true, false)
  {
  }

  lemma Stops(o: Overlaps, s: State, t: Tid, wake: Tid) returns (s': State)
    requires Reached(o, s) && t in s.pc && s.pc[t] == Idle && s.core == Free && s.flags.asyncInitOk && wake != t
    requires (exists u :: Sleeper(s, u)) ==> Sleeper(s, wake)
    requires Room(o, s.pc, t, true, false)
    ensures Reached(o, s') && s'.core == Free && s'.refresh == s.refresh && s'.flags == s.flags.(running := false)
    ensures var stopped := s.pc[t := Clear(JoinWorker(s.flags.worker))];
      s'.pc == if Sleeper(s, wake) then stopped[wake := Worker(Woken)] else stopped
  {
    hide Reached, Room;
    s' := BeginsStop(o, s, t);
    assert forall u :: Sleeper(s', u) ==> Sleeper(s, u);
    s' := EndsStop(o, s', t, wake);
    assert s.pc[t := Clear(SignalStop)][t := Clear(JoinWorker(s.flags.worker))]
           == s.pc[t := Clear(JoinWorker(s.flags.worker))];
  }

  /** Clear when it finds no refresh thread, up to the flags of xh_core_init_once. */
  lemma BeginsReset(o: Overlaps, s: State, t: Tid) returns (s': State)
    requires Reached(o, s) && t in s.pc && s.pc[t] == Idle && !s.flags.asyncInitOk
    requires Room(o, s.pc, t, true, false)
    ensures Reached(o, s') && Room(o, s'.pc, t, true, false)
    ensures s' == s.(pc := s.pc[t := Clear(ReadInitOk)], flags := s.flags.(asyncInited := false))
  {
    hide Reached, Room, InitOnceStep, AsyncOnceStep, RequestStep, WorkerStep, MakesThread;
    s' := Then(o, s, t, Nothing, Clear(ReadAsyncOk), s.flags, true, false);
    s' := Then(o, s', t, Nothing, Clear(ResetAsync), s'.flags, true, false);
    s' := Then(o, s', t, Nothing, Clear(ReadInitOk), s'.flags.(asyncInited := false), true, false);
    assert s'.pc == s.pc[t := Clear(ReadInitOk)];
  }

  /** And up to the lock of its second half. */
  lemma EndsReset(o: Overlaps, s: State, t: Tid) returns (s': State)
    requires Reached(o, s) && t in s.pc && s.pc[t] == Clear(ReadInitOk) && s.flags.initOk
    requires Room(o, s.pc, t, true, false)
    ensures Reached(o, s')
    ensures s' == s.(pc := s.pc[t := Clear(LockClear)], flags := s.flags.(initOk := false, inited := false))
  {
    hide Reached, Room, InitOnceStep, AsyncOnceStep, RequestStep, WorkerStep, CallStep, MakesThread;
    s' := Then(o, s, t, Nothing, Clear(ResetInitOk), s.flags, true, false);
    s' := Then(o, s', t, Nothing, Clear(ResetInited), s'.flags.(initOk := false), true, false);
    s' := Then(o, s', t, Nothing, Clear(LockClear), s'.flags.(inited := false), true, false);
    assert s'.pc == s.pc[t := Clear(LockClear)];
  }

  /** Its second half. */
  lemma Frees(o: Overlaps, s: State, t: Tid) returns (s': State)
    requires Reached(o, s) && t in s.pc && s.pc[t] == Clear(LockClear) && s.core == s.refresh == Free
    requires Room(o, s.pc, t, true, false)
    ensures Reached(o, s') && s' == s.(pc := s.pc[t := Idle])
  {
    hide Reached, Room, InitOnceStep, AsyncOnceStep, RequestStep, WorkerStep, CallStep;
    s' := Then(o, s, t, LockCore, Clear(LockClearRefresh), s.flags, true, false);
    s' := Then(o, s', t, LockRefresh, Clear(FreeAll), s'.flags, true, false);
    s' := Then(o, s', t, UnlockRefresh, Clear(UnlockClear), s'.flags, true, false);
    s' := Then(o, s', t, UnlockCore, Idle, s'.flags, true, false);
    assert s'.pc == s.pc[t := Idle];
  }

  /** A refresh thread without a request falls asleep. */
  lemma Sleeps(o: Overlaps, s: State, w: Tid) returns (s': State)
    requires Reached(o, s) && w in s.pc && s.pc[w] == Worker(LoopTest) && s.core == Free && s.flags.running
    requires !s.flags.pending && Room(o, s.pc, w, false, false)
    ensures Reached(o, s') && s' == s.(pc := s.pc[w := Worker(Asleep)])
  {
    hide Reached, Room, InitOnceStep, AsyncOnceStep, RequestStep, ClearStep, CallStep;
    s' := Then(o, s, w, Nothing, Worker(LockLoop), s.flags, false, false);
    s' := Then(o, s', w, LockCore, Worker(WaitTest), s'.flags, false, false);
    s' := Then(o, s', w, UnlockCore, Worker(Asleep), s'.flags, false, false);
    assert s'.pc == s.pc[w := Worker(Asleep)];
  }

  // ---------- the two runs ----------

  /** There is room when no other thread is in clear, */
  lemma NoClears(o: Overlaps, pc: map<Tid, Pc>, t: Tid, clear: bool, make: bool)
    requires forall u :: u in pc && u != t ==> !pc[u].Clear?
    requires clear ==> o.creation || forall u :: u in pc && u != t ==> !MakesThread(pc[u])
    ensures Room(o, pc, t, clear, make)
  {
    hide MakesThread;
  }

  /** when clears may overlap and no other thread is creating one, */
  lemma NoMakers(o: Overlaps, pc: map<Tid, Pc>, t: Tid, clear: bool)
    requires o.clears && forall u :: u in pc && u != t ==> !MakesThread(pc[u])
    ensures Room(o, pc, t, clear, false)
  {
    hide MakesThread;
  }

  /** and when creation may overlap and only one other thread is in clear. */
  lemma OneClear(o: Overlaps, pc: map<Tid, Pc>, t: Tid, x: Tid, make: bool)
    requires o.creation && forall u :: u in pc && u != t && pc[u].Clear? ==> u == x
    ensures Room(o, pc, t, false, make)
  {
    hide MakesThread;
  }

  /** The beginning of both runs: thread t has threads x and y beside it and calls an asynchronous refresh,
      which creates thread w. */
  lemma FirstCreation(o: Overlaps, t: Tid, x: Tid, y: Tid, w: Tid) returns (s: State)
    requires |{t, x, y, w}| == 4
    ensures Reached(o, s)
    ensures s == State(map[x := Idle, y := Idle, t := Async(SetAsyncOk), w := Worker(LoopTest)], HeldBy(t), Free,
                       Flags(true, true, true, false, true, false, w, 0, 0))
  {
    hide Reached, Room;
    s := Start(o);
    NoClears(o, s.pc, x, false, false);
    s := Comes(o, s, x);
    NoClears(o, s.pc, y, false, false);
    s := Comes(o, s, y);
    NoClears(o, s.pc, t, false, false);
    s := Comes(o, s, t);
    NoClears(o, s.pc, t, false, false);
    s := Enters(o, s, t);
    NoClears(o, s.pc, t, false, true);
    s := Makes(o, s, t, w);
    assert s.pc == map[x := Idle, y := Idle, t := Async(SetAsyncOk), w := Worker(LoopTest)];
  }

  /** Two clears at once: the thread that the second one is to join has been joined already. */
  lemma JoinedTwice() returns (s: State)
    ensures Reached(Overlaps(true, false), s) && 0 in s.pc && 1 in s.pc && 2 in s.pc
    ensures s.pc[0].Clear? && s.pc[1] == Clear(JoinWorker(2)) && s.pc[2] == Worker(Joined)
  {
    hide Reached, Room;
    var o := Overlaps(true, false);
    s := FirstCreation(o, 4, 0, 1, 2);
    NoMakers(o, s.pc, 4, false);
    s := Leaves(o, s, 4);
    NoMakers(o, s.pc, 0, true);
    s := Stops(o, s, 0, 3);
    s := SecondStops(o, s);
  }

  lemma SecondStops(o: Overlaps, s: State) returns (s': State)
    requires Reached(o, s) && s.core == Free && s.flags.asyncInitOk && s.flags.worker == 2 && !s.flags.running
    requires o.clears
    requires s.pc == map[0 := Clear(JoinWorker(2)), 1 := Idle, 4 := Async(CheckAsyncOk), 2 := Worker(LoopTest)]
    ensures Reached(o, s') && 0 in s'.pc && 1 in s'.pc && 2 in s'.pc
    ensures s'.pc[0].Clear? && s'.pc[1] == Clear(JoinWorker(2)) && s'.pc[2] == Worker(Joined)
  {
    hide Reached, Room;
    NoMakers(o, s.pc, 1, true);
    s' := Stops(o, s, 1, 3);
    NoMakers(o, s'.pc, 2, false);
    s' := Takes(o, s', 2, Nothing, Worker(WorkerPc.Done), s'.flags);
    NoMakers(o, s'.pc, 0, true);
    s' := Joins(o, s', 0, 2);
  }

  /** The first part of the other run: a clear while a refresh thread is being created. */
  lemma ClearDuringCreation(o: Overlaps) returns (s: State)
    requires o.creation
    ensures Reached(o, s)
    ensures s == State(map[0 := Async(CheckAsyncOk), 1 := Idle, 4 := Idle, 2 := Worker(Asleep)], Free, Free,
                       Flags(false, false, false, true, true, false, 2, 0, 0))
  {
    hide Reached, Room;
    s := FirstCreation(o, 0, 1, 4, 2);
    NoClears(o, s.pc, 1, true, false);
    s := BeginsReset(o, s, 1);
    s := EndsReset(o, s, 1);
    OneClear(o, s.pc, 0, 1, false);
    s := Leaves(o, s, 0);
    NoClears(o, s.pc, 1, true, false);
    s := Frees(o, s, 1);
    NoClears(o, s.pc, 2, false, false);
    s := Sleeps(o, s, 2);
    assert s.pc == map[0 := Async(CheckAsyncOk), 1 := Idle, 4 := Idle, 2 := Worker(Asleep)];
  }

  /** That clear, over by now, lets a second refresh thread come into being. The signal of the next
      clear wakes one of the two, and clear waits for the other, which sleeps on. */
  lemma WaitsForSleeper() returns (s: State)
    ensures Reached(Overlaps(false, true), s) && 1 in s.pc && 3 in s.pc
    ensures s.pc[1] == Clear(JoinWorker(3)) && s.pc[3] == Worker(Asleep) && !s.flags.running
    ensures forall t :: t in s.pc && t != 1 ==> !s.pc[t].Clear? && !MakesThread(s.pc[t])
  {
    hide Reached, Room;
    var o := Overlaps(false, true);
    s := ClearDuringCreation(o);
    NoClears(o, s.pc, 4, false, false);
    s := Enters(o, s, 4);
    NoClears(o, s.pc, 4, false, true);
    s := Makes(o, s, 4, 3);
    NoClears(o, s.pc, 4, false, false);
    s := Leaves(o, s, 4);
    s := StopsAgain(o, s);
  }

  lemma StopsAgain(o: Overlaps, s: State) returns (s': State)
    requires Reached(o, s) && s.core == Free && s.flags.asyncInitOk && s.flags.worker == 3 && s.flags.running
    requires !s.flags.pending && o.creation
    requires s.pc == map[0 := Async(CheckAsyncOk), 1 := Idle, 4 := Async(CheckAsyncOk), 2 := Worker(Asleep),
                         3 := Worker(LoopTest)]
    ensures Reached(o, s') && 1 in s'.pc && 3 in s'.pc
    ensures s'.pc[1] == Clear(JoinWorker(3)) && s'.pc[3] == Worker(Asleep) && !s'.flags.running
    ensures forall t :: t in s'.pc && t != 1 ==> !s'.pc[t].Clear? && !MakesThread(s'.pc[t])
  {
    hide Reached, Room;
    NoClears(o, s.pc, 3, false, false);
    s' := Sleeps(o, s, 3);
    NoClears(o, s'.pc, 1, true, false);
    s' := Stops(o, s', 1, 2);
  }

  // ---------- exactly when clear's join is sound ----------

  lemma More(o: Overlaps, o': Overlaps, s: State)
    requires Reached(o, s) && (o.clears ==> o'.clears) && (o.creation ==> o'.creation)
    ensures Reached(o', s)
  {
    hide Run;
    var states :| RunTo(o, states, s);
    assert RunTo(o', states, s);
  }

  ghost predicate AlwaysSound(o: Overlaps) {
    forall s :: Reached(o, s) ==> JoinSound(s)
  }

  /** Over all runs with certain overlaps of clear with clear or of clear with the creation of a
      refresh thread, the join of clear is sound if and only if there is neither. */
  lemma SoundExactly(o: Overlaps)
    ensures AlwaysSound(o) <==> !o.clears && !o.creation
  {
    if o.clears {
      var s := JoinedTwice();
      More(Overlaps(true, false), o, s);
      assert !MayJoin(s, 2);
    } else if o.creation {
      var s := WaitsForSleeper();
      More(Overlaps(false, true), o, s);
      assert !MayJoin(s, 3);
    } else {
      forall s | Reached(o, s) ensures JoinSound(s) {
        var states :| RunTo(o, states, s);
        AloneIsSound(states, |states| - 1);
      }
    }
  }
}
