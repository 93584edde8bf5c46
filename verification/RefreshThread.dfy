/** The refresh entry points and the asynchronous refresh thread of xhook/xh_core.c as a
    transition system: one step is one access to shared state by one thread, or a few accesses to
    flags that are only written under the mutex the thread holds. */
module RefreshThread {

  type Tid = nat

  // Where a thread is. Each name says what its next step does.

  /** xh_core_init_once. */
  datatype InitPc = ReadInited | LockInit | RecheckInited | SetInited | SetInitOk | UnlockInit | CheckInitOk

  /** xh_core_init_async_once. */
  datatype AsyncPc =
    | ReadAsync | LockAsync | RecheckAsync | SetAsync | SetRunning | CreateThread | SetAsyncOk | ResetRunning
    | UnlockAsync | CheckAsyncOk

  /** The rest of xh_core_refresh. */
  datatype RequestPc = LockRequest | SetDo | SignalDo | UnlockRequest | LockSync | SyncPass

  /** xh_core_refresh_thread_func; a thread that has ended can be joined, once. */
  datatype WorkerPc =
    | LoopTest | LockLoop | WaitTest | Asleep | Woken | TakeDo | UnlockTake | LockPass | Pass | UnlockExit
    | Done | Joined

  /** xh_core_clear. */
  datatype ClearPc =
    | ReadAsyncOk | LockStop | StopRunning | SignalStop | UnlockStop | ReadThread | JoinWorker(thread: Tid)
    | ResetAsyncOk | ResetAsync | ReadInitOk | ResetInitOk | ResetInited | LockClear | LockClearRefresh
    | FreeAll | UnlockClear

  datatype Pc = Idle | Init(init: InitPc, isAsync: bool) | Async(async: AsyncPc) | Request(req: RequestPc)
              | Worker(work: WorkerPc) | Clear(clear: ClearPc)

  /** The flags all threads see. The last two fields only count: requests made, and how
      many of them came before the latest start of a pass. */
  datatype Flags = Flags(
    inited: bool, initOk: bool, asyncInited: bool, asyncInitOk: bool,
    running: bool, pending: bool, worker: Tid,
    requests: nat, served: nat)

  datatype Owner = Free | HeldBy(thread: Tid)

  datatype State = State(pc: map<Tid, Pc>, core: Owner, refresh: Owner, flags: Flags)

  /** What a step does to the mutexes and to other threads. */
  datatype Act =
    | Nothing | LockCore | UnlockCore | LockRefresh | UnlockRefresh | Signal | Create(new': Tid) | Join(joined: Tid)

  predicate Initial(s: State) {
    s == State(map[], Free, Free, Flags(false, false, false, false, false, false, 0, 0, 0))
  }

  /** Places of xh_core_init_async_once between the recheck of its flag and its end, where a refresh
      thread is about to be created or has just been. */
  predicate MakesThread(pc: Pc) {
    || pc == Async(SetAsync) || pc == Async(SetRunning) || pc == Async(CreateThread) || pc == Async(SetAsyncOk)
    || pc == Async(ResetRunning)
  }

  // ---------- the code, one line per step ----------

  /** xh_core_init_once, from the call to the check of its outcome. Adding the handler may fail. */
  predicate InitOnceStep(f: Flags, at: InitPc, a: bool, act: Act, pc': Pc, f': Flags) {
    match at
    case ReadInited => act == Nothing && pc' == Init(if f.inited then CheckInitOk else LockInit, a) && f' == f
    case LockInit => act == LockCore && pc' == Init(RecheckInited, a) && f' == f
    case RecheckInited => act == Nothing && pc' == Init(if f.inited then UnlockInit else SetInited, a) && f' == f
    case SetInited =>
      act == Nothing && (pc' == Init(SetInitOk, a) || pc' == Init(UnlockInit, a)) && f' == f.(inited := true)
    case SetInitOk => act == Nothing && pc' == Init(UnlockInit, a) && f' == f.(initOk := true)
    case UnlockInit => act == UnlockCore && pc' == Init(CheckInitOk, a) && f' == f
    case CheckInitOk =>
      && act == Nothing && f' == f
      && pc' == if !f.initOk then Idle else if a then Async(ReadAsync) else Request(LockSync)
  }

  /** xh_core_init_async_once, from the call to the check of its outcome. */
  predicate AsyncOnceStep(f: Flags, at: AsyncPc, act: Act, pc': Pc, f': Flags) {
    match at
    case ReadAsync => act == Nothing && pc' == Async(if f.asyncInited then CheckAsyncOk else LockAsync) && f' == f
    case LockAsync => act == LockCore && pc' == Async(RecheckAsync) && f' == f
    case RecheckAsync => act == Nothing && pc' == Async(if f.asyncInited then UnlockAsync else SetAsync) && f' == f
    case SetAsync => act == Nothing && pc' == Async(SetRunning) && f' == f.(asyncInited := true)
    case SetRunning => act == Nothing && pc' == Async(CreateThread) && f' == f.(running := true)
    case CreateThread =>
      || (act == Nothing && pc' == Async(ResetRunning) && f' == f)
      || (act.Create? && pc' == Async(SetAsyncOk) && f' == f.(worker := act.new'))
    case ResetRunning => act == Nothing && pc' == Async(UnlockAsync) && f' == f.(running := false)
    case SetAsyncOk => act == Nothing && pc' == Async(UnlockAsync) && f' == f.(asyncInitOk := true)
    case UnlockAsync => act == UnlockCore && pc' == Async(CheckAsyncOk) && f' == f
    case CheckAsyncOk => act == Nothing && pc' == (if f.asyncInitOk then Request(LockRequest) else Idle) && f' == f
  }

  /** The rest of xh_core_refresh. A pass comes after every request made before its start. */
  predicate RequestStep(f: Flags, at: RequestPc, act: Act, pc': Pc, f': Flags) {
    match at
    case LockRequest => act == LockCore && pc' == Request(SetDo) && f' == f
    case SetDo => act == Nothing && pc' == Request(SignalDo) && f' == f.(pending := true, requests := f.requests + 1)
    case SignalDo => act == Signal && pc' == Request(UnlockRequest) && f' == f
    case UnlockRequest => act == UnlockCore && pc' == Idle && f' == f
    case LockSync => act == LockRefresh && pc' == Request(SyncPass) && f' == f.(served := f.requests)
    case SyncPass => act == UnlockRefresh && pc' == Idle && f' == f
  }

  /** xh_core_refresh_thread_func. A sleeper may also wake up by itself. */
  predicate WorkerStep(f: Flags, at: WorkerPc, act: Act, pc': Pc, f': Flags) {
    match at
    case LoopTest => act == Nothing && pc' == Worker(if f.running then LockLoop else Done) && f' == f
    case LockLoop => act == LockCore && pc' == Worker(WaitTest) && f' == f
    case WaitTest =>
      if !f.pending && f.running then act == UnlockCore && pc' == Worker(Asleep) && f' == f
      else act == Nothing && pc' == Worker(if f.running then TakeDo else UnlockExit) && f' == f
    case Asleep => act == Nothing && pc' == Worker(Woken) && f' == f
    case Woken => act == LockCore && pc' == Worker(WaitTest) && f' == f
    case UnlockExit => act == UnlockCore && pc' == Worker(Done) && f' == f
    case TakeDo => act == Nothing && pc' == Worker(UnlockTake) && f' == f.(pending := false)
    case UnlockTake => act == UnlockCore && pc' == Worker(LockPass) && f' == f
    case LockPass => act == LockRefresh && pc' == Worker(Pass) && f' == f.(served := f.requests)
    case Pass => act == UnlockRefresh && pc' == Worker(LoopTest) && f' == f
    case Done => false
    case Joined => false
  }

  /** xh_core_clear. */
  predicate ClearStep(f: Flags, at: ClearPc, act: Act, pc': Pc, f': Flags) {
    match at
    case ReadAsyncOk => act == Nothing && pc' == Clear(if f.asyncInitOk then LockStop else ResetAsync) && f' == f
    case LockStop => act == LockCore && pc' == Clear(StopRunning) && f' == f
    case StopRunning => act == Nothing && pc' == Clear(SignalStop) && f' == f.(running := false)
    case SignalStop => act == Signal && pc' == Clear(UnlockStop) && f' == f
    case UnlockStop => act == UnlockCore && pc' == Clear(ReadThread) && f' == f
    case ReadThread => act == Nothing && pc' == Clear(JoinWorker(f.worker)) && f' == f
    case JoinWorker(w) => act == Join(w) && pc' == Clear(ResetAsyncOk) && f' == f
    case ResetAsyncOk => act == Nothing && pc' == Clear(ResetAsync) && f' == f.(asyncInitOk := false)
    case ResetAsync => act == Nothing && pc' == Clear(ReadInitOk) && f' == f.(asyncInited := false)
    case ReadInitOk => act == Nothing && pc' == Clear(if f.initOk then ResetInitOk else ResetInited) && f' == f
    case ResetInitOk => act == Nothing && pc' == Clear(ResetInited) && f' == f.(initOk := false)
    case ResetInited => act == Nothing && pc' == Clear(LockClear) && f' == f.(inited := false)
    case LockClear => act == LockCore && pc' == Clear(LockClearRefresh) && f' == f
    case LockClearRefresh => act == LockRefresh && pc' == Clear(FreeAll) && f' == f
    case FreeAll => act == UnlockRefresh && pc' == Clear(UnlockClear) && f' == f
    case UnlockClear => act == UnlockCore && pc' == Idle && f' == f
  }

  /** An idle thread of the program calls one of the entry points. */
  predicate CallStep(f: Flags, act: Act, pc': Pc, f': Flags) {
    && act == Nothing && f' == f
    && (pc' == Init(ReadInited, true) || pc' == Init(ReadInited, false) || pc' == Clear(ReadAsyncOk))
  }

  predicate ThreadStep(f: Flags, pc: Pc, act: Act, pc': Pc, f': Flags) {
    match pc
    case Idle => CallStep(f, act, pc', f')
    case Init(at, a) => InitOnceStep(f, at, a, act, pc', f')
    case Async(at) => AsyncOnceStep(f, at, act, pc', f')
    case Request(at) => RequestStep(f, at, act, pc', f')
    case Worker(at) => WorkerStep(f, at, act, pc', f')
    case Clear(at) => ClearStep(f, at, act, pc', f')
  }

  // ---------- the system ----------

  /** pthread_cond_signal: if threads sleep on the condition at least one wakes up. */
  ghost predicate Signalled(pc: map<Tid, Pc>, pc': map<Tid, Pc>) {
    && pc'.Keys == pc.Keys
    && (forall t :: t in pc ==> pc'[t] == pc[t] || (pc[t] == Worker(Asleep) && pc'[t] == Worker(Woken)))
    && ((exists t :: t in pc && pc[t] == Worker(Asleep)) ==>
          exists t :: t in pc && pc[t] == Worker(Asleep) && pc'[t] == Worker(Woken))
  }

  /** Thread t acts, and goes on at pc with flags f. */
  ghost predicate Does(s: State, t: Tid, act: Act, pc: Pc, f: Flags, s': State) {
    match act
    case Nothing => s' == State(s.pc[t := pc], s.core, s.refresh, f)
    case LockCore => s.core == Free && s' == State(s.pc[t := pc], HeldBy(t), s.refresh, f)
    case UnlockCore => s' == State(s.pc[t := pc], Free, s.refresh, f)
    case LockRefresh => s.refresh == Free && s' == State(s.pc[t := pc], s.core, HeldBy(t), f)
    case UnlockRefresh => s' == State(s.pc[t := pc], s.core, Free, f)
    case Signal => Signalled(s.pc[t := pc], s'.pc) && s' == State(s'.pc, s.core, s.refresh, f)
    case Create(w) => w !in s.pc && s' == State(s.pc[t := pc][w := Worker(LoopTest)], s.core, s.refresh, f)
    case Join(w) =>
      w in s.pc && s.pc[w] == Worker(Done) && s' == State(s.pc[t := pc][w := Worker(Joined)], s.core, s.refresh, f)
  }

  ghost predicate StepWith(s: State, t: Tid, act: Act, pc': Pc, f': Flags, s': State) {
    t in s.pc && ThreadStep(s.flags, s.pc[t], act, pc', f') && Does(s, t, act, pc', f', s')
  }

  ghost predicate Step(s: State, t: Tid, s': State) {
    exists act, pc', f' :: StepWith(s, t, act, pc', f', s')
  }

  /** A new thread of the program. */
  predicate Arrives(s: State, t: Tid, s': State) {
    t !in s.pc && s' == s.(pc := s.pc[t := Idle])
  }

  ghost predicate Next(s: State, s': State) {
    || (exists t :: Step(s, t, s'))
    || (exists t :: Arrives(s, t, s'))
  }

  /** A finite run: the states passed through, each by a step from the one before. */
  ghost predicate Run(states: seq<State>) {
    && states != [] && Initial(states[0])
    && forall i :: 0 <= i < |states| - 1 ==> Next(states[i], states[i + 1])
  }

  /** How many of the steps from state i to state j are those of thread t. */
  ghost function StepsOf(states: seq<State>, t: Tid, i: nat, j: nat): nat
    requires i <= j < |states|
    decreases j - i
  {
    if i == j then 0 else StepsOf(states, t, i + 1, j) + if Step(states[i], t, states[i + 1]) then 1 else 0
  }

  // ---------- mutual exclusion and lock order ----------

  predicate HoldsCore(pc: Pc) {
    match pc
    case Idle => false
    case Init(i, _) => i == RecheckInited || i == SetInited || i == SetInitOk || i == UnlockInit
    case Async(a) => a != ReadAsync && a != LockAsync && a != CheckAsyncOk
    case Request(r) => r == SetDo || r == SignalDo || r == UnlockRequest
    case Worker(w) => w == WaitTest || w == TakeDo || w == UnlockTake || w == UnlockExit
    case Clear(c) =>
      || c == StopRunning || c == SignalStop || c == UnlockStop || c == LockClearRefresh || c == FreeAll
      || c == UnlockClear
  }

  predicate HoldsRefresh(pc: Pc) {
    pc == Request(SyncPass) || pc == Worker(Pass) || pc == Clear(FreeAll)
  }

  predicate WantsCore(pc: Pc) {
    match pc
    case Idle => false
    case Init(i, _) => i == LockInit
    case Async(a) => a == LockAsync
    case Request(r) => r == LockRequest
    case Worker(w) => w == LockLoop || w == Woken
    case Clear(c) => c == LockStop || c == LockClear
  }

  predicate WantsRefresh(pc: Pc) {
    pc == Request(LockSync) || pc == Worker(LockPass) || pc == Clear(LockClearRefresh)
  }

  /** The mutexes are held by exactly the threads between their lock and unlock. */
  ghost predicate Locked(s: State) {
    && (forall t :: t in s.pc ==> (HoldsCore(s.pc[t]) <==> s.core == HeldBy(t)))
    && (forall t :: t in s.pc ==> (HoldsRefresh(s.pc[t]) <==> s.refresh == HeldBy(t)))
    && (s.core.HeldBy? ==> s.core.thread in s.pc)
    && (s.refresh.HeldBy? ==> s.refresh.thread in s.pc)
  }

  /** A step locks or unlocks exactly when the held mutexes change. */
  predicate LocksLike(pc: Pc, act: Act, pc': Pc) {
    CoreLike(pc, act, pc') && RefreshLike(pc, act, pc')
  }

  predicate CoreLike(pc: Pc, act: Act, pc': Pc) {
    && (act == LockCore ==> !HoldsCore(pc) && HoldsCore(pc'))
    && (act == UnlockCore ==> HoldsCore(pc) && !HoldsCore(pc'))
    && (act != LockCore && act != UnlockCore ==> HoldsCore(pc) == HoldsCore(pc'))
  }

  predicate RefreshLike(pc: Pc, act: Act, pc': Pc) {
    && (act == LockRefresh ==> !HoldsRefresh(pc) && HoldsRefresh(pc'))
    && (act == UnlockRefresh ==> HoldsRefresh(pc) && !HoldsRefresh(pc'))
    && (act != LockRefresh && act != UnlockRefresh ==> HoldsRefresh(pc) == HoldsRefresh(pc'))
  }

  lemma WorkerCore(f: Flags, at: WorkerPc, act: Act, pc': Pc, f': Flags)
    requires WorkerStep(f, at, act, pc', f')
    ensures CoreLike(Worker(at), act, pc')
  {
  }

  lemma WorkerRefresh(f: Flags, at: WorkerPc, act: Act, pc': Pc, f': Flags)
    requires WorkerStep(f, at, act, pc', f')
    ensures RefreshLike(Worker(at), act, pc')
  {
  }

  lemma ClearCore(f: Flags, at: ClearPc, act: Act, pc': Pc, f': Flags)
    requires ClearStep(f, at, act, pc', f')
    ensures CoreLike(Clear(at), act, pc')
  {
  }

  lemma ClearRefresh(f: Flags, at: ClearPc, act: Act, pc': Pc, f': Flags)
    requires ClearStep(f, at, act, pc', f')
    ensures RefreshLike(Clear(at), act, pc')
  {
  }

  lemma AsyncCore(f: Flags, at: AsyncPc, act: Act, pc': Pc, f': Flags)
    requires AsyncOnceStep(f, at, act, pc', f')
    ensures CoreLike(Async(at), act, pc')
  {
  }

  lemma AsyncRefresh(f: Flags, at: AsyncPc, act: Act, pc': Pc, f': Flags)
    requires AsyncOnceStep(f, at, act, pc', f')
    ensures RefreshLike(Async(at), act, pc')
  {
  }

  lemma CallerCore(f: Flags, pc: Pc, act: Act, pc': Pc, f': Flags)
    requires ThreadStep(f, pc, act, pc', f') && (pc.Idle? || pc.Init? || pc.Request?)
    ensures CoreLike(pc, act, pc')
  {
  }

  lemma CallerRefresh(f: Flags, pc: Pc, act: Act, pc': Pc, f': Flags)
    requires ThreadStep(f, pc, act, pc', f') && (pc.Idle? || pc.Init? || pc.Request?)
    ensures RefreshLike(pc, act, pc')
  {
  }

  /** The code has a lock or an unlock wherever it needs one. */
  lemma StepsLock(f: Flags, pc: Pc, act: Act, pc': Pc, f': Flags)
    requires ThreadStep(f, pc, act, pc', f')
    ensures LocksLike(pc, act, pc')
  {
    hide WorkerStep, ClearStep, InitOnceStep, AsyncOnceStep, RequestStep, CallStep, CoreLike, RefreshLike;
    match pc
    case Worker(at) => WorkerCore(f, at, act, pc', f'); WorkerRefresh(f, at, act, pc', f');
    case Clear(at) => ClearCore(f, at, act, pc', f'); ClearRefresh(f, at, act, pc', f');
    case Async(at) => AsyncCore(f, at, act, pc', f'); AsyncRefresh(f, at, act, pc', f');
    case _ => CallerCore(f, pc, act, pc', f'); CallerRefresh(f, pc, act, pc', f');
  }

  lemma SignalKeepsLocks(pc: map<Tid, Pc>, pc': map<Tid, Pc>)
    requires Signalled(pc, pc')
    ensures pc'.Keys == pc.Keys
    ensures forall t :: t in pc ==> HoldsCore(pc'[t]) == HoldsCore(pc[t]) && HoldsRefresh(pc'[t]) == HoldsRefresh(pc[t])
  {
  }

  lemma LockedDoes(s: State, t: Tid, act: Act, pc: Pc, f: Flags, s': State)
    requires Locked(s) && t in s.pc && Does(s, t, act, pc, f, s') && LocksLike(s.pc[t], act, pc)
    ensures Locked(s')
  {
    hide HoldsCore, HoldsRefresh, Signalled;
    NoLocksAtStart();
    if act == Signal {
      SignalKeepsLocks(s.pc[t := pc], s'.pc);
      assert s'.pc.Keys == s.pc.Keys;
    }
  }

  lemma LockedStep(s: State, s': State)
    requires Locked(s) && Next(s, s')
    ensures Locked(s')
  {
    hide ThreadStep, Does, LocksLike;
    if t :| Step(s, t, s') {
      var act, pc', f' :| StepWith(s, t, act, pc', f', s');
      StepsLock(s.flags, s.pc[t], act, pc', f');
      LockedDoes(s, t, act, pc', f', s');
    } else {
      NoLocksAtStart();
    }
  }

  lemma NoLocksAtStart()
    ensures !HoldsCore(Idle) && !HoldsRefresh(Idle)
    ensures !HoldsCore(Worker(LoopTest)) && !HoldsRefresh(Worker(LoopTest))
    ensures !HoldsCore(Worker(WorkerPc.Done)) && !HoldsRefresh(Worker(WorkerPc.Done))
    ensures !HoldsCore(Worker(Joined)) && !HoldsRefresh(Worker(Joined))
  {
  }

  lemma {:induction false} RunLocked(states: seq<State>, i: nat)
    requires Run(states) && i < |states|
    ensures Locked(states[i])
  {
    if i > 0 {
      RunLocked(states, i - 1);
      LockedStep(states[i - 1], states[i]);
    }
  }

  /** Two threads are never inside a pass, or a pass and the freeing of all records, at once. */
  lemma PassesNeverOverlap(states: seq<State>, i: nat, t: Tid, u: Tid)
    requires Run(states) && i < |states| && t in states[i].pc && u in states[i].pc
    requires HoldsRefresh(states[i].pc[t]) && HoldsRefresh(states[i].pc[u])
    ensures t == u
  {
    RunLocked(states, i);
  }

  // ---------- joining ----------

  /** The thread last created is there, and is a worker for good. */
  predicate Known(s: State) {
    s.flags.worker in s.pc && s.pc[s.flags.worker].Worker?
  }

  /** Places reached only after a worker was created. */
  predicate Knows(pc: Pc) {
    || pc == Async(SetAsyncOk) || pc == Clear(LockStop) || pc == Clear(StopRunning) || pc == Clear(SignalStop)
    || pc == Clear(UnlockStop) || pc == Clear(ReadThread)
  }

  predicate Joinable(s: State) {
    && (s.flags.asyncInitOk ==> Known(s))
    && (forall t :: t in s.pc && Knows(s.pc[t]) ==> Known(s))
    && (forall t :: t in s.pc && s.pc[t].Clear? && s.pc[t].clear.JoinWorker? ==>
          s.pc[t].clear.thread in s.pc && s.pc[s.pc[t].clear.thread].Worker?)
  }

  /** How one step of one thread bears on who is known to be a worker, and on the count of requests. */
  predicate KnowsLike(f: Flags, pc: Pc, act: Act, pc': Pc, f': Flags) {
    && pc.Worker? == pc'.Worker?
    && (Knows(pc') ==> Knows(pc) || act.Create? || f.asyncInitOk)
    && (f'.asyncInitOk ==> f.asyncInitOk || Knows(pc))
    && (pc'.Clear? && pc'.clear.JoinWorker? ==> pc'.clear.thread == f.worker && Knows(pc))
    && f'.worker == (if act.Create? then act.new' else f.worker)
    && f'.requests >= f.requests && (act.Join? ==> pc.Clear?) && (act == Signal ==> pc' != Worker(Asleep))
  }

  lemma WorkerKnows(f: Flags, at: WorkerPc, act: Act, pc': Pc, f': Flags)
    requires WorkerStep(f, at, act, pc', f')
    ensures KnowsLike(f, Worker(at), act, pc', f')
  {
  }

  lemma AsyncKnows(f: Flags, at: AsyncPc, act: Act, pc': Pc, f': Flags)
    requires AsyncOnceStep(f, at, act, pc', f')
    ensures KnowsLike(f, Async(at), act, pc', f')
  {
  }

  lemma RequestKnows(f: Flags, at: RequestPc, act: Act, pc': Pc, f': Flags)
    requires RequestStep(f, at, act, pc', f')
    ensures KnowsLike(f, Request(at), act, pc', f')
  {
  }

  lemma EntryKnows(f: Flags, pc: Pc, act: Act, pc': Pc, f': Flags)
    requires ThreadStep(f, pc, act, pc', f') && (pc.Idle? || pc.Init?)
    ensures KnowsLike(f, pc, act, pc', f')
  {
    hide WorkerStep, ClearStep, AsyncOnceStep, RequestStep;
  }

  lemma ClearKnows(f: Flags, at: ClearPc, act: Act, pc': Pc, f': Flags)
    requires ClearStep(f, at, act, pc', f')
    ensures KnowsLike(f, Clear(at), act, pc', f')
  {
  }

  lemma StepKnows(f: Flags, pc: Pc, act: Act, pc': Pc, f': Flags)
    requires ThreadStep(f, pc, act, pc', f')
    ensures KnowsLike(f, pc, act, pc', f')
  {
    hide WorkerStep, ClearStep, InitOnceStep, AsyncOnceStep, RequestStep, CallStep, KnowsLike;
    match pc
    case Worker(at) => WorkerKnows(f, at, act, pc', f');
    case Clear(at) => ClearKnows(f, at, act, pc', f');
    case Async(at) => AsyncKnows(f, at, act, pc', f');
    case Request(at) => RequestKnows(f, at, act, pc', f');
    case _ => EntryKnows(f, pc, act, pc', f');
  }

  lemma SignalKeepsKinds(pc: map<Tid, Pc>, pc': map<Tid, Pc>)
    requires Signalled(pc, pc')
    ensures pc'.Keys == pc.Keys
    ensures forall t :: t in pc ==> pc'[t] == pc[t] || (pc[t].Worker? && pc'[t].Worker?)
  {
  }

  /** Every other thread stays where it is, or stays a worker; nobody ceases to be there. */
  ghost predicate WorkersStay(s: State, t: Tid, act: Act, pc: Pc, f: Flags, s': State) {
    && s'.flags == f && t in s'.pc && s'.pc[t] == pc
    && (forall u :: u in s.pc ==> u in s'.pc)
    && (forall u :: u in s.pc && u != t ==> s'.pc[u] == s.pc[u] || (s.pc[u].Worker? && s'.pc[u].Worker?))
    && (forall u :: u in s'.pc && u !in s.pc ==> s'.pc[u].Worker?)
    && (act.Create? ==> act.new' in s'.pc && s'.pc[act.new'].Worker?)
  }

  lemma DoesStay(s: State, t: Tid, act: Act, pc: Pc, f: Flags, s': State)
    requires t in s.pc && Does(s, t, act, pc, f, s') && (act.Join? ==> s.pc[t].Clear?)
    requires (act == Signal ==> pc != Worker(Asleep))
    ensures WorkersStay(s, t, act, pc, f, s')
  {
    hide Signalled;
    if act == Signal { SignalKeepsKinds(s.pc[t := pc], s'.pc); SignallerStays(s.pc[t := pc], s'.pc, t); }
  }

  lemma SignallerStays(pc: map<Tid, Pc>, pc': map<Tid, Pc>, t: Tid)
    requires Signalled(pc, pc') && t in pc && pc[t] != Worker(Asleep)
    ensures t in pc' && pc'[t] == pc[t]
  {
  }

  lemma JoinableDoes(s: State, t: Tid, act: Act, pc: Pc, f: Flags, s': State)
    requires Joinable(s) && t in s.pc && WorkersStay(s, t, act, pc, f, s') && KnowsLike(s.flags, s.pc[t], act, pc, f)
    ensures Joinable(s')
  {
    hide Knows;
    NothingKnown();
  }

  lemma NothingKnown()
    ensures forall w :: !Knows(Worker(w))
    ensures !Knows(Idle)
  {
  }

  lemma KnowsActs(f: Flags, pc: Pc, act: Act, pc': Pc, f': Flags)
    requires KnowsLike(f, pc, act, pc', f')
    ensures (act.Join? ==> pc.Clear?) && (act == Signal ==> pc' != Worker(Asleep))
  {
    hide Knows;
  }

  lemma JoinableStep(s: State, s': State)
    requires Joinable(s) && Next(s, s')
    ensures Joinable(s')
  {
    hide ThreadStep, Does, KnowsLike;
    if t :| Step(s, t, s') {
      var act, pc', f' :| StepWith(s, t, act, pc', f', s');
      StepKnows(s.flags, s.pc[t], act, pc', f');
      KnowsActs(s.flags, s.pc[t], act, pc', f');
      DoesStay(s, t, act, pc', f', s');
      JoinableDoes(s, t, act, pc', f', s');
    }
  }

  lemma {:induction false} RunJoinable(states: seq<State>, i: nat)
    requires Run(states) && i < |states|
    ensures Joinable(states[i])
  {
    if i > 0 {
      RunJoinable(states, i - 1);
      JoinableStep(states[i - 1], states[i]);
    }
  }

  /** Thread t cannot go on before u acts: u holds the mutex t wants, or t joins u. */
  predicate WaitsFor(s: State, t: Tid, u: Tid) {
    && t in s.pc && u in s.pc
    && (|| (WantsCore(s.pc[t]) && s.core == HeldBy(u))
        || (WantsRefresh(s.pc[t]) && s.refresh == HeldBy(u))
        || (s.pc[t] == Clear(JoinWorker(u)) && s.pc[u] != Worker(Done) && s.pc[u] != Worker(Joined)))
  }

  lemma WaitingHolder(s: State, t: Tid, u: Tid, v: Tid)
    requires Locked(s) && Joinable(s) && WaitsFor(s, t, u) && WaitsFor(s, u, v)
    ensures (s.core == HeldBy(u) && s.refresh == HeldBy(v)) || (s.pc[u].Worker? && s.core != HeldBy(u))
    ensures s.pc[u].Worker? ==> s.core == HeldBy(v) || s.refresh == HeldBy(v)
    ensures s.refresh != HeldBy(u)
  {
  }

  /** Waiting goes at most three threads deep: a thread joining the worker, the worker
      waiting for the core mutex, its holder waiting for the refresh mutex. */
  lemma NoLongWait(s: State, a: Tid, b: Tid, c: Tid, d: Tid, e: Tid)
    requires Locked(s) && Joinable(s)
    requires WaitsFor(s, a, b) && WaitsFor(s, b, c) && WaitsFor(s, c, d)
    ensures !WaitsFor(s, d, e)
  {
    hide WaitsFor, Locked, Joinable;
    WaitingHolder(s, a, b, c);
    WaitingHolder(s, b, c, d);
    if WaitsFor(s, d, e) { WaitingHolder(s, c, d, e); }
  }

  /** ts[i] waits for the next one around. */
  predicate WaitsAround(s: State, ts: seq<Tid>, i: nat) {
    i < |ts| && WaitsFor(s, ts[i], ts[Around(i, |ts|)])
  }

  function Around(i: nat, n: nat): (j: nat)
    requires i < n
    ensures j < n
  {
    if i + 1 == n then 0 else i + 1
  }

  /** No circle of threads waiting for each other, of any length, is ever reached. */
  lemma NoWaitCycle(states: seq<State>, k: nat, ts: seq<Tid>)
    requires Run(states) && k < |states| && ts != []
    ensures exists i: nat :: i < |ts| && !WaitsAround(states[k], ts, i)
  {
    hide WaitsFor, Locked, Joinable, Run;
    var s, n := states[k], |ts|;
    RunLocked(states, k);
    RunJoinable(states, k);
    var i1 := Around(0, n);
    var i2 := Around(i1, n);
    var i3 := Around(i2, n);
    if WaitsAround(s, ts, 0) && WaitsAround(s, ts, i1) && WaitsAround(s, ts, i2) && WaitsAround(s, ts, i3) {
      NoLongWait(s, ts[0], ts[i1], ts[i2], ts[i3], ts[Around(i3, n)]);
    }
  }
}
