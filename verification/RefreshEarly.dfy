/** A run of xhook/xh_core.c in which a call is refused although nothing has failed. */
module RefreshEarly {
  import opened RefreshThread
  import opened RefreshStop
  import opened RefreshOverlap

  const NONE := Overlaps(false, false)

  lemma RoomForAll(pc: map<Tid, Pc>, t: Tid)
    requires forall u :: u in pc ==> !pc[u].Clear?
    ensures Room(NONE, pc, t, false, false)
  {
    hide MakesThread;
  }

  /** Thread 0 has set the first flag of xh_core_init_once and not yet the second, and thread 1 has seen the first. */
  lemma BetweenFlags() returns (s: State)
    ensures Reached(NONE, s) && s.flags.requests == 0 && !s.flags.initOk
    ensures s.pc == map[0 := Init(SetInitOk, true), 1 := Init(CheckInitOk, true)]
  {
    hide Reached, Room, AsyncOnceStep, RequestStep, WorkerStep, ClearStep, MakesThread;
    s := Start(NONE);
    RoomForAll(s.pc, 0);
    s := Comes(NONE, s, 0);
    RoomForAll(s.pc, 1);
    s := Comes(NONE, s, 1);
    NoMaker(Init(ReadInited, true));
    NoMaker(Init(SetInitOk, true));
    NoMaker(Init(CheckInitOk, true));
    RoomForAll(s.pc, 0);
    s := Then(NONE, s, 0, Nothing, Init(ReadInited, true), s.flags, false, false);
    s := BeginsInit(NONE, s, 0);
    s := Then(NONE, s, 0, Nothing, Init(SetInitOk, true), s.flags.(inited := true), false, false);
    RoomForAll(s.pc, 1);
    s := Then(NONE, s, 1, Nothing, Init(ReadInited, true), s.flags, false, false);
    s := Then(NONE, s, 1, Nothing, Init(CheckInitOk, true), s.flags, false, false);
  }

  /** The first flag is set before the second, and read without the mutex: thread 1 gives up, without a request,
      and then initialization succeeds. */
  lemma RefusedEarly() returns (s: State, s1: State, s2: State)
    ensures Reached(NONE, s) && Step(s, 1, s1) && Step(s1, 0, s2)
    ensures 1 in s.pc && s.pc[1] == Init(CheckInitOk, true) && 1 in s1.pc && s1.pc[1] == Idle
    ensures s2.flags.initOk && s2.flags.requests == 0
  {
    hide Reached, Room, AsyncOnceStep, RequestStep, WorkerStep, ClearStep, CallStep;
    s := BetweenFlags();
    s1 := s.(pc := s.pc[1 := Idle]);
    assert StepWith(s, 1, Nothing, Idle, s.flags, s1);
    var f := s.flags.(initOk := true);
    s2 := s1.(pc := s1.pc[0 := Init(UnlockInit, true)], flags := f);
    assert StepWith(s1, 0, Nothing, Init(UnlockInit, true), f, s2);
  }
}
