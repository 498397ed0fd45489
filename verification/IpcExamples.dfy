/** Short runs from boot in which the kernel halts, or would be corrupted. */
module IpcExamples {
  import opened Ipc
  import opened IpcProofs
  import opened IpcRuns
  import opened Wrappers

  lemma AfterBoot()
    ensures After([]) == Some(Booted()) && Inv(Booted())
  {
    BootedInv();
  }

  lemma AfterNext(es: seq<Event>, e: Event)
    requires After(es).Some? && Enabled(After(es).value, e)
    ensures After(es + [e]) == Step(After(es).value, e)
  {
    assert (es + [e])[..|es|] == es;
  }

  /** A task with a pending interrupt waits for a process that is not sending: msg_receive's last assertion fails. */
  lemma ReceiveHalts()
    ensures var r := After([HardInt(0)]);
            r.Some? && Enabled(r.value, Syscall(false, 1, 1)) && Step(r.value, Syscall(false, 1, 1)).None?
  {
    AfterBoot();
    AfterNext([], HardInt(0));
    assert [] + [HardInt(0)] == [HardInt(0)];
  }

  /** Slot 0 waits to send to slot 1, which then runs, as slots are ready in turn. */
  lemma SendBlocks(dest: int)
    requires 1 <= dest < 9
    ensures var r := After([Syscall(true, dest, 1)]);
            && r.Some? && r.value.phase == Booted().phase[0 := Sending(dest, 1)] && r.value.queue[dest] == [0]
            && r.value.current == 1
  {
    AfterBoot();
    var (s, e) := (Booted(), Syscall(true, dest, 1));
    var t := Stamp(s, 0, 1);
    assert t.phase == s.phase && t.queue == s.queue && t.current == 0;
    assert Follow(s.phase, dest, 1).None?;
    forall k: nat | k > 0 ensures Follow(s.phase, dest, k).None? {
      FollowStaysEnded(s.phase, dest, 1, k);
    }
    assert !WaitsFor(s.phase, dest, 0);
    AfterNext([], e);
    assert [] + [e] == [e];
  }

  /** Two processes send to each other: the second send panics. */
  lemma SendPanics()
    ensures var r := After([Syscall(true, 1, 1)]);
            r.Some? && Enabled(r.value, Syscall(true, 0, 1)) && Step(r.value, Syscall(true, 0, 1)).None?
  {
    SendBlocks(1);
    var s := After([Syscall(true, 1, 1)]).value;
    assert Follow(s.phase, 0, 0) == Some(0);
    assert Follow(s.phase, 0, 1) == Some(1);
    assert Stamp(s, 1, 1).phase == s.phase;
  }

  const INIT := 5

  lemma NotWaiting(phase: seq<Phase>, p: int, q: int)
    requires 0 <= p < |phase| && !phase[p].Sending?
    ensures !WaitsFor(phase, p, q)
  {
    assert Follow(phase, p, 0) == Some(p);
    assert Follow(phase, p, 1).None?;
    forall k: nat | k > 0 ensures Follow(phase, p, k).None? {
      FollowStaysEnded(phase, p, 1, k);
    }
  }

  /** Tasks and native processes are ready but for those in `busy`, nobody is queued or interrupted, and p runs. */
  ghost predicate Quiet(s: State, busy: map<int, Phase>, p: int) {
    && Inv(s) && s.current == p
    && (forall q :: Slot(q) ==> s.queue[q] == [] && !s.intr[q])
    && (forall q :: Slot(q) ==> s.phase[q] == if q in busy then busy[q] else if q < 9 then Ready else Vacant)
  }

  lemma Stamping(s: State, m: int)
    requires Inv(s)
    ensures var t := Stamp(s, s.current, m);
            t.phase == s.phase && t.queue == s.queue && t.intr == s.intr && t.current == s.current
  {
  }

  lemma Dispatched(s: State, busy: map<int, Phase>, p: int, to: int)
    requires Quiet(s, busy, p) && 0 <= to < 9 && to !in busy
    ensures Enabled(s, Dispatch(to)) && Step(s, Dispatch(to)).Some? && Quiet(Step(s, Dispatch(to)).value, busy, to)
  {
  }

  /** A process waits for a message that nobody is sending, and the next slot is ready. */
  lemma Waits(s: State, busy: map<int, Phase>, p: int, src: int)
    requires Quiet(s, busy, p) && 0 <= p < 6 && p !in busy && p + 1 !in busy && p != src && (Slot(src) || src == ANY)
    ensures Enabled(s, Syscall(false, src, 1)) && Step(s, Syscall(false, src, 1)).Some?
    ensures Quiet(Step(s, Syscall(false, src, 1)).value, busy[p := Receiving(src, 1)], p + 1)
  {
    Stamping(s, 1);
    if Slot(src) {
      assert src !in s.queue[p];
    }
    var t := Stamp(s, p, 1);
    assert ReceiveStep(t, p, src, 1) == Some(Block(t, p, Receiving(src, 1)));
  }

  /** A process sends to one that waits for any message. */
  lemma Delivers(s: State, busy: map<int, Phase>, p: int, dest: int)
    requires Quiet(s, busy, p) && 0 <= p < 6 && 0 <= dest < 9 && p != dest
    requires dest in busy && busy[dest] == Receiving(ANY, 1)
    ensures Enabled(s, Syscall(true, dest, 1)) && Step(s, Syscall(true, dest, 1)).Some?
    ensures Quiet(Step(s, Syscall(true, dest, 1)).value, busy - {dest}, p)
  {
    Stamping(s, 1);
    NotWaiting(s.phase, dest, p);
  }

  /** Slot 0 sends to a process that waits for another one. */
  lemma QueuesUp(s: State, busy: map<int, Phase>, dest: int)
    requires Quiet(s, busy, 0) && 0 !in busy && 1 !in busy && 0 < dest < 9 && dest in busy
    requires busy[dest].Receiving? && busy[dest].src != 0 && busy[dest].src != ANY
    ensures Enabled(s, Syscall(true, dest, 1)) && Step(s, Syscall(true, dest, 1)).Some?
    ensures var t := Step(s, Syscall(true, dest, 1)).value;
            t.phase == s.phase[0 := Sending(dest, 1)] && t.queue[dest] == [0] && t.current == 1
  {
    Stamping(s, 1);
    NotWaiting(s.phase, dest, 0);
  }

  /** INIT asks MM to fork and waits for the answer. */
  function Asked(): seq<Event> {
    [Dispatch(TASK_MM)] + [Syscall(false, ANY, 1)] + [Syscall(true, TASK_MM, 1)] + [Syscall(false, TASK_MM, 1)]
  }

  /** The process that INIT waits for is MM, and all others are ready. */
  const WAITING := map[INIT := Receiving(TASK_MM, 1)]

  lemma InitAsks()
    ensures After(Asked()).Some? && Quiet(After(Asked()).value, WAITING, 6)
  {
    AfterBoot();
    var (s0, mm) := (Booted(), map[TASK_MM := Receiving(ANY, 1)]);
    var (e1, e2, e3, e4) :=
      (Dispatch(TASK_MM), Syscall(false, ANY, 1), Syscall(true, TASK_MM, 1), Syscall(false, TASK_MM, 1));
    Dispatched(s0, map[], 0, TASK_MM);
    AfterNext([], e1);
    assert [] + [e1] == [e1];
    var s1 := After([e1]).value;
    Waits(s1, map[], TASK_MM, ANY);
    AfterNext([e1], e2);
    var s2 := After([e1] + [e2]).value;
    assert map[][TASK_MM := Receiving(ANY, 1)] == mm;
    Delivers(s2, mm, INIT, TASK_MM);
    AfterNext([e1] + [e2], e3);
    var s3 := After([e1] + [e2] + [e3]).value;
    assert mm - {TASK_MM} == map[];
    Waits(s3, map[], INIT, TASK_MM);
    AfterNext([e1] + [e2] + [e3], e4);
    assert map[][INIT := Receiving(TASK_MM, 1)] == WAITING;
  }

  /** While MM is about to fork INIT, another process is queued on it: the copy of its slot heads the same queue. */
  lemma ForkCorrupts()
    ensures var r := After(Asked() + [Dispatch(0)] + [Syscall(true, INIT, 1)] + [Dispatch(TASK_MM)]);
            r.Some? && CanFork(r.value, INIT, 9) && !Inv(ForkStep(r.value, INIT, 9))
  {
    InitAsks();
    QueuedOnInit(Asked());
  }

  lemma QueuedOnInit(es: seq<Event>)
    requires After(es).Some? && Quiet(After(es).value, WAITING, 6)
    ensures var r := After(es + [Dispatch(0)] + [Syscall(true, INIT, 1)] + [Dispatch(TASK_MM)]);
            r.Some? && CanFork(r.value, INIT, 9) && !Inv(ForkStep(r.value, INIT, 9))
  {
    var (e1, e2, e3) := (Dispatch(0), Syscall(true, INIT, 1), Dispatch(TASK_MM));
    var s0 := After(es).value;
    Dispatched(s0, WAITING, 6, 0);
    AfterNext(es, e1);
    var s1 := After(es + [e1]).value;
    QueuesUp(s1, WAITING, INIT);
    AfterNext(es + [e1], e2);
    AfterNext(es + [e1] + [e2], e3);
    ForkKeepsInv(After(es + [e1] + [e2] + [e3]).value, INIT, 9);
  }
}
