/** Runs under the priority policy: ticks pick by priority, but a process that blocks hands over in turn. */
module PolicyRuns {
  import opened Ipc
  import opened IpcProofs
  import opened IpcRuns
  import opened Scheduler
  import opened Wrappers

  /** A tick of the clock with the priorities as they stand then, or anything else that can happen but a dispatch. */
  datatype PolicyEvent = Tick(ticks: nat, prio: seq<int>) | Other(e: Event)

  predicate Possible(s: State, e: PolicyEvent)
    requires Wellformed(s)
  {
    match e
    case Tick(_, prio) => |prio| == NR_SLOTS
    case Other(x) => !x.Dispatch? && Enabled(s, x)
  }

  /** The event a tick amounts to. */
  function Meant(s: State, e: PolicyEvent): Event
    requires Wellformed(s) && Possible(s, e)
  {
    match e
    case Tick(ticks, prio) => Dispatch(PriorityPick(s.phase, prio, ticks))
    case Other(x) => x
  }

  lemma MeantIsEnabled(s: State, e: PolicyEvent)
    requires Inv(s) && Possible(s, e)
    ensures Enabled(s, Meant(s, e))
  {
    match e
    case Tick(ticks, prio) =>
      assert Spinner(FIRST_SPINNER);
      PriorityPickReady(s.phase, prio, ticks);
    case Other(_) =>
  }

  ghost function PolicyStep(s: State, e: PolicyEvent): Option<State>
    requires Inv(s) && Possible(s, e)
  {
    MeantIsEnabled(s, e);
    Step(s, Meant(s, e))
  }

  ghost function PolicyAfter(es: seq<PolicyEvent>): (r: Option<State>)
    ensures r.Some? ==> Inv(r.value)
  {
    if es == [] then
      BootedInv();
      Some(Booted())
    else
      var prev := PolicyAfter(es[..|es| - 1]);
      var e := es[|es| - 1];
      if prev.None? || !Possible(prev.value, e) then None else PolicyStep(prev.value, e)
  }

  /** Every run under the policy is a run of message passing, so that all that holds over those holds here. */
  lemma {:induction false} PolicyRunsAreRuns(es: seq<PolicyEvent>)
    requires PolicyAfter(es).Some?
    ensures exists xs :: After(xs) == PolicyAfter(es)
  {
    if es == [] {
      assert After([]) == PolicyAfter(es);
    } else {
      PolicyRunsAreRuns(es[..|es| - 1]);
      var xs :| After(xs) == PolicyAfter(es[..|es| - 1]);
      var s := After(xs).value;
      MeantIsEnabled(s, es[|es| - 1]);
      var ys := xs + [Meant(s, es[|es| - 1])];
      assert ys[..|ys| - 1] == xs;
      assert After(ys) == PolicyAfter(es);
    }
  }

  // ------------------------------------------------------------------ who becomes current

  /** The running process blocks in this system call. */
  predicate Blocks(s: State, e: PolicyEvent)
    requires Wellformed(s)
  {
    e.Other? && e.e.Syscall? && Slot(s.current)
    && if e.e.isSend then Slot(e.e.srcDest) && !Accepts(s.phase[e.e.srcDest], s.current)
       else !(s.intr[s.current] && (e.e.srcDest == ANY || e.e.srcDest == INTERRUPT))
            && TakenFrom(s, s.current, e.e.srcDest).None?
  }

  /**
   A user slot beyond the shells becomes current in just two ways: a tick in the second half of the cycle picks
   it as the ready preferred one, or a process blocks and it is the next ready slot, whatever its priority.
   */
  lemma BecomesCurrent(s: State, e: PolicyEvent, p: int)
    requires Inv(s) && Possible(s, e) && PolicyStep(s, e).Some?
    requires NR_SHARED <= p < NR_SLOTS && s.current != p
    ensures PolicyStep(s, e).value.current == p <==>
            || (e.Tick? && e.ticks % (2 * NR_SHARED) >= NR_SHARED
                && Best(s.phase, e.prio, NR_SLOTS).0 == p && s.phase[p].Ready?)
            || (Blocks(s, e) && NextReady(PolicyStep(s, e).value.phase, s.current) == p)
  {
    match e
    case Tick(ticks, prio) =>
      assert Spinner(FIRST_SPINNER);
      PickedBeyond(s.phase, prio, ticks, p);
    case Other(x) =>
      if x.Syscall? {
        CallHandsOver(s, x);
      }
  }

  lemma PickedBeyond(phase: seq<Phase>, prio: seq<int>, ticks: nat, p: int)
    requires |phase| == |prio| == NR_SLOTS && NR_SHARED <= p < NR_SLOTS
    ensures PriorityPick(phase, prio, ticks) == p <==>
            ticks % (2 * NR_SHARED) >= NR_SHARED && Best(phase, prio, NR_SLOTS).0 == p && phase[p].Ready?
  {
  }

  /** A system call that blocks hands over to the next ready slot; any other leaves its caller running. */
  lemma CallHandsOver(s: State, e: Event)
    requires Inv(s) && e.Syscall? && Enabled(s, e) && Step(s, e).Some?
    ensures var s' := Step(s, e).value;
            s'.current == if Blocks(s, Other(e)) then NextReady(s'.phase, s.current) else s.current
  {
    var t := Stamp(s, s.current, e.m);
    assert t.phase == s.phase && t.queue == s.queue && t.intr == s.intr;
  }

  // ------------------------------------------------------------------ a run in which a slot not preferred runs

  lemma PolicyNext(es: seq<PolicyEvent>, e: PolicyEvent)
    requires PolicyAfter(es).Some? && Possible(PolicyAfter(es).value, e)
    ensures PolicyAfter(es + [e]) == PolicyStep(PolicyAfter(es).value, e)
  {
    assert (es + [e])[..|es|] == es;
  }

  /** Tasks have priority 15, native processes 10, and what is forked 5. */
  function Defaults(): seq<int> { seq(NR_SLOTS, i => if i < 5 then 15 else if i < 9 then 10 else 5) }

  /** INIT forked n times, from slot 9 on. */
  function Forks(n: nat): seq<PolicyEvent> {
    if n == 0 then [Tick(4, Defaults())] else Forks(n - 1) + [Other(Fork(5, 8 + n))]
  }

  ghost predicate SlotForked(s: State, q: int, n: nat)
    requires Wellformed(s) && Slot(q)
  {
    s.queue[q] == [] && !s.intr[q] && if q < 9 + n then s.phase[q].Ready? else s.phase[q].Vacant?
  }

  /** The table then. */
  ghost predicate Forked(s: State, n: nat) {
    Inv(s) && forall q :: Slot(q) ==> SlotForked(s, q, n)
  }

  lemma OneMoreFork(s: State, n: nat)
    requires Forked(s, n) && s.current == TASK_MM && n < 28
    ensures Possible(s, Other(Fork(5, 9 + n))) && PolicyStep(s, Other(Fork(5, 9 + n))).Some?
    ensures var t := PolicyStep(s, Other(Fork(5, 9 + n))).value;
            Forked(t, n + 1) && t.current == TASK_MM
  {
    assert SlotForked(s, 5, n) && SlotForked(s, 9 + n, n);
    var t := PolicyStep(s, Other(Fork(5, 9 + n))).value;
    forall q | Slot(q) ensures SlotForked(t, q, n + 1) {
      assert SlotForked(s, q, n);
    }
  }

  lemma BootedIsForked()
    ensures Forked(Booted(), 0)
  {
    BootedInv();
  }

  /** A tick in the first half of the cycle runs the slot whose turn it is, if it is ready. */
  lemma TickRuns(s: State, n: nat, p: nat)
    requires Forked(s, n) && p < NR_SHARED && p < 9 + n
    ensures Possible(s, Tick(p, Defaults())) && PolicyStep(s, Tick(p, Defaults())) == Some(s.(current := p))
    ensures Forked(s.(current := p), n)
  {
    assert SlotForked(s, p, n);
    PickedInTurn(s.phase, Defaults(), p, p);
    MeantIsEnabled(s, Tick(p, Defaults()));
    var t := s.(current := p);
    forall q | Slot(q) ensures SlotForked(t, q, n) {
      assert SlotForked(s, q, n);
    }
  }

  ghost predicate ForkedAfter(es: seq<PolicyEvent>, n: nat) {
    PolicyAfter(es).Some? && Forked(PolicyAfter(es).value, n)
  }

  lemma ForkHappens(es: seq<PolicyEvent>, n: nat)
    requires ForkedAfter(es, n) && PolicyAfter(es).value.current == TASK_MM && n < 28
    ensures ForkedAfter(es + [Other(Fork(5, 9 + n))], n + 1)
    ensures PolicyAfter(es + [Other(Fork(5, 9 + n))]).value.current == TASK_MM
  {
    OneMoreFork(PolicyAfter(es).value, n);
    PolicyNext(es, Other(Fork(5, 9 + n)));
  }

  lemma MMRuns()
    ensures ForkedAfter(Forks(0), 0) && PolicyAfter(Forks(0)).value.current == TASK_MM
  {
    assert PolicyAfter([]) == Some(Booted());
    assert [] + [Tick(4, Defaults())] == Forks(0);
    BootedIsForked();
    TickRuns(Booted(), 0, 4);
    PolicyNext([], Tick(4, Defaults()));
  }

  lemma {:induction false} ForksHappen(n: nat)
    requires n <= 28
    ensures ForkedAfter(Forks(n), n)
    ensures PolicyAfter(Forks(n)).value.current == TASK_MM
  {
    if n == 0 {
      MMRuns();
    } else {
      ForksHappen(n - 1);
      ForkHappens(Forks(n - 1), n - 1);
      assert Forks(n) == Forks(n - 1) + [Other(Fork(5, 9 + (n - 1)))];
    }
  }

  lemma {:induction false} ForkedTop(phase: seq<Phase>, n: nat)
    requires |phase| == NR_SLOTS && NR_SHARED <= n <= NR_SLOTS
    ensures Best(phase, Defaults(), n).1 <= 5
  {
    if n == NR_SHARED {
    } else {
      ForkedTop(phase, n - 1);
    }
  }

  lemma {:induction false} LastIsBest(phase: seq<Phase>, n: nat, p: int)
    requires |phase| == NR_SLOTS && NR_SHARED <= p < n <= NR_SLOTS && !phase[p].Vacant?
    requires forall q :: p < q < NR_SLOTS ==> phase[q].Vacant?
    ensures Best(phase, Defaults(), n) == (p, 5)
    decreases n
  {
    if n - 1 == p {
      ForkedTop(phase, p);
    } else {
      LastIsBest(phase, n - 1, p);
    }
  }

  /** The shell in slot 11 waits for a message: slot 12 is next. */
  lemma ShellWaits(s: State)
    requires Forked(s, 5) && s.current == 11
    ensures var e := Other(Syscall(false, ANY, 1));
            && Possible(s, e) && PolicyStep(s, e).Some?
            && PolicyStep(s, e).value.current == 12
            && PolicyStep(s, e).value.phase == s.phase[11 := Receiving(ANY, 1)]
  {
    assert SlotForked(s, 11, 5) && SlotForked(s, 12, 5);
    var e := Syscall(false, ANY, 1);
    var t := Stamp(s, 11, 1);
    assert t.phase == s.phase && t.queue == s.queue && t.intr == s.intr && t.current == 11;
    assert ReceiveStep(t, 11, ANY, 1) == Some(Block(t, 11, Receiving(ANY, 1)));
  }

  lemma ShellHandsOver(es: seq<PolicyEvent>)
    requires ForkedAfter(es, 5)
    ensures var run := es + [Tick(11, Defaults())] + [Other(Syscall(false, ANY, 1))];
            && PolicyAfter(run).Some? && PolicyAfter(run).value.current == 12
            && Best(PolicyAfter(run).value.phase, Defaults(), NR_SLOTS).0 == 13
  {
    var s := PolicyAfter(es).value;
    TickRuns(s, 5, 11);
    PolicyNext(es, Tick(11, Defaults()));
    ShellWaits(s.(current := 11));
    PolicyNext(es + [Tick(11, Defaults())], Other(Syscall(false, ANY, 1)));
    forall q | 13 <= q < NR_SLOTS ensures s.phase[q].Vacant? <==> q > 13 {
      assert SlotForked(s, q, 5);
    }
    LastIsBest(s.phase[11 := Receiving(ANY, 1)], NR_SLOTS, 13);
  }

  /**
   With slots 9 to 13 forked, slot 13 is preferred. The shell in slot 11 runs at its tick and waits for a message,
   and slot 12 gets the processor.
   */
  lemma OthersRunToo()
    ensures var run := Forks(5) + [Tick(11, Defaults())] + [Other(Syscall(false, ANY, 1))];
            && PolicyAfter(run).Some? && PolicyAfter(run).value.current == 12
            && Best(PolicyAfter(run).value.phase, Defaults(), NR_SLOTS).0 == 13
  {
    ForksHappen(5);
    ShellHandsOver(Forks(5));
  }
}
