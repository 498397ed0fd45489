/** The process table of kernel/proc.c: flag words, wait addresses and intrusive sending queues. */
module ProcTable {
  import opened Ipc
  import opened IpcProofs
  import opened Wrappers
  import Scheduler

  const NIL := -1   // the null `struct proc *`; the others are slot numbers

  datatype Flag = SENDING | RECEIVING | WAITING | HANGING | FREE_SLOT

  datatype Proc = Proc(
    flags: set<Flag>,     // p_flags; runnable iff empty
    priority: int,
    msg: int,             // p_msg, 0 when null
    recvFrom: int,
    sendTo: int,
    hasInt: bool,
    qSending: int,
    nextSending: int,
    mem: Memory)

  function PhaseOf(p: Proc): Phase {
    if SENDING in p.flags then Sending(p.sendTo, p.msg)
    else if RECEIVING in p.flags then Receiving(p.recvFrom, p.msg)
    else if p.flags == {} then Ready
    else Vacant
  }

  /** The wait fields agree with the flag word. */
  predicate Consistent(p: Proc) {
    if p.flags == {} then p.msg == 0 && p.recvFrom == NO_TASK && p.sendTo == NO_TASK
    else if p.flags == {SENDING} then p.msg != 0 && p.recvFrom == NO_TASK
    else if p.flags == {RECEIVING} then p.msg != 0 && p.recvFrom != NO_TASK && p.sendTo == NO_TASK
    else p.flags == {FREE_SLOT}
  }

  function Phases(ps: seq<Proc>): (r: seq<Phase>)
    ensures |r| == |ps| && forall i :: 0 <= i < |ps| ==> r[i] == PhaseOf(ps[i])
  {
    seq(|ps|, i requires 0 <= i < |ps| => PhaseOf(ps[i]))
  }

  function Memories(ps: seq<Proc>): (r: seq<Memory>)
    ensures |r| == |ps| && forall i :: 0 <= i < |ps| ==> r[i] == ps[i].mem
  {
    seq(|ps|, i requires 0 <= i < |ps| => ps[i].mem)
  }

  function Interrupts(ps: seq<Proc>): (r: seq<bool>)
    ensures |r| == |ps| && forall i :: 0 <= i < |ps| ==> r[i] == ps[i].hasInt
  {
    seq(|ps|, i requires 0 <= i < |ps| => ps[i].hasInt)
  }

  function Priorities(ps: seq<Proc>): (r: seq<int>)
    ensures |r| == |ps| && forall i :: 0 <= i < |ps| ==> r[i] == ps[i].priority
  {
    seq(|ps|, i requires 0 <= i < |ps| => ps[i].priority)
  }

  /** Steps from p to x around a circle of n slots. */
  function Away(p: int, x: int, n: int): int { if p <= x then x - p else x - p + n }

  /** Every sender has a destination in the table and a message to hand over. */
  ghost predicate SendersReady(ps: seq<Proc>) {
    forall p :: 0 <= p < |ps| && SENDING in ps[p].flags ==> Slot(ps[p].sendTo) && ps[p].msg != 0
  }

  function At(q: seq<int>, i: int): int { if 0 <= i < |q| then q[i] else NIL }

  /** The null-terminated list that starts at head and runs through next_sending is q. */
  ghost predicate Linked(ps: seq<Proc>, head: int, q: seq<int>) {
    head == At(q, 0) && forall i :: 0 <= i < |q| ==> Link(ps, q, i)
  }

  ghost predicate Link(ps: seq<Proc>, q: seq<int>, i: int)
    requires 0 <= i < |q|
  {
    0 <= q[i] < |ps| && ps[q[i]].nextSending == At(q, i + 1)
  }

  ghost predicate AllLinked(ps: seq<Proc>, queues: seq<seq<int>>) {
    |ps| == |queues| && forall d :: 0 <= d < |ps| ==> Linked(ps, ps[d].qSending, queues[d])
  }

  /** No slot stands in two places of the queues. */
  ghost predicate QueuesDisjoint(queues: seq<seq<int>>) {
    forall d, i, e, j ::
      (0 <= d < |queues| && 0 <= e < |queues| && 0 <= i < |queues[d]| && 0 <= j < |queues[e]|
       && queues[d][i] == queues[e][j]) ==> d == e && i == j
  }

  ghost predicate InNoQueue(queues: seq<seq<int>>, p: int) {
    forall d, i :: 0 <= d < |queues| && 0 <= i < |queues[d]| ==> queues[d][i] != p
  }

  ghost predicate QueuesMatch(ps: seq<Proc>, queues: seq<seq<int>>) {
    forall d, p :: 0 <= d < |queues| ==>
      (p in queues[d] <==> 0 <= p < |ps| && SENDING in ps[p].flags && ps[p].sendTo == d)
  }

  /** A slot apart from its place in the queues. */
  function Body(p: Proc): Proc { p.(qSending := NIL, nextSending := NIL) }

  ghost predicate SameBodies(ps: seq<Proc>, ps': seq<Proc>) {
    |ps| == |ps'| && forall i :: 0 <= i < |ps| ==> Body(ps'[i]) == Body(ps[i])
  }

  /** The table after p has been hung behind `last`, or at the head of d's list when there is none. */
  function Appended(ps: seq<Proc>, d: int, last: int, p: int): (r: seq<Proc>)
    requires 0 <= d < |ps| && 0 <= p < |ps| && (last == NIL || 0 <= last < |ps|)
    ensures SameBodies(ps, r)
  {
    var ps' := if last == NIL then ps[d := ps[d].(qSending := p)]
               else ps[last := ps[last].(nextSending := p)];
    ps'[p := ps'[p].(nextSending := NIL)]
  }

  lemma AppendKeepsLinks(ps: seq<Proc>, queues: seq<seq<int>>, d: int, p: int)
    requires AllLinked(ps, queues) && QueuesDisjoint(queues) && InNoQueue(queues, p)
    requires 0 <= d < |ps| && 0 <= p < |ps|
    requires forall i :: 0 <= i < |queues[d]| ==> 0 <= queues[d][i] < |ps|
    ensures AllLinked(Appended(ps, d, if queues[d] == [] then NIL else queues[d][|queues[d]| - 1], p),
                      queues[d := queues[d] + [p]])
  {
    var ps' := Appended(ps, d, if queues[d] == [] then NIL else queues[d][|queues[d]| - 1], p);
    forall e | 0 <= e < |ps| ensures Linked(ps', ps'[e].qSending, queues[d := queues[d] + [p]][e]) {
      assert Linked(ps, ps[e].qSending, queues[e]);
      var q' := queues[d := queues[d] + [p]][e];
      forall i | 0 <= i < |q'| ensures Link(ps', q', i) {
        assert i < |queues[e]| ==> Link(ps, queues[e], i);
      }
    }
  }

  /** The table after `from` has been cut out of d's list, behind prev or at its head. */
  function Unhooked(ps: seq<Proc>, d: int, from: int, prev: int): (r: seq<Proc>)
    requires 0 <= d < |ps| && 0 <= from < |ps| && (prev == NIL || 0 <= prev < |ps|)
    ensures SameBodies(ps, r)
  {
    var next := ps[from].nextSending;
    var ps' := if prev == NIL then ps[d := ps[d].(qSending := next)]
               else ps[prev := ps[prev].(nextSending := next)];
    ps'[from := ps'[from].(nextSending := NIL)]
  }

  lemma UnhookedList(ps: seq<Proc>, q: seq<int>, d: int, k: int)
    requires 0 <= d < |ps| && 0 <= k < |q| && Linked(ps, ps[d].qSending, q) && NoDuplicates(q)
    requires 0 <= q[k] < |ps| && (k > 0 ==> 0 <= q[k - 1] < |ps|)
    ensures var ps' := Unhooked(ps, d, q[k], At(q, k - 1));
            Linked(ps', ps'[d].qSending, q[..k] + q[k + 1..])
  {
    var ps', q' := Unhooked(ps, d, q[k], At(q, k - 1)), q[..k] + q[k + 1..];
    assert Link(ps, q, k);
    forall i | 0 <= i < |q'| ensures Link(ps', q', i) {
      var o := if i < k then i else i + 1;
      assert Link(ps, q, o);
    }
  }

  lemma UnhookKeepsLinks(ps: seq<Proc>, queues: seq<seq<int>>, d: int, k: int)
    requires AllLinked(ps, queues) && QueuesDisjoint(queues)
    requires 0 <= d < |ps| && 0 <= k < |queues[d]|
    requires 0 <= queues[d][k] < |ps| && (k > 0 ==> 0 <= queues[d][k - 1] < |ps|)
    ensures AllLinked(Unhooked(ps, d, queues[d][k], At(queues[d], k - 1)),
                      queues[d := queues[d][..k] + queues[d][k + 1..]])
  {
    var ps' := Unhooked(ps, d, queues[d][k], At(queues[d], k - 1));
    forall e | 0 <= e < |ps| && e != d ensures Linked(ps', ps'[e].qSending, queues[e]) {
      assert Linked(ps, ps[e].qSending, queues[e]);
      forall i | 0 <= i < |queues[e]| ensures Link(ps', queues[e], i) {
        assert Link(ps, queues[e], i);
      }
    }
    UnhookedList(ps, queues[d], d, k);
  }

  lemma NothingQueued(ps: seq<Proc>, queues: seq<seq<int>>, d: int)
    requires AllLinked(ps, queues) && 0 <= d < |ps| && ps[d].qSending == NIL
    ensures queues[d] == []
  {
    assert Linked(ps, ps[d].qSending, queues[d]);
    forall i | 0 <= i < |queues[d]| ensures queues[d][i] != NIL {
      assert Link(ps, queues[d], i);
    }
  }

  /** Links do not depend on anything but the links. */
  lemma LinksOnly(ps: seq<Proc>, ps': seq<Proc>, queues: seq<seq<int>>)
    requires AllLinked(ps, queues) && |ps'| == |ps|
    requires forall i :: 0 <= i < |ps| ==> ps'[i].qSending == ps[i].qSending && ps'[i].nextSending == ps[i].nextSending
    ensures AllLinked(ps', queues)
  {
    forall e | 0 <= e < |ps| ensures Linked(ps', ps'[e].qSending, queues[e]) {
      assert Linked(ps, ps[e].qSending, queues[e]);
      forall i | 0 <= i < |queues[e]| ensures Link(ps', queues[e], i) {
        assert Link(ps, queues[e], i);
      }
    }
  }

  lemma VacantInNoQueue(s: State, child: int)
    requires Inv(s) && Slot(child) && s.phase[child].Vacant?
    ensures InNoQueue(s.queue, child)
  {
    forall d, i | 0 <= d < |s.queue| && 0 <= i < |s.queue[d]| ensures s.queue[d][i] != child {
      assert s.queue[d][i] in s.queue[d] && SendsTo(s, s.queue[d][i], d);
    }
  }

  /** A slot in no queue can be overwritten by a copy of another, whose queue then has two heads. */
  lemma CopyKeepsLinks(ps: seq<Proc>, queues: seq<seq<int>>, parent: int, child: int, priority: int)
    requires AllLinked(ps, queues) && InNoQueue(queues, child) && 0 <= parent < |ps| && 0 <= child < |ps|
    ensures AllLinked(ps[child := ps[parent].(priority := priority)], queues[child := queues[parent]])
  {
    var ps', queues' := ps[child := ps[parent].(priority := priority)], queues[child := queues[parent]];
    forall e | 0 <= e < |ps| ensures Linked(ps', ps'[e].qSending, queues'[e]) {
      var d := if e == child then parent else e;
      assert Linked(ps, ps[d].qSending, queues[d]);
      forall i | 0 <= i < |queues[d]| ensures Link(ps', queues[d], i) {
        assert Link(ps, queues[d], i);
      }
    }
  }

  lemma {:induction false} WithoutAt(q: seq<int>, k: nat)
    requires k < |q| && q[k] !in q[..k]
    ensures Without(q, q[k]) == q[..k] + q[k + 1..]
  {
    if k == 0 {
    } else {
      assert q[0] in q[..k];
      assert q[1..][..k - 1] == q[1..k];
      assert forall x :: x in q[1..k] ==> x in q[..k];
      WithoutAt(q[1..], k - 1);
    }
  }

  /** What the pointers and flag words stand for. */
  ghost function Meaning(ps: seq<Proc>, queues: seq<seq<int>>, ready: int): State {
    State(Phases(ps), Memories(ps), queues, Interrupts(ps), ready)
  }

  lemma OneSlot(ps: seq<Proc>, i: int, x: Proc, queues: seq<seq<int>>, ready: int)
    requires 0 <= i < |ps|
    ensures var s := Meaning(ps, queues, ready);
            Meaning(ps[i := x], queues, ready)
            == s.(phase := s.phase[i := PhaseOf(x)], mem := s.mem[i := x.mem], intr := s.intr[i := x.hasInt])
  {
  }

  lemma BodiesMean(ps: seq<Proc>, ps': seq<Proc>, queues: seq<seq<int>>, ready: int)
    requires SameBodies(ps, ps')
    ensures Meaning(ps', queues, ready) == Meaning(ps, queues, ready)
    ensures forall i :: 0 <= i < |ps| ==> Consistent(ps'[i]) == Consistent(ps[i]) && ps'[i].flags == ps[i].flags
  {
    forall i | 0 <= i < |ps|
      ensures PhaseOf(ps'[i]) == PhaseOf(ps[i]) && Consistent(ps'[i]) == Consistent(ps[i])
      ensures ps'[i].mem == ps[i].mem && ps'[i].hasInt == ps[i].hasInt && ps'[i].flags == ps[i].flags
    {
      assert ps'[i] == Body(ps'[i]).(qSending := ps'[i].qSending, nextSending := ps'[i].nextSending);
      assert ps[i] == Body(ps[i]).(qSending := ps[i].qSending, nextSending := ps[i].nextSending);
    }
  }

  class Kernel {
    const slots: array<Proc>          // proc_table
    var ready: int                    // p_proc_ready
    ghost var queues: seq<seq<int>>

    ghost predicate Valid()
      reads this, slots
    {
      && slots.Length == |queues| == NR_SLOTS
      && Slot(ready)
      && (forall i :: Slot(i) ==> Consistent(slots[i]))
      && AllLinked(slots[..], queues)
    }

    ghost function Abs(): State
      reads this, slots
    {
      Meaning(slots[..], queues, ready)
    }

    /** kernel_main: tasks and native processes ready, the other slots free. */
    constructor ()
      ensures Valid() && fresh(slots) && Abs() == Booted()
    {
      slots := new Proc[NR_SLOTS](i =>
        if i < 9
        then Proc({}, if i < 5 then 15 else 10, 0, NO_TASK, NO_TASK, false, NIL, NIL, map[])
        else Proc({FREE_SLOT}, 0, 0, 0, 0, false, NIL, NIL, map[]));
      ready := 0;
      queues := seq(NR_SLOTS, i => []);
    }

    method PhysCopy(to: int, b: int, from: int, a: int)
      requires slots.Length == NR_SLOTS && Slot(from) && Slot(to)
      modifies slots
      ensures slots[..] == old(slots[..])[to := old(slots[to]).(
                mem := old(slots[to]).mem[b := Load(old(slots[from]).mem, a)])]
    {
      slots[to] := slots[to].(mem := slots[to].mem[b := Load(slots[from].mem, a)]);
    }

    method RrSchedule()
      requires slots.Length == NR_SLOTS && Slot(ready)
      requires exists p :: Slot(p) && slots[p].flags == {}
      modifies this`ready
      ensures ready == NextReady(Phases(slots[..]), old(ready))
    {
      ghost var phase := Phases(slots[..]);
      ghost var runnable :| Slot(runnable) && slots[runnable].flags == {};
      var p := ready;
      if p == NR_SLOTS - 1 { p := 0; } else { p := p + 1; }
      ghost var start := p;
      ghost var gas: nat := NR_SLOTS - 1;
      while slots[p].flags != {}
        invariant Slot(p) && ready == old(ready)
        invariant Scan(phase, p, gas) == Scan(phase, start, NR_SLOTS - 1)
        invariant Away(p, runnable, NR_SLOTS) <= gas
        decreases gas
      {
        if p == NR_SLOTS - 1 { p := 0; } else { p := p + 1; }
        gas := gas - 1;
      }
      ready := p;
    }

    /** The occupied user slot of highest priority, the last of several, or null. */
    method HighestUser() returns (wanted: int)
      requires slots.Length == NR_SLOTS
      requires forall p :: Slot(p) ==> Consistent(slots[p])
      ensures wanted == Scheduler.Best(Phases(slots[..]), Priorities(slots[..]), NR_SLOTS).0
    {
      ghost var phase, prio := Phases(slots[..]), Priorities(slots[..]);
      var maxPriority := Scheduler.MIN_PRIORITY;
      wanted := NIL;
      for p := Scheduler.NR_SHARED to NR_SLOTS
        invariant Scheduler.Best(phase, prio, p) == (wanted, maxPriority)
      {
        assert Consistent(slots[p]);
        if slots[p].priority >= maxPriority && slots[p].flags != {FREE_SLOT} {
          maxPriority := slots[p].priority;
          wanted := p;
        }
      }
    }

    /** priority_schedule; `ticks` is the clock's tick counter. */
    method PrioritySchedule(ticks: nat)
      requires slots.Length == NR_SLOTS
      requires slots[FIRST_SPINNER].flags == {}
      requires forall p :: Slot(p) ==> Consistent(slots[p])
      modifies this`ready
      ensures ready == Scheduler.PriorityPick(Phases(slots[..]), Priorities(slots[..]), ticks)
    {
      var r := ticks % (2 * Scheduler.NR_SHARED);
      if r >= Scheduler.NR_SHARED {
        var wanted, found := ReadyUser();
        if found {
          ready := wanted;
          return;
        }
      }
      ready := FirstShared(r % Scheduler.NR_SHARED);
    }

    /** The preferred user slot, and whether it can run. */
    method ReadyUser() returns (wanted: int, found: bool)
      requires slots.Length == NR_SLOTS
      requires forall p :: Slot(p) ==> Consistent(slots[p])
      ensures wanted == Scheduler.Best(Phases(slots[..]), Priorities(slots[..]), NR_SLOTS).0
      ensures found <==> wanted != NIL && Phases(slots[..])[wanted].Ready?
    {
      wanted := HighestUser();
      found := wanted != NIL && slots[wanted].flags == {};
    }

    /** The first ready slot at or after `start` among the tasks, native processes and shells, in cyclic order. */
    method FirstShared(start: int) returns (p: int)
      requires slots.Length == NR_SLOTS && 0 <= start < Scheduler.NR_SHARED
      requires slots[FIRST_SPINNER].flags == {}
      ensures p == Scheduler.ScanShared(Phases(slots[..]), start, Scheduler.NR_SHARED - 1)
    {
      ghost var phase := Phases(slots[..]);
      ghost var gas: nat := Scheduler.NR_SHARED - 1;
      p := start;
      while slots[p].flags != {}
        invariant 0 <= p < Scheduler.NR_SHARED
        invariant Scheduler.ScanShared(phase, p, gas) == Scheduler.ScanShared(phase, start, Scheduler.NR_SHARED - 1)
        invariant Away(p, FIRST_SPINNER, Scheduler.NR_SHARED) <= gas
        decreases gas
      {
        p := p + 1;
        if p == Scheduler.NR_SHARED { p := 0; }
        gas := gas - 1;
      }
    }

    /** block: reschedule away from a slot that has just left the ready state. */
    method Reschedule(p: int)
      requires slots.Length == NR_SLOTS && Slot(ready) && Slot(p)
      requires slots[p].flags != {} && slots[FIRST_SPINNER].flags == {}
      modifies this`ready
      ensures ready == NextReady(Phases(slots[..]), old(ready))
    {
      RrSchedule();
    }

    /** Would a send from src to dest close a cycle of senders? */
    method Deadlock(src: int, dest: int) returns (found: bool)
      requires slots.Length == NR_SLOTS && Slot(src) && Slot(dest)
      requires SendersReady(slots[..]) && ChainEnds(Phases(slots[..]), dest)
      ensures found <==> WaitsFor(Phases(slots[..]), dest, src)
    {
      ghost var phase := Phases(slots[..]);
      ghost var e: nat :| Follow(phase, dest, e).None?;
      ghost var k: nat := 0;
      var p := dest;
      while true
        invariant Slot(p) && k < e && Follow(phase, dest, k) == Some(p)
        invariant forall j: nat :: 0 < j <= k ==> Follow(phase, dest, j) != Some(src)
        decreases e - k
      {
        if SENDING in slots[p].flags {
          assert Follow(phase, dest, k + 1) == Some(slots[p].sendTo);
          if slots[p].sendTo == src {
            PrintChain(src, dest, k + 1);
            return true;
          }
          if k + 1 == e { assert false; }
          p := slots[p].sendTo;
          k := k + 1;
          if k == e { assert false; }
        } else {
          break;
        }
      }
      forall j: nat | j > k ensures Follow(phase, dest, j) != Some(src) {
        FollowStaysEnded(phase, dest, k + 1, j);
      }
      found := false;
    }

    /** The walk that prints the cycle; it comes to src, and every slot it passes has a message pending. */
    method PrintChain(src: int, dest: int, ghost n: nat)
      requires slots.Length == NR_SLOTS && Slot(src) && Slot(dest)
      requires SendersReady(slots[..])
      requires n > 0 && Follow(Phases(slots[..]), dest, n) == Some(src)
      requires forall j: nat :: 0 < j < n ==> Follow(Phases(slots[..]), dest, j) != Some(src)
    {
      ghost var phase := Phases(slots[..]);
      var p := dest;
      ghost var k := 0;
      var again := true;
      while again
        invariant Slot(p) && 0 <= k <= n && Follow(phase, dest, k) == Some(p)
        invariant again <==> k < n
        decreases n - k
      {
        if Follow(phase, dest, k + 1).None? {
          FollowStaysEnded(phase, dest, k + 1, n);
        }
        assert SENDING in slots[p].flags;
        assert slots[p].msg != 0;
        p := slots[p].sendTo;
        k := k + 1;
        again := p != src;
      }
    }

    /** Hangs sender behind last, or at the head of dest's list when last is null. */
    method Hook(dest: int, last: int, sender: int)
      requires slots.Length == NR_SLOTS && Slot(dest) && Slot(sender) && (last == NIL || Slot(last))
      modifies slots
      ensures slots[..] == Appended(old(slots[..]), dest, last, sender)
    {
      if last != NIL {
        slots[last] := slots[last].(nextSending := sender);
      } else {
        slots[dest] := slots[dest].(qSending := sender);
      }
      slots[sender] := slots[sender].(nextSending := NIL);
    }

    /** Appends sender to dest's q_sending/next_sending list. */
    method Enqueue(dest: int, sender: int)
      requires slots.Length == NR_SLOTS && Slot(dest) && Slot(sender)
      requires AllLinked(slots[..], queues) && QueuesDisjoint(queues) && InNoQueue(queues, sender)
      modifies this`queues, slots
      ensures AllLinked(slots[..], queues) && SameBodies(old(slots[..]), slots[..])
      ensures queues == old(queues)[dest := old(queues)[dest] + [sender]]
    {
      ghost var q, ps := queues[dest], slots[..];
      assert Linked(ps, ps[dest].qSending, q);
      var p := slots[dest].qSending;
      if p != NIL {
        ghost var k := 0;
        assert Link(ps, q, 0);
        while slots[p].nextSending != NIL
          invariant 0 <= k < |q| && p == q[k] && Slot(p)
          decreases |q| - k
        {
          assert Link(ps, q, k);
          p := slots[p].nextSending;
          k := k + 1;
          assert Link(ps, q, k);
        }
        assert Link(ps, q, k);
      }
      forall i | 0 <= i < |q| ensures 0 <= q[i] < |ps| {
        assert Link(ps, q, i);
      }
      Hook(dest, p, sender);
      AppendKeepsLinks(ps, queues, dest, sender);
      queues := queues[dest := queues[dest] + [sender]];
    }

    method Unhook(r: int, from: int, prev: int)
      requires slots.Length == NR_SLOTS && Slot(r) && Slot(from) && (prev == NIL || Slot(prev))
      requires from == slots[r].qSending <==> prev == NIL
      modifies slots
      ensures slots[..] == Unhooked(old(slots[..]), r, from, prev)
    {
      if from == slots[r].qSending { /* the 1st one */
        assert prev == NIL;
        slots[r] := slots[r].(qSending := slots[from].nextSending);
        slots[from] := slots[from].(nextSending := NIL);
      } else {
        assert prev != NIL;
        slots[prev] := slots[prev].(nextSending := slots[from].nextSending);
        slots[from] := slots[from].(nextSending := NIL);
      }
    }

    /** Takes from out of r's list; prev is the sender before it, if any. */
    method Dequeue(r: int, from: int, prev: int, ghost k: int)
      requires slots.Length == NR_SLOTS && Slot(r)
      requires AllLinked(slots[..], queues) && QueuesDisjoint(queues)
      requires 0 <= k < |queues[r]| && queues[r][k] == from && prev == At(queues[r], k - 1)
      modifies this`queues, slots
      ensures AllLinked(slots[..], queues) && SameBodies(old(slots[..]), slots[..])
      ensures queues == old(queues)[r := Without(old(queues)[r], from)]
    {
      ghost var q, ps := queues[r], slots[..];
      assert Linked(ps, ps[r].qSending, q);
      assert Link(ps, q, k) && (k > 0 ==> Link(ps, q, k - 1));
      Unhook(r, from, prev);
      UnhookKeepsLinks(ps, queues, r, k);
      WithoutAt(q, k);
      queues := queues[r := q[..k] + q[k + 1..]];
    }

    // ---------------------------------------------------------------- sending and receiving

    /** What the rest of the kernel may rely on while p makes a system call. */
    ghost predicate Calling(p: int)
      reads this, slots
    {
      && Valid() && Slot(p) && ready == p
      && slots[p].flags == {} && slots[FIRST_SPINNER].flags == {} && p != FIRST_SPINNER
      && QueuesDisjoint(queues) && InNoQueue(queues, p)
      && SendersReady(slots[..]) && QueuesMatch(slots[..], queues)
    }

    /** msg_send; `ok` is false when the kernel panics on a deadlock. */
    method MsgSend(p: int, dest: int, m: int) returns (ok: bool)
      requires Calling(p) && Slot(dest) && dest != p && m != 0
      requires ChainEnds(Phases(slots[..]), dest)
      modifies this, slots
      ensures ok <==> SendStep(old(Abs()), p, dest, m).Some?
      ensures ok ==> Valid() && Abs() == SendStep(old(Abs()), p, dest, m).value
    {
      var cycle := Deadlock(p, dest);
      if cycle {
        return false;
      }
      if RECEIVING in slots[dest].flags && (slots[dest].recvFrom == p || slots[dest].recvFrom == ANY) {
        HandOver(p, dest, m);
      } else {
        BlockSender(p, dest, m);
      }
      ok := true;
    }

    /** dest is waiting for this message: copy it and release dest. */
    method HandOver(p: int, dest: int, m: int)
      requires Valid() && Slot(p) && slots[p].flags == {} && Slot(dest) && m != 0
      requires Accepts(PhaseOf(slots[dest]), p)
      modifies slots
      ensures Valid()
      ensures var s := old(Abs());
              Abs() == Deliver(s, p, m, dest, s.phase[dest].into).(phase := s.phase[dest := Ready])
    {
      ghost var s, ps := Abs(), slots[..];
      assert Consistent(ps[dest]) && Consistent(ps[p]);
      assert slots[dest].msg != 0;
      PhysCopy(dest, slots[dest].msg, p, m);
      slots[dest] := slots[dest].(msg := 0);
      slots[dest] := slots[dest].(flags := slots[dest].flags - {RECEIVING});
      slots[dest] := slots[dest].(recvFrom := NO_TASK);
      assert slots[dest].flags == {} && slots[dest].msg == 0;
      assert slots[dest].recvFrom == NO_TASK && slots[dest].sendTo == NO_TASK;
      assert slots[p].flags == {} && slots[p].msg == 0;
      assert slots[p].recvFrom == NO_TASK && slots[p].sendTo == NO_TASK;
      assert slots[..] == ps[dest := slots[dest]];
      OneSlot(ps, dest, slots[dest], queues, ready);
      LinksOnly(ps, slots[..], queues);
    }

    /** dest is not ready for this message: queue up and sleep. */
    method BlockSender(p: int, dest: int, m: int)
      requires Calling(p) && Slot(dest) && dest != p && m != 0
      modifies this, slots
      ensures Valid()
      ensures var s := old(Abs());
              Abs() == Block(s, p, Sending(dest, m)).(queue := s.queue[dest := s.queue[dest] + [p]])
    {
      ghost var s, ps := Abs(), slots[..];
      assert Consistent(ps[p]);
      slots[p] := slots[p].(flags := slots[p].flags + {SENDING});
      assert slots[p].flags == {SENDING};
      slots[p] := slots[p].(sendTo := dest);
      slots[p] := slots[p].(msg := m);
      ghost var ps1 := slots[..];
      assert ps1 == ps[p := ps1[p]];
      OneSlot(ps, p, ps1[p], queues, ready);
      LinksOnly(ps, ps1, queues);
      Enqueue(dest, p);
      BodiesMean(ps1, slots[..], queues, ready);
      assert forall i :: Slot(i) ==> Consistent(ps1[i]);
      Reschedule(p);
      assert Body(slots[p]) == Body(ps1[p]);
      assert slots[p].flags == {SENDING} && slots[p].msg != 0;
      assert slots[p].recvFrom == NO_TASK && slots[p].sendTo == dest;
    }

    /** msg_receive; `ok` is false when the closing assertion on has_int_msg fails. */
    method MsgReceive(r: int, src: int, m: int) returns (ok: bool)
      requires Calling(r) && src != r && m != 0
      requires src == ANY || src == INTERRUPT || Slot(src)
      requires forall f :: f in Abs().queue[r] ==> SendsTo(Abs(), f, r)
      modifies this, slots
      ensures ok <==> ReceiveStep(old(Abs()), r, src, m).Some?
      ensures ok ==> Valid() && Abs() == ReceiveStep(old(Abs()), r, src, m).value
    {
      if slots[r].hasInt && (src == ANY || src == INTERRUPT) {
        TakeInterrupt(r, m);
        return true;
      }
      if src == ANY {
        if slots[r].qSending != NIL {
          assert Linked(slots[..], slots[r].qSending, queues[r]);
          var from := slots[r].qSending;
          assert queues[r] != [] && from == queues[r][0] && from in queues[r];
          assert SendsTo(Abs(), from, r);
          assert Consistent(slots[r]) && SENDING in slots[from].flags && slots[from].sendTo == r;
          TakeMessage(r, from, NIL, m, 0);
          return true;
        }
        NothingQueued(slots[..], queues, r);
      } else if 0 <= src < slots.Length && SENDING in slots[src].flags && slots[src].sendTo == r {
        var prev, k := FindSender(r, src);
        TakeMessage(r, src, prev, m, k);
        return true;
      }
      ok := AwaitMessage(r, src, m);
    }

    method TakeInterrupt(r: int, m: int)
      requires Valid() && Slot(r) && slots[r].flags == {} && slots[r].hasInt && m != 0
      modifies slots
      ensures Valid()
      ensures var s := old(Abs());
              Abs() == s.(mem := s.mem[r := s.mem[r][m := Message(INTERRUPT, HARD_INT, [])]],
                          intr := s.intr[r := false])
    {
      ghost var ps := slots[..];
      assert Consistent(ps[r]);
      var msg := Message(0, 0, []);
      msg := msg.(source := INTERRUPT);
      msg := msg.(kind := HARD_INT);
      slots[r] := slots[r].(mem := slots[r].mem[m := msg]);
      slots[r] := slots[r].(hasInt := false);
      assert slots[r].flags == {} && slots[r].msg == 0 && slots[r].sendTo == NO_TASK && !slots[r].hasInt;
      assert slots[..] == ps[r := slots[r]];
      OneSlot(ps, r, slots[r], queues, ready);
      LinksOnly(ps, slots[..], queues);
    }

    /** Walks r's queue to src and remembers the sender before it. */
    method FindSender(r: int, src: int) returns (prev: int, ghost k: int)
      requires Valid() && Slot(r) && src in queues[r]
      ensures 0 <= k < |queues[r]| && queues[r][k] == src && prev == At(queues[r], k - 1)
    {
      ghost var q := queues[r];
      assert Linked(slots[..], slots[r].qSending, q);
      var p := slots[r].qSending;
      prev, k := NIL, 0;
      assert Link(slots[..], q, 0);
      while p != src
        invariant 0 <= k < |q| && p == q[k] && Slot(p) && prev == At(q, k - 1)
        invariant src !in q[..k]
        decreases |q| - k
      {
        assert Link(slots[..], q, k);
        assert q[..k + 1] == q[..k] + [q[k]];
        assert src in q[k + 1..] by {
          assert q == q[..k + 1] + q[k + 1..];
        }
        prev := p;
        p := slots[p].nextSending;
        k := k + 1;
        assert Link(slots[..], q, k);
      }
    }

    /** Takes from out of the queue, copies its message and releases it. */
    method TakeMessage(r: int, from: int, prev: int, m: int, ghost k: int)
      requires Calling(r) && m != 0
      requires 0 <= k < |queues[r]| && queues[r][k] == from && prev == At(queues[r], k - 1)
      requires Slot(from) && SENDING in slots[from].flags && slots[from].sendTo == r
      modifies this, slots
      ensures Valid()
      ensures Abs() == Take(old(Abs()), r, from, m)
    {
      ghost var ps := slots[..];
      assert Consistent(ps[r]) && Consistent(ps[from]);
      assert slots[r].flags == {} && slots[r].msg == 0;
      assert slots[r].recvFrom == NO_TASK && slots[r].sendTo == NO_TASK;
      assert slots[from].flags == {SENDING} && slots[from].msg != 0;
      assert slots[from].recvFrom == NO_TASK && slots[from].sendTo == r;
      Dequeue(r, from, prev, k);
      ghost var ps1 := slots[..];
      BodiesMean(ps, ps1, queues, ready);
      assert Body(ps1[from]) == Body(ps[from]);
      Release(r, from, m);
    }

    method Release(r: int, from: int, m: int)
      requires Valid() && Slot(r) && Slot(from) && slots[r].flags == {} && slots[from].flags == {SENDING}
      modifies slots
      ensures Valid()
      ensures var s := old(Abs());
              Abs() == Deliver(s, from, s.phase[from].out, r, m).(phase := s.phase[from := Ready])
    {
      ghost var ps := slots[..];
      assert Consistent(ps[r]) && Consistent(ps[from]);
      PhysCopy(r, m, from, slots[from].msg);
      ghost var ps1 := slots[..];
      OneSlot(ps, r, ps1[r], queues, ready);
      slots[from] := slots[from].(msg := 0);
      slots[from] := slots[from].(sendTo := NO_TASK);
      slots[from] := slots[from].(flags := slots[from].flags - {SENDING});
      assert slots[from].flags == {};
      assert slots[..] == ps1[from := slots[from]];
      OneSlot(ps1, from, slots[from], queues, ready);
      LinksOnly(ps, slots[..], queues);
    }

    /** Nothing to take: sleep until a message comes. */
    method AwaitMessage(r: int, src: int, m: int) returns (ok: bool)
      requires Calling(r) && src != NO_TASK && m != 0
      modifies this, slots
      ensures ok <==> !old(slots[r].hasInt)
      ensures Valid() && Abs() == Block(old(Abs()), r, Receiving(src, m))
    {
      ghost var ps := slots[..];
      assert Consistent(ps[r]);
      slots[r] := slots[r].(flags := slots[r].flags + {RECEIVING});
      slots[r] := slots[r].(msg := m);
      slots[r] := slots[r].(recvFrom := src);
      ghost var ps1 := slots[..];
      assert ps1 == ps[r := ps1[r]];
      OneSlot(ps, r, ps1[r], queues, ready);
      LinksOnly(ps, ps1, queues);
      Reschedule(r);
      assert slots[r].flags == {RECEIVING} && slots[r].msg != 0;
      assert slots[r].recvFrom != NO_TASK && slots[r].sendTo == NO_TASK;
      ok := !slots[r].hasInt;
    }

    /** inform_int */
    method InformInt(t: int)
      requires Valid() && Slot(t)
      modifies slots
      ensures Valid() && Abs() == InterruptStep(old(Abs()), t)
    {
      ghost var ps := slots[..];
      assert Consistent(ps[t]);
      if RECEIVING in slots[t].flags && (slots[t].recvFrom == INTERRUPT || slots[t].recvFrom == ANY) {
        var msg := Load(slots[t].mem, slots[t].msg).(source := INTERRUPT);
        msg := msg.(kind := HARD_INT);
        slots[t] := slots[t].(mem := slots[t].mem[slots[t].msg := msg]);
        slots[t] := slots[t].(msg := 0);
        slots[t] := slots[t].(hasInt := false);
        slots[t] := slots[t].(flags := slots[t].flags - {RECEIVING});
        slots[t] := slots[t].(recvFrom := NO_TASK);
        assert slots[t].flags == {} && slots[t].msg == 0;
        assert slots[t].recvFrom == NO_TASK && slots[t].sendTo == NO_TASK;
      } else {
        slots[t] := slots[t].(hasInt := true);
      }
      assert slots[..] == ps[t := slots[t]];
      OneSlot(ps, t, slots[t], queues, ready);
      LinksOnly(ps, slots[..], queues);
    }

    /** The slot do_fork fills with a copy of the parent's. */
    method Fork(parent: int, child: int, priority: int)
      requires Valid() && Inv(Abs()) && CanFork(Abs(), parent, child)
      modifies this`queues, slots
      ensures Valid() && Abs() == ForkStep(old(Abs()), parent, child)
      ensures slots[child].priority == priority
    {
      ghost var ps := slots[..];
      slots[child] := slots[parent].(priority := priority);
      queues := queues[child := queues[parent]];
      assert slots[..] == ps[child := ps[parent].(priority := priority)];
      VacantInNoQueue(old(Abs()), child);
      CopyKeepsLinks(ps, old(queues), parent, child, priority);
      OneSlot(ps, child, slots[child], queues, ready);
    }

    lemma InvSenders()
      requires Valid() && Inv(Abs())
      ensures SendersReady(slots[..]) && ChainsEnd(Phases(slots[..]))
    {
      forall q | Slot(q) && SENDING in slots[q].flags ensures Slot(slots[q].sendTo) && slots[q].msg != 0 {
        assert Consistent(slots[q]) && Abs().phase[q].Sending?;
      }
    }

    lemma InvQueues(p: int)
      requires Valid() && Inv(Abs()) && Caller(Abs(), p)
      ensures QueuesDisjoint(queues) && InNoQueue(queues, p)
    {
      forall d, i | Slot(d) && 0 <= i < |queues[d]| ensures SendsTo(Abs(), queues[d][i], d) {
        assert queues[d][i] in Abs().queue[d];
      }
    }

    lemma InvMatch()
      requires Valid() && Inv(Abs())
      ensures QueuesMatch(slots[..], queues)
    {
      forall d, q | Slot(d)
        ensures q in queues[d] <==> Slot(q) && SENDING in slots[q].flags && slots[q].sendTo == d
      {
        assert q in Abs().queue[d] <==> SendsTo(Abs(), q, d);
      }
    }

    /** Everything a system call relies on follows from the table invariant. */
    lemma InvCalling(p: int)
      requires Valid() && Inv(Abs()) && Caller(Abs(), p)
      ensures Calling(p) && ChainsEnd(Phases(slots[..]))
      ensures forall d, f :: Slot(d) && f in Abs().queue[d] ==> SendsTo(Abs(), f, d)
    {
      assert Consistent(slots[p]) && Consistent(slots[FIRST_SPINNER]);
      InvSenders();
      InvQueues(p);
      InvMatch();
    }

    method StampMessage(p: int, m: int)
      requires Valid() && Slot(p)
      modifies slots
      ensures Valid() && Abs() == Stamp(old(Abs()), p, m)
    {
      ghost var ps := slots[..];
      assert Consistent(ps[p]);
      var msg := Load(slots[p].mem, m);
      slots[p] := slots[p].(mem := slots[p].mem[m := msg.(source := p)]);
      assert slots[..] == ps[p := slots[p]];
      OneSlot(ps, p, slots[p], queues, ready);
      LinksOnly(ps, slots[..], queues);
    }

    /** sys_sendrec, called by the running process. */
    method SysSendrec(isSend: bool, srcDest: int, m: int, p: int) returns (ok: bool)
      requires Valid() && Inv(Abs()) && Caller(Abs(), p) && srcDest != p && m != 0
      requires Slot(srcDest) || (!isSend && (srcDest == ANY || srcDest == INTERRUPT))
      modifies this, slots
      ensures ok <==> SyscallStep(old(Abs()), p, isSend, srcDest, m).Some?
      ensures ok ==> Valid() && Inv(Abs()) && Abs() == SyscallStep(old(Abs()), p, isSend, srcDest, m).value
    {
      SyscallKeepsInv(Abs(), p, isSend, srcDest, m);
      StampMessage(p, m);
      InvCalling(p);
      if isSend {
        assert ChainEnds(Phases(slots[..]), srcDest);
        ok := MsgSend(p, srcDest, m);
      } else {
        ok := MsgReceive(p, srcDest, m);
      }
    }
  }
}
