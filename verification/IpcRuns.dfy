/** What holds over every run of the kernel's message passing, from boot on. */
module IpcRuns {
  import opened Ipc
  import opened IpcProofs
  import opened Wrappers

  datatype Event =
    | Syscall(isSend: bool, srcDest: int, m: int)   // by the running process
    | HardInt(task: int)
    | Compute(a: int, msg: Message)                 // the running process fills one of its buffers
    | Dispatch(to: int)                             // the clock hands the processor to a runnable slot
    | Fork(parent: int, child: int)                 // MM copies a slot on which nobody is queued

  predicate Enabled(s: State, e: Event)
    requires Wellformed(s)
  {
    match e
    case Syscall(isSend, srcDest, m) =>
      !Spinner(s.current) && srcDest != s.current && m != 0
      && (Slot(srcDest) || (!isSend && (srcDest == ANY || srcDest == INTERRUPT)))
    case HardInt(task) => Slot(task)
    case Compute(_, _) => true
    case Dispatch(to) => Slot(to) && s.phase[to].Ready?
    case Fork(parent, child) => CanFork(s, parent, child) && s.queue[parent] == s.queue[child] == []
  }

  /** None when the kernel halts. */
  ghost function Step(s: State, e: Event): (r: Option<State>)
    requires Inv(s) && Enabled(s, e)
    ensures r.Some? ==> Inv(r.value)
  {
    match e
    case Syscall(isSend, srcDest, m) =>
      SyscallKeepsInv(s, s.current, isSend, srcDest, m);
      SyscallStep(s, s.current, isSend, srcDest, m)
    case HardInt(task) =>
      InterruptKeepsInv(s, task);
      Some(InterruptStep(s, task))
    case Compute(a, msg) => Some(s.(mem := s.mem[s.current := s.mem[s.current][a := msg]]))
    case Dispatch(to) => Some(s.(current := to))
    case Fork(parent, child) =>
      ForkKeepsInv(s, parent, child);
      Some(ForkStep(s, parent, child))
  }

  /** The state reached by a sequence of events, if it can happen and never halts the kernel. */
  ghost function After(es: seq<Event>): (r: Option<State>)
    ensures r.Some? ==> Inv(r.value)
  {
    if es == [] then
      BootedInv();
      Some(Booted())
    else
      var prev := After(es[..|es| - 1]);
      var e := es[|es| - 1];
      if prev.None? || !Enabled(prev.value, e) then None else Step(prev.value, e)
  }

  // ------------------------------------------------------------------ safety

  /** In no reachable state does a process wait for itself, and no rendezvous or interrupt is missed. */
  lemma Safety(es: seq<Event>)
    requires After(es).Some?
    ensures var s := After(es).value;
            && (forall p :: Slot(p) ==> !WaitsFor(s.phase, p, p))
            && (forall p, q :: Slot(p) && Slot(q) && SendsTo(s, p, q) ==> !Accepts(s.phase[q], p))
            && (forall p :: Slot(p) && s.intr[p] ==> !AcceptsInterrupt(s.phase[p]))
            && s.phase[s.current].Ready?
  {
    var s := After(es).value;
    forall p | Slot(p) ensures !WaitsFor(s.phase, p, p) {
      NoCycle(s.phase, p);
    }
  }

  /**
   A send panics exactly when letting it block would leave some chain of senders without an end, that
   is, when the kernel could not have kept its table free of cycles.
   */
  lemma PanicsExactly(s: State, p: int, dest: int, m: int)
    requires Inv(s) && Caller(s, p) && Slot(dest) && dest != p
    ensures SendStep(s, p, dest, m).None? <==> !ChainsEnd(s.phase[p := Sending(dest, m)])
  {
    if WaitsFor(s.phase, dest, p) {
      EdgeClosesCycle(s.phase, p, dest, m);
    } else {
      ChainsEndWithEdge(s.phase, p, dest, m);
    }
  }

  /** msg_receive's last assertion fails exactly for a named source not sending, with an interrupt pending. */
  lemma ReceiveHaltsExactly(s: State, p: int, src: int, m: int)
    requires Inv(s) && Caller(s, p) && src != p && (src == ANY || src == INTERRUPT || Slot(src))
    ensures ReceiveStep(s, p, src, m).None? <==> s.intr[p] && Slot(src) && !SendsTo(s, src, p)
  {
  }

  // ------------------------------------------------------------------ conservation of messages

  /** One message handed from slot to slot; `asked` is the source its receiver named. */
  datatype Packet = Packet(from: int, to: int, msg: Message, asked: int)

  /** Whom a receive takes its message from, if anyone. */
  function TakenFrom(s: State, r: int, src: int): Option<int>
    requires Wellformed(s) && Slot(r)
  {
    if s.intr[r] && (src == ANY || src == INTERRUPT) then None
    else if src == ANY && s.queue[r] != [] then Some(s.queue[r][0])
    else if Slot(src) && SendsTo(s, src, r) then Some(src)
    else None
  }

  /** The message accepted by an event: what the sender's buffer holds, under the sender's own number. */
  ghost function SentBy(s: State, e: Event): seq<Packet>
    requires Inv(s) && Enabled(s, e)
  {
    match e
    case Syscall(true, dest, m) => [Packet(s.current, dest, Load(Stamp(s, s.current, m).mem[s.current], m), dest)]
    case _ => []
  }

  /** The message delivered by an event: what the receiver's buffer holds afterwards. */
  ghost function GotBy(s: State, e: Event, s': State): seq<Packet>
    requires Inv(s) && Enabled(s, e) && Wellformed(s')
  {
    match e
    case Syscall(true, dest, m) =>
      var ph := s.phase[dest];
      if Accepts(ph, s.current) then [Packet(s.current, dest, Load(s'.mem[dest], ph.into), ph.src)] else []
    case Syscall(false, src, m) =>
      var f := TakenFrom(s, s.current, src);
      if f.Some? then [Packet(f.value, s.current, Load(s'.mem[s.current], m), src)] else []
    case _ => []
  }

  ghost function Sent(es: seq<Event>): seq<Packet>
    requires After(es).Some?
  {
    if es == [] then [] else
      var prev := es[..|es| - 1];
      Sent(prev) + SentBy(After(prev).value, es[|es| - 1])
  }

  ghost function Got(es: seq<Event>): seq<Packet>
    requires After(es).Some?
  {
    if es == [] then [] else
      var prev := es[..|es| - 1];
      Got(prev) + GotBy(After(prev).value, es[|es| - 1], After(es).value)
  }

  /** The messages that went from p to q, in order. */
  function Between(log: seq<Packet>, p: int, q: int): seq<Message> {
    if log == [] then []
    else
      var k := log[|log| - 1];
      Between(log[..|log| - 1], p, q) + (if k.from == p && k.to == q then [k.msg] else [])
  }

  function InFlight(s: State, p: int, q: int): seq<Message>
    requires Wellformed(s) && Slot(p)
  {
    if SendsTo(s, p, q) then [Load(s.mem[p], s.phase[p].out)] else []
  }

  lemma {:induction false} BetweenAppends(log: seq<Packet>, more: seq<Packet>, p: int, q: int)
    requires |more| <= 1
    ensures Between(log + more, p, q) == Between(log, p, q) + Between(more, p, q)
  {
    if more == [] {
      assert log + more == log;
    } else {
      assert (log + more)[..|log|] == log;
      assert more[..0] == [];
    }
  }

  /** Nothing is in flight that was not, as long as senders and their buffers stay as they are. */
  lemma SameInFlight(s: State, s': State, p: int, q: int)
    requires Wellformed(s) && Wellformed(s') && Slot(p)
    requires SendsTo(s', p, q) <==> SendsTo(s, p, q)
    requires SendsTo(s, p, q) ==> s'.mem[p] == s.mem[p] && s'.phase[p] == s.phase[p]
    ensures InFlight(s', p, q) == InFlight(s, p, q)
  {
  }

  /** A message taken from a blocked sender is what the receiver's buffer then holds. */
  lemma TakeConserves(s: State, r: int, f: int, m: int, src: int, p: int, q: int)
    requires Inv(s) && Slot(r) && Slot(f) && s.phase[r].Ready? && SendsTo(s, f, r) && Slot(p) && Slot(q)
    ensures var s' := Take(s, r, f, m);
            InFlight(s, p, q) == Between([Packet(f, r, Load(s'.mem[r], m), src)], p, q) + InFlight(s', p, q)
  {
    assert f != r;
    var s' := Take(s, r, f, m);
    var log := [Packet(f, r, Load(s'.mem[r], m), src)];
    assert log[..0] == [] && Between([], p, q) == [];
    if p != f || q != r {
      SameInFlight(s, s', p, q);
    }
  }

  lemma ReceiveConserves(s: State, src: int, m: int, p: int, q: int)
    requires Inv(s) && Enabled(s, Syscall(false, src, m)) && Slot(p) && Slot(q)
    requires Step(s, Syscall(false, src, m)).Some?
    ensures var s' := Step(s, Syscall(false, src, m)).value;
            InFlight(s, p, q) == Between(GotBy(s, Syscall(false, src, m), s'), p, q) + InFlight(s', p, q)
  {
    var t := Stamp(s, s.current, m);
    StampKeepsInv(s, s.current, m);
    SameInFlight(s, t, p, q);
    var f := TakenFrom(s, s.current, src);
    if f.Some? {
      if src == ANY {
        assert f.value in s.queue[s.current];
      }
      TakeConserves(t, s.current, f.value, m, src, p, q);
    } else {
      SameInFlight(t, Step(s, Syscall(false, src, m)).value, p, q);
    }
  }

  lemma SendConserves(s: State, dest: int, m: int, p: int, q: int)
    requires Inv(s) && Enabled(s, Syscall(true, dest, m)) && Step(s, Syscall(true, dest, m)).Some? && Slot(p) && Slot(q)
    ensures var (e, s') := (Syscall(true, dest, m), Step(s, Syscall(true, dest, m)).value);
            InFlight(s, p, q) + Between(SentBy(s, e), p, q) == Between(GotBy(s, e, s'), p, q) + InFlight(s', p, q)
  {
    if p != s.current {
      SameInFlight(s, Step(s, Syscall(true, dest, m)).value, p, q);
    }
  }

  lemma StepConserves(s: State, e: Event, p: int, q: int)
    requires Inv(s) && Enabled(s, e) && Step(s, e).Some? && Slot(p) && Slot(q)
    ensures var s' := Step(s, e).value;
            InFlight(s, p, q) + Between(SentBy(s, e), p, q) == Between(GotBy(s, e, s'), p, q) + InFlight(s', p, q)
  {
    match e
    case Syscall(true, dest, m) => SendConserves(s, dest, m, p, q);
    case Syscall(false, src, m) => ReceiveConserves(s, src, m, p, q);
    case Fork(_, child) => assert InFlight(Step(s, e).value, p, q) == InFlight(s, p, q);
    case _ =>
  }

  lemma Regroup<T>(a: seq<T>, b: seq<T>, c: seq<T>, d: seq<T>, e: seq<T>)
    requires b + c == d + e
    ensures a + b + c == a + d + e
  {
    assert a + b + c == a + (b + c) && a + d + e == a + (d + e);
  }

  /**
   Between any two slots the messages accepted are the messages delivered, in the same order and
   unaltered, followed by the one still in flight if the sender is blocked.
   */
  lemma {:induction false} Conservation(es: seq<Event>, p: int, q: int)
    requires After(es).Some? && Slot(p) && Slot(q)
    ensures Between(Sent(es), p, q) == Between(Got(es), p, q) + InFlight(After(es).value, p, q)
  {
    if es == [] {
    } else {
      var prev, e := es[..|es| - 1], es[|es| - 1];
      var s, s' := After(prev).value, After(es).value;
      Conservation(prev, p, q);
      StepConserves(s, e, p, q);
      BetweenAppends(Sent(prev), SentBy(s, e), p, q);
      BetweenAppends(Got(prev), GotBy(s, e, s'), p, q);
      Regroup(Between(Got(prev), p, q), InFlight(s, p, q), Between(SentBy(s, e), p, q),
              Between(GotBy(s, e, s'), p, q), InFlight(s', p, q));
    }
  }

  lemma StepRightSource(s: State, e: Event, k: Packet)
    requires Inv(s) && Enabled(s, e) && Step(s, e).Some? && k in GotBy(s, e, Step(s, e).value)
    ensures k.msg.source == k.from && (k.asked == k.from || k.asked == ANY)
  {
    if !e.isSend && e.srcDest == ANY {
      assert k.from in s.queue[s.current];
    }
  }

  /** Every delivered message carries its real sender, and a receiver that named a source hears only from it. */
  lemma {:induction false} RightSource(es: seq<Event>, k: Packet)
    requires After(es).Some? && k in Got(es)
    ensures k.msg.source == k.from && (k.asked == k.from || k.asked == ANY)
  {
    var prev, e := es[..|es| - 1], es[|es| - 1];
    if k in Got(prev) {
      RightSource(prev, k);
    } else {
      StepRightSource(After(prev).value, e, k);
    }
  }

  // ------------------------------------------------------------------ arrival order

  /** Where in the log p's latest message stands; -1 if p has sent none. */
  function LastSent(log: seq<Packet>, p: int): (r: int)
    ensures -1 <= r < |log|
    ensures r >= 0 ==> log[r].from == p
    ensures forall i :: r < i < |log| ==> log[i].from != p
  {
    if log == [] then -1
    else if log[|log| - 1].from == p then |log| - 1
    else LastSent(log[..|log| - 1], p)
  }

  ghost predicate InArrivalOrder(log: seq<Packet>, q: seq<int>) {
    forall i, j :: 0 <= i < j < |q| ==> LastSent(log, q[i]) < LastSent(log, q[j])
  }

  lemma {:induction false} WithoutOnlyLoses(q: seq<int>, p: int, x: int)
    requires x in Without(q, p)
    ensures x in q
  {
    if q == [] || q[0] == p || x == q[0] {
    } else {
      WithoutOnlyLoses(q[1..], p, x);
    }
  }

  /** The first of an ordered queue is before every other. */
  lemma FirstIsOldest(log: seq<Packet>, q: seq<int>, x: int)
    requires InArrivalOrder(log, q) && q != [] && x in q[1..]
    ensures LastSent(log, q[0]) < LastSent(log, x)
  {
    var i :| 0 <= i < |q[1..]| && q[1..][i] == x;
    assert q[i + 1] == x;
  }

  lemma {:induction false} WithoutKeepsOrder(log: seq<Packet>, q: seq<int>, p: int)
    requires InArrivalOrder(log, q)
    ensures InArrivalOrder(log, Without(q, p))
  {
    if q == [] || q[0] == p {
    } else {
      assert InArrivalOrder(log, q[1..]);
      WithoutKeepsOrder(log, q[1..], p);
      var w := Without(q[1..], p);
      forall j | 0 <= j < |w| ensures LastSent(log, q[0]) < LastSent(log, w[j]) {
        WithoutOnlyLoses(q[1..], p, w[j]);
        FirstIsOldest(log, q, w[j]);
      }
    }
  }

  lemma LaterSent(log: seq<Packet>, k: Packet, p: int)
    ensures LastSent(log + [k], p) == if k.from == p then |log| else LastSent(log, p)
  {
    assert (log + [k])[..|log|] == log;
  }

  /** A queue keeps its order when somebody else sends, and when the one who sends is appended to it. */
  lemma QueueKeepsOrder(log: seq<Packet>, k: Packet, q: seq<int>)
    requires InArrivalOrder(log, q) && k.from !in q
    ensures InArrivalOrder(log + [k], q) && InArrivalOrder(log + [k], q + [k.from])
  {
    forall p {
      LaterSent(log, k, p);
    }
  }

  lemma SendKeepsOrder(s: State, dest: int, m: int, log: seq<Packet>, d: int)
    requires Inv(s) && Enabled(s, Syscall(true, dest, m)) && Slot(d)
    requires InArrivalOrder(log, s.queue[d]) && Step(s, Syscall(true, dest, m)).Some?
    ensures InArrivalOrder(log + SentBy(s, Syscall(true, dest, m)), Step(s, Syscall(true, dest, m)).value.queue[d])
  {
    assert s.current in s.queue[d] <==> SendsTo(s, s.current, d);
    QueueKeepsOrder(log, SentBy(s, Syscall(true, dest, m))[0], s.queue[d]);
  }

  lemma OtherStepsKeepOrder(s: State, e: Event, log: seq<Packet>, d: int)
    requires Inv(s) && Enabled(s, e) && Slot(d) && !(e.Syscall? && e.isSend)
    requires InArrivalOrder(log, s.queue[d]) && Step(s, e).Some?
    ensures InArrivalOrder(log, Step(s, e).value.queue[d])
  {
    if e.Syscall? {
      var f := TakenFrom(s, s.current, e.srcDest);
      if f.Some? {
        WithoutKeepsOrder(log, s.queue[d], f.value);
      }
    }
  }

  /** Queues stand in the order in which their senders' latest messages were accepted, whatever was taken out before. */
  lemma {:induction false} ArrivalOrder(es: seq<Event>, d: int)
    requires After(es).Some? && Slot(d)
    ensures InArrivalOrder(Sent(es), After(es).value.queue[d])
  {
    if es == [] {
    } else {
      var prev, e := es[..|es| - 1], es[|es| - 1];
      ArrivalOrder(prev, d);
      if e.Syscall? && e.isSend {
        SendKeepsOrder(After(prev).value, e.srcDest, e.m, Sent(prev), d);
      } else {
        assert Sent(es) == Sent(prev);
        OtherStepsKeepOrder(After(prev).value, e, Sent(prev), d);
      }
    }
  }

  /** A receive from ANY takes the oldest message still waiting for it. */
  lemma AnyTakesOldest(es: seq<Event>, r: int, p: int)
    requires After(es).Some? && Slot(r) && SendsTo(After(es).value, p, r) && !After(es).value.intr[r]
    ensures var f := TakenFrom(After(es).value, r, ANY);
            f.Some? && LastSent(Sent(es), f.value) <= LastSent(Sent(es), p)
  {
    var q := After(es).value.queue[r];
    assert p in q;
    ArrivalOrder(es, r);
  }
}
