/**
 Rendezvous message passing between the slots of the process table, without pointers:
 who waits for whom, in which order senders queue up, and what the message buffers hold.
 The class ProcTable.Kernel refines the step functions given here.
 */
module Ipc {
  import opened Wrappers

  const NR_SLOTS := 37          // NR_TASKS + NR_PROCS
  const ANY := 47               // NR_TASKS + NR_PROCS + 10
  const NO_TASK := 57           // NR_TASKS + NR_PROCS + 20
  const INTERRUPT := -10
  const HARD_INT := 1
  const TASK_MM := 4
  const FIRST_SPINNER := 6      // TestA, TestB and TestC: endless loops that never make a system call
  const LAST_SPINNER := 8

  datatype Message = Message(source: int, kind: int, payload: seq<int>)

  /** The message buffers of one process, by address; a buffer never written reads as zeros. */
  type Memory = map<int, Message>

  function Load(mem: Memory, a: int): Message {
    if a in mem then mem[a] else Message(0, 0, [])
  }

  datatype Phase =
    | Ready
    | Sending(dest: int, out: int)     // blocked; the message is in the sender's own buffer `out`
    | Receiving(src: int, into: int)   // blocked; src is a slot, ANY or INTERRUPT
    | Vacant                           // FREE_SLOT

  datatype State = State(
    phase: seq<Phase>,
    mem: seq<Memory>,
    queue: seq<seq<int>>,    // per destination, the blocked senders
    intr: seq<bool>,         // has_int_msg
    current: int)            // p_proc_ready

  predicate Slot(p: int) { 0 <= p < NR_SLOTS }

  predicate Spinner(p: int) { FIRST_SPINNER <= p <= LAST_SPINNER }

  predicate Wellformed(s: State) {
    && |s.phase| == |s.mem| == |s.queue| == |s.intr| == NR_SLOTS
    && Slot(s.current)
  }

  // ------------------------------------------------------------------ who waits for whom

  predicate SendsTo(s: State, p: int, d: int) {
    0 <= p < |s.phase| && s.phase[p].Sending? && s.phase[p].dest == d
  }

  predicate Accepts(ph: Phase, from: int) {
    ph.Receiving? && (ph.src == from || ph.src == ANY)
  }

  predicate AcceptsInterrupt(ph: Phase) {
    ph.Receiving? && (ph.src == INTERRUPT || ph.src == ANY)
  }

  /** The slot reached from p after k sending edges, if the chain is that long. */
  ghost function Follow(phase: seq<Phase>, p: int, k: nat): Option<int> {
    if k == 0 then Some(p)
    else
      var q := Follow(phase, p, k - 1);
      if q.Some? && 0 <= q.value < |phase| && phase[q.value].Sending? then Some(phase[q.value].dest) else None
  }

  /** q is reached from p along one or more sending edges. */
  ghost predicate WaitsFor(phase: seq<Phase>, p: int, q: int) {
    exists k: nat :: k > 0 && Follow(phase, p, k) == Some(q)
  }

  /** Every chain of senders comes to an end. */
  ghost predicate ChainsEnd(phase: seq<Phase>) {
    forall p :: Slot(p) ==> ChainEnds(phase, p)
  }

  ghost predicate ChainEnds(phase: seq<Phase>, p: int) {
    exists k: nat :: Follow(phase, p, k).None?
  }

  // ------------------------------------------------------------------ queues

  function Without(q: seq<int>, p: int): seq<int> {
    if q == [] then [] else if q[0] == p then q[1..] else [q[0]] + Without(q[1..], p)
  }

  ghost predicate NoDuplicates(q: seq<int>) {
    forall i, j :: 0 <= i < j < |q| ==> q[i] != q[j]
  }

  // ------------------------------------------------------------------ round robin

  function Succ(i: int): (r: int) { if i == NR_SLOTS - 1 then 0 else i + 1 }

  function Scan(phase: seq<Phase>, i: int, gas: nat): (r: int)
    requires |phase| == NR_SLOTS && Slot(i)
    ensures Slot(r)
    decreases gas
  {
    if gas == 0 || phase[i].Ready? then i else Scan(phase, Succ(i), gas - 1)
  }

  /** The first ready slot after c, in cyclic order. */
  function NextReady(phase: seq<Phase>, c: int): (r: int)
    requires |phase| == NR_SLOTS && Slot(c)
    ensures Slot(r)
  {
    Scan(phase, Succ(c), NR_SLOTS - 1)
  }

  // ------------------------------------------------------------------ steps

  function Deliver(s: State, from: int, a: int, to: int, b: int): State
    requires Wellformed(s) && Slot(from) && Slot(to)
  {
    s.(mem := s.mem[to := s.mem[to][b := Load(s.mem[from], a)]])
  }

  function Block(s: State, p: int, ph: Phase): State
    requires Wellformed(s) && Slot(p)
  {
    var phase := s.phase[p := ph];
    s.(phase := phase, current := NextReady(phase, s.current))
  }

  /** msg_send; None is the panic on a deadlock. */
  ghost function SendStep(s: State, p: int, dest: int, m: int): Option<State>
    requires Wellformed(s) && Slot(p) && Slot(dest)
  {
    if WaitsFor(s.phase, dest, p) then None
    else if Accepts(s.phase[dest], p) then
      Some(Deliver(s, p, m, dest, s.phase[dest].into).(phase := s.phase[dest := Ready]))
    else
      Some(Block(s, p, Sending(dest, m)).(queue := s.queue[dest := s.queue[dest] + [p]]))
  }

  /** Hands the message of the blocked sender f to r and releases f. */
  function Take(s: State, r: int, f: int, m: int): State
    requires Wellformed(s) && Slot(r) && Slot(f) && s.phase[f].Sending?
  {
    Deliver(s, f, s.phase[f].out, r, m).(
      phase := s.phase[f := Ready],
      queue := s.queue[r := Without(s.queue[r], f)])
  }

  /** msg_receive; None is the failing assertion on a pending interrupt. */
  function ReceiveStep(s: State, r: int, src: int, m: int): Option<State>
    requires Wellformed(s) && Slot(r)
    requires src == ANY || src == INTERRUPT || Slot(src)
    requires forall f :: f in s.queue[r] ==> SendsTo(s, f, r)
  {
    if s.intr[r] && (src == ANY || src == INTERRUPT) then
      Some(s.(mem := s.mem[r := s.mem[r][m := Message(INTERRUPT, HARD_INT, [])]], intr := s.intr[r := false]))
    else if src == ANY && s.queue[r] != [] then
      assert SendsTo(s, s.queue[r][0], r);
      Some(Take(s, r, s.queue[r][0], m))
    else if Slot(src) && SendsTo(s, src, r) then
      Some(Take(s, r, src, m))
    else if s.intr[r] then None
    else Some(Block(s, r, Receiving(src, m)))
  }

  /** inform_int */
  function InterruptStep(s: State, t: int): State
    requires Wellformed(s) && Slot(t)
  {
    var ph := s.phase[t];
    if AcceptsInterrupt(ph) then
      var msg := Load(s.mem[t], ph.into).(source := INTERRUPT, kind := HARD_INT);
      s.(phase := s.phase[t := Ready], mem := s.mem[t := s.mem[t][ph.into := msg]], intr := s.intr[t := false])
    else s.(intr := s.intr[t := true])
  }

  /** sys_sendrec writes the caller's slot number into the message before anything else. */
  function Stamp(s: State, p: int, m: int): State
    requires Wellformed(s) && Slot(p)
  {
    s.(mem := s.mem[p := s.mem[p][m := Load(s.mem[p], m).(source := p)]])
  }

  /** do_fork: everything in the parent's slot, the head of its sending queue included, is copied into a free one. */
  function ForkStep(s: State, parent: int, child: int): State
    requires Wellformed(s) && Slot(parent) && Slot(child)
  {
    s.(phase := s.phase[child := s.phase[parent]],
       mem := s.mem[child := s.mem[parent]],
       queue := s.queue[child := s.queue[parent]],
       intr := s.intr[child := s.intr[parent]])
  }

  /** kernel_main: five tasks and four native processes, every other slot free. */
  function Booted(): State {
    State(
      seq(NR_SLOTS, i => if i < 9 then Ready else Vacant),
      seq(NR_SLOTS, i => map[]),
      seq(NR_SLOTS, i => []),
      seq(NR_SLOTS, i => false),
      0)
  }

  // ------------------------------------------------------------------ the table invariant

  /** A slot is queued on d, once, exactly while it is sending to d. */
  ghost predicate QueuesAgree(s: State)
    requires Wellformed(s)
  {
    && (forall d, p :: Slot(d) ==> (p in s.queue[d] <==> SendsTo(s, p, d)))
    && (forall d :: Slot(d) ==> NoDuplicates(s.queue[d]))
    && (forall p :: Slot(p) && s.phase[p].Sending? ==> Slot(s.phase[p].dest))
  }

  /** Nobody is blocked sending to a slot that is blocked waiting for just that. */
  ghost predicate NoMissedRendezvous(s: State)
    requires Wellformed(s)
  {
    && (forall p, d :: Slot(d) && SendsTo(s, p, d) ==> !Accepts(s.phase[d], p))
    && (forall p :: Slot(p) && s.intr[p] ==> !AcceptsInterrupt(s.phase[p]))
  }

  /** A message in flight names its real sender. */
  ghost predicate Stamped(s: State)
    requires Wellformed(s)
  {
    forall p :: Slot(p) && s.phase[p].Sending? ==> Load(s.mem[p], s.phase[p].out).source == p
  }

  ghost predicate SourcesValid(s: State)
    requires Wellformed(s)
  {
    forall p :: Slot(p) && s.phase[p].Receiving? ==>
      var src := s.phase[p].src; src != p && (Slot(src) || src == ANY || src == INTERRUPT)
  }

  ghost predicate Inv(s: State) {
    && Wellformed(s)
    && QueuesAgree(s)
    && NoMissedRendezvous(s)
    && Stamped(s)
    && SourcesValid(s)
    && ChainsEnd(s.phase)
    && s.phase[s.current].Ready?
    && (forall p :: Spinner(p) ==> s.phase[p].Ready?)
  }
}
