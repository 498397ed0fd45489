/** Every step of the rendezvous protocol keeps the table invariant Ipc.Inv. */
module IpcProofs {
  import opened Ipc
  import opened Wrappers

  // ------------------------------------------------------------------ chains of senders

  lemma {:induction false} FollowAdds(phase: seq<Phase>, p: int, i: nat, q: int, j: nat)
    requires Follow(phase, p, i) == Some(q)
    ensures Follow(phase, p, i + j) == Follow(phase, q, j)
  {
    if j == 0 {
    } else {
      FollowAdds(phase, p, i, q, j - 1);
    }
  }

  lemma {:induction false} FollowStaysEnded(phase: seq<Phase>, p: int, i: nat, j: nat)
    requires i <= j && Follow(phase, p, i).None?
    ensures Follow(phase, p, j).None?
    decreases j
  {
    if i >= j {
    } else {
      FollowStaysEnded(phase, p, i, j - 1);
    }
  }

  lemma {:induction false} FollowRepeats(phase: seq<Phase>, p: int, k: nat, times: nat)
    requires k > 0 && Follow(phase, p, k) == Some(p)
    ensures Follow(phase, p, k * times) == Some(p)
  {
    if times == 0 {
    } else {
      FollowRepeats(phase, p, k, times - 1);
      FollowAdds(phase, p, k * (times - 1), p, k);
      assert k * (times - 1) + k == k * times;
    }
  }

  /** No slot waits, directly or through others, for itself. */
  lemma NoCycle(phase: seq<Phase>, p: int)
    requires ChainEnds(phase, p)
    ensures !WaitsFor(phase, p, p)
  {
    if WaitsFor(phase, p, p) {
      var k: nat :| k > 0 && Follow(phase, p, k) == Some(p);
      var e: nat :| Follow(phase, p, e).None?;
      FollowRepeats(phase, p, k, e);
      assert e <= k * e by { assert (k - 1) * e >= 0; }
      FollowStaysEnded(phase, p, e, k * e);
    }
  }

  /** A chain that does not pass through x does not notice a change at x. */
  lemma {:induction false} FollowUnaffected(phase: seq<Phase>, x: int, ph: Phase, p: int, k: nat)
    requires 0 <= x < |phase|
    requires forall j: nat :: j < k ==> Follow(phase, p, j) != Some(x)
    ensures Follow(phase[x := ph], p, k) == Follow(phase, p, k)
  {
    if k == 0 {
    } else {
      FollowUnaffected(phase, x, ph, p, k - 1);
    }
  }

  /** The first visit to x on the chain from p, if there is one before k. */
  lemma FirstVisit(phase: seq<Phase>, p: int, x: int, k: nat) returns (i: nat)
    ensures i <= k
    ensures forall j: nat :: j < i ==> Follow(phase, p, j) != Some(x)
    ensures i < k ==> Follow(phase, p, i) == Some(x)
  {
    i := 0;
    while i < k && Follow(phase, p, i) != Some(x)
      invariant i <= k
      invariant forall j: nat :: j < i ==> Follow(phase, p, j) != Some(x)
    {
      i := i + 1;
    }
  }

  /** Releasing a slot, or letting it wait to receive, cannot lengthen a chain. */
  lemma ChainsEndWithoutEdge(phase: seq<Phase>, x: int, ph: Phase)
    requires |phase| == NR_SLOTS && Slot(x) && ChainsEnd(phase) && !ph.Sending?
    ensures ChainsEnd(phase[x := ph])
  {
    forall p | Slot(p) ensures ChainEnds(phase[x := ph], p) {
      assert ChainEnds(phase, p);
      var e: nat :| Follow(phase, p, e).None?;
      var i := FirstVisit(phase, p, x, e);
      FollowUnaffected(phase, x, ph, p, i);
      if i < e {
        assert Follow(phase[x := ph], p, i + 1).None?;
      }
    }
  }

  /** A new edge x -> d is harmless exactly because d does not already wait for x. */
  lemma ChainsEndWithEdge(phase: seq<Phase>, x: int, d: int, m: int)
    requires |phase| == NR_SLOTS && Slot(x) && Slot(d) && x != d && ChainsEnd(phase)
    requires !WaitsFor(phase, d, x)
    ensures ChainsEnd(phase[x := Sending(d, m)])
  {
    var phase' := phase[x := Sending(d, m)];
    assert ChainEnds(phase, d);
    var ed: nat :| Follow(phase, d, ed).None?;
    forall j: nat | j < ed ensures Follow(phase, d, j) != Some(x) {
      if j == 0 {
      }
    }
    FollowUnaffected(phase, x, Sending(d, m), d, ed);
    forall p | Slot(p) ensures ChainEnds(phase', p) {
      assert ChainEnds(phase, p);
      var e: nat :| Follow(phase, p, e).None?;
      var i := FirstVisit(phase, p, x, e);
      FollowUnaffected(phase, x, Sending(d, m), p, i);
      if i < e {
        assert Follow(phase', p, i + 1) == Some(d);
        FollowAdds(phase', p, i + 1, d, ed);
        assert Follow(phase', p, i + 1 + ed).None?;
      }
    }
  }

  /** The other half: with an edge from x to something that waits for x the chain of x never ends. */
  lemma EdgeClosesCycle(phase: seq<Phase>, x: int, d: int, m: int)
    requires |phase| == NR_SLOTS && Slot(x) && Slot(d) && !phase[x].Sending?
    requires WaitsFor(phase, d, x)
    ensures !ChainsEnd(phase[x := Sending(d, m)])
  {
    var phase' := phase[x := Sending(d, m)];
    var k: nat :| k > 0 && Follow(phase, d, k) == Some(x);
    var i := FirstVisit(phase, d, x, k);
    FollowUnaffected(phase, x, Sending(d, m), d, i);
    assert Follow(phase', d, i) == Some(x);
    assert Follow(phase', x, 1) == Follow(phase', x, 0 + 1) == Some(d);
    FollowAdds(phase', x, 1, d, i);
    assert WaitsFor(phase', x, x);
    if ChainsEnd(phase') {
      assert ChainEnds(phase', x);
      NoCycle(phase', x);
    }
  }

  // ------------------------------------------------------------------ queues

  lemma {:induction false} WithoutMembers(q: seq<int>, p: int, x: int)
    requires NoDuplicates(q)
    ensures x in Without(q, p) <==> x in q && x != p
  {
    if q == [] {
    } else {
      assert q == [q[0]] + q[1..];
      if q[0] != p {
        WithoutMembers(q[1..], p, x);
      } else {
        assert x in q[1..] ==> x != q[0];
      }
    }
  }

  lemma FirstIsDistinct(q: seq<int>)
    requires NoDuplicates(q) && q != []
    ensures q[0] !in q[1..] && NoDuplicates(q[1..])
  {
  }

  lemma ConsIsDistinct(x: int, q: seq<int>)
    requires NoDuplicates(q) && x !in q
    ensures NoDuplicates([x] + q)
  {
  }

  lemma {:induction false} WithoutDuplicates(q: seq<int>, p: int)
    requires NoDuplicates(q)
    ensures NoDuplicates(Without(q, p))
  {
    if q == [] {
    } else {
      FirstIsDistinct(q);
      if q[0] != p {
        WithoutDuplicates(q[1..], p);
        WithoutMembers(q[1..], p, q[0]);
        ConsIsDistinct(q[0], Without(q[1..], p));
      }
    }
  }

  lemma WithoutElements(q: seq<int>, p: int)
    requires NoDuplicates(q)
    ensures NoDuplicates(Without(q, p))
    ensures forall x :: x in Without(q, p) <==> x in q && x != p
  {
    WithoutDuplicates(q, p);
    forall x {
      WithoutMembers(q, p, x);
    }
  }

  // ------------------------------------------------------------------ round robin

  /** The slot k places after i. */
  function Ahead(i: int, k: nat): (r: int)
    requires Slot(i) && k < NR_SLOTS
    ensures Slot(r)
  {
    if i + k < NR_SLOTS then i + k else i + k - NR_SLOTS
  }

  /** If some slot within reach is ready, Scan stops at the first such slot. */
  lemma {:induction false} ScanFindsFirst(phase: seq<Phase>, i: int, gas: nat, k: nat)
    requires |phase| == NR_SLOTS && Slot(i) && k <= gas && k < NR_SLOTS
    requires phase[Ahead(i, k)].Ready?
    ensures phase[Scan(phase, i, gas)].Ready?
    ensures exists j: nat :: j <= k && Scan(phase, i, gas) == Ahead(i, j)
              && forall l: nat :: l < j ==> !phase[Ahead(i, l)].Ready?
    decreases gas
  {
    if k == 0 || phase[i].Ready? {
      assert Scan(phase, i, gas) == i == Ahead(i, 0);
    } else {
      ScanFindsFirst(phase, Succ(i), gas - 1, k - 1);
      var j: nat :| j <= k - 1 && Scan(phase, Succ(i), gas - 1) == Ahead(Succ(i), j)
        && forall l: nat :: l < j ==> !phase[Ahead(Succ(i), l)].Ready?;
      forall l: nat | l < j + 1 ensures !phase[Ahead(i, l)].Ready? {
        assert l > 0 ==> Ahead(i, l) == Ahead(Succ(i), l - 1);
      }
      assert Ahead(i, j + 1) == Ahead(Succ(i), j);
    }
  }

  /** How many slots the scan after c passes over before it meets p. */
  function Distance(c: int, p: int): (r: nat)
    requires Slot(c) && Slot(p)
    ensures r < NR_SLOTS
    ensures Ahead(Succ(c), r) == p
  {
    if p > c then p - c - 1 else p - c - 1 + NR_SLOTS
  }

  lemma NextReadyIsReady(phase: seq<Phase>, c: int, p: int)
    requires |phase| == NR_SLOTS && Slot(c) && Slot(p) && phase[p].Ready?
    ensures phase[NextReady(phase, c)].Ready?
    ensures NextReady(phase, c) == p || Distance(NextReady(phase, c), p) < Distance(c, p)
  {
    var k := Distance(c, p);
    ScanFindsFirst(phase, Succ(c), NR_SLOTS - 1, k);
    var j: nat :| j <= k && NextReady(phase, c) == Ahead(Succ(c), j);
  }

  // ------------------------------------------------------------------ preservation

  lemma BootedInv()
    ensures Inv(Booted())
  {
    var phase := Booted().phase;
    forall p | Slot(p) ensures ChainEnds(phase, p) {
      assert Follow(phase, p, 0) == Some(p);
      assert Follow(phase, p, 1).None?;
    }
  }

  lemma BlockKeepsSome(s: State, p: int, ph: Phase)
    requires Wellformed(s) && Slot(p) && !Spinner(p) && forall q :: Spinner(q) ==> s.phase[q].Ready?
    ensures var s' := Block(s, p, ph); s'.phase[s'.current].Ready?
  {
    NextReadyIsReady(s.phase[p := ph], s.current, FIRST_SPINNER);
  }

  ghost predicate Caller(s: State, p: int) {
    Slot(p) && s.current == p && !Spinner(p)
  }

  lemma StampKeepsInv(s: State, p: int, m: int)
    requires Inv(s) && Caller(s, p)
    ensures Inv(Stamp(s, p, m))
  {
  }

  /** sys_sendrec: stamp the message, then send or receive; None when the kernel halts. */
  ghost function SyscallStep(s: State, p: int, isSend: bool, srcDest: int, m: int): Option<State>
    requires Inv(s) && Caller(s, p)
    requires Slot(srcDest) || (!isSend && (srcDest == ANY || srcDest == INTERRUPT))
  {
    StampKeepsInv(s, p, m);
    if isSend then SendStep(Stamp(s, p, m), p, srcDest, m) else ReceiveStep(Stamp(s, p, m), p, srcDest, m)
  }

  lemma SendKeepsInv(s: State, p: int, dest: int, m: int)
    requires Inv(s) && Caller(s, p) && Slot(dest) && dest != p
    requires Load(s.mem[p], m).source == p
    ensures SendStep(s, p, dest, m).Some? ==> Inv(SendStep(s, p, dest, m).value)
  {
    if SendStep(s, p, dest, m).Some? {
      var s' := SendStep(s, p, dest, m).value;
      if Accepts(s.phase[dest], p) {
        ChainsEndWithoutEdge(s.phase, dest, Ready);
      } else {
        ChainsEndWithEdge(s.phase, p, dest, m);
        BlockKeepsSome(s, p, Sending(dest, m));
        assert p !in s.queue[dest];
      }
    }
  }

  lemma TakeKeepsInv(s: State, r: int, f: int, m: int)
    requires Inv(s) && Caller(s, r) && Slot(f) && SendsTo(s, f, r)
    ensures Inv(Take(s, r, f, m))
  {
    ChainsEndWithoutEdge(s.phase, f, Ready);
    WithoutElements(s.queue[r], f);
  }

  lemma ReceiveKeepsInv(s: State, r: int, src: int, m: int)
    requires Inv(s) && Caller(s, r) && src != r
    requires src == ANY || src == INTERRUPT || Slot(src)
    ensures ReceiveStep(s, r, src, m).Some? ==> Inv(ReceiveStep(s, r, src, m).value)
  {
    if s.intr[r] && (src == ANY || src == INTERRUPT) {
    } else if src == ANY && s.queue[r] != [] {
      assert SendsTo(s, s.queue[r][0], r);
      TakeKeepsInv(s, r, s.queue[r][0], m);
    } else if Slot(src) && SendsTo(s, src, r) {
      TakeKeepsInv(s, r, src, m);
    } else if !s.intr[r] {
      ChainsEndWithoutEdge(s.phase, r, Receiving(src, m));
      BlockKeepsSome(s, r, Receiving(src, m));
      forall p | SendsTo(s, p, r) ensures !Accepts(Receiving(src, m), p) {
        assert p in s.queue[r];
      }
    }
  }

  lemma SyscallKeepsInv(s: State, p: int, isSend: bool, srcDest: int, m: int)
    requires Inv(s) && Caller(s, p) && srcDest != p
    requires Slot(srcDest) || (!isSend && (srcDest == ANY || srcDest == INTERRUPT))
    ensures Inv(Stamp(s, p, m))
    ensures SyscallStep(s, p, isSend, srcDest, m).Some? ==> Inv(SyscallStep(s, p, isSend, srcDest, m).value)
  {
    StampKeepsInv(s, p, m);
    if isSend {
      SendKeepsInv(Stamp(s, p, m), p, srcDest, m);
    } else {
      ReceiveKeepsInv(Stamp(s, p, m), p, srcDest, m);
    }
  }

  lemma InterruptKeepsInv(s: State, t: int)
    requires Inv(s) && Slot(t)
    ensures Inv(InterruptStep(s, t))
  {
    if AcceptsInterrupt(s.phase[t]) {
      ChainsEndWithoutEdge(s.phase, t, Ready);
    }
  }

  /** MM forks a process that is ready, or already waiting for MM's answer, into a free slot. */
  predicate CanFork(s: State, parent: int, child: int) {
    && Wellformed(s) && Slot(parent) && Slot(child) && s.current == TASK_MM
    && s.phase[child].Vacant?
    && (s.phase[parent].Ready? || (s.phase[parent].Receiving? && s.phase[parent].src == TASK_MM))
  }

  /** fork keeps the table in order exactly when nobody is queued on the parent or on the free slot. */
  lemma ForkKeepsInv(s: State, parent: int, child: int)
    requires Inv(s) && CanFork(s, parent, child)
    ensures Inv(ForkStep(s, parent, child)) <==> s.queue[parent] == [] && s.queue[child] == []
  {
    var s' := ForkStep(s, parent, child);
    if s.queue[parent] != [] {
      assert s.queue[parent][0] in s.queue[parent] && s.queue[parent][0] in s'.queue[child];
      assert !SendsTo(s', s.queue[parent][0], child);
    } else if s.queue[child] != [] {
      assert s.queue[child][0] in s.queue[child];
      assert SendsTo(s', s.queue[child][0], child);
    } else {
      ChainsEndWithoutEdge(s.phase, child, s.phase[parent]);
    }
  }
}
