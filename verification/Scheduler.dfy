/** The two scheduling policies of kernel/proc.c and how long a runnable process can be passed over. */
module Scheduler {
  import opened Ipc
  import opened IpcProofs

  const NR_SHARED := 12      // NR_TASKS + NR_NATIVE_PROCS + NR_CONSOLES
  const MIN_PRIORITY := 1

  /** The last of the highest-priority occupied slots in [NR_SHARED, n), with its priority. */
  function Best(phase: seq<Phase>, prio: seq<int>, n: int): (r: (int, int))
    requires |phase| == |prio| == NR_SLOTS && NR_SHARED <= n <= NR_SLOTS
    ensures r.0 == -1 || NR_SHARED <= r.0 < n
    decreases n
  {
    if n == NR_SHARED then (-1, MIN_PRIORITY)
    else
      var b := Best(phase, prio, n - 1);
      if prio[n - 1] >= b.1 && !phase[n - 1].Vacant? then (n - 1, prio[n - 1]) else b
  }

  function ScanShared(phase: seq<Phase>, i: int, gas: nat): (r: int)
    requires |phase| == NR_SLOTS && 0 <= i < NR_SHARED
    ensures 0 <= r < NR_SHARED
    decreases gas
  {
    if gas == 0 || phase[i].Ready? then i
    else ScanShared(phase, if i + 1 == NR_SHARED then 0 else i + 1, gas - 1)
  }

  function PriorityPick(phase: seq<Phase>, prio: seq<int>, ticks: nat): (r: int)
    requires |phase| == |prio| == NR_SLOTS
    ensures Slot(r)
  {
    var r := ticks % (2 * NR_SHARED);
    var w := Best(phase, prio, NR_SLOTS).0;
    if r >= NR_SHARED && w != -1 && phase[w].Ready? then w
    else ScanShared(phase, r % NR_SHARED, NR_SHARED - 1)
  }

  // ------------------------------------------------------------------ round robin

  /** The running slot after one rr_schedule per element of phases, each on the table as it is then. */
  function Dispatched(phases: seq<seq<Phase>>, c: int): (r: int)
    requires Slot(c) && forall ph: seq<Phase> :: ph in phases ==> |ph| == NR_SLOTS
    ensures Slot(r)
  {
    if phases == [] then c
    else
      assert phases[0] in phases;
      Dispatched(phases[1..], NextReady(phases[0], c))
  }

  /**
   A slot that is ready at each of as many calls as there are slots is dispatched by one of them,
   whatever the other slots do in between.
   */
  lemma {:induction false} RoundRobinFair(phases: seq<seq<Phase>>, c: int, p: int)
    requires Slot(c) && Slot(p) && Distance(c, p) < |phases|
    requires forall ph: seq<Phase> :: ph in phases ==> |ph| == NR_SLOTS && ph[p].Ready?
    ensures exists i :: 0 < i <= Distance(c, p) + 1 && Dispatched(phases[..i], c) == p
  {
    assert phases[0] in phases;
    var n := NextReady(phases[0], c);
    NextReadyIsReady(phases[0], c, p);
    if n == p {
      assert phases[..1][1..] == [];
      assert Dispatched(phases[..1], c) == p;
    } else {
      RoundRobinFair(phases[1..], n, p);
      var i :| 0 < i <= Distance(n, p) + 1 && Dispatched(phases[1..][..i], n) == p;
      assert phases[..i + 1][1..] == phases[1..][..i];
      assert Dispatched(phases[..i + 1], c) == p;
    }
  }

  // ------------------------------------------------------------------ priorities

  lemma {:induction false} BestIsLastMaximum(phase: seq<Phase>, prio: seq<int>, n: int)
    requires |phase| == |prio| == NR_SLOTS && NR_SHARED <= n <= NR_SLOTS
    ensures var (w, top) := Best(phase, prio, n);
            && top >= MIN_PRIORITY
            && (w != -1 ==> !phase[w].Vacant? && prio[w] == top)
            && (forall i :: NR_SHARED <= i < n && !phase[i].Vacant? ==> prio[i] <= top)
            && (forall i :: NR_SHARED <= i < n && !phase[i].Vacant? && prio[i] == top ==> i <= w)
  {
    if n <= NR_SHARED {
    } else {
      BestIsLastMaximum(phase, prio, n - 1);
    }
  }

  /** The slot k places after i among the first 12. */
  function AheadShared(i: int, k: nat): (r: int)
    requires 0 <= i < NR_SHARED && k < NR_SHARED
    ensures 0 <= r < NR_SHARED
  {
    if i + k < NR_SHARED then i + k else i + k - NR_SHARED
  }

  /** Slot r is j places after i, and is the first ready one from i on. */
  ghost predicate FirstReady(phase: seq<Phase>, i: int, j: nat, r: int)
    requires |phase| == NR_SLOTS && 0 <= i < NR_SHARED
  {
    && j < NR_SHARED && r == AheadShared(i, j) && phase[r].Ready?
    && forall l: nat :: l < j ==> !phase[AheadShared(i, l)].Ready?
  }

  /** If some slot within reach is ready, the scan of the first 12 stops at the first such slot. */
  lemma {:induction false} ScanSharedFindsFirst(phase: seq<Phase>, i: int, gas: nat, k: nat)
    requires |phase| == NR_SLOTS && 0 <= i < NR_SHARED && k <= gas && k < NR_SHARED
    requires phase[AheadShared(i, k)].Ready?
    ensures exists j: nat :: j <= k && FirstReady(phase, i, j, ScanShared(phase, i, gas))
    decreases gas
  {
    if k == 0 || phase[i].Ready? {
      assert FirstReady(phase, i, 0, ScanShared(phase, i, gas));
    } else {
      var next := AheadShared(i, 1);
      assert AheadShared(next, k - 1) == AheadShared(i, k);
      ScanSharedFindsFirst(phase, next, gas - 1, k - 1);
      var j: nat :| j <= k - 1 && FirstReady(phase, next, j, ScanShared(phase, next, gas - 1));
      forall l: nat | l < j + 1 ensures !phase[AheadShared(i, l)].Ready? {
        assert l > 0 ==> AheadShared(i, l) == AheadShared(next, l - 1);
      }
      assert FirstReady(phase, i, j + 1, ScanShared(phase, i, gas));
    }
  }

  lemma TurnAgain(t: nat)
    ensures t % 24 % 12 == t % 12
  {
    assert t == 12 * (2 * (t / 24)) + t % 24;
  }

  /** A tick that does not pick the preferred slot picks the first ready one of the first 12, from its own turn on. */
  lemma PriorityPickIsFirst(phase: seq<Phase>, prio: seq<int>, ticks: nat, p: int)
    requires |phase| == |prio| == NR_SLOTS && 0 <= p < NR_SHARED && phase[p].Ready?
    ensures var (r, w) := (ticks % 24, Best(phase, prio, NR_SLOTS).0);
            if r >= 12 && w != -1 && phase[w].Ready? then PriorityPick(phase, prio, ticks) == w
            else exists j: nat :: FirstReady(phase, ticks % 12, j, PriorityPick(phase, prio, ticks))
  {
    var i := ticks % 24 % 12;
    TurnAgain(ticks);
    var k := if p >= i then p - i else p - i + NR_SHARED;
    ScanSharedFindsFirst(phase, i, NR_SHARED - 1, k);
    var j: nat :| FirstReady(phase, i, j, ScanShared(phase, i, NR_SHARED - 1));
    var (r, w) := (ticks % 24, Best(phase, prio, NR_SLOTS).0);
    if !(r >= 12 && w != -1 && phase[w].Ready?) {
      assert FirstReady(phase, ticks % 12, j, PriorityPick(phase, prio, ticks));
    }
  }

  lemma {:induction false} ScanSharedReady(phase: seq<Phase>, i: int, gas: nat)
    requires |phase| == NR_SLOTS && 0 <= i < NR_SHARED && phase[FIRST_SPINNER].Ready?
    requires (if i <= FIRST_SPINNER then FIRST_SPINNER - i else FIRST_SPINNER - i + NR_SHARED) <= gas
    ensures phase[ScanShared(phase, i, gas)].Ready?
    decreases gas
  {
    if gas == 0 || phase[i].Ready? {
    } else {
      ScanSharedReady(phase, if i + 1 == NR_SHARED then 0 else i + 1, gas - 1);
    }
  }

  /** The slot picked is always runnable. */
  lemma PriorityPickReady(phase: seq<Phase>, prio: seq<int>, ticks: nat)
    requires |phase| == |prio| == NR_SLOTS && phase[FIRST_SPINNER].Ready?
    ensures phase[PriorityPick(phase, prio, ticks)].Ready?
  {
    ScanSharedReady(phase, ticks % (2 * NR_SHARED) % NR_SHARED, NR_SHARED - 1);
  }

  /** Within 24 ticks it is each slot's turn. */
  lemma TurnComes(t: nat, p: nat) returns (i: nat)
    requires p < 2 * NR_SHARED
    ensures i < 2 * NR_SHARED && (t + i) % (2 * NR_SHARED) == p
  {
    var (q, r) := (t / (2 * NR_SHARED), t % (2 * NR_SHARED));
    i := if r <= p then p - r else p - r + 2 * NR_SHARED;
    assert t + i == 2 * NR_SHARED * (if r <= p then q else q + 1) + p;
  }

  /** In its turn a ready slot is picked. */
  lemma PickedInTurn(phase: seq<Phase>, prio: seq<int>, ticks: nat, p: int)
    requires |phase| == |prio| == NR_SLOTS && 0 <= p < NR_SHARED && ticks % (2 * NR_SHARED) == p && phase[p].Ready?
    ensures PriorityPick(phase, prio, ticks) == p
  {
  }

  /** Each task, native process and shell slot that stays ready is picked within 24 consecutive ticks. */
  lemma PriorityFair(phases: seq<seq<Phase>>, prios: seq<seq<int>>, t: nat, p: int)
    requires 0 <= p < NR_SHARED && |phases| == |prios| == 2 * NR_SHARED
    requires forall i :: 0 <= i < |phases| ==> |phases[i]| == |prios[i]| == NR_SLOTS && phases[i][p].Ready?
    ensures exists i :: 0 <= i < 2 * NR_SHARED && PriorityPick(phases[i], prios[i], t + i) == p
  {
    var i := TurnComes(t, p);
    PickedInTurn(phases[i], prios[i], t + i, p);
  }

  /** Of the other user slots a tick can only pick one: the last occupied one of highest priority, if it is ready. */
  lemma OnlyTheBestUserIsPicked(phase: seq<Phase>, prio: seq<int>, p: int)
    requires |phase| == |prio| == NR_SLOTS && NR_SHARED <= p < NR_SLOTS
    ensures (exists t: nat :: PriorityPick(phase, prio, t) == p)
            <==> Best(phase, prio, NR_SLOTS).0 == p && phase[p].Ready?
  {
    if Best(phase, prio, NR_SLOTS).0 == p && phase[p].Ready? {
      assert PriorityPick(phase, prio, NR_SHARED) == p;
    }
  }
}
