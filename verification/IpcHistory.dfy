/** What the log of a run says about every slot: whom it waits for, and which interrupts it has been given. */
module IpcHistory {
  import opened Ipc
  import opened IpcProofs
  import opened IpcRuns
  import opened Wrappers

  datatype Entry =
    | Offered(p: int, dest: int, m: int)             // p called send
    | Asked(p: int, src: int, m: int)                // p called receive
    | Handed(from: int, to: int)                     // a message went from one to the other
    | Raised(t: int)                                 // an interrupt for t
    | Taken(t: int)                                  // t was given an interrupt message
    | Born(p: int, wait: Phase, pends: bool)         // p was forked

  // ------------------------------------------------------------------ reading a log

  /** A slot waits from when it calls until a message goes from or to it, or it is given an interrupt. */
  function Waits(before: Phase, x: Entry, p: int): Phase {
    match x
    case Offered(q, dest, m) => if q == p then Sending(dest, m) else before
    case Asked(q, src, m) => if q == p then Receiving(src, m) else before
    case Handed(f, t) => if f == p || t == p then Ready else before
    case Raised(_) => before
    case Taken(t) => if t == p then Ready else before
    case Born(q, wait, _) => if q == p then wait else before
  }

  function PhaseBy(log: seq<Entry>, p: int): Phase {
    if log == [] then if 0 <= p < 9 then Ready else Vacant
    else Waits(PhaseBy(log[..|log| - 1], p), log[|log| - 1], p)
  }

  /** An interrupt is pending from when it is raised until it is taken. */
  function StillPends(before: bool, x: Entry, t: int): bool {
    match x
    case Raised(q) => q == t || before
    case Taken(q) => q != t && before
    case Born(q, _, pends) => if q == t then pends else before
    case _ => before
  }

  function Pends(log: seq<Entry>, t: int): bool {
    log != [] && StillPends(Pends(log[..|log| - 1], t), log[|log| - 1], t)
  }

  predicate Ends(x: Entry, p: int) { x == Taken(p) || (x.Handed? && (x.from == p || x.to == p)) }

  predicate AsksAnew(x: Entry, p: int) { (x.Asked? && x.p == p) || (x.Born? && x.p == p && x.wait.Receiving?) }

  /** The entry says what p does from then on. */
  predicate Concerns(x: Entry, p: int) {
    Ends(x, p) || ((x.Offered? || x.Asked? || x.Born?) && x.p == p)
  }

  /** p has asked, and has not been answered since. */
  ghost predicate AskedLast(log: seq<Entry>, p: int) {
    exists i :: 0 <= i < |log| && AsksAnew(log[i], p) && forall j :: i < j < |log| ==> !Concerns(log[j], p)
  }

  /** An interrupt has been raised, or inherited, and not taken since. */
  ghost predicate RaisedLast(log: seq<Entry>, t: int) {
    exists i :: 0 <= i < |log| && RaisesAnew(log[i], t) && forall j :: i < j < |log| ==> !Settles(log[j], t)
  }

  predicate RaisesAnew(x: Entry, t: int) { x == Raised(t) || (x.Born? && x.p == t && x.pends) }

  predicate Settles(x: Entry, t: int) { x == Taken(t) || (x.Born? && x.p == t) }

  lemma AskedNext(log: seq<Entry>, x: Entry, p: int)
    ensures AskedLast(log + [x], p) <==> AsksAnew(x, p) || (AskedLast(log, p) && !Concerns(x, p))
  {
    var all := log + [x];
    assert all[|log|] == x && forall j :: 0 <= j < |log| ==> all[j] == log[j];
    if AsksAnew(x, p) {
      assert AsksAnew(all[|log|], p);
    } else if AskedLast(log, p) && !Concerns(x, p) {
      var i :| 0 <= i < |log| && AsksAnew(log[i], p) && forall j :: i < j < |log| ==> !Concerns(log[j], p);
      assert AsksAnew(all[i], p);
    }
  }

  lemma {:induction false} AskedExactly(log: seq<Entry>, p: int)
    ensures PhaseBy(log, p).Receiving? <==> AskedLast(log, p)
  {
    if log == [] {
    } else {
      var k := |log| - 1;
      AskedExactly(log[..k], p);
      AskedNext(log[..k], log[k], p);
      assert log[..k] + [log[k]] == log;
    }
  }

  lemma RaisedNext(log: seq<Entry>, x: Entry, t: int)
    ensures RaisedLast(log + [x], t) <==> RaisesAnew(x, t) || (RaisedLast(log, t) && !Settles(x, t))
  {
    var all := log + [x];
    assert all[|log|] == x && forall j :: 0 <= j < |log| ==> all[j] == log[j];
    if RaisesAnew(x, t) {
      assert RaisesAnew(all[|log|], t);
    } else if RaisedLast(log, t) && !Settles(x, t) {
      var i :| 0 <= i < |log| && RaisesAnew(log[i], t) && forall j :: i < j < |log| ==> !Settles(log[j], t);
      assert RaisesAnew(all[i], t);
    }
  }

  lemma {:induction false} RaisedExactly(log: seq<Entry>, t: int)
    ensures Pends(log, t) <==> RaisedLast(log, t)
  {
    if log == [] {
    } else {
      var k := |log| - 1;
      RaisedExactly(log[..k], t);
      RaisedNext(log[..k], log[k], t);
      assert log[..k] + [log[k]] == log;
    }
  }

  // ------------------------------------------------------------------ writing it

  /** What an event in state s, with this log so far, adds to it. */
  ghost function Entries(s: State, log: seq<Entry>, e: Event, s': State): seq<Entry>
    requires Inv(s) && Enabled(s, e) && Wellformed(s')
  {
    match e
    case Syscall(true, dest, m) =>
      [Offered(s.current, dest, m)] + (if GotBy(s, e, s') != [] then [Handed(s.current, dest)] else [])
    case Syscall(false, src, m) =>
      [Asked(s.current, src, m)]
      + (if Pends(log, s.current) && (src == ANY || src == INTERRUPT) then [Taken(s.current)]
         else if GotBy(s, e, s') != [] then [Handed(GotBy(s, e, s')[0].from, s.current)]
         else [])
    case HardInt(t) => [Raised(t)] + (if AcceptsInterrupt(PhaseBy(log, t)) then [Taken(t)] else [])
    case Fork(parent, child) => [Born(child, PhaseBy(log, parent), Pends(log, parent))]
    case Compute(_, _) => []
    case Dispatch(_) => []
  }

  ghost function Log(es: seq<Event>): seq<Entry>
    requires After(es).Some?
  {
    if es == [] then [] else
      var prev := es[..|es| - 1];
      Log(prev) + Entries(After(prev).value, Log(prev), es[|es| - 1], After(es).value)
  }

  /** Phases and pending interrupts are what the log says. */
  ghost predicate Agrees(s: State, log: seq<Entry>)
    requires Wellformed(s)
  {
    forall p :: Slot(p) ==> AgreesAt(s, log, p)
  }

  predicate AgreesAt(s: State, log: seq<Entry>, p: int)
    requires Wellformed(s) && Slot(p)
  {
    s.phase[p] == PhaseBy(log, p) && s.intr[p] == Pends(log, p)
  }

  lemma Appended(log: seq<Entry>, x: Entry, p: int)
    ensures PhaseBy(log + [x], p) == Waits(PhaseBy(log, p), x, p)
    ensures Pends(log + [x], p) == StillPends(Pends(log, p), x, p)
  {
    assert (log + [x])[..|log|] == log;
  }

  lemma AppendedTwo(log: seq<Entry>, x: Entry, y: Entry, p: int)
    ensures PhaseBy(log + ([x] + [y]), p) == Waits(Waits(PhaseBy(log, p), x, p), y, p)
    ensures Pends(log + ([x] + [y]), p) == StillPends(StillPends(Pends(log, p), x, p), y, p)
  {
    assert log + ([x] + [y]) == log + [x] + [y];
    Appended(log, x, p);
    Appended(log + [x], y, p);
  }

  // ------------------------------------------------------------------ one step

  /** What a send does to the phases, the message being handed over or not. */
  ghost predicate SendMoves(s: State, s': State, dest: int, m: int, got: bool)
    requires Wellformed(s) && Wellformed(s') && Slot(dest)
  {
    && s'.intr == s.intr
    && s'.phase == if got then s.phase[dest := Ready] else s.phase[s.current := Sending(dest, m)]
  }

  lemma SendPhases(s: State, dest: int, m: int)
    requires Inv(s) && Enabled(s, Syscall(true, dest, m)) && Step(s, Syscall(true, dest, m)).Some?
    ensures var (e, s') := (Syscall(true, dest, m), Step(s, Syscall(true, dest, m)).value);
            SendMoves(s, s', dest, m, GotBy(s, e, s') != [])
  {
  }

  /** What a receive does to them, and to the pending interrupts; `from` is who handed the message over. */
  ghost predicate ReceiveMoves(s: State, s': State, src: int, m: int, got: seq<Packet>)
    requires Wellformed(s) && Wellformed(s')
  {
    var r := s.current;
    if s.intr[r] && (src == ANY || src == INTERRUPT) then
      s'.phase == s.phase && s'.intr == s.intr[r := false] && got == []
    else if got != [] then
      && s'.intr == s.intr && |got| == 1 && got[0].to == r
      && Slot(got[0].from) && s'.phase == s.phase[got[0].from := Ready]
    else s'.phase == s.phase[r := Receiving(src, m)] && s'.intr == s.intr
  }

  lemma ReceivePhases(s: State, src: int, m: int)
    requires Inv(s) && Enabled(s, Syscall(false, src, m)) && Step(s, Syscall(false, src, m)).Some?
    ensures var (e, s') := (Syscall(false, src, m), Step(s, Syscall(false, src, m)).value);
            ReceiveMoves(s, s', src, m, GotBy(s, e, s'))
  {
    var f := TakenFrom(s, s.current, src);
    if f.Some? && src == ANY {
      assert f.value in s.queue[s.current];
    }
  }

  /** The state has moved as one entry says, or as two do. */
  lemma OneEntry(s: State, s': State, log: seq<Entry>, x: Entry)
    requires Wellformed(s) && Wellformed(s') && Agrees(s, log)
    requires forall p :: Slot(p) ==> s'.phase[p] == Waits(s.phase[p], x, p) && s'.intr[p] == StillPends(s.intr[p], x, p)
    ensures Agrees(s', log + [x])
  {
    forall p | Slot(p) ensures AgreesAt(s', log + [x], p) {
      assert AgreesAt(s, log, p);
      Appended(log, x, p);
    }
  }

  lemma TwoEntries(s: State, s': State, log: seq<Entry>, x: Entry, y: Entry)
    requires Wellformed(s) && Wellformed(s') && Agrees(s, log)
    requires forall p :: Slot(p) ==>
               && s'.phase[p] == Waits(Waits(s.phase[p], x, p), y, p)
               && s'.intr[p] == StillPends(StillPends(s.intr[p], x, p), y, p)
    ensures Agrees(s', log + ([x] + [y]))
  {
    forall p | Slot(p) ensures AgreesAt(s', log + ([x] + [y]), p) {
      assert AgreesAt(s, log, p);
      AppendedTwo(log, x, y, p);
    }
  }

  lemma SendAgrees(s: State, s': State, log: seq<Entry>, dest: int, m: int)
    requires Inv(s) && Wellformed(s') && Agrees(s, log) && Enabled(s, Syscall(true, dest, m))
    requires SendMoves(s, s', dest, m, GotBy(s, Syscall(true, dest, m), s') != [])
    ensures Agrees(s', log + Entries(s, log, Syscall(true, dest, m), s'))
  {
    var x := Offered(s.current, dest, m);
    if GotBy(s, Syscall(true, dest, m), s') != [] {
      TwoEntries(s, s', log, x, Handed(s.current, dest));
    } else {
      OneEntry(s, s', log, x);
      assert [x] + [] == [x];
    }
  }

  lemma ReceiveAgrees(s: State, s': State, log: seq<Entry>, src: int, m: int)
    requires Inv(s) && Wellformed(s') && Agrees(s, log) && Enabled(s, Syscall(false, src, m))
    requires ReceiveMoves(s, s', src, m, GotBy(s, Syscall(false, src, m), s'))
    ensures Agrees(s', log + Entries(s, log, Syscall(false, src, m), s'))
  {
    var (got, x) := (GotBy(s, Syscall(false, src, m), s'), Asked(s.current, src, m));
    assert AgreesAt(s, log, s.current);
    if s.intr[s.current] && (src == ANY || src == INTERRUPT) {
      TwoEntries(s, s', log, x, Taken(s.current));
    } else if got != [] {
      TwoEntries(s, s', log, x, Handed(got[0].from, s.current));
    } else {
      OneEntry(s, s', log, x);
      assert [x] + [] == [x];
    }
  }

  lemma InterruptAgrees(s: State, log: seq<Entry>, t: int)
    requires Inv(s) && Agrees(s, log) && Slot(t)
    ensures Agrees(InterruptStep(s, t), log + Entries(s, log, HardInt(t), InterruptStep(s, t)))
  {
    assert AgreesAt(s, log, t);
    if AcceptsInterrupt(s.phase[t]) {
      TwoEntries(s, InterruptStep(s, t), log, Raised(t), Taken(t));
    } else {
      OneEntry(s, InterruptStep(s, t), log, Raised(t));
      assert [Raised(t)] + [] == [Raised(t)];
    }
  }

  lemma ForkAgrees(s: State, s': State, log: seq<Entry>, parent: int, child: int)
    requires Wellformed(s) && Wellformed(s') && Agrees(s, log) && Slot(parent) && Slot(child)
    requires s'.phase == s.phase[child := s.phase[parent]] && s'.intr == s.intr[child := s.intr[parent]]
    ensures Agrees(s', log + [Born(child, PhaseBy(log, parent), Pends(log, parent))])
  {
    assert AgreesAt(s, log, parent);
    OneEntry(s, s', log, Born(child, PhaseBy(log, parent), Pends(log, parent)));
  }

  lemma SameAgrees(s: State, s': State, log: seq<Entry>)
    requires Wellformed(s) && Wellformed(s') && Agrees(s, log) && s'.phase == s.phase && s'.intr == s.intr
    ensures Agrees(s', log + [])
  {
    assert log + [] == log;
    forall p | Slot(p) ensures AgreesAt(s', log, p) {
      assert AgreesAt(s, log, p);
    }
  }

  lemma StepAgrees(s: State, log: seq<Entry>, e: Event)
    requires Inv(s) && Agrees(s, log) && Enabled(s, e) && Step(s, e).Some?
    ensures Agrees(Step(s, e).value, log + Entries(s, log, e, Step(s, e).value))
  {
    match e
    case Syscall(true, dest, m) => SendPhases(s, dest, m); SendAgrees(s, Step(s, e).value, log, dest, m);
    case Syscall(false, src, m) => ReceivePhases(s, src, m); ReceiveAgrees(s, Step(s, e).value, log, src, m);
    case HardInt(t) => InterruptAgrees(s, log, t);
    case Fork(parent, child) => ForkAgrees(s, Step(s, e).value, log, parent, child);
    case Compute(_, _) => SameAgrees(s, Step(s, e).value, log);
    case Dispatch(_) => SameAgrees(s, Step(s, e).value, log);
  }

  // ------------------------------------------------------------------ runs

  lemma {:induction false} LogAgrees(es: seq<Event>)
    requires After(es).Some?
    ensures Agrees(After(es).value, Log(es))
  {
    if es == [] {
      forall p | Slot(p) ensures AgreesAt(Booted(), [], p) {
      }
    } else {
      var prev := es[..|es| - 1];
      LogAgrees(prev);
      StepAgrees(After(prev).value, Log(prev), es[|es| - 1]);
    }
  }

  /**
   Over every run a slot waits for just what the log says. It is receiving exactly if it has asked and since then no
   message has been handed to it and no interrupt taken; an interrupt is pending exactly if one has been raised and
   not taken since.
   */
  lemma LogTells(es: seq<Event>, p: int)
    requires After(es).Some? && Slot(p)
    ensures After(es).value.phase[p] == PhaseBy(Log(es), p)
    ensures After(es).value.phase[p].Receiving? <==> AskedLast(Log(es), p)
    ensures After(es).value.intr[p] <==> RaisedLast(Log(es), p)
  {
    LogAgrees(es);
    assert AgreesAt(After(es).value, Log(es), p);
    AskedExactly(Log(es), p);
    RaisedExactly(Log(es), p);
  }

  /** Who handed a message to whom, in order. */
  function Handovers(log: seq<Entry>): seq<(int, int)> {
    if log == [] then []
    else
      var x := log[|log| - 1];
      Handovers(log[..|log| - 1]) + (if x.Handed? then [(x.from, x.to)] else [])
  }

  function Routes(got: seq<Packet>): seq<(int, int)> {
    seq(|got|, i requires 0 <= i < |got| => (got[i].from, got[i].to))
  }

  lemma HandoversOne(log: seq<Entry>, x: Entry)
    ensures Handovers(log + [x]) == Handovers(log) + (if x.Handed? then [(x.from, x.to)] else [])
  {
    assert (log + [x])[..|log|] == log;
  }

  lemma HandoversTwo(log: seq<Entry>, x: Entry, y: Entry)
    requires !x.Handed?
    ensures Handovers(log + ([x] + [y])) == Handovers(log) + (if y.Handed? then [(y.from, y.to)] else [])
  {
    HandoversOne(log, x);
    HandoversOne(log + [x], y);
    assert log + ([x] + [y]) == log + [x] + [y];
  }

  lemma ReceiveHandovers(s: State, s': State, log: seq<Entry>, src: int, m: int)
    requires Inv(s) && Wellformed(s') && Agrees(s, log) && Enabled(s, Syscall(false, src, m))
    requires ReceiveMoves(s, s', src, m, GotBy(s, Syscall(false, src, m), s'))
    ensures var e := Syscall(false, src, m);
            Handovers(log + Entries(s, log, e, s')) == Handovers(log) + Routes(GotBy(s, e, s'))
  {
    var (got, x) := (GotBy(s, Syscall(false, src, m), s'), Asked(s.current, src, m));
    assert AgreesAt(s, log, s.current);
    HandoversOne(log, x);
    HandoversTwo(log, x, Taken(s.current));
    if got != [] {
      HandoversTwo(log, x, Handed(got[0].from, s.current));
    }
    assert [x] + [] == [x];
  }

  lemma SendHandovers(s: State, s': State, log: seq<Entry>, dest: int, m: int)
    requires Inv(s) && Wellformed(s') && Enabled(s, Syscall(true, dest, m))
    ensures var e := Syscall(true, dest, m);
            Handovers(log + Entries(s, log, e, s')) == Handovers(log) + Routes(GotBy(s, e, s'))
  {
    var x := Offered(s.current, dest, m);
    HandoversOne(log, x);
    HandoversTwo(log, x, Handed(s.current, dest));
    assert [x] + [] == [x];
  }

  lemma StepHandovers(s: State, log: seq<Entry>, e: Event)
    requires Inv(s) && Agrees(s, log) && Enabled(s, e) && Step(s, e).Some?
    ensures var s' := Step(s, e).value;
            Handovers(log + Entries(s, log, e, s')) == Handovers(log) + Routes(GotBy(s, e, s'))
  {
    match e
    case Syscall(true, dest, m) => SendHandovers(s, Step(s, e).value, log, dest, m);
    case Syscall(false, src, m) => ReceivePhases(s, src, m); ReceiveHandovers(s, Step(s, e).value, log, src, m);
    case HardInt(t) =>
      HandoversOne(log, Raised(t));
      HandoversTwo(log, Raised(t), Taken(t));
      assert [Raised(t)] + [] == [Raised(t)];
    case Fork(parent, child) => HandoversOne(log, Born(child, PhaseBy(log, parent), Pends(log, parent)));
    case Compute(_, _) => assert log + [] == log;
    case Dispatch(_) => assert log + [] == log;
  }

  lemma RoutesJoin(a: seq<Packet>, b: seq<Packet>)
    ensures Routes(a + b) == Routes(a) + Routes(b)
  {
  }

  /** The messages handed over in the log are those delivered. */
  lemma {:induction false} LogDelivers(es: seq<Event>)
    requires After(es).Some?
    ensures Handovers(Log(es)) == Routes(Got(es))
  {
    if es == [] {
    } else {
      var prev, e := es[..|es| - 1], es[|es| - 1];
      var s := After(prev).value;
      LogDelivers(prev);
      LogAgrees(prev);
      StepHandovers(s, Log(prev), e);
      RoutesJoin(Got(prev), GotBy(s, e, After(es).value));
    }
  }

  // ------------------------------------------------------------------ interrupts are conserved

  function Count(b: bool): nat { if b then 1 else 0 }

  /** The interrupts raised for t, with one inherited at birth. */
  function Raises(log: seq<Entry>, t: int): nat {
    if log == [] then 0 else Raises(log[..|log| - 1], t) + Count(RaisesAnew(log[|log| - 1], t))
  }

  function Takings(log: seq<Entry>, t: int): nat {
    if log == [] then 0 else Takings(log[..|log| - 1], t) + Count(log[|log| - 1] == Taken(t))
  }

  /** Those raised while one was pending; a slot that is born forgets what was pending in it. */
  function Merged(log: seq<Entry>, t: int): nat {
    if log == [] then 0
    else
      var (before, x) := (log[..|log| - 1], log[|log| - 1]);
      Merged(before, t) + Count(Pends(before, t) && (x == Raised(t) || (x.Born? && x.p == t)))
  }

  /** Every interrupt of t is taken, pending, or was raised while one was pending. */
  predicate Balanced(log: seq<Entry>, t: int) {
    Raises(log, t) == Takings(log, t) + Count(Pends(log, t)) + Merged(log, t)
  }

  lemma BalancedNext(log: seq<Entry>, x: Entry, t: int)
    requires Balanced(log, t) && (x == Taken(t) ==> Pends(log, t))
    ensures Balanced(log + [x], t)
  {
    assert (log + [x])[..|log|] == log;
  }

  lemma BalancedTwo(log: seq<Entry>, x: Entry, y: Entry, t: int)
    requires Balanced(log, t) && x != Taken(t) && (y == Taken(t) ==> x == Raised(t) || Pends(log, t))
    requires y == Taken(t) ==> !x.Born?
    ensures Balanced(log + ([x] + [y]), t)
  {
    Appended(log, x, t);
    BalancedNext(log, x, t);
    BalancedNext(log + [x], y, t);
    assert log + ([x] + [y]) == log + [x] + [y];
  }

  lemma StepBalances(s: State, s': State, log: seq<Entry>, e: Event, t: int)
    requires Inv(s) && Enabled(s, e) && Wellformed(s') && Balanced(log, t)
    ensures Balanced(log + Entries(s, log, e, s'), t)
  {
    assert log + [] == log;
    match e
    case Syscall(true, dest, m) =>
      var x := Offered(s.current, dest, m);
      BalancedNext(log, x, t);
      BalancedTwo(log, x, Handed(s.current, dest), t);
      assert [x] + [] == [x];
    case Syscall(false, src, m) =>
      var x := Asked(s.current, src, m);
      BalancedNext(log, x, t);
      if Pends(log, s.current) {
        BalancedTwo(log, x, Taken(s.current), t);
      }
      if GotBy(s, e, s') != [] {
        BalancedTwo(log, x, Handed(GotBy(s, e, s')[0].from, s.current), t);
      }
      assert [x] + [] == [x];
    case HardInt(q) =>
      BalancedNext(log, Raised(q), t);
      BalancedTwo(log, Raised(q), Taken(q), t);
      assert [Raised(q)] + [] == [Raised(q)];
    case Fork(parent, child) => BalancedNext(log, Born(child, PhaseBy(log, parent), Pends(log, parent)), t);
    case Compute(_, _) =>
    case Dispatch(_) =>
  }

  lemma {:induction false} LogBalances(es: seq<Event>, t: int)
    requires After(es).Some?
    ensures Balanced(Log(es), t)
  {
    if es == [] {
    } else {
      var prev := es[..|es| - 1];
      LogBalances(prev, t);
      StepBalances(After(prev).value, After(es).value, Log(prev), es[|es| - 1], t);
    }
  }

  /** Over every run the interrupts raised for a slot are those it took, the one pending, and those merged into it. */
  lemma InterruptsConserved(es: seq<Event>, t: int)
    requires After(es).Some? && Slot(t)
    ensures Raises(Log(es), t) == Takings(Log(es), t) + Count(After(es).value.intr[t]) + Merged(Log(es), t)
  {
    LogBalances(es, t);
    LogAgrees(es);
    assert AgreesAt(After(es).value, Log(es), t);
  }

  lemma RaisedAlone(log: seq<Entry>, t: int)
    ensures Merged(log + [Raised(t)], t) == Merged(log, t) + Count(Pends(log, t))
    ensures Raises(log + [Raised(t)], t) == Raises(log, t) + 1
  {
    assert (log + [Raised(t)])[..|log|] == log;
  }

  lemma RaisedAndTaken(log: seq<Entry>, t: int)
    ensures var after := log + ([Raised(t)] + [Taken(t)]);
            Merged(after, t) == Merged(log, t) + Count(Pends(log, t)) && Raises(after, t) == Raises(log, t) + 1
  {
    var once := log + [Raised(t)];
    RaisedAlone(log, t);
    assert log + ([Raised(t)] + [Taken(t)]) == once + [Taken(t)];
    assert (once + [Taken(t)])[..|once|] == once;
  }

  lemma LogOfInterrupt(es: seq<Event>, t: int)
    requires After(es + [HardInt(t)]).Some?
    ensures After(es).Some? && Slot(t)
    ensures var log := Log(es);
            Log(es + [HardInt(t)]) == log + [Raised(t)] || Log(es + [HardInt(t)]) == log + ([Raised(t)] + [Taken(t)])
  {
    assert (es + [HardInt(t)])[..|es|] == es;
    assert [Raised(t)] + [] == [Raised(t)];
  }

  /** So no interrupt is lost while none is pending: it is then taken at once, or pending. */
  lemma NoInterruptLost(es: seq<Event>, t: int)
    requires After(es + [HardInt(t)]).Some?
    ensures After(es).Some? && Slot(t)
    ensures var (s, s') := (After(es).value, After(es + [HardInt(t)]).value);
            !s.intr[t] ==> Takings(Log(es + [HardInt(t)]), t) + Count(s'.intr[t]) == Takings(Log(es), t) + 1
  {
    LogOfInterrupt(es, t);
    InterruptsConserved(es, t);
    InterruptsConserved(es + [HardInt(t)], t);
    LogAgrees(es);
    assert AgreesAt(After(es).value, Log(es), t);
    RaisedAlone(Log(es), t);
    RaisedAndTaken(Log(es), t);
  }

  /** The buffer in which t reads an interrupt that the event gives it. */
  function TakenInto(s: State, e: Event, t: int): int
    requires Wellformed(s) && Slot(t)
  {
    match e
    case Syscall(_, _, m) => m
    case _ => if s.phase[t].Receiving? then s.phase[t].into else 0
  }

  /** An interrupt taken is read by the one who takes it: from INTERRUPT, of kind HARD_INT, in its own buffer. */
  lemma TakenIsRead(s: State, log: seq<Entry>, e: Event, t: int)
    requires Inv(s) && Agrees(s, log) && Enabled(s, e) && Step(s, e).Some? && Slot(t)
    requires Taken(t) in Entries(s, log, e, Step(s, e).value)
    ensures var msg := Load(Step(s, e).value.mem[t], TakenInto(s, e, t));
            && msg.source == INTERRUPT && msg.kind == HARD_INT
            && (e.HardInt? ==> msg.payload == Load(s.mem[t], TakenInto(s, e, t)).payload)
            && (e.Syscall? ==> msg.payload == [])
    ensures (e.Syscall? && t == s.current) || e == HardInt(t)
    ensures !Step(s, e).value.intr[t] && Step(s, e).value.phase[t].Ready?
  {
    assert AgreesAt(s, log, t) && AgreesAt(s, log, s.current);
  }

  // ------------------------------------------------------------------ what else a step does

  /** A send meets just a receiver that waits for the sender or for anyone; otherwise the sender blocks. */
  lemma SendMeets(s: State, dest: int, m: int)
    requires Inv(s) && Enabled(s, Syscall(true, dest, m)) && Step(s, Syscall(true, dest, m)).Some?
    ensures var (e, s', ph) := (Syscall(true, dest, m), Step(s, Syscall(true, dest, m)).value, s.phase[dest]);
            && (GotBy(s, e, s') != [] <==> ph.Receiving? && (ph.src == s.current || ph.src == ANY))
            && (GotBy(s, e, s') == [] ==> s'.phase[s.current] == Sending(dest, m))
  {
  }

  /** A receive meets a sender it has asked for, unless an interrupt comes first; otherwise the receiver blocks. */
  lemma ReceiveMeets(s: State, src: int, m: int)
    requires Inv(s) && Enabled(s, Syscall(false, src, m)) && Step(s, Syscall(false, src, m)).Some?
    ensures var (e, s', r) := (Syscall(false, src, m), Step(s, Syscall(false, src, m)).value, s.current);
            var interrupted := s.intr[r] && (src == ANY || src == INTERRUPT);
            && (GotBy(s, e, s') != [] <==>
                  !interrupted && exists p :: SendsTo(s, p, r) && (src == p || src == ANY))
            && (GotBy(s, e, s') == [] && !interrupted ==> s'.phase[r] == Receiving(src, m))
  {
    var r := s.current;
    ReceivePhases(s, src, m);
    if s.queue[r] != [] {
      assert s.queue[r][0] in s.queue[r] && SendsTo(s, s.queue[r][0], r);
    }
    assert forall p :: SendsTo(s, p, r) ==> p in s.queue[r];
  }

  /** An interrupt is taken at once by just the slots that wait for interrupts or for anyone. */
  lemma InterruptMeets(s: State, log: seq<Entry>, t: int)
    requires Inv(s) && Agrees(s, log) && Slot(t)
    ensures var s' := InterruptStep(s, t);
            Taken(t) in Entries(s, log, HardInt(t), s')
            <==> s.phase[t].Receiving? && (s.phase[t].src == INTERRUPT || s.phase[t].src == ANY)
  {
    assert AgreesAt(s, log, t);
  }

  /** Whoever hands a message over, or gets one, can run afterwards. */
  lemma StepReleases(s: State, e: Event, k: Packet)
    requires Inv(s) && Enabled(s, e) && Step(s, e).Some? && k in GotBy(s, e, Step(s, e).value)
    ensures Slot(k.from) && Slot(k.to)
    ensures Step(s, e).value.phase[k.from].Ready? && Step(s, e).value.phase[k.to].Ready?
  {
    if e.isSend {
      SendPhases(s, e.srcDest, e.m);
    } else {
      ReceivePhases(s, e.srcDest, e.m);
    }
  }

  /** The event is about slot p. */
  ghost predicate Names(s: State, e: Event, s': State, p: int)
    requires Inv(s) && Enabled(s, e) && Wellformed(s')
  {
    || (e.Syscall? && p == s.current) || (exists k :: k in GotBy(s, e, s') && (k.from == p || k.to == p))
    || e == HardInt(p) || (e.Fork? && p == e.child)
  }

  lemma PhaseFrame(s: State, e: Event, p: int)
    requires Inv(s) && Enabled(s, e) && Step(s, e).Some? && Slot(p) && !Names(s, e, Step(s, e).value, p)
    ensures Step(s, e).value.phase[p] == s.phase[p] && Step(s, e).value.intr[p] == s.intr[p]
  {
    var s' := Step(s, e).value;
    match e
    case Syscall(true, dest, m) =>
      SendPhases(s, dest, m);
      if GotBy(s, e, s') != [] {
        assert GotBy(s, e, s')[0] in GotBy(s, e, s');
      }
    case Syscall(false, src, m) =>
      ReceivePhases(s, src, m);
      if GotBy(s, e, s') != [] {
        assert GotBy(s, e, s')[0] in GotBy(s, e, s');
      }
    case _ =>
  }

  /** The event writes buffer a of slot p. */
  predicate Touches(s: State, e: Event, p: int, a: int)
    requires Wellformed(s) && Enabled(s, e) && Slot(p)
  {
    match e
    case Syscall(isSend, dest, m) =>
      || (p == s.current && a == m)
      || (isSend && p == dest && Accepts(s.phase[dest], s.current) && a == s.phase[dest].into)
    case HardInt(t) => p == t && AcceptsInterrupt(s.phase[t]) && a == s.phase[t].into
    case Compute(b, _) => p == s.current && a == b
    case Fork(_, child) => p == child
    case Dispatch(_) => false
  }

  /** No other buffer of any slot changes; the child of a fork has those of its parent. */
  lemma MemoryFrame(s: State, e: Event, p: int, a: int)
    requires Inv(s) && Enabled(s, e) && Step(s, e).Some? && Slot(p)
    ensures !Touches(s, e, p, a) ==> Load(Step(s, e).value.mem[p], a) == Load(s.mem[p], a)
    ensures e.Fork? && p == e.child ==> Load(Step(s, e).value.mem[p], a) == Load(s.mem[e.parent], a)
    ensures e.Compute? && p == s.current && a == e.a ==> Load(Step(s, e).value.mem[p], a) == e.msg
  {
  }

  /** A message is sent as its sender wrote it, but for its source; the caller's buffer keeps all but the source. */
  lemma SentAsWritten(s: State, dest: int, m: int)
    requires Inv(s) && Enabled(s, Syscall(true, dest, m)) && Step(s, Syscall(true, dest, m)).Some?
    ensures var (written, s') := (Load(s.mem[s.current], m), Step(s, Syscall(true, dest, m)).value);
            var msg := Message(s.current, written.kind, written.payload);
            && SentBy(s, Syscall(true, dest, m)) == [Packet(s.current, dest, msg, dest)]
            && Load(s'.mem[s.current], m) == msg
  {
  }

  /** The processor moves only as the clock says, or to the first ready slot after one that blocks. */
  lemma ProcessorMoves(s: State, e: Event, p: int)
    requires Inv(s) && Enabled(s, e) && Step(s, e).Some? && Slot(p)
    ensures var s' := Step(s, e).value;
            && (e.Dispatch? ==> s'.current == e.to)
            && (!e.Dispatch? && s'.phase[s.current].Ready? ==> s'.current == s.current)
            && (!s'.phase[s.current].Ready? && s'.phase[p].Ready? ==>
                  Distance(s.current, s'.current) <= Distance(s.current, p))
  {
    var s' := Step(s, e).value;
    if e.Syscall? {
      if e.isSend {
        SendPhases(s, e.srcDest, e.m);
      } else {
        ReceivePhases(s, e.srcDest, e.m);
      }
      if !s'.phase[s.current].Ready? && s'.phase[p].Ready? {
        NearestReady(s'.phase, s.current, p);
      }
    }
  }

  lemma NearestReady(phase: seq<Phase>, c: int, p: int)
    requires |phase| == NR_SLOTS && Slot(c) && Slot(p) && phase[p].Ready?
    ensures Distance(c, NextReady(phase, c)) <= Distance(c, p)
  {
    ScanFindsFirst(phase, Succ(c), NR_SLOTS - 1, Distance(c, p));
    var j: nat :| j <= Distance(c, p) && NextReady(phase, c) == Ahead(Succ(c), j);
    assert Distance(c, NextReady(phase, c)) == j;
  }
}
