/** What holds over every run of the file system's tables, from mkfs on, and runs in which it fails. */
module FileRuns {
  import opened FileProofs
  import opened FileTable
  import opened Wrappers

  datatype Event =
    | OpenFile(p: int, num: int, flags: int)
    | CreateFile(p: int, flags: int, startSect: int)
    | MakeDirectory(startSect: int)
    | Close(p: int, fd: int)
    | Copy(parent: int, child: int)   // do_fork copies the parent's slot
    | Count(child: int)               // the file system is told of it
    | Exit(p: int)
    | Remove(num: int)
    | Visit(num: int)                 // a reference that strip_path, do_is_dir or do_ls never gives back
    | Resize(k: int, size: int)       // a live i-node grows or shrinks
    | Move(p: int, fd: int, pos: int) // p seeks, or has read or written

  predicate Free(s: Files, p: int) { Slot(p) && !InFork(s, p) }

  ghost predicate Enabled(s: Files, e: Event)
    requires Sound(s)
  {
    match e
    case OpenFile(p, num, _) => Free(s, p) && Num(s.disk, num) && Taken(s, num)
    case CreateFile(p, _, _) => Free(s, p)
    case MakeDirectory(_) => true
    case Close(p, fd) => Free(s, p) && 0 <= fd < NR_FILES && s.filps[p * NR_FILES + fd] != NIL
    case Copy(parent, child) =>
      s.forking.None? && Slot(parent) && Slot(child) && parent != child && RowEmpty(s.filps, child)
    case Count(child) => s.forking.Some? && s.forking.value.child == child
    case Exit(p) => Free(s, p)
    case Remove(num) => Num(s.disk, num)
    case Visit(num) => Num(s.disk, num)
    case Resize(k, _) => 0 <= k < NR_INODE && s.inodes[k].cnt > 0
    case Move(p, fd, _) => Free(s, p) && 0 <= fd < NR_FILES && s.filps[p * NR_FILES + fd] != NIL
  }

  ghost function Step(s: Files, e: Event): Option<Files>
    requires Sound(s) && Enabled(s, e)
  {
    match e
    case OpenFile(p, num, flags) => Open(s, p, num, flags)
    case CreateFile(p, flags, startSect) => Create(s, p, flags, startSect)
    case MakeDirectory(startSect) => Mkdir(s, startSect)
    case Close(p, fd) => Some(DetachOne(s, p * NR_FILES + fd))
    case Copy(parent, child) => Some(ForkCopied(s, parent, child))
    case Count(child) => Some(ForkCounted(s, child))
    case Exit(p) => Some(DetachRow(s, p * NR_FILES, NR_FILES))
    case Remove(num) => Unlink(s, num)
    case Visit(num) => var h := Get(s, num); if h.None? then None else Some(h.value.s)
    case Resize(k, size) => Some(Resized(s, k, size))
    case Move(p, fd, pos) =>
      SlotRefers(s, p * NR_FILES + fd);
      Some(Repositioned(s, p * NR_FILES + fd, pos))
  }

  /** The step removes a directory that is open. */
  ghost predicate RemovesOpen(s: Files, e: Event)
    requires Sound(s) && Enabled(s, e)
  {
    e.Remove? && Get(s, e.num).Some? && !Refused(s, e.num) && IsOpen(s, e.num)
  }

  /** The step makes an i-node of a number that is open. */
  ghost predicate Clashes(s: Files, e: Event)
    requires Core(s)
  {
    (e.CreateFile? || e.MakeDirectory?) && IsOpen(s, NewNum(s))
  }

  // ------------------------------------------------------------------ one step

  /** In a sound state every step leaves a sound one, unless it makes a file of a number that is open. */
  lemma StepSoundExactly(s: Files, e: Event)
    requires Sound(s) && Enabled(s, e) && Step(s, e).Some?
    ensures Sound(Step(s, e).value) <==> !Clashes(s, e)
  {
    match e
    case OpenFile(p, num, flags) => OpenKeeps(s, p, num, flags);
    case CreateFile(p, flags, startSect) => CreateExact(s, p, flags, startSect);
    case MakeDirectory(startSect) => MkdirExact(s, startSect);
    case Close(p, fd) => DetachKeeps(s, p, fd);
    case Copy(parent, child) => ForkCopyKeeps(s, parent, child);
    case Count(child) => ForkKeeps(s, child);
    case Exit(p) => DetachRowKeeps(s, p, NR_FILES);
    case Remove(num) => UnlinkExact(s, num);
    case Visit(num) => GetKeeps(s, num);
    case Resize(k, size) => ResizeKeeps(s, k, size);
    case Move(p, fd, pos) => RepositionKeeps(s, p * NR_FILES + fd, pos);
  }

  lemma GentleStep(s: Files, e: Event)
    requires Sound(s) && Enabled(s, e) && Step(s, e).Some? && (e.Close? || e.Count? || e.Exit? || e.Move?)
    ensures Gentle(s, Step(s, e).value)
  {
    match e
    case Close(p, fd) => DetachKeeps(s, p, fd);
    case Count(child) => ForkKeeps(s, child);
    case Exit(p) => DetachRowKeeps(s, p, NR_FILES);
    case Move(p, fd, pos) => RepositionKeeps(s, p * NR_FILES + fd, pos);
  }

  lemma OtherStepsKeep(s: Files, e: Event)
    requires Sound(s) && Enabled(s, e) && Step(s, e).Some? && !Clashes(s, e) && !e.Remove?
    ensures var s' := Step(s, e).value;
            Sound(s') && KeepsLeaks(s, s') && (NumbersTaken(s) ==> NumbersTaken(s'))
  {
    if e.Close? || e.Count? || e.Exit? || e.Move? {
      GentleStep(s, e);
      GentleKeeps(s, Step(s, e).value);
    }
    match e
    case OpenFile(p, num, flags) => OpenKeeps(s, p, num, flags);
    case CreateFile(p, flags, startSect) => CreateKeeps(s, p, flags, startSect);
    case MakeDirectory(startSect) => MkdirKeeps(s, startSect);
    case Copy(parent, child) => ForkCopyKeeps(s, parent, child);
    case Visit(num) => VisitKeeps(s, num);
    case Resize(k, size) => ResizeKeeps(s, k, size);
    case _ =>
  }

  /** It also keeps leaks, and open numbers taken exactly unless it removes an open directory. */
  lemma StepKeeps(s: Files, e: Event)
    requires Sound(s) && Enabled(s, e) && Step(s, e).Some? && !Clashes(s, e)
    ensures var s' := Step(s, e).value;
            && Sound(s') && KeepsLeaks(s, s')
            && (NumbersTaken(s) ==> (NumbersTaken(s') <==> !RemovesOpen(s, e)))
  {
    if e.Remove? {
      UnlinkExact(s, e.num);
    } else {
      OtherStepsKeep(s, e);
    }
  }

  lemma VisitKeeps(s: Files, num: int)
    requires Sound(s) && Num(s.disk, num) && Get(s, num).Some?
    ensures var s' := Get(s, num).value.s;
            Sound(s') && KeepsLeaks(s, s') && (NumbersTaken(s) ==> NumbersTaken(s'))
  {
    GetKeeps(s, num);
    LeakBySlack(s, num);
  }

  /** While open i-nodes have their numbers taken nothing clashes. */
  lemma TakenNeverClashes(s: Files, e: Event)
    requires Sound(s) && NumbersTaken(s) && Enabled(s, e) && Step(s, e).Some?
    ensures !Clashes(s, e)
  {
    match e
    case CreateFile(p, flags, startSect) => CreateIs(s, p, flags, startSect);
    case MakeDirectory(startSect) => MkdirIs(s, startSect);
    case _ =>
  }

  // ------------------------------------------------------------------ when the system halts

  ghost predicate NoSlotFree(s: Files, p: int)
    requires |s.filps| == NR_SLOTS * NR_FILES && Slot(p)
  {
    forall i :: p * NR_FILES <= i < p * NR_FILES + NR_FILES ==> s.filps[i] != NIL
  }

  ghost predicate NoDescFree(s: Files) { forall d :: 0 <= d < |s.descs| ==> s.descs[d].inode != NIL }

  ghost predicate NoNumberFree(s: Files) { forall n :: 0 <= n < |s.bits| ==> s.bits[n] }

  /** i-node num is not in the cache, and every slot of it is in use. */
  ghost predicate NoRoomFor(s: Files, num: int) {
    forall k :: 0 <= k < |s.inodes| ==> s.inodes[k].cnt != 0 && s.inodes[k].num != num
  }

  lemma GetHaltsExactly(s: Files, num: int)
    requires Core(s) && Num(s.disk, num)
    ensures Get(s, num).None? <==> NoRoomFor(s, num)
  {
  }

  lemma NewHaltsExactly(s: Files, mode: int, startSect: int)
    requires Core(s)
    ensures New(s, mode, startSect).None? <==> NoNumberFree(s) || NoRoomFor(s, NewNum(s))
  {
    if NewNum(s) < |s.bits| {
      GetHaltsExactly(s.(bits := s.bits[NewNum(s) := true]), NewNum(s));
    }
  }

  lemma NoSlotExactly(s: Files, p: int)
    requires |s.filps| == NR_SLOTS * NR_FILES && Slot(p)
    ensures FreeFd(s.filps, p * NR_FILES, 0) == NR_FILES <==> NoSlotFree(s, p)
  {
  }

  lemma NoDescExactly(s: Files)
    ensures FreeDesc(s.descs, 0) == |s.descs| <==> NoDescFree(s)
  {
  }

  /** The system halts exactly where a table is full, or where a file to be removed has no number of its own. */
  lemma HaltsExactly(s: Files, e: Event)
    requires Sound(s) && Enabled(s, e)
    ensures Step(s, e).None? <==>
              match e
              case OpenFile(p, num, _) => NoSlotFree(s, p) || NoDescFree(s) || NoRoomFor(s, num)
              case CreateFile(p, _, _) =>
                NoSlotFree(s, p) || NoDescFree(s) || NoNumberFree(s) || NoRoomFor(s, NewNum(s))
              case MakeDirectory(_) => NoNumberFree(s) || NoRoomFor(s, NewNum(s))
              case Remove(num) => NoRoomFor(s, num) || (!Refused(s, num) && !Taken(s, num))
              case Visit(num) => NoRoomFor(s, num)
              case _ => false
  {
    NoDescExactly(s);
    match e
    case OpenFile(p, num, _) => NoSlotExactly(s, p); GetHaltsExactly(s, num);
    case CreateFile(p, _, startSect) => NoSlotExactly(s, p); NewHaltsExactly(s, I_REGULAR, startSect);
    case MakeDirectory(startSect) => NewHaltsExactly(s, I_DIRECTORY, startSect);
    case Remove(num) => GetHaltsExactly(s, num);
    case Visit(num) => GetHaltsExactly(s, num);
    case _ =>
  }

  // ------------------------------------------------------------------ runs

  lemma InitialIsSound(sectors: NodeDisk, firstSect: int)
    requires WholeSectors(sectors) && |sectors| > 0
    ensures Sound(Initial(sectors, firstSect)) && NumbersTaken(Initial(sectors, firstSect))
  {
    var s := Initial(sectors, firstSect);
    forall k | 0 <= k < NR_INODE {
      NothingReferred(s.descs, k);
    }
    forall d | 0 <= d < NR_FILE_DESC ensures multiset(s.counted)[d] == 0 {
      assert d !in s.counted;
    }
    assert Settled(s);
  }

  lemma {:induction false} NothingReferred(ds: seq<Desc>, k: int)
    requires forall d :: 0 <= d < |ds| ==> ds[d].cnt == 0
    ensures RefSum(ds, k) == 0
  {
    if ds == [] {
    } else {
      NothingReferred(ds[..|ds| - 1], k);
    }
  }

  /** The state after some events; None if the system has halted, or made an i-node of an open number, on the way. */
  ghost function After(sectors: NodeDisk, firstSect: int, es: seq<Event>): (r: Option<Files>)
    requires WholeSectors(sectors) && |sectors| > 0
    ensures r.Some? ==> Sound(r.value)
  {
    if es == [] then
      InitialIsSound(sectors, firstSect);
      Some(Initial(sectors, firstSect))
    else
      var prev := After(sectors, firstSect, es[..|es| - 1]);
      var e := es[|es| - 1];
      if prev.None? || !Enabled(prev.value, e) || Clashes(prev.value, e) || Step(prev.value, e).None? then None
      else
        StepSoundExactly(prev.value, e);
        Step(prev.value, e)
  }

  /** No directory is removed while it is open. */
  ghost predicate Prudent(sectors: NodeDisk, firstSect: int, es: seq<Event>)
    requires WholeSectors(sectors) && |sectors| > 0
  {
    es == [] ||
      var (before, e) := (es[..|es| - 1], es[|es| - 1]);
      && Prudent(sectors, firstSect, before)
      && (After(sectors, firstSect, before).Some? && Enabled(After(sectors, firstSect, before).value, e) ==>
            !RemovesOpen(After(sectors, firstSect, before).value, e))
  }

  /** Then no number is ever handed out that is open: such a run ends only where the system halts. */
  lemma {:induction false} PrudentRunsNeverClash(sectors: NodeDisk, firstSect: int, es: seq<Event>, e: Event)
    requires WholeSectors(sectors) && |sectors| > 0
    requires Prudent(sectors, firstSect, es) && After(sectors, firstSect, es).Some?
    ensures NumbersTaken(After(sectors, firstSect, es).value)
    ensures var s := After(sectors, firstSect, es).value;
            Enabled(s, e) && Step(s, e).Some? ==> !Clashes(s, e)
  {
    var s := After(sectors, firstSect, es).value;
    if es == [] {
      InitialIsSound(sectors, firstSect);
    } else {
      var (before, last) := (es[..|es| - 1], es[|es| - 1]);
      PrudentRunsNeverClash(sectors, firstSect, before, last);
      StepKeeps(After(sectors, firstSect, before).value, last);
    }
    if Enabled(s, e) && Step(s, e).Some? {
      TakenNeverClashes(s, e);
    }
  }

  /**
   Over every such run: descriptors are counted by the open slots and i-nodes at least by their descriptors, the
   cache is the disk, and no file that some process has open can be removed unless it is a directory.
   */
  lemma OpenFilesStay(sectors: NodeDisk, firstSect: int, es: seq<Event>, num: int)
    requires WholeSectors(sectors) && |sectors| > 0 && After(sectors, firstSect, es).Some?
    ensures var s := After(sectors, firstSect, es).value;
            && Coherent(s.inodes, s.disk) && Counted(s.counted, s.descs, s.inodes)
            && (s.forking.None? ==> Counted(s.filps, s.descs, s.inodes))
            && (IsOpen(s, num) ==> Num(s.disk, num))
            && (IsOpen(s, num) && NodeAt(s.disk, num).mode != I_DIRECTORY ==> Refused(s, num))
  {
    var s := After(sectors, firstSect, es).value;
    if IsOpen(s, num) {
      OpenIsCached(s, num);
      if NodeAt(s.disk, num).mode != I_DIRECTORY {
        OpenFileStays(s, num);
      }
    }
  }

  // ------------------------------------------------------------------ a refusal is for ever

  /** Some slot holds file num with more references than descriptors account for. */
  ghost predicate Leaked(s: Files, num: int)
    requires Core(s)
  {
    && Num(s.disk, num) && Taken(s, num) && NodeAt(s.disk, num).mode == I_REGULAR
    && exists k :: 0 <= k < NR_INODE && LeakedAt(s, num, k)
  }

  ghost predicate LeakedAt(s: Files, num: int, k: int)
    requires 0 <= k < |s.inodes|
  {
    s.inodes[k].num == num && Slack(s.descs, s.inodes, k) > 0
  }

  lemma LeakedIsRefused(s: Files, num: int)
    requires Sound(s) && Leaked(s, num)
    ensures Get(s, num).Some? && Refused(s, num)
  {
    var k :| 0 <= k < NR_INODE && LeakedAt(s, num, k);
    RefSumAtLeast(s.descs, 0, k);
    assert s.inodes[k].cnt > 0;
    FileRefusedIffCached(s, num);
  }

  /** Refusing to remove a regular file leaks a reference to it. */
  lemma RefusalLeaks(s: Files, num: int)
    requires Sound(s) && Num(s.disk, num) && Taken(s, num) && Get(s, num).Some? && Refused(s, num)
    requires NodeAt(s.disk, num).mode == I_REGULAR
    ensures Unlink(s, num).Some? && Core(Unlink(s, num).value) && Leaked(Unlink(s, num).value, num)
  {
    var h := Get(s, num).value;
    GetKeeps(s, num);
    CacheSlotIs(s, num);
    RefSumAtLeast(s.descs, 0, h.k);
    assert LeakedAt(h.s, num, h.k);
  }

  lemma LeakStays(s: Files, e: Event, num: int)
    requires Sound(s) && Enabled(s, e) && Step(s, e).Some? && !Clashes(s, e) && Leaked(s, num)
    ensures Sound(Step(s, e).value) && Leaked(Step(s, e).value, num)
  {
    var s' := Step(s, e).value;
    StepKeeps(s, e);
    LeakedIsRefused(s, num);
    var k :| 0 <= k < NR_INODE && LeakedAt(s, num, k);
    assert Kept(s, s', k);
    assert LeakedAt(s', num, k);
    NodeStays(s, e, num);
  }

  /** i-node num keeps its mode and its number. */
  ghost predicate SameMode(s: Files, s': Files, num: int)
    requires WholeSectors(s.disk) && Num(s.disk, num)
  {
    && WholeSectors(s'.disk) && Num(s'.disk, num) && Taken(s', num)
    && NodeAt(s'.disk, num).mode == NodeAt(s.disk, num).mode
  }

  lemma MadeKeepsMode(s: Files, s': Files, k: int, n: Inode, num: int)
    requires WholeSectors(s.disk) && Num(s.disk, n.num) && MadeIn(s, s', k, n) && !s.bits[n.num]
    requires Num(s.disk, num) && Taken(s, num)
    ensures SameMode(s, s', num)
  {
    WithNodeOthers(s.disk, n.num, n.node, num);
  }

  lemma RemovalKeepsMode(s: Files, other: int, num: int)
    requires Core(s) && Num(s.disk, other) && Unlink(s, other).Some? && Num(s.disk, num) && Taken(s, num)
    requires other == num ==> Refused(s, num)
    ensures SameMode(s, Unlink(s, other).value, num)
  {
    if !Refused(s, other) {
      RemovalIs(s, other);
      WithNodeOthers(s.disk, other, Node(0, 0, 0, 0), num);
    }
  }

  lemma ResizeKeepsMode(s: Files, k: int, size: int, num: int)
    requires Core(s) && 0 <= k < NR_INODE && s.inodes[k].cnt > 0 && Num(s.disk, num) && Taken(s, num)
    ensures SameMode(s, Resized(s, k, size), num)
  {
    WithNodeOthers(s.disk, s.inodes[k].num, s.inodes[k].node.(size := size), num);
  }

  /** No step but its own removal, or being made anew, changes what a file is. */
  lemma NodeStays(s: Files, e: Event, num: int)
    requires Sound(s) && Enabled(s, e) && Step(s, e).Some?
    requires Num(s.disk, num) && Taken(s, num) && (e == Remove(num) ==> Refused(s, num))
    ensures SameMode(s, Step(s, e).value, num)
  {
    var s' := Step(s, e).value;
    match e
    case CreateFile(p, flags, startSect) =>
      CreateIs(s, p, flags, startSect);
      MadeKeepsMode(s, s', NewSlot(s), Inode(Node(I_REGULAR, 0, startSect, 2048), 1, NewNum(s)), num);
    case MakeDirectory(startSect) =>
      MkdirIs(s, startSect);
      MadeKeepsMode(s, s', NewSlot(s), Inode(Node(I_DIRECTORY, 0, startSect, 2048), 0, NewNum(s)), num);
    case Remove(other) => RemovalKeepsMode(s, other, num);
    case Resize(k, size) => ResizeKeepsMode(s, k, size, num);
    case Close(p, fd) => DetachKeeps(s, p, fd);
    case Exit(p) => DetachRowKeeps(s, p, NR_FILES);
    case Count(child) => ForkKeeps(s, child);
    case _ =>
  }

  lemma AfterOne(sectors: NodeDisk, firstSect: int, es: seq<Event>, e: Event)
    requires WholeSectors(sectors) && |sectors| > 0 && After(sectors, firstSect, es + [e]).Some?
    ensures After(sectors, firstSect, es).Some?
    ensures var s := After(sectors, firstSect, es).value;
            Enabled(s, e) && !Clashes(s, e) && Step(s, e) == After(sectors, firstSect, es + [e])
  {
    assert (es + [e])[..|es|] == es;
  }

  ghost predicate LeakedAfter(sectors: NodeDisk, firstSect: int, es: seq<Event>, num: int)
    requires WholeSectors(sectors) && |sectors| > 0
  {
    After(sectors, firstSect, es).Some? && Leaked(After(sectors, firstSect, es).value, num)
  }

  lemma LeakedOneMore(sectors: NodeDisk, firstSect: int, es: seq<Event>, e: Event, num: int)
    requires WholeSectors(sectors) && |sectors| > 0 && After(sectors, firstSect, es + [e]).Some?
    requires LeakedAfter(sectors, firstSect, es, num)
    ensures LeakedAfter(sectors, firstSect, es + [e], num)
  {
    AfterOne(sectors, firstSect, es, e);
    LeakStays(After(sectors, firstSect, es).value, e, num);
  }

  lemma LastSplit(es: seq<Event>, more: seq<Event>)
    requires more != []
    ensures es + more == es + more[..|more| - 1] + [more[|more| - 1]]
  {
  }

  lemma {:induction false} LeakedThroughout(
      sectors: NodeDisk, firstSect: int, es: seq<Event>, more: seq<Event>, num: int)
    requires WholeSectors(sectors) && |sectors| > 0 && LeakedAfter(sectors, firstSect, es, num)
    requires After(sectors, firstSect, es + more).Some?
    ensures LeakedAfter(sectors, firstSect, es + more, num)
    decreases |more|
  {
    if more == [] {
      assert es + more == es;
    } else {
      var (before, e) := (es + more[..|more| - 1], more[|more| - 1]);
      LastSplit(es, more);
      AfterOne(sectors, firstSect, before, e);
      LeakedThroughout(sectors, firstSect, es, more[..|more| - 1], num);
      LeakedOneMore(sectors, firstSect, before, e, num);
    }
  }

  /** The removal of a regular file is refused after the events. */
  ghost predicate RefusedAfter(sectors: NodeDisk, firstSect: int, es: seq<Event>, num: int)
    requires WholeSectors(sectors) && |sectors| > 0 && After(sectors, firstSect, es).Some?
  {
    var s := After(sectors, firstSect, es).value;
    && Num(s.disk, num) && Taken(s, num) && NodeAt(s.disk, num).mode == I_REGULAR
    && Get(s, num).Some? && Refused(s, num)
  }

  /** Once the removal of a regular file has been refused, every later one is, whatever is closed in between. */
  lemma RefusedForEver(sectors: NodeDisk, firstSect: int, es: seq<Event>, more: seq<Event>, num: int)
    requires WholeSectors(sectors) && |sectors| > 0 && After(sectors, firstSect, es).Some?
    requires RefusedAfter(sectors, firstSect, es, num)
    requires After(sectors, firstSect, es + [Remove(num)]).Some?
    requires After(sectors, firstSect, es + [Remove(num)] + more).Some?
    ensures RefusedAfter(sectors, firstSect, es + [Remove(num)] + more, num)
  {
    AfterOne(sectors, firstSect, es, Remove(num));
    RefusalLeaks(After(sectors, firstSect, es).value, num);
    LeakedThroughout(sectors, firstSect, es + [Remove(num)], more, num);
    LeakedIsRefused(After(sectors, firstSect, es + [Remove(num)] + more).value, num);
  }

  // ------------------------------------------------------------------ runs in which it goes wrong

  lemma AfterNext(sectors: NodeDisk, firstSect: int, es: seq<Event>, e: Event)
    requires WholeSectors(sectors) && |sectors| > 0 && After(sectors, firstSect, es).Some?
    requires var s := After(sectors, firstSect, es).value;
             Enabled(s, e) && !Clashes(s, e) && Step(s, e).Some?
    ensures After(sectors, firstSect, es + [e]) == Step(After(sectors, firstSect, es).value, e)
  {
    assert (es + [e])[..|es|] == es;
  }

  lemma ClearBitIs(bits: seq<bool>, r: nat)
    requires r < |bits| && !bits[r] && forall j :: 0 <= j < r ==> bits[j]
    ensures ClearBit(bits, 0) == r
  {
  }

  lemma LiveSlotIs(ns: seq<Inode>, num: int, r: nat)
    requires r < |ns| && ns[r].cnt != 0 && ns[r].num == num
    requires forall l :: 0 <= l < r ==> ns[l].cnt == 0 || ns[l].num != num
    ensures LiveSlot(ns, num, 0) == r && CacheSlot(ns, num) == r
  {
  }

  lemma EmptySlotIs(ns: seq<Inode>, num: int, r: nat)
    requires r < |ns| && ns[r].cnt == 0 && forall l :: 0 <= l < r ==> ns[l].cnt != 0
    requires forall l :: 0 <= l < |ns| ==> ns[l].cnt == 0 || ns[l].num != num
    ensures CacheSlot(ns, num) == r && ns[CacheSlot(ns, num)].cnt == 0
  {
  }

  lemma FreeFdIs(fs: seq<int>, base: nat, r: nat)
    requires r < NR_FILES && base + NR_FILES <= |fs| && fs[base + r] == NIL
    requires forall i :: base <= i < base + r ==> fs[i] != NIL
    ensures FreeFd(fs, base, 0) == r
  {
  }

  lemma FreeDescIs(ds: seq<Desc>, r: nat)
    requires r < |ds| && ds[r].inode == NIL && forall j :: 0 <= j < r ==> ds[j].inode != NIL
    ensures FreeDesc(ds, 0) == r
  {
  }

  /** Nothing is open, and only the root directory may be live. */
  ghost predicate Idle(s: Files) {
    && Sound(s) && s.forking.None?
    && (forall i :: 0 <= i < |s.filps| ==> s.filps[i] == NIL)
    && (forall d :: 0 <= d < NR_FILE_DESC ==> s.descs[d].inode == NIL)
    && s.inodes[0].cnt == 1 && s.inodes[0].num == 1
    && (forall k :: 1 <= k < NR_INODE ==> s.inodes[k].cnt == 0)
  }

  /** Opening another i-node then uses cache slot 1 and descriptor 0. */
  lemma FirstOpen(s: Files, p: int, num: int, flags: int)
    requires Idle(s) && Slot(p) && Num(s.disk, num) && num != 1
    ensures Open(s, p, num, flags) == Some(Connected(
              s.(inodes := s.inodes[1 := Inode(NodeAt(s.disk, num), 1, num)]), p * NR_FILES, 0, 1, flags))
  {
    EmptySlotIs(s.inodes, num, 1);
    FreeFdIs(s.filps, p * NR_FILES, 0);
    FreeDescIs(s.descs, 0);
  }

  lemma InitialIsIdle(sectors: NodeDisk, firstSect: int)
    requires WholeSectors(sectors) && |sectors| > 0
    ensures Idle(Initial(sectors, firstSect)) && ClearBit(Initial(sectors, firstSect).bits, 0) == 6
  {
    InitialIsSound(sectors, firstSect);
    ClearBitIs(Initial(sectors, firstSect).bits, 6);
  }

  /** The first directory made on a new system gets i-node 6. */
  lemma FirstDirectory(sectors: NodeDisk, firstSect: int, startSect: int)
    requires WholeSectors(sectors) && |sectors| > 0
    ensures var (s, r) := (Initial(sectors, firstSect), Mkdir(Initial(sectors, firstSect), startSect));
            && r.Some? && Idle(r.value) && r.value.bits == s.bits[6 := true] && Num(s.disk, 6)
            && NodeAt(r.value.disk, 6) == Node(I_DIRECTORY, 0, startSect, 2048)
  {
    var s := Initial(sectors, firstSect);
    InitialIsIdle(sectors, firstSect);
    InitialIsSound(sectors, firstSect);
    EmptySlotIs(s.inodes, 6, 1);
    NewIs(s, I_DIRECTORY, startSect);
    MkdirKeeps(s, startSect);
    WithNodeOthers(s.disk, 6, Node(I_DIRECTORY, 0, startSect, 2048), 6);
  }

  /** I-node 6 is in cache slot 1, counted once, and process p has it open as its descriptor 0. */
  ghost predicate HeldBy(s: Files, p: int) {
    && Sound(s) && s.forking.None? && Slot(p) && Num(s.disk, 6) && |s.bits| > 6
    && s.filps[p * NR_FILES] == 0 && s.descs[0].inode == 1 && s.descs[0].cnt == 1 && s.descs[1].inode == NIL
    && s.inodes[0].cnt == 1 && s.inodes[0].num == 1 && s.inodes[1].cnt == 1 && s.inodes[1].num == 6
    && (forall i :: 0 <= i < 6 ==> s.bits[i])
  }

  /** It is an empty directory. */
  ghost predicate DirectoryOpen(s: Files, p: int) {
    && HeldBy(s, p) && s.bits[6] && s.inodes[1].node.mode == I_DIRECTORY && s.inodes[1].node.size == 0
    && (forall i :: 0 <= i < |s.filps| && i != p * NR_FILES ==> s.filps[i] == NIL)
  }

  lemma DirectoryOpens(s: Files, p: int, flags: int)
    requires Idle(s) && Slot(p) && Num(s.disk, 6) && |s.bits| > 6 && (forall i :: 0 <= i <= 6 ==> s.bits[i])
    requires NodeAt(s.disk, 6).mode == I_DIRECTORY && NodeAt(s.disk, 6).size == 0
    ensures Open(s, p, 6, flags).Some? && DirectoryOpen(Open(s, p, 6, flags).value, p)
  {
    FirstOpen(s, p, 6, flags);
    OpenIsSound(s, p, 6, flags);
  }

  lemma DirectoryRemoved(s: Files, p: int)
    requires DirectoryOpen(s, p)
    ensures RemovesOpen(s, Remove(6)) && Unlink(s, 6).Some?
    ensures var t := Unlink(s, 6).value;
            HeldBy(t, p) && !t.bits[6] && (forall i :: 0 <= i < |t.filps| && i != p * NR_FILES ==> t.filps[i] == NIL)
  {
    LiveSlotIs(s.inodes, 6, 1);
    assert OpenAs(s, 0, 6);
    RemovalIsSound(s, 6);
    RemovalIs(s, 6);
  }

  /** The directory's number is given to a file, and the live slot is counted once for two descriptors. */
  ghost predicate Shared(u: Files, p: int)
    requires Slot(p)
  {
    && |u.filps| == |u.counted| == NR_SLOTS * NR_FILES && |u.descs| == NR_FILE_DESC && |u.inodes| == NR_INODE
    && Coherent(u.inodes, u.disk) && Num(u.disk, 6) && NodeAt(u.disk, 6).mode == I_REGULAR
    && u.filps[p * NR_FILES] == 0 && u.descs[0].inode == 1 && u.descs[0].cnt == 1 && u.descs[1].inode == 1
    && u.inodes[0].cnt == 1 && u.inodes[0].num == 1 && u.inodes[1].cnt == 1 && u.inodes[1].num == 6
    && |u.bits| > 6 && u.bits[6]
  }

  lemma FileShares(t: Files, p: int, q: int, flags: int, startSect: int)
    requires HeldBy(t, p) && !t.bits[6] && Slot(q) && Create(t, q, flags, startSect).Some?
    ensures Shared(Create(t, q, flags, startSect).value, p)
  {
    ClearBitIs(t.bits, 6);
    LiveSlotIs(t.inodes, 6, 1);
    FreeDescIs(t.descs, 1);
    CreateIs(t, q, flags, startSect);
    WithNodeOthers(t.disk, 6, Node(I_REGULAR, 0, startSect, 2048), 6);
  }

  lemma FileIsMade(t: Files, p: int, q: int, flags: int, startSect: int)
    requires HeldBy(t, p) && !t.bits[6] && Slot(q) && FreeFd(t.filps, q * NR_FILES, 0) < NR_FILES
    ensures Clashes(t, CreateFile(q, flags, startSect)) && Create(t, q, flags, startSect).Some?
  {
    ClearBitIs(t.bits, 6);
    assert OpenAs(t, 0, 6);
    LiveSlotIs(t.inodes, 6, 1);
    FreeDescIs(t.descs, 1);
  }

  lemma NumberReused(t: Files, p: int, q: int, flags: int, startSect: int)
    requires HeldBy(t, p) && !t.bits[6] && Slot(q) && FreeFd(t.filps, q * NR_FILES, 0) < NR_FILES
    ensures Clashes(t, CreateFile(q, flags, startSect)) && Create(t, q, flags, startSect).Some?
    ensures var u := Create(t, q, flags, startSect).value;
            !Sound(u) && Shared(u, p)
  {
    FileIsMade(t, p, q, flags, startSect);
    FileShares(t, p, q, flags, startSect);
    CreateExact(t, q, flags, startSect);
  }

  /** The one descriptor closed, the other's file can be removed. */
  lemma OtherClosed(u: Files, p: int)
    requires Slot(p) && Shared(u, p)
    ensures var v := DetachOne(u, p * NR_FILES);
            && Shaped(v) && IsOpen(v, 6) && NodeAt(v.disk, 6).mode == I_REGULAR && !Refused(v, 6)
            && Unlink(v, 6).Some? && NodeAt(Unlink(v, 6).value.disk, 6).mode == 0 && IsOpen(Unlink(v, 6).value, 6)
  {
    var v := DetachOne(u, p * NR_FILES);
    assert v.inodes == u.inodes[1 := Bumped(u.inodes[1], -1)] && v.descs[1] == u.descs[1];
    assert OpenAs(v, 1, 6);
    EmptySlotIs(v.inodes, 6, 1);
    var w := Unlink(v, 6).value;
    WithNodeOthers(v.disk, 6, Node(0, 0, 0, 0), 6);
    assert OpenAs(w, 1, 6);
  }

  /** The sizes that do_unlink relies on. */
  ghost predicate Shaped(s: Files) {
    |s.descs| == NR_FILE_DESC && |s.inodes| == NR_INODE && WholeSectors(s.disk) && Num(s.disk, 6)
  }

  lemma NothingOpenClashes(s: Files, e: Event)
    requires Idle(s)
    ensures !Clashes(s, e)
  {
  }

  function DirectoryRun(startSect: int, p: int, flags: int): seq<Event> {
    [MakeDirectory(startSect)] + [OpenFile(p, 6, flags)] + [Remove(6)]
  }

  /** A new directory made, opened, and removed while it is open. */
  lemma DirectoryRuns(sectors: NodeDisk, firstSect: int, startSect: int, p: int, flags: int)
    requires WholeSectors(sectors) && |sectors| > 0 && Slot(p)
    ensures var r := After(sectors, firstSect, DirectoryRun(startSect, p, flags));
            && r.Some? && HeldBy(r.value, p) && !r.value.bits[6]
            && (forall i :: 0 <= i < |r.value.filps| && i != p * NR_FILES ==> r.value.filps[i] == NIL)
  {
    var (e1, e2, e3) := (MakeDirectory(startSect), OpenFile(p, 6, flags), Remove(6));
    InitialIsIdle(sectors, firstSect);
    FirstDirectory(sectors, firstSect, startSect);
    var s1 := Mkdir(Initial(sectors, firstSect), startSect).value;
    DirectoryOpens(s1, p, flags);
    var s2 := Open(s1, p, 6, flags).value;
    DirectoryRemoved(s2, p);
    NothingOpenClashes(Initial(sectors, firstSect), e1);
    ThreeSteps(sectors, firstSect, e1, e2, e3, s1, s2, Unlink(s2, 6).value);
  }

  lemma ThreeSteps(sectors: NodeDisk, firstSect: int, e1: Event, e2: Event, e3: Event, s1: Files, s2: Files, s3: Files)
    requires WholeSectors(sectors) && |sectors| > 0
    requires var s0 := Initial(sectors, firstSect);
             Sound(s0) && Enabled(s0, e1) && !Clashes(s0, e1) && Step(s0, e1) == Some(s1)
    requires Sound(s1) && Enabled(s1, e2) && !Clashes(s1, e2) && Step(s1, e2) == Some(s2)
    requires Sound(s2) && Enabled(s2, e3) && !Clashes(s2, e3) && Step(s2, e3) == Some(s3)
    ensures After(sectors, firstSect, [e1] + [e2] + [e3]) == Some(s3)
  {
    assert After(sectors, firstSect, []) == Some(Initial(sectors, firstSect)) && [] + [e1] == [e1];
    AfterNext(sectors, firstSect, [], e1);
    AfterNext(sectors, firstSect, [e1], e2);
    AfterNext(sectors, firstSect, [e1] + [e2], e3);
  }

  /**
   After that a file that is made gets the directory's i-node number, which ends the runs in which all is in order:
   two descriptors refer to a slot that is counted once. As the first is closed the count goes to 0, and the file,
   which q has open, is removed.
   */
  lemma OpenFileRemoved(sectors: NodeDisk, firstSect: int, startSect: int, p: int, q: int, flags: int)
    requires WholeSectors(sectors) && |sectors| > 0 && Slot(p) && Slot(q)
    ensures var r := After(sectors, firstSect, DirectoryRun(startSect, p, flags));
            && r.Some? && Clashes(r.value, CreateFile(q, flags, startSect))
            && Create(r.value, q, flags, startSect).Some?
            && var u := Create(r.value, q, flags, startSect).value;
               && !Sound(u) && Shared(u, p)
               && var v := DetachOne(u, p * NR_FILES);
                  && Shaped(v) && IsOpen(v, 6) && NodeAt(v.disk, 6).mode == I_REGULAR && !Refused(v, 6)
                  && Unlink(v, 6).Some? && IsOpen(Unlink(v, 6).value, 6)
  {
    DirectoryRuns(sectors, firstSect, startSect, p, flags);
    var t := After(sectors, firstSect, DirectoryRun(startSect, p, flags)).value;
    FreeFdIs(t.filps, q * NR_FILES, if p == q then 1 else 0);
    NumberReused(t, p, q, flags, startSect);
    OtherClosed(Create(t, q, flags, startSect).value, p);
  }

  /** cmd.tar is in cache slot 1, and process p has it open as its descriptor 0; no other descriptor is used. */
  ghost predicate TarOpen(s: Files, p: int) {
    && Sound(s) && s.forking.None? && Slot(p) && Num(s.disk, 5) && NodeAt(s.disk, 5).mode == I_REGULAR && Taken(s, 5)
    && s.filps[p * NR_FILES] == 0 && s.descs[0].inode == 1 && s.descs[0].cnt == 1
    && (forall d :: 1 <= d < NR_FILE_DESC ==> s.descs[d].inode == NIL)
    && s.inodes[0].num == 1 && s.inodes[1].cnt > 0 && s.inodes[1].num == 5
  }

  lemma TarOpens(sectors: NodeDisk, firstSect: int, p: int, flags: int)
    requires WholeSectors(sectors) && |sectors| > 0 && Slot(p)
    ensures var r := Open(Initial(sectors, firstSect), p, 5, flags); r.Some? && TarOpen(r.value, p)
  {
    var s0 := Initial(sectors, firstSect);
    InitialIsIdle(sectors, firstSect);
    assert NodeAt(s0.disk, 5) == MkfsNodes(firstSect)[4];
    FirstOpen(s0, p, 5, flags);
    OpenIsSound(s0, p, 5, flags);
  }

  /** Its removal is refused, and leaves it as open as before. */
  lemma TarRefused(s: Files, p: int)
    requires TarOpen(s, p)
    ensures Get(s, 5).Some? && Refused(s, 5) && Unlink(s, 5).Some? && TarOpen(Unlink(s, 5).value, p)
  {
    LiveSlotIs(s.inodes, 5, 1);
    FileRefusedIffCached(s, 5);
    UnlinkExact(s, 5);
  }

  lemma TarHeld(sectors: NodeDisk, firstSect: int, p: int, flags: int)
    requires WholeSectors(sectors) && |sectors| > 0 && Slot(p)
    ensures var r := After(sectors, firstSect, [OpenFile(p, 5, flags)]); r.Some? && TarOpen(r.value, p)
  {
    var e := OpenFile(p, 5, flags);
    TarOpens(sectors, firstSect, p, flags);
    InitialIsSound(sectors, firstSect);
    assert After(sectors, firstSect, []) == Some(Initial(sectors, firstSect)) && [] + [e] == [e];
    AfterNext(sectors, firstSect, [], e);
  }

  lemma ClosedForGood(t: Files, p: int)
    requires TarOpen(t, p)
    ensures var u := DetachOne(t, p * NR_FILES); |u.descs| == NR_FILE_DESC && !IsOpen(u, 5)
  {
  }

  function TarRun(p: int, flags: int): seq<Event> { [OpenFile(p, 5, flags)] + [Remove(5)] + [Close(p, 0)] }

  lemma TarClosed(sectors: NodeDisk, firstSect: int, p: int, flags: int)
    requires WholeSectors(sectors) && |sectors| > 0 && Slot(p)
    ensures After(sectors, firstSect, [OpenFile(p, 5, flags)]).Some?
    ensures After(sectors, firstSect, [OpenFile(p, 5, flags)] + [Remove(5)]).Some?
    ensures RefusedAfter(sectors, firstSect, [OpenFile(p, 5, flags)], 5)
    ensures After(sectors, firstSect, TarRun(p, flags)).Some?
    ensures !IsOpen(After(sectors, firstSect, TarRun(p, flags)).value, 5)
  {
    var (e1, e2, e3) := (OpenFile(p, 5, flags), Remove(5), Close(p, 0));
    TarHeld(sectors, firstSect, p, flags);
    TarRefused(After(sectors, firstSect, [e1]).value, p);
    AfterNext(sectors, firstSect, [e1], e2);
    AfterNext(sectors, firstSect, [e1] + [e2], e3);
    ClosedForGood(After(sectors, firstSect, [e1] + [e2]).value, p);
  }

  lemma RefusedStill(sectors: NodeDisk, firstSect: int, es: seq<Event>, e: Event, more: seq<Event>, num: int)
    requires WholeSectors(sectors) && |sectors| > 0 && After(sectors, firstSect, es).Some?
    requires RefusedAfter(sectors, firstSect, es, num) && After(sectors, firstSect, es + [Remove(num)]).Some?
    requires After(sectors, firstSect, es + [Remove(num)] + [e] + more).Some?
    ensures RefusedAfter(sectors, firstSect, es + [Remove(num)] + [e] + more, num)
  {
    assert es + [Remove(num)] + ([e] + more) == es + [Remove(num)] + [e] + more;
    RefusedForEver(sectors, firstSect, es, [e] + more, num);
  }

  /** cmd.tar is opened, its removal refused, and closed: nobody has it open, and it can never be removed. */
  lemma LeakExample(sectors: NodeDisk, firstSect: int, p: int, flags: int, more: seq<Event>)
    requires WholeSectors(sectors) && |sectors| > 0 && Slot(p)
    ensures After(sectors, firstSect, TarRun(p, flags)).Some?
    ensures !IsOpen(After(sectors, firstSect, TarRun(p, flags)).value, 5)
    ensures After(sectors, firstSect, TarRun(p, flags) + more).Some?
            ==> RefusedAfter(sectors, firstSect, TarRun(p, flags) + more, 5)
  {
    TarClosed(sectors, firstSect, p, flags);
    if After(sectors, firstSect, TarRun(p, flags) + more).Some? {
      RefusedStill(sectors, firstSect, [OpenFile(p, 5, flags)], Close(p, 0), more, 5);
    }
  }
}
