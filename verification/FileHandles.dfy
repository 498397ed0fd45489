/**
 What open files mean, without tables or counts: each opening makes a new handle with a mode, a file and a position,
 the open slots of processes hold handles, and files are a list. Every run of the file system's tables is a run of it.
 */
module FileHandles {
  import opened FileProofs
  import opened FileRuns
  import opened FileTable
  import opened Wrappers

  datatype Handle = Handle(mode: int, num: int, pos: int)

  /** Handles are never reused; nodes[n - 1] is i-node n, and bits tells which i-node numbers are taken. */
  datatype View = View(slots: seq<int>, handles: seq<Handle>, nodes: seq<Node>, bits: seq<bool>)

  function Unused(): seq<int> { seq(NR_SLOTS * NR_FILES, i => NIL) }

  function NewView(sectors: NodeDisk, firstSect: int): View
    requires WholeSectors(sectors) && |sectors| > 0
  {
    View(
      Unused(),
      [],
      seq(PER_SECTOR * |sectors|, i requires 0 <= i < PER_SECTOR * |sectors| =>
        if i < MKFS_INODES then MkfsNodes(firstSect)[i] else sectors[i / PER_SECTOR][i % PER_SECTOR]),
      seq(PER_SECTOR * |sectors|, i => i <= MKFS_INODES))
  }

  ghost predicate WellSized(v: View) { |v.slots| == NR_SLOTS * NR_FILES && |v.nodes| == |v.bits| }

  /** A new handle in the first unused slot of a process. */
  function Opened(v: View, p: int, num: int, mode: int): View
    requires |v.slots| == NR_SLOTS * NR_FILES && Slot(p)
  {
    var fd := FreeFd(v.slots, p * NR_FILES, 0);
    if fd == NR_FILES then v
    else v.(slots := v.slots[p * NR_FILES + fd := |v.handles|], handles := v.handles + [Handle(mode, num, 0)])
  }

  /** The lowest free number taken for a new i-node. */
  function Made(v: View, node: Node): View
    requires |v.nodes| == |v.bits|
  {
    var num := ClearBit(v.bits, 0);
    if num == 0 || num == |v.bits| then v else v.(nodes := v.nodes[num - 1 := node], bits := v.bits[num := true])
  }

  function WithRow(slots: seq<int>, p: int, row: seq<int>): seq<int>
    requires |slots| == NR_SLOTS * NR_FILES && |row| == NR_FILES && Slot(p)
  {
    slots[..p * NR_FILES] + row + slots[p * NR_FILES + NR_FILES..]
  }

  function Row(slots: seq<int>, p: int): (r: seq<int>)
    requires |slots| == NR_SLOTS * NR_FILES && Slot(p)
    ensures |r| == NR_FILES
  {
    slots[p * NR_FILES..p * NR_FILES + NR_FILES]
  }

  /** What an event means; whether a removal is refused is a matter of the counts. */
  ghost function Means(v: View, s: Files, e: Event): View
    requires WellSized(v) && Sound(s) && Enabled(s, e)
  {
    match e
    case OpenFile(p, num, flags) => Opened(v, p, num, flags)
    case CreateFile(p, flags, startSect) =>
      Opened(Made(v, Node(I_REGULAR, 0, startSect, 2048)), p, ClearBit(v.bits, 0), flags)
    case MakeDirectory(startSect) => Made(v, Node(I_DIRECTORY, 0, startSect, 2048))
    case Close(p, fd) => v.(slots := v.slots[p * NR_FILES + fd := NIL])
    case Copy(parent, child) => v.(slots := WithRow(v.slots, child, Row(v.slots, parent)))
    case Count(_) => v
    case Exit(p) => v.(slots := WithRow(v.slots, p, seq(NR_FILES, i => NIL)))
    case Remove(num) =>
      if Refused(s, num) || !(0 < num < |v.bits|) then v
      else v.(nodes := v.nodes[num - 1 := Node(0, 0, 0, 0)], bits := v.bits[num := false])
    case Visit(_) => v
    case Resize(k, size) =>
      var n := s.inodes[k].num - 1;
      if 0 <= n < |v.nodes| then v.(nodes := v.nodes[n := v.nodes[n].(size := size)]) else v
    case Move(p, fd, pos) =>
      var h := v.slots[p * NR_FILES + fd];
      if 0 <= h < |v.handles| then v.(handles := v.handles[h := v.handles[h].(pos := pos)]) else v
  }

  // ------------------------------------------------------------------ the tables stand for it

  /** An open slot's descriptor has the mode, the position and the i-node number of its handle. */
  predicate SlotTells(v: View, s: Files, i: int)
    requires 0 <= i < |v.slots| == |s.filps|
  {
    if s.filps[i] == NIL then v.slots[i] == NIL
    else
      && 0 <= v.slots[i] < |v.handles| && 0 <= s.filps[i] < |s.descs|
      && var (h, d) := (v.handles[v.slots[i]], s.filps[i]);
         s.descs[d].mode == h.mode && s.descs[d].pos == h.pos && OpenAs(s, d, h.num)
  }

  /** Two open slots share a descriptor exactly if they share a handle. */
  predicate SharesAlike(v: View, s: Files, i: int, j: int)
    requires 0 <= i < |v.slots| == |s.filps| && 0 <= j < |v.slots|
  {
    s.filps[i] == s.filps[j] <==> v.slots[i] == v.slots[j]
  }

  ghost predicate SlotsTell(v: View, s: Files) {
    && |v.slots| == |s.filps| == NR_SLOTS * NR_FILES
    && (forall i :: 0 <= i < |v.slots| ==> SlotTells(v, s, i))
    && (forall i, j :: 0 <= i < |v.slots| && 0 <= j < |v.slots| ==> SharesAlike(v, s, i, j))
  }

  ghost predicate NodesTell(v: View, s: Files) {
    && WholeSectors(s.disk) && v.bits == s.bits && |v.nodes| == |v.bits| == PER_SECTOR * |s.disk|
    && forall num :: Num(s.disk, num) ==> NodeAt(s.disk, num) == v.nodes[num - 1]
  }

  ghost predicate Tells(v: View, s: Files) { SlotsTell(v, s) && NodesTell(v, s) }

  // ------------------------------------------------------------------ descriptors in use

  /** Every descriptor in use afterwards has the mode, the position and the i-node it had. */
  ghost predicate UsedKept(s: Files, s': Files) {
    && |s.descs| == |s'.descs|
    && forall d :: 0 <= d < |s.descs| && s'.descs[d].inode != NIL ==> s'.descs[d] == s.descs[d].(cnt := s'.descs[d].cnt)
  }

  lemma UsedKeptTwice(s: Files, s': Files, s'': Files)
    requires UsedKept(s, s') && UsedKept(s', s'')
    ensures UsedKept(s, s'')
  {
  }

  lemma DetachOneUsed(s: Files, i: int)
    requires 0 <= i < |s.filps| == |s.counted|
    ensures UsedKept(s, DetachOne(s, i))
  {
  }

  lemma CountOneUsed(s: Files, i: int)
    requires 0 <= i < |s.filps| == |s.counted|
    ensures UsedKept(s, CountOne(s, i))
  {
  }

  lemma {:induction false} DetachRowUsed(s: Files, base: nat, f: nat)
    requires base + f <= |s.filps| == |s.counted|
    ensures UsedKept(s, DetachRow(s, base, f))
  {
    if f == 0 {
      assert DetachRow(s, base, 0) == s;
    } else {
      DetachRowUsed(s, base, f - 1);
      DetachOneUsed(DetachRow(s, base, f - 1), base + f - 1);
      UsedKeptTwice(s, DetachRow(s, base, f - 1), DetachRow(s, base, f));
    }
  }

  lemma {:induction false} CountRowUsed(s: Files, base: nat, f: nat)
    requires base + f <= |s.filps| == |s.counted|
    ensures UsedKept(s, CountRow(s, base, f))
  {
    if f == 0 {
      assert CountRow(s, base, 0) == s;
    } else {
      CountRowUsed(s, base, f - 1);
      CountOneUsed(CountRow(s, base, f - 1), base + f - 1);
      UsedKeptTwice(s, CountRow(s, base, f - 1), CountRow(s, base, f));
    }
  }

  /** Closing, exiting and both halves of forking leave every descriptor in use as it is, but for its count. */
  lemma DescriptorsKept(s: Files, e: Event)
    requires Sound(s) && Enabled(s, e) && Step(s, e).Some?
    requires e.Close? || e.Exit? || e.Copy? || e.Count?
    ensures UsedKept(s, Step(s, e).value)
  {
    match e
    case Close(p, fd) => DetachOneUsed(s, p * NR_FILES + fd);
    case Exit(p) => DetachRowUsed(s, p * NR_FILES, NR_FILES);
    case Count(child) => CountRowUsed(s, child * NR_FILES, NR_FILES);
    case Copy(_, _) =>
  }

  // ------------------------------------------------------------------ slots emptied or copied

  /** Slot i is now empty, or holds what slot j did. */
  predicate Came(v: View, s: Files, v': View, s': Files, i: int, j: int)
    requires 0 <= i < |v'.slots| == |s'.filps|
  {
    || (v'.slots[i] == NIL && s'.filps[i] == NIL)
    || (0 <= j < |v.slots| == |s.filps| && v'.slots[i] == v.slots[j] && s'.filps[i] == s.filps[j])
  }

  /** Where everything comes from some slot before, and descriptors in use are kept, slots go on telling. */
  lemma StillTell(v: View, s: Files, v': View, s': Files, from: seq<int>)
    requires SlotsTell(v, s) && Sound(s') && UsedKept(s, s') && v'.handles == v.handles
    requires |v'.slots| == |s'.filps| == |from| == NR_SLOTS * NR_FILES
    requires forall i :: 0 <= i < |from| ==> Came(v, s, v', s', i, from[i])
    requires forall d, x :: 0 <= d < NR_FILE_DESC && s'.descs[d].inode != NIL && OpenAs(s, d, x) ==> OpenAs(s', d, x)
    ensures SlotsTell(v', s')
  {
    forall i | 0 <= i < |from| ensures SlotTells(v', s', i) {
      StillTells(v, s, v', s', from, i);
    }
    forall i, j | 0 <= i < |from| && 0 <= j < |from| ensures SharesAlike(v', s', i, j) {
      StillShares(v, s, v', s', from, i, j);
    }
  }

  lemma StillTells(v: View, s: Files, v': View, s': Files, from: seq<int>, i: int)
    requires SlotsTell(v, s) && Sound(s') && UsedKept(s, s') && v'.handles == v.handles
    requires |v'.slots| == |s'.filps| == |from| == NR_SLOTS * NR_FILES
    requires 0 <= i < |from| && Came(v, s, v', s', i, from[i])
    requires forall d, x :: 0 <= d < NR_FILE_DESC && s'.descs[d].inode != NIL && OpenAs(s, d, x) ==> OpenAs(s', d, x)
    ensures SlotTells(v', s', i)
  {
    if s'.filps[i] != NIL {
      SlotRefers(s', i);
    }
    if 0 <= from[i] < |from| {
      assert SlotTells(v, s, from[i]);
    }
  }

  lemma StillShares(v: View, s: Files, v': View, s': Files, from: seq<int>, i: int, j: int)
    requires SlotsTell(v, s)
    requires |v'.slots| == |s'.filps| == |from| == NR_SLOTS * NR_FILES && 0 <= i < |from| && 0 <= j < |from|
    requires Came(v, s, v', s', i, from[i]) && Came(v, s, v', s', j, from[j])
    ensures SharesAlike(v', s', i, j)
  {
    if 0 <= from[i] < |from| {
      assert SlotTells(v, s, from[i]);
    }
    if 0 <= from[j] < |from| {
      assert SlotTells(v, s, from[j]);
      if 0 <= from[i] < |from| {
        assert SharesAlike(v, s, from[i], from[j]);
      }
    }
  }

  function Same(): (r: seq<int>)
    ensures |r| == NR_SLOTS * NR_FILES
  {
    seq(NR_SLOTS * NR_FILES, i => i)
  }

  lemma CloseTells(v: View, s: Files, p: int, fd: int)
    requires Tells(v, s) && Sound(s) && Enabled(s, Close(p, fd))
    ensures Tells(Means(v, s, Close(p, fd)), Step(s, Close(p, fd)).value)
  {
    var (v', s') := (Means(v, s, Close(p, fd)), Step(s, Close(p, fd)).value);
    DetachKeeps(s, p, fd);
    DescriptorsKept(s, Close(p, fd));
    StillTell(v, s, v', s', Same());
  }

  lemma ExitTells(v: View, s: Files, p: int)
    requires Tells(v, s) && Sound(s) && Enabled(s, Exit(p))
    ensures Tells(Means(v, s, Exit(p)), Step(s, Exit(p)).value)
  {
    var (v', s') := (Means(v, s, Exit(p)), Step(s, Exit(p)).value);
    DetachRowKeeps(s, p, NR_FILES);
    DescriptorsKept(s, Exit(p));
    StillTell(v, s, v', s', Same());
  }

  lemma CountTells(v: View, s: Files, child: int)
    requires Tells(v, s) && Sound(s) && Enabled(s, Count(child))
    ensures Tells(v, Step(s, Count(child)).value)
  {
    ForkKeeps(s, child);
    DescriptorsKept(s, Count(child));
    StillTell(v, s, v, Step(s, Count(child)).value, Same());
  }

  lemma CopyTells(v: View, s: Files, parent: int, child: int)
    requires Tells(v, s) && Sound(s) && Enabled(s, Copy(parent, child))
    ensures Tells(Means(v, s, Copy(parent, child)), Step(s, Copy(parent, child)).value)
  {
    var (v', s') := (Means(v, s, Copy(parent, child)), Step(s, Copy(parent, child)).value);
    ForkCopyKeeps(s, parent, child);
    var (q, c) := (parent * NR_FILES, child * NR_FILES);
    var from := seq(NR_SLOTS * NR_FILES, i => if c <= i < c + NR_FILES then i - c + q else i);
    forall i | 0 <= i < |from| ensures Came(v, s, v', s', i, from[i]) {
      assert v'.slots[i] == v.slots[from[i]];
    }
    StillTell(v, s, v', s', from);
  }

  // ------------------------------------------------------------------ i-nodes

  lemma NodeSet(v: View, s: Files, num: int, x: Node)
    requires NodesTell(v, s) && Num(s.disk, num)
    ensures var (nodes, disk) := (v.nodes[num - 1 := x], WithNode(s.disk, num, x));
            && WholeSectors(disk) && |disk| == |s.disk|
            && forall n :: Num(disk, n) ==> NodeAt(disk, n) == nodes[n - 1]
  {
    forall n | Num(s.disk, n) ensures NodeAt(WithNode(s.disk, num, x), n) == v.nodes[num - 1 := x][n - 1] {
      WithNodeOthers(s.disk, num, x, n);
    }
    WithNodeOthers(s.disk, num, x, num);
  }

  lemma MadeTells(v: View, s: Files, s': Files, k: int, n: Inode)
    requires NodesTell(v, s) && Core(s) && Num(s.disk, n.num) && MadeIn(s, s', k, n)
    requires n.num == ClearBit(s.bits, 0) && 0 < n.num < |s.bits|
    ensures NodesTell(Made(v, n.node), s')
  {
    NodeSet(v, s, n.num, n.node);
  }

  /** Slots go on telling while they, their descriptors and the numbers of open i-nodes stay. */
  lemma SlotsStay(v: View, s: Files, v': View, s': Files)
    requires SlotsTell(v, s) && v'.slots == v.slots && v'.handles == v.handles
    requires s'.filps == s.filps && s'.descs == s.descs
    requires forall d, x :: 0 <= d < |s.descs| && OpenAs(s, d, x) ==> OpenAs(s', d, x)
    ensures SlotsTell(v', s')
  {
    forall i | 0 <= i < |v.slots| ensures SlotTells(v', s', i) {
      assert SlotTells(v, s, i);
    }
    forall i, j | 0 <= i < |v.slots| && 0 <= j < |v.slots| ensures SharesAlike(v', s', i, j) {
      assert SharesAlike(v, s, i, j);
    }
  }

  lemma MakingOpensNothing(s: Files, s': Files, n: Inode)
    requires Core(s) && Num(s.disk, n.num) && Get(s, n.num).Some? && !IsOpen(s, n.num)
    requires MadeIn(s, s', Get(s, n.num).value.k, n) && s'.descs == s.descs
    ensures forall d, x :: 0 <= d < |s.descs| && OpenAs(s, d, x) ==> OpenAs(s', d, x)
  {
    forall d, x | 0 <= d < |s.descs| && OpenAs(s, d, x) ensures OpenAs(s', d, x) {
      NotReferred(s, n.num, d);
      MadeOpensNothing(s, s', Get(s, n.num).value.k, n, d, x);
    }
  }

  lemma MkdirTells(v: View, s: Files, startSect: int)
    requires Tells(v, s) && Sound(s) && Mkdir(s, startSect).Some? && !IsOpen(s, NewNum(s))
    ensures Tells(Made(v, Node(I_DIRECTORY, 0, startSect, 2048)), Mkdir(s, startSect).value)
  {
    var s' := Mkdir(s, startSect).value;
    var n := Inode(Node(I_DIRECTORY, 0, startSect, 2048), 0, NewNum(s));
    MkdirIs(s, startSect);
    MadeTells(v, s, s', NewSlot(s), n);
    MakingOpensNothing(s, s', n);
    SlotsStay(v, s, Made(v, n.node), s');
  }

  lemma VisitTells(v: View, s: Files, num: int)
    requires Tells(v, s) && Sound(s) && Num(s.disk, num) && Get(s, num).Some?
    ensures Tells(v, Get(s, num).value.s)
  {
    GetKeeps(s, num);
    SlotsStay(v, s, v, Get(s, num).value.s);
  }

  lemma RemoveTells(v: View, s: Files, num: int)
    requires Tells(v, s) && Sound(s) && Num(s.disk, num) && Unlink(s, num).Some?
    ensures Tells(Means(v, s, Remove(num)), Unlink(s, num).value)
  {
    if Refused(s, num) {
      VisitTells(v, s, num);
    } else {
      RemovalIs(s, num);
      NodeSet(v, s, num, Node(0, 0, 0, 0));
      forall d, x | 0 <= d < |s.descs| && OpenAs(s, d, x) ensures OpenAs(Unlink(s, num).value, d, x) {
        RemovalKeepsOpen(s, num, d, x);
      }
      SlotsStay(v, s, Means(v, s, Remove(num)), Unlink(s, num).value);
    }
  }

  lemma ResizeTells(v: View, s: Files, k: int, size: int)
    requires Tells(v, s) && Sound(s) && Enabled(s, Resize(k, size))
    ensures Tells(Means(v, s, Resize(k, size)), Resized(s, k, size))
  {
    var n := s.inodes[k];
    NodeSet(v, s, n.num, n.node.(size := size));
    assert n.node == v.nodes[n.num - 1];
    SlotsStay(v, s, Means(v, s, Resize(k, size)), Resized(s, k, size));
  }

  // ------------------------------------------------------------------ handles

  lemma MoveTells(v: View, s: Files, p: int, fd: int, pos: int)
    requires Tells(v, s) && Sound(s) && Enabled(s, Move(p, fd, pos))
    ensures Tells(Means(v, s, Move(p, fd, pos)), Step(s, Move(p, fd, pos)).value)
  {
    var m := p * NR_FILES + fd;
    var (v', s') := (Means(v, s, Move(p, fd, pos)), Step(s, Move(p, fd, pos)).value);
    assert SlotTells(v, s, m);
    forall i | 0 <= i < |v.slots| ensures SlotTells(v', s', i) {
      assert SlotTells(v, s, i) && SharesAlike(v, s, i, m);
    }
    forall i, j | 0 <= i < |v.slots| && 0 <= j < |v.slots| ensures SharesAlike(v', s', i, j) {
      assert SharesAlike(v, s, i, j);
    }
  }

  lemma {:induction false} FreeFdAlike(fs: seq<int>, gs: seq<int>, base: nat, f: nat)
    requires f <= NR_FILES && base + NR_FILES <= |fs| == |gs|
    requires forall i :: 0 <= i < |fs| ==> (fs[i] == NIL <==> gs[i] == NIL)
    ensures FreeFd(fs, base, f) == FreeFd(gs, base, f)
    decreases NR_FILES - f
  {
    if f >= NR_FILES || fs[base + f] == NIL {
    } else {
      FreeFdAlike(fs, gs, base, f + 1);
    }
  }

  /** The first unused slot is the same. */
  lemma SameFreeFd(v: View, s: Files, p: int)
    requires SlotsTell(v, s) && Slot(p)
    ensures FreeFd(v.slots, p * NR_FILES, 0) == FreeFd(s.filps, p * NR_FILES, 0)
  {
    forall i | 0 <= i < |v.slots| ensures v.slots[i] == NIL <==> s.filps[i] == NIL {
      assert SlotTells(v, s, i);
    }
    FreeFdAlike(v.slots, s.filps, p * NR_FILES, 0);
  }

  /** A slot tied to a descriptor that no slot uses, as one is tied to a new handle. */
  lemma ConnectTells(v: View, s: Files, i: int, d: int, k: int, num: int, flags: int)
    requires SlotsTell(v, s) && |s.counted| == |s.filps| && 0 <= i < |s.filps| && s.filps[i] == NIL
    requires 0 <= d < |s.descs| && 0 <= k < |s.inodes| && s.inodes[k].num == num
    requires forall j :: 0 <= j < |s.filps| ==> s.filps[j] != d
    ensures var v' := v.(slots := v.slots[i := |v.handles|], handles := v.handles + [Handle(flags, num, 0)]);
            SlotsTell(v', Connected(s, i, d, k, flags))
  {
    var v' := v.(slots := v.slots[i := |v.handles|], handles := v.handles + [Handle(flags, num, 0)]);
    var s' := Connected(s, i, d, k, flags);
    assert OpenAs(s', d, num);
    forall j | 0 <= j < |v.slots| ensures SlotTells(v', s', j) {
      assert SlotTells(v, s, j);
    }
    forall j, l | 0 <= j < |v.slots| && 0 <= l < |v.slots| ensures SharesAlike(v', s', j, l) {
      assert SlotTells(v, s, j) && SlotTells(v, s, l) && SharesAlike(v, s, j, l);
    }
  }

  /** No slot uses a free descriptor. */
  lemma FreeDescUnused(s: Files, j: int)
    requires Sound(s) && FreeDesc(s.descs, 0) < NR_FILE_DESC && 0 <= j < |s.filps|
    ensures s.filps[j] != FreeDesc(s.descs, 0)
  {
    if s.filps[j] != NIL {
      SlotRefers(s, j);
    }
  }

  lemma OpenTells(v: View, s: Files, p: int, num: int, flags: int)
    requires Tells(v, s) && Sound(s) && Slot(p) && Num(s.disk, num) && Open(s, p, num, flags).Some?
    ensures Tells(Opened(v, p, num, flags), Open(s, p, num, flags).value)
  {
    var h := Get(s, num).value;
    VisitTells(v, s, num);
    SameFreeFd(v, s, p);
    forall j | 0 <= j < |s.filps| {
      FreeDescUnused(s, j);
    }
    ConnectTells(v, h.s, p * NR_FILES + FreeFd(s.filps, p * NR_FILES, 0), FreeDesc(s.descs, 0), h.k, num, flags);
  }

  lemma CreateTells(v: View, s: Files, p: int, flags: int, startSect: int)
    requires Tells(v, s) && Sound(s) && Free(s, p) && Create(s, p, flags, startSect).Some? && !IsOpen(s, NewNum(s))
    ensures Tells(Means(v, s, CreateFile(p, flags, startSect)), Create(s, p, flags, startSect).value)
  {
    var n := Inode(Node(I_REGULAR, 0, startSect, 2048), 1, NewNum(s));
    var s' := Create(s, p, flags, startSect).value;
    CreateIs(s, p, flags, startSect);
    var t := s'.(filps := s.filps, counted := s.counted, descs := s.descs);
    var w := Made(v, n.node);
    MadeTells(v, s, t, NewSlot(s), n);
    MakingOpensNothing(s, t, n);
    SlotsStay(v, s, w, t);
    SameFreeFd(v, s, p);
    forall j | 0 <= j < |s.filps| {
      FreeDescUnused(s, j);
    }
    ConnectTells(w, t, p * NR_FILES + FreeFd(s.filps, p * NR_FILES, 0), FreeDesc(s.descs, 0), NewSlot(s), n.num, flags);
  }

  // ------------------------------------------------------------------ runs

  lemma StepTells(v: View, s: Files, e: Event)
    requires Tells(v, s) && Sound(s) && Enabled(s, e) && Step(s, e).Some? && !Clashes(s, e)
    ensures Tells(Means(v, s, e), Step(s, e).value)
  {
    match e
    case OpenFile(p, num, flags) => OpenTells(v, s, p, num, flags);
    case CreateFile(p, flags, startSect) => CreateTells(v, s, p, flags, startSect);
    case MakeDirectory(startSect) => MkdirTells(v, s, startSect);
    case Close(p, fd) => CloseTells(v, s, p, fd);
    case Copy(parent, child) => CopyTells(v, s, parent, child);
    case Count(child) => CountTells(v, s, child);
    case Exit(p) => ExitTells(v, s, p);
    case Remove(num) => RemoveTells(v, s, num);
    case Visit(num) => VisitTells(v, s, num);
    case Resize(k, size) => ResizeTells(v, s, k, size);
    case Move(p, fd, pos) => MoveTells(v, s, p, fd, pos);
  }

  lemma InitialTells(sectors: NodeDisk, firstSect: int)
    requires WholeSectors(sectors) && |sectors| > 0
    ensures Tells(NewView(sectors, firstSect), Initial(sectors, firstSect))
  {
  }

  /**
   What a run means. Over every run each open slot's descriptor has the mode given when it was opened, the i-node
   number opened, and the position where the last holder of the handle left it; slots share a descriptor exactly if
   they share a handle; and every i-node on disk is the one last made, resized or removed under its number.
   */
  ghost function Meaning(sectors: NodeDisk, firstSect: int, es: seq<Event>): (v: View)
    requires WholeSectors(sectors) && |sectors| > 0 && After(sectors, firstSect, es).Some?
    ensures Tells(v, After(sectors, firstSect, es).value)
  {
    if es == [] then
      InitialTells(sectors, firstSect);
      NewView(sectors, firstSect)
    else
      var (before, e) := (es[..|es| - 1], es[|es| - 1]);
      var s := After(sectors, firstSect, before).value;
      StepTells(Meaning(sectors, firstSect, before), s, e);
      Means(Meaning(sectors, firstSect, before), s, e)
  }

  predicate Gives(e: Event, p: int, fd: int) { e == Close(p, fd) || e == Exit(p) }

  lemma WithRowElsewhere(slots: seq<int>, q: int, row: seq<int>, p: int, fd: int)
    requires |slots| == NR_SLOTS * NR_FILES && |row| == NR_FILES && Slot(q) && Slot(p) && 0 <= fd < NR_FILES && p != q
    ensures |WithRow(slots, q, row)| == |slots| && WithRow(slots, q, row)[p * NR_FILES + fd] == slots[p * NR_FILES + fd]
  {
    assert p < q || q < p;
  }

  lemma OpenedElsewhere(v: View, p: int, num: int, mode: int, i: int)
    requires |v.slots| == NR_SLOTS * NR_FILES && Slot(p) && 0 <= i < |v.slots| && v.slots[i] != NIL
    ensures var v' := Opened(v, p, num, mode);
            |v'.slots| == |v.slots| && v'.slots[i] == v.slots[i] && v.handles <= v'.handles
  {
  }

  /** No event but its closing or the process's exit changes what a slot in use holds. */
  lemma SlotKept(v: View, s: Files, e: Event, p: int, fd: int)
    requires Tells(v, s) && Sound(s) && Enabled(s, e)
    requires Slot(p) && 0 <= fd < NR_FILES && s.filps[p * NR_FILES + fd] != NIL && !Gives(e, p, fd)
    ensures var (i, v') := (p * NR_FILES + fd, Means(v, s, e));
            |v'.slots| == |v.slots| && v'.slots[i] == v.slots[i]
  {
    var i := p * NR_FILES + fd;
    assert SlotTells(v, s, i);
    match e
    case OpenFile(q, num, flags) => OpenedElsewhere(v, q, num, flags, i);
    case CreateFile(q, flags, startSect) =>
      OpenedElsewhere(Made(v, Node(I_REGULAR, 0, startSect, 2048)), q, ClearBit(v.bits, 0), flags, i);
    case Close(q, f) => assert q < p || p < q || q == p;
    case Copy(q, c) =>
      assert c != p;
      WithRowElsewhere(v.slots, c, Row(v.slots, q), p, fd);
    case Exit(q) => WithRowElsewhere(v.slots, q, seq(NR_FILES, j => NIL), p, fd);
    case _ =>
  }

  predicate SameOpening(h: Handle, h': Handle) { h'.mode == h.mode && h'.num == h.num }

  /** Handles keep their mode and their file. */
  lemma HandlesStay(v: View, s: Files, e: Event)
    requires WellSized(v) && Sound(s) && Enabled(s, e)
    ensures |v.handles| <= |Means(v, s, e).handles|
    ensures forall h :: 0 <= h < |v.handles| ==> SameOpening(v.handles[h], Means(v, s, e).handles[h])
  {
  }

  /** An open slot keeps its handle, with the mode and the file it was opened with, until it is closed. */
  lemma {:induction false} OpenedStays(
      sectors: NodeDisk, firstSect: int, es: seq<Event>, more: seq<Event>, p: int, fd: int)
    requires WholeSectors(sectors) && |sectors| > 0 && Slot(p) && 0 <= fd < NR_FILES
    requires After(sectors, firstSect, es).Some? && After(sectors, firstSect, es + more).Some?
    requires After(sectors, firstSect, es).value.filps[p * NR_FILES + fd] != NIL
    requires forall e :: e in more ==> !Gives(e, p, fd)
    ensures HandleKept(sectors, firstSect, es, more, p * NR_FILES + fd)
    decreases |more|
  {
    if more == [] {
      assert es + more == es;
      assert SlotTells(Meaning(sectors, firstSect, es), After(sectors, firstSect, es).value, p * NR_FILES + fd);
    } else {
      var (rest, e) := (more[..|more| - 1], more[|more| - 1]);
      LastSplit(es, more);
      AfterOne(sectors, firstSect, es + rest, e);
      OpenedStays(sectors, firstSect, es, rest, p, fd);
      var (v, s) := (Meaning(sectors, firstSect, es + rest), After(sectors, firstSect, es + rest).value);
      assert SlotTells(v, s, p * NR_FILES + fd);
      SlotKept(v, s, e, p, fd);
      HandlesStay(v, s, e);
      assert (es + more)[..|es + more| - 1] == es + rest;
    }
  }

  /** The slot has the same handle after more events, with the same mode and file. */
  ghost predicate HandleKept(sectors: NodeDisk, firstSect: int, es: seq<Event>, more: seq<Event>, i: int)
    requires WholeSectors(sectors) && |sectors| > 0 && 0 <= i < NR_SLOTS * NR_FILES
    requires After(sectors, firstSect, es).Some? && After(sectors, firstSect, es + more).Some?
  {
    var (v, v') := (Meaning(sectors, firstSect, es), Meaning(sectors, firstSect, es + more));
    && v'.slots[i] == v.slots[i] != NIL && 0 <= v.slots[i] < |v.handles| <= |v'.handles|
    && SameOpening(v.handles[v.slots[i]], v'.handles[v.slots[i]])
  }
}
