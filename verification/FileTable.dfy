/**
 The file system's tables: the write-through i-node cache of fs/main.c, the descriptors of fs/open.c and
 the reference counts that do_unlink of fs/link.c relies on.
 */
module FileTable {
  import opened Wrappers

  const NR_INODE := 64
  const NR_FILE_DESC := 64
  const NR_FILES := 64
  const NR_SLOTS := 37      // processes
  const PER_SECTOR := 16    // SECTOR_SIZE / INODE_SIZE
  const I_REGULAR := 0x8000
  const I_DIRECTORY := 0x4000
  const I_CHAR_SPECIAL := 0x2000
  const NIL := -1           // a null pointer into a table

  /** The part of an i-node that is kept on disk. */
  datatype Node = Node(mode: int, size: int, startSect: int, nrSects: int)

  datatype Inode = Inode(node: Node, cnt: int, num: int)

  datatype Desc = Desc(mode: int, pos: int, cnt: int, inode: int)

  // ------------------------------------------------------------------ the cache and the disk

  type NodeDisk = seq<seq<Node>>   // the i-node array, by sectors

  predicate Num(disk: NodeDisk, num: int) { 1 <= num <= PER_SECTOR * |disk| }

  ghost predicate WholeSectors(disk: NodeDisk) {
    forall s :: 0 <= s < |disk| ==> |disk[s]| == PER_SECTOR
  }

  function NodeAt(disk: NodeDisk, num: int): Node
    requires WholeSectors(disk) && Num(disk, num)
  {
    disk[(num - 1) / PER_SECTOR][(num - 1) % PER_SECTOR]
  }

  /** Every live cache slot equals its i-node on disk, and no i-node has two live slots. */
  ghost predicate Coherent(inodes: seq<Inode>, disk: NodeDisk) {
    && WholeSectors(disk)
    && (forall k :: 0 <= k < |inodes| ==> inodes[k].cnt >= 0)
    && (forall k :: 0 <= k < |inodes| && inodes[k].cnt > 0 ==>
          Num(disk, inodes[k].num) && inodes[k].node == NodeAt(disk, inodes[k].num))
    && (forall k, l :: 0 <= k < l < |inodes| && inodes[k].cnt > 0 && inodes[l].cnt > 0 ==>
          inodes[k].num != inodes[l].num)
  }

  ghost predicate Cached(inodes: seq<Inode>, num: int) {
    exists k :: 0 <= k < |inodes| && inodes[k].cnt > 0 && inodes[k].num == num
  }

  // ------------------------------------------------------------------ reference counts

  /** The references held through descriptors by open file slots. */
  function RefSum(ds: seq<Desc>, k: int): int {
    if ds == [] then 0
    else RefSum(ds[..|ds| - 1], k) + (if ds[|ds| - 1].inode == k then ds[|ds| - 1].cnt else 0)
  }

  function Share(d: Desc, k: int): int { if d.inode == k then d.cnt else 0 }

  lemma {:induction false} RefSumUpdate(ds: seq<Desc>, i: int, x: Desc, k: int)
    requires 0 <= i < |ds|
    ensures RefSum(ds[i := x], k) == RefSum(ds, k) - Share(ds[i], k) + Share(x, k)
  {
    var m := |ds| - 1;
    if i < m {
      RefSumUpdate(ds[..m], i, x, k);
      assert ds[i := x][..m] == ds[..m][i := x];
    } else {
      assert ds[i := x][..m] == ds[..m];
    }
  }

  lemma {:induction false} RefSumAtLeast(ds: seq<Desc>, i: int, k: int)
    requires forall j :: 0 <= j < |ds| ==> ds[j].cnt >= 0
    ensures RefSum(ds, k) >= 0
    ensures 0 <= i < |ds| ==> RefSum(ds, k) >= Share(ds[i], k)
  {
    if ds == [] {
    } else {
      RefSumAtLeast(ds[..|ds| - 1], i, k);
    }
  }

  /**
   fd_cnt of a descriptor is the number of open slots naming it, zero exactly when it has no i-node; and an
   i-node is counted at least once for each of them.
   */
  ghost predicate Counted(filps: seq<int>, ds: seq<Desc>, inodes: seq<Inode>) {
    && |ds| == NR_FILE_DESC && |inodes| == NR_INODE
    && (forall i :: 0 <= i < |filps| ==> filps[i] == NIL || 0 <= filps[i] < NR_FILE_DESC)
    && (forall d :: 0 <= d < NR_FILE_DESC ==> ds[d].cnt == multiset(filps)[d])
    && (forall d :: 0 <= d < NR_FILE_DESC ==> (ds[d].cnt == 0 <==> ds[d].inode == NIL))
    && (forall d :: 0 <= d < NR_FILE_DESC ==> NIL <= ds[d].inode < NR_INODE)
    && (forall k :: 0 <= k < NR_INODE ==> inodes[k].cnt >= RefSum(ds, k))
  }

  /** The references to an i-node that no descriptor accounts for. */
  function Slack(ds: seq<Desc>, inodes: seq<Inode>, k: int): int
    requires 0 <= k < |inodes|
  {
    inodes[k].cnt - RefSum(ds, k)
  }

  ghost predicate SameSlack(ds: seq<Desc>, inodes: seq<Inode>, ds': seq<Desc>, inodes': seq<Inode>) {
    |inodes| == |inodes'| && forall k :: 0 <= k < |inodes| ==> Slack(ds', inodes', k) == Slack(ds, inodes, k)
  }

  function Bumped(n: Inode, change: int): Inode { n.(cnt := n.cnt + change) }

  /** One more open slot on descriptor d, counted at the descriptor and its i-node. */
  lemma AttachKeepsCounts(filps: seq<int>, ds: seq<Desc>, inodes: seq<Inode>, i: int, d: int)
    requires Counted(filps, ds, inodes) && 0 <= i < |filps| && filps[i] == NIL
    requires 0 <= d < NR_FILE_DESC && ds[d].inode != NIL
    ensures var k := ds[d].inode;
            var (ds', inodes') := (ds[d := ds[d].(cnt := ds[d].cnt + 1)], inodes[k := Bumped(inodes[k], 1)]);
            Counted(filps[i := d], ds', inodes') && SameSlack(ds, inodes, ds', inodes')
  {
    forall k | 0 <= k < NR_INODE {
      RefSumUpdate(ds, d, ds[d].(cnt := ds[d].cnt + 1), k);
    }
  }

  /** One open slot given up. */
  lemma DetachKeepsCounts(filps: seq<int>, ds: seq<Desc>, inodes: seq<Inode>, i: int)
    requires Counted(filps, ds, inodes) && 0 <= i < |filps| && filps[i] != NIL
    ensures var d := filps[i];
            var k := ds[d].inode;
            var x := ds[d].(cnt := ds[d].cnt - 1, inode := if ds[d].cnt == 1 then NIL else k);
            && ds[d].cnt > 0 && 0 <= k < NR_INODE && inodes[k].cnt > 0
            && Counted(filps[i := NIL], ds[d := x], inodes[k := Bumped(inodes[k], -1)])
            && SameSlack(ds, inodes, ds[d := x], inodes[k := Bumped(inodes[k], -1)])
  {
    var d := filps[i];
    assert filps[i] in multiset(filps);
    var k := ds[d].inode;
    var x := ds[d].(cnt := ds[d].cnt - 1, inode := if ds[d].cnt == 1 then NIL else k);
    RefSumAtLeast(ds, d, k);
    forall l | 0 <= l < NR_INODE {
      RefSumUpdate(ds, d, x, l);
    }
  }

  lemma {:induction false} ReferredByOne(ds: seq<Desc>, k: int)
    requires RefSum(ds, k) > 0
    ensures exists d :: 0 <= d < |ds| && ds[d].inode == k
  {
    var m := |ds| - 1;
    if ds[m].inode == k {
    } else {
      ReferredByOne(ds[..m], k);
      var d :| 0 <= d < m && ds[..m][d].inode == k;
      assert ds[d].inode == k;
    }
  }

  /** A free descriptor put to use for i-node k: the counts are right exactly if k is counted for it as well. */
  lemma OpenKeepsCounts(filps: seq<int>, ds: seq<Desc>, inodes: seq<Inode>, i: int, d: int, k: int, x: Desc, n: Inode)
    requires Counted(filps, ds, inodes) && 0 <= i < |filps| && filps[i] == NIL
    requires 0 <= d < NR_FILE_DESC && ds[d].inode == NIL && 0 <= k < NR_INODE
    requires x.inode == k && x.cnt == 1
    ensures Counted(filps[i := d], ds[d := x], inodes[k := n]) <==> n.cnt > RefSum(ds, k)
    ensures forall l :: 0 <= l < NR_INODE && l != k ==> Slack(ds[d := x], inodes[k := n], l) == Slack(ds, inodes, l)
    ensures Slack(ds[d := x], inodes[k := n], k) == n.cnt - RefSum(ds, k) - 1
  {
    forall l | 0 <= l < NR_INODE {
      RefSumUpdate(ds, d, x, l);
    }
  }

  // ------------------------------------------------------------------ coherence, step by step

  function WithNode(disk: NodeDisk, num: int, x: Node): NodeDisk
    requires WholeSectors(disk) && Num(disk, num)
  {
    var s := (num - 1) / PER_SECTOR;
    disk[s := disk[s][(num - 1) % PER_SECTOR := x]]
  }

  /** Rewriting a sector for one i-node leaves the others of that sector alone. */
  lemma WithNodeOthers(disk: NodeDisk, num: int, x: Node, other: int)
    requires WholeSectors(disk) && Num(disk, num) && Num(disk, other)
    ensures WholeSectors(WithNode(disk, num, x))
    ensures NodeAt(WithNode(disk, num, x), other) == if other == num then x else NodeAt(disk, other)
  {
  }

  lemma GetKeepsCoherent(inodes: seq<Inode>, disk: NodeDisk, k: int, num: int)
    requires Coherent(inodes, disk) && 0 <= k < |inodes| && Num(disk, num)
    requires if Cached(inodes, num) then inodes[k].cnt > 0 && inodes[k].num == num else inodes[k].cnt == 0
    ensures Coherent(inodes[k := Inode(NodeAt(disk, num), inodes[k].cnt + 1, num)], disk)
  {
  }

  lemma SyncKeepsCoherent(inodes: seq<Inode>, disk: NodeDisk, k: int, n: Inode)
    requires Coherent(inodes, disk) && 0 <= k < |inodes| && inodes[k].cnt > 0
    requires n.num == inodes[k].num && n.cnt >= 0
    ensures Coherent(inodes[k := n], WithNode(disk, n.num, n.node))
  {
    forall l | 0 <= l < |inodes| && l != k && inodes[l].cnt > 0
      ensures NodeAt(WithNode(disk, n.num, n.node), inodes[l].num) == inodes[l].node
    {
      WithNodeOthers(disk, n.num, n.node, inodes[l].num);
    }
    WithNodeOthers(disk, n.num, n.node, n.num);
  }

  lemma CountKeepsCoherent(inodes: seq<Inode>, disk: NodeDisk, k: int, change: int)
    requires Coherent(inodes, disk) && 0 <= k < |inodes| && inodes[k].cnt > 0 && inodes[k].cnt + change >= 0
    ensures Coherent(inodes[k := Bumped(inodes[k], change)], disk)
  {
  }

  /** The first n entries from q copied over those from c. */
  function Inherited(fs: seq<int>, q: nat, c: nat, n: nat): (r: seq<int>)
    requires q + n <= |fs| && c + n <= |fs|
    ensures |r| == |fs|
  {
    seq(|fs|, i requires 0 <= i < |fs| => if c <= i < c + n then fs[i - c + q] else fs[i])
  }

  lemma InheritedNext(fs: seq<int>, q: nat, c: nat, f: nat)
    requires q + f < |fs| && c + f < |fs| && (q + f < c || c + f < q)
    ensures Inherited(fs, q, c, f)[q + f] == fs[q + f] && Inherited(fs, q, c, f)[c + f] == fs[c + f]
    ensures Inherited(fs, q, c, f)[c + f := fs[q + f]] == Inherited(fs, q, c, f + 1)
  {
  }

  // ------------------------------------------------------------------ the state

  /** From do_fork's copy of a slot to the file system's count of it. */
  datatype Fork = Fork(parent: int, child: int)

  /**
   proc_table[p].filp[f] is filps[p * NR_FILES + f]. The counts speak of `counted`, which lacks the slots of a
   child that the file system has not been told of.
   */
  datatype Files = Files(
    filps: seq<int>,
    counted: seq<int>,
    descs: seq<Desc>,        // f_desc_table
    inodes: seq<Inode>,      // inode_table
    disk: NodeDisk,
    bits: seq<bool>,         // the i-node map, by bits
    forking: Option<Fork>)

  ghost predicate Core(s: Files) {
    && |s.filps| == |s.counted| == NR_SLOTS * NR_FILES
    && Coherent(s.inodes, s.disk)
    && Counted(s.counted, s.descs, s.inodes)
    && 0 < |s.bits| == PER_SECTOR * |s.disk| && s.bits[0]
  }

  predicate Slot(p: int) { 0 <= p < NR_SLOTS }

  predicate InFork(s: Files, p: int) {
    s.forking.Some? && (p == s.forking.value.parent || p == s.forking.value.child)
  }

  /** While a fork is under way the child has the parent's open slots, and they are not counted. */
  ghost predicate Settled(s: Files)
    requires |s.filps| == |s.counted| == NR_SLOTS * NR_FILES
  {
    match s.forking
    case None => s.filps == s.counted
    case Some(Fork(q, c)) =>
      && Slot(q) && Slot(c) && q != c
      && s.filps == Inherited(s.counted, q * NR_FILES, c * NR_FILES, NR_FILES)
      && RowEmpty(s.counted, c)
  }

  ghost predicate RowEmpty(fs: seq<int>, p: int)
    requires |fs| == NR_SLOTS * NR_FILES && Slot(p)
  {
    forall i :: p * NR_FILES <= i < p * NR_FILES + NR_FILES ==> fs[i] == NIL
  }

  ghost predicate Sound(s: Files) { Core(s) && Settled(s) }

  /** Some open slot has i-node num. */
  ghost predicate IsOpen(s: Files, num: int)
    requires |s.descs| == NR_FILE_DESC
  {
    exists d :: 0 <= d < NR_FILE_DESC && OpenAs(s, d, num)
  }

  predicate OpenAs(s: Files, d: int, num: int)
    requires 0 <= d < |s.descs|
  {
    0 <= s.descs[d].inode < |s.inodes| && s.inodes[s.descs[d].inode].num == num
  }

  /** No i-node that is open has a number that the i-node map would hand out again. */
  ghost predicate NumbersTaken(s: Files)
    requires |s.descs| == NR_FILE_DESC
  {
    forall d, num :: 0 <= d < NR_FILE_DESC && OpenAs(s, d, num) ==> 0 <= num < |s.bits| && s.bits[num]
  }

  // ------------------------------------------------------------------ searches

  /** The first f with filp[f] null, counting from f on. */
  function FreeFd(fs: seq<int>, base: nat, f: nat): (r: nat)
    requires f <= NR_FILES && base + NR_FILES <= |fs|
    ensures f <= r <= NR_FILES
    ensures r < NR_FILES ==> fs[base + r] == NIL
    ensures forall i :: base + f <= i < base + r ==> fs[i] != NIL
    decreases NR_FILES - f
  {
    if f == NR_FILES || fs[base + f] == NIL then f else FreeFd(fs, base, f + 1)
  }

  function FreeDesc(ds: seq<Desc>, d: nat): (r: nat)
    requires d <= |ds|
    ensures d <= r <= |ds|
    ensures r < |ds| ==> ds[r].inode == NIL
    ensures forall j :: d <= j < r ==> ds[j].inode != NIL
    decreases |ds| - d
  {
    if d == |ds| || ds[d].inode == NIL then d else FreeDesc(ds, d + 1)
  }

  /** The live slot of i-node num, or the number of slots. */
  function LiveSlot(ns: seq<Inode>, num: int, k: nat): (r: nat)
    requires k <= |ns|
    ensures k <= r <= |ns|
    ensures r < |ns| ==> ns[r].cnt != 0 && ns[r].num == num
    ensures forall l :: k <= l < r ==> ns[l].cnt == 0 || ns[l].num != num
    decreases |ns| - k
  {
    if k == |ns| || (ns[k].cnt != 0 && ns[k].num == num) then k else LiveSlot(ns, num, k + 1)
  }

  function EmptySlot(ns: seq<Inode>, k: nat): (r: nat)
    requires k <= |ns|
    ensures k <= r <= |ns|
    ensures r < |ns| ==> ns[r].cnt == 0
    ensures forall l :: k <= l < r ==> ns[l].cnt != 0
    decreases |ns| - k
  {
    if k == |ns| || ns[k].cnt == 0 then k else EmptySlot(ns, k + 1)
  }

  /** Where get_inode finds or puts i-node num. */
  function CacheSlot(ns: seq<Inode>, num: int): (r: nat)
    ensures r <= |ns|
  {
    if LiveSlot(ns, num, 0) < |ns| then LiveSlot(ns, num, 0) else EmptySlot(ns, 0)
  }

  function ClearBit(bits: seq<bool>, i: nat): (r: nat)
    requires i <= |bits|
    ensures i <= r <= |bits|
    ensures r < |bits| ==> !bits[r]
    ensures forall j :: i <= j < r ==> bits[j]
    decreases |bits| - i
  {
    if i == |bits| || !bits[i] then i else ClearBit(bits, i + 1)
  }

  // ------------------------------------------------------------------ steps; None when the system halts

  datatype Held = Held(s: Files, k: int)

  /** get_inode, for a number that is not 0. */
  function Get(s: Files, num: int): (r: Option<Held>)
    requires WholeSectors(s.disk) && Num(s.disk, num)
    ensures r.Some? ==> 0 <= r.value.k < |s.inodes| && r.value.s == s.(inodes := r.value.s.inodes)
    ensures r.Some? ==> |r.value.s.inodes| == |s.inodes| && r.value.s.inodes[r.value.k].num == num
  {
    var k := CacheSlot(s.inodes, num);
    if k == |s.inodes| then None
    else
      var n := if s.inodes[k].cnt != 0 then Bumped(s.inodes[k], 1) else Inode(NodeAt(s.disk, num), 1, num);
      Some(Held(s.(inodes := s.inodes[k := n]), k))
  }

  /** A slot rewritten and its i-node written through. */
  function Synced(s: Files, k: int, n: Inode): Files
    requires 0 <= k < |s.inodes| && WholeSectors(s.disk) && Num(s.disk, n.num)
  {
    s.(inodes := s.inodes[k := n], disk := WithNode(s.disk, n.num, n.node))
  }

  /** alloc_imap_bit and new_inode, which sets the count to 1 whatever it was; with a full map it has no number. */
  function New(s: Files, mode: int, startSect: int): (r: Option<Held>)
    requires WholeSectors(s.disk) && 0 < |s.bits| == PER_SECTOR * |s.disk| && s.bits[0]
    ensures r.Some? ==> 0 <= r.value.k < |s.inodes| == |r.value.s.inodes|
    ensures r.Some? ==> r.value.s.(inodes := s.inodes, disk := s.disk, bits := s.bits) == s
  {
    var num := ClearBit(s.bits, 0);
    if num == |s.bits| then None
    else
      var h := Get(s.(bits := s.bits[num := true]), num);
      if h.None? then None
      else Some(Held(Synced(h.value.s, h.value.k, Inode(Node(mode, 0, startSect, 2048), 1, num)), h.value.k))
  }

  /** Ties open slot i to descriptor d and that to cache slot k. */
  function Connected(s: Files, i: int, d: int, k: int, flags: int): Files
    requires 0 <= i < |s.filps| == |s.counted| && 0 <= d < |s.descs|
  {
    s.(filps := s.filps[i := d], counted := s.counted[i := d], descs := s.descs[d := Desc(flags, 0, 1, k)])
  }

  /** do_open of an i-node that has been found. */
  function Open(s: Files, p: int, num: int, flags: int): Option<Files>
    requires |s.filps| == |s.counted| == NR_SLOTS * NR_FILES && Slot(p) && WholeSectors(s.disk) && Num(s.disk, num)
  {
    var (fd, d) := (FreeFd(s.filps, p * NR_FILES, 0), FreeDesc(s.descs, 0));
    if fd == NR_FILES || d == |s.descs| then None
    else
      var h := Get(s, num);
      if h.None? then None else Some(Connected(h.value.s, p * NR_FILES + fd, d, h.value.k, flags))
  }

  /** do_open of a new file. */
  function Create(s: Files, p: int, flags: int, startSect: int): Option<Files>
    requires |s.filps| == |s.counted| == NR_SLOTS * NR_FILES && Slot(p)
    requires WholeSectors(s.disk) && 0 < |s.bits| == PER_SECTOR * |s.disk| && s.bits[0]
  {
    var (fd, d) := (FreeFd(s.filps, p * NR_FILES, 0), FreeDesc(s.descs, 0));
    if fd == NR_FILES || d == |s.descs| then None
    else
      var h := New(s, I_REGULAR, startSect);
      if h.None? then None else Some(Connected(h.value.s, p * NR_FILES + fd, d, h.value.k, flags))
  }

  function Released(s: Files, k: int): Files
    requires 0 <= k < |s.inodes|
  {
    s.(inodes := s.inodes[k := Bumped(s.inodes[k], -1)])
  }

  function Mkdir(s: Files, startSect: int): Option<Files>
    requires WholeSectors(s.disk) && 0 < |s.bits| == PER_SECTOR * |s.disk| && s.bits[0]
  {
    var h := New(s, I_DIRECTORY, startSect);
    if h.None? then None else Some(Released(h.value.s, h.value.k))
  }

  /** The guards of do_unlink, on the i-node just counted. */
  predicate Refuses(n: Inode) {
    || (n.node.mode != I_REGULAR && n.node.mode == I_DIRECTORY && n.node.size != 0)
    || (n.cnt > 1 && n.node.mode != I_DIRECTORY)
  }

  /** do_unlink, without the sector map; a refusal keeps the reference just taken. */
  function Unlink(s: Files, num: int): Option<Files>
    requires WholeSectors(s.disk) && Num(s.disk, num)
  {
    var h := Get(s, num);
    if h.None? then None
    else
      var n := h.value.s.inodes[h.value.k];
      if Refuses(n) then Some(h.value.s)
      else if num >= |s.bits| || !s.bits[num] then None
      else
        var t := Synced(h.value.s, h.value.k, Inode(Node(0, 0, 0, 0), n.cnt, num));
        Some(Released(t.(bits := t.bits[num := false]), h.value.k))
  }

  /** Whether do_unlink would refuse. */
  predicate Refused(s: Files, num: int)
    requires WholeSectors(s.disk) && Num(s.disk, num)
  {
    var h := Get(s, num); h.Some? && Refuses(h.value.s.inodes[h.value.k])
  }

  /** One open slot given up, as in do_close and in each round of fs_exit. */
  function DetachOne(s: Files, i: int): Files
    requires 0 <= i < |s.filps| == |s.counted|
  {
    var d := s.filps[i];
    if !(0 <= d < |s.descs| && 0 <= s.descs[d].inode < |s.inodes|) then s
    else
      var k := s.descs[d].inode;
      s.(filps := s.filps[i := NIL], counted := s.counted[i := NIL],
         descs := s.descs[d := s.descs[d].(cnt := s.descs[d].cnt - 1, inode := if s.descs[d].cnt == 1 then NIL else k)],
         inodes := s.inodes[k := Bumped(s.inodes[k], -1)])
  }

  /** fs_exit for the first f slots of a row. */
  function DetachRow(s: Files, base: nat, f: nat): (r: Files)
    requires base + f <= |s.filps| == |s.counted|
    ensures |r.filps| == |s.filps| == |r.counted|
  {
    if f == 0 then s else DetachOne(DetachRow(s, base, f - 1), base + f - 1)
  }

  /** One inherited open slot counted, as in each round of fs_fork. */
  function CountOne(s: Files, i: int): Files
    requires 0 <= i < |s.filps| == |s.counted|
  {
    var d := s.filps[i];
    if !(0 <= d < |s.descs| && 0 <= s.descs[d].inode < |s.inodes|) then s
    else
      var k := s.descs[d].inode;
      s.(counted := s.counted[i := d], descs := s.descs[d := s.descs[d].(cnt := s.descs[d].cnt + 1)],
         inodes := s.inodes[k := Bumped(s.inodes[k], 1)])
  }

  function CountRow(s: Files, base: nat, f: nat): (r: Files)
    requires base + f <= |s.filps| == |s.counted|
    ensures |r.filps| == |s.filps| == |r.counted|
  {
    if f == 0 then s else CountOne(CountRow(s, base, f - 1), base + f - 1)
  }

  /** do_fork's copy of the parent's slot, as far as open files are concerned. */
  function ForkCopied(s: Files, parent: int, child: int): Files
    requires |s.filps| == NR_SLOTS * NR_FILES && Slot(parent) && Slot(child)
  {
    s.(filps := Inherited(s.filps, parent * NR_FILES, child * NR_FILES, NR_FILES), forking := Some(Fork(parent, child)))
  }

  /** fs_fork. */
  function ForkCounted(s: Files, child: int): Files
    requires |s.filps| == |s.counted| == NR_SLOTS * NR_FILES && Slot(child)
  {
    CountRow(s, child * NR_FILES, NR_FILES).(forking := None)
  }

  /** The size of a live i-node changes, as in do_rdwt and new_dir_entry. */
  function Resized(s: Files, k: int, size: int): Files
    requires 0 <= k < |s.inodes| && WholeSectors(s.disk) && Num(s.disk, s.inodes[k].num)
  {
    Synced(s, k, s.inodes[k].(node := s.inodes[k].node.(size := size)))
  }

  /** The position of an open slot's descriptor set, as in do_lseek and do_rdwt. */
  function Repositioned(s: Files, i: int, pos: int): Files
    requires 0 <= i < |s.filps| && 0 <= s.filps[i] < |s.descs|
  {
    s.(descs := s.descs[s.filps[i] := s.descs[s.filps[i]].(pos := pos)])
  }

  // ------------------------------------------------------------------ what mkfs and init_fs leave behind

  const MKFS_INODES := 5                    // the root directory, three terminals and cmd.tar
  const DIR_ENTRY_SIZE := 16
  const INSTALL_START_SECT := 0x8000
  const INSTALL_NR_SECTS := 2048
  const NO_INODE := Inode(Node(0, 0, 0, 0), 0, 0)

  function MkfsNodes(firstSect: int): seq<Node> {
    [Node(I_DIRECTORY, 5 * DIR_ENTRY_SIZE, firstSect, 2048),
     Node(I_CHAR_SPECIAL, 0, 0x400, 0), Node(I_CHAR_SPECIAL, 0, 0x401, 0), Node(I_CHAR_SPECIAL, 0, 0x402, 0),
     Node(I_REGULAR, INSTALL_NR_SECTS * 512, INSTALL_START_SECT, INSTALL_NR_SECTS)]
  }

  function Initial(sectors: NodeDisk, firstSect: int): Files
    requires WholeSectors(sectors) && |sectors| > 0
  {
    Files(
      seq(NR_SLOTS * NR_FILES, i => NIL),
      seq(NR_SLOTS * NR_FILES, i => NIL),
      seq(NR_FILE_DESC, i => Desc(0, 0, 0, NIL)),
      [Inode(MkfsNodes(firstSect)[0], 1, 1)] + seq(NR_INODE - 1, i => NO_INODE),
      [MkfsNodes(firstSect) + sectors[0][MKFS_INODES..]] + sectors[1..],
      seq(PER_SECTOR * |sectors|, i => i <= MKFS_INODES),
      None)
  }
}
