/** What the steps of the file system keep, and the steps that do not. */
module FileProofs {
  import opened FileTable
  import opened Wrappers

  // ------------------------------------------------------------------ the cache

  /** get_inode finds the live slot of a number, or else an empty one. */
  lemma CacheSlotIs(s: Files, num: int)
    requires Core(s) && Num(s.disk, num) && Get(s, num).Some?
    ensures var (k, h) := (Get(s, num).value.k, Get(s, num).value.s);
            && (Cached(s.inodes, num) <==> s.inodes[k].cnt > 0)
            && (s.inodes[k].cnt > 0 ==> s.inodes[k].num == num)
            && h.inodes == s.inodes[k := Inode(NodeAt(s.disk, num), s.inodes[k].cnt + 1, num)]
  {
  }

  /** An i-node is open exactly when its slot is referred to by descriptors. */
  lemma OpenIffReferred(s: Files, num: int)
    requires Core(s) && Num(s.disk, num) && Get(s, num).Some?
    ensures IsOpen(s, num) <==> RefSum(s.descs, Get(s, num).value.k) > 0
    ensures RefSum(s.descs, Get(s, num).value.k) >= 0
  {
    var k := Get(s, num).value.k;
    CacheSlotIs(s, num);
    RefSumAtLeast(s.descs, 0, k);
    if IsOpen(s, num) {
      var d :| 0 <= d < NR_FILE_DESC && OpenAs(s, d, num);
      RefSumAtLeast(s.descs, d, s.descs[d].inode);
      RefSumAtLeast(s.descs, d, k);
    }
    if RefSum(s.descs, k) > 0 {
      ReferredByOne(s.descs, k);
      var d :| 0 <= d < NR_FILE_DESC && s.descs[d].inode == k;
      assert OpenAs(s, d, num);
    }
  }

  /** One more reference: everything stays in order, and no descriptor accounts for it yet. */
  lemma GetKeeps(s: Files, num: int)
    requires Core(s) && Num(s.disk, num) && Get(s, num).Some?
    ensures var (k, h) := (Get(s, num).value.k, Get(s, num).value.s);
            && Core(h)
            && (forall l :: 0 <= l < NR_INODE ==>
                  Slack(h.descs, h.inodes, l) == Slack(s.descs, s.inodes, l) + if l == k then 1 else 0)
            && (forall d, x :: 0 <= d < NR_FILE_DESC ==> (OpenAs(h, d, x) <==> OpenAs(s, d, x)))
  {
    var k := Get(s, num).value.k;
    CacheSlotIs(s, num);
    GetKeepsCoherent(s.inodes, s.disk, k, num);
    forall d | 0 <= d < NR_FILE_DESC && s.descs[d].inode == k ensures s.inodes[k].cnt > 0 {
      RefSumAtLeast(s.descs, d, k);
    }
  }

  // ------------------------------------------------------------------ open slots

  /** An open slot changed outside a fork is changed for the counts as well. */
  lemma SettledSet(s: Files, s': Files, p: int, f: int, d: int)
    requires |s.filps| == |s.counted| == NR_SLOTS * NR_FILES && Settled(s)
    requires Slot(p) && 0 <= f < NR_FILES && !InFork(s, p) && s'.forking == s.forking
    requires s'.filps == s.filps[p * NR_FILES + f := d] && s'.counted == s.counted[p * NR_FILES + f := d]
    ensures Settled(s') && s.filps[p * NR_FILES + f] == s.counted[p * NR_FILES + f]
  {
    if s.forking.Some? {
      var (q, c) := (s.forking.value.parent, s.forking.value.child);
      assert p < q || q < p;
      assert p < c || c < p;
    }
  }

  // ------------------------------------------------------------------ references nobody will give back

  predicate Taken(s: Files, num: int) { 0 <= num < |s.bits| && s.bits[num] }

  ghost predicate Kept(s: Files, s': Files, k: int)
    requires 0 <= k < |s.inodes| == |s'.inodes|
  {
    s'.inodes[k].num == s.inodes[k].num && Slack(s'.descs, s'.inodes, k) >= Slack(s.descs, s.inodes, k)
  }

  /** Slots referred to by more than descriptors stay so, while the i-node map has their numbers. */
  ghost predicate KeepsLeaks(s: Files, s': Files) {
    && |s.inodes| == |s'.inodes|
    && forall k :: 0 <= k < |s.inodes| && Slack(s.descs, s.inodes, k) > 0 && Taken(s, s.inodes[k].num) ==>
         Kept(s, s', k)
  }

  // ------------------------------------------------------------------ opening and creating

  lemma OpenIsSound(s: Files, p: int, num: int, flags: int)
    requires Sound(s) && Slot(p) && !InFork(s, p) && Num(s.disk, num) && Open(s, p, num, flags).Some?
    ensures Sound(Open(s, p, num, flags).value)
  {
    var (fd, d) := (FreeFd(s.filps, p * NR_FILES, 0), FreeDesc(s.descs, 0));
    var h := Get(s, num).value;
    CacheSlotIs(s, num);
    GetKeeps(s, num);
    SettledSet(s, Open(s, p, num, flags).value, p, fd, d);
    OpenKeepsCounts(s.counted, s.descs, s.inodes, p * NR_FILES + fd, d, h.k, Desc(flags, 0, 1, h.k), h.s.inodes[h.k]);
  }

  lemma OpenKeeps(s: Files, p: int, num: int, flags: int)
    requires Sound(s) && Slot(p) && !InFork(s, p) && Num(s.disk, num) && Open(s, p, num, flags).Some?
    ensures var s' := Open(s, p, num, flags).value;
            && Sound(s') && KeepsLeaks(s, s')
            && (NumbersTaken(s) && Taken(s, num) ==> NumbersTaken(s'))
  {
    OpenIsSound(s, p, num, flags);
    GetKeeps(s, num);
    if NumbersTaken(s) && Taken(s, num) {
      OpenTakes(s, p, num, flags);
    }
    OpenLeaks(s, p, num, flags);
  }

  lemma OpenLeaks(s: Files, p: int, num: int, flags: int)
    requires Sound(s) && Slot(p) && Num(s.disk, num) && Open(s, p, num, flags).Some?
    ensures KeepsLeaks(s, Open(s, p, num, flags).value)
  {
    var d := FreeDesc(s.descs, 0);
    var h := Get(s, num).value;
    CacheSlotIs(s, num);
    LeakBySlack(s, num);
    forall k | 0 <= k < NR_INODE {
      RefSumUpdate(s.descs, d, Desc(flags, 0, 1, h.k), k);
    }
  }

  lemma OpenTakes(s: Files, p: int, num: int, flags: int)
    requires Sound(s) && Slot(p) && Num(s.disk, num) && Open(s, p, num, flags).Some?
    requires NumbersTaken(s) && Taken(s, num)
    ensures NumbersTaken(Open(s, p, num, flags).value)
  {
    var s' := Open(s, p, num, flags).value;
    GetKeeps(s, num);
    forall e, x | 0 <= e < NR_FILE_DESC && OpenAs(s', e, x) ensures Taken(s', x) {
      assert e != FreeDesc(s.descs, 0) ==> OpenAs(Get(s, num).value.s, e, x);
    }
  }

  /** A slot with references is not taken for another i-node. */
  lemma LeakBySlack(s: Files, num: int)
    requires Core(s) && Num(s.disk, num) && Get(s, num).Some?
    ensures var k := Get(s, num).value.k;
            Slack(s.descs, s.inodes, k) > 0 ==> s.inodes[k].cnt > 0 && s.inodes[k].num == num
  {
    CacheSlotIs(s, num);
    RefSumAtLeast(s.descs, 0, Get(s, num).value.k);
  }

  /** new_inode: the cache is right again, with one reference to the new i-node. */
  lemma NewIs(s: Files, mode: int, startSect: int)
    requires Core(s) && New(s, mode, startSect).Some?
    ensures var (num, t) := (ClearBit(s.bits, 0), s.(bits := s.bits[ClearBit(s.bits, 0) := true]));
            var (k, h) := (New(s, mode, startSect).value.k, New(s, mode, startSect).value.s);
            && 0 < num < |s.bits| && !s.bits[num] && Num(s.disk, num) && Get(s, num).Some? && k == Get(s, num).value.k
            && h == t.(inodes := s.inodes[k := Inode(Node(mode, 0, startSect, 2048), 1, num)],
                       disk := WithNode(s.disk, num, Node(mode, 0, startSect, 2048)))
            && Coherent(h.inodes, h.disk)
  {
    var num := ClearBit(s.bits, 0);
    var t := s.(bits := s.bits[num := true]);
    assert Get(t, num).value.k == Get(s, num).value.k;
    CacheSlotIs(s, num);
    GetKeeps(s, num);
    var h := Get(s, num).value;
    SyncKeepsCoherent(h.s.inodes, s.disk, h.k, Inode(Node(mode, 0, startSect, 2048), 1, num));
  }

  /** The number and the cache slot that a new i-node gets. */
  function NewNum(s: Files): int { ClearBit(s.bits, 0) }

  ghost function NewSlot(s: Files): int
    requires Core(s) && Num(s.disk, NewNum(s)) && Get(s, NewNum(s)).Some?
  {
    Get(s, NewNum(s)).value.k
  }

  /** s' is s with i-node n made in slot k, and apart from that only the open slots and descriptors of s'. */
  ghost predicate MadeIn(s: Files, s': Files, k: int, n: Inode)
    requires WholeSectors(s.disk) && Num(s.disk, n.num)
  {
    && 0 <= k < |s.inodes| && 0 <= n.num < |s.bits|
    && s' == s.(filps := s'.filps, counted := s'.counted, descs := s'.descs, inodes := s.inodes[k := n],
                disk := WithNode(s.disk, n.num, n.node), bits := s.bits[n.num := true])
  }

  /** What creating a file comes to. */
  lemma CreateIs(s: Files, p: int, flags: int, startSect: int)
    requires Core(s) && Slot(p) && Create(s, p, flags, startSect).Some?
    ensures 0 < NewNum(s) < |s.bits| && !s.bits[NewNum(s)] && Num(s.disk, NewNum(s)) && Get(s, NewNum(s)).Some?
    ensures var (s', k) := (Create(s, p, flags, startSect).value, NewSlot(s));
            var (i, d) := (p * NR_FILES + FreeFd(s.filps, p * NR_FILES, 0), FreeDesc(s.descs, 0));
            && MadeIn(s, s', k, Inode(Node(I_REGULAR, 0, startSect, 2048), 1, NewNum(s)))
            && FreeFd(s.filps, p * NR_FILES, 0) < NR_FILES && d < NR_FILE_DESC
            && s'.filps == s.filps[i := d] && s'.counted == s.counted[i := d]
            && s'.descs == s.descs[d := Desc(flags, 0, 1, k)] && Coherent(s'.inodes, s'.disk)
  {
    NewIs(s, I_REGULAR, startSect);
  }

  /** Creating a file keeps all in order exactly if the number it gets is not that of an i-node still open. */
  lemma CreateExact(s: Files, p: int, flags: int, startSect: int)
    requires Sound(s) && Slot(p) && !InFork(s, p) && Create(s, p, flags, startSect).Some?
    ensures Sound(Create(s, p, flags, startSect).value) <==> !IsOpen(s, NewNum(s))
  {
    var (fd, d) := (FreeFd(s.filps, p * NR_FILES, 0), FreeDesc(s.descs, 0));
    var s' := Create(s, p, flags, startSect).value;
    CreateIs(s, p, flags, startSect);
    OpenIffReferred(s, NewNum(s));
    SettledSet(s, s', p, fd, d);
    var k := NewSlot(s);
    OpenKeepsCounts(s.counted, s.descs, s.inodes, p * NR_FILES + fd, d, k, Desc(flags, 0, 1, k), s'.inodes[k]);
  }

  /** No descriptor refers to the slot of an i-node that is not open. */
  lemma NotReferred(s: Files, num: int, e: int)
    requires Core(s) && Num(s.disk, num) && Get(s, num).Some? && !IsOpen(s, num) && 0 <= e < NR_FILE_DESC
    ensures s.descs[e].inode != Get(s, num).value.k
  {
    OpenIffReferred(s, num);
    RefSumAtLeast(s.descs, e, Get(s, num).value.k);
  }

  /** Making an i-node where nothing is referred to leaves what is open as it is. */
  lemma MadeOpensNothing(s: Files, s': Files, k: int, n: Inode, e: int, x: int)
    requires Core(s) && Num(s.disk, n.num) && MadeIn(s, s', k, n) && 0 <= e < |s'.descs|
    requires |s.descs| == |s'.descs| && s'.descs[e].inode == s.descs[e].inode != k
    ensures OpenAs(s', e, x) <==> OpenAs(s, e, x)
  {
  }

  lemma CreateTakes(s: Files, p: int, flags: int, startSect: int)
    requires Core(s) && NumbersTaken(s) && !IsOpen(s, NewNum(s)) && Slot(p) && Create(s, p, flags, startSect).Some?
    ensures NumbersTaken(Create(s, p, flags, startSect).value)
  {
    var s' := Create(s, p, flags, startSect).value;
    CreateIs(s, p, flags, startSect);
    var (k, num) := (NewSlot(s), NewNum(s));
    forall e, x | 0 <= e < NR_FILE_DESC && OpenAs(s', e, x) ensures Taken(s', x) {
      if e != FreeDesc(s.descs, 0) {
        NotReferred(s, num, e);
        MadeOpensNothing(s, s', k, Inode(Node(I_REGULAR, 0, startSect, 2048), 1, num), e, x);
      }
    }
  }

  lemma CreateLeaks(s: Files, p: int, flags: int, startSect: int)
    requires Core(s) && Slot(p) && Create(s, p, flags, startSect).Some?
    ensures KeepsLeaks(s, Create(s, p, flags, startSect).value)
  {
    CreateIs(s, p, flags, startSect);
    LeakBySlack(s, NewNum(s));
    var k := NewSlot(s);
    forall l | 0 <= l < NR_INODE {
      RefSumUpdate(s.descs, FreeDesc(s.descs, 0), Desc(flags, 0, 1, k), l);
    }
  }

  lemma CreateKeeps(s: Files, p: int, flags: int, startSect: int)
    requires Sound(s) && !IsOpen(s, NewNum(s)) && Slot(p) && !InFork(s, p) && Create(s, p, flags, startSect).Some?
    ensures var s' := Create(s, p, flags, startSect).value;
            Sound(s') && KeepsLeaks(s, s') && (NumbersTaken(s) ==> NumbersTaken(s'))
  {
    CreateExact(s, p, flags, startSect);
    CreateLeaks(s, p, flags, startSect);
    if NumbersTaken(s) {
      CreateTakes(s, p, flags, startSect);
    }
  }

  lemma MkdirIs(s: Files, startSect: int)
    requires Core(s) && Mkdir(s, startSect).Some?
    ensures 0 < NewNum(s) < |s.bits| && !s.bits[NewNum(s)] && Num(s.disk, NewNum(s)) && Get(s, NewNum(s)).Some?
    ensures var (s', k) := (Mkdir(s, startSect).value, NewSlot(s));
            && MadeIn(s, s', k, Inode(Node(I_DIRECTORY, 0, startSect, 2048), 0, NewNum(s)))
            && s'.filps == s.filps && s'.counted == s.counted && s'.descs == s.descs && Coherent(s'.inodes, s'.disk)
  {
    var h := New(s, I_DIRECTORY, startSect).value;
    NewIs(s, I_DIRECTORY, startSect);
    CountKeepsCoherent(h.s.inodes, h.s.disk, h.k, -1);
  }

  /** So does making a directory, whose reference is given back at once. */
  lemma MkdirExact(s: Files, startSect: int)
    requires Sound(s) && Mkdir(s, startSect).Some?
    ensures Sound(Mkdir(s, startSect).value) <==> !IsOpen(s, NewNum(s))
  {
    MkdirIs(s, startSect);
    OpenIffReferred(s, NewNum(s));
  }

  lemma MkdirKeeps(s: Files, startSect: int)
    requires Sound(s) && !IsOpen(s, NewNum(s)) && Mkdir(s, startSect).Some?
    ensures var s' := Mkdir(s, startSect).value;
            Sound(s') && KeepsLeaks(s, s') && (NumbersTaken(s) ==> NumbersTaken(s'))
  {
    var s' := Mkdir(s, startSect).value;
    MkdirExact(s, startSect);
    MkdirIs(s, startSect);
    LeakBySlack(s, NewNum(s));
    var n := Inode(Node(I_DIRECTORY, 0, startSect, 2048), 0, NewNum(s));
    forall e, x | 0 <= e < NR_FILE_DESC && OpenAs(s', e, x) ensures OpenAs(s, e, x) {
      NotReferred(s, NewNum(s), e);
      MadeOpensNothing(s, s', NewSlot(s), n, e, x);
    }
  }

  // ------------------------------------------------------------------ removing

  /** A file that is neither directory nor empty of references is not removed; a file nobody holds is. */
  lemma FileRefusedIffCached(s: Files, num: int)
    requires Core(s) && Num(s.disk, num) && Get(s, num).Some? && NodeAt(s.disk, num).mode != I_DIRECTORY
    ensures Refused(s, num) <==> Cached(s.inodes, num)
  {
    CacheSlotIs(s, num);
  }

  lemma DirectoryRefusedIffFull(s: Files, num: int)
    requires Core(s) && Num(s.disk, num) && Get(s, num).Some? && NodeAt(s.disk, num).mode == I_DIRECTORY
    ensures Refused(s, num) <==> NodeAt(s.disk, num).size != 0
  {
    CacheSlotIs(s, num);
  }

  lemma OpenIsCached(s: Files, num: int)
    requires Core(s) && IsOpen(s, num)
    ensures Cached(s.inodes, num) && Num(s.disk, num) && Get(s, num).Some?
  {
    var d :| 0 <= d < NR_FILE_DESC && OpenAs(s, d, num);
    RefSumAtLeast(s.descs, d, s.descs[d].inode);
    assert s.inodes[s.descs[d].inode].cnt > 0;
  }

  /** A file that is open is never removed, unless it is a directory. */
  lemma OpenFileStays(s: Files, num: int)
    requires Core(s) && IsOpen(s, num) && Num(s.disk, num) && NodeAt(s.disk, num).mode != I_DIRECTORY
    ensures Refused(s, num)
  {
    OpenIsCached(s, num);
    FileRefusedIffCached(s, num);
  }

  /** What removing an i-node comes to. */
  lemma RemovalIs(s: Files, num: int)
    requires Core(s) && Num(s.disk, num) && Unlink(s, num).Some? && !Refused(s, num)
    ensures var (s', k) := (Unlink(s, num).value, Get(s, num).value.k);
            && 0 < num < |s.bits| && s.bits[num] && s'.bits == s.bits[num := false]
            && s'.inodes == s.inodes[k := Inode(Node(0, 0, 0, 0), s.inodes[k].cnt, num)]
            && s'.disk == WithNode(s.disk, num, Node(0, 0, 0, 0))
            && s' == s.(inodes := s'.inodes, disk := s'.disk, bits := s'.bits)
            && Coherent(s'.inodes, s'.disk)
            && (s.inodes[k].cnt > 0 ==> s.inodes[k].num == num)
  {
    var h := Get(s, num).value;
    CacheSlotIs(s, num);
    GetKeeps(s, num);
    var n := Inode(Node(0, 0, 0, 0), h.s.inodes[h.k].cnt, num);
    SyncKeepsCoherent(h.s.inodes, s.disk, h.k, n);
    CountKeepsCoherent(h.s.inodes[h.k := n], Unlink(s, num).value.disk, h.k, -1);
    assert Unlink(s, num).value.inodes == s.inodes[h.k := Bumped(n, -1)];
  }

  /** What is open stays open, with the same numbers. */
  lemma RemovalKeepsOpen(s: Files, num: int, d: int, x: int)
    requires Core(s) && Num(s.disk, num) && Unlink(s, num).Some? && !Refused(s, num) && 0 <= d < NR_FILE_DESC
    ensures OpenAs(Unlink(s, num).value, d, x) <==> OpenAs(s, d, x)
  {
    RemovalIs(s, num);
    var k := Get(s, num).value.k;
    if s.descs[d].inode == k {
      RefSumAtLeast(s.descs, d, k);
    }
  }

  lemma RemovalIsSound(s: Files, num: int)
    requires Sound(s) && Num(s.disk, num) && Unlink(s, num).Some? && !Refused(s, num)
    ensures Sound(Unlink(s, num).value) && KeepsLeaks(s, Unlink(s, num).value)
  {
    RemovalIs(s, num);
    LeakBySlack(s, num);
  }

  lemma RemovalTakesExactly(s: Files, num: int)
    requires Core(s) && Num(s.disk, num) && Unlink(s, num).Some? && !Refused(s, num) && NumbersTaken(s)
    ensures NumbersTaken(Unlink(s, num).value) <==> !IsOpen(s, num)
  {
    var s' := Unlink(s, num).value;
    RemovalIs(s, num);
    if IsOpen(s, num) {
      var d :| 0 <= d < NR_FILE_DESC && OpenAs(s, d, num);
      RemovalKeepsOpen(s, num, d, num);
    } else {
      forall d, x | 0 <= d < NR_FILE_DESC && OpenAs(s', d, x) ensures Taken(s', x) {
        RemovalKeepsOpen(s, num, d, x);
      }
    }
  }

  /** do_unlink keeps all in order; an open number becomes free exactly if what is removed is open. */
  lemma UnlinkExact(s: Files, num: int)
    requires Sound(s) && Num(s.disk, num) && Unlink(s, num).Some?
    ensures var s' := Unlink(s, num).value;
            && Sound(s') && KeepsLeaks(s, s')
            && (NumbersTaken(s) ==> (NumbersTaken(s') <==> Refused(s, num) || !IsOpen(s, num)))
  {
    if Refused(s, num) {
      GetKeeps(s, num);
      LeakBySlack(s, num);
    } else {
      RemovalIsSound(s, num);
      if NumbersTaken(s) {
        RemovalTakesExactly(s, num);
      }
    }
  }

  // ------------------------------------------------------------------ steps that open nothing

  ghost predicate NothingOpened(s: Files, s': Files) {
    && |s.descs| == |s'.descs| == NR_FILE_DESC && s'.bits == s.bits
    && forall d, x :: 0 <= d < NR_FILE_DESC && OpenAs(s', d, x) ==> OpenAs(s, d, x)
  }

  ghost predicate SameNumbers(s: Files, s': Files) {
    |s.inodes| == |s'.inodes| == NR_INODE && forall k :: 0 <= k < NR_INODE ==> s'.inodes[k].num == s.inodes[k].num
  }

  /** A step that moves references between descriptors and i-nodes in step, and does nothing else. */
  ghost predicate Gentle(s: Files, s': Files) {
    && Sound(s') && SameNumbers(s, s') && NothingOpened(s, s') && SameSlack(s.descs, s.inodes, s'.descs, s'.inodes)
    && s'.disk == s.disk
  }

  lemma GentleThenGentle(s: Files, s': Files, s'': Files)
    requires Gentle(s, s') && Gentle(s', s'')
    ensures Gentle(s, s'')
  {
  }

  lemma GentleKeeps(s: Files, s': Files)
    requires Gentle(s, s')
    ensures KeepsLeaks(s, s') && (NumbersTaken(s) ==> NumbersTaken(s'))
  {
  }

  /** An open slot and its counts given up together. */
  lemma DetachOpen(s: Files, i: int)
    requires Core(s) && 0 <= i < |s.filps| && s.filps[i] == s.counted[i] != NIL
    ensures var t := DetachOne(s, i);
            && Core(t) && SameSlack(s.descs, s.inodes, t.descs, t.inodes) && SameNumbers(s, t) && NothingOpened(s, t)
            && t == s.(filps := s.filps[i := NIL], counted := s.counted[i := NIL], descs := t.descs, inodes := t.inodes)
  {
    DetachKeepsCounts(s.counted, s.descs, s.inodes, i);
    CountKeepsCoherent(s.inodes, s.disk, s.descs[s.filps[i]].inode, -1);
  }

  lemma DetachKeeps(s: Files, p: int, f: int)
    requires Sound(s) && Slot(p) && 0 <= f < NR_FILES && !InFork(s, p)
    ensures var s' := DetachOne(s, p * NR_FILES + f);
            Gentle(s, s') && s'.filps == s.filps[p * NR_FILES + f := NIL] && s'.forking == s.forking
  {
    var i := p * NR_FILES + f;
    SettledSet(s, s.(filps := s.filps[i := NIL], counted := s.counted[i := NIL]), p, f, NIL);
    if s.filps[i] == NIL {
      assert s.filps[i := NIL] == s.filps && DetachOne(s, i) == s;
    } else {
      DetachOpen(s, i);
      SettledSet(s, DetachOne(s, i), p, f, NIL);
    }
  }

  /** After f slots of a row have been given up, starting from s. */
  ghost predicate RowDetached(s: Files, t: Files, p: nat, f: nat) {
    Gentle(s, t) && RowGone(s.filps, t.filps, p * NR_FILES, f) && t.forking == s.forking
  }

  lemma RowDetachedNone(s: Files, p: nat)
    requires Sound(s)
    ensures RowDetached(s, s, p, 0)
  {
  }

  lemma RowDetachedNext(s: Files, t: Files, p: nat, f: nat)
    requires RowDetached(s, t, p, f) && |s.filps| == NR_SLOTS * NR_FILES && Slot(p) && f < NR_FILES && !InFork(s, p)
    ensures RowDetached(s, DetachOne(t, p * NR_FILES + f), p, f + 1)
  {
    DetachKeeps(t, p, f);
    GentleThenGentle(s, t, DetachOne(t, p * NR_FILES + f));
    RowGoneNext(s.filps, t.filps, p * NR_FILES, f);
  }

  /** fs_exit gives up all open slots of the process and no others. */
  lemma {:induction false} DetachRowKeeps(s: Files, p: int, f: nat)
    requires Sound(s) && Slot(p) && f <= NR_FILES && !InFork(s, p)
    ensures RowDetached(s, DetachRow(s, p * NR_FILES, f), p, f)
  {
    if f == 0 {
      RowDetachedNone(s, p);
    } else {
      DetachRowKeeps(s, p, f - 1);
      RowDetachedNext(s, DetachRow(s, p * NR_FILES, f - 1), p, f - 1);
    }
  }

  lemma RowGoneNext(fs: seq<int>, fs': seq<int>, base: nat, f: nat)
    requires RowGone(fs, fs', base, f) && base + f < |fs|
    ensures RowGone(fs, fs'[base + f := NIL], base, f + 1)
  {
  }

  ghost predicate RowGone(fs: seq<int>, fs': seq<int>, base: nat, f: nat) {
    |fs'| == |fs| && forall i :: 0 <= i < |fs| ==> fs'[i] == if base <= i < base + f then NIL else fs[i]
  }

  // ------------------------------------------------------------------ forking

  /** Every open slot of the row has an i-node. */
  ghost predicate RowOpen(s: Files, base: nat)
    requires base + NR_FILES <= |s.filps| && |s.descs| == NR_FILE_DESC && |s.inodes| == NR_INODE
  {
    forall i :: base <= i < base + NR_FILES ==>
      s.filps[i] == NIL || (0 <= s.filps[i] < NR_FILE_DESC && 0 <= s.descs[s.filps[i]].inode < NR_INODE)
  }

  /** After f slots of a row have been counted, starting from s. */
  ghost predicate RowCounted(s: Files, r: Files, base: nat, f: nat)
    requires |s.filps| == |s.counted| == NR_SLOTS * NR_FILES
  {
    && Core(r) && |s.inodes| == NR_INODE && |s.descs| == NR_FILE_DESC
    && r == s.(counted := r.counted, descs := r.descs, inodes := r.inodes)
    && SameSlack(s.descs, s.inodes, r.descs, r.inodes)
    && (forall d :: 0 <= d < NR_FILE_DESC ==> r.descs[d].inode == s.descs[d].inode)
    && (forall k :: 0 <= k < NR_INODE ==> r.inodes[k].num == s.inodes[k].num)
    && (forall i :: 0 <= i < |s.filps| ==> r.counted[i] == if base <= i < base + f then s.filps[i] else s.counted[i])
  }

  lemma CountOneKeeps(r: Files, i: int)
    requires Core(r) && 0 <= i < |r.filps| && r.counted[i] == NIL
    requires r.filps[i] == NIL || (0 <= r.filps[i] < NR_FILE_DESC && 0 <= r.descs[r.filps[i]].inode < NR_INODE)
    ensures var t := CountOne(r, i);
            && Core(t) && t == r.(counted := r.counted[i := r.filps[i]], descs := t.descs, inodes := t.inodes)
            && SameSlack(r.descs, r.inodes, t.descs, t.inodes) && SameNumbers(r, t)
            && (forall d :: 0 <= d < NR_FILE_DESC ==> t.descs[d].inode == r.descs[d].inode)
  {
    var d := r.filps[i];
    if d != NIL {
      var k := r.descs[d].inode;
      AttachKeepsCounts(r.counted, r.descs, r.inodes, i, d);
      RefSumAtLeast(r.descs, d, k);
      CountKeepsCoherent(r.inodes, r.disk, k, 1);
    } else {
      assert r.counted[i := NIL] == r.counted;
    }
  }

  lemma CountKeeps(s: Files, r: Files, base: nat, f: nat)
    requires |s.filps| == |s.counted| == NR_SLOTS * NR_FILES && base + NR_FILES <= |s.filps| && f < NR_FILES
    requires RowCounted(s, r, base, f) && RowOpen(s, base) && s.counted[base + f] == NIL
    ensures RowCounted(s, CountOne(r, base + f), base, f + 1)
  {
    CountOneKeeps(r, base + f);
  }

  lemma {:induction false} CountRowKeeps(s: Files, base: nat, f: nat)
    requires Core(s) && base + NR_FILES <= |s.filps| && f <= NR_FILES && RowOpen(s, base)
    requires forall i :: base <= i < base + NR_FILES ==> s.counted[i] == NIL
    ensures RowCounted(s, CountRow(s, base, f), base, f)
  {
    if f == 0 {
      assert CountRow(s, base, 0) == s;
    } else {
      CountRowKeeps(s, base, f - 1);
      CountKeeps(s, CountRow(s, base, f - 1), base, f - 1);
    }
  }

  lemma ChildRowOpen(s: Files, child: int)
    requires Sound(s) && s.forking.Some? && s.forking.value.child == child
    ensures RowOpen(s, child * NR_FILES)
  {
    var (q, c) := (s.forking.value.parent * NR_FILES, child * NR_FILES);
    forall i | c <= i < c + NR_FILES
      ensures s.filps[i] == NIL || (0 <= s.filps[i] < NR_FILE_DESC && 0 <= s.descs[s.filps[i]].inode < NR_INODE)
    {
      assert s.filps[i] == s.counted[i - c + q] && s.counted[i - c + q] in multiset(s.counted);
    }
  }

  /** A child starts with the parent's open slots, counted once the file system has been told. */
  lemma ForkKeeps(s: Files, child: int)
    requires Sound(s) && s.forking.Some? && s.forking.value.child == child
    ensures Gentle(s, ForkCounted(s, child)) && ForkCounted(s, child).filps == s.filps
  {
    ChildRowOpen(s, child);
    CountRowKeeps(s, child * NR_FILES, NR_FILES);
    var r := CountRow(s, child * NR_FILES, NR_FILES);
    assert r.counted == s.filps;
  }

  lemma ForkCopyKeeps(s: Files, parent: int, child: int)
    requires Sound(s) && s.forking.None? && Slot(parent) && Slot(child) && parent != child && RowEmpty(s.filps, child)
    ensures var s' := ForkCopied(s, parent, child);
            Sound(s') && KeepsLeaks(s, s') && (NumbersTaken(s) ==> NumbersTaken(s'))
  {
    forall d, x | 0 <= d < NR_FILE_DESC && OpenAs(ForkCopied(s, parent, child), d, x) ensures OpenAs(s, d, x) {
    }
  }

  lemma ResizeKeeps(s: Files, k: int, size: int)
    requires Sound(s) && 0 <= k < NR_INODE && s.inodes[k].cnt > 0
    ensures var s' := Resized(s, k, size);
            Sound(s') && KeepsLeaks(s, s') && (NumbersTaken(s) ==> NumbersTaken(s'))
  {
    SyncKeepsCoherent(s.inodes, s.disk, k, s.inodes[k].(node := s.inodes[k].node.(size := size)));
    forall d, x | 0 <= d < NR_FILE_DESC && OpenAs(Resized(s, k, size), d, x) ensures OpenAs(s, d, x) {
    }
  }

  // ------------------------------------------------------------------ positions

  /** A slot in use refers to a descriptor with a live i-node, also while a fork is under way. */
  lemma SlotRefers(s: Files, i: int)
    requires Sound(s) && 0 <= i < |s.filps| && s.filps[i] != NIL
    ensures var d := s.filps[i];
            0 <= d < NR_FILE_DESC && 0 <= s.descs[d].inode < NR_INODE && s.inodes[s.descs[d].inode].cnt > 0
  {
    var j := if s.forking.None? then i else
      var (q, c) := (s.forking.value.parent * NR_FILES, s.forking.value.child * NR_FILES);
      if c <= i < c + NR_FILES then i - c + q else i;
    assert s.filps[i] == s.counted[j] && s.counted[j] in multiset(s.counted);
    RefSumAtLeast(s.descs, s.filps[i], s.descs[s.filps[i]].inode);
  }

  lemma RepositionKeeps(s: Files, i: int, pos: int)
    requires Sound(s) && 0 <= i < |s.filps| && s.filps[i] != NIL
    ensures 0 <= s.filps[i] < NR_FILE_DESC && Gentle(s, Repositioned(s, i, pos))
  {
    SlotRefers(s, i);
    var (d, s') := (s.filps[i], Repositioned(s, i, pos));
    forall k | 0 <= k < NR_INODE {
      RefSumUpdate(s.descs, d, s'.descs[d], k);
    }
  }
}
