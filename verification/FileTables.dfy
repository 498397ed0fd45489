/** The tables of the file system as fs/ changes them in place; each method is one of the steps of FileTable. */
module FileTables {
  import opened FileProofs
  import opened FileTable
  import opened Wrappers

  const SEEK_SET := 1
  const SEEK_CUR := 2
  const SEEK_END := 3

  class Tables {
    const inodes: array<Inode>        // inode_table
    const descs: array<Desc>          // f_desc_table
    const filp: array<int>            // proc_table[p].filp[f], at p * NR_FILES + f
    const disk: array<seq<Node>>
    const bits: array<bool>           // the i-node map
    ghost var counted: seq<int>
    ghost var forking: Option<Fork>

    ghost predicate Sized()
      reads this, inodes, descs, filp, disk, bits
    {
      && inodes.Length == NR_INODE && descs.Length == NR_FILE_DESC
      && filp.Length == |counted| == NR_SLOTS * NR_FILES
      && inodes as object != descs && inodes as object != filp && inodes as object != disk && inodes as object != bits
      && descs as object != filp && descs as object != disk && descs as object != bits
      && filp as object != disk && filp as object != bits && disk as object != bits
      && WholeSectors(disk[..]) && 0 < bits.Length == PER_SECTOR * disk.Length && bits[0]
    }

    ghost function Abs(): Files
      reads this, inodes, descs, filp, disk, bits
    {
      Files(filp[..], counted, descs[..], inodes[..], disk[..], bits[..], forking)
    }

    /**
     init_fs on the i-node array that mkfs starts from: empty tables, the i-nodes of the root directory, the
     terminals and cmd.tar, the i-node map, and one reference to the root.
     */
    constructor (sectors: seq<seq<Node>>, firstSect: int)
      requires WholeSectors(sectors) && |sectors| > 0
      ensures Sized() && Abs() == Initial(sectors, firstSect)
    {
      filp := new int[NR_SLOTS * NR_FILES](i => NIL);
      descs := new Desc[NR_FILE_DESC](i => Desc(0, 0, 0, NIL));
      var root := 0;
      inodes := new Inode[NR_INODE](i => if i == root then Inode(MkfsNodes(firstSect)[0], 1, 1) else NO_INODE);
      var written := [MkfsNodes(firstSect) + sectors[0][MKFS_INODES..]] + sectors[1..];
      disk := new seq<Node>[|sectors|](i requires 0 <= i < |written| => written[i]);
      bits := new bool[PER_SECTOR * |sectors|](i => i <= MKFS_INODES);
      counted := seq(NR_SLOTS * NR_FILES, i => NIL);
      forking := None;
      new;
      assert disk[..] == written && filp[..] == counted;
      assert bits[..] == Initial(sectors, firstSect).bits;
      assert inodes[..] == Initial(sectors, firstSect).inodes;
      assert descs[..] == Initial(sectors, firstSect).descs;
      assert filp[..] == Initial(sectors, firstSect).filps;
    }

    /** get_inode; k is null for i-node 0, and `ok` is false when the cache is full. */
    method GetInode(num: int) returns (k: int, ok: bool)
      requires Sized() && (num == 0 || Num(disk[..], num))
      modifies inodes
      ensures Sized()
      ensures num == 0 ==> ok && k == NIL && Abs() == old(Abs())
      ensures num != 0 ==> (ok <==> Get(old(Abs()), num).Some?)
      ensures num != 0 && ok ==> Held(Abs(), k) == Get(old(Abs()), num).value
    {
      if num == 0 {
        return NIL, true;
      }
      ghost var ns := inodes[..];
      var q := NIL;
      var p := 0;
      while p < NR_INODE
        invariant 0 <= p <= NR_INODE && inodes[..] == ns && LiveSlot(ns, num, 0) == LiveSlot(ns, num, p)
        invariant EmptySlot(ns, 0) == if q == NIL then EmptySlot(ns, p) else q
        invariant q == NIL || 0 <= q < NR_INODE
      {
        if inodes[p].cnt != 0 {
          if inodes[p].num == num {
            inodes[p] := Bumped(inodes[p], 1);
            assert inodes[..] == ns[p := Bumped(ns[p], 1)];
            return p, true;
          }
        } else if q == NIL {
          q := p;
        }
        p := p + 1;
      }
      if q == NIL {
        return NIL, false;
      }
      inodes[q] := Inode(disk[(num - 1) / PER_SECTOR][(num - 1) % PER_SECTOR], 1, num);
      assert inodes[..] == ns[q := Inode(NodeAt(disk[..], num), 1, num)];
      return q, true;
    }

    /** put_inode */
    method PutInode(k: int)
      requires Sized() && 0 <= k < NR_INODE
      modifies inodes
      ensures Sized() && Abs() == Released(old(Abs()), k)
    {
      ghost var ns := inodes[..];
      inodes[k] := Bumped(inodes[k], -1);
      assert inodes[..] == ns[k := Bumped(ns[k], -1)];
    }

    /** The fields of a slot set, and sync_inode. */
    method SetAndSync(k: int, n: Inode)
      requires Sized() && 0 <= k < NR_INODE && Num(disk[..], n.num)
      modifies inodes, disk
      ensures Sized() && Abs() == Synced(old(Abs()), k, n)
    {
      ghost var ns, ds := inodes[..], disk[..];
      inodes[k] := n;
      var s := (n.num - 1) / PER_SECTOR;
      var buffer := disk[s];
      buffer := buffer[(n.num - 1) % PER_SECTOR := n.node];
      disk[s] := buffer;
      assert inodes[..] == ns[k := n] && disk[..] == WithNode(ds, n.num, n.node);
    }

    /** alloc_imap_bit; it returns 0 when the map is full. */
    method AllocBit() returns (num: int)
      requires Sized()
      modifies bits
      ensures Sized()
      ensures var b := ClearBit(old(bits[..]), 0);
              if b == bits.Length then num == 0 && Abs() == old(Abs())
              else num == b && Abs() == old(Abs()).(bits := old(bits[..])[b := true])
    {
      ghost var was := bits[..];
      var i := 0;
      while i < bits.Length
        invariant 0 <= i <= bits.Length && bits[..] == was && ClearBit(was, 0) == ClearBit(was, i)
      {
        if !bits[i] {
          bits[i] := true;
          assert bits[..] == was[i := true];
          return i;
        }
        i := i + 1;
      }
      num := 0;
    }

    /** alloc_imap_bit and new_inode; `ok` is false when there is no number, or no slot for it. */
    method NewInode(mode: int, startSect: int) returns (k: int, ok: bool)
      requires Sized()
      modifies inodes, disk, bits
      ensures Sized()
      ensures ok <==> New(old(Abs()), mode, startSect).Some?
      ensures ok ==> Held(Abs(), k) == New(old(Abs()), mode, startSect).value
    {
      var num := AllocBit();
      k, ok := GetInode(num);
      if k == NIL || !ok {
        return NIL, false;
      }
      SetAndSync(k, Inode(Node(mode, 0, startSect, 2048), 1, num));
    }

    /** The first unused slot of filp[] for process p; NR_FILES when there is none. */
    method FirstFd(p: int) returns (fd: nat)
      requires Sized() && Slot(p)
      ensures fd == FreeFd(filp[..], p * NR_FILES, 0)
    {
      fd := 0;
      while fd < NR_FILES && filp[p * NR_FILES + fd] != NIL
        invariant fd <= NR_FILES && FreeFd(filp[..], p * NR_FILES, 0) == FreeFd(filp[..], p * NR_FILES, fd)
      {
        fd := fd + 1;
      }
    }

    method FirstDesc() returns (d: nat)
      requires Sized()
      ensures d == FreeDesc(descs[..], 0)
    {
      d := 0;
      while d < NR_FILE_DESC && descs[d].inode != NIL
        invariant d <= NR_FILE_DESC && FreeDesc(descs[..], 0) == FreeDesc(descs[..], d)
      {
        d := d + 1;
      }
    }

    /**
     do_open, once the path has been looked up: `path` tells whether strip_path accepts it, `found` is the i-node
     number or 0, and `startSect` the sectors a new file would get. Returns the descriptor or -1; `ok` is false
     when the system halts.
     */
    method DoOpen(p: int, path: bool, found: int, create: bool, flags: int, startSect: int)
      returns (fd: int, ok: bool)
      requires Sized() && Slot(p) && (found == 0 || (path && Num(disk[..], found)))
      modifies this`counted, inodes, descs, filp, disk, bits
      ensures Sized()
      ensures var s := old(Abs());
              if FreeFd(s.filps, p * NR_FILES, 0) == NR_FILES || FreeDesc(s.descs, 0) == NR_FILE_DESC then !ok
              else if !path || create == (found != 0) then ok && fd == -1 && Abs() == s
              else
                var r := if create then Create(s, p, flags, startSect) else Open(s, p, found, flags);
                (ok <==> r.Some?) && (ok ==> Abs() == r.value && fd == FreeFd(s.filps, p * NR_FILES, 0))
    {
      fd := FirstFd(p);
      if fd >= NR_FILES {
        return -1, false;
      }
      var i := FirstDesc();
      if i >= NR_FILE_DESC {
        return -1, false;
      }
      var pin := NIL;
      if create {
        if found != 0 {
          return -1, true;
        }
        if !path {
          return -1, true;
        }
        pin, ok := NewInode(I_REGULAR, startSect);
      } else {
        if !path {
          return -1, true;
        }
        pin, ok := GetInode(found);
      }
      if !ok || pin == NIL {
        return -1, ok;
      }
      Connect(p * NR_FILES + fd, i, pin, flags);
    }

    /** The end of do_open. */
    method Connect(i: int, d: int, k: int, flags: int)
      requires Sized() && 0 <= i < filp.Length && 0 <= d < NR_FILE_DESC
      modifies this`counted, descs, filp
      ensures Sized() && Abs() == Connected(old(Abs()), i, d, k, flags)
    {
      ghost var fs, ds := filp[..], descs[..];
      filp[i] := d;
      descs[d] := Desc(flags, 0, 1, k);
      counted := counted[i := d];
      assert filp[..] == fs[i := d] && descs[..] == ds[d := Desc(flags, 0, 1, k)];
    }

    /** do_mkdir, once the path has been looked up; it is not checked whether there is such a file already. */
    method DoMkdir(path: bool, startSect: int) returns (made: bool, ok: bool)
      requires Sized()
      modifies inodes, disk, bits
      ensures Sized()
      ensures !path ==> ok && !made && Abs() == old(Abs())
      ensures path ==> (ok <==> Mkdir(old(Abs()), startSect).Some?)
      ensures path && ok ==> made && Abs() == Mkdir(old(Abs()), startSect).value
    {
      if !path {
        return false, true;
      }
      var k;
      k, ok := NewInode(I_DIRECTORY, startSect);
      made := ok;
      if ok {
        PutInode(k);
      }
    }

    /** What do_close, and each round of fs_exit, does with an open slot. */
    method Detach(i: int)
      requires Sized() && 0 <= i < filp.Length && 0 <= filp[i] < NR_FILE_DESC && 0 <= descs[filp[i]].inode < NR_INODE
      modifies this`counted, inodes, descs, filp
      ensures Sized() && Abs() == DetachOne(old(Abs()), i)
    {
      ghost var fs, ds, ns := filp[..], descs[..], inodes[..];
      var d := filp[i];
      var k := descs[d].inode;
      inodes[k] := Bumped(inodes[k], -1);
      descs[d] := descs[d].(cnt := descs[d].cnt - 1);
      if descs[d].cnt == 0 {
        descs[d] := descs[d].(inode := NIL);
      }
      filp[i] := NIL;
      counted := counted[i := NIL];
      assert filp[..] == fs[i := NIL] && inodes[..] == ns[k := Bumped(ns[k], -1)];
      assert descs[..] == ds[d := ds[d].(cnt := ds[d].cnt - 1, inode := if ds[d].cnt == 1 then NIL else k)];
    }

    method DoClose(p: int, fd: int)
      requires Sized() && Slot(p) && 0 <= fd < NR_FILES
      requires 0 <= filp[p * NR_FILES + fd] < NR_FILE_DESC && 0 <= descs[filp[p * NR_FILES + fd]].inode < NR_INODE
      modifies this`counted, inodes, descs, filp
      ensures Sized() && Abs() == DetachOne(old(Abs()), p * NR_FILES + fd)
    {
      Detach(p * NR_FILES + fd);
    }

    method FsExit(p: int)
      requires Sized() && Sound(Abs()) && Slot(p) && !InFork(Abs(), p)
      modifies this`counted, inodes, descs, filp
      ensures Sized() && Abs() == DetachRow(old(Abs()), p * NR_FILES, NR_FILES)
    {
      ghost var s := Abs();
      for f := 0 to NR_FILES
        invariant Sized() && Abs() == DetachRow(s, p * NR_FILES, f)
      {
        NextGivenUp(p, f, s);
      }
    }

    method NextGivenUp(p: int, f: int, ghost s: Files)
      requires Sized() && Sound(s) && Slot(p) && !InFork(s, p) && 0 <= f < NR_FILES
      requires Abs() == DetachRow(s, p * NR_FILES, f)
      modifies this`counted, inodes, descs, filp
      ensures Sized() && Abs() == DetachRow(s, p * NR_FILES, f + 1)
    {
      ExitSlotRefers(s, p, f);
      ExitSlot(p * NR_FILES + f);
    }

    /** A round of fs_exit. */
    method ExitSlot(i: int)
      requires Sized() && 0 <= i < filp.Length
      requires filp[i] == NIL || (0 <= filp[i] < NR_FILE_DESC && 0 <= descs[filp[i]].inode < NR_INODE)
      modifies this`counted, inodes, descs, filp
      ensures Sized() && Abs() == DetachOne(old(Abs()), i)
    {
      if filp[i] != NIL {
        Detach(i);
      }
    }

    /** What do_fork does to the open slots, before the file system is told. */
    method ForkCopy(parent: int, child: int)
      requires Sized() && Slot(parent) && Slot(child) && parent != child
      modifies this`forking, filp
      ensures Sized() && Abs() == ForkCopied(old(Abs()), parent, child)
    {
      var (c, q) := (child * NR_FILES, parent * NR_FILES);
      ghost var fs := filp[..];
      assert filp[..] == Inherited(fs, q, c, 0);
      for f := 0 to NR_FILES
        invariant filp[..] == Inherited(fs, q, c, f)
      {
        InheritedNext(fs, q, c, f);
        assert filp[q + f] == filp[..][q + f];
        filp[c + f] := filp[q + f];
        assert filp[..] == Inherited(fs, q, c, f)[c + f := fs[q + f]];
      }
      forking := Some(Fork(parent, child));
    }

    method FsFork(child: int)
      requires Sized() && Sound(Abs()) && forking.Some? && forking.value.child == child
      modifies this`counted, this`forking, inodes, descs
      ensures Sized() && Abs() == ForkCounted(old(Abs()), child)
    {
      ghost var s := Abs();
      for f := 0 to NR_FILES
        invariant Sized() && Abs() == CountRow(s, child * NR_FILES, f)
      {
        NextCounted(child, f, s);
      }
      forking := None;
    }

    method NextCounted(child: int, f: int, ghost s: Files)
      requires Sized() && Sound(s) && s.forking.Some? && s.forking.value.child == child && 0 <= f < NR_FILES
      requires Abs() == CountRow(s, child * NR_FILES, f)
      modifies this`counted, inodes, descs
      ensures Sized() && Abs() == CountRow(s, child * NR_FILES, f + 1)
    {
      ChildSlotRefers(s, child, f);
      CountSlot(child * NR_FILES + f);
    }

    /** A round of fs_fork. */
    method CountSlot(i: int)
      requires Sized() && 0 <= i < filp.Length
      requires filp[i] == NIL || (0 <= filp[i] < NR_FILE_DESC && 0 <= descs[filp[i]].inode < NR_INODE)
      modifies this`counted, inodes, descs
      ensures Sized() && Abs() == CountOne(old(Abs()), i)
    {
      var d := filp[i];
      if d != NIL {
        ghost var ds, ns := descs[..], inodes[..];
        descs[d] := descs[d].(cnt := descs[d].cnt + 1);
        var k := descs[d].inode;
        inodes[k] := Bumped(inodes[k], 1);
        counted := counted[i := d];
        assert inodes[..] == ns[k := Bumped(ns[k], 1)] && descs[..] == ds[d := ds[d].(cnt := ds[d].cnt + 1)];
      }
    }

    /** do_unlink from the look-up of the i-node on, without the sector map; `ok` is false when the system halts. */
    method DoUnlink(num: int) returns (removed: bool, ok: bool)
      requires Sized() && Num(disk[..], num)
      modifies inodes, disk, bits
      ensures Sized()
      ensures ok <==> Unlink(old(Abs()), num).Some?
      ensures ok ==> Abs() == Unlink(old(Abs()), num).value && (removed <==> !Refused(old(Abs()), num))
    {
      var pin;
      pin, ok := GetInode(num);
      if !ok {
        return false, false;
      }
      var n := inodes[pin];
      if n.node.mode != I_REGULAR && n.node.mode == I_DIRECTORY && n.node.size != 0 {
        return false, true;
      }
      if n.cnt > 1 && n.node.mode != I_DIRECTORY {
        return false, true;
      }
      if num >= bits.Length || !bits[num] {
        return false, false;
      }
      ghost var was := bits[..];
      bits[num] := false;
      assert bits[..] == was[num := false];
      SetAndSync(pin, Inode(Node(0, 0, 0, 0), n.cnt, num));
      PutInode(pin);
      removed := true;
    }

    /** do_lseek; without effect, and -1, for another whence or a position outside the file. */
    method DoLseek(p: int, fd: int, off: int, whence: int) returns (pos: int)
      requires Sized() && Slot(p) && 0 <= fd < NR_FILES
      requires 0 <= filp[p * NR_FILES + fd] < NR_FILE_DESC && 0 <= descs[filp[p * NR_FILES + fd]].inode < NR_INODE
      modifies descs
      ensures Sized()
      ensures var (s, i) := (old(Abs()), p * NR_FILES + fd);
              var d := s.descs[s.filps[i]];
              var size := s.inodes[d.inode].node.size;
              var base := if whence == SEEK_SET then 0 else if whence == SEEK_CUR then d.pos else size;
              if SEEK_SET <= whence <= SEEK_END && 0 <= base + off <= size
              then pos == base + off && Abs() == Repositioned(s, i, pos)
              else pos == -1 && Abs() == s
    {
      ghost var ds := descs[..];
      var d := filp[p * NR_FILES + fd];
      pos := descs[d].pos;
      var size := inodes[descs[d].inode].node.size;
      if whence == SEEK_SET {
        pos := off;
      } else if whence == SEEK_CUR {
        pos := pos + off;
      } else if whence == SEEK_END {
        pos := size + off;
      } else {
        return -1;
      }
      if pos > size || pos < 0 {
        return -1;
      }
      descs[d] := descs[d].(pos := pos);
      assert descs[..] == ds[d := ds[d].(pos := pos)];
    }

    /** The size of a live i-node changed and written through. */
    method SetSize(k: int, size: int)
      requires Sized() && 0 <= k < NR_INODE && Num(disk[..], inodes[k].num)
      modifies inodes, disk
      ensures Sized() && Abs() == Resized(old(Abs()), k, size)
    {
      SetAndSync(k, inodes[k].(node := inodes[k].node.(size := size)));
    }
  }

  predicate Refers(s: Files, i: int)
    requires 0 <= i < |s.filps| && |s.descs| == NR_FILE_DESC
  {
    s.filps[i] == NIL || (0 <= s.filps[i] < NR_FILE_DESC && 0 <= s.descs[s.filps[i]].inode < NR_INODE)
  }

  /** An open slot outside a fork has a descriptor with an i-node. */
  lemma OpenSlotRefers(s: Files, p: int, f: int)
    requires Sound(s) && Slot(p) && 0 <= f < NR_FILES && !InFork(s, p)
    ensures Refers(s, p * NR_FILES + f)
  {
    var i := p * NR_FILES + f;
    SettledSet(s, s.(filps := s.filps[i := NIL], counted := s.counted[i := NIL]), p, f, NIL);
    assert s.counted[i] in multiset(s.counted);
  }

  lemma ExitSlotRefers(s: Files, p: int, f: int)
    requires Sound(s) && Slot(p) && 0 <= f < NR_FILES && !InFork(s, p)
    ensures |DetachRow(s, p * NR_FILES, f).descs| == NR_FILE_DESC
    ensures Refers(DetachRow(s, p * NR_FILES, f), p * NR_FILES + f)
  {
    DetachRowKeeps(s, p, f);
    OpenSlotRefers(DetachRow(s, p * NR_FILES, f), p, f);
  }

  lemma ChildSlotRefers(s: Files, child: int, f: int)
    requires Sound(s) && s.forking.Some? && s.forking.value.child == child && 0 <= f < NR_FILES
    ensures |CountRow(s, child * NR_FILES, f).descs| == NR_FILE_DESC
    ensures Refers(CountRow(s, child * NR_FILES, f), child * NR_FILES + f)
  {
    ChildRowOpen(s, child);
    CountRowKeeps(s, child * NR_FILES, f);
  }
}
