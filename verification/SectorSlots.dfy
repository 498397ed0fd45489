/** What runs of allocating and freeing do to the sector map, and when a run is handed out twice. */
module SectorSlots {
  import FileData
  import opened SectorMap

  const SLOT_BYTES := 256   // NR_DEFAULT_FILE_SECTS / 8

  // ------------------------------------------------------------------ one allocation undone

  /** All the map bits in [from, to) are clear. */
  ghost predicate AllClear(d: Disk, base: int, from: int, to: int)
    requires Sectors(d)
  {
    forall s, b, k :: 0 <= s < |d| && 0 <= b < SECTOR_SIZE && 0 <= k < 8 ==>
      (from <= Pos(base, s, b, k) < to ==> !Bit(d[s][b], k))
  }

  lemma SameDisk(d: Disk, e: Disk)
    requires |d| == |e| && Sectors(d) && Sectors(e)
    requires forall s, b, k :: 0 <= s < |d| && 0 <= b < SECTOR_SIZE && 0 <= k < 8 ==>
               (Bit(d[s][b], k) <==> Bit(e[s][b], k))
    ensures d == e
  {
    forall s | 0 <= s < |d| ensures d[s] == e[s] {
      forall b | 0 <= b < SECTOR_SIZE ensures d[s][b] == e[s][b] {
        SameBits(d[s][b], e[s][b]);
      }
    }
  }

  /**
   Freeing what was just allocated restores the disk bit for bit exactly when the bytes taken were really
   free. alloc_smap_bit has looked only at the first of them.
   */
  lemma FreeUndoesAlloc(d: Disk, d': Disk, d'': Disk, base: int, from: int, nr: nat)
    requires nr >= 1 && Filled(d, d', base, from, from + nr) && Cleared(d', d'', base, from, from + nr)
    ensures d'' == d <==> AllClear(d, base, from, RoundUp(from + nr))
  {
    FilledBits(d, d', base, from, from + nr);
    if AllClear(d, base, from, RoundUp(from + nr)) {
      SameDisk(d, d'');
    } else {
      var s, b, k :| 0 <= s < |d| && 0 <= b < SECTOR_SIZE && 0 <= k < 8
        && from <= Pos(base, s, b, k) < RoundUp(from + nr) && Bit(d[s][b], k);
      assert !Bit(d''[s][b], k);
    }
  }

  /** The bit at which do_unlink starts to clear, from the first sector of the file. */
  function BitOfSector(sector: int, n1st: int): int { sector - n1st + 1 }

  // ------------------------------------------------------------------ a map of whole slots

  /**
   From byte b0 on, the map is made of n whole slots: all ones for the live ones and zero for the others.
   No byte before b0 is zero.
   */
  ghost predicate Slotted(d: Disk, base: int, b0: nat, n: nat, live: set<nat>) {
    && Sectors(d) && 0 <= base && b0 + SLOT_BYTES * n <= SECTOR_SIZE * (|d| - base)
    && (forall u :: u in live ==> u < n)
    && NonzeroBelow(d, base, b0)
    && forall s, b :: 0 <= s < |d| && 0 <= b < SECTOR_SIZE && b0 <= BytePos(base, s, b) < b0 + SLOT_BYTES * n ==>
         d[s][b] == SlotByte((BytePos(base, s, b) - b0) / SLOT_BYTES, live)
  }

  function SlotByte(u: int, live: set<nat>): bv8 { if u >= 0 && u in live then 0xFF else 0 }

  function SlotStart(b0: nat, u: nat): nat { 8 * (b0 + SLOT_BYTES * u) }

  ghost predicate LowestFree(live: set<nat>, u: nat) {
    u !in live && forall v: nat :: v < u ==> v in live
  }

  lemma ByteExists(d: Disk, base: int, j: nat) returns (s: int, b: int)
    requires 0 <= base && j < SECTOR_SIZE * (|d| - base)
    ensures 0 <= s < |d| && 0 <= b < SECTOR_SIZE && BytePos(base, s, b) == j
  {
    s, b := base + j / SECTOR_SIZE, j % SECTOR_SIZE;
  }

  /** The first zero byte is where the lowest free slot begins. */
  lemma FirstZeroIsLowestFree(d: Disk, base: int, b0: nat, n: nat, live: set<nat>, u: nat, z: int)
    requires Slotted(d, base, b0, n, live) && LowestFree(live, u) && u < n && FirstZero(d, base, z)
    ensures z == b0 + SLOT_BYTES * u
  {
    var s, b := ByteExists(d, base, b0 + SLOT_BYTES * u);
    assert d[s][b] == 0;
    var s', b' :| 0 <= s' < |d| && 0 <= b' < SECTOR_SIZE && BytePos(base, s', b') == z && d[s'][b'] == 0;
    assert z >= b0;
    var v := (z - b0) / SLOT_BYTES;
    assert z < b0 + SLOT_BYTES * u ==> v < u;
  }

  /** Bits and whole bytes of a filled or cleared slot. */
  lemma SlotBits(v: bv8, full: bool)
    requires forall k :: 0 <= k < 8 ==> (Bit(v, k) <==> full)
    ensures v == if full then 0xFF else 0
  {
    if full {
      AllOnes(v);
    } else {
      assert forall k :: 0 <= k < 8 ==> !Bit(0, k);
      SameBits(v, 0);
    }
  }

  /** The bytes of slot u become v, and nothing else in the slots or before them changes. */
  ghost predicate SlotBecomes(d: Disk, d': Disk, base: int, b0: nat, n: nat, u: nat, v: bv8) {
    && Sectors(d) && Sectors(d') && |d'| == |d|
    && forall s, b :: 0 <= s < |d| && 0 <= b < SECTOR_SIZE && 0 <= BytePos(base, s, b) < b0 + SLOT_BYTES * n ==>
         d'[s][b] == if b0 + SLOT_BYTES * u <= BytePos(base, s, b) < b0 + SLOT_BYTES * (u + 1) then v else d[s][b]
  }

  lemma SlotsAfter(d: Disk, d': Disk, base: int, b0: nat, n: nat, live: set<nat>, live': set<nat>, u: nat)
    requires Slotted(d, base, b0, n, live) && u < n
    requires SlotBecomes(d, d', base, b0, n, u, if u in live' then 0xFF else 0)
    requires live' == live + {u} || live' == live - {u}
    ensures Slotted(d', base, b0, n, live')
  {
  }

  /** A byte in a run of whole bytes that is filled, or outside it. */
  lemma ByteTaken(d: Disk, d': Disk, base: int, from: int, to: int, s: int, b: int)
    requires Filled(d, d', base, 8 * from, 8 * to) && 0 <= s < |d| && 0 <= b < SECTOR_SIZE
    ensures d'[s][b] == if from <= BytePos(base, s, b) < to then 0xFF else d[s][b]
  {
    RoundUpByte(to, 1);
    forall k | 0 <= k < 8
      ensures Bit(d'[s][b], k) <==> from <= BytePos(base, s, b) < to || Bit(d[s][b], k)
    {
      assert FilledAt(d, d', base, 8 * from, 8 * to, RoundUp(8 * to), s, b, k);
    }
    if from <= BytePos(base, s, b) < to {
      SlotBits(d'[s][b], true);
    } else {
      SameBits(d'[s][b], d[s][b]);
    }
  }

  lemma ByteFreed(d: Disk, d': Disk, base: int, from: int, to: int, s: int, b: int)
    requires Cleared(d, d', base, 8 * from, 8 * to) && 0 <= s < |d| && 0 <= b < SECTOR_SIZE
    ensures d'[s][b] == if from <= BytePos(base, s, b) < to then 0 else d[s][b]
  {
    forall k | 0 <= k < 8
      ensures Bit(d'[s][b], k) <==> !(from <= BytePos(base, s, b) < to) && Bit(d[s][b], k)
    {
      assert Pos(base, s, b, k) == 8 * BytePos(base, s, b) + k;
    }
    if from <= BytePos(base, s, b) < to {
      SlotBits(d'[s][b], false);
    } else {
      SameBits(d'[s][b], d[s][b]);
    }
  }

  lemma SlotTaken(d: Disk, d': Disk, base: int, b0: nat, n: nat, live: set<nat>, u: nat)
    requires Slotted(d, base, b0, n, live) && u < n
    requires Filled(d, d', base, SlotStart(b0, u), SlotStart(b0, u) + FILE_SECTS)
    ensures Slotted(d', base, b0, n, live + {u})
  {
    var (from, to) := (b0 + SLOT_BYTES * u, b0 + SLOT_BYTES * (u + 1));
    assert Filled(d, d', base, 8 * from, 8 * to);
    forall s, b | 0 <= s < |d| && 0 <= b < SECTOR_SIZE && 0 <= BytePos(base, s, b) < b0 + SLOT_BYTES * n
      ensures d'[s][b] == if from <= BytePos(base, s, b) < to then 0xFF else d[s][b]
    {
      ByteTaken(d, d', base, from, to, s, b);
    }
    SlotsAfter(d, d', base, b0, n, live, live + {u}, u);
  }

  lemma SlotFreed(d: Disk, d': Disk, base: int, b0: nat, n: nat, live: set<nat>, u: nat)
    requires Slotted(d, base, b0, n, live) && u < n
    requires Cleared(d, d', base, SlotStart(b0, u), SlotStart(b0, u) + FILE_SECTS)
    ensures Slotted(d', base, b0, n, live - {u})
  {
    var (from, to) := (b0 + SLOT_BYTES * u, b0 + SLOT_BYTES * (u + 1));
    assert Cleared(d, d', base, 8 * from, 8 * to);
    forall s, b | 0 <= s < |d| && 0 <= b < SECTOR_SIZE && 0 <= BytePos(base, s, b) < b0 + SLOT_BYTES * n
      ensures d'[s][b] == if from <= BytePos(base, s, b) < to then 0 else d[s][b]
    {
      ByteFreed(d, d', base, from, to, s, b);
    }
    SlotsAfter(d, d', base, b0, n, live, live - {u}, u);
  }

  // ------------------------------------------------------------------ runs

  datatype Op = Alloc(u: nat) | Free(u: nat)   // a file created in slot u, the file of slot u removed

  function LiveStep(live: set<nat>, op: Op): set<nat> {
    match op
    case Alloc(u) => live + {u}
    case Free(u) => live - {u}
  }

  /** The slots in use after ops. */
  function LiveAfter(ops: seq<Op>, live: set<nat>): set<nat> {
    if ops == [] then live else LiveStep(LiveAfter(ops[..|ops| - 1], live), ops[|ops| - 1])
  }

  /** One operation as the code performs it: it takes the first zero byte, or clears the run of a live file. */
  ghost predicate OpStep(d: Disk, d': Disk, op: Op, base: int, b0: nat, live: set<nat>) {
    Sectors(d) && match op
    case Alloc(u) => FirstZero(d, base, SlotStart(b0, u) / 8)
                     && Filled(d, d', base, SlotStart(b0, u), SlotStart(b0, u) + FILE_SECTS)
    case Free(u) => u in live && Cleared(d, d', base, SlotStart(b0, u), SlotStart(b0, u) + FILE_SECTS)
  }

  /** The map bytes below j are the same; i-nodes, directories and files may have been written. */
  ghost predicate SameMap(d: Disk, d': Disk, base: int, j: int) {
    && Sectors(d) && Sectors(d') && |d'| == |d|
    && forall s, b :: 0 <= s < |d| && 0 <= b < SECTOR_SIZE && 0 <= BytePos(base, s, b) < j ==> d'[s][b] == d[s][b]
  }

  lemma SameMapKeepsSlots(d: Disk, d': Disk, base: int, b0: nat, n: nat, live: set<nat>)
    requires Slotted(d, base, b0, n, live) && SameMap(d, d', base, b0 + SLOT_BYTES * n)
    ensures Slotted(d', base, b0, n, live)
  {
  }

  /** One operation and the disk it starts from and leaves. */
  datatype Step = Step(op: Op, before: Disk, after: Disk)

  function Ops(steps: seq<Step>): (ops: seq<Op>)
    ensures |ops| == |steps| && forall i :: 0 <= i < |steps| ==> ops[i] == steps[i].op
  {
    seq(|steps|, i requires 0 <= i < |steps| => steps[i].op)
  }

  /** The disk that the steps leave. */
  function Last(d: Disk, steps: seq<Step>): Disk { if steps == [] then d else steps[|steps| - 1].after }

  /**
   Operations from disk d on; between them anything but the map may be written, as i-nodes and directories are
   after every allocation.
   */
  ghost predicate Run(d: Disk, steps: seq<Step>, base: int, b0: nat, n: nat, live: set<nat>) {
    steps == [] ||
      var (rest, step) := (steps[..|steps| - 1], steps[|steps| - 1]);
      && Run(d, rest, base, b0, n, live)
      && SameMap(Last(d, rest), step.before, base, b0 + SLOT_BYTES * n)
      && step.op.u < n && OpStep(step.before, step.after, step.op, base, b0, LiveAfter(Ops(rest), live))
  }

  /**
   Over any run the map shows exactly the live slots, and each file is created in the lowest slot that was
   free: no two live files ever share a sector.
   */
  lemma {:induction false} RunKeepsSlots(d: Disk, steps: seq<Step>, base: int, b0: nat, n: nat, live: set<nat>)
    requires Run(d, steps, base, b0, n, live) && Slotted(d, base, b0, n, live)
    ensures Slotted(Last(d, steps), base, b0, n, LiveAfter(Ops(steps), live))
    ensures steps != [] && steps[|steps| - 1].op.Alloc? ==>
              LowestFree(LiveAfter(Ops(steps[..|steps| - 1]), live), steps[|steps| - 1].op.u)
  {
    if steps == [] {
      assert LiveAfter(Ops([]), live) == live;
    } else {
      var (rest, step) := (steps[..|steps| - 1], steps[|steps| - 1]);
      RunKeepsSlots(d, rest, base, b0, n, live);
      var before := LiveAfter(Ops(rest), live);
      assert Ops(steps)[..|steps| - 1] == Ops(rest);
      SameMapKeepsSlots(Last(d, rest), step.before, base, b0, n, before);
      StepKeepsSlots(step.before, step.after, step.op, base, b0, n, before);
    }
  }

  /** Every step of a run does so, not only the last. */
  lemma {:induction false} PrefixIsRun(d: Disk, steps: seq<Step>, i: nat, base: int, b0: nat, n: nat, live: set<nat>)
    requires Run(d, steps, base, b0, n, live) && i <= |steps|
    ensures Run(d, steps[..i], base, b0, n, live)
  {
    if i == |steps| {
      assert steps[..i] == steps;
    } else {
      PrefixIsRun(d, steps[..|steps| - 1], i, base, b0, n, live);
      assert steps[..|steps| - 1][..i] == steps[..i];
    }
  }

  lemma AllocatesLowest(d: Disk, steps: seq<Step>, i: nat, base: int, b0: nat, n: nat, live: set<nat>)
    requires Run(d, steps, base, b0, n, live) && Slotted(d, base, b0, n, live) && i < |steps| && steps[i].op.Alloc?
    ensures LowestFree(LiveAfter(Ops(steps[..i]), live), steps[i].op.u)
  {
    PrefixIsRun(d, steps, i + 1, base, b0, n, live);
    assert steps[..i + 1][..i] == steps[..i];
    RunKeepsSlots(d, steps[..i + 1], base, b0, n, live);
  }

  // ------------------------------------------------------------------ live files as bytes

  /** The first sector of the file in slot u. */
  function SlotSector(b0: nat, u: nat, n1st: int): int { SlotStart(b0, u) - 1 + n1st }

  /** Writing a file in one slot never changes the file in another. */
  lemma FilesStayApart(d: FileData.Bytes, n1st: nat, b0: nat, u: nat, v: nat, pos: nat, data: FileData.Bytes)
    requires u != v && b0 > 0 && pos + |data| <= FILE_SECTS * SECTOR_SIZE
    requires (SlotSector(b0, u, n1st) + FILE_SECTS) * SECTOR_SIZE <= |d|
    requires (SlotSector(b0, v, n1st) + FILE_SECTS) * SECTOR_SIZE <= |d|
    ensures var (x, y) := (SlotSector(b0, u, n1st), SlotSector(b0, v, n1st));
            var d' := FileData.Splice(d, x * SECTOR_SIZE + pos, data);
            && FileData.Content(d', y, FILE_SECTS) == FileData.Content(d, y, FILE_SECTS)
            && FileData.Content(d', x, FILE_SECTS) == FileData.Splice(FileData.Content(d, x, FILE_SECTS), pos, data)
  {
    FileData.FilesAreFlat(d, SlotSector(b0, u, n1st), FILE_SECTS, pos, data, SlotSector(b0, v, n1st), FILE_SECTS);
  }

  lemma StepKeepsSlots(d: Disk, d': Disk, op: Op, base: int, b0: nat, n: nat, live: set<nat>)
    requires Slotted(d, base, b0, n, live) && op.u < n && OpStep(d, d', op, base, b0, live)
    ensures Slotted(d', base, b0, n, LiveStep(live, op))
    ensures op.Alloc? ==> LowestFree(live, op.u)
  {
    match op
    case Alloc(u) =>
      assert SlotStart(b0, u) / 8 == b0 + SLOT_BYTES * u;
      AllocIsLowest(d, base, b0, n, live, u);
      SlotTaken(d, d', base, b0, n, live, u);
    case Free(u) =>
      SlotFreed(d, d', base, b0, n, live, u);
  }

  lemma AllocIsLowest(d: Disk, base: int, b0: nat, n: nat, live: set<nat>, u: nat)
    requires Slotted(d, base, b0, n, live) && u < n && FirstZero(d, base, b0 + SLOT_BYTES * u)
    ensures LowestFree(live, u)
  {
    var s, b := ByteExists(d, base, b0 + SLOT_BYTES * u);
    assert d[s][b] == 0;
    forall v: nat | v < u ensures v in live {
      var s', b' := ByteExists(d, base, b0 + SLOT_BYTES * v);
      assert d[s'][b'] != 0;
    }
  }

  // ------------------------------------------------------------------ the map mkfs leaves behind

  const INSTALL_START_SECT := 0x8000

  /** Where the run of cmd.tar begins in the map. */
  function TarStart(n1st: int): int { INSTALL_START_SECT - n1st + 1 }

  predicate InUse(p: int, n1st: int, u: nat) {
    || p <= FILE_SECTS
    || SlotStart(257, 0) <= p < SlotStart(257, u)
    || TarStart(n1st) <= p < TarStart(n1st) + FILE_SECTS
  }

  /**
   The map as far as the end of cmd.tar: bit 0 and the root directory, then u files of default size from the
   next byte boundary on, and cmd.tar.
   */
  ghost predicate MkfsMap(d: Disk, base: int, n1st: int, u: nat) {
    && Sectors(d)
    && forall s, b, k :: 0 <= s < |d| && 0 <= b < SECTOR_SIZE && 0 <= k < 8
                         && 0 <= Pos(base, s, b, k) < TarStart(n1st) + FILE_SECTS ==>
         (Bit(d[s][b], k) <==> InUse(Pos(base, s, b, k), n1st, u))
  }

  /** Whether map byte b of sector s is that of bit 0 and the root directory. */
  function RootByte(j: int): bv8 { if j < 256 then 0xFF else if j == 256 then 1 else 0 }

  lemma RootBits(j: nat, k: nat)
    requires k < 8
    ensures Bit(RootByte(j), k) <==> 8 * j + k <= FILE_SECTS
  {
    assert forall i :: 0 <= i < 8 ==> Bit(0xFF, i) && !Bit(0, i);
    assert forall i :: 0 <= i < 8 ==> (Bit(1, i) <==> i == 0);
  }

  /** The root directory's bits and those of cmd.tar make the map of mkfs. */
  lemma MkfsMapMade(d: Disk, d': Disk, base: nat, nrMap: nat, n1st: int)
    requires Sectors(d) && nrMap >= 1 && base + nrMap <= |d| && 0 <= TarStart(n1st)
    requires TarStart(n1st) + FILE_SECTS < SECTOR_BITS * nrMap
    requires forall b :: 0 <= b < SECTOR_SIZE ==> d[base][b] == RootByte(b)
    requires forall s, b :: base < s < base + nrMap && 0 <= b < SECTOR_SIZE ==> d[s][b] == 0
    requires Marked(d, d', base, TarStart(n1st), TarStart(n1st) + FILE_SECTS)
    ensures MkfsMap(d', base, n1st, 0)
  {
    forall s, b, k | 0 <= s < |d| && 0 <= b < SECTOR_SIZE && 0 <= k < 8
                     && 0 <= Pos(base, s, b, k) < TarStart(n1st) + FILE_SECTS
      ensures Bit(d'[s][b], k) <==> InUse(Pos(base, s, b, k), n1st, 0)
    {
      assert base <= s < base + nrMap;
      if s == base {
        RootBits(b, k);
      } else {
        assert d[s][b] == RootByte(257);
        RootBits(257, k);
      }
    }
  }

  /** The sector map part of mkfs. */
  method Mkfs(device: SectorDevice, base: nat, nrMap: nat, n1st: int)
    requires device.Valid() && nrMap >= 1 && base + nrMap < device.disk.Length && 0 <= TarStart(n1st)
    requires TarStart(n1st) + FILE_SECTS < SECTOR_BITS * nrMap
    modifies device.disk, device.fsbuf
    ensures device.Valid() && MkfsMap(device.disk[..], base, n1st, 0)
  {
    device.MarkRoot(base, nrMap);
    ghost var d := device.disk[..];
    device.MarkRun(base, TarStart(n1st), FILE_SECTS);
    MkfsMapMade(d, device.disk[..], base, nrMap, n1st);
  }

  lemma BitMakesNonzero(v: bv8, k: nat)
    requires k < 8 && Bit(v, k)
    ensures v != 0
  {
    assert !Bit(0, k);
  }

  lemma MkfsNonzeroBelow(d: Disk, base: int, n1st: int, u: nat)
    requires MkfsMap(d, base, n1st, u) && SlotStart(257, u) <= TarStart(n1st) + FILE_SECTS
    ensures NonzeroBelow(d, base, 257 + SLOT_BYTES * u)
  {
    forall s, b | 0 <= s < |d| && 0 <= b < SECTOR_SIZE && 0 <= BytePos(base, s, b) < 257 + SLOT_BYTES * u
      ensures d[s][b] != 0
    {
      assert Pos(base, s, b, 0) <= FILE_SECTS || SlotStart(257, 0) <= Pos(base, s, b, 0);
      BitMakesNonzero(d[s][b], 0);
    }
  }

  /** While the next slot ends before cmd.tar, a new file takes it. */
  lemma MkfsMapGrows(d: Disk, d': Disk, base: int, n1st: int, u: nat, z: int)
    requires MkfsMap(d, base, n1st, u) && 0 <= base && SlotStart(257, u + 1) <= TarStart(n1st)
    requires SlotStart(257, u + 1) <= SECTOR_BITS * (|d| - base)
    requires FirstZero(d, base, z) && Filled(d, d', base, 8 * z, 8 * z + FILE_SECTS)
    ensures 8 * z == SlotStart(257, u) && MkfsMap(d', base, n1st, u + 1)
  {
    ZeroIsNext(d, base, n1st, u, z);
    assert RoundUp(8 * z + FILE_SECTS) == 8 * z + FILE_SECTS;
    FilledBits(d, d', base, 8 * z, 8 * z + FILE_SECTS);
  }

  /** The slot after the u files is still free, if it begins before cmd.tar. */
  lemma NextIsZero(d: Disk, base: int, n1st: int, u: nat) returns (s: int, b: int)
    requires MkfsMap(d, base, n1st, u) && 0 <= base && SlotStart(257, u) + 8 <= TarStart(n1st)
    requires SlotStart(257, u) + 8 <= SECTOR_BITS * (|d| - base)
    ensures 0 <= s < |d| && 0 <= b < SECTOR_SIZE && BytePos(base, s, b) == 257 + SLOT_BYTES * u && d[s][b] == 0
  {
    s, b := ByteExists(d, base, 257 + SLOT_BYTES * u);
    assert forall k :: 0 <= k < 8 ==> Pos(base, s, b, k) == SlotStart(257, u) + k;
    SlotBits(d[s][b], false);
  }

  lemma ZeroIsNext(d: Disk, base: int, n1st: int, u: nat, z: int)
    requires MkfsMap(d, base, n1st, u) && 0 <= base && SlotStart(257, u) + 8 <= TarStart(n1st)
    requires SlotStart(257, u) + 8 <= SECTOR_BITS * (|d| - base)
    requires FirstZero(d, base, z)
    ensures 8 * z == SlotStart(257, u)
  {
    MkfsNonzeroBelow(d, base, n1st, u);
    var s, b := NextIsZero(d, base, n1st, u);
  }

  lemma TarNonzero(d: Disk, base: int, n1st: int, u: nat)
    requires MkfsMap(d, base, n1st, u) && SlotStart(257, u) <= TarStart(n1st) < SlotStart(257, u) + 8
    ensures forall s, b | 0 <= s < |d| && 0 <= b < SECTOR_SIZE
                       && 0 <= Pos(base, s, b, 0) < TarStart(n1st) + FILE_SECTS :: d[s][b] != 0
  {
    MkfsNonzeroBelow(d, base, n1st, u);
    var c := TarStart(n1st);
    forall s, b | 0 <= s < |d| && 0 <= b < SECTOR_SIZE && SlotStart(257, u) <= Pos(base, s, b, 0) < c + FILE_SECTS
      ensures d[s][b] != 0
    {
      var k := if c <= Pos(base, s, b, 0) then 0 else c - Pos(base, s, b, 0);
      assert Pos(base, s, b, k) == Pos(base, s, b, 0) + k;
      BitMakesNonzero(d[s][b], k);
    }
  }

  /**
   The file that is next to cmd.tar is given sectors of cmd.tar exactly when at least one whole byte of the
   map lies free between the slots and the run of cmd.tar: the rest of the run is not looked at.
   */
  lemma TarOverwritten(d: Disk, base: int, n1st: int, u: nat, z: int)
    requires MkfsMap(d, base, n1st, u) && 0 <= base && FirstZero(d, base, z)
    requires SlotStart(257, u) <= TarStart(n1st) < SlotStart(257, u + 1)
    requires SlotStart(257, u) + 8 <= SECTOR_BITS * (|d| - base)
    ensures (8 * z < TarStart(n1st) + FILE_SECTS && TarStart(n1st) < 8 * z + FILE_SECTS)
       <==> SlotStart(257, u) + 8 <= TarStart(n1st)
  {
    var c, lo := TarStart(n1st), SlotStart(257, u);
    if lo + 8 <= c {
      ZeroIsNext(d, base, n1st, u, z);
    } else {
      TarNonzero(d, base, n1st, u);
      assert 8 * z >= c + FILE_SECTS;
    }
  }

  // ------------------------------------------------------------------ cmd.tar lost

  /** A file that is given sectors of cmd.tar cannot be removed without freeing these. */
  lemma TarNotClear(d: Disk, base: int, n1st: int, u: nat)
    requires MkfsMap(d, base, n1st, u) && 0 <= base && TarStart(n1st) >= 0
    requires SlotStart(257, u) <= TarStart(n1st) < SlotStart(257, u + 1)
    requires TarStart(n1st) < SECTOR_BITS * (|d| - base)
    ensures !AllClear(d, base, SlotStart(257, u), RoundUp(SlotStart(257, u) + FILE_SECTS))
  {
    var c := TarStart(n1st);
    var s, b := ByteExists(d, base, c / 8);
    assert Pos(base, s, b, c % 8) == c && Bit(d[s][b], c % 8);
  }

  lemma TarFreed(d: Disk, d': Disk, d'': Disk, base: int, n1st: int, u: nat)
    requires MkfsMap(d, base, n1st, u) && 0 <= base && TarStart(n1st) >= 0
    requires SlotStart(257, u) <= TarStart(n1st) < SlotStart(257, u + 1)
    requires TarStart(n1st) < SECTOR_BITS * (|d| - base)
    requires Filled(d, d', base, SlotStart(257, u), SlotStart(257, u) + FILE_SECTS)
    requires Cleared(d', d'', base, SlotStart(257, u), SlotStart(257, u) + FILE_SECTS)
    ensures d'' != d
  {
    TarNotClear(d, base, n1st, u);
    FreeUndoesAlloc(d, d', d'', base, SlotStart(257, u), FILE_SECTS);
  }

  const TAR_N1ST := 269    // of a partition of 40257 sectors: 3 + 10 + 256
  const TAR_NR_MAP := 10

  /** One more of the files that still fit before cmd.tar. */
  method CreateFile(device: SectorDevice, base: nat, ghost u: nat) returns (first: int)
    requires device.Valid() && base + TAR_NR_MAP < device.disk.Length && u <= 14
    requires MkfsMap(device.disk[..], base, TAR_N1ST, u)
    modifies device.disk, device.fsbuf
    ensures device.Valid() && BitOfSector(first, TAR_N1ST) == SlotStart(257, u)
    ensures Filled(old(device.disk[..]), device.disk[..], base, SlotStart(257, u), SlotStart(257, u) + FILE_SECTS)
    ensures u < 14 ==> MkfsMap(device.disk[..], base, TAR_N1ST, u + 1)
  {
    ghost var d := device.disk[..];
    ghost var s, b := NextIsZero(d, base, TAR_N1ST, u);
    var ok;
    ghost var z;
    first, ok, z := device.AllocRun(base, TAR_NR_MAP, TAR_N1ST, FILE_SECTS);
    if FirstZero(d, base, z) {
      ZeroIsNext(d, base, TAR_N1ST, u, z);
      if u < 14 && ok {
        MkfsMapGrows(d, device.disk[..], base, TAR_N1ST, u, z);
      }
    }
  }

  /** On a new disk of that size the fifteenth file is given sectors 30996 to 33043, and cmd.tar begins at 32768. */
  method LoseCmdTar(device: SectorDevice, base: nat) returns (first: int)
    requires device.Valid() && base + TAR_NR_MAP < device.disk.Length
    modifies device.disk, device.fsbuf
    ensures device.Valid() && first == 30996 && first <= INSTALL_START_SECT < first + FILE_SECTS
  {
    Mkfs(device, base, TAR_NR_MAP, TAR_N1ST);
    first := 0;
    for u := 0 to 15
      invariant device.Valid() && base + TAR_NR_MAP < device.disk.Length
      invariant u < 15 ==> MkfsMap(device.disk[..], base, TAR_N1ST, u)
      invariant u > 0 ==> BitOfSector(first, TAR_N1ST) == SlotStart(257, u - 1)
    {
      first := CreateFile(device, base, u);
    }
  }

  // ------------------------------------------------------------------ the steps of a run, as the code takes them

  lemma LiveIsSet(d: Disk, base: int, b0: nat, n: nat, live: set<nat>, u: nat)
    requires Slotted(d, base, b0, n, live) && u in live
    ensures AllSet(d, base, SlotStart(b0, u), SlotStart(b0, u) + FILE_SECTS)
  {
    assert forall k :: 0 <= k < 8 ==> Bit(0xFF, k);
  }

  lemma LowestIsZero(d: Disk, base: int, b0: nat, n: nat, live: set<nat>, u: nat)
    requires Slotted(d, base, b0, n, live) && LowestFree(live, u) && u < n
    ensures ZeroAt(d, base, b0 + SLOT_BYTES * u)
  {
    var s, b := ByteExists(d, base, b0 + SLOT_BYTES * u);
    assert d[s][b] == 0;
  }

  /** alloc_smap_bit takes the lowest free slot, while there is one. */
  method TakeSlot(device: SectorDevice, base: nat, nrMap: nat, n1st: int,
                  ghost b0: nat, ghost n: nat, ghost live: set<nat>, ghost u: nat)
    returns (first: int, ok: bool)
    requires device.Valid() && base + nrMap <= device.disk.Length && n1st >= 2
    requires Slotted(device.disk[..], base, b0, n, live) && b0 + SLOT_BYTES * n <= SECTOR_SIZE * nrMap
    requires LowestFree(live, u) && u < n
    modifies device.disk, device.fsbuf
    ensures device.Valid() && ok && first == SlotSector(b0, u, n1st) && BitOfSector(first, n1st) == SlotStart(b0, u)
    ensures OpStep(old(device.disk[..]), device.disk[..], Alloc(u), base, b0, live)
  {
    ghost var d, z := device.disk[..], 0;
    LowestIsZero(d, base, b0, n, live, u);
    first, ok, z := device.AllocRun(base, nrMap, n1st, FILE_SECTS);
    if FirstZero(d, base, z) {
      FirstZeroIsLowestFree(d, base, b0, n, live, u, z);
    }
  }

  /** do_unlink gives the slot of a live file back, from the sector that alloc_smap_bit returned. */
  method GiveSlot(device: SectorDevice, base: nat, n1st: int, first: int,
                  ghost b0: nat, ghost n: nat, ghost live: set<nat>, ghost u: nat)
    requires device.Valid() && Slotted(device.disk[..], base, b0, n, live) && u in live
    requires BitOfSector(first, n1st) == SlotStart(b0, u)
    requires b0 + SLOT_BYTES * n + 2 <= SECTOR_SIZE * (device.disk.Length - base)
    modifies device.disk, device.fsbuf
    ensures device.Valid() && OpStep(old(device.disk[..]), device.disk[..], Free(u), base, b0, live)
  {
    LiveIsSet(device.disk[..], base, b0, n, live, u);
    device.ClearRun(base, first - n1st + 1, FILE_SECTS);
  }
}
