/**
 The sector map on disk: alloc_smap_bit of fs/open.c and the three-phase clear of do_unlink in fs/link.c,
 both reading and writing one sector at a time through the shared buffer fsbuf.
 */
module SectorMap {
  const SECTOR_SIZE := 512
  const SECTOR_BITS := 4096
  const FILE_SECTS := 2048   // NR_DEFAULT_FILE_SECTS

  // ------------------------------------------------------------------ bits of a byte

  predicate Bit(b: bv8, k: nat)
    requires k < 8
  {
    (b >> k) & 1 == 1
  }

  lemma SetBit(b: bv8, i: nat, k: nat)
    requires i < 8 && k < 8
    ensures Bit(b | (1 << i), k) <==> k == i || Bit(b, k)
  {
  }

  lemma SetBits(b: bv8, i: nat, c: bv8)
    requires i < 8 && c == b | (1 << i)
    ensures forall k :: 0 <= k < 8 ==> (Bit(c, k) <==> k == i || Bit(b, k))
  {
    forall k | 0 <= k < 8 { SetBit(b, i, k); }
  }

  lemma ClearBit(b: bv8, i: nat, k: nat)
    requires i < 8 && k < 8
    ensures Bit(b & !(1 << i), k) <==> k != i && Bit(b, k)
  {
  }

  lemma ClearBits(b: bv8, i: nat, c: bv8)
    requires i < 8 && c == b & !(1 << i)
    ensures forall k :: 0 <= k < 8 ==> (Bit(c, k) <==> k != i && Bit(b, k))
  {
    forall k | 0 <= k < 8 { ClearBit(b, i, k); }
  }

  lemma ClearLow(b: bv8, n: nat, k: nat)
    requires n < 8 && k < 8
    ensures Bit(b & (0xFF << n), k) <==> k >= n && Bit(b, k)
  {
  }

  lemma FullMask(b: bv8, n: nat)
    requires n < 8 && forall k :: 0 <= k < n ==> Bit(b, k)
    ensures b & !(0xFF << n) == !(0xFF << n)
  {
    assert 0 < n ==> Bit(b, 0);
    assert 1 < n ==> Bit(b, 1);
    assert 2 < n ==> Bit(b, 2);
    assert 3 < n ==> Bit(b, 3);
    assert 4 < n ==> Bit(b, 4);
    assert 5 < n ==> Bit(b, 5);
    assert 6 < n ==> Bit(b, 6);
  }

  /** Bytes with the same bits are equal. */
  lemma SameBits(a: bv8, b: bv8)
    requires forall k :: 0 <= k < 8 ==> (Bit(a, k) <==> Bit(b, k))
    ensures a == b
  {
    assert Bit(a, 0) == Bit(b, 0) && Bit(a, 1) == Bit(b, 1) && Bit(a, 2) == Bit(b, 2) && Bit(a, 3) == Bit(b, 3);
    assert Bit(a, 4) == Bit(b, 4) && Bit(a, 5) == Bit(b, 5) && Bit(a, 6) == Bit(b, 6) && Bit(a, 7) == Bit(b, 7);
  }

  // ------------------------------------------------------------------ bits of the map

  type Disk = seq<seq<bv8>>

  ghost predicate Sectors(d: Disk) {
    forall s :: 0 <= s < |d| ==> |d[s]| == SECTOR_SIZE
  }

  /** Byte b of sector s, counted from the sector `base` where the map starts. */
  function BytePos(base: int, s: int, b: int): int { (s - base) * SECTOR_SIZE + b }

  function Pos(base: int, s: int, b: int, k: int): int { BytePos(base, s, b) * 8 + k }

  /** d' is d with the map bits in [from, to) cleared; nothing else on the disk differs. */
  ghost predicate Cleared(d: Disk, d': Disk, base: int, from: int, to: int) {
    && |d'| == |d| && Sectors(d) && Sectors(d')
    && forall s, b, k :: 0 <= s < |d| && 0 <= b < SECTOR_SIZE && 0 <= k < 8 ==>
         (Bit(d'[s][b], k) <==> Bit(d[s][b], k) && !(from <= Pos(base, s, b, k) < to))
  }

  /** All the map bits in [from, to) are set. */
  ghost predicate AllSet(d: Disk, base: int, from: int, to: int) {
    Sectors(d) && forall s, b, k :: 0 <= s < |d| && 0 <= b < SECTOR_SIZE && 0 <= k < 8 ==>
      (from <= Pos(base, s, b, k) < to ==> Bit(d[s][b], k))
  }

  function WithByte(d: Disk, s: int, b: int, v: bv8): Disk
    requires 0 <= s < |d| && 0 <= b < |d[s]|
  {
    d[s := d[s][b := v]]
  }

  lemma ClearedStep(d: Disk, cur: Disk, base: int, from: int, pos: int, s: int, b: int, v: bv8, pos': int)
    requires Cleared(d, cur, base, from, pos) && from <= pos <= pos'
    requires 0 <= s < |d| && 0 <= b < SECTOR_SIZE
    requires Pos(base, s, b, 0) <= pos && pos' <= Pos(base, s, b, 8)
    requires forall k :: 0 <= k < 8 ==> (Bit(v, k) <==> Bit(cur[s][b], k) && !(pos <= Pos(base, s, b, k) < pos'))
    ensures Cleared(d, WithByte(cur, s, b, v), base, from, pos')
  {
  }

  /** A bit still to be cleared is still set. */
  lemma LastByteSet(d: Disk, cur: Disk, base: int, start: int, end: int, pos: int, s: int, i: int, k: nat)
    requires AllSet(d, base, start, end) && Cleared(d, cur, base, start, pos) && 0 <= s < |d| && 0 <= i < SECTOR_SIZE
    requires k < 8 && start <= pos == Pos(base, s, i, 0) && pos + k < end
    ensures Bit(cur[s][i], k)
  {
    assert Pos(base, s, i, k) == pos + k;
    assert Bit(d[s][i], k);
  }

  /** The low bits of a byte cleared by a mask, or none of them. */
  lemma LastByteCleared(d: Disk, cur: Disk, base: int, start: int, pos: int, s: int, i: int, left: nat)
    requires Cleared(d, cur, base, start, pos) && start <= pos && 0 <= s < |d| && 0 <= i < SECTOR_SIZE && left < 8
    requires left > 0 ==> pos == Pos(base, s, i, 0)
    ensures Cleared(d, WithByte(cur, s, i, cur[s][i] & (0xFF << left)), base, start, pos + left)
  {
    var w := cur[s][i] & (0xFF << left);
    forall k | 0 <= k < 8 { ClearLow(cur[s][i], left, k); }
    if left > 0 {
      ClearedStep(d, cur, base, start, pos, s, i, w, pos + left);
    } else {
      SameBits(w, cur[s][i]);
      assert cur[s][i := w] == cur[s];
    }
  }

  lemma OtherByte(base: int, s: int, b: int, s': int, b': int, k: nat)
    requires 0 <= b < SECTOR_SIZE && 0 <= b' < SECTOR_SIZE && k < 8 && (s' != s || b' != b)
    ensures Pos(base, s', b', k) < Pos(base, s, b, 0) || Pos(base, s', b', k) >= Pos(base, s, b, 8)
  {
  }

  function RoundUp(pos: int): int { (pos + 7) / 8 * 8 }

  lemma RoundUpByte(j: int, n: nat)
    requires 1 <= n <= 8
    ensures RoundUp(8 * j) == 8 * j && RoundUp(8 * j + n) == 8 * j + 8
  {
  }

  /**
   d' is d with the map bits in [from, to) set and the rest of the last byte cleared; nothing else differs.
   Whether those bits were clear before plays no part.
   */
  ghost predicate Filled(d: Disk, d': Disk, base: int, from: int, to: int) {
    FilledUpTo(d, d', base, from, to, RoundUp(to))
  }

  ghost predicate FilledUpTo(d: Disk, d': Disk, base: int, from: int, to: int, end: int) {
    && |d'| == |d| && Sectors(d) && Sectors(d')
    && forall s, b, k :: 0 <= s < |d| && 0 <= b < SECTOR_SIZE && 0 <= k < 8 ==>
         FilledAt(d, d', base, from, to, end, s, b, k)
  }

  predicate FilledAt(d: Disk, d': Disk, base: int, from: int, to: int, end: int, s: int, b: int, k: nat)
    requires 0 <= s < |d| == |d'| && 0 <= b < |d[s]| == |d'[s]| && k < 8
  {
    var p := Pos(base, s, b, k);
    Bit(d'[s][b], k) <==> if from <= p < end then p < to else Bit(d[s][b], k)
  }

  /** Filled, bit by bit. */
  lemma FilledBits(d: Disk, d': Disk, base: int, from: int, to: int)
    requires Filled(d, d', base, from, to)
    ensures forall s, b, k :: 0 <= s < |d| && 0 <= b < SECTOR_SIZE && 0 <= k < 8 ==>
              (Bit(d'[s][b], k)
               <==> if from <= Pos(base, s, b, k) < RoundUp(to) then Pos(base, s, b, k) < to else Bit(d[s][b], k))
  {
    forall s, b, k | 0 <= s < |d| && 0 <= b < SECTOR_SIZE && 0 <= k < 8
      ensures Bit(d'[s][b], k)
              <==> if from <= Pos(base, s, b, k) < RoundUp(to) then Pos(base, s, b, k) < to else Bit(d[s][b], k)
    {
      assert FilledAt(d, d', base, from, to, RoundUp(to), s, b, k);
    }
  }

  lemma FilledStep(d: Disk, cur: Disk, base: int, from: int, s: int, b: int, w: bv8, n: nat)
    requires 0 <= s < |d| && 0 <= b < SECTOR_SIZE && 1 <= n <= 8
    requires Filled(d, cur, base, from, Pos(base, s, b, 0)) && from <= Pos(base, s, b, 0)
    requires forall k :: 0 <= k < 8 ==> (Bit(w, k) <==> k < n)
    ensures Filled(d, WithByte(cur, s, b, w), base, from, Pos(base, s, b, 0) + n)
  {
    var pos := Pos(base, s, b, 0);
    RoundUpByte(BytePos(base, s, b), n);
    ByteFilled(d, cur, base, from, pos, s, b, w, n);
  }

  lemma ByteFilled(d: Disk, cur: Disk, base: int, from: int, pos: int, s: int, b: int, w: bv8, n: nat)
    requires 0 <= s < |d| && 0 <= b < SECTOR_SIZE && 1 <= n <= 8 && from <= pos == Pos(base, s, b, 0)
    requires FilledUpTo(d, cur, base, from, pos, pos)
    requires forall k :: 0 <= k < 8 ==> (Bit(w, k) <==> k < n)
    ensures FilledUpTo(d, WithByte(cur, s, b, w), base, from, pos + n, pos + 8)
  {
    var (cur', to, end) := (WithByte(cur, s, b, w), pos + n, pos + 8);
    forall s', b', k | 0 <= s' < |d| && 0 <= b' < SECTOR_SIZE && 0 <= k < 8
      ensures FilledAt(d, cur', base, from, to, end, s', b', k)
    {
      if s' == s && b' == b {
        assert cur'[s'][b'] == w && Pos(base, s', b', k) == pos + k;
      } else {
        OtherByte(base, s, b, s', b', k);
        assert FilledAt(d, cur, base, from, pos, pos, s', b', k);
        assert cur'[s'][b'] == cur[s'][b'];
      }
    }
  }

  /** d' is d with the map bits in [from, to) set as well; nothing else differs. */
  ghost predicate Marked(d: Disk, d': Disk, base: int, from: int, to: int) {
    && |d'| == |d| && Sectors(d) && Sectors(d')
    && forall s, b, k :: 0 <= s < |d| && 0 <= b < SECTOR_SIZE && 0 <= k < 8 ==>
         (Bit(d'[s][b], k) <==> Bit(d[s][b], k) || from <= Pos(base, s, b, k) < to)
  }

  lemma MarkedStep(d: Disk, cur: Disk, base: int, from: int, s: int, b: int, i: nat, v: bv8)
    requires 0 <= s < |d| && 0 <= b < SECTOR_SIZE && i < 8 && from <= Pos(base, s, b, i)
    requires Marked(d, cur, base, from, Pos(base, s, b, i))
    requires forall k :: 0 <= k < 8 ==> (Bit(v, k) <==> k == i || Bit(cur[s][b], k))
    ensures Marked(d, WithByte(cur, s, b, v), base, from, Pos(base, s, b, i) + 1)
  {
    var cur' := WithByte(cur, s, b, v);
    forall s', b', k | 0 <= s' < |d| && 0 <= b' < SECTOR_SIZE && 0 <= k < 8
      ensures Bit(cur'[s'][b'], k)
              <==> Bit(d[s'][b'], k) || from <= Pos(base, s', b', k) < Pos(base, s, b, i) + 1
    {
      if s' == s && b' == b {
        assert cur'[s'][b'] == v;
      } else {
        OtherByte(base, s, b, s', b', k);
        assert cur'[s'][b'] == cur[s'][b'];
      }
    }
  }

  /** None of the map bytes before z is zero. */
  ghost predicate NonzeroBelow(d: Disk, base: int, z: int)
    requires Sectors(d)
  {
    forall s, b :: 0 <= s < |d| && 0 <= b < SECTOR_SIZE && 0 <= BytePos(base, s, b) < z ==> d[s][b] != 0
  }

  ghost predicate ZeroAt(d: Disk, base: int, z: int)
    requires Sectors(d)
  {
    exists s, b :: 0 <= s < |d| && 0 <= b < SECTOR_SIZE && BytePos(base, s, b) == z && d[s][b] == 0
  }

  ghost predicate FirstZero(d: Disk, base: int, z: int)
    requires Sectors(d)
  {
    z >= 0 && NonzeroBelow(d, base, z) && ZeroAt(d, base, z)
  }

  /** The innermost loop of alloc_smap_bit, on a byte that starts out zero. */
  method LowBits(left: nat) returns (byte: bv8, left': nat)
    requires left >= 1
    ensures left' == if left <= 8 then 0 else left - 8
    ensures forall l :: 0 <= l < 8 ==> (Bit(byte, l) <==> l < left - left')
  {
    byte, left' := 0, left;
    var k := 0;
    assert forall l :: 0 <= l < 8 ==> !Bit(0, l);
    while k < 8 && left' > 0
      invariant k <= 8 && left' == left - k
      invariant forall l :: 0 <= l < 8 ==> (Bit(byte, l) <==> l < k)
    {
      assert !Bit(byte, k);
      SetBits(byte, k, byte | (1 << k));
      byte := byte | (1 << k);
      left' := left' - 1;
      k := k + 1;
    }
  }

  class SectorDevice {
    const disk: array<seq<bv8>>
    const fsbuf: array<bv8>

    ghost predicate Valid()
      reads this, disk, fsbuf
    {
      fsbuf.Length == SECTOR_SIZE && Sectors(disk[..]) && disk as object != fsbuf as object
    }

    /** The disk as it would be if the buffer were written back to sector s. */
    ghost function View(s: int): Disk
      requires 0 <= s < disk.Length
      reads this, disk, fsbuf
    {
      disk[..][s := fsbuf[..]]
    }

    method RdSect(s: int)
      requires Valid() && 0 <= s < disk.Length
      modifies fsbuf
      ensures Valid() && View(s) == disk[..] == old(disk[..])
    {
      forall i | 0 <= i < SECTOR_SIZE { fsbuf[i] := disk[s][i]; }
      assert fsbuf[..] == disk[s];
      assert disk[..][s := disk[s]] == disk[..];
    }

    method WrSect(s: int)
      requires Valid() && 0 <= s < disk.Length
      modifies disk
      ensures Valid() && disk[..] == old(View(s))
    {
      disk[s] := fsbuf[..];
      assert disk[..] == old(disk[..])[s := fsbuf[..]];
    }

    /** Changes one byte of the buffer. */
    method PutByte(ghost s: int, i: int, v: bv8)
      requires Valid() && 0 <= s < disk.Length && 0 <= i < SECTOR_SIZE
      modifies fsbuf
      ensures Valid() && View(s) == WithByte(old(View(s)), s, i, v) && disk[..] == old(disk[..])
    {
      fsbuf[i] := v;
      assert fsbuf[..] == old(fsbuf[..])[i := v];
    }

    /** Moves on to the next sector when the byte index has run off the current one. */
    method NextSector(i: int, s: int) returns (i': int, s': int)
      requires Valid() && 0 <= s < disk.Length && 0 <= i <= SECTOR_SIZE
      requires i == SECTOR_SIZE ==> s + 1 < disk.Length
      modifies disk, fsbuf
      ensures Valid() && 0 <= i' < SECTOR_SIZE && 0 <= s' < disk.Length
      ensures forall base :: BytePos(base, s', i') == BytePos(base, s, i)
      ensures View(s') == old(View(s))
    {
      i', s' := i, s;
      if i == SECTOR_SIZE {
        i' := 0;
        WrSect(s);
        s' := s + 1;
        RdSect(s');
      }
    }

    /** Clears one bit that is set, the one at map position pos. */
    method ClearOneBit(ghost base: int, ghost start: int, ghost pos: int, ghost d: Disk, ghost s: int, b: int, i: nat)
      requires Valid() && 0 <= s < disk.Length && 0 <= b < SECTOR_SIZE && i < 8
      requires Cleared(d, View(s), base, start, pos) && start <= pos == Pos(base, s, b, i) && Bit(d[s][b], i)
      modifies fsbuf
      ensures Valid() && disk[..] == old(disk[..])
      ensures Cleared(d, View(s), base, start, pos + 1)
    {
      ghost var v := View(s);
      var was := fsbuf[b];
      assert v[s][b] == was && Bit(v[s][b], i);
      assert (was >> i) & 1 == 1;
      var now := was & !(1 << i);
      ClearBits(was, i, now);
      ClearedStep(d, v, base, start, pos, s, b, now, pos + 1);
      PutByte(s, b, now);
    }

    /** Clears a byte that is all ones, the one at map position pos. */
    method ClearWholeByte(ghost base: int, ghost start: int, ghost pos: int, ghost d: Disk, ghost s: int, i: int)
      requires Valid() && 0 <= s < disk.Length && 0 <= i < SECTOR_SIZE
      requires Cleared(d, View(s), base, start, pos) && start <= pos == Pos(base, s, i, 0)
      requires AllSet(d, base, pos, pos + 8)
      modifies fsbuf
      ensures Valid() && disk[..] == old(disk[..])
      ensures Cleared(d, View(s), base, start, pos + 8)
    {
      ghost var v := View(s);
      assert v[s][i] == fsbuf[i];
      forall k | 0 <= k < 8 ensures Bit(v[s][i], k) {
        assert Pos(base, s, i, k) == pos + k;
        assert Bit(d[s][i], k);
      }
      AllOnes(fsbuf[i]);
      assert fsbuf[i] == 0xFF;
      assert forall k :: 0 <= k < 8 ==> !Bit(0, k);
      ClearedStep(d, v, base, start, pos, s, i, 0, pos + 8);
      PutByte(s, i, 0);
    }

    method ClearFirstByte(base: int, start: nat, nr: nat, s: int) returns (bitsLeft: nat)
      requires Valid() && 0 <= s < disk.Length && s == base + start / 8 / SECTOR_SIZE
      requires View(s) == disk[..] && AllSet(disk[..], base, start, start + nr)
      modifies fsbuf
      ensures Valid() && disk[..] == old(disk[..]) && bitsLeft == if nr < 8 - start % 8 then 0 else nr - (8 - start % 8)
      ensures Cleared(disk[..], View(s), base, start, start + nr - bitsLeft)
    {
      ghost var d := disk[..];
      var b := start / 8 % SECTOR_SIZE;
      bitsLeft := nr;
      var i := start % 8;
      while i < 8 && bitsLeft > 0
        invariant Valid() && disk[..] == d && i <= 8 && i - start % 8 == nr - bitsLeft
        invariant Cleared(d, View(s), base, start, start + nr - bitsLeft)
      {
        assert Pos(base, s, b, i) == start + nr - bitsLeft;
        ClearOneBit(base, start, start + nr - bitsLeft, d, s, b, i);
        i := i + 1;
        bitsLeft := bitsLeft - 1;
      }
    }

    method ClearLastByte(ghost base: int, ghost start: nat, ghost nr: nat, ghost s: int,
                         i: int, bitsLeft: nat, ghost d: Disk)
      requires Valid() && 0 <= s < disk.Length && 0 <= i < SECTOR_SIZE && bitsLeft < 8 && bitsLeft <= nr
      requires AllSet(d, base, start, start + nr) && Cleared(d, View(s), base, start, start + nr - bitsLeft)
      requires bitsLeft > 0 ==> start + nr - bitsLeft == Pos(base, s, i, 0)
      modifies fsbuf
      ensures Valid() && disk[..] == old(disk[..]) && Cleared(d, View(s), base, start, start + nr)
    {
      ghost var pos, v := start + nr - bitsLeft, View(s);
      forall k | 0 <= k < bitsLeft ensures Bit(fsbuf[i], k) {
        LastByteSet(d, v, base, start, start + nr, pos, s, i, k);
      }
      var mask: bv8 := !(0xFF << bitsLeft);
      FullMask(fsbuf[i], bitsLeft);
      assert fsbuf[i] & mask == mask;
      LastByteCleared(d, v, base, start, pos, s, i, bitsLeft);
      PutByte(s, i, fsbuf[i] & (0xFF << bitsLeft));
    }

    /** Clears the bits [start, start + nr) of the map that begins at sector `base`. */
    method ClearRun(base: int, start: nat, nr: nat)
      requires Valid() && 0 <= base
      requires start + nr + 16 <= SECTOR_BITS * (disk.Length - base)
      requires AllSet(disk[..], base, start, start + nr)
      modifies disk, fsbuf
      ensures Valid()
      ensures Cleared(old(disk[..]), disk[..], base, start, start + nr)
    {
      ghost var d := disk[..];
      var byteIdx := start / 8;
      var bitsLeft := nr;
      // for a run that ends in its first byte the quotient is 0, or -1 when it is empty: no middle bytes
      var byteCnt := if nr < 8 - start % 8 then 0 else (nr - (8 - start % 8)) / 8;
      var s := base + byteIdx / SECTOR_SIZE;
      RdSect(s);

      bitsLeft := ClearFirstByte(base, start, nr, s);

      var i := byteIdx % SECTOR_SIZE + 1;
      ghost var pos, left := start + nr - bitsLeft, bitsLeft;
      for k := 0 to byteCnt
        invariant Valid() && 0 <= s < disk.Length && disk.Length == |d| && 0 <= i <= SECTOR_SIZE
        invariant BytePos(base, s, i) == byteIdx + 1 + k
        invariant bitsLeft == left - 8 * k && pos == start + nr - bitsLeft
        invariant bitsLeft > 0 ==> pos == 8 * (byteIdx + 1 + k)
        invariant Cleared(d, View(s), base, start, pos)
      {
        i, s := NextSector(i, s);
        ClearWholeByte(base, start, pos, d, s, i);
        pos := pos + 8;
        i := i + 1;
        bitsLeft := bitsLeft - 8;
      }

      i, s := NextSector(i, s);
      ClearLastByte(base, start, nr, s, i, bitsLeft, d);
      WrSect(s);
    }

    method SetOneBit(ghost base: int, ghost from: int, ghost d: Disk, ghost s: int, b: int, i: nat)
      requires Valid() && 0 <= s < disk.Length && 0 <= b < SECTOR_SIZE && i < 8
      requires Marked(d, View(s), base, from, Pos(base, s, b, i)) && from <= Pos(base, s, b, i)
      modifies fsbuf
      ensures Valid() && disk[..] == old(disk[..])
      ensures Marked(d, View(s), base, from, Pos(base, s, b, i) + 1)
    {
      ghost var v := View(s);
      var was := fsbuf[b];
      assert v[s][b] == was;
      var now := was | (1 << i);
      SetBits(was, i, now);
      MarkedStep(d, v, base, from, s, b, i, now);
      PutByte(s, b, now);
    }

    /** The loop of mkfs that marks the sectors of cmd.tar, bit by bit. */
    method MarkRun(base: nat, start: nat, nr: nat)
      requires Valid() && start + nr < SECTOR_BITS * (disk.Length - base)
      modifies disk, fsbuf
      ensures Valid() && Marked(old(disk[..]), disk[..], base, start, start + nr)
    {
      ghost var d := disk[..];
      var bitOffInSect := start % SECTOR_BITS;
      var bitLeft := nr;
      var s := base + start / SECTOR_BITS;
      RdSect(s);
      while bitLeft > 0
        invariant Valid() && 0 <= bitLeft <= nr && base <= s < disk.Length == |d| && 0 <= bitOffInSect < SECTOR_BITS
        invariant (s - base) * SECTOR_BITS + bitOffInSect == start + nr - bitLeft
        invariant Marked(d, View(s), base, start, start + nr - bitLeft)
      {
        var byteOff := bitOffInSect / 8;
        assert Pos(base, s, byteOff, bitOffInSect % 8) == start + nr - bitLeft;
        SetOneBit(base, start, d, s, byteOff, bitOffInSect % 8);
        bitLeft := bitLeft - 1;
        bitOffInSect := bitOffInSect + 1;
        if bitOffInSect == SECTOR_BITS {
          WrSect(s);
          s := s + 1;
          RdSect(s);
          bitOffInSect := 0;
        }
      }
      WrSect(s);
    }

    /** memset on the buffer. */
    method Blank()
      requires Valid()
      modifies fsbuf
      ensures Valid() && disk[..] == old(disk[..]) && forall b :: 0 <= b < SECTOR_SIZE ==> fsbuf[b] == 0
    {
      forall i | 0 <= i < SECTOR_SIZE { fsbuf[i] := 0; }
    }

    /** The first part of mkfs's sector map: bit 0 and the root directory. */
    method MarkRoot(base: nat, nrMap: nat)
      requires Valid() && nrMap >= 1 && base + nrMap <= disk.Length
      modifies disk, fsbuf
      ensures Valid() && disk.Length == |old(disk[..])|
      ensures forall s :: 0 <= s < disk.Length && !(base <= s < base + nrMap) ==> disk[s] == old(disk[s])
      ensures forall b :: 0 <= b < SECTOR_SIZE ==> disk[base][b] == if b < 256 then 0xFF else if b == 256 then 1 else 0
      ensures forall s, b :: base < s < base + nrMap && 0 <= b < SECTOR_SIZE ==> disk[s][b] == 0
    {
      Blank();
      var nrSects := FILE_SECTS + 1;
      var i := 0;
      while i < nrSects / 8
        invariant Valid() && 0 <= i <= 256 && disk[..] == old(disk[..])
        invariant forall b :: 0 <= b < SECTOR_SIZE ==> fsbuf[b] == if b < i then 0xFF else 0
      {
        fsbuf[i] := 0xFF;
        i := i + 1;
      }
      var j := 0;
      while j < nrSects % 8
        invariant Valid() && 0 <= j <= 1 && i == 256 && disk[..] == old(disk[..])
        invariant forall b :: 0 <= b < SECTOR_SIZE && b != i ==> fsbuf[b] == if b < i then 0xFF else 0
        invariant fsbuf[i] == if j == 0 then 0 else 1
      {
        fsbuf[i] := fsbuf[i] | (1 << j);
        j := j + 1;
      }
      ghost var first := fsbuf[..];
      WrSect(base);
      Blank();
      for k := 1 to nrMap
        invariant Valid() && disk.Length == |old(disk[..])| && disk[base] == first
        invariant forall b :: 0 <= b < SECTOR_SIZE ==> fsbuf[b] == 0
        invariant forall s :: 0 <= s < disk.Length && !(base <= s < base + k) ==> disk[s] == old(disk[s])
        invariant forall s, b :: base < s < base + k && 0 <= b < SECTOR_SIZE ==> disk[s][b] == 0
      {
        WrSect(base + k);
      }
    }

    /** Overwrites byte j of the buffer, at map position pos, with as many low bits as are still wanted. */
    method FillByte(ghost base: int, ghost from: int, ghost pos: int, ghost d: Disk, ghost s: int, j: int, left: nat)
      returns (left': nat)
      requires Valid() && 0 <= s < disk.Length && 0 <= j < SECTOR_SIZE && left >= 1
      requires from <= pos == Pos(base, s, j, 0) && Filled(d, View(s), base, from, pos)
      modifies fsbuf
      ensures Valid() && disk[..] == old(disk[..])
      ensures left' == if left <= 8 then 0 else left - 8
      ensures Filled(d, View(s), base, from, pos + left - left')
    {
      var byte;
      byte, left' := LowBits(left);
      FilledStep(d, View(s), base, from, s, j, byte, left - left');
      PutByte(s, j, byte);
    }

    /** What alloc_smap_bit has established when it stands at map byte n: z is the first zero byte, if found. */
    ghost predicate Progress(d: Disk, cur: Disk, base: int, found: bool, z: int, n: int, nr: int, left: int) {
      && 0 <= left <= nr && Sectors(d) && Sectors(cur) && |cur| == |d|
      && if !found then left == nr && cur == d && NonzeroBelow(d, base, n)
         else z < n && FirstZero(d, base, z) && Filled(d, cur, base, 8 * z, 8 * z + nr - left)
              && (left > 0 ==> 8 * z + nr - left == 8 * n)
    }

    /** Map byte n is where the bits of the run from byte z on go next. */
    ghost predicate GoesOn(d: Disk, cur: Disk, base: int, z: int, n: int, nr: int, left: int) {
      && Sectors(d) && Sectors(cur) && |cur| == |d| && 0 < left <= nr && z <= n
      && FirstZero(d, base, z) && Filled(d, cur, base, 8 * z, 8 * n) && 8 * z + nr - left == 8 * n
    }

    lemma Passed(d: Disk, cur: Disk, base: int, s: int, j: int, z: int, n: int, nr: int, left: int)
      requires 0 <= s < |d| && 0 <= j < SECTOR_SIZE && n == BytePos(base, s, j)
      requires Progress(d, cur, base, false, z, n, nr, left) && cur[s][j] != 0
      ensures Progress(d, cur, base, false, z, n + 1, nr, left)
    {
      NonzeroNext(d, base, s, j);
    }

    lemma Found(d: Disk, cur: Disk, base: int, s: int, j: int, z: int, n: int, nr: int, left: int)
      requires 0 <= s < |d| && 0 <= j < SECTOR_SIZE && n == BytePos(base, s, j) >= 0 && left > 0
      requires Progress(d, cur, base, false, z, n, nr, left) && cur[s][j] == 0
      ensures GoesOn(d, cur, base, n, n, nr, left)
    {
      ZeroFound(d, base, s, j, n);
      NothingFilled(d, base, 8 * n);
    }

    lemma Continued(d: Disk, cur: Disk, base: int, z: int, n: int, nr: int, left: int)
      requires Progress(d, cur, base, true, z, n, nr, left) && left > 0
      ensures GoesOn(d, cur, base, z, n, nr, left)
    {
    }

    lemma Taken(d: Disk, cur: Disk, base: int, z: int, n: int, nr: int, left0: int, left: int)
      requires Sectors(d) && FirstZero(d, base, z) && z <= n && 0 < left0 <= nr && 8 * z + nr - left0 == 8 * n
      requires left == if left0 <= 8 then 0 else left0 - 8
      requires Filled(d, cur, base, 8 * z, 8 * n + left0 - left)
      ensures Progress(d, cur, base, true, z, n + 1, nr, left)
    {
    }

    /** alloc_smap_bit; `ok` is false when its closing assertion fails because the map has run out. */
    method AllocRun(base: nat, nrMap: nat, n1st: int, nr: nat) returns (first: int, ok: bool, ghost z: int)
      requires Valid() && base + nrMap <= disk.Length && n1st >= 2 && nr >= 1
      modifies disk, fsbuf
      ensures Valid()
      ensures ok ==> FirstZero(old(disk[..]), base, z) && first == 8 * z - 1 + n1st
      ensures ok ==> 8 * z + nr <= SECTOR_BITS * nrMap && Filled(old(disk[..]), disk[..], base, 8 * z, 8 * z + nr)
      ensures ok || NonzeroBelow(old(disk[..]), base, SECTOR_SIZE * nrMap)
                 || (FirstZero(old(disk[..]), base, z) && 8 * z + nr > SECTOR_BITS * nrMap)
    {
      ghost var d := disk[..];
      first, z := 0, 0;
      var left := nr;
      var i := 0;
      while i < nrMap && left > 0
        invariant Valid() && disk.Length == |d| && 0 <= i <= nrMap && (first != 0 ==> first == 8 * z - 1 + n1st)
        invariant Progress(d, disk[..], base, first != 0, z, SECTOR_SIZE * i, nr, left)
        invariant 8 * z + nr - left <= SECTOR_BITS * i
      {
        RdSect(base + i);
        first, left, z := AllocInSector(base, i, n1st, nr, first, left, z, d);
        if first != 0 {
          WrSect(base + i);
        }
        i := i + 1;
      }
      ok := left == 0;
    }

    /** One byte of the scan: pass over it, or take it. */
    method AllocByte(ghost base: nat, i: nat, j: nat, n1st: int, ghost nr: nat,
                     first0: int, left0: nat, ghost z0: int, ghost d: Disk)
      returns (first: int, left: nat, ghost z: int)
      requires Valid() && base + i < disk.Length && j < SECTOR_SIZE && n1st >= 2 && left0 > 0
      requires first0 != 0 ==> first0 == 8 * z0 - 1 + n1st
      requires Progress(d, View(base + i), base, first0 != 0, z0, SECTOR_SIZE * i + j, nr, left0)
      requires 8 * z0 + nr - left0 <= 8 * (SECTOR_SIZE * i + j)
      modifies fsbuf
      ensures Valid() && disk[..] == old(disk[..]) && (first != 0 ==> first == 8 * z - 1 + n1st)
      ensures Progress(d, View(base + i), base, first != 0, z, SECTOR_SIZE * i + j + 1, nr, left)
      ensures 8 * z + nr - left <= 8 * (SECTOR_SIZE * i + j + 1)
    {
      first, left, z := first0, left0, z0;
      ghost var s, n := base + i, SECTOR_SIZE * i + j;
      if first == 0 && fsbuf[j] != 0 {
        Passed(d, View(s), base, s, j, z, n, nr, left);
        return;
      }
      if first == 0 {
        Found(d, View(s), base, s, j, z, n, nr, left);
        first := (i * SECTOR_SIZE + j) * 8 + 0 - 1 + n1st;
        z := n;
      } else {
        Continued(d, View(s), base, z, n, nr, left);
      }
      left := TakeByte(base, s, j, nr, left, z, n, d);
    }

    /** Fills byte n of the map, where a run from byte z on continues. */
    method TakeByte(ghost base: nat, ghost s: int, j: nat, ghost nr: nat,
                    left0: nat, ghost z: int, ghost n: int, ghost d: Disk)
      returns (left: nat)
      requires Valid() && 0 <= s < disk.Length && j < SECTOR_SIZE && n == BytePos(base, s, j)
      requires GoesOn(d, View(s), base, z, n, nr, left0)
      modifies fsbuf
      ensures Valid() && disk[..] == old(disk[..])
      ensures Progress(d, View(s), base, true, z, n + 1, nr, left) && 8 * z + nr - left <= 8 * (n + 1)
    {
      left := FillByte(base, 8 * z, 8 * n, d, s, j, left0);
      Taken(d, View(s), base, z, n, nr, left0, left);
    }

    /** The scan of one sector of the map, held in the buffer. */
    method AllocInSector(base: nat, i: nat, n1st: int, ghost nr: nat,
                         first0: int, left0: nat, ghost z0: int, ghost d: Disk)
      returns (first: int, left: nat, ghost z: int)
      requires Valid() && base + i < disk.Length && n1st >= 2 && left0 > 0 && View(base + i) == disk[..]
      requires first0 != 0 ==> first0 == 8 * z0 - 1 + n1st
      requires Progress(d, disk[..], base, first0 != 0, z0, SECTOR_SIZE * i, nr, left0)
      requires 8 * z0 + nr - left0 <= SECTOR_BITS * i
      modifies fsbuf
      ensures Valid() && disk[..] == old(disk[..]) && (first != 0 ==> first == 8 * z - 1 + n1st)
      ensures Progress(d, View(base + i), base, first != 0, z, SECTOR_SIZE * (i + 1), nr, left)
      ensures 8 * z + nr - left <= SECTOR_BITS * (i + 1)
    {
      first, left, z := first0, left0, z0;
      var j := 0;
      ghost var s := base + i;
      while j < SECTOR_SIZE && left > 0
        invariant Valid() && disk[..] == old(disk[..]) && 0 <= j <= SECTOR_SIZE
        invariant first != 0 ==> first == 8 * z - 1 + n1st
        invariant Progress(d, View(s), base, first != 0, z, SECTOR_SIZE * i + j, nr, left)
        invariant 8 * z + nr - left <= 8 * (SECTOR_SIZE * i + j)
      {
        first, left, z := AllocByte(base, i, j, n1st, nr, first, left, z, d);
        j := j + 1;
      }
    }
  }

  lemma NonzeroNext(d: Disk, base: int, s: int, j: int)
    requires Sectors(d) && 0 <= s < |d| && 0 <= j < SECTOR_SIZE && d[s][j] != 0
    requires NonzeroBelow(d, base, BytePos(base, s, j))
    ensures NonzeroBelow(d, base, BytePos(base, s, j) + 1)
  {
    assert forall s', b :: 0 <= b < SECTOR_SIZE && BytePos(base, s', b) == BytePos(base, s, j) ==> s' == s && b == j;
  }

  lemma ZeroFound(d: Disk, base: int, s: int, j: int, n: int)
    requires Sectors(d) && 0 <= s < |d| && 0 <= j < SECTOR_SIZE && d[s][j] == 0
    requires n == BytePos(base, s, j) >= 0 && NonzeroBelow(d, base, n)
    ensures FirstZero(d, base, n)
  {
  }

  lemma NothingFilled(d: Disk, base: int, pos: int)
    requires Sectors(d) && pos % 8 == 0
    ensures Filled(d, d, base, pos, pos)
  {
    assert RoundUp(pos) == pos;
  }

  lemma AllOnes(b: bv8)
    requires forall k :: 0 <= k < 8 ==> Bit(b, k)
    ensures b == 0xFF
  {
    assert forall k :: 0 <= k < 8 ==> Bit(0xFF, k);
    SameBits(b, 0xFF);
  }
}
