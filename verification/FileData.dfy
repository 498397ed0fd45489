/** The data path of regular files: the chunked read-modify-write loop of do_rdwt in fs/read_write.c. */
module FileData {
  import opened Slices

  const SECTOR_SIZE := 512
  const MAX_CHUNK := 2048   // FSBUF_SIZE >> SECTOR_SIZE_SHIFT

  type Bytes = seq<bv8>

  function Min(a: int, b: int): int { if a < b then a else b }

  function Splice(d: Bytes, at: nat, data: Bytes): Bytes
    requires at + |data| <= |d|
  {
    d[..at] + data + d[at + |data|..]
  }

  // ------------------------------------------------------------------ how far the loop gets

  /** The sectors covered by whole chunks until `count` sectors are done. */
  function Span(done: nat, count: int, chunk: nat): (r: nat)
    requires chunk > 0
    ensures r >= count && r >= done
    decreases count - done
  {
    if done >= count then done else Span(done + chunk, count, chunk)
  }

  function Count(pos: nat, len: nat, limit: int): int { Min(pos + len, limit) / SECTOR_SIZE - pos / SECTOR_SIZE + 1 }

  function Chunk(pos: nat, len: nat, limit: int): (r: int)
    ensures Count(pos, len, limit) > 0 ==> 1 <= r <= MAX_CHUNK
  {
    Min(Count(pos, len, limit), MAX_CHUNK)
  }

  /** The sectors read, and for a write also written back, from the one that holds pos on. */
  function Touched(pos: nat, len: nat, limit: int): nat {
    if Count(pos, len, limit) <= 0 then 0 else Span(0, Count(pos, len, limit), Chunk(pos, len, limit))
  }

  /** How many bytes a request moves. */
  function Moved(pos: nat, len: nat, limit: int): int {
    MovedBy(pos % SECTOR_SIZE, len, Touched(pos, len, limit))
  }

  /** A request that stays within its limit is carried out in full. */
  lemma WithinLimit(pos: nat, len: nat, limit: int)
    requires pos + len <= limit
    ensures Moved(pos, len, limit) == len
  {
  }

  /**
   The limit (the file size for a read, the allotted sectors for a write) is kept exactly by the requests
   that would have kept it anyway: the loop rounds its end up to a sector but never clips the length.
   */
  lemma LimitKeptExactly(pos: nat, len: nat, limit: nat)
    ensures pos + Moved(pos, len, limit) <= limit <==> pos + len <= limit
  {
    if pos <= limit {
      var posEnd := Min(pos + len, limit);
      assert Touched(pos, len, limit) >= posEnd / SECTOR_SIZE - pos / SECTOR_SIZE + 1;
    }
  }

  lemma {:induction false} SpanRoundsUp(done: nat, count: int)
    ensures Span(done, count, 2048) == if done >= count then done else done + (count - done + 2047) / 2048 * 2048
    decreases count - done
  {
    if done >= count {
    } else {
      SpanRoundsUp(done + 2048, count);
    }
  }

  lemma OneSpan(count: nat)
    requires count > 0
    ensures Span(0, count, count) == count
  {
    assert Span(count, count, count) == count;
  }

  /**
   What a request moves: nothing if its limit lies in a sector before the position, and otherwise all up to the end of
   the sector with the limit, or with its own end if that is less; in more than 2048 sectors, of whole chunks of them.
   */
  lemma MovedExactly(pos: nat, len: nat, limit: int)
    ensures var last := if pos + len < limit then pos + len else limit;
            var count := last / 512 - pos / 512 + 1;
            var sectors := if count <= 2048 then count else (count + 2047) / 2048 * 2048;
            var room := sectors * 512 - pos % 512;
            Moved(pos, len, limit) == if count <= 0 then 0 else if len < room then len else room
  {
    var count := Count(pos, len, limit);
    if 0 < count {
      OneSpan(count);
      SpanRoundsUp(0, count);
    }
  }

  /** One byte read from an empty file is moved, and the file is then one byte long. */
  lemma ReadPastEnd()
    ensures Moved(0, 1, 0) == 1
  {
    assert Span(0, 1, 1) == Span(1, 1, 1) == 1;
  }

  /** The bytes moved once the first k sectors are done, starting `off` bytes into the first. */
  function MovedBy(off: nat, len: nat, k: nat): int {
    if k == 0 then 0 else Min(len, k * SECTOR_SIZE - off)
  }

  /** The loop after k of `count` sectors from `first` on: at sector i, `done` bytes moved and `left` to move. */
  ghost predicate Standing(first: nat, count: int, off0: nat, len: nat, chunk: nat,
                           k: nat, i: int, done: int, left: int, off: int)
    requires chunk > 0
  {
    && i == first + k && Span(k, count, chunk) == Span(0, count, chunk)
    && done == MovedBy(off0, len, k) && left == len - done && off == if k == 0 then off0 else 0
  }

  lemma StandingNext(first: nat, count: int, off0: nat, len: nat, chunk: nat,
                     k: nat, i: int, done: int, left: int, off: int, size: nat)
    requires 0 < chunk <= MAX_CHUNK && off0 < SECTOR_SIZE && k < count
    requires (first + Span(0, count, chunk)) * SECTOR_SIZE <= size
    requires Standing(first, count, off0, len, chunk, k, i, done, left, off)
    ensures var bytes := Min(left, chunk * SECTOR_SIZE - off);
            && Standing(first, count, off0, len, chunk, k + chunk, i + chunk, done + bytes, left - bytes, 0)
            && 0 <= bytes && 0 <= done && done + bytes <= len && off + bytes <= chunk * SECTOR_SIZE
            && i * SECTOR_SIZE + chunk * SECTOR_SIZE <= size && first * SECTOR_SIZE + off0 + done + bytes <= size
            && (bytes > 0 ==> i * SECTOR_SIZE + off == first * SECTOR_SIZE + off0 + done)
  {
    assert Span(k + chunk, count, chunk) == Span(0, count, chunk);
  }

  lemma StandingDone(first: nat, count: int, off0: nat, len: nat, chunk: nat,
                     k: nat, i: int, done: int, left: int, off: int)
    requires chunk > 0 && k >= count && Standing(first, count, off0, len, chunk, k, i, done, left, off)
    ensures done == MovedBy(off0, len, Span(0, count, chunk))
  {
  }

  // ------------------------------------------------------------------ flat files

  /** The bytes of the sectors allotted to a file. */
  function Content(d: Bytes, start: nat, nrSects: nat): Bytes
    requires (start + nrSects) * SECTOR_SIZE <= |d|
  {
    d[start * SECTOR_SIZE..(start + nrSects) * SECTOR_SIZE]
  }

  /**
   Writing inside the allotment is a splice of that file and leaves every file with other sectors alone;
   reading the same range back yields what was written.
   */
  lemma FilesAreFlat(d: Bytes, start: nat, nrSects: nat, pos: nat, data: Bytes, start2: nat, nrSects2: nat)
    requires (start + nrSects) * SECTOR_SIZE <= |d| && (start2 + nrSects2) * SECTOR_SIZE <= |d|
    requires pos + |data| <= nrSects * SECTOR_SIZE
    ensures var d' := Splice(d, start * SECTOR_SIZE + pos, data);
            && |d'| == |d|
            && Content(d', start, nrSects) == Splice(Content(d, start, nrSects), pos, data)
            && d'[start * SECTOR_SIZE + pos..start * SECTOR_SIZE + pos + |data|] == data
            && (start + nrSects <= start2 || start2 + nrSects2 <= start ==>
                  Content(d', start2, nrSects2) == Content(d, start2, nrSects2))
  {
    var (lo, hi) := (start * SECTOR_SIZE, (start + nrSects) * SECTOR_SIZE);
    SpliceInside(d, lo, hi, pos, data);
    if start + nrSects <= start2 || start2 + nrSects2 <= start {
      SpliceOutside(d, lo + pos, data, start2 * SECTOR_SIZE, (start2 + nrSects2) * SECTOR_SIZE);
    }
  }

  lemma SpliceInside(d: Bytes, lo: nat, hi: nat, pos: nat, data: Bytes)
    requires lo + pos + |data| <= hi <= |d|
    ensures var d' := Splice(d, lo + pos, data);
            && d'[lo..hi] == Splice(d[lo..hi], pos, data)
            && d'[lo + pos..lo + pos + |data|] == data
  {
    var file := d[lo..hi];
    assert d[..lo + pos] == d[..lo] + file[..pos];
    assert d[lo + pos + |data|..] == file[pos + |data|..] + d[hi..];
    var spliced := file[..pos] + data + file[pos + |data|..];
    assert Splice(d, lo + pos, data) == d[..lo] + spliced + d[hi..];
  }

  lemma SpliceAt(d: Bytes, at: nat, data: Bytes, k: nat)
    requires at + |data| <= |d| && k < |d|
    ensures |Splice(d, at, data)| == |d|
    ensures Splice(d, at, data)[k] == if at <= k < at + |data| then data[k - at] else d[k]
  {
  }

  lemma NothingMoved(d: Bytes, b: Bytes, at: nat)
    requires at <= |d|
    ensures Splice(b, 0, d[at..at + 0]) == b && Splice(d, at, b[..0]) == d
  {
  }

  lemma SpliceOutside(d: Bytes, at: nat, data: Bytes, lo: nat, hi: nat)
    requires at + |data| <= |d| && lo <= hi <= |d| && (hi <= at || at + |data| <= lo)
    ensures Splice(d, at, data)[lo..hi] == d[lo..hi]
  {
    var d' := Splice(d, at, data);
    forall i | lo <= i < hi ensures d'[i] == d[i] {
      SpliceAt(d, at, data, i);
    }
  }

  /** The first byte written behind a file's sectors is the first byte of the file behind it. */
  lemma OverrunsNextFile(d: Bytes, start: nat, nrSects: nat, x: bv8)
    requires (start + nrSects + 1) * SECTOR_SIZE <= |d| && nrSects > 0
    ensures var pos := nrSects * SECTOR_SIZE;
            && Moved(pos, 1, nrSects * SECTOR_SIZE) == 1
            && Content(Splice(d, start * SECTOR_SIZE + pos, [x]), start + nrSects, 1)[0] == x
  {
    var pos := nrSects * SECTOR_SIZE;
    assert Count(pos, 1, pos) == 1 && Span(0, 1, 1) == Span(1, 1, 1) == 1;
    SpliceAt(d, start * SECTOR_SIZE + pos, [x], (start + nrSects) * SECTOR_SIZE);
  }

  /** Two writes in a row, the second starting where the first left the position, are one write. */
  lemma WritesJoin(d: Bytes, at: nat, a: Bytes, b: Bytes)
    requires at + |a| + |b| <= |d|
    ensures Splice(Splice(d, at, a), at + |a|, b) == Splice(d, at, a + b)
  {
  }

  /** From disk d and caller's buffer b, n bytes have been moved to or from the disk at `at`, and nothing else. */
  ghost predicate Carried(isRead: bool, d: Bytes, d': Bytes, b: Bytes, b': Bytes, at: nat, n: int) {
    if n <= 0 then d' == d && b' == b
    else
      && at + n <= |d| && n <= |b|
      && if isRead then d' == d && b' == Splice(b, 0, d[at..at + n])
         else b' == b && d' == Splice(d, at, b[..n])
  }

  class OpenFile {
    const disk: array<bv8>
    const fsbuf: array<bv8>
    const startSect: nat     // i_start_sect
    const nrSects: nat       // i_nr_sects
    const readWrite: bool    // fd_mode & O_RDWR
    var size: nat            // i_size
    var diskSize: nat        // i_size of the i-node on disk
    var pos: nat             // fd_pos

    ghost predicate Valid()
      reads this
    {
      fsbuf.Length == MAX_CHUNK * SECTOR_SIZE && disk != fsbuf && diskSize == size
    }

    /** What bounds a request: the end of the file, or the end of its sectors. */
    function Limit(isRead: bool): int
      reads this
    {
      if isRead then size else nrSects * SECTOR_SIZE
    }

    /** rw_sector with DEV_READ, an ideal disk. */
    method ReadSectors(at: nat, n: nat)
      requires fsbuf.Length == MAX_CHUNK * SECTOR_SIZE && disk != fsbuf
      requires n <= fsbuf.Length && at + n <= disk.Length
      modifies fsbuf
      ensures fsbuf[..n] == disk[at..at + n]
    {
      forall i | 0 <= i < n { fsbuf[i] := disk[at + i]; }
    }

    /** rw_sector with DEV_WRITE. */
    method WriteSectors(at: nat, n: nat)
      requires fsbuf.Length == MAX_CHUNK * SECTOR_SIZE && disk != fsbuf
      requires n <= fsbuf.Length && at + n <= disk.Length
      modifies disk
      ensures disk[..] == Splice(old(disk[..]), at, fsbuf[..n])
    {
      forall i | 0 <= i < n { disk[at + i] := fsbuf[i]; }
    }

    /** The caller's bytes, of which there are enough, have been moved from or to the disk at `at`. */
    lemma ProgressCarries(isRead: bool, buf: array<bv8>, d: Bytes, b: Bytes, at: nat, done: int)
      requires Progress(isRead, buf, d, b, at, done)
      ensures Carried(isRead, d, disk[..], b, buf[..], at, done)
    {
      NothingMoved(d, b, at);
    }

    /** One round of the loop for a write: read the chunk, overlay the caller's bytes, write it back. */
    method WriteChunk(at: nat, n: nat, off: nat, buf: array<bv8>, from: nat, bytes: nat)
      requires fsbuf.Length == MAX_CHUNK * SECTOR_SIZE && disk != fsbuf && buf != disk && buf != fsbuf
      requires n <= fsbuf.Length && at + n <= disk.Length && off + bytes <= n && from + bytes <= buf.Length
      modifies disk, fsbuf
      ensures disk[..] == Splice(old(disk[..]), at + off, buf[from..from + bytes])
    {
      ghost var d := disk[..];
      ReadSectors(at, n);
      OverlayBuffer(n, off, buf, from, bytes);
      WriteSectors(at, n);
      OverlayIsSplice(d, at, n, off, buf[from..from + bytes]);
    }

    /** Puts the caller's bytes over those of the buffer, of which the first n are in use. */
    method OverlayBuffer(ghost n: nat, off: nat, buf: array<bv8>, from: nat, bytes: nat)
      requires buf != fsbuf && off + bytes <= n <= fsbuf.Length && from + bytes <= buf.Length
      modifies fsbuf
      ensures fsbuf[..n] == Splice(old(fsbuf[..n]), off, buf[from..from + bytes])
    {
      ghost var chunk, data := fsbuf[..n], buf[from..from + bytes];
      forall i | 0 <= i < bytes { fsbuf[off + i] := buf[from + i]; }
      forall k | 0 <= k < n ensures fsbuf[k] == Splice(chunk, off, data)[k] {
        SpliceAt(chunk, off, data, k);
      }
    }

    /** One round for a read. */
    method ReadChunk(at: nat, n: nat, off: nat, buf: array<bv8>, to: nat, bytes: nat)
      requires fsbuf.Length == MAX_CHUNK * SECTOR_SIZE && disk != fsbuf && buf != disk && buf != fsbuf
      requires n <= fsbuf.Length && at + n <= disk.Length && off + bytes <= n && to + bytes <= buf.Length
      modifies fsbuf, buf
      ensures buf[..] == Splice(old(buf[..]), to, disk[at + off..at + off + bytes])
    {
      ReadSectors(at, n);
      SliceOfSlice(fsbuf[..], 0, n, off, off + bytes);
      SliceOfSlice(disk[..], at, at + n, off, off + bytes);
      assert fsbuf[..][0..n] == disk[..][at..at + n];
      CopyOut(off, buf, to, bytes);
    }

    /** phys_copy from the buffer to the caller. */
    method CopyOut(off: nat, buf: array<bv8>, to: nat, bytes: nat)
      requires buf != fsbuf && off + bytes <= fsbuf.Length && to + bytes <= buf.Length
      modifies buf
      ensures buf[..] == Splice(old(buf[..]), to, fsbuf[..][off..off + bytes])
    {
      ghost var got := fsbuf[..][off..off + bytes];
      forall i | 0 <= i < bytes { buf[to + i] := fsbuf[off + i]; }
      forall k | 0 <= k < buf.Length ensures buf[k] == Splice(old(buf[..]), to, got)[k] {
        SpliceAt(old(buf[..]), to, got, k);
      }
      assert buf[..] == Splice(old(buf[..]), to, got);
    }

    /** What disk and buffer are to be then. */
    function Target(isRead: bool, d: Bytes, b: Bytes, at: nat, done: nat): (Bytes, Bytes)
      requires done <= |b| && at + done <= |d|
    {
      if isRead then (d, Splice(b, 0, d[at..at + done])) else (Splice(d, at, b[..done]), b)
    }

    /** After `done` bytes of a request at disk offset `at`, started with disk d and caller's buffer b. */
    ghost predicate Progress(isRead: bool, buf: array<bv8>, d: Bytes, b: Bytes, at: nat, done: int)
      reads disk, buf
    {
      && 0 <= done <= |b| && at + done <= |d| == disk.Length
      && (disk[..], buf[..]) == Target(isRead, d, b, at, done)
    }

    /** One round of the loop: the chunk of n bytes at disk offset `where`, of which `bytes` from off on are moved. */
    method Round(isRead: bool, where: nat, n: nat, off: nat, buf: array<bv8>, done: nat, bytes: nat,
                 ghost d: Bytes, ghost b: Bytes, ghost at: nat)
      requires fsbuf.Length == MAX_CHUNK * SECTOR_SIZE && disk != fsbuf && buf != disk && buf != fsbuf
      requires n <= fsbuf.Length && where + n <= disk.Length && off + bytes <= n && done + bytes <= buf.Length
      requires Progress(isRead, buf, d, b, at, done)
      requires bytes > 0 ==> where + off == at + done
      requires at + done + bytes <= |d|
      modifies disk, fsbuf, buf
      ensures Progress(isRead, buf, d, b, at, done + bytes)
    {
      if isRead {
        ReadChunk(where, n, off, buf, done, bytes);
        ReadsJoin(b, d, at, done, bytes, where + off);
      } else {
        WriteChunk(where, n, off, buf, done, bytes);
        WriteGrows(d, at, b, done, bytes, where + off);
      }
    }

    /** One round of the loop, which stands at sector i with `done` bytes moved and `left` to move. */
    method NextChunk(isRead: bool, i: int, chunk: nat, off: int, buf: array<bv8>, done: int, left: int, ghost len: nat,
                     ghost first: nat, ghost count: int, ghost off0: nat, ghost k: nat,
                     ghost d: Bytes, ghost b: Bytes, ghost at: nat)
      returns (bytes: int)
      requires fsbuf.Length == MAX_CHUNK * SECTOR_SIZE && disk != fsbuf && buf != disk && buf != fsbuf
      requires 0 < chunk <= MAX_CHUNK && off0 < SECTOR_SIZE && k < count && at == first * SECTOR_SIZE + off0
      requires (first + Span(0, count, chunk)) * SECTOR_SIZE <= disk.Length && len <= buf.Length
      requires Standing(first, count, off0, len, chunk, k, i, done, left, off)
      requires Progress(isRead, buf, d, b, at, done)
      modifies this`pos, disk, fsbuf, buf
      ensures pos == old(pos) + bytes
      ensures Standing(first, count, off0, len, chunk, k + chunk, i + chunk, done + bytes, left - bytes, 0)
      ensures Progress(isRead, buf, d, b, at, done + bytes)
    {
      StandingNext(first, count, off0, len, chunk, k, i, done, left, off, disk.Length);
      bytes := Min(left, chunk * SECTOR_SIZE - off);
      Round(isRead, i * SECTOR_SIZE, chunk * SECTOR_SIZE, off, buf, done, bytes, d, b, at);
      pos := pos + bytes;
    }

    /** The transfer of do_rdwt, by the sectors [sectMin, sectMax], `chunk` at a time. */
    method Transfer(isRead: bool, buf: array<bv8>, len: nat, sectMin: int, sectMax: int, chunk: nat)
      returns (bytesRw: int)
      requires fsbuf.Length == MAX_CHUNK * SECTOR_SIZE && disk != fsbuf && buf != disk && buf != fsbuf
      requires len <= buf.Length && sectMin == startSect + pos / SECTOR_SIZE <= sectMax && 1 <= chunk <= MAX_CHUNK
      requires (sectMin + Span(0, sectMax - sectMin + 1, chunk)) * SECTOR_SIZE <= disk.Length
      modifies this`pos, disk, fsbuf, buf
      ensures bytesRw == MovedBy(old(pos) % SECTOR_SIZE, len, Span(0, sectMax - sectMin + 1, chunk))
      ensures pos == old(pos) + bytesRw
      ensures Progress(isRead, buf, old(disk[..]), old(buf[..]), startSect * SECTOR_SIZE + old(pos), bytesRw)
    {
      var off := pos % SECTOR_SIZE;
      ghost var d, b, at := disk[..], buf[..], startSect * SECTOR_SIZE + pos;
      assert at == sectMin * SECTOR_SIZE + off && at <= |d|;
      NothingMoved(d, b, at);
      bytesRw := Chunks(isRead, buf, len, sectMin, sectMax, chunk, off, d, b, at);
    }

    /** The loop itself. */
    method Chunks(isRead: bool, buf: array<bv8>, len: nat, sectMin: nat, sectMax: int, chunk: nat, off0: nat,
                  ghost d: Bytes, ghost b: Bytes, ghost at: nat)
      returns (bytesRw: int)
      requires fsbuf.Length == MAX_CHUNK * SECTOR_SIZE && disk != fsbuf && buf != disk && buf != fsbuf
      requires len <= buf.Length && sectMin <= sectMax && 1 <= chunk <= MAX_CHUNK && off0 < SECTOR_SIZE
      requires (sectMin + Span(0, sectMax - sectMin + 1, chunk)) * SECTOR_SIZE <= disk.Length
      requires at == sectMin * SECTOR_SIZE + off0 && Progress(isRead, buf, d, b, at, 0)
      modifies this`pos, disk, fsbuf, buf
      ensures bytesRw == MovedBy(off0, len, Span(0, sectMax - sectMin + 1, chunk)) && pos == old(pos) + bytesRw
      ensures Progress(isRead, buf, d, b, at, bytesRw)
    {
      var off := off0;
      ghost var count, k: nat := sectMax - sectMin + 1, 0;
      bytesRw := 0;
      var bytesLeft := len;
      var i := sectMin;
      while i <= sectMax
        invariant Standing(sectMin, count, off0, len, chunk, k, i, bytesRw, bytesLeft, off)
        invariant pos == old(pos) + bytesRw
        invariant Progress(isRead, buf, d, b, at, bytesRw)
        decreases sectMax - i
      {
        var bytes := NextChunk(isRead, i, chunk, off, buf, bytesRw, bytesLeft, len, sectMin, count, off0, k, d, b, at);
        off := 0;
        bytesRw := bytesRw + bytes;
        bytesLeft := bytesLeft - bytes;
        i := i + chunk;
        k := k + chunk;
      }
      StandingDone(sectMin, count, off0, len, chunk, k, i, bytesRw, bytesLeft, off);
    }

    /** do_rdwt for a regular file or directory; returns the number of bytes moved. */
    method DoRdwt(isRead: bool, buf: array<bv8>, len: nat) returns (bytesRw: int)
      requires Valid() && buf != disk && buf != fsbuf && len <= buf.Length
      requires (startSect + pos / SECTOR_SIZE + Touched(pos, len, Limit(isRead))) * SECTOR_SIZE <= disk.Length
      modifies this, disk, fsbuf, buf
      ensures Valid()
      ensures bytesRw == if readWrite then Moved(old(pos), len, old(Limit(isRead))) else 0
      ensures pos == old(pos) + bytesRw
      ensures size == if readWrite && pos > old(size) then pos else old(size)
      ensures 0 <= bytesRw <= len
      ensures Carried(isRead, old(disk[..]), disk[..], old(buf[..]), buf[..],
                      startSect * SECTOR_SIZE + old(pos), bytesRw)
    {
      if !readWrite {
        return 0;
      }
      ghost var limit := Limit(isRead);
      var posEnd := if isRead then Min(pos + len, size) else Min(pos + len, nrSects * SECTOR_SIZE);
      var sectMin := startSect + pos / SECTOR_SIZE;
      var sectMax := startSect + posEnd / SECTOR_SIZE;
      var chunk := Min(sectMax - sectMin + 1, MAX_CHUNK);
      assert sectMax - sectMin + 1 == Count(pos, len, limit) && chunk == Chunk(pos, len, limit);
      bytesRw := 0;
      if sectMin <= sectMax {
        ghost var d, b, at := disk[..], buf[..], startSect * SECTOR_SIZE + pos;
        bytesRw := Transfer(isRead, buf, len, sectMin, sectMax, chunk);
        ProgressCarries(isRead, buf, d, b, at, bytesRw);
      }
      if pos > size {
        size := pos;
        diskSize := size;   // sync_inode
      }
    }
  }

  lemma OverlayIsSplice(d: Bytes, at: nat, n: nat, off: nat, data: Bytes)
    requires at + n <= |d| && off + |data| <= n
    ensures Splice(d, at, Splice(d[at..at + n], off, data)) == Splice(d, at + off, data)
  {
  }

  /** A further chunk of a write, which is empty unless it continues where the last one ended. */
  lemma WriteGrows(d: Bytes, at: nat, b: Bytes, done: nat, bytes: nat, where: nat)
    requires at + done + bytes <= |d| && done + bytes <= |b| && where + bytes <= |d|
    requires bytes > 0 ==> where == at + done
    ensures Splice(Splice(d, at, b[..done]), where, b[done..done + bytes]) == Splice(d, at, b[..done + bytes])
  {
    if bytes > 0 {
      WritesJoin(d, at, b[..done], b[done..done + bytes]);
      assert b[..done] + b[done..done + bytes] == b[..done + bytes];
    } else {
      NothingSpliced(Splice(d, at, b[..done]), where);
      assert b[..done + bytes] == b[..done] && b[done..done + bytes] == [];
    }
  }

  lemma ReadsJoin(b: Bytes, d: Bytes, at: nat, done: nat, bytes: nat, where: nat)
    requires at + done + bytes <= |d| && done + bytes <= |b| && where + bytes <= |d|
    requires bytes > 0 ==> where == at + done
    ensures Splice(Splice(b, 0, d[at..at + done]), done, d[where..where + bytes])
         == Splice(b, 0, d[at..at + done + bytes])
  {
    var (got, more) := (d[at..at + done], d[where..where + bytes]);
    assert |Splice(b, 0, got)| == |b|;
    if bytes > 0 {
      WritesJoin(b, 0, got, more);
      assert got + more == d[at..at + done + bytes];
    } else {
      NothingSpliced(Splice(b, 0, got), done);
      assert more == [];
    }
  }

  lemma NothingSpliced(d: Bytes, at: nat)
    requires at <= |d|
    ensures Splice(d, at, []) == d
  {
  }
}
