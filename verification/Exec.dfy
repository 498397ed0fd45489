/**
 Passing arguments to a new program: execv of lib/exec.c builds a block of pointers and strings for its own
 address, do_exec of mm/exec.c moves it to the top of the new image.
 */
module Exec {
  import opened Slices

  const PROC_ORIGIN_STACK := 0x400
  const PROC_IMAGE_SIZE_DEFAULT := 0x100000
  const ORIG_STACK := PROC_IMAGE_SIZE_DEFAULT - PROC_ORIGIN_STACK
  const PTR_SIZE := 4   // sizeof(char*)

  newtype byte = x: int | 0 <= x < 256

  type Bytes = seq<byte>

  /** A C string without its NUL. */
  type Text = s: Bytes | 0 !in s

  type Argv = seq<Text>

  // ------------------------------------------------------------------ pointers in memory

  function Wrap32(x: int): nat { x % 0x1_0000_0000 }

  /** Little-endian. */
  function Value(s: Bytes): nat {
    if s == [] then 0 else s[0] as int + 0x100 * Value(s[1..])
  }

  function Digits(w: nat, n: nat): (s: Bytes)
    ensures |s| == n
  {
    if n == 0 then [] else [(w % 0x100) as byte] + Digits(w / 0x100, n - 1)
  }

  function Limit(n: nat): nat { if n == 0 then 1 else 0x100 * Limit(n - 1) }

  lemma {:induction false} ValueOfDigits(w: nat, n: nat)
    requires w < Limit(n)
    ensures Value(Digits(w, n)) == w
  {
    if n == 0 {
    } else {
      ValueOfDigits(w / 0x100, n - 1);
      assert Digits(w, n)[1..] == Digits(w / 0x100, n - 1);
    }
  }

  lemma {:induction false} ValueBounded(s: Bytes)
    ensures Value(s) < Limit(|s|)
  {
    if s == [] {
    } else {
      ValueBounded(s[1..]);
    }
  }

  lemma WordLimit()
    ensures Limit(PTR_SIZE) == 0x1_0000_0000
  {
    assert Limit(1) == 0x100 && Limit(2) == 0x1_0000 && Limit(3) == 0x100_0000;
  }

  /** The word at an address. */
  function Word(b: Bytes, at: nat): (w: nat)
    requires at + PTR_SIZE <= |b|
    ensures w < 0x1_0000_0000
  {
    ValueBounded(b[at..at + PTR_SIZE]);
    WordLimit();
    Value(b[at..at + PTR_SIZE])
  }

  function WordBytes(w: nat): (b: Bytes)
    ensures |b| == PTR_SIZE
  {
    Digits(w, PTR_SIZE)
  }

  lemma WordOfBytes(b: Bytes, at: nat)
    requires at + PTR_SIZE <= |b|
    ensures Word(b, at) == b[at] as int + 0x100 * b[at + 1] as int + 0x1_0000 * b[at + 2] as int
                           + 0x100_0000 * b[at + 3] as int
  {
    var s := b[at..at + PTR_SIZE];
    assert s[1..][1..] == s[2..] && s[2..][1..] == s[3..] && s[3..][1..] == [];
    assert Value(s[3..]) == s[3] as int && Value(s[2..]) == s[2] as int + 0x100 * Value(s[3..]);
    assert Value(s[1..]) == s[1] as int + 0x100 * Value(s[2..]);
  }

  function Overlay(b: Bytes, at: nat, s: Bytes): (r: Bytes)
    requires at + |s| <= |b|
    ensures |r| == |b|
  {
    b[..at] + s + b[at + |s|..]
  }

  lemma OverlaySpares(b: Bytes, at: nat, s: Bytes, base: nat, len: nat)
    requires at + |s| <= |b| && base + len <= |b| && (at + |s| <= base || base + len <= at)
    ensures Overlay(b, at, s)[base..base + len] == b[base..base + len]
  {
  }

  lemma StoredWord(b: Bytes, at: nat, w: nat)
    requires at + PTR_SIZE <= |b| && w < 0x1_0000_0000
    ensures Word(Overlay(b, at, WordBytes(w)), at) == w
  {
    WordLimit();
    ValueOfDigits(w, PTR_SIZE);
    assert Overlay(b, at, WordBytes(w))[at..at + PTR_SIZE] == WordBytes(w);
  }

  /** A word outside the bytes overlaid stays. */
  lemma OtherWord(b: Bytes, at: nat, s: Bytes, k: nat)
    requires at + |s| <= |b| && k + PTR_SIZE <= |b| && (k + PTR_SIZE <= at || at + |s| <= k)
    ensures Word(Overlay(b, at, s), k) == Word(b, k)
  {
    OverlaySpares(b, at, s, k, PTR_SIZE);
  }

  // ------------------------------------------------------------------ the argument block

  predicate StringAt(b: Bytes, at: int, s: Text) {
    0 <= at && at + |s| < |b| && b[at..at + |s|] == s && b[at + |s|] == 0
  }

  lemma OverlaidString(b: Bytes, at: nat, s: Text)
    requires at + |s| < |b|
    ensures StringAt(Overlay(b, at, s + [0]), at, s)
  {
    assert Overlay(b, at, s + [0])[at..at + |s|] == s;
  }

  lemma OtherString(b: Bytes, at: nat, s: Bytes, k: nat, t: Text)
    requires at + |s| <= |b| && StringAt(b, k, t) && (k + |t| < at || at + |s| <= k)
    ensures StringAt(Overlay(b, at, s), k, t)
  {
    var r := Overlay(b, at, s);
    OverlaySpares(b, at, s, k, |t|);
    assert k + |t| < at ==> r[k + |t|] == b[..at][k + |t|];
    assert at + |s| <= k ==> r[k + |t|] == b[at + |s|..][k + |t| - at - |s|];
  }

  /** The value of pointer i of a block loaded at address `base`, as an offset into the block. */
  function Pointer(b: Bytes, base: int, i: nat): int
    requires PTR_SIZE * i + PTR_SIZE <= |b|
  {
    Word(b, PTR_SIZE * i) - base
  }

  predicate NullAt(b: Bytes, at: nat) { at + PTR_SIZE <= |b| && Word(b, at) == 0 }

  /** Pointer i is not null and points to a NUL-terminated copy of s, behind the first `vector` bytes. */
  predicate PointsTo(b: Bytes, base: int, i: nat, s: Text, vector: nat) {
    && PTR_SIZE * i + PTR_SIZE <= |b| && Word(b, PTR_SIZE * i) != 0
    && Pointer(b, base, i) >= vector && StringAt(b, Pointer(b, base, i), s)
  }

  /** The string s of pointer i ends before that of pointer j. */
  predicate EndsBefore(b: Bytes, base: int, i: nat, s: Text, j: nat) {
    && PTR_SIZE * i + PTR_SIZE <= |b| && PTR_SIZE * j + PTR_SIZE <= |b|
    && Pointer(b, base, i) + |s| < Pointer(b, base, j)
  }

  /**
   A block loaded at `base` is an argv: a null-terminated vector of pointers, each to a NUL-terminated copy
   of its argument inside the block, no two copies overlapping and none overlapping the vector.
   */
  ghost predicate IsArgv(b: Bytes, base: int, argv: Argv) {
    && NullAt(b, PTR_SIZE * |argv|)
    && (forall i :: 0 <= i < |argv| ==> PointsTo(b, base, i, argv[i], PTR_SIZE * |argv| + PTR_SIZE))
    && (forall i, j :: 0 <= i < j < |argv| ==> EndsBefore(b, base, i, argv[i], j))
  }

  // ------------------------------------------------------------------ building it

  /** Where execv puts argument i; with i the number of arguments, the length of the block. */
  function Offset(argv: Argv, i: nat): (k: nat)
    requires i <= |argv|
    ensures k >= PTR_SIZE * |argv| + PTR_SIZE
  {
    if i == 0 then PTR_SIZE * |argv| + PTR_SIZE else Offset(argv, i - 1) + |argv[i - 1]| + 1
  }

  lemma {:induction false} OffsetsGrow(argv: Argv, i: nat, j: nat)
    requires i < j <= |argv|
    ensures Offset(argv, i) + |argv[i]| < Offset(argv, j)
  {
    if i == j - 1 {
    } else {
      OffsetsGrow(argv, i, j - 1);
    }
  }

  lemma OffsetsOrdered(argv: Argv, i: nat, j: nat)
    requires i <= j <= |argv|
    ensures Offset(argv, i) <= Offset(argv, j)
  {
    if i < j {
      OffsetsGrow(argv, i, j);
    }
  }

  /** Pointer i and the copy of argument i. */
  predicate Entry(b: Bytes, base: nat, argv: Argv, i: nat)
    requires i < |argv|
  {
    && PTR_SIZE * i + PTR_SIZE <= |b|
    && Word(b, PTR_SIZE * i) == base + Offset(argv, i) && StringAt(b, Offset(argv, i), argv[i])
  }

  /** The block after i arguments. */
  ghost predicate Built(b: Bytes, base: nat, argv: Argv, i: nat)
    requires i <= |argv|
  {
    NullAt(b, PTR_SIZE * |argv|) && forall j :: 0 <= j < i ==> Entry(b, base, argv, j)
  }

  /** An overlay that touches neither pointer j nor copy j. */
  lemma EntryStays(b: Bytes, base: nat, argv: Argv, j: nat, at: nat, s: Bytes)
    requires j < |argv| && Entry(b, base, argv, j) && at + |s| <= |b|
    requires PTR_SIZE * j + PTR_SIZE <= at && (at + |s| <= PTR_SIZE * |argv| + PTR_SIZE || Offset(argv, j + 1) <= at)
    ensures Entry(Overlay(b, at, s), base, argv, j)
  {
    OtherWord(b, at, s, PTR_SIZE * j);
    OffsetsGrow(argv, j, j + 1);
    OtherString(b, at, s, Offset(argv, j), argv[j]);
  }

  lemma StaysBehind(b: Bytes, base: nat, argv: Argv, j: nat, at: nat, s: Bytes)
    requires j < |argv| && Entry(b, base, argv, j) && at + |s| <= |b| && Offset(argv, j + 1) <= at
    ensures Entry(Overlay(b, at, s), base, argv, j)
  {
    EntryStays(b, base, argv, j, at, s);
  }

  function WithPointer(b: Bytes, base: nat, argv: Argv, i: nat): (r: Bytes)
    requires i < |argv| && PTR_SIZE * i + PTR_SIZE <= |b| && base + Offset(argv, i) < 0x1_0000_0000
    ensures |r| == |b|
  {
    Overlay(b, PTR_SIZE * i, WordBytes(base + Offset(argv, i)))
  }

  /** Pointer and copy i stored. */
  function WithArgument(b: Bytes, base: nat, argv: Argv, i: nat): (r: Bytes)
    requires i < |argv| && Offset(argv, i) + |argv[i]| < |b| && base + |b| <= 0x1_0000_0000
    ensures |r| == |b|
  {
    Overlay(WithPointer(b, base, argv, i), Offset(argv, i), argv[i] + [0])
  }

  lemma EntryMade(b: Bytes, base: nat, argv: Argv, i: nat)
    requires i < |argv| && Offset(argv, i) + |argv[i]| < |b| && base + |b| <= 0x1_0000_0000
    ensures Entry(WithArgument(b, base, argv, i), base, argv, i)
  {
    var at := Offset(argv, i);
    var b1 := WithPointer(b, base, argv, i);
    StoredWord(b, PTR_SIZE * i, base + at);
    OtherWord(b1, at, argv[i] + [0], PTR_SIZE * i);
    OverlaidString(b1, at, argv[i]);
  }

  lemma PointerSpares(b: Bytes, base: nat, argv: Argv, i: nat, j: nat)
    requires j < i < |argv| && Offset(argv, i) + |argv[i]| < |b| && base + |b| <= 0x1_0000_0000
    requires Entry(b, base, argv, j)
    ensures Entry(WithPointer(b, base, argv, i), base, argv, j)
  {
    EntryStays(b, base, argv, j, PTR_SIZE * i, WordBytes(base + Offset(argv, i)));
  }

  lemma EntryKept(b: Bytes, base: nat, argv: Argv, i: nat, j: nat)
    requires j < i < |argv| && Offset(argv, i) + |argv[i]| < |b| && base + |b| <= 0x1_0000_0000
    requires Entry(b, base, argv, j)
    ensures Entry(WithArgument(b, base, argv, i), base, argv, j)
  {
    PointerSpares(b, base, argv, i, j);
    OffsetsOrdered(argv, j + 1, i);
    StaysBehind(WithPointer(b, base, argv, i), base, argv, j, Offset(argv, i), argv[i] + [0]);
  }

  lemma NullKept(b: Bytes, base: nat, argv: Argv, i: nat)
    requires i < |argv| && Offset(argv, i) + |argv[i]| < |b| && base + |b| <= 0x1_0000_0000
    requires NullAt(b, PTR_SIZE * |argv|)
    ensures NullAt(WithArgument(b, base, argv, i), PTR_SIZE * |argv|)
  {
    OtherWord(b, PTR_SIZE * i, WordBytes(base + Offset(argv, i)), PTR_SIZE * |argv|);
    OtherWord(WithPointer(b, base, argv, i), Offset(argv, i), argv[i] + [0], PTR_SIZE * |argv|);
  }

  lemma BuiltOneMore(b: Bytes, base: nat, argv: Argv, i: nat)
    requires i < |argv| && NullAt(b, PTR_SIZE * |argv|) && Entry(b, base, argv, i)
    requires forall j :: 0 <= j < i ==> Entry(b, base, argv, j)
    ensures Built(b, base, argv, i + 1)
  {
  }

  lemma BuiltNext(b: Bytes, base: nat, argv: Argv, i: nat)
    requires i < |argv| && Built(b, base, argv, i) && Offset(argv, i) + |argv[i]| < |b|
    requires base + |b| <= 0x1_0000_0000
    ensures Built(WithArgument(b, base, argv, i), base, argv, i + 1)
  {
    NullKept(b, base, argv, i);
    EntryMade(b, base, argv, i);
    forall j: nat | j < i {
      EntryKept(b, base, argv, i, j);
    }
    BuiltOneMore(WithArgument(b, base, argv, i), base, argv, i);
  }

  lemma CutWord(b: Bytes, len: nat, at: nat)
    requires at + PTR_SIZE <= len <= |b|
    ensures Word(b[..len], at) == Word(b, at)
  {
    SliceOfSlice(b, 0, len, at, at + PTR_SIZE);
  }

  lemma CutString(b: Bytes, len: nat, at: nat, s: Text)
    requires at + |s| < len <= |b| && StringAt(b, at, s)
    ensures StringAt(b[..len], at, s)
  {
    SliceOfSlice(b, 0, len, at, at + |s|);
  }

  lemma CutPoints(b: Bytes, base: nat, j: nat, s: Text, k: nat, len: nat, vector: nat)
    requires PTR_SIZE * j + PTR_SIZE <= len <= |b| && Word(b, PTR_SIZE * j) == base + k && base > 0
    requires StringAt(b, k, s) && k + |s| < len && vector <= k
    ensures PointsTo(b[..len], base, j, s, vector) && Pointer(b[..len], base, j) == k
  {
    CutWord(b, len, PTR_SIZE * j);
    CutString(b, len, k, s);
  }

  lemma EntryCut(b: Bytes, base: nat, argv: Argv, j: nat)
    requires j < |argv| && Entry(b, base, argv, j) && Offset(argv, |argv|) <= |b| && base > 0
    ensures var r := b[..Offset(argv, |argv|)];
            PointsTo(r, base, j, argv[j], PTR_SIZE * |argv| + PTR_SIZE) && Pointer(r, base, j) == Offset(argv, j)
  {
    OffsetsGrow(argv, j, |argv|);
    CutPoints(b, base, j, argv[j], Offset(argv, j), Offset(argv, |argv|), PTR_SIZE * |argv| + PTR_SIZE);
  }

  lemma BuiltIsArgv(b: Bytes, base: nat, argv: Argv)
    requires Built(b, base, argv, |argv|) && base > 0 && Offset(argv, |argv|) <= |b|
    ensures IsArgv(b[..Offset(argv, |argv|)], base, argv)
  {
    var n := |argv|;
    var r := b[..Offset(argv, n)];
    OffsetsOrdered(argv, 0, n);
    CutWord(b, Offset(argv, n), PTR_SIZE * n);
    forall j | 0 <= j < n ensures PointsTo(r, base, j, argv[j], PTR_SIZE * n + PTR_SIZE) {
      EntryCut(b, base, argv, j);
    }
    forall i, j | 0 <= i < j < n ensures EndsBefore(r, base, i, argv[i], j) {
      EntryCut(b, base, argv, i);
      EntryCut(b, base, argv, j);
      OffsetsGrow(argv, i, j);
    }
  }

  /** There is an argument block at every address. */
  lemma ArgvExists(base: nat, s: Text)
    requires 0 < base && base + |s| + 9 <= 0x1_0000_0000
    ensures exists b: Bytes :: |b| == |s| + 9 && IsArgv(b, base, [s])
  {
    var b: Bytes := Overlay(seq(|s| + 9, i => 0 as byte), PTR_SIZE, WordBytes(0));
    StoredWord(seq(|s| + 9, i => 0 as byte), PTR_SIZE, 0);
    assert Offset([s], 0) == 8 && Offset([s], 1) == |s| + 9;
    BuiltNext(b, base, [s], 0);
    var r := WithArgument(b, base, [s], 0);
    BuiltIsArgv(r, base, [s]);
    assert r[..|s| + 9] == r;
  }

  // ------------------------------------------------------------------ moving it

  /** The first i pointers moved by delta. */
  ghost predicate Moved(b: Bytes, b': Bytes, i: nat, delta: int)
    requires PTR_SIZE * i <= |b|
  {
    && |b'| == |b| && b'[PTR_SIZE * i..] == b[PTR_SIZE * i..]
    && forall j :: 0 <= j < i ==> Word(b', PTR_SIZE * j) == Wrap32(Word(b, PTR_SIZE * j) + delta)
  }

  lemma MovedNext(b: Bytes, b': Bytes, i: nat, delta: int)
    requires PTR_SIZE * i + PTR_SIZE <= |b| && Moved(b, b', i, delta)
    ensures Word(b', PTR_SIZE * i) == Word(b, PTR_SIZE * i)
    ensures Moved(b, Overlay(b', PTR_SIZE * i, WordBytes(Wrap32(Word(b, PTR_SIZE * i) + delta))), i + 1, delta)
  {
    var w := Wrap32(Word(b, PTR_SIZE * i) + delta);
    var r := Overlay(b', PTR_SIZE * i, WordBytes(w));
    SameWord(b, b', PTR_SIZE * i, PTR_SIZE * i);
    StoredWord(b', PTR_SIZE * i, w);
    forall j | 0 <= j < i ensures Word(r, PTR_SIZE * j) == Word(b', PTR_SIZE * j) {
      OtherWord(b', PTR_SIZE * i, WordBytes(w), PTR_SIZE * j);
    }
    assert r[PTR_SIZE * i + PTR_SIZE..] == b'[PTR_SIZE * i..][PTR_SIZE..] == b[PTR_SIZE * i + PTR_SIZE..];
  }

  /** Equal from some point on, two blocks have the same words and strings there. */
  lemma SameWord(b: Bytes, b': Bytes, from: nat, at: nat)
    requires |b| == |b'| && from <= at && at + PTR_SIZE <= |b| && b[from..] == b'[from..]
    ensures Word(b', at) == Word(b, at)
  {
    assert b[from..|b|] == b[from..] && b'[from..|b|] == b'[from..];
    SliceOfSlice(b, from, |b|, at - from, at - from + PTR_SIZE);
    SliceOfSlice(b', from, |b|, at - from, at - from + PTR_SIZE);
  }

  lemma SameString(b: Bytes, b': Bytes, from: nat, at: nat, s: Text)
    requires |b| == |b'| && from <= at && StringAt(b, at, s) && b[from..] == b'[from..]
    ensures StringAt(b', at, s)
  {
    assert b[from..|b|] == b[from..] && b'[from..|b|] == b'[from..];
    SliceOfSlice(b, from, |b|, at - from, at - from + |s|);
    SliceOfSlice(b', from, |b|, at - from, at - from + |s|);
    assert b[at + |s|] == b[from..][at + |s| - from] && b'[at + |s|] == b'[from..][at + |s| - from];
  }

  lemma MovedPoints(b: Bytes, b': Bytes, base: int, base': int, n: nat, i: nat, s: Text)
    requires i < n && PointsTo(b, base, i, s, PTR_SIZE * n + PTR_SIZE)
    requires PTR_SIZE * n <= |b| && Moved(b, b', n, base' - base)
    requires 0 < base' && base' + |b| <= 0x1_0000_0000
    ensures PointsTo(b', base', i, s, PTR_SIZE * n + PTR_SIZE) && Pointer(b', base', i) == Pointer(b, base, i)
  {
    SameString(b, b', PTR_SIZE * n, Pointer(b, base, i), s);
  }

  /** An argv moved by the distance between two addresses is an argv at the second, whatever wraps in between. */
  lemma MovedIsArgv(b: Bytes, b': Bytes, base: int, base': int, argv: Argv)
    requires IsArgv(b, base, argv) && Moved(b, b', |argv|, base' - base)
    requires 0 < base' && base' + |b| <= 0x1_0000_0000
    ensures IsArgv(b', base', argv)
  {
    var n := |argv|;
    SameWord(b, b', PTR_SIZE * n, PTR_SIZE * n);
    forall i | 0 <= i < n ensures PointsTo(b', base', i, argv[i], PTR_SIZE * n + PTR_SIZE) {
      MovedPoints(b, b', base, base', n, i, argv[i]);
    }
    forall i, j | 0 <= i < j < n ensures EndsBefore(b', base', i, argv[i], j) {
      assert EndsBefore(b, base, i, argv[i], j);
      MovedPoints(b, b', base, base', n, i, argv[i]);
      MovedPoints(b, b', base, base', n, j, argv[j]);
    }
  }

  lemma WrapsBack(w: nat, delta: int)
    requires w < 0x1_0000_0000
    ensures Wrap32(Wrap32(w + delta) - delta) == w
  {
  }

  lemma MovedBack(b: Bytes, b': Bytes, n: nat, delta: int)
    requires PTR_SIZE * n <= |b| && Moved(b, b', n, delta)
    ensures Moved(b', b, n, -delta)
  {
    forall j | 0 <= j < n ensures Word(b, PTR_SIZE * j) == Wrap32(Word(b', PTR_SIZE * j) + -delta) {
      WrapsBack(Word(b, PTR_SIZE * j), delta);
    }
  }

  predicate NotNull(b: Bytes, i: nat) { PTR_SIZE * i + PTR_SIZE <= |b| && Word(b, PTR_SIZE * i) != 0 }

  /** The first null word from number i on, or the number of whole words. */
  function FirstNull(b: Bytes, i: nat): (n: nat)
    ensures n >= i
    ensures PTR_SIZE * n + PTR_SIZE <= |b| ==> NullAt(b, PTR_SIZE * n)
    ensures forall j :: i <= j < n ==> NotNull(b, j)
    decreases |b| - PTR_SIZE * i
  {
    if NotNull(b, i) then FirstNull(b, i + 1) else i
  }

  lemma {:induction false} FirstNullIs(b: Bytes, i: nat, n: nat)
    requires i <= n && NullAt(b, PTR_SIZE * n) && forall j :: i <= j < n ==> NotNull(b, j)
    ensures FirstNull(b, i) == n
    decreases n - i
  {
    if i == n {
    } else {
      assert NotNull(b, i);
      FirstNullIs(b, i + 1, n);
    }
  }

  lemma ArgvEndsAtNull(b: Bytes, base: int, argv: Argv)
    requires IsArgv(b, base, argv)
    ensures FirstNull(b, 0) == |argv|
  {
    forall i | 0 <= i < |argv| ensures NotNull(b, i) {
      assert PointsTo(b, base, i, argv[i], PTR_SIZE * |argv| + PTR_SIZE);
    }
    FirstNullIs(b, 0, |argv|);
  }

  lemma OnlyArgvMoves(b: Bytes, b': Bytes, base: int, base': int, argv: Argv)
    requires PTR_SIZE * |argv| <= |b| && Moved(b, b', |argv|, base' - base) && IsArgv(b', base', argv)
    requires 0 < base && base + |b| <= 0x1_0000_0000
    ensures IsArgv(b, base, argv)
  {
    MovedBack(b, b', |argv|, base' - base);
    MovedIsArgv(b', b, base', base, argv);
  }

  /** Moving the pointers up to the first null makes an argv of an argv, and of nothing else. */
  lemma MovedIsArgvExactly(b: Bytes, b': Bytes, base: int, base': int, argv: Argv)
    requires PTR_SIZE * FirstNull(b, 0) + PTR_SIZE <= |b| && Moved(b, b', FirstNull(b, 0), base' - base)
    requires 0 < base && base + |b| <= 0x1_0000_0000 && 0 < base' && base' + |b| <= 0x1_0000_0000
    ensures IsArgv(b, base, argv) <==> FirstNull(b, 0) == |argv| && IsArgv(b', base', argv)
  {
    var n := FirstNull(b, 0);
    if IsArgv(b, base, argv) {
      ArgvEndsAtNull(b, base, argv);
      MovedIsArgv(b, b', base, base', argv);
    }
    if n == |argv| && IsArgv(b', base', argv) {
      OnlyArgvMoves(b, b', base, base', argv);
    }
  }

  // ------------------------------------------------------------------ the programs

  method StoreWord(a: array<byte>, at: nat, w: nat)
    requires at + PTR_SIZE <= a.Length && w < 0x1_0000_0000
    modifies a
    ensures a[..] == Overlay(old(a[..]), at, WordBytes(w))
  {
    var bytes := WordBytes(w);
    a[at], a[at + 1], a[at + 2], a[at + 3] := bytes[0], bytes[1], bytes[2], bytes[3];
  }

  method LoadWord(a: array<byte>, at: nat) returns (w: nat)
    requires at + PTR_SIZE <= a.Length
    ensures w == Word(a[..], at)
  {
    WordOfBytes(a[..], at);
    w := a[at] as int + 0x100 * a[at + 1] as int + 0x1_0000 * a[at + 2] as int + 0x100_0000 * a[at + 3] as int;
  }

  /** phys_copy of some bytes. */
  method Store(a: array<byte>, at: nat, s: Bytes)
    requires at + |s| <= a.Length
    modifies a
    ensures a[..] == Overlay(old(a[..]), at, s)
  {
    ghost var was := a[..];
    for k := 0 to |s|
      invariant a[..] == was[..at] + s[..k] + was[at + k..]
    {
      assert was[..at] + s[..k + 1] + was[at + k + 1..] == (was[..at] + s[..k] + was[at + k..])[at + k := s[k]];
      a[at + k] := s[k];
    }
    assert s[..|s|] == s;
  }

  /** strcpy, and the NUL stored once more behind it. */
  method StoreString(a: array<byte>, at: nat, s: Text)
    requires at + |s| < a.Length
    modifies a
    ensures a[..] == Overlay(old(a[..]), at, s + [0])
  {
    Store(a, at, s + [0]);
    a[at + |s|] := 0;
  }

  /** The first loop of execv, which makes room for the pointers. */
  method Measure(argv: Argv) returns (len: nat, ok: bool)
    ensures ok <==> PTR_SIZE * |argv| + PTR_SIZE < PROC_ORIGIN_STACK
    ensures ok ==> len == PTR_SIZE * |argv|
  {
    len := 0;
    var p := 0;
    while p < |argv|
      invariant 0 <= p <= |argv| && len == PTR_SIZE * p < PROC_ORIGIN_STACK - PTR_SIZE
    {
      if !(len + 2 * PTR_SIZE < PROC_ORIGIN_STACK) {
        return len, false;
      }
      len := len + PTR_SIZE;
      p := p + 1;
    }
    ok := true;
  }

  /** One round of the second loop. */
  method StoreArgument(argv: Argv, base: nat, p: nat, argStack: array<byte>, len: nat) returns (ok: bool)
    requires argStack.Length == PROC_ORIGIN_STACK && base + PROC_ORIGIN_STACK <= 0x1_0000_0000
    requires p < |argv| && len == Offset(argv, p) < PROC_ORIGIN_STACK
    modifies argStack
    ensures ok <==> len + |argv[p]| + 1 < PROC_ORIGIN_STACK
    ensures ok ==> argStack[..] == WithArgument(old(argStack[..]), base, argv, p)
  {
    StoreWord(argStack, PTR_SIZE * p, base + len);
    if !(len + |argv[p]| + 1 < PROC_ORIGIN_STACK) {
      return false;
    }
    StoreString(argStack, len, argv[p]);
    ok := true;
  }

  /**
   execv up to the message for MM: `base` is the address of arg_stack, `len` the BUF_LEN it sends. `ok` is
   false when an assertion fails.
   */
  method Execv(argv: Argv, base: nat, argStack: array<byte>) returns (len: nat, ok: bool)
    requires argStack.Length == PROC_ORIGIN_STACK && 0 < base && base + PROC_ORIGIN_STACK <= 0x1_0000_0000
    modifies argStack
    ensures ok <==> Offset(argv, |argv|) < PROC_ORIGIN_STACK
    ensures ok ==> len == Offset(argv, |argv|) && IsArgv(argStack[..len], base, argv)
  {
    OffsetsOrdered(argv, 0, |argv|);
    len, ok := Measure(argv);
    if !ok {
      return;
    }
    StoredWord(argStack[..], len, 0);
    StoreWord(argStack, len, 0);
    len := len + PTR_SIZE;
    var p := 0;
    while p < |argv|
      invariant 0 <= p <= |argv| && len == Offset(argv, p) < PROC_ORIGIN_STACK
      invariant Built(argStack[..], base, argv, p)
    {
      OffsetsOrdered(argv, p + 1, |argv|);
      ghost var was := argStack[..];
      ok := StoreArgument(argv, base, p, argStack, len);
      if !ok {
        return;
      }
      BuiltNext(was, base, argv, p);
      len := len + |argv[p]| + 1;
      p := p + 1;
    }
    BuiltIsArgv(argStack[..], base, argv);
    ok := true;
  }

  /** A program header with the bytes it loads. */
  datatype Segment = Segment(loaded: bool, vaddr: nat, memsz: nat, data: Bytes)

  predicate InImage(s: Segment) {
    s.loaded ==> s.vaddr + s.memsz < PROC_IMAGE_SIZE_DEFAULT && |s.data| <= s.memsz
  }

  function Loaded(mem: Bytes, segments: seq<Segment>): (r: Bytes)
    requires |mem| == PROC_IMAGE_SIZE_DEFAULT && forall s :: s in segments ==> InImage(s)
    ensures |r| == |mem|
  {
    if segments == [] then mem
    else
      var s := segments[|segments| - 1];
      var before := Loaded(mem, segments[..|segments| - 1]);
      assert InImage(s);
      if s.loaded then Overlay(before, s.vaddr, s.data) else before
  }

  /** Whether loading the segments leaves a block of the old image alone. */
  predicate Spares(segments: seq<Segment>, base: nat, len: nat) {
    forall s :: s in segments && s.loaded ==> s.vaddr + |s.data| <= base || base + len <= s.vaddr
  }

  lemma {:induction false} LoadedSpares(mem: Bytes, segments: seq<Segment>, base: nat, len: nat)
    requires |mem| == PROC_IMAGE_SIZE_DEFAULT && forall s :: s in segments ==> InImage(s)
    requires base + len <= |mem| && Spares(segments, base, len)
    ensures Loaded(mem, segments)[base..base + len] == mem[base..base + len]
  {
    if segments == [] {
    } else {
      var s := segments[|segments| - 1];
      LoadedSpares(mem, segments[..|segments| - 1], base, len);
      if s.loaded {
        OverlaySpares(Loaded(mem, segments[..|segments| - 1]), s.vaddr, s.data, base, len);
      }
    }
  }

  predicate Covers(s: Segment, a: int) { s.loaded && s.vaddr <= a < s.vaddr + |s.data| }

  ghost predicate LastCovers(segments: seq<Segment>, i: nat, a: int) {
    i < |segments| && Covers(segments[i], a) && forall j :: i < j < |segments| ==> !Covers(segments[j], a)
  }

  ghost predicate Uncovered(segments: seq<Segment>, a: int) {
    forall j :: 0 <= j < |segments| ==> !Covers(segments[j], a)
  }

  /** At address a stands the byte of the last loaded segment that covers it, or else what was there before. */
  ghost predicate ByteIsLast(was: Bytes, segments: seq<Segment>, mem: Bytes, a: nat)
    requires a < |was| == |mem|
  {
    && (forall i: nat :: LastCovers(segments, i, a) ==> mem[a] == segments[i].data[a - segments[i].vaddr])
    && (Uncovered(segments, a) ==> mem[a] == was[a])
  }

  lemma OverlayAt(b: Bytes, at: nat, s: Bytes, a: nat)
    requires at + |s| <= |b| && a < |b|
    ensures Overlay(b, at, s)[a] == if at <= a < at + |s| then s[a - at] else b[a]
  {
  }

  lemma {:induction false} LoadedIsLast(mem: Bytes, segments: seq<Segment>, a: nat)
    requires |mem| == PROC_IMAGE_SIZE_DEFAULT && (forall s :: s in segments ==> InImage(s)) && a < |mem|
    ensures ByteIsLast(mem, segments, Loaded(mem, segments), a)
  {
    if segments == [] {
    } else {
      var k := |segments| - 1;
      LoadedIsLast(mem, segments[..k], a);
      LoadedLastOne(mem, segments, a);
      IsLastNext(mem, segments, Loaded(mem, segments[..k]), Loaded(mem, segments), a);
    }
  }

  /** One segment more, loaded over memory m. */
  lemma IsLastNext(was: Bytes, segments: seq<Segment>, m: Bytes, mem: Bytes, a: nat)
    requires a < |was| == |m| == |mem| && segments != [] && ByteIsLast(was, segments[..|segments| - 1], m, a)
    requires var s := segments[|segments| - 1]; mem[a] == if Covers(s, a) then s.data[a - s.vaddr] else m[a]
    ensures ByteIsLast(was, segments, mem, a)
  {
    if !Covers(segments[|segments| - 1], a) {
      StillLast(segments, a);
    }
    forall i: nat | LastCovers(segments, i, a) ensures mem[a] == segments[i].data[a - segments[i].vaddr] {
      LastIsLast(segments, i, a);
    }
  }

  /** A last segment that covers the address is the last that does. */
  lemma LastIsLast(segments: seq<Segment>, i: nat, a: nat)
    requires segments != [] && LastCovers(segments, i, a)
    ensures Covers(segments[|segments| - 1], a) ==> i == |segments| - 1
  {
  }

  /** What the last segment does to a byte. */
  lemma LoadedLastOne(mem: Bytes, segments: seq<Segment>, a: nat)
    requires |mem| == PROC_IMAGE_SIZE_DEFAULT && (forall s :: s in segments ==> InImage(s)) && a < |mem|
    requires segments != []
    ensures var (before, s) := (segments[..|segments| - 1], segments[|segments| - 1]);
            Loaded(mem, segments)[a] == if Covers(s, a) then s.data[a - s.vaddr] else Loaded(mem, before)[a]
  {
    var (before, s) := (segments[..|segments| - 1], segments[|segments| - 1]);
    assert InImage(s);
    if s.loaded {
      OverlayAt(Loaded(mem, before), s.vaddr, s.data, a);
    }
  }

  /** A last segment that does not cover the address changes nothing about which one does. */
  lemma StillLast(segments: seq<Segment>, a: nat)
    requires segments != [] && !Covers(segments[|segments| - 1], a)
    ensures var before := segments[..|segments| - 1];
            && (forall i: nat :: LastCovers(segments, i, a) ==> LastCovers(before, i, a) && before[i] == segments[i])
            && (Uncovered(segments, a) ==> Uncovered(before, a))
  {
  }

  /** The address is in the argument block at the top of the image. */
  predicate InBlock(a: int, len: nat) { ORIG_STACK <= a < ORIG_STACK + len }

  /** An image is loaded: but for the argument block it has what the segments say, and what was there before. */
  ghost predicate ImageLoaded(was: Bytes, segments: seq<Segment>, mem: Bytes, len: nat) {
    |mem| == |was| && forall a: nat :: a < |mem| && !InBlock(a, len) ==> ByteIsLast(was, segments, mem, a)
  }

  predicate Apart(s: Segment, t: Segment) { s.vaddr + |s.data| <= t.vaddr || t.vaddr + |t.data| <= s.vaddr }

  /** A segment that no other loaded one and no argument meets stands at its place as the program has it. */
  lemma SegmentStands(was: Bytes, segments: seq<Segment>, mem: Bytes, len: nat, i: nat)
    requires |was| == PROC_IMAGE_SIZE_DEFAULT && ImageLoaded(was, segments, mem, len)
    requires i < |segments| && segments[i].loaded && InImage(segments[i])
    requires forall j :: 0 <= j < |segments| && j != i && segments[j].loaded ==> Apart(segments[i], segments[j])
    requires segments[i].vaddr + |segments[i].data| <= ORIG_STACK || ORIG_STACK + len <= segments[i].vaddr
    ensures mem[segments[i].vaddr..segments[i].vaddr + |segments[i].data|] == segments[i].data
  {
    var s := segments[i];
    forall k | 0 <= k < |s.data| ensures mem[s.vaddr + k] == s.data[k] {
      assert LastCovers(segments, i, s.vaddr + k);
      assert ByteIsLast(was, segments, mem, s.vaddr + k);
    }
  }

  lemma LoadedImage(was: Bytes, segments: seq<Segment>, mem: Bytes, block: Bytes)
    requires |was| == PROC_IMAGE_SIZE_DEFAULT && (forall s :: s in segments ==> InImage(s))
    requires ORIG_STACK + |block| <= |was| && mem == Overlay(Loaded(was, segments), ORIG_STACK, block)
    ensures ImageLoaded(was, segments, mem, |block|)
  {
    forall a: nat | a < |mem| && !InBlock(a, |block|) ensures ByteIsLast(was, segments, mem, a) {
      LoadedIsLast(was, segments, a);
      OverlayAt(Loaded(was, segments), ORIG_STACK, block, a);
    }
  }

  /** Moves the pointers up to the first null and counts them. */
  method Relocate(stackcopy: array<byte>, delta: int) returns (argc: nat)
    requires PTR_SIZE * FirstNull(stackcopy[..], 0) + PTR_SIZE <= stackcopy.Length
    modifies stackcopy
    ensures argc == FirstNull(old(stackcopy[..]), 0) && Moved(old(stackcopy[..]), stackcopy[..], argc, delta)
  {
    argc := 0;
    ghost var was := stackcopy[..];
    ghost var n := FirstNull(was, 0);
    var w := LoadWord(stackcopy, 0);
    while w != 0
      invariant argc <= n && Moved(was, stackcopy[..], argc, delta) && w == Word(was, PTR_SIZE * argc)
      decreases n - argc
    {
      MovedNext(was, stackcopy[..], argc, delta);
      StoreWord(stackcopy, PTR_SIZE * argc, Wrap32(w + delta));
      argc := argc + 1;
      SameWord(was, stackcopy[..], PTR_SIZE * argc, PTR_SIZE * argc);
      w := LoadWord(stackcopy, PTR_SIZE * argc);
    }
    assert argc < n ==> NotNull(was, argc);
  }

  /** The loop over the program headers; `ok` is false when an assertion fails. */
  method Load(mem: array<byte>, segments: seq<Segment>) returns (ok: bool)
    requires mem.Length == PROC_IMAGE_SIZE_DEFAULT
    requires forall s :: s in segments && s.loaded ==> |s.data| <= s.memsz
    modifies mem
    ensures ok <==> AllInImage(segments)
    ensures ok ==> mem[..] == Loaded(old(mem[..]), segments)
  {
    ghost var was := mem[..];
    var i := 0;
    while i < |segments|
      invariant 0 <= i <= |segments| && AllInImage(segments[..i])
      invariant mem[..] == Loaded(was, segments[..i])
    {
      var s := segments[i];
      assert segments[..i + 1] == segments[..i] + [s] && segments[..i + 1][..i] == segments[..i];
      if s.loaded {
        if !(s.vaddr + s.memsz < PROC_IMAGE_SIZE_DEFAULT) {
          assert s in segments;
          return false;
        }
        Store(mem, s.vaddr, s.data);
      }
      i := i + 1;
    }
    assert segments[..|segments|] == segments;
    ok := true;
  }

  /** An overlay inside a part of memory is an overlay of that part. */
  lemma OverlayInside(mem: Bytes, base: nat, len: nat, p: nat, s: Bytes)
    requires base + len <= |mem| && p + |s| <= len
    ensures Overlay(mem, base + p, s)[base..base + len] == Overlay(mem[base..base + len], p, s)
  {
    var b := mem[base..base + len];
    assert mem[..base + p] == mem[..base] + b[..p];
    assert mem[base + p + |s|..] == b[p + |s|..] + mem[base + len..];
    assert Overlay(mem, base + p, s) == mem[..base] + Overlay(b, p, s) + mem[base + len..];
  }

  lemma LoadedOne(mem: Bytes, segment: Segment)
    requires |mem| == PROC_IMAGE_SIZE_DEFAULT && InImage(segment) && segment.loaded
    ensures Loaded(mem, [segment]) == Overlay(mem, segment.vaddr, segment.data)
  {
    assert [segment][..0] == [];
    assert Loaded(mem, []) == mem;
  }

  lemma FirstChar(b: Bytes, base: int, s: Text, vector: nat)
    requires s != []
    ensures PointsTo(b, base, 0, s, vector) ==>
              0 <= Pointer(b, base, 0) < |b| && b[Pointer(b, base, 0)] == s[0]
  {
    if PointsTo(b, base, 0, s, vector) {
      var p := Pointer(b, base, 0);
      assert b[p..p + |s|][0] == b[p];
    }
  }

  /** Pointer 0 of a block at `base` points where a program has one byte of its own. */
  lemma SegmentWrecks(mem: Bytes, base: nat, len: nat, argv: Argv, x: byte)
    requires |mem| == PROC_IMAGE_SIZE_DEFAULT && base + len <= |mem| && IsArgv(mem[base..base + len], base, argv)
    requires argv != [] && argv[0] != [] && x != argv[0][0]
    requires Word(mem[base..base + len], 0) + 1 < PROC_IMAGE_SIZE_DEFAULT
    ensures var segment := Segment(true, Word(mem[base..base + len], 0), 1, [x]);
            && InImage(segment)
            && !IsArgv(Loaded(mem, [segment])[base..base + len], base, argv)
  {
    var b := mem[base..base + len];
    var segment := Segment(true, Word(b, 0), 1, [x]);
    assert PointsTo(b, base, 0, argv[0], PTR_SIZE * |argv| + PTR_SIZE);
    var p := Pointer(b, base, 0);
    LoadedOne(mem, segment);
    var loaded := Loaded(mem, [segment]);
    var b' := loaded[base..base + len];
    OverlayInside(mem, base, len, p, [x]);
    OtherWord(b, p, [x], 0);
    FirstChar(b', base, argv[0], PTR_SIZE * |argv| + PTR_SIZE);
    assert b'[p] == x;
  }

  ghost predicate AllInImage(segments: seq<Segment>) { forall s :: s in segments ==> InImage(s) }

  /** The BUF_LEN bytes at BUF once the segments are loaded. */
  function LoadedBlock(mem: Bytes, segments: seq<Segment>, base: nat, len: nat): Bytes
    requires |mem| == PROC_IMAGE_SIZE_DEFAULT && (forall s :: s in segments ==> InImage(s)) && base + len <= |mem|
  {
    Loaded(mem, segments)[base..base + len]
  }

  /**
   do_exec from the program headers on, in the image `mem` of the caller: `base` and `len` are the BUF and
   BUF_LEN of its message. `ok` is false when an assertion fails. The block is read after loading, and has to
   hold a null then, or the walk leaves it.
   */
  method DoExec(mem: array<byte>, segments: seq<Segment>, base: nat, len: nat, ghost argv: Argv)
      returns (argc: nat, ok: bool)
    requires mem.Length == PROC_IMAGE_SIZE_DEFAULT && base + len <= mem.Length && len <= PROC_ORIGIN_STACK
    requires len > 0 ==> base > 0
    requires forall s :: s in segments && s.loaded ==> |s.data| <= s.memsz
    requires len > 0 && AllInImage(segments) ==>
               PTR_SIZE * FirstNull(LoadedBlock(mem[..], segments, base, len), 0) + PTR_SIZE <= len
    modifies mem
    ensures ok <==> AllInImage(segments)
    ensures ok ==> ImageLoaded(old(mem[..]), segments, mem[..], len)
    ensures ok && len == 0 ==> argc == 0 && mem[..] == Loaded(old(mem[..]), segments)
    ensures ok && len > 0 ==>
              var block := mem[ORIG_STACK..ORIG_STACK + len];
              && argc == FirstNull(LoadedBlock(old(mem[..]), segments, base, len), 0)
              && Moved(LoadedBlock(old(mem[..]), segments, base, len), block, argc, ORIG_STACK - base)
              && mem[..] == Overlay(Loaded(old(mem[..]), segments), ORIG_STACK, block)
    ensures ok && len > 0 ==>
              (IsArgv(LoadedBlock(old(mem[..]), segments, base, len), base, argv)
               <==> argc == |argv| && IsArgv(mem[ORIG_STACK..ORIG_STACK + len], ORIG_STACK, argv))
    ensures ok && len > 0 && Spares(segments, base, len) ==>
              LoadedBlock(old(mem[..]), segments, base, len) == old(mem[base..base + len])
  {
    argc := 0;
    ghost var was := mem[..];
    ok := Load(mem, segments);
    if !ok {
      return;
    }
    argc := MoveStack(mem, base, len);
    LoadedImage(was, segments, mem[..], mem[ORIG_STACK..ORIG_STACK + len]);
    if len > 0 {
      MovedIsArgvExactly(LoadedBlock(was, segments, base, len), mem[ORIG_STACK..ORIG_STACK + len],
                         base, ORIG_STACK, argv);
    }
    if Spares(segments, base, len) {
      LoadedSpares(was, segments, base, len);
    }
  }

  /** phys_copy of the block into MM's own stack. */
  method CopyStack(mem: array<byte>, base: nat, len: nat) returns (stackcopy: array<byte>)
    requires base + len <= mem.Length
    ensures fresh(stackcopy) && stackcopy[..] == mem[base..base + len]
  {
    stackcopy := new byte[len](k requires 0 <= k < len && base + len <= mem.Length reads mem => mem[base + k]);
  }

  /** The part of do_exec that copies the block, relocates it and copies it to the top of the image. */
  method MoveStack(mem: array<byte>, base: nat, len: nat) returns (argc: nat)
    requires mem.Length == PROC_IMAGE_SIZE_DEFAULT && base + len <= mem.Length && len <= PROC_ORIGIN_STACK
    requires len > 0 ==> PTR_SIZE * FirstNull(mem[base..base + len], 0) + PTR_SIZE <= len
    modifies mem
    ensures mem[..] == Overlay(old(mem[..]), ORIG_STACK, mem[ORIG_STACK..ORIG_STACK + len])
    ensures len == 0 ==> argc == 0 && mem[..] == old(mem[..])
    ensures len > 0 ==> argc == FirstNull(old(mem[base..base + len]), 0)
    ensures len > 0 ==>
              Moved(old(mem[base..base + len]), mem[ORIG_STACK..ORIG_STACK + len], argc, ORIG_STACK - base)
  {
    argc := 0;
    var stackcopy := CopyStack(mem, base, len);
    if len != 0 {
      argc := Relocate(stackcopy, ORIG_STACK - base);
    }
    StoreTop(mem, stackcopy[..]);
  }

  /** phys_copy of the block to the top of the image. */
  method StoreTop(mem: array<byte>, block: Bytes)
    requires mem.Length == PROC_IMAGE_SIZE_DEFAULT && |block| <= PROC_ORIGIN_STACK
    modifies mem
    ensures mem[..] == Overlay(old(mem[..]), ORIG_STACK, block) && mem[ORIG_STACK..ORIG_STACK + |block|] == block
    ensures block == [] ==> mem[..] == old(mem[..])
  {
    ghost var was := mem[..];
    Store(mem, ORIG_STACK, block);
    OverlaidPart(was, ORIG_STACK, block, |block|);
    assert mem[ORIG_STACK..ORIG_STACK + |block|] == mem[..][ORIG_STACK..ORIG_STACK + |block|];
  }

  /**
   execv and then do_exec, where arg_stack is at `base` in the caller's image: if the arguments fit and the
   program spares them, the new program gets just these.
   */
  method ExecvThenDoExec(mem: array<byte>, segments: seq<Segment>, base: nat, argv: Argv) returns (argc: nat, ok: bool)
    requires mem.Length == PROC_IMAGE_SIZE_DEFAULT && 0 < base && base + PROC_ORIGIN_STACK <= mem.Length
    requires forall s :: s in segments && s.loaded ==> |s.data| <= s.memsz
    requires Spares(segments, base, PROC_ORIGIN_STACK)
    modifies mem
    ensures ok <==> Offset(argv, |argv|) < PROC_ORIGIN_STACK && AllInImage(segments)
    ensures ok ==> argc == |argv|
    ensures ok ==> IsArgv(mem[ORIG_STACK..ORIG_STACK + Offset(argv, |argv|)], ORIG_STACK, argv)
  {
    argc := 0;
    var argStack := new byte[PROC_ORIGIN_STACK];
    var len;
    len, ok := Execv(argv, base, argStack);
    if !ok {
      return;
    }
    ghost var stack := argStack[..];
    Store(mem, base, argStack[..]);
    SliceOfSlice(mem[..], base, base + PROC_ORIGIN_STACK, 0, len);
    OverlaidPart(old(mem[..]), base, stack, len);
    if AllInImage(segments) {
      LoadedSpares(mem[..], segments, base, len);
      ArgvEndsAtNull(stack[..len], base, argv);
    }
    argc, ok := DoExec(mem, segments, base, len, argv);
  }

  lemma OverlaidPart(b: Bytes, at: nat, s: Bytes, len: nat)
    requires at + |s| <= |b| && len <= |s|
    ensures Overlay(b, at, s)[at..at + len] == s[..len]
  {
  }
}
