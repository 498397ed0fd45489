/** The buddy allocator of mm/main.c: an implicit binary tree of marks over BUDDY_SIZE pages. */
module Buddy {
  import opened Wrappers

  const BUDDY_SIZE := 1024
  const NODES := 2047   // BUDDY_SIZE * 2 - 1
  const DEPTH := 10

  // ------------------------------------------------------------------ blocks

  datatype Block = Block(lo: int, size: int)

  predicate Overlap(a: Block, b: Block) {
    a.lo < b.lo + b.size && b.lo < a.lo + a.size
  }

  function Pow2(k: nat): (r: nat)
    ensures r >= 1
  {
    if k == 0 then 1 else 2 * Pow2(k - 1)
  }

  /** A size-aligned block of a power-of-two size inside the arena. */
  ghost predicate IsBlock(b: Block) {
    && (exists k: nat :: k <= DEPTH && b.size == Pow2(k))
    && Aligned(b.lo, b.size)
  }

  predicate Aligned(a: int, size: int)
    requires size > 0
  {
    0 <= a && a % size == 0 && a + size <= BUDDY_SIZE
  }

  ghost predicate Free(taken: set<Block>, b: Block) {
    forall t :: t in taken ==> !Overlap(b, t)
  }

  /** The size alloc settles on: halve while the half is still big enough. */
  function Halve(cur: nat, sz: nat): nat
    requires sz >= 1
    decreases cur
  {
    if cur / 2 >= sz then Halve(cur / 2, sz) else cur
  }

  function BlockSize(sz: nat): nat
    requires sz >= 1
  {
    Halve(BUDDY_SIZE, sz)
  }

  // ------------------------------------------------------------------ products and quotients

  lemma ProductMonotone(a: int, b: int, s: nat)
    requires a <= b
    ensures a * s <= b * s
  {
    assert (b - a) * s >= 0;
  }

  lemma ChildOffset(k: int, s: int)
    ensures k * (2 * s) == (2 * k) * s
    ensures k * (2 * s) + s == (2 * k + 1) * s
  {
  }

  lemma QuotientIs(q: nat, x: int, s: nat)
    requires s > 0 && q * s <= x < q * s + s
    ensures x / s == q && x % s == x - q * s
  {
    var p := x / s;
    if p < q {
      ProductMonotone(p + 1, q, s);
    } else if p > q {
      ProductMonotone(q + 1, p, s);
    }
  }

  lemma QuotientBelow(a: int, s: nat, n: nat)
    requires s > 0 && 0 <= a && a % s == 0 && a + s <= n * s
    ensures a / s < n && a == a / s * s
  {
    if a / s >= n {
      ProductMonotone(n, a / s, s);
    }
  }

  lemma {:induction false} HalveFits(k: nat, sz: nat)
    requires sz >= 1
    ensures exists j: nat :: j <= k && Halve(Pow2(k), sz) == Pow2(j)
    ensures sz <= Halve(Pow2(k), sz) <==> sz <= Pow2(k)
    ensures sz <= Pow2(k) ==> Halve(Pow2(k), sz) < 2 * sz
  {
    if k > 0 && Pow2(k - 1) >= sz {
      HalveFits(k - 1, sz);
      var j: nat :| j <= k - 1 && Halve(Pow2(k - 1), sz) == Pow2(j);
      assert Pow2(k) / 2 == Pow2(k - 1);
    } else {
      assert Pow2(k) / 2 < sz;
      assert Halve(Pow2(k), sz) == Pow2(k);
    }
  }

  /**
   A block is big enough and wastes less than half of itself, provided the request does not exceed the
   arena; a larger request is served with the whole arena, which is too small for it.
   */
  lemma BlockSizeFits(sz: nat)
    requires sz >= 1
    ensures exists k: nat :: k <= DEPTH && BlockSize(sz) == Pow2(k)
    ensures sz <= BlockSize(sz) <==> sz <= BUDDY_SIZE
    ensures sz <= BUDDY_SIZE ==> BlockSize(sz) < 2 * sz
  {
    assert Pow2(8) == 256 && Pow2(4) == 16 && Pow2(DEPTH) == BUDDY_SIZE;
    HalveFits(DEPTH, sz);
  }

  // ------------------------------------------------------------------ the tree

  function Parent(i: nat): (p: nat)
    requires i > 0
    ensures p < i && (i == 2 * p + 1 || i == 2 * p + 2)
  {
    (i - 1) / 2
  }

  function Level(i: nat): nat { if i == 0 then 0 else 1 + Level(Parent(i)) }

  function Size(i: nat): nat { if Level(i) <= DEPTH then Pow2(DEPTH - Level(i)) else 0 }

  function Lo(i: nat): nat {
    if i == 0 then 0
    else if i == 2 * Parent(i) + 1 then Lo(Parent(i))
    else Lo(Parent(i)) + Size(i)
  }

  function BlockOf(i: nat): Block { Block(Lo(i), Size(i)) }

  /** j is i or a descendant of i. */
  predicate Under(i: nat, j: nat)
    decreases j
  {
    i == j || (i < j && Under(i, Parent(j)))
  }

  lemma {:induction false} LevelBounds(i: nat)
    ensures Pow2(Level(i)) - 1 <= i <= 2 * Pow2(Level(i)) - 2
  {
    if i == 0 {
    } else {
      LevelBounds(Parent(i));
    }
  }

  lemma {:induction false} Pow2Monotone(a: nat, b: nat)
    requires a <= b
    ensures Pow2(a) <= Pow2(b)
    decreases b
  {
    if a >= b {
    } else {
      Pow2Monotone(a, b - 1);
    }
  }

  lemma Pow2Doubles(a: nat, b: nat)
    requires a < b
    ensures 2 * Pow2(a) <= Pow2(b)
  {
    Pow2Monotone(a + 1, b);
  }

  lemma LevelIs(i: nat, l: nat)
    requires Pow2(l) - 1 <= i <= 2 * Pow2(l) - 2
    ensures Level(i) == l
  {
    LevelBounds(i);
    if Level(i) < l {
      Pow2Doubles(Level(i), l);
    } else if Level(i) > l {
      Pow2Doubles(l, Level(i));
    }
  }

  lemma NodeLevel(i: nat)
    requires i < NODES
    ensures Level(i) <= DEPTH && Size(i) >= 1
    ensures i > 0 ==> Size(Parent(i)) == 2 * Size(i)
  {
    LevelBounds(i);
    if Level(i) > DEPTH {
      assert Pow2(8) == 256 && Pow2(4) == 16 && Pow2(DEPTH + 1) == 2048;
      Pow2Monotone(DEPTH + 1, Level(i));
    }
  }

  /** The k-th node of a level starts at k times the level's block size. */
  lemma {:induction false} LoIs(i: nat)
    requires i < NODES
    ensures Lo(i) == (i + 1 - Pow2(Level(i))) * Size(i)
  {
    if i == 0 {
    } else {
      var p := Parent(i);
      LoIs(p);
      NodeLevel(i);
      var (k, sz) := (p + 1 - Pow2(Level(p)), Size(i));
      ChildOffset(k, sz);
      assert Lo(p) == k * (2 * sz);
      var k' := if i == 2 * p + 1 then 2 * k else 2 * k + 1;
      assert Lo(i) == k' * sz && i + 1 - Pow2(Level(i)) == k';
    }
  }

  lemma LevelNode(i: nat, l: nat)
    requires l <= DEPTH && Pow2(l) - 1 <= i <= 2 * Pow2(l) - 2
    ensures i < NODES && BlockOf(i) == Block((i + 1 - Pow2(l)) * Pow2(DEPTH - l), Pow2(DEPTH - l))
  {
    LevelIs(i, l);
    Pow2Monotone(l, DEPTH);
    assert Pow2(8) == 256 && Pow2(4) == 16 && Pow2(DEPTH) == BUDDY_SIZE;
    LoIs(i);
  }

  lemma {:induction false} LevelFillsArena(l: nat)
    requires l <= DEPTH
    ensures Pow2(l) * Pow2(DEPTH - l) == BUDDY_SIZE
  {
    if l == 0 {
      assert Pow2(8) == 256 && Pow2(4) == 16 && Pow2(DEPTH) == BUDDY_SIZE;
    } else {
      LevelFillsArena(l - 1);
      ChildOffset(Pow2(l - 1), Pow2(DEPTH - l));
    }
  }

  /** The node that stands for an aligned block. */
  lemma NodeAt(k: nat, a: int) returns (i: nat)
    requires k <= DEPTH && Aligned(a, Pow2(k))
    ensures i < NODES && BlockOf(i) == Block(a, Pow2(k))
  {
    var l, s := DEPTH - k, Pow2(k);
    var q := a / s;
    LevelFillsArena(l);
    QuotientBelow(a, s, Pow2(l));
    i := Pow2(l) - 1 + q;
    LevelNode(i, l);
  }

  lemma NodeIsBlock(i: nat)
    requires i < NODES
    ensures IsBlock(BlockOf(i))
  {
    NodeLevel(i);
    LevelBounds(i);
    LoIs(i);
    LevelFillsArena(Level(i));
    var k, s := i + 1 - Pow2(Level(i)), Size(i);
    assert s == Pow2(DEPTH - Level(i));
    ProductMonotone(k + 1, Pow2(Level(i)), s);
    assert (k + 1) * s == k * s + s;
    QuotientIs(k, k * s, s);
  }

  lemma {:induction false} UnderNests(i: nat, j: nat)
    requires j < NODES && Under(i, j)
    ensures i <= j && Lo(i) <= Lo(j) && Lo(j) + Size(j) <= Lo(i) + Size(i)
    decreases j
  {
    if i == j {
    } else {
      UnderNests(i, Parent(j));
      NodeLevel(j);
    }
  }

  lemma SiblingsApart(p: nat)
    requires 2 * p + 2 < NODES
    ensures !Overlap(BlockOf(2 * p + 1), BlockOf(2 * p + 2))
  {
    NodeLevel(2 * p + 1);
    NodeLevel(2 * p + 2);
    assert Parent(2 * p + 1) == p == Parent(2 * p + 2);
  }

  lemma {:induction false} OverlapIsUnder(i: nat, j: nat)
    requires i <= j < NODES && Overlap(BlockOf(i), BlockOf(j))
    ensures Under(i, j)
    decreases i + j
  {
    if i >= j {
    } else {
      var p: nat := Parent(j);
      NodeLevel(j);
      UnderNests(p, j);
      if p >= i {
        OverlapIsUnder(i, p);
      } else {
        OverlapIsUnder(p, i);
        SmallestDescendant(p, i);
        SiblingsApart(p);
      }
    }
  }

  lemma {:induction false} SmallestDescendant(p: nat, i: nat)
    requires Under(p, i) && p < i
    ensures i >= 2 * p + 1
    decreases i
  {
    if Parent(i) == p {
    } else {
      SmallestDescendant(p, Parent(i));
    }
  }

  /** Two nodes overlap exactly when one lies on the path from the root to the other. */
  lemma OverlapIffRelated(i: nat, j: nat)
    requires i < NODES && j < NODES
    ensures Overlap(BlockOf(i), BlockOf(j)) <==> Under(i, j) || Under(j, i)
  {
    NodeLevel(i);
    NodeLevel(j);
    if Under(i, j) {
      UnderNests(i, j);
    } else if Under(j, i) {
      UnderNests(j, i);
    } else if Overlap(BlockOf(i), BlockOf(j)) {
      if i <= j { OverlapIsUnder(i, j); } else { OverlapIsUnder(j, i); }
    }
  }

  lemma {:induction false} UnderChildren(i: nat, j: nat)
    ensures Under(i, j) <==> i == j || Under(2 * i + 1, j) || Under(2 * i + 2, j)
    decreases j
  {
    if i >= j {
    } else {
      UnderChildren(i, Parent(j));
    }
  }

  lemma {:induction false} UnderRoot(i: nat)
    ensures Under(0, i)
  {
    if i == 0 {
    } else {
      UnderRoot(Parent(i));
    }
  }

  lemma {:induction false} AncestorsNest(a: nat, p: nat, i: nat)
    requires Under(p, i) && a <= p
    ensures Under(a, i) <==> Under(a, p)
    decreases i
  {
    if p == i {
    } else {
      AncestorsNest(a, p, Parent(i));
    }
  }

  // ------------------------------------------------------------------ marks

  /** A node is marked exactly when its block overlaps an allocated one. */
  ghost predicate Marks(mem: seq<int>, taken: set<Block>) {
    && |mem| == 2 * BUDDY_SIZE
    && forall i :: 0 <= i < NODES ==> (mem[i] != 0 <==> !Free(taken, BlockOf(i)))
  }

  ghost predicate Disjoint(taken: set<Block>) {
    forall a, b :: a in taken && b in taken && a != b ==> !Overlap(a, b)
  }

  lemma MarkedAfter(mem: seq<int>, mem': seq<int>, taken: set<Block>, i: nat)
    requires Marks(mem, taken) && i < NODES && |mem'| == |mem|
    requires forall j :: 0 <= j < NODES ==> mem'[j] == if Under(i, j) || Under(j, i) then 1 else mem[j]
    ensures Marks(mem', taken + {BlockOf(i)})
  {
    forall j | 0 <= j < NODES ensures mem'[j] != 0 <==> !Free(taken + {BlockOf(i)}, BlockOf(j)) {
      OverlapIffRelated(j, i);
      assert BlockOf(i) in taken + {BlockOf(i)};
    }
  }

  /** No aligned block of this size below `a` is free. */
  ghost predicate NoneBelow(taken: set<Block>, a: int, size: int)
    requires size > 0
  {
    forall x :: 0 <= x < a && Aligned(x, size) ==> !Free(taken, Block(x, size))
  }

  lemma NoneBelowNext(taken: set<Block>, q: nat, size: int)
    requires size > 0 && NoneBelow(taken, q * size, size) && !Free(taken, Block(q * size, size))
    ensures NoneBelow(taken, (q + 1) * size, size)
    ensures (q + 1) * size == q * size + size
  {
    forall x | q * size < x < (q + 1) * size ensures !Aligned(x, size) {
      QuotientIs(q, x, size);
    }
  }

  // ------------------------------------------------------------------ counting

  lemma {:induction false} Pow2Splits(i: nat, k: nat)
    requires i <= k
    ensures Pow2(k) == Pow2(k - i) * Pow2(i)
    decreases k - i
  {
    if i >= k {
    } else {
      Pow2Splits(i + 1, k);
      ChildOffset(Pow2(k - i - 1), Pow2(i));
    }
  }

  lemma ProductOrder(a: int, b: int, s: nat)
    requires a * s < b * s
    ensures a < b
  {
    if a >= b {
      ProductMonotone(b, a, s);
    }
  }

  lemma ProductAssociates(a: int, b: int, c: int)
    ensures a * (b * c) == (a * b) * c
  {
  }

  lemma ExactQuotient(a: nat, s: nat)
    requires s > 0 && a % s == 0
    ensures a / s * s == a
  {
  }

  lemma CellContains(lo: nat, s: nat, cell: nat, q: nat, t: nat)
    requires s > 0 && t > 0 && cell > 0 && lo == q * s && cell == t * s
    ensures lo / cell * cell <= lo && lo + s <= (lo / cell + 1) * cell
  {
    var v := lo / cell;
    ProductAssociates(v + 1, t, s);
    assert (v + 1) * cell == v * cell + cell;
    ProductOrder(q, (v + 1) * t, s);
    ProductMonotone(q + 1, (v + 1) * t, s);
  }

  lemma SmallerExponent(i: nat, k: nat)
    requires Pow2(i) <= Pow2(k)
    ensures i <= k
  {
    if i > k {
      Pow2Doubles(k, i);
    }
  }

  lemma CellHolds(lo: nat, s: nat, cell: nat, t: nat)
    requires s > 0 && t > 0 && cell > 0 && lo % s == 0 && cell == t * s
    ensures lo / cell * cell <= lo && lo + s <= (lo / cell + 1) * cell
  {
    ExactQuotient(lo, s);
    CellContains(lo, s, cell, lo / s, t);
  }

  lemma BlocksPerCell(b: Block, k: nat) returns (t: nat)
    requires IsBlock(b) && b.size <= Pow2(k)
    ensures t > 0 && b.size > 0 && Pow2(k) == t * b.size && b.lo % b.size == 0
  {
    var i: nat :| i <= DEPTH && b.size == Pow2(i);
    SmallerExponent(i, k);
    Pow2Splits(i, k);
    t := Pow2(k - i);
  }

  /** A block of size at most 2^k lies inside one of the aligned cells of that size. */
  lemma Confined(b: Block, k: nat)
    requires IsBlock(b) && b.size <= Pow2(k)
    ensures var v := b.lo / Pow2(k); v * Pow2(k) <= b.lo && b.lo + b.size <= (v + 1) * Pow2(k)
  {
    var t := BlocksPerCell(b, k);
    CellHolds(b.lo, b.size, Pow2(k), t);
  }

  /** A cell that holds no start of a small block does not overlap it at all. */
  lemma OtherCell(b: Block, u: nat, k: nat, c: Block)
    requires IsBlock(b) && b.size <= Pow2(k) && b.lo / Pow2(k) != u
    requires u * Pow2(k) <= c.lo && c.lo + c.size <= (u + 1) * Pow2(k)
    ensures !Overlap(c, b)
  {
    Confined(b, k);
    var v := b.lo / Pow2(k);
    if v < u {
      ProductMonotone(v + 1, u, Pow2(k));
    } else {
      ProductMonotone(u + 1, v, Pow2(k));
    }
  }

  lemma {:induction false} ImageNoLarger(bs: set<Block>, k: nat)
    ensures |set b | b in bs :: b.lo / Pow2(k)| <= |bs|
  {
    if bs == {} {
    } else {
      var x :| x in bs;
      ImageNoLarger(bs - {x}, k);
      assert (set b | b in bs :: b.lo / Pow2(k))
          == (set b | b in bs - {x} :: b.lo / Pow2(k)) + {x.lo / Pow2(k)};
    }
  }

  lemma {:induction false} Unused(us: set<int>, n: nat) returns (u: nat)
    requires |us| < n
    ensures u < n && u !in us
  {
    if n - 1 in us {
      u := Unused(us - {n - 1}, n - 1);
    } else {
      u := n - 1;
    }
  }

  lemma CellStart(u: nat, j: nat, k: nat)
    requires j <= k && (u + 1) * Pow2(k) <= BUDDY_SIZE
    ensures Aligned(u * Pow2(k), Pow2(j)) && u * Pow2(k) + Pow2(j) <= (u + 1) * Pow2(k)
  {
    Pow2Monotone(j, k);
    Pow2Splits(j, k);
    assert (u + 1) * Pow2(k) == u * Pow2(k) + Pow2(k);
    ProductAssociates(u, Pow2(k - j), Pow2(j));
    QuotientIs(u * Pow2(k - j), u * Pow2(k), Pow2(j));
  }

  /** While n blocks of at most 2^k pages leave room for one more such cell, every smaller request succeeds. */
  lemma RoomLeft(taken: set<Block>, j: nat, k: nat)
    requires j <= k <= DEPTH && (|taken| + 1) * Pow2(k) <= BUDDY_SIZE
    requires forall b :: b in taken ==> IsBlock(b) && b.size <= Pow2(k)
    ensures !NoneBelow(taken, BUDDY_SIZE, Pow2(j))
  {
    var cells := set b | b in taken :: b.lo / Pow2(k);
    ImageNoLarger(taken, k);
    var u := Unused(cells, |taken| + 1);
    ProductMonotone(u + 1, |taken| + 1, Pow2(k));
    CellStart(u, j, k);
    var c := Block(u * Pow2(k), Pow2(j));
    forall b | b in taken ensures !Overlap(c, b) {
      assert b.lo / Pow2(k) in cells;
      OtherCell(b, u, k, c);
    }
    assert Free(taken, c);
  }

  class Allocator {
    const mem: array<int>             // mem_buf
    ghost var taken: set<Block>

    ghost predicate Valid()
      reads this, mem
    {
      && Marks(mem[..], taken) && Disjoint(taken)
      && forall b :: b in taken ==> IsBlock(b)
    }

    /** The C array is static, so it starts out zero. */
    constructor ()
      ensures Valid() && fresh(mem) && taken == {}
    {
      mem := new int[2 * BUDDY_SIZE](i => 0);
      taken := {};
    }

    /** Marks a node and everything below it. */
    method SetChild(i: nat)
      requires mem.Length == 2 * BUDDY_SIZE
      modifies mem
      ensures forall j :: 0 <= j < 2 * BUDDY_SIZE ==>
                mem[j] == if j < NODES && Under(i, j) then 1 else old(mem[j])
      decreases if i < NODES then NODES - i else 0
    {
      if i < BUDDY_SIZE * 2 - 1 {
        mem[i] := 1;
        SetChild(2 * i + 1);
        SetChild(2 * i + 2);
        forall j | 0 <= j < NODES
          ensures Under(i, j) <==> i == j || Under(2 * i + 1, j) || Under(2 * i + 2, j)
        {
          UnderChildren(i, j);
        }
      } else {
        assert forall j: nat :: j < NODES ==> !Under(i, j);
      }
    }

    /** Marks the nodes above a node. C's (0 - 1) / 2 is 0, so for the root it marks the root. */
    method SetParent(i: nat)
      requires mem.Length == 2 * BUDDY_SIZE && i < NODES
      modifies mem
      ensures forall j :: 0 <= j < 2 * BUDDY_SIZE ==>
                mem[j] == if j == 0 || (j < i && Under(j, i)) then 1 else old(mem[j])
    {
      UnderRoot(i);
      var p := if i == 0 then 0 else (i - 1) / 2;
      while true
        invariant 0 <= p <= i && Under(p, i)
        invariant forall j :: 0 <= j < 2 * BUDDY_SIZE ==>
                    mem[j] == if p < j < i && Under(j, i) then 1 else old(mem[j])
        invariant i > 0 ==> p < i
        decreases p
      {
        mem[p] := 1;
        if p == 0 { return; }
        forall j: nat | j < p ensures Under(j, i) ==> j <= Parent(p) {
          AncestorsNest(j, p, i);
          if Under(j, p) { UnderNests(j, Parent(p)); }
        }
        AncestorsNest(Parent(p), p, i);
        p := (p - 1) / 2;
      }
    }

    /** The loop over block sizes: the first node of the level and the level's block size. */
    method FindLevel(sz: nat) returns (index: nat, curSz: nat, ghost k: nat)
      requires sz >= 1
      ensures curSz == BlockSize(sz) == Pow2(k) && k <= DEPTH && index == Pow2(DEPTH - k) - 1
    {
      index, curSz, k := 0, BUDDY_SIZE, DEPTH;
      assert Pow2(8) == 256 && Pow2(4) == 16 && Pow2(DEPTH) == BUDDY_SIZE;
      while curSz / 2 >= sz
        invariant k <= DEPTH && curSz == Pow2(k) && index == Pow2(DEPTH - k) - 1
        invariant Halve(curSz, sz) == BlockSize(sz)
      {
        index := 2 * index + 1;
        curSz := curSz / 2;
        k := k - 1;
      }
    }

    /** First fit on one level of the tree; None where the C function runs off its end. */
    method Alloc(sz: nat) returns (r: Option<int>)
      requires Valid() && sz >= 1
      modifies this`taken, mem
      ensures Valid()
      ensures var s := BlockSize(sz);
        match r
        case Some(a) =>
          && Aligned(a, s) && Free(old(taken), Block(a, s)) && taken == old(taken) + {Block(a, s)}
          && NoneBelow(old(taken), a, s)
        case None =>
          && taken == old(taken)
          && NoneBelow(old(taken), BUDDY_SIZE, s)
    {
      var index, curSz, k := FindLevel(sz);
      var i, addr := FirstFit(index, curSz, k);
      if i > index * 2 {
        return None;
      }
      Mark(i);
      r := Some(addr);
    }

    /** The loop over the nodes of one level; i is past the level when every node is marked. */
    method FirstFit(index: nat, curSz: nat, ghost k: nat) returns (i: nat, addr: int)
      requires Marks(mem[..], taken)
      requires k <= DEPTH && curSz == Pow2(k) && index == Pow2(DEPTH - k) - 1
      ensures i <= index * 2 ==> i < NODES && BlockOf(i) == Block(addr, curSz) && Free(taken, Block(addr, curSz))
      ensures i > index * 2 ==> addr == BUDDY_SIZE
      ensures NoneBelow(taken, addr, curSz)
    {
      ghost var l := DEPTH - k;
      LevelFillsArena(l);
      i, addr := index, 0;
      while i <= index * 2
        invariant index <= i <= index * 2 + 1 && addr == (i - index) * curSz
        invariant NoneBelow(taken, addr, curSz)
      {
        LevelNode(i, l);
        assert BlockOf(i) == Block(addr, curSz);
        if mem[i] == 0 {
          return;
        }
        NoneBelowNext(taken, i - index, curSz);
        i := i + 1;
        addr := addr + curSz;
      }
      assert i - index == Pow2(l);
    }

    method Mark(i: nat)
      requires Valid() && i < NODES && Free(taken, BlockOf(i))
      modifies this`taken, mem
      ensures Valid() && taken == old(taken) + {BlockOf(i)} && IsBlock(BlockOf(i))
    {
      SetChild(i);
      SetParent(i);
      UnderRoot(i);
      MarkedAfter(old(mem[..]), mem[..], taken, i);
      NodeIsBlock(i);
      taken := taken + {BlockOf(i)};
    }

    /** The pages given for some requests: each block fits its request, is taken, and overlaps no other. */
    ghost predicate Served(sizes: seq<nat>, pages: seq<int>)
      reads this
    {
      && |pages| <= |sizes|
      && (forall i :: 0 <= i < |pages| ==> Given(sizes[i], pages[i]))
      && (forall i, j :: 0 <= i < j < |pages| ==> Apart(sizes[i], pages[i], sizes[j], pages[j]))
    }

    ghost predicate Given(n: nat, page: int)
      reads this
    {
      n >= 1 && Block(page, BlockSize(n)) in taken && Aligned(page, BlockSize(n)) && n <= BlockSize(n)
    }

    ghost predicate Apart(n: nat, page: int, n': nat, page': int)
    {
      n >= 1 && n' >= 1 && !Overlap(Block(page, BlockSize(n)), Block(page', BlockSize(n')))
    }

    /** On an empty tree any requests of at most 2^k pages succeed, as long as that many cells fit the arena. */
    method Serve(sizes: seq<nat>, ghost k: nat) returns (pages: seq<int>)
      requires Valid() && taken == {} && k <= DEPTH && |sizes| * Pow2(k) <= BUDDY_SIZE
      requires forall i :: 0 <= i < |sizes| ==> 1 <= sizes[i] <= Pow2(k)
      modifies this`taken, mem
      ensures Valid() && |pages| == |sizes| && Served(sizes, pages)
    {
      pages := [];
      for i := 0 to |sizes|
        invariant Valid() && |pages| == i && |taken| <= i
        invariant forall b :: b in taken ==> b.size <= Pow2(k)
        invariant Served(sizes, pages)
      {
        var page := ServeNext(sizes[i], k, sizes, pages);
        pages := pages + [page];
      }
    }

    /** The next of some requests. */
    method ServeNext(n: nat, ghost k: nat, ghost sizes: seq<nat>, ghost pages: seq<int>) returns (page: int)
      requires Valid() && k <= DEPTH && |pages| < |sizes| && n == sizes[|pages|] && |sizes| * Pow2(k) <= BUDDY_SIZE
      requires 1 <= n <= Pow2(k) && |taken| <= |pages| && Served(sizes, pages)
      requires forall b :: b in taken ==> b.size <= Pow2(k)
      modifies this`taken, mem
      ensures Valid() && |taken| <= |pages| + 1 && Served(sizes, pages + [page])
      ensures forall b :: b in taken ==> b.size <= Pow2(k)
    {
      ProductMonotone(|taken| + 1, |sizes|, Pow2(k));
      page := AllocSmall(n, k);
      forall i | 0 <= i < |pages| ensures Given(sizes[i], pages[i]) && Apart(sizes[i], pages[i], n, page) {
        assert old(Given(sizes[i], pages[i]));
      }
    }

    /** While blocks of at most 2^k pages leave a cell of that size, a request for no more cannot fail. */
    method AllocSmall(n: nat, ghost k: nat) returns (page: int)
      requires Valid() && k <= DEPTH && 1 <= n <= Pow2(k) && (|taken| + 1) * Pow2(k) <= BUDDY_SIZE
      requires forall b :: b in taken ==> b.size <= Pow2(k)
      modifies this`taken, mem
      ensures Valid() && Aligned(page, BlockSize(n)) && n <= BlockSize(n) <= Pow2(k)
      ensures Free(old(taken), Block(page, BlockSize(n))) && taken == old(taken) + {Block(page, BlockSize(n))}
    {
      ghost var j := SmallBlock(n, k);
      RoomLeft(taken, j, k);
      var r := Alloc(n);
      page := r.value;
    }

    /** do_buddy: clears the tree and serves ten random requests of 4 to 32 pages; yields (pages, address). */
    method DoBuddy(rands: seq<nat>) returns (replies: seq<(int, int)>)
      requires mem.Length == 2 * BUDDY_SIZE && |rands| == 10
      modifies this`taken, mem
      ensures Valid() && |replies| == 10
      ensures forall i :: 0 <= i < 10 ==>
                && replies[i].0 == rands[i] % 29 + 4
                && PAGE_START <= replies[i].1
                && replies[i].1 + PAGE_SIZE * replies[i].0 <= PAGE_START + PAGE_SIZE * BUDDY_SIZE
      ensures forall i, j :: 0 <= i < j < 10 ==>
                || replies[i].1 + PAGE_SIZE * replies[i].0 <= replies[j].1
                || replies[j].1 + PAGE_SIZE * replies[j].0 <= replies[i].1
    {
      Clear();
      replies := [];
      assert Pow2(5) == 32;
      ghost var sizes: seq<nat> := seq(10, i requires 0 <= i < 10 => rands[i] % 29 + 4);
      ghost var pages: seq<int> := [];
      for i := 0 to 10
        invariant Valid() && |replies| == |pages| == i && |taken| <= i && Served(sizes, pages)
        invariant forall b :: b in taken ==> b.size <= Pow2(5)
        invariant forall n :: 0 <= n < i ==> replies[n] == (sizes[n], pages[n] * PAGE_SIZE + PAGE_START)
      {
        var randomNumber := rands[i] % 29 + 4;
        var page := ServeNext(randomNumber, 5, sizes, pages);
        pages := pages + [page];
        replies := replies + [(randomNumber, page * PAGE_SIZE + PAGE_START)];
      }
      Ranges(sizes, pages);
    }

    /** Blocks given out are apart also as ranges of addresses. */
    lemma Ranges(sizes: seq<nat>, pages: seq<int>)
      requires Served(sizes, pages)
      ensures forall i :: 0 <= i < |pages| ==> 0 <= pages[i] && pages[i] + sizes[i] <= BUDDY_SIZE
      ensures forall i, j :: 0 <= i < j < |pages| ==> pages[i] + sizes[i] <= pages[j] || pages[j] + sizes[j] <= pages[i]
    {
      forall i | 0 <= i < |pages| ensures 0 <= pages[i] && pages[i] + sizes[i] <= BUDDY_SIZE {
        assert Given(sizes[i], pages[i]);
      }
      forall i, j | 0 <= i < j < |pages|
        ensures pages[i] + sizes[i] <= pages[j] || pages[j] + sizes[j] <= pages[i]
      {
        assert Given(sizes[i], pages[i]) && Given(sizes[j], pages[j]) && Apart(sizes[i], pages[i], sizes[j], pages[j]);
      }
    }

    /** The loop that do_buddy starts with. */
    method Clear()
      requires mem.Length == 2 * BUDDY_SIZE
      modifies this`taken, mem
      ensures Valid() && taken == {}
    {
      for i := 0 to BUDDY_SIZE * 2
        invariant forall j :: 0 <= j < i ==> mem[j] == 0
      {
        mem[i] := 0;
      }
      taken := {};
    }
  }

  const PAGE_START := 27262976   // 26 MB
  const PAGE_SIZE := 1024

  lemma SmallBlock(n: nat, k: nat) returns (j: nat)
    requires 1 <= n <= Pow2(k) && k <= DEPTH
    ensures j <= k && BlockSize(n) == Pow2(j) && n <= BlockSize(n) <= Pow2(k)
  {
    assert Pow2(8) == 256 && Pow2(4) == 16 && Pow2(DEPTH) == BUDDY_SIZE;
    Pow2Monotone(k, DEPTH);
    BlockSizeFits(n);
    j :| j <= DEPTH && BlockSize(n) == Pow2(j);
    if j > k {
      Pow2Monotone(k + 1, j);
    }
    Pow2Monotone(j, k);
  }

  /** A request for more than there is settles on the whole arena. */
  lemma TooBig()
    ensures BlockSize(BUDDY_SIZE + 1) == BUDDY_SIZE
  {
  }
}
