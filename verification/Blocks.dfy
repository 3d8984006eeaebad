/** The allocator seen from outside: the blocks of the file in address order.
    A free record's leftover key is not part of the view: nothing ever looks it up. */
module Blocks {
  import opened Bytes

  const MIN_SIZE: nat := 256
  const RECORD_SIZE: nat := 16

  datatype Block = Alloc(offset: nat, key: nat, size: nat) | Free(offset: nat, size: nat) {
    function End(): nat {
      offset + size
    }
  }

  /** Where the last block ends: 8 (behind the file header) when there is none. */
  function End(b: seq<Block>): nat {
    if b == [] then 8 else b[|b| - 1].End()
  }

  /** `y` starts where `x` ends, and they are not both free. */
  predicate Joint(x: Block, y: Block) {
    x.End() == y.offset && (x.Alloc? || y.Alloc?)
  }

  /** Neighbours are adjacent and never both free. */
  ghost predicate Chained(b: seq<Block>) {
    |b| < 2 || (Joint(b[|b| - 2], b[|b| - 1]) && Chained(b[..|b| - 1]))
  }

  ghost predicate Positive(b: seq<Block>) {
    forall i :: 0 <= i < |b| ==> 0 < b[i].size
  }

  ghost predicate Sizes32(b: seq<Block>) {
    forall i :: 0 <= i < |b| ==> 0 < b[i].size < U32_LIMIT
  }

  /** The shape of the allocator's list of blocks. */
  ghost predicate Formed(b: seq<Block>) {
    && Positive(b)
    && Chained(b)
    && (b != [] ==> b[|b| - 1].Alloc?)
    && End(b) < U64_LIMIT
  }

  /** The allocator's invariant on its list of blocks: the shape, and sizes of 32 bits. */
  ghost predicate WellFormed(b: seq<Block>) {
    Formed(b) && Sizes32(b)
  }

  /** Every block has the minimum size: true of every state a heap file can be in. */
  ghost predicate BigEnough(b: seq<Block>) {
    forall i :: 0 <= i < |b| ==> b[i].size >= MIN_SIZE
  }

  lemma EndBound(b: seq<Block>)
    requires WellFormed(b)
    ensures End(b) < U64_LIMIT
  {
  }

  lemma {:induction false} ChainedConcat(b: seq<Block>, c: seq<Block>)
    ensures Chained(b + c)
      <==> Chained(b) && Chained(c) && (b != [] && c != [] ==> Joint(b[|b| - 1], c[0]))
  {
    if c == [] {
      assert b + c == b;
    } else {
      var c0 := c[..|c| - 1];
      assert (b + c)[..|b + c| - 1] == b + c0;
      ChainedConcat(b, c0);
      if c0 == [] {
        assert b + c0 == b;
      }
    }
  }

  lemma ChainedAround(b: seq<Block>, x: seq<Block>, c: seq<Block>)
    requires x != []
    ensures Chained(b + x + c)
      <==> Chained(b) && Chained(x) && Chained(c)
           && (b != [] ==> Joint(b[|b| - 1], x[0])) && (c != [] ==> Joint(x[|x| - 1], c[0]))
  {
    ChainedConcat(b + x, c);
    ChainedConcat(b, x);
  }

  lemma Neighbours(b: seq<Block>, i: nat)
    requires Chained(b) && i + 1 < |b|
    ensures Joint(b[i], b[i + 1])
  {
    ChainedConcat(b[..i + 1], b[i + 1..]);
    assert b == b[..i + 1] + b[i + 1..];
  }

  /** Blocks lie in strictly increasing, non-overlapping places. */
  lemma {:induction false} BlocksAreSorted(b: seq<Block>, i: nat, j: nat)
    requires Positive(b) && Chained(b) && i < j < |b|
    ensures b[i].End() <= b[j].offset && b[i].offset < b[j].offset
    decreases j - i
  {
    if j == i + 1 {
    } else {
      BlocksAreSorted(b, i, j - 1);
    }
    Neighbours(b, j - 1);
  }

  function IfAlloc(x: Block): seq<Block> {
    if x.Alloc? then [x] else []
  }

  /** Blocks `lo` up to `hi` give way to `mid`. */
  function Replaced(b: seq<Block>, lo: nat, hi: nat, mid: seq<Block>): seq<Block>
    requires lo <= hi <= |b|
  {
    b[..lo] + mid + b[hi..]
  }

  /** `mid` fills exactly the place of blocks `lo` up to `hi` and is not free next to a free neighbour. */
  ghost predicate FitsPlace(b: seq<Block>, lo: nat, hi: nat, mid: seq<Block>) {
    && lo < hi <= |b| && mid != []
    && mid[0].offset == b[lo].offset && mid[|mid| - 1].End() == b[hi - 1].End()
    && (lo > 0 ==> b[lo - 1].Alloc? || mid[0].Alloc?)
    && (hi < |b| ==> mid[|mid| - 1].Alloc? || b[hi].Alloc?)
    && (hi == |b| ==> mid[|mid| - 1].Alloc?)
  }

  lemma ReplacedChained(b: seq<Block>, lo: nat, hi: nat, mid: seq<Block>)
    requires Chained(b) && Chained(mid) && FitsPlace(b, lo, hi, mid)
    ensures Chained(Replaced(b, lo, hi, mid))
  {
    if lo > 0 {
      Neighbours(b, lo - 1);
    }
    if hi < |b| {
      Neighbours(b, hi - 1);
    }
    SplitAt(b, lo);
    ChainedConcat(b[..lo], b[lo..]);
    SplitAt(b, hi);
    ChainedConcat(b[..hi], b[hi..]);
    ChainedAround(b[..lo], mid, b[hi..]);
  }

  lemma ReplacedFormed(b: seq<Block>, lo: nat, hi: nat, mid: seq<Block>)
    requires Formed(b) && FitsPlace(b, lo, hi, mid)
    requires Positive(mid) && Chained(mid)
    ensures Formed(Replaced(b, lo, hi, mid))
    ensures End(Replaced(b, lo, hi, mid)) == End(b)
  {
    ReplacedChained(b, lo, hi, mid);
  }

  lemma ReplacedSizes(b: seq<Block>, lo: nat, hi: nat, mid: seq<Block>, least: nat)
    requires lo <= hi <= |b|
    requires forall i :: 0 <= i < |b| ==> least <= b[i].size < U32_LIMIT
    requires forall i :: 0 <= i < |mid| ==> least <= mid[i].size < U32_LIMIT
    ensures var c := Replaced(b, lo, hi, mid);
      forall i :: 0 <= i < |c| ==> least <= c[i].size < U32_LIMIT
  {
  }

  lemma ReplacedWellFormed(b: seq<Block>, lo: nat, hi: nat, mid: seq<Block>)
    requires WellFormed(b) && FitsPlace(b, lo, hi, mid)
    requires Sizes32(mid) && Chained(mid)
    ensures WellFormed(Replaced(b, lo, hi, mid))
    ensures End(Replaced(b, lo, hi, mid)) == End(b)
    ensures BigEnough(b) && BigEnough(mid) ==> BigEnough(Replaced(b, lo, hi, mid))
  {
    ReplacedFormed(b, lo, hi, mid);
    ReplacedSizes(b, lo, hi, mid, 1);
    if BigEnough(b) && BigEnough(mid) {
      ReplacedSizes(b, lo, hi, mid, MIN_SIZE);
    }
  }

  /** The allocated blocks, in address order. */
  function Allocs(b: seq<Block>): (a: seq<Block>)
    ensures |a| <= |b|
  {
    if b == [] then [] else Allocs(b[..|b| - 1]) + IfAlloc(b[|b| - 1])
  }

  function NumAlloc(b: seq<Block>): nat {
    |Allocs(b)|
  }

  /** The size in bytes of the index on disk: a count, then the allocated records. */
  function IndexSize(b: seq<Block>): nat {
    4 + RECORD_SIZE * NumAlloc(b)
  }

  lemma {:induction false} AllocsConcat(b: seq<Block>, c: seq<Block>)
    ensures Allocs(b + c) == Allocs(b) + Allocs(c)
  {
    if c == [] {
      assert b + c == b;
    } else {
      assert (b + c)[..|b + c| - 1] == b + c[..|c| - 1];
      AllocsConcat(b, c[..|c| - 1]);
    }
  }

  lemma AllocsAround(b: seq<Block>, x: seq<Block>, c: seq<Block>)
    ensures Allocs(b + x + c) == Allocs(b) + Allocs(x) + Allocs(c)
  {
    AllocsConcat(b + x, c);
    AllocsConcat(b, x);
  }

  lemma AllocsOne(x: Block)
    ensures Allocs([x]) == IfAlloc(x)
  {
    assert [x][..0] == [];
  }

  lemma AllocsMiddle(l: seq<Block>, x: Block, r: seq<Block>)
    ensures Allocs(l + [x] + r) == Allocs(l) + IfAlloc(x) + Allocs(r)
  {
    AllocsAround(l, [x], r);
    AllocsOne(x);
  }

  lemma AllocsAt(b: seq<Block>, i: nat)
    requires i < |b|
    ensures Allocs(b) == Allocs(b[..i]) + IfAlloc(b[i]) + Allocs(b[i + 1..])
  {
    SplitAround(b, i);
    AllocsMiddle(b[..i], b[i], b[i + 1..]);
  }

  lemma AllocsAtFree(b: seq<Block>, i: nat)
    requires i < |b| && b[i].Free?
    ensures Allocs(b) == Allocs(b[..i]) + Allocs(b[i + 1..])
  {
    AllocsAt(b, i);
    assert Allocs(b[..i]) + [] == Allocs(b[..i]);
  }

  // Deallocation

  /** First block of the hole that freeing block `i` makes. */
  function Lo(b: seq<Block>, i: nat): (lo: nat)
    requires i < |b|
    ensures lo <= i
  {
    if i > 0 && b[i - 1].Free? then i - 1 else i
  }

  /** First block after that hole. */
  function Hi(b: seq<Block>, i: nat): (hi: nat)
    requires i < |b|
    ensures i < hi <= |b|
  {
    if i + 1 < |b| && b[i + 1].Free? then i + 2 else i + 1
  }

  function HoleSize(b: seq<Block>, i: nat): nat
    requires i < |b|
  {
    (if Lo(b, i) < i then b[i - 1].size else 0) + b[i].size + (if Hi(b, i) > i + 1 then b[i + 1].size else 0)
  }

  function Hole(b: seq<Block>, i: nat): Block
    requires i < |b|
  {
    Free(b[Lo(b, i)].offset, HoleSize(b, i))
  }

  /** Block `i` freed: one hole with its free neighbours, or nothing when the hole reaches the end. */
  function Deallocated(b: seq<Block>, i: nat): seq<Block>
    requires i < |b|
  {
    if Hi(b, i) == |b| then b[..Lo(b, i)] else Replaced(b, Lo(b, i), Hi(b, i), [Hole(b, i)])
  }

  lemma HoleSpans(b: seq<Block>, i: nat)
    requires Chained(b) && i < |b|
    ensures b[Lo(b, i)].offset + HoleSize(b, i) == b[Hi(b, i) - 1].End()
  {
    if i > 0 {
      Neighbours(b, i - 1);
    }
    if i + 1 < |b| {
      Neighbours(b, i);
    }
  }

  lemma EdgesOfHole(b: seq<Block>, i: nat)
    requires Chained(b) && i < |b| && b[i].Alloc?
    ensures Lo(b, i) > 0 ==> b[Lo(b, i) - 1].Alloc? && b[Lo(b, i) - 1].End() == b[Lo(b, i)].offset
    ensures Hi(b, i) < |b| ==> b[Hi(b, i)].Alloc? && b[Hi(b, i) - 1].End() == b[Hi(b, i)].offset
  {
    if Lo(b, i) > 0 {
      Neighbours(b, Lo(b, i) - 1);
    }
    if Hi(b, i) < |b| {
      Neighbours(b, Hi(b, i) - 1);
    }
  }

  /** A hole inside the list has to be recorded in 32 bits; one at the end is dropped whatever its size. */
  predicate HoleFits(b: seq<Block>, i: nat)
    requires i < |b|
  {
    Hi(b, i) < |b| ==> HoleSize(b, i) < U32_LIMIT
  }

  /** Deallocation keeps the invariant, as long as a hole that stays fits in 32 bits. */
  lemma DeallocatedWellFormed(b: seq<Block>, i: nat)
    requires WellFormed(b) && i < |b| && b[i].Alloc? && HoleFits(b, i)
    ensures WellFormed(Deallocated(b, i))
    ensures BigEnough(b) ==> BigEnough(Deallocated(b, i))
    ensures Deallocated(b, i) != [] ==> End(Deallocated(b, i)) <= End(b)
  {
    HoleSpans(b, i);
    EdgesOfHole(b, i);
    if Hi(b, i) == |b| {
      CutWellFormed(b, Lo(b, i));
    } else {
      ReplacedWellFormed(b, Lo(b, i), Hi(b, i), [Hole(b, i)]);
    }
  }

  /** The program adds the sizes of a hole in 32 bits: the list stays without gaps exactly when the true sum fits. */
  lemma HoleTilesExactlyWhenItFits(b: seq<Block>, i: nat)
    requires WellFormed(b) && i < |b| && b[i].Alloc? && Hi(b, i) < |b|
    ensures Chained(Replaced(b, Lo(b, i), Hi(b, i), [Free(b[Lo(b, i)].offset, HoleSize(b, i) % U32_LIMIT)]))
      <==> HoleSize(b, i) < U32_LIMIT
  {
    var lo, hi, n := Lo(b, i), Hi(b, i), HoleSize(b, i);
    HoleSpans(b, i);
    EdgesOfHole(b, i);
    if n < U32_LIMIT {
      ReplacedChained(b, lo, hi, [Hole(b, i)]);
    } else {
      ChainedAround(b[..lo], [Free(b[lo].offset, n % U32_LIMIT)], b[hi..]);
    }
  }

  /** A hole that does not fit: 0xF000_0000 free bytes beside an allocated block of 0x2000_0000 bytes. */
  lemma HoleThatDoesNotFit()
    ensures var b := [Alloc(8, 0, 256), Free(264, 0xF000_0000), Alloc(0xF000_0108, 0, 0x2000_0000),
                      Alloc(0x1_1000_0108, 0, 256)];
      && WellFormed(b) && b[2].Alloc? && Hi(b, 2) < |b| && HoleSize(b, 2) >= U32_LIMIT
      && !Chained(Replaced(b, Lo(b, 2), Hi(b, 2), [Free(b[Lo(b, 2)].offset, HoleSize(b, 2) % U32_LIMIT)]))
  {
    var b := [Alloc(8, 0, 256), Free(264, 0xF000_0000), Alloc(0xF000_0108, 0, 0x2000_0000),
              Alloc(0x1_1000_0108, 0, 256)];
    assert [b[0], b[1]][..1] == [b[0]] && Chained([b[0]]);
    assert [b[0], b[1], b[2]][..2] == [b[0], b[1]] && Chained([b[0], b[1]]);
    assert b[..3] == [b[0], b[1], b[2]] && Chained(b[..3]);
    HoleTilesExactlyWhenItFits(b, 2);
  }

  /** What comes before a block is well formed when it ends in an allocated block. */
  lemma CutWellFormed(b: seq<Block>, lo: nat)
    requires WellFormed(b) && lo < |b|
    requires lo > 0 ==> b[lo - 1].Alloc?
    ensures WellFormed(b[..lo])
    ensures lo > 0 ==> End(b[..lo]) <= b[lo].offset < End(b)
  {
    SplitAt(b, lo);
    ChainedConcat(b[..lo], b[lo..]);
    if lo + 1 < |b| {
      BlocksAreSorted(b, lo, |b| - 1);
    }
  }

  /** Deallocation takes exactly block `i` out of the allocated blocks. */
  lemma DeallocatedRemoves(b: seq<Block>, i: nat)
    requires i < |b| && b[i].Alloc?
    ensures Allocs(b) == Allocs(b[..i]) + [b[i]] + Allocs(b[i + 1..])
    ensures Allocs(Deallocated(b, i)) == Allocs(b[..i]) + Allocs(b[i + 1..])
  {
    AllocsAt(b, i);
    AllocsLeftOfHole(b, i);
    AllocsRightOfHole(b, i);
    AllocsWithHole(b, i);
  }

  lemma AllocsWithHole(b: seq<Block>, i: nat)
    requires i < |b|
    ensures Allocs(Deallocated(b, i)) == Allocs(b[..Lo(b, i)]) + Allocs(b[Hi(b, i)..])
  {
    var l, r := b[..Lo(b, i)], b[Hi(b, i)..];
    if Hi(b, i) == |b| {
      assert r == [];
    } else {
      AllocsMiddle(l, Hole(b, i), r);
      assert Allocs(l) + [] == Allocs(l);
    }
  }

  lemma AllocsLeftOfHole(b: seq<Block>, i: nat)
    requires i < |b|
    ensures Allocs(b[..Lo(b, i)]) == Allocs(b[..i])
  {
    if Lo(b, i) < i {
      assert b[..i][..i - 1] == b[..i - 1];
    }
  }

  lemma AllocsRightOfHole(b: seq<Block>, i: nat)
    requires i < |b|
    ensures Allocs(b[Hi(b, i)..]) == Allocs(b[i + 1..])
  {
    if Hi(b, i) > i + 1 {
      AllocsAt(b[i + 1..], 0);
      assert b[i + 1..][1..] == b[i + 2..];
      assert Allocs(b[i + 1..][..0]) == [];
    }
  }

  // Allocation

  /** Block `i` is free and a smallest one that can take `need` bytes. */
  ghost predicate BestFit(b: seq<Block>, i: nat, need: nat) {
    && i < |b| && b[i].Free? && b[i].size >= need
    && forall j :: 0 <= j < |b| && b[j].Free? && b[j].size >= need ==> b[i].size <= b[j].size
  }

  ghost predicate HasFit(b: seq<Block>, need: nat) {
    exists i :: 0 <= i < |b| && b[i].Free? && b[i].size >= need
  }

  /** What becomes of a free block `f`: allocated whole, or its left part when enough would remain. */
  function Carving(f: Block, need: nat, key: nat): (x: seq<Block>)
    requires f.size >= need
    ensures x != [] && x[0].Alloc? && x[0].offset == f.offset && x[0].key == key
  {
    if need + MIN_SIZE > f.size then [Alloc(f.offset, key, f.size)]
    else [Alloc(f.offset, key, need), Free(f.offset + need, f.size - need)]
  }

  /** Free block `i` used for `need` bytes. */
  function Carved(b: seq<Block>, i: nat, need: nat, key: nat): seq<Block>
    requires i < |b| && b[i].Free? && b[i].size >= need
  {
    Replaced(b, i, i + 1, Carving(b[i], need, key))
  }

  lemma CarvedCases(b: seq<Block>, i: nat, need: nat, key: nat)
    requires i < |b| && b[i].Free? && b[i].size >= need
    ensures need + MIN_SIZE > b[i].size ==> Carved(b, i, need, key) == b[i := Alloc(b[i].offset, key, b[i].size)]
    ensures need + MIN_SIZE <= b[i].size ==>
      Carved(b, i, need, key)
      == b[..i] + [Alloc(b[i].offset, key, need), Free(b[i].offset + need, b[i].size - need)] + b[i + 1..]
  {
  }

  lemma CarvingFits(b: seq<Block>, i: nat, need: nat, key: nat)
    requires WellFormed(b) && need >= MIN_SIZE
    requires i < |b| && b[i].Free? && b[i].size >= need
    ensures FitsPlace(b, i, i + 1, Carving(b[i], need, key))
    ensures Sizes32(Carving(b[i], need, key)) && BigEnough(Carving(b[i], need, key))
    ensures Chained(Carving(b[i], need, key))
  {
    var x := Carving(b[i], need, key);
    if i > 0 {
      Neighbours(b, i - 1);
    }
    Neighbours(b, i);
    if |x| == 2 {
      assert x[..1] == [x[0]];
    }
  }

  /** The block that is carved off has exactly the size asked for, unless less than 256 bytes would be left over: then
      it takes them along. */
  lemma CarvedWellFormed(b: seq<Block>, i: nat, need: nat, key: nat)
    requires WellFormed(b) && need >= MIN_SIZE
    requires i < |b| && b[i].Free? && b[i].size >= need
    ensures var c := Carved(b, i, need, key);
      && WellFormed(c) && End(c) == End(b)
      && (BigEnough(b) ==> BigEnough(c))
      && c[i].Alloc? && c[i].offset == b[i].offset && c[i].key == key && need <= c[i].size < need + MIN_SIZE
      && c[i].size == (if b[i].size < need + 256 then b[i].size else need)
  {
    CarvingFits(b, i, need, key);
    ReplacedWellFormed(b, i, i + 1, Carving(b[i], need, key));
  }

  lemma CarvedAdds(b: seq<Block>, i: nat, need: nat, key: nat)
    requires i < |b| && b[i].Free? && b[i].size >= need
    ensures var c := Carved(b, i, need, key);
      Allocs(b) == Allocs(b[..i]) + Allocs(b[i + 1..])
      && Allocs(c) == Allocs(b[..i]) + [c[i]] + Allocs(b[i + 1..])
  {
    AllocsAtFree(b, i);
    AllocsAround(b[..i], Carving(b[i], need, key), b[i + 1..]);
    CarvingAllocs(b[i], need, key);
  }

  lemma CarvingAllocs(f: Block, need: nat, key: nat)
    requires f.size >= need
    ensures Allocs(Carving(f, need, key)) == [Carving(f, need, key)[0]]
  {
    var x := Carving(f, need, key);
    AllocsOne(x[0]);
    if |x| == 2 {
      assert x[..1] == [x[0]];
    }
  }

  /** Allocating and then freeing the block that was returned restores every block. */
  lemma AllocateDeallocateRestores(b: seq<Block>, i: nat, need: nat, key: nat)
    requires WellFormed(b) && need >= MIN_SIZE
    requires i < |b| && b[i].Free? && b[i].size >= need
    ensures Deallocated(Carved(b, i, need, key), i) == b
    ensures HoleSize(Carved(b, i, need, key), i) == b[i].size
  {
    Neighbours(b, i);
    if i > 0 {
      Neighbours(b, i - 1);
    }
    MergeUndoesCarving(b[..i], b[i], b[i + 1..], need, key);
    SplitAround(b, i);
  }

  lemma MergeUndoesCarving(l: seq<Block>, f: Block, r: seq<Block>, need: nat, key: nat)
    requires f.Free? && f.size >= need && r != [] && r[0].Alloc? && (l == [] || l[|l| - 1].Alloc?)
    ensures var c := l + Carving(f, need, key) + r;
      Deallocated(c, |l|) == l + [f] + r && HoleSize(c, |l|) == f.size
  {
    var x := Carving(f, need, key);
    var c := l + x + r;
    var i := |l|;
    assert Lo(c, i) == i && Hi(c, i) == i + |x|;
    assert c[..i] == l && c[i + |x|..] == r;
    assert HoleSize(c, i) == f.size;
  }

  // Appending

  /** The list with one more allocated block, behind a free one if there is a gap. */
  function Appended(b: seq<Block>, offset: nat, key: nat, size: nat): seq<Block>
    requires b == [] || End(b) <= offset
  {
    b + (if b == [] || End(b) == offset then [] else [Free(End(b), offset - End(b))]) + [Alloc(offset, key, size)]
  }

  lemma AppendedCases(b: seq<Block>, offset: nat, key: nat, size: nat)
    requires b == [] || End(b) <= offset
    ensures b == [] || End(b) == offset ==>
      Appended(b, offset, key, size) == b + [Alloc(offset, key, size)]
    ensures b != [] && End(b) < offset ==>
      Appended(b, offset, key, size) == b + [Free(End(b), offset - End(b))] + [Alloc(offset, key, size)]
  {
    assert b + [] == b;
  }

  lemma AppendedWellFormed(b: seq<Block>, offset: nat, key: nat, size: nat)
    requires WellFormed(b) && 0 < size < U32_LIMIT && offset + size < U64_LIMIT
    requires b == [] || End(b) <= offset < End(b) + U32_LIMIT
    ensures WellFormed(Appended(b, offset, key, size))
    ensures End(Appended(b, offset, key, size)) == offset + size
  {
    var x := Alloc(offset, key, size);
    if b == [] || End(b) == offset {
      assert Appended(b, offset, key, size) == b + [x];
      ChainedConcat(b, [x]);
    } else {
      var gap := Free(End(b), offset - End(b));
      assert Appended(b, offset, key, size) == b + [gap, x];
      ChainedConcat(b, [gap, x]);
    }
  }

  /** The gap's size is cut to 32 bits: the list stays without gaps exactly when the true size fits. */
  lemma GapTilesExactlyWhenItFits(b: seq<Block>, x: Block)
    requires WellFormed(b) && b != [] && x.Alloc? && End(b) < x.offset
    ensures Chained(b + [Free(End(b), (x.offset - End(b)) % U32_LIMIT), x]) <==> x.offset - End(b) < U32_LIMIT
  {
    var y := [Free(End(b), (x.offset - End(b)) % U32_LIMIT), x];
    assert y[..1] == [y[0]];
    ChainedConcat(b, y);
  }

  lemma AppendedAdds(b: seq<Block>, offset: nat, key: nat, size: nat)
    requires b == [] || End(b) <= offset
    ensures Allocs(Appended(b, offset, key, size)) == Allocs(b) + [Alloc(offset, key, size)]
  {
    var x := Alloc(offset, key, size);
    AppendedCases(b, offset, key, size);
    AllocsOne(x);
    if b == [] || End(b) == offset {
      AllocsConcat(b, [x]);
    } else {
      var gap := Free(End(b), offset - End(b));
      AllocsOne(gap);
      AllocsAround(b, [gap], [x]);
      assert Allocs(b) + [] == Allocs(b);
    }
  }

  /** Appending a block, with or without a gap, and then freeing it restores every block. */
  lemma AppendDeallocateRestores(b: seq<Block>, offset: nat, key: nat, size: nat)
    requires WellFormed(b)
    requires b == [] || End(b) <= offset
    ensures var c := Appended(b, offset, key, size);
      Deallocated(c, |c| - 1) == b
      && (b == [] || End(b) == offset ==> HoleSize(c, |c| - 1) == size)
  {
    var c := Appended(b, offset, key, size);
    assert b == b[..|b|];
  }

  // Order and conservation

  /** Allocated blocks, in increasing places that do not overlap. */
  ghost predicate Ascending(a: seq<Block>) {
    && (forall i :: 0 <= i < |a| ==> a[i].Alloc? && a[i].size > 0)
    && (forall i, j :: 0 <= i < j < |a| ==> a[i].End() <= a[j].offset)
  }

  ghost predicate AscendingWithin(a: seq<Block>, lo: nat, hi: nat) {
    Ascending(a) && forall k :: 0 <= k < |a| ==> lo <= a[k].offset && a[k].End() <= hi
  }

  lemma AscendingGrows(a: seq<Block>, lo: nat, hi: nat, x: Block)
    requires AscendingWithin(a, lo, hi) && lo <= hi <= x.offset && x.size > 0
    ensures AscendingWithin(a + IfAlloc(x), lo, x.End())
  {
  }

  lemma FrontOf(b: seq<Block>)
    requires Sizes32(b) && Chained(b) && |b| > 1
    ensures var n := |b| - 1;
      Sizes32(b[..n]) && Chained(b[..n]) && End(b[..n]) == b[n].offset && End(b) == b[n].End() && b[n].size > 0
  {
  }

  lemma {:induction false} AllocsAscending(b: seq<Block>)
    requires Sizes32(b) && Chained(b)
    ensures b != [] ==> b[0].offset < End(b)
    ensures AscendingWithin(Allocs(b), if b == [] then 0 else b[0].offset, End(b))
  {
    if b == [] {
    } else if |b| == 1 {
      AllocsOne(b[0]);
      assert b == [b[0]];
    } else {
      hide AscendingWithin, Chained, Sizes32, End;
      FrontOf(b);
      AllocsAscending(b[..|b| - 1]);
      AscendingGrows(Allocs(b[..|b| - 1]), b[0].offset, b[|b| - 1].offset, b[|b| - 1]);
    }
  }

  lemma {:induction false} AllocsAreBlocks(b: seq<Block>, k: nat)
    requires k < |Allocs(b)|
    ensures Allocs(b)[k] in b && Allocs(b)[k].Alloc?
  {
    var n := |b| - 1;
    if k == |Allocs(b[..n])| {
    } else {
      AllocsAreBlocks(b[..n], k);
    }
  }

  /** An allocated block's rank among the allocated blocks. */
  lemma AllocRank(b: seq<Block>, i: nat)
    requires i < |b| && b[i].Alloc?
    ensures |Allocs(b[..i])| < |Allocs(b)| && Allocs(b)[|Allocs(b[..i])|] == b[i]
  {
    AllocsAt(b, i);
  }

  function TotalSize(b: seq<Block>): nat {
    if b == [] then 0 else TotalSize(b[..|b| - 1]) + b[|b| - 1].size
  }

  function FreeSize(b: seq<Block>): nat {
    if b == [] then 0
    else FreeSize(b[..|b| - 1]) + if b[|b| - 1].Free? then b[|b| - 1].size else 0
  }

  lemma TotalSizeAnd(a: seq<Block>, x: Block)
    ensures TotalSize(a + IfAlloc(x)) == TotalSize(a) + if x.Alloc? then x.size else 0
  {
    if x.Alloc? {
      assert (a + [x])[..|a|] == a;
    } else {
      assert a + [] == a;
    }
  }

  /** Allocated and free bytes always add up to the span of the blocks. */
  lemma {:induction false} SpaceIsConserved(b: seq<Block>)
    requires b != [] && Chained(b)
    ensures TotalSize(Allocs(b)) + FreeSize(b) == End(b) - b[0].offset
  {
    TotalSizeAnd(Allocs(b[..|b| - 1]), b[|b| - 1]);
    if |b| == 1 {
    } else {
      SpaceIsConserved(b[..|b| - 1]);
    }
  }

  /** Address `x` lies in one of the allocated blocks `a`. */
  ghost predicate Occupied(a: seq<Block>, x: nat) {
    exists k :: 0 <= k < |a| && a[k].offset <= x < a[k].End()
  }

  lemma OccupiedWithout(l: seq<Block>, m: Block, r: seq<Block>, x: nat)
    requires Ascending(l + [m] + r)
    ensures Occupied(l + r, x) <==> Occupied(l + [m] + r, x) && !(m.offset <= x < m.End())
  {
    var a, c := l + [m] + r, l + r;
    assert a[|l|] == m;
    assert forall k :: 0 <= k < |c| ==> c[k] == a[if k < |l| then k else k + 1];
    assert forall k :: 0 <= k < |a| && k != |l| ==> a[k] == c[if k < |l| then k else k - 1];
  }

  /** Deallocation gives up exactly the bytes of the given block. */
  lemma DeallocatedGivesUp(b: seq<Block>, i: nat, x: nat)
    requires WellFormed(b) && i < |b| && b[i].Alloc?
    ensures Occupied(Allocs(Deallocated(b, i)), x)
      <==> Occupied(Allocs(b), x) && !(b[i].offset <= x < b[i].End())
  {
    DeallocatedRemoves(b, i);
    AllocsAscending(b);
    OccupiedWithout(Allocs(b[..i]), b[i], Allocs(b[i + 1..]), x);
  }

  // The index on disk, and rebuilding the list from it

  /** One stored record. */
  function RecordBytes(offset: nat, key: nat, size: nat): (s: seq<byte>)
    ensures |s| == RECORD_SIZE
  {
    ToBE(8, offset) + ToBE(4, key) + ToBE(4, size)
  }

  /** What the index becomes when the records `a` are appended one by one. */
  function Rebuilt(a: seq<Block>): (b: seq<Block>)
    requires Ascending(a)
    ensures a == [] <==> b == []
    ensures a != [] ==> End(b) == a[|a| - 1].End()
  {
    if a == [] then []
    else
      var x := a[|a| - 1];
      Appended(Rebuilt(a[..|a| - 1]), x.offset, x.key, x.size)
  }

  /** The allocated records one after the other. */
  function Serialized(a: seq<Block>): (s: seq<byte>)
    requires forall i :: 0 <= i < |a| ==> a[i].Alloc?
    ensures |s| == RECORD_SIZE * |a|
  {
    if a == [] then []
    else
      var x := a[|a| - 1];
      Serialized(a[..|a| - 1]) + RecordBytes(x.offset, x.key, x.size)
  }

  function ReadRecord(f: seq<byte>, p: nat): Block
    requires p + RECORD_SIZE <= |f|
  {
    Alloc(FromBE(f[p..p + 8]), FromBE(f[p + 8..p + 12]), FromBE(f[p + 12..p + 16]))
  }

  /** The `n` records that are stored from `p` on. */
  function ReadRecords(f: seq<byte>, p: nat, n: nat): (a: seq<Block>)
    requires p + RECORD_SIZE * n <= |f|
    ensures |a| == n
    ensures forall i :: 0 <= i < n ==> a[i].Alloc?
  {
    if n == 0 then [] else ReadRecords(f, p, n - 1) + [ReadRecord(f, p + RECORD_SIZE * (n - 1))]
  }

  /** The fields fit in their 64 and 32 bits. */
  predicate FitsRecord(x: Block) {
    x.Alloc? && x.offset < U64_LIMIT && x.key < U32_LIMIT && x.size < U32_LIMIT
  }

  lemma ReadRecordBack(f: seq<byte>, p: nat, x: Block)
    requires p + RECORD_SIZE <= |f| && FitsRecord(x)
    requires f[p..p + RECORD_SIZE] == RecordBytes(x.offset, x.key, x.size)
    ensures ReadRecord(f, p) == x
  {
    hide ToBE, FromBE;
    var s := f[p..p + RECORD_SIZE];
    assert f[p..p + 8] == s[..8] == ToBE(8, x.offset);
    assert f[p + 8..p + 12] == s[8..12] == ToBE(4, x.key);
    assert f[p + 12..p + 16] == s[12..16] == ToBE(4, x.size);
    SpanValues();
    BigEndianRoundTrip(8, x.offset);
    BigEndianRoundTrip(4, x.key);
    BigEndianRoundTrip(4, x.size);
  }

  /** Stored records are read back as they were. */
  lemma {:induction false} ReadRecordsBack(f: seq<byte>, p: nat, a: seq<Block>)
    requires forall i :: 0 <= i < |a| ==> a[i].Alloc? && FitsRecord(a[i])
    requires p + RECORD_SIZE * |a| <= |f| && f[p..p + RECORD_SIZE * |a|] == Serialized(a)
    ensures ReadRecords(f, p, |a|) == a
  {
    if a == [] {
    } else {
      hide RecordBytes, ReadRecord, FitsRecord;
      var n, x := |a| - 1, a[|a| - 1];
      var q := p + RECORD_SIZE * n;
      SliceParts(f, p, q, q + RECORD_SIZE, Serialized(a[..n]), RecordBytes(x.offset, x.key, x.size));
      ReadRecordsBack(f, p, a[..n]);
      ReadRecordBack(f, q, x);
    }
  }

  /** The list without a free block at its front. */
  function WithoutLeadingFree(b: seq<Block>): seq<Block> {
    if b != [] && b[0].Free? then b[1..] else b
  }

  /** Only allocated records are stored; appending them again restores every free block but a leading one,
      because each gap between allocated blocks is exactly one free block. */
  lemma {:induction false} RebuiltFromAllocs(b: seq<Block>)
    requires Sizes32(b) && Chained(b) && (b == [] || b[|b| - 1].Alloc?)
    ensures Ascending(Allocs(b))
    ensures Rebuilt(Allocs(b)) == WithoutLeadingFree(b)
    decreases |b|
  {
    AllocsAscending(b);
    if b == [] {
    } else {
      var n := |b| - 1;
      var m := if n > 0 && b[n - 1].Free? then n - 1 else n;
      LastGap(b, m);
      RebuiltFromAllocs(b[..m]);
      RebuiltStep(b[..m], b[n]);
      LastGapRefilled(b, m);
    }
  }

  lemma RebuiltStep(b: seq<Block>, x: Block)
    requires x.Alloc? && Ascending(Allocs(b) + [x])
    ensures Ascending(Allocs(b))
    ensures Allocs(b) == [] || Rebuilt(Allocs(b)) == [] || End(Rebuilt(Allocs(b))) <= x.offset
    ensures Rebuilt(Allocs(b) + [x]) == Appended(Rebuilt(Allocs(b)), x.offset, x.key, x.size)
  {
    var a := Allocs(b);
    assert (a + [x])[..|a|] == a;
    if a != [] {
      assert (a + [x])[|a| - 1].End() <= (a + [x])[|a|].offset;
    }
    assert forall i :: 0 <= i < |a| ==> a[i] == (a + [x])[i];
  }

  /** `m` blocks come before the last one and the free block before that, if there is one. */
  ghost predicate GapBeforeLast(b: seq<Block>, m: nat) {
    && b != [] && b[|b| - 1].Alloc?
    && m == if |b| > 1 && b[|b| - 2].Free? then |b| - 2 else |b| - 1
  }

  lemma LastGap(b: seq<Block>, m: nat)
    requires Chained(b) && Sizes32(b) && GapBeforeLast(b, m)
    ensures Sizes32(b[..m]) && Chained(b[..m]) && (m > 0 ==> b[m - 1].Alloc?)
    ensures Allocs(b) == Allocs(b[..m]) + [b[|b| - 1]]
  {
    hide Allocs;
    SplitAt(b, m);
    ChainedConcat(b[..m], b[m..]);
    if m < |b| - 1 && m > 0 {
      Neighbours(b, m - 1);
    }
    AllocsBeforeLast(b, m);
  }

  lemma AllocsBeforeLast(b: seq<Block>, m: nat)
    requires GapBeforeLast(b, m)
    ensures Allocs(b) == Allocs(b[..m]) + [b[|b| - 1]]
  {
    TakeTake(b, |b| - 1, m);
    if m < |b| - 1 {
      AllocsBeforeFree(b[..|b| - 1], b[..m]);
    }
  }

  lemma AllocsBeforeFree(c: seq<Block>, d: seq<Block>)
    requires c != [] && c[|c| - 1].Free? && d == c[..|c| - 1]
    ensures Allocs(c) == Allocs(d)
  {
    assert Allocs(d) + [] == Allocs(d);
  }

  lemma LastGapRefilled(b: seq<Block>, m: nat)
    requires Chained(b) && Sizes32(b) && GapBeforeLast(b, m)
    ensures var c, x := WithoutLeadingFree(b[..m]), b[|b| - 1];
      && (c == [] || End(c) <= x.offset)
      && Appended(c, x.offset, x.key, x.size) == WithoutLeadingFree(b)
  {
    if m == 0 {
      LoneBlock(b);
    } else {
      hide Appended, WithoutLeadingFree, Chained, End, Sizes32;
      LastGapShape(b, m);
      Refilled(b, m, b[m..|b| - 1], b[|b| - 1]);
    }
  }

  lemma LastGapShape(b: seq<Block>, m: nat)
    requires Chained(b) && Sizes32(b) && GapBeforeLast(b, m) && m > 0
    ensures m < |b| && b[m - 1].Alloc? && Joint(b[m - 1], b[m])
    ensures var gap, x := b[m..|b| - 1], b[|b| - 1];
      && b[m..] == gap + [x]
      && (gap == [] || (|gap| == 1 && gap[0].Free? && gap[0].size > 0 && gap[0].End() == x.offset))
  {
    Neighbours(b, m - 1);
    if m < |b| - 1 {
      Neighbours(b, m);
    }
  }

  lemma Refilled(b: seq<Block>, m: nat, gap: seq<Block>, x: Block)
    requires 0 < m <= |b| && b[m..] == gap + [x] && b[m - 1].Alloc? && Joint(b[m - 1], b[m]) && x.Alloc?
    requires gap == [] || (|gap| == 1 && gap[0].Free? && gap[0].size > 0 && gap[0].End() == x.offset)
    ensures var c := WithoutLeadingFree(b[..m]);
      && (c == [] || End(c) <= x.offset)
      && Appended(c, x.offset, x.key, x.size) == WithoutLeadingFree(b)
  {
    EndOfPrefix(b, m);
    RestAfterPrefix(b, m);
    var c := WithoutLeadingFree(b[..m]);
    assert b[m] == (gap + [x])[0];
    assert c + gap + [x] == c + (gap + [x]);
  }

  lemma LoneBlock(b: seq<Block>)
    requires GapBeforeLast(b, 0)
    ensures WithoutLeadingFree(b) == [b[|b| - 1]] && WithoutLeadingFree(b[..0]) == []
  {
  }

  lemma EndOfPrefix(b: seq<Block>, m: nat)
    requires 0 < m <= |b| && b[m - 1].Alloc?
    ensures WithoutLeadingFree(b[..m]) != [] && End(WithoutLeadingFree(b[..m])) == b[m - 1].End()
  {
  }

  lemma RestAfterPrefix(b: seq<Block>, m: nat)
    requires 0 < m <= |b|
    ensures WithoutLeadingFree(b) == WithoutLeadingFree(b[..m]) + b[m..]
  {
  }

  // Shrinking

  /** The bytes that the blocks and the index need. */
  function Footprint(b: seq<Block>): nat {
    End(b) + IndexSize(b)
  }

  /** Last blocks freed one after the other, at least one, until the rest fits under `cap`. */
  function Shrunk(b: seq<Block>, cap: nat): (c: seq<Block>)
    requires b != []
    decreases |b|
  {
    var c := Deallocated(b, |b| - 1);
    if c == [] || Footprint(c) <= cap then c else Shrunk(c, cap)
  }

  lemma DroppedLast(b: seq<Block>)
    requires WellFormed(b) && b != []
    ensures var c := Deallocated(b, |b| - 1);
      && WellFormed(c) && c == b[..|c|] && |c| < |b|
      && (BigEnough(b) ==> BigEnough(c))
      && NumAlloc(c) + 1 == NumAlloc(b)
      && (forall k :: |c| <= k < |b| - 1 ==> b[k].Free?)
  {
    var n := |b| - 1;
    EdgesOfHole(b, n);
    CutWellFormed(b, Lo(b, n));
    DeallocatedRemoves(b, n);
  }

  /** `c` is a prefix of `b` and shorter than it. */
  ghost predicate ProperPrefix(c: seq<Block>, b: seq<Block>) {
    |c| < |b| && c == b[..|c|]
  }

  /** No prefix of `b` that is longer than `c`, proper and ends in an allocated block fits under `cap`. */
  ghost predicate LongerDoNotFit(b: seq<Block>, c: seq<Block>, cap: nat) {
    forall k :: |c| <= k < |b| - 1 && b[k].Alloc? ==> Footprint(b[..k + 1]) > cap
  }

  lemma LongerStep(b: seq<Block>, d: seq<Block>, c: seq<Block>, cap: nat)
    requires ProperPrefix(d, b) && LongerDoNotFit(d, c, cap) && Footprint(d) > cap
    requires forall k :: |d| <= k < |b| - 1 ==> b[k].Free?
    ensures LongerDoNotFit(b, c, cap)
  {
    forall k | |c| <= k < |b| - 1 && b[k].Alloc? ensures Footprint(b[..k + 1]) > cap {
      if k == |d| - 1 {
        assert b[..k + 1] == d;
      } else {
        assert d[..k + 1] == b[..k + 1];
      }
    }
  }

  /** The survivors are the longest proper prefix that ends in an allocated block and fits. */
  lemma {:induction false} ShrunkIsLongestFit(b: seq<Block>, cap: nat)
    requires WellFormed(b) && b != []
    ensures var c := Shrunk(b, cap);
      && WellFormed(c) && ProperPrefix(c, b)
      && (BigEnough(b) ==> BigEnough(c))
      && (c == [] || Footprint(c) <= cap)
      && LongerDoNotFit(b, c, cap)
    decreases |b|
  {
    DroppedLast(b);
    var d := Deallocated(b, |b| - 1);
    if d == [] || Footprint(d) <= cap {
    } else {
      hide WellFormed, Footprint, LongerDoNotFit, Deallocated;
      ShrunkIsLongestFit(d, cap);
      LongerStep(b, d, Shrunk(d, cap), cap);
    }
  }

  lemma {:induction false} AllocsPrefix(b: seq<Block>, n: nat)
    requires n <= |b|
    ensures Allocs(b[..n]) <= Allocs(b)
  {
    SplitAt(b, n);
    AllocsConcat(b[..n], b[n..]);
  }
}
