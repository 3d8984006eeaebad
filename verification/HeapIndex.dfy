/** src/heap_index.cpp: the list of records and the two multimaps that file them. */
module HeapIndex {
  import opened Bytes
  import opened Blocks
  import opened RecordMap

  // What the records show, and where they are filed. `view` says which block each listed record describes;
  // `limbo` holds records that are shown as allocated but are in neither multimap for the moment.

  type View = map<Record, Block>

  function FreeWanted(view: View): map<Record, nat> {
    map r | r in view && view[r].Free? :: view[r].size
  }

  function AllocWanted(view: View, limbo: set<Record>): map<Record, nat> {
    map r | r in view && view[r].Alloc? && r !in limbo :: view[r].key
  }

  /** Every listed record is in exactly one multimap, under its current key or size. */
  ghost predicate Filing(view: View, alloc: seq<Entry>, free: seq<Entry>, limbo: set<Record>) {
    && Files(free, FreeWanted(view))
    && Files(alloc, AllocWanted(view, limbo))
    && (forall r :: r in limbo ==> r in view && view[r].Alloc?)
  }

  /** The list holds each record of `view` once, in the order of `blocks`. */
  ghost predicate Listing(view: View, list: seq<Record>, blocks: seq<Block>) {
    Aligned(view, list, blocks) && forall r :: r in view ==> r in list
  }

  lemma ListingSet(view: View, list: seq<Record>, blocks: seq<Block>, i: nat, x: Block)
    requires Listing(view, list, blocks) && i < |list|
    ensures Listing(view[list[i] := x], list, blocks[i := x])
  {
  }

  /** Each listed record is there once and shows its block. */
  ghost predicate Aligned(view: View, list: seq<Record>, blocks: seq<Block>) {
    && |list| == |blocks|
    && (forall i :: 0 <= i < |list| ==> list[i] in view && view[list[i]] == blocks[i])
    && (forall i, j :: 0 <= i < j < |list| ==> list[i] != list[j])
  }

  lemma ListingDrop(view: View, list: seq<Record>, blocks: seq<Block>, i: nat)
    requires Listing(view, list, blocks) && i < |list|
    ensures Listing(view - {list[i]}, Without(list, i), Without(blocks, i))
  {
    AlignedDrop(view, list, blocks, i);
    forall r | r in view && r != list[i] ensures r in Without(list, i) {
      KeptMember(list, i, r);
    }
  }

  lemma AlignedDrop(view: View, list: seq<Record>, blocks: seq<Block>, i: nat)
    requires Aligned(view, list, blocks) && i < |list|
    ensures Aligned(view - {list[i]}, Without(list, i), Without(blocks, i))
  {
    assert forall k :: 0 <= k < |list| - 1 ==> Without(list, i)[k] == list[if k < i then k else k + 1];
  }

  lemma ListingInsert(view: View, list: seq<Record>, blocks: seq<Block>, i: nat, r: Record, x: Block)
    requires Listing(view, list, blocks) && i <= |list| && r !in view
    ensures Listing(view[r := x], list[..i] + [r] + list[i..], blocks[..i] + [x] + blocks[i..])
  {
    AlignedInsert(view, list, blocks, i, r, x);
    forall q | q in view[r := x] ensures q in list[..i] + [r] + list[i..] {
      InsertedMember(list, i, r, q);
    }
  }

  lemma AlignedInsert(view: View, list: seq<Record>, blocks: seq<Block>, i: nat, r: Record, x: Block)
    requires Aligned(view, list, blocks) && i <= |list| && r !in view
    ensures Aligned(view[r := x], list[..i] + [r] + list[i..], blocks[..i] + [x] + blocks[i..])
  {
    var l := list[..i] + [r] + list[i..];
    assert forall k :: 0 <= k < |l| ==> l[k] == if k < i then list[k] else if k == i then r else list[k - 1];
  }

  lemma WantedSet(view: View, limbo: set<Record>, r: Record, x: Block)
    ensures FreeWanted(view[r := x])
      == if x.Free? then FreeWanted(view)[r := x.size] else FreeWanted(view) - {r}
    ensures AllocWanted(view[r := x], limbo)
      == if x.Alloc? && r !in limbo then AllocWanted(view, limbo)[r := x.key] else AllocWanted(view, limbo) - {r}
  {
  }

  lemma WantedDrop(view: View, limbo: set<Record>, r: Record)
    ensures FreeWanted(view - {r}) == FreeWanted(view) - {r}
    ensures AllocWanted(view - {r}, limbo - {r}) == AllocWanted(view, limbo) - {r}
  {
  }

  lemma WantedElsewhere<T>(w: map<T, nat>, r: T, k: nat)
    ensures r !in w ==> w - {r} == w
    ensures (w - {r})[r := k] == w[r := k]
  {
  }

  /** A record in limbo may change as long as it is shown as allocated. */
  lemma FilingSetInLimbo(view: View, alloc: seq<Entry>, free: seq<Entry>, r: Record, x: Block)
    requires Filing(view, alloc, free, {r}) && x.Alloc?
    ensures Filing(view[r := x], alloc, free, {r})
  {
    WantedSet(view, {r}, r, x);
    WantedElsewhere(FreeWanted(view), r, 0);
    WantedElsewhere(AllocWanted(view, {r}), r, 0);
  }

  lemma FilingDropFree(view: View, alloc: seq<Entry>, free: seq<Entry>, limbo: set<Record>, r: Record)
    requires Filing(view, alloc, free, limbo) && r in view && view[r].Free?
    ensures forall free' :: Files(free', FreeWanted(view) - {r}) ==> Filing(view - {r}, alloc, free', limbo)
  {
    assert limbo - {r} == limbo;
    WantedDrop(view, limbo, r);
    WantedElsewhere(AllocWanted(view, limbo), r, 0);
  }

  lemma FilingIntoLimbo(view: View, alloc: seq<Entry>, free: seq<Entry>, k: nat)
    requires Filing(view, alloc, free, {}) && k < |alloc|
    ensures Filing(view, Without(alloc, k), free, {alloc[k].rec})
  {
    var r := alloc[k].rec;
    ErasedFiles(alloc, k, AllocWanted(view, {}));
    assert AllocWanted(view, {r}) == AllocWanted(view, {}) - {r};
  }

  lemma FilingDropLimbo(view: View, alloc: seq<Entry>, free: seq<Entry>, r: Record)
    requires Filing(view, alloc, free, {r})
    ensures Filing(view - {r}, alloc, free, {})
  {
    assert {r} - {r} == {};
    WantedDrop(view, {r}, r);
    WantedElsewhere(FreeWanted(view), r, 0);
    WantedElsewhere(AllocWanted(view, {r}), r, 0);
  }

  lemma FilingFreed(view: View, alloc: seq<Entry>, free: seq<Entry>, free': seq<Entry>, r: Record, x: Block)
    requires Filing(view, alloc, free, {r}) && x.Free?
    requires Files(free', FreeWanted(view)[r := x.size])
    ensures Filing(view[r := x], alloc, free', {})
  {
    WantedSet(view, {r}, r, x);
    WantedElsewhere(AllocWanted(view, {r}), r, 0);
    assert AllocWanted(view[r := x], {}) == AllocWanted(view[r := x], {r});
  }

  lemma FilingAllocated(view: View, alloc: seq<Entry>, alloc': seq<Entry>, free: seq<Entry>, r: Record, x: Block)
    requires Files(free, FreeWanted(view) - {r})
    requires Files(alloc, AllocWanted(view, {})) && x.Alloc?
    requires Files(alloc', AllocWanted(view, {})[r := x.key])
    ensures Filing(view[r := x], alloc', free, {})
  {
    WantedSet(view, {}, r, x);
  }

  /** The three views of the records agree, except that the records in `limbo` are not filed. */
  ghost predicate Coherent(view: View, list: seq<Record>, blocks: seq<Block>,
                           alloc: seq<Entry>, free: seq<Entry>, limbo: set<Record>) {
    && Listing(view, list, blocks)
    && Filing(view, alloc, free, limbo)
    && |alloc| + |limbo| == NumAlloc(blocks)
  }

  lemma CoherentParts(view: View, list: seq<Record>, blocks: seq<Block>,
                      alloc: seq<Entry>, free: seq<Entry>, limbo: set<Record>)
    requires Coherent(view, list, blocks, alloc, free, limbo)
    ensures Listing(view, list, blocks)
    ensures Files(free, FreeWanted(view)) && Files(alloc, AllocWanted(view, limbo))
    ensures forall r :: r in FreeWanted(view) || r in AllocWanted(view, limbo) ==> r in view
  {
  }

  lemma ListingAppend(view: View, list: seq<Record>, blocks: seq<Block>, r: Record, x: Block)
    requires Listing(view, list, blocks) && r !in view
    ensures Listing(view[r := x], list + [r], blocks + [x])
  {
    ListingInsert(view, list, blocks, |list|, r, x);
    assert list[..|list|] + [r] + list[|list|..] == list + [r];
    assert blocks[..|blocks|] + [x] + blocks[|blocks|..] == blocks + [x];
  }

  lemma NumAllocAnd(blocks: seq<Block>, x: Block)
    ensures NumAlloc(blocks + [x]) == NumAlloc(blocks) + if x.Alloc? then 1 else 0
  {
    AllocsConcat(blocks, [x]);
    AllocsOne(x);
  }

  lemma CoherentAppendFree(view: View, list: seq<Record>, blocks: seq<Block>,
                           alloc: seq<Entry>, free: seq<Entry>, free': seq<Entry>, r: Record, x: Block)
    requires Coherent(view, list, blocks, alloc, free, {}) && r !in view && x.Free?
    requires Files(free', FreeWanted(view)[r := x.size])
    ensures Coherent(view[r := x], list + [r], blocks + [x], alloc, free', {})
  {
    ListingAppend(view, list, blocks, r, x);
    WantedSet(view, {}, r, x);
    WantedElsewhere(AllocWanted(view, {}), r, 0);
    NumAllocAnd(blocks, x);
  }

  lemma CoherentAppendAlloc(view: View, list: seq<Record>, blocks: seq<Block>,
                            alloc: seq<Entry>, alloc': seq<Entry>, free: seq<Entry>, r: Record, x: Block)
    requires Coherent(view, list, blocks, alloc, free, {}) && r !in view && x.Alloc?
    requires Files(alloc', AllocWanted(view, {})[r := x.key]) && |alloc'| == |alloc| + 1
    ensures Coherent(view[r := x], list + [r], blocks + [x], alloc', free, {})
  {
    ListingAppend(view, list, blocks, r, x);
    WantedSet(view, {}, r, x);
    WantedElsewhere(FreeWanted(view), r, 0);
    NumAllocAnd(blocks, x);
  }

  /** A record's block when it is taken for an allocated one. */
  function BlockOf(r: Record): Block
    reads r
  {
    Alloc(r.offset, r.key, r.size)
  }

  ghost predicate Shows(r: Record, x: Block)
    reads r
  {
    r.offset == x.offset && r.size == x.size && (x.Alloc? ==> r.key == x.key)
  }

  /** A record whose size has been cut to 32 bits on the way. */
  ghost predicate ShowsCut(r: Record, x: Block)
    reads r
  {
    x.Alloc? && r.offset == x.offset && r.key == x.key && r.size == x.size % U32_LIMIT
  }

  ghost predicate OffsetsSorted(list: seq<Record>)
    reads list
  {
    forall i, j :: 0 <= i < j < |list| ==> list[i].offset < list[j].offset
  }

  /** `std::lower_bound` on the list by offset. */
  method OffsetLowerBound(list: seq<Record>, offset: nat) returns (i: nat)
    requires OffsetsSorted(list)
    ensures i <= |list|
    ensures forall j :: 0 <= j < i ==> list[j].offset < offset
    ensures forall j :: i <= j < |list| ==> list[j].offset >= offset
  {
    i := 0;
    var hi := |list|;
    while i < hi
      invariant i <= hi <= |list|
      invariant forall j :: 0 <= j < i ==> list[j].offset < offset
      invariant forall j :: hi <= j < |list| ==> list[j].offset >= offset
    {
      var mid := (i + hi) / 2;
      if list[mid].offset < offset {
        i := mid + 1;
      } else {
        hi := mid;
      }
    }
  }

  /** Block `k` and the next one made into one allocated block. */
  function Merged(b: seq<Block>, k: nat, key: nat): seq<Block>
    requires k + 1 < |b|
  {
    Replaced(b, k, k + 2, [Alloc(b[k].offset, key, b[k].size + b[k + 1].size)])
  }

  /** Block `i` and its free neighbours made into one allocated block. */
  function Coalesced(b: seq<Block>, i: nat): seq<Block>
    requires i < |b| && b[i].Alloc?
  {
    Replaced(b, Lo(b, i), Hi(b, i), [Alloc(b[Lo(b, i)].offset, b[i].key, HoleSize(b, i))])
  }

  lemma MergedFormed(b: seq<Block>, k: nat, key: nat)
    requires Formed(b) && k + 1 < |b|
    ensures Formed(Merged(b, k, key))
  {
    Neighbours(b, k);
    ReplacedFormed(b, k, k + 2, [Alloc(b[k].offset, key, b[k].size + b[k + 1].size)]);
  }

  /** A free right neighbour is inside the list, and then so is the hole. */
  lemma HoleInside(b: seq<Block>, i: nat)
    requires Formed(b) && i < |b| && HoleFits(b, i)
    ensures i + 1 < |b| && b[i + 1].Free? ==> HoleSize(b, i) < U32_LIMIT
  {
  }

  lemma NeighboursTouch(b: seq<Block>, k: nat)
    requires Formed(b) && k + 1 < |b|
    ensures b[k].End() == b[k + 1].offset && b[k].End() < U64_LIMIT && b[k].offset < b[k + 1].offset
  {
    Neighbours(b, k);
    if k + 2 < |b| {
      BlocksAreSorted(b, k + 1, |b| - 1);
    }
  }

  function IndexWithout(i: nat, k: nat): nat {
    if k < i then i - 1 else i
  }

  lemma NumAllocWithoutFree(b: seq<Block>, k: nat)
    requires k < |b| && b[k].Free?
    ensures NumAlloc(Without(b, k)) == NumAlloc(b)
  {
    AllocsAtFree(b, k);
    AllocsConcat(b[..k], b[k + 1..]);
  }

  lemma NumAllocSet(b: seq<Block>, i: nat, x: Block)
    requires i < |b|
    ensures NumAlloc(b[i := x]) + |IfAlloc(b[i])| == NumAlloc(b) + |IfAlloc(x)|
  {
    AllocsAt(b, i);
    AllocsMiddle(b[..i], x, b[i + 1..]);
    SplitAround(b[i := x], i);
  }

  /** Record `i`, in limbo, takes in its free neighbour `k` and becomes block `x`. */
  lemma CoherentAbsorb(view: View, list: seq<Record>, blocks: seq<Block>, alloc: seq<Entry>,
                       free: seq<Entry>, free': seq<Entry>, i: nat, k: nat, x: Block)
    requires i < |list| && k < |list| && i != k
    requires Coherent(view, list, blocks, alloc, free, {list[i]})
    requires blocks[k].Free? && blocks[i].Alloc? && x.Alloc?
    requires Files(free', FreeWanted(view) - {list[k]})
    ensures Coherent((view - {list[k]})[list[i] := x], Without(list, k), Without(blocks, k)[IndexWithout(i, k) := x],
                     alloc, free', {list[i]})
  {
    var r, j := list[i], IndexWithout(i, k);
    ListingDrop(view, list, blocks, k);
    assert Without(list, k)[j] == r && Without(blocks, k)[j] == blocks[i];
    ListingSet(view - {list[k]}, Without(list, k), Without(blocks, k), j, x);
    FilingDropFree(view, alloc, free, {r}, list[k]);
    FilingSetInLimbo(view - {list[k]}, alloc, free', r, x);
    NumAllocWithoutFree(blocks, k);
    NumAllocSet(Without(blocks, k), j, x);
  }

  lemma AbsorbingMerges(b: seq<Block>, i: nat, k: nat, key: nat, x: Block)
    requires i < |b| && k < |b| && (k + 1 == i || k == i + 1)
    requires x == Alloc(b[Min(i, k)].offset, key, b[i].size + b[k].size)
    ensures Without(b, k)[IndexWithout(i, k) := x] == Merged(b, Min(i, k), key)
  {
  }

  lemma CoherentIntoLimbo(view: View, list: seq<Record>, blocks: seq<Block>,
                          alloc: seq<Entry>, free: seq<Entry>, k: nat)
    requires Coherent(view, list, blocks, alloc, free, {}) && k < |alloc|
    ensures Coherent(view, list, blocks, Without(alloc, k), free, {alloc[k].rec})
  {
    FilingIntoLimbo(view, alloc, free, k);
  }

  /** The last record, in limbo, leaves the index. */
  lemma CoherentPop(view: View, list: seq<Record>, blocks: seq<Block>, alloc: seq<Entry>, free: seq<Entry>)
    requires list != [] && Coherent(view, list, blocks, alloc, free, {list[|list| - 1]})
    ensures var n := |list| - 1;
      Coherent(view - {list[n]}, list[..n], blocks[..n], alloc, free, {})
  {
    var n := |list| - 1;
    var r := list[n];
    ListingDrop(view, list, blocks, n);
    assert list[..n] + list[n + 1..] == list[..n] && blocks[..n] + blocks[n + 1..] == blocks[..n];
    FilingDropLimbo(view, alloc, free, r);
    assert view[r] == blocks[n];
  }

  /** Record `i`, in limbo, becomes the free block `x`. */
  lemma CoherentFreed(view: View, list: seq<Record>, blocks: seq<Block>, alloc: seq<Entry>,
                      free: seq<Entry>, free': seq<Entry>, i: nat, x: Block)
    requires i < |list| && Coherent(view, list, blocks, alloc, free, {list[i]}) && x.Free?
    requires Files(free', FreeWanted(view)[list[i] := x.size])
    ensures Coherent(view[list[i] := x], list, blocks[i := x], alloc, free', {})
  {
    ListingSet(view, list, blocks, i, x);
    FilingFreed(view, alloc, free, free', list[i], x);
    NumAllocSet(blocks, i, x);
    assert view[list[i]] == blocks[i];
  }

  /** Block `i` after it has taken in its left neighbour, if that one is free, and where it is then. */
  function LeftMerged(b: seq<Block>, i: nat): seq<Block>
    requires i < |b| && b[i].Alloc?
  {
    if Lo(b, i) < i then Merged(b, i - 1, b[i].key) else b
  }

  lemma LeftMergedAt(b: seq<Block>, i: nat)
    requires i < |b| && b[i].Alloc?
    ensures var c, j := LeftMerged(b, i), Lo(b, i);
      && j < |c| && |c| - j == |b| - i && c[..j] == b[..j] && c[j + 1..] == b[i + 1..]
      && c[j] == Alloc(b[j].offset, b[i].key, b[i].size + if j < i then b[j].size else 0)
      && (i + 1 < |b| ==> c[j + 1] == b[i + 1])
  {
  }

  /** Taking in the left neighbour and then the right one, where they are free, makes the whole hole one block. */
  lemma CoalescedInSteps(b: seq<Block>, i: nat)
    requires i < |b| && b[i].Alloc?
    ensures var c, j := LeftMerged(b, i), Lo(b, i);
      j < |c| && Coalesced(b, i) == if j + 1 < |c| && c[j + 1].Free? then Merged(c, j, b[i].key) else c
  {
    hide LeftMerged;
    LeftMergedAt(b, i);
    var c, j := LeftMerged(b, i), Lo(b, i);
    if i + 1 < |b| && b[i + 1].Free? {
      assert c[j + 1..][1..] == c[j + 2..] && b[i + 1..][1..] == b[i + 2..];
    } else {
      SplitAround(c, j);
    }
  }

  lemma CoalescedThenFreed(b: seq<Block>, i: nat)
    requires i < |b| && b[i].Alloc?
    ensures var c, lo := Coalesced(b, i), Lo(b, i);
      && lo < |c| && c[lo] == Alloc(b[lo].offset, b[i].key, HoleSize(b, i))
      && (lo == |c| - 1 <==> Hi(b, i) == |b|)
      && (lo == |c| - 1 ==> c[..lo] == Deallocated(b, i))
      && (lo < |c| - 1 ==> c[lo := Hole(b, i)] == Deallocated(b, i))
  {
  }

  /** Free record `i` is allocated whole, as block `x`. */
  lemma CoherentAllocated(view: View, list: seq<Record>, blocks: seq<Block>, alloc: seq<Entry>, alloc': seq<Entry>,
                          free: seq<Entry>, free': seq<Entry>, i: nat, x: Block)
    requires i < |list| && Coherent(view, list, blocks, alloc, free, {})
    requires blocks[i].Free? && x.Alloc?
    requires Files(free', FreeWanted(view) - {list[i]})
    requires Files(alloc', AllocWanted(view, {})[list[i] := x.key]) && |alloc'| == |alloc| + 1
    ensures Coherent(view[list[i] := x], list, blocks[i := x], alloc', free', {})
  {
    ListingSet(view, list, blocks, i, x);
    FilingAllocated(view, alloc, alloc', free', list[i], x);
    NumAllocSet(blocks, i, x);
  }

  /** Free record `i` shrinks to the free block `rest`, and the new record `left` is listed before it as block `x`. */
  lemma CoherentSplit(view: View, list: seq<Record>, blocks: seq<Block>, alloc: seq<Entry>, alloc': seq<Entry>,
                      free: seq<Entry>, free': seq<Entry>, i: nat, rest: Block, left: Record, x: Block)
    requires i < |list| && Coherent(view, list, blocks, alloc, free, {})
    requires blocks[i].Free? && rest.Free? && x.Alloc? && left !in view
    requires Files(free', (FreeWanted(view) - {list[i]})[list[i] := rest.size])
    requires Files(alloc', AllocWanted(view, {})[left := x.key]) && |alloc'| == |alloc| + 1
    ensures Coherent(view[list[i] := rest][left := x], list[..i] + [left] + list[i..],
                     blocks[..i] + [x, rest] + blocks[i + 1..], alloc', free', {})
  {
    var r, v, b := list[i], view[list[i] := rest], blocks[i := rest];
    assert view[r] == blocks[i];
    ListingSet(view, list, blocks, i, rest);
    ListingInsert(v, list, b, i, left, x);
    assert b[..i] + [x] + b[i..] == blocks[..i] + [x, rest] + blocks[i + 1..];
    WantedSet(view, {}, r, rest);
    WantedElsewhere(FreeWanted(view), r, rest.size);
    WantedElsewhere(AllocWanted(view, {}), r, 0);
    WantedSet(v, {}, left, x);
    WantedElsewhere(FreeWanted(v), left, 0);
    NumAllocSet(blocks, i, rest);
    NumAllocInserted(b, i, x);
  }

  lemma OnlyOne(b: seq<Block>, i: nat)
    requires WellFormed(b) && i < |b|
    ensures forall j :: 0 <= j < |b| && b[j] == b[i] ==> j == i
  {
    forall j | 0 <= j < |b| && b[j] == b[i] ensures j == i {
      if j < i {
        BlocksAreSorted(b, j, i);
      } else if i < j {
        BlocksAreSorted(b, i, j);
      }
    }
  }

  lemma NumAllocInserted(b: seq<Block>, i: nat, x: Block)
    requires i <= |b|
    ensures NumAlloc(b[..i] + [x] + b[i..]) == NumAlloc(b) + |IfAlloc(x)|
  {
    AllocsMiddle(b[..i], x, b[i..]);
    AllocsConcat(b[..i], b[i..]);
    SplitAt(b, i);
  }

  class HeapIndex {
    var list: seq<Record>   // all records, by offset
    var alloc: seq<Entry>   // allocated records, by key
    var free: seq<Entry>    // free records, by size
    ghost var view: View
    ghost var blocks: seq<Block>

    ghost predicate Consistent(limbo: set<Record>)
      reads this, view.Keys
    {
      && Coherent(view, list, blocks, alloc, free, limbo)
      && forall r :: r in view ==> if r in limbo then ShowsCut(r, view[r]) else Shows(r, view[r])
    }

    ghost predicate ValidBut(limbo: set<Record>)
      reads this, view.Keys
    {
      Consistent(limbo) && Formed(blocks) && (limbo == {} ==> Sizes32(blocks))
    }

    ghost predicate Valid()
      reads this, view.Keys
    {
      ValidBut({})
    }

    constructor ()
      ensures Valid() && blocks == [] && view == map[]
    {
      list, alloc, free, view, blocks := [], [], [], map[], [];
    }

    /** Empties both multimaps but, like the program, not the list: the index is a valid, empty one afterwards
        exactly when there was nothing in the list. Otherwise no choice of blocks makes its views agree. */
    method Clear()
      modifies this
      ensures alloc == [] && free == [] && list == old(list)
      ensures blocks == []
      ensures Valid() <==> old(list) == []
      ensures old(list) != [] ==> forall v: View, b: seq<Block> :: !Coherent(v, list, b, alloc, free, {})
      ensures Valid() ==> view == map[]
    {
      alloc, free := [], [];
      view, blocks := map[], [];
      NothingFiled();
      if list != [] {
        ListedButNotFiled(list);
      }
    }

    static lemma NothingFiled()
      ensures Files([], FreeWanted(map[])) && Files([], AllocWanted(map[], {}))
    {
      assert FreeWanted(map[]) == map[] && AllocWanted(map[], {}) == map[];
    }

    static lemma ListedButNotFiled(list: seq<Record>)
      requires list != []
      ensures forall v: View, b: seq<Block> :: !Coherent(v, list, b, [], [], {})
    {
      forall v: View, b: seq<Block> ensures !Coherent(v, list, b, [], [], {}) {
        if Coherent(v, list, b, [], [], {}) {
          ListedIsWanted(v, list, b);
        }
      }
    }

    static lemma ListedIsWanted(v: View, list: seq<Record>, b: seq<Block>)
      requires Listing(v, list, b) && list != []
      ensures list[0] in FreeWanted(v) || list[0] in AllocWanted(v, {})
    {
    }

    lemma ListIsSorted(limbo: set<Record>)
      requires ValidBut(limbo)
      ensures OffsetsSorted(list)
    {
      forall i, j | 0 <= i < j < |list| ensures list[i].offset < list[j].offset {
        BlocksAreSorted(blocks, i, j);
      }
    }

    function NumAllocatedRecords(): nat
      reads this
    {
      |alloc|
    }

    /** Bytes of the index on disk, a 32-bit number. */
    function Size(): uint32
      reads this
    {
      (4 + RECORD_SIZE * NumAllocatedRecords()) % U32_LIMIT
    }

    method IsFree(p: Record) returns (b: bool)
      requires Valid()
      ensures b <==> exists j :: (0 <= j < |free| && free[j].rec.offset == p.offset && free[j].rec.key == p.key
                                  && free[j].rec.size == p.size)
      ensures forall i :: 0 <= i < |list| && list[i] == p ==> (b <==> blocks[i].Free?)
    {
      var first, last := EqualRange(free, p.size);
      for i := first to last
        invariant forall j :: first <= j < i ==> !free[j].rec.Same(p)
      {
        if free[i].rec.Same(p) {
          SameMeansSame(free[i].rec, p);
          return true;
        }
      }
      assert p in view && view[p].Free? ==> p in FreeWanted(view);
      return false;
    }

    lemma SameMeansSame(p: Record, q: Record)
      requires Valid() && p in view && p.Same(q)
      ensures q in view ==> p == q
    {
      if q in view {
        ListIsSorted({});
        var i :| 0 <= i < |list| && list[i] == p;
        var j :| 0 <= j < |list| && list[j] == q;
      }
    }

    method IsLast(r: Record) returns (b: bool)
      requires Valid()
      ensures b <==> var n := |list| - 1;
        n >= 0 && r.offset == list[n].offset && r.key == list[n].key && r.size == list[n].size
      ensures forall i :: 0 <= i < |list| && list[i] == r ==> (b <==> i == |list| - 1)
    {
      if |list| == 0 {
        return false;
      }
      ListIsSorted({});
      return r.Same(list[|list| - 1]);
    }

    method AppendGap(gap: Record)
      requires Consistent({}) && gap !in view
      modifies this
      ensures Consistent({}) && view.Keys == old(view.Keys) + {gap}
      ensures blocks == old(blocks) + [Free(gap.offset, gap.size)]
    {
      hide Coherent, Files, FreeWanted, AllocWanted;
      CoherentParts(view, list, blocks, alloc, free, {});
      ghost var x := Free(gap.offset, gap.size);
      var free' := Insert(free, Entry(gap.size, gap), FreeWanted(view));
      CoherentAppendFree(view, list, blocks, alloc, free, free', gap, x);
      list, free := list + [gap], free';
      view, blocks := view[gap := x], blocks + [x];
    }

    method AppendRecord(p: Record)
      requires Consistent({}) && p !in view
      modifies this
      ensures Consistent({}) && view.Keys == old(view.Keys) + {p}
      ensures blocks == old(blocks) + [BlockOf(p)] && list == old(list) + [p]
    {
      hide Coherent, Files, FreeWanted, AllocWanted;
      CoherentParts(view, list, blocks, alloc, free, {});
      ghost var x := BlockOf(p);
      var alloc' := Insert(alloc, Entry(p.key, p), AllocWanted(view, {}));
      CoherentAppendAlloc(view, list, blocks, alloc, alloc', free, p, x);
      list, alloc := list + [p], alloc';
      view, blocks := view[p := x], blocks + [x];
    }

    /** Appends `p`, behind a free record for the gap if there is one. Not `ok`: the gap constructor throws,
        because `p` starts before the end of the last record, and nothing has changed. */
    method AddAllocatedBlock(p: Record) returns (ok: bool)
      requires Valid() && p !in view
      requires p.size > 0 && p.offset + p.size < U64_LIMIT
      requires blocks != [] ==> p.offset < End(blocks) + U32_LIMIT
      modifies this
      ensures Valid()
      ensures ok <==> old(blocks) == [] || End(old(blocks)) <= p.offset
      ensures ok ==> blocks == Appended(old(blocks), p.offset, p.key, p.size)
      ensures ok ==> list != [] && list[|list| - 1] == p && p in view
      ensures !ok ==> blocks == old(blocks) && list == old(list) && view == old(view)
      ensures forall r :: r in view && r != p ==> r in old(view) || fresh(r)
    {
      hide Coherent, WellFormed, Appended, End;
      ghost var b := blocks;
      ok := FillGap(p);
      if !ok {
        return;
      }
      AppendedWellFormed(b, p.offset, p.key, p.size);
      AppendedCases(b, p.offset, p.key, p.size);
      AppendRecord(p);
    }

    /** Appends the free record for the gap before `p`, if there is one. */
    method FillGap(p: Record) returns (ok: bool)
      requires Valid() && p !in view
      requires blocks != [] ==> p.offset < End(blocks) + U32_LIMIT
      modifies this
      ensures ok <==> old(blocks) == [] || End(old(blocks)) <= p.offset
      ensures !ok ==> Valid() && blocks == old(blocks) && list == old(list) && view == old(view)
      ensures ok ==> Consistent({}) && p !in view
      ensures ok ==>
        blocks == (if old(blocks) == [] || End(old(blocks)) == p.offset then old(blocks)
                   else old(blocks) + [Free(End(old(blocks)), p.offset - End(old(blocks)))])
      ensures fresh(view.Keys - old(view.Keys))
    {
      hide Coherent, WellFormed, End;
      LastShown();
      EndBound(blocks);
      if |list| > 0 {
        var last := list[|list| - 1];
        if !last.SharesRightBoundaryWith(p) {
          var gap := Record.Gap(last, p);
          if gap == null {
            return false;
          }
          AppendGap(gap);
        }
      }
      return true;
    }

    lemma LastShown()
      requires Consistent({})
      ensures |list| == |blocks|
      ensures list != [] ==>
        list[|list| - 1] in view && Shows(list[|list| - 1], blocks[|blocks| - 1])
        && End(blocks) == list[|list| - 1].offset + list[|list| - 1].size
    {
    }

    lemma RecordAt(limbo: set<Record>, k: nat)
      requires k < |list| && Consistent(limbo)
      ensures |list| == |blocks| && list[k] in view && view[list[k]] == blocks[k]
      ensures if list[k] in limbo then ShowsCut(list[k], blocks[k]) else Shows(list[k], blocks[k])
      ensures blocks[k].Free? <==> list[k] in FreeWanted(view)
      ensures blocks[k].Free? ==> FreeWanted(view)[list[k]] == blocks[k].size
      ensures list[k] in limbo ==> blocks[k].Alloc?
    {
    }

    lemma DifferentRecords(limbo: set<Record>, i: nat, k: nat)
      requires i < |list| && k < |list| && i != k && Consistent(limbo)
      ensures list[i] != list[k]
    {
    }

    /** Record `i`, in limbo, takes in its neighbour `k` if that one is free. */
    method AbsorbIfFree(i: nat, k: nat) returns (absorbed: bool)
      requires i < |list| && k < |list| && (k + 1 == i || k == i + 1)
      requires ValidBut({list[i]})
      requires k < |blocks| && i < |blocks|
      requires k == i + 1 && blocks[k].Free? ==> blocks[i].size < U32_LIMIT
      modifies this, list[i]
      ensures absorbed <==> old(blocks)[k].Free?
      ensures !absorbed ==> list == old(list) && blocks == old(blocks)
      ensures absorbed ==> list == Without(old(list), k)
      ensures absorbed ==> blocks == Merged(old(blocks), Min(i, k), old(blocks)[i].key)
      ensures ValidBut({old(list)[i]})
      ensures view.Keys <= old(view.Keys)
    {
      hide Coherent, Files, FreeWanted, AllocWanted, Formed, Listing, Merged;
      CoherentParts(view, list, blocks, alloc, free, {list[i]});
      RecordAt({list[i]}, i);
      RecordAt({list[i]}, k);
      DifferentRecords({list[i]}, i, k);
      var r, q := list[i], list[k];
      var found, free' := RemoveIfFree(free, q, FreeWanted(view));
      if !found {
        return false;
      }
      NeighboursTouch(blocks, Min(i, k));
      assert r.SharesRightBoundaryWith(q) || q.SharesRightBoundaryWith(r);
      Absorb(i, k, free');
      return true;
    }

    method Absorb(i: nat, k: nat, free': seq<Entry>)
      requires i < |list| && k < |list| && (k + 1 == i || k == i + 1)
      requires ValidBut({list[i]}) && k < |blocks| && blocks[k].Free?
      requires Files(free', FreeWanted(view) - {list[k]})
      requires list[i].SharesRightBoundaryWith(list[k]) || list[k].SharesRightBoundaryWith(list[i])
      modifies this, list[i]
      ensures list == Without(old(list), k)
      ensures blocks == Merged(old(blocks), Min(i, k), old(blocks)[i].key)
      ensures ValidBut({old(list)[i]})
      ensures view.Keys <= old(view.Keys)
    {
      hide Coherent, Files, FreeWanted, AllocWanted, Formed, Listing, Merged;
      var r, q := list[i], list[k];
      RecordAt({r}, i);
      RecordAt({r}, k);
      DifferentRecords({r}, i, k);
      NeighboursTouch(blocks, Min(i, k));
      ghost var x := Alloc(blocks[Min(i, k)].offset, r.key, blocks[i].size + blocks[k].size);
      CoherentAbsorb(view, list, blocks, alloc, free, free', i, k, x);
      AbsorbingMerges(blocks, i, k, r.key, x);
      MergedFormed(blocks, Min(i, k), r.key);
      SumOfCuts(blocks[i].size, blocks[k].size);
      r.Coalesce(q);
      list, free := Without(list, k), free';
      view, blocks := (view - {q})[r := x], Without(blocks, k)[IndexWithout(i, k) := x];
    }

    static lemma SumOfCuts(a: nat, b: nat)
      ensures (a % U32_LIMIT + b) % U32_LIMIT == (a + b) % U32_LIMIT
    {
    }

    /** Record `r`, in limbo and at place `i`, takes in the neighbours that are free, the left one first. */
    method AbsorbNeighbours(r: Record, i: nat)
      requires i < |list| && list[i] == r && ValidBut({r})
      requires |list| == |blocks| && blocks[i].Alloc? && HoleFits(blocks, i)
      modifies this, r
      ensures ValidBut({r})
      ensures blocks == Coalesced(old(blocks), i)
      ensures Lo(old(blocks), i) < |list| && list[Lo(old(blocks), i)] == r
      ensures view.Keys <= old(view.Keys)
    {
      hide Coherent, Formed, Merged, Coalesced;
      ghost var b := blocks;
      HoleInside(b, i);
      LeftMergedAt(b, i);
      CoalescedInSteps(b, i);
      RecordAt({r}, i);
      var at := i;
      if at > 0 {
        var absorbed := AbsorbIfFree(at, at - 1);
        if absorbed {
          at := at - 1;
        }
      }
      RecordAt({r}, at);
      if at + 1 < |list| {
        var absorbed := AbsorbIfFree(at, at + 1);
      }
    }

    /** Record `r`, in limbo, is looked up by its offset and takes in its free neighbours. */
    method Coalesce(r: Record, ghost i: nat) returns (found: bool)
      requires i < |list| && list[i] == r && ValidBut({r})
      requires blocks[i].Alloc? && HoleFits(blocks, i)
      modifies this, r
      ensures found && ValidBut({r})
      ensures blocks == Coalesced(old(blocks), i)
      ensures Lo(old(blocks), i) < |list| && list[Lo(old(blocks), i)] == r
      ensures view.Keys <= old(view.Keys)
    {
      hide Coherent, Formed, Coalesced, HoleFits, Lo;
      ListIsSorted({r});
      var at := OffsetLowerBound(list, r.offset);
      var last := OffsetLowerBound(list, r.offset + 1);
      RecordAt({r}, i);
      for k := at to last
        invariant k <= i < last <= |list|
        invariant ValidBut({r}) && OffsetsSorted(list)
        invariant list == old(list) && blocks == old(blocks) && view == old(view)
      {
        if list[k].Same(r) {
          AbsorbNeighbours(r, k);
          return true;
        }
      }
      return false;
    }

    lemma AllocEntry(k: nat) returns (i: nat)
      requires Valid() && k < |alloc|
      ensures i < |list| && |list| == |blocks|
      ensures list[i] == alloc[k].rec && blocks[i] == BlockOf(alloc[k].rec) && list[i] in view
    {
      var r := alloc[k].rec;
      assert r in AllocWanted(view, {});
      i :| 0 <= i < |list| && list[i] == r;
    }

    lemma NoEntry(rec: Record)
      requires Valid()
      requires forall j :: 0 <= j < |alloc| && alloc[j].key == rec.key ==> !alloc[j].rec.Same(rec)
      ensures BlockOf(rec) !in blocks
    {
      forall i | 0 <= i < |blocks| && blocks[i].Alloc? ensures blocks[i] != BlockOf(rec) {
        AllocFiled(i);
      }
    }

    lemma AllocFiled(i: nat)
      requires Valid() && i < |blocks| && blocks[i].Alloc?
      ensures |list| == |blocks| && BlockOf(list[i]) == blocks[i]
      ensures exists j :: 0 <= j < |alloc| && alloc[j].key == blocks[i].key && alloc[j].rec == list[i]
    {
      var r := list[i];
      assert r in AllocWanted(view, {}) && Shows(r, view[r]);
      assert Entry(blocks[i].key, r) in alloc;
    }

    /** The allocated record `list[i]`, filed in entry `k`, is freed. */
    method Release(k: nat, ghost i: nat)
      requires Valid() && k < |alloc| && i < |list| && alloc[k].rec == list[i]
      requires |list| == |blocks| && blocks[i].Alloc? && HoleFits(blocks, i)
      modifies this, list[i]
      ensures Valid() && view.Keys <= old(view.Keys)
      ensures blocks == Deallocated(old(blocks), i)
    {
      hide Coherent, WellFormed, Deallocated, Coalesced;
      var r := alloc[k].rec;
      ghost var b := blocks;
      CoalescedThenFreed(b, i);
      DeallocatedWellFormed(b, i);
      Unfile(k, i);
      var found := Coalesce(r, i);
      ghost var j := Lo(b, i);
      RecordAt({r}, j);
      LastIsSame(r, j);
      if list[|list| - 1].Same(r) {
        PopLast();
      } else {
        FileAsFree(r, j);
      }
    }

    /** Entry `k` is erased, and its record is in limbo. */
    method Unfile(k: nat, ghost i: nat)
      requires Valid() && k < |alloc| && i < |list| && alloc[k].rec == list[i]
      requires i < |blocks| && blocks[i].Alloc?
      modifies this
      ensures list == old(list) && blocks == old(blocks) && view == old(view)
      ensures ValidBut({list[i]})
    {
      hide Coherent;
      CoherentIntoLimbo(view, list, blocks, alloc, free, k);
      RecordAt({}, i);
      alloc := Without(alloc, k);
    }

    /** The last record, in limbo, leaves the index. */
    method PopLast()
      requires list != [] && |list| == |blocks| && ValidBut({list[|list| - 1]})
      requires WellFormed(blocks[..|list| - 1])
      modifies this
      ensures Valid() && view.Keys <= old(view.Keys)
      ensures blocks == old(blocks)[..|old(list)| - 1]
    {
      hide Coherent, WellFormed, Formed;
      CoherentPop(view, list, blocks, alloc, free);
      Install(list[..|list| - 1], alloc, free, view - {list[|list| - 1]}, blocks[..|list| - 1]);
    }

    /** Record `j`, in limbo, is filed as a free one. */
    method FileAsFree(r: Record, ghost j: nat)
      requires j < |list| == |blocks| && list[j] == r && ValidBut({r}) && r in view
      requires blocks[j].size == r.size && r.offset == blocks[j].offset
      requires WellFormed(blocks[j := Free(r.offset, r.size)])
      modifies this
      ensures Valid() && view.Keys <= old(view.Keys)
      ensures blocks == old(blocks)[j := Free(r.offset, r.size)]
    {
      hide Coherent, Files, FreeWanted, AllocWanted, WellFormed, Formed;
      CoherentParts(view, list, blocks, alloc, free, {r});
      RecordAt({r}, j);
      ghost var x := Free(r.offset, r.size);
      var free' := Insert(free, Entry(r.size, r), FreeWanted(view));
      CoherentFreed(view, list, blocks, alloc, free, free', j, x);
      Install(list, alloc, free', view[r := x], blocks[j := x]);
    }

    lemma LastIsSame(r: Record, j: nat)
      requires j < |list| && list[j] == r && ValidBut({r})
      ensures list[|list| - 1].Same(r) <==> j == |list| - 1
    {
      ListIsSorted({r});
    }

    /** The allocated record equal to `rec` is freed; `ok` says whether there is one. */
    method Deallocate(rec: Record) returns (ok: bool)
      requires Valid()
      requires forall i :: 0 <= i < |blocks| && blocks[i] == BlockOf(rec) ==> HoleFits(blocks, i)
      modifies this, view.Keys
      ensures Valid() && view.Keys <= old(view.Keys)
      ensures ok <==> old(BlockOf(rec)) in old(blocks)
      ensures forall i :: 0 <= i < |old(blocks)| && old(blocks)[i] == old(BlockOf(rec)) ==>
        blocks == Deallocated(old(blocks), i)
      ensures !ok ==> blocks == old(blocks) && list == old(list)
    {
      hide Coherent, Files, FreeWanted, AllocWanted, WellFormed;
      CoherentParts(view, list, blocks, alloc, free, {});
      FilesSorted(alloc, AllocWanted(view, {}));
      var first, last := EqualRange(alloc, rec.key);
      for k := first to last
        invariant forall j :: first <= j < k ==> !alloc[j].rec.Same(rec)
      {
        if alloc[k].rec.Same(rec) {
          ghost var i := AllocEntry(k);
          Release(k, i);
          OnlyOne(old(blocks), i);
          return true;
        }
      }
      NoEntry(rec);
      return false;
    }

    /** Best fit: takes a smallest free record that is big enough, whole or split. */
    method Allocate(requested: uint32, key: uint32) returns (r: Record?, ghost at: nat)
      requires Valid()
      modifies this, view.Keys
      ensures Valid() && fresh(view.Keys - old(view.Keys))
      ensures r == null <==> !HasFit(old(blocks), Max(requested, MIN_SIZE))
      ensures r == null ==> blocks == old(blocks)
      ensures r != null ==> BestFit(old(blocks), at, Max(requested, MIN_SIZE))
      ensures r != null ==> blocks == Carved(old(blocks), at, Max(requested, MIN_SIZE), key)
      ensures r != null ==> at < |list| && list[at] == r
    {
      hide Coherent, Files, FreeWanted, AllocWanted, WellFormed, Carved;
      var size := Max(requested, MIN_SIZE);
      CoherentParts(view, list, blocks, alloc, free, {});
      FilesSorted(free, FreeWanted(view));
      var k := LowerBound(free, size);
      if k == |free| {
        NoFit(size);
        return null, 0;
      }
      at := FirstFit(size, k);
      r := free[k].rec;
      ErasedFiles(free, k, FreeWanted(view));
      var free' := Without(free, k);
      assert r.size >= MIN_SIZE;
      if size > r.size - MIN_SIZE {
        AllocateWhole(r, key, at, size, free');
        return;
      }
      r := AllocateLeft(r, key, at, size, free');
    }

    lemma FirstFit(size: nat, k: nat) returns (i: nat)
      requires Valid() && k < |free|
      requires forall j :: 0 <= j < k ==> free[j].key < size
      requires forall j :: k <= j < |free| ==> free[j].key >= size
      ensures BestFit(blocks, i, size) && i < |list|
      ensures list[i] == free[k].rec && list[i] in view && Shows(list[i], blocks[i])
    {
      var r := free[k].rec;
      assert r in FreeWanted(view);
      i :| 0 <= i < |list| && list[i] == r;
      forall j | 0 <= j < |blocks| && blocks[j].Free? && blocks[j].size >= size
        ensures blocks[i].size <= blocks[j].size
      {
        FreeEntry(j);
      }
    }

    lemma FreeEntry(j: nat)
      requires Valid() && j < |blocks| && blocks[j].Free?
      ensures exists m :: 0 <= m < |free| && free[m].key == blocks[j].size
    {
      assert list[j] in FreeWanted(view);
      assert Entry(blocks[j].size, list[j]) in free;
    }

    lemma NoFit(size: nat)
      requires Valid()
      requires forall j :: 0 <= j < |free| ==> free[j].key < size
      ensures !HasFit(blocks, size)
    {
      forall j | 0 <= j < |blocks| && blocks[j].Free? ensures blocks[j].size < size {
        FreeEntry(j);
      }
    }

    method AllocateWhole(r: Record, key: uint32, ghost at: nat, ghost size: nat, free': seq<Entry>)
      requires Valid() && at < |list| && list[at] == r && r in view
      requires at < |blocks| && blocks[at].Free? && MIN_SIZE <= size <= blocks[at].size < size + MIN_SIZE
      requires Files(free', FreeWanted(view) - {r})
      modifies this, r
      ensures Valid() && view.Keys == old(view.Keys) && list == old(list)
      ensures blocks == Carved(old(blocks), at, size, key)
    {
      hide Coherent, Files, FreeWanted, AllocWanted, WellFormed, Listing, Carved;
      CoherentParts(view, list, blocks, alloc, free, {});
      RecordAt({}, at);
      CarvedWellFormed(blocks, at, size, key);
      CarvedCases(blocks, at, size, key);
      NotYetAllocated(at);
      r.key := key;
      ghost var x := BlockOf(r);
      var alloc' := Insert(alloc, Entry(r.key, r), AllocWanted(view, {}));
      CoherentAllocated(view, list, blocks, alloc, alloc', free, free', at, x);
      alloc, free := alloc', free';
      view, blocks := view[r := x], blocks[at := x];
    }

    lemma NotYetAllocated(at: nat)
      requires Valid() && at < |list| && at < |blocks| && blocks[at].Free?
      ensures list[at] !in AllocWanted(view, {})
    {
    }

    /** Splits `r` and finds it again in the list, which is still sorted. */
    method SplitListed(r: Record, ghost at: nat, size: uint32) returns (left: Record, i: nat)
      requires Valid() && at < |list| && list[at] == r && size > 0 && r.size > size
      modifies r
      ensures fresh(left) && left.offset == old(r.offset) && left.size == size
      ensures r.offset == old(r.offset) + size && r.size == old(r.size) - size
      ensures i == at
    {
      hide Coherent, WellFormed;
      RecordsBehind(at);
      ListIsSorted({});
      left := r.SplitOffLeft(size);
      i := OffsetLowerBound(list, r.offset);
      PlaceOf(list, at, i);
    }

    static lemma PlaceOf(list: seq<Record>, at: nat, i: nat)
      requires OffsetsSorted(list) && at < |list| && i <= |list|
      requires forall j :: 0 <= j < i ==> list[j].offset < list[at].offset
      requires forall j :: i <= j < |list| ==> list[j].offset >= list[at].offset
      ensures i == at
    {
      var here := list[at].offset;
      var first := if i < |list| then list[i].offset else here;
    }

    lemma RecordsBehind(at: nat)
      requires Valid() && at < |list|
      ensures forall j :: at < j < |list| ==> list[j].offset >= list[at].offset + list[at].size
      ensures forall j :: 0 <= j < |list| && j != at ==> list[j] != list[at]
      ensures list[at].offset + list[at].size < U64_LIMIT
    {
      forall j | at < j < |list| ensures list[j].offset >= list[at].offset + list[at].size {
        BlocksAreSorted(blocks, at, j);
      }
      if at < |list| - 1 {
        BlocksAreSorted(blocks, at, |list| - 1);
      }
    }

    /** Splits `r`; the left part, a new record, is listed in front of it. */
    method AllocateLeft(r: Record, key: uint32, ghost at: nat, size: uint32, free': seq<Entry>) returns (left: Record)
      requires Valid() && at < |list| && list[at] == r && r in view
      requires at < |blocks| && blocks[at].Free? && MIN_SIZE <= size && size + MIN_SIZE <= blocks[at].size
      requires Files(free', FreeWanted(view) - {r})
      modifies this, r
      ensures Valid() && fresh(left) && view.Keys == old(view.Keys) + {left}
      ensures blocks == Carved(old(blocks), at, size, key)
      ensures at < |list| && list[at] == left
    {
      hide Coherent, Files, FreeWanted, AllocWanted, WellFormed, Listing, Carved;
      CoherentParts(view, list, blocks, alloc, free, {});
      RecordAt({}, at);
      CarvedWellFormed(blocks, at, size, key);
      CarvedCases(blocks, at, size, key);
      var i;
      left, i := SplitListed(r, at, size);
      var free'' := Insert(free', Entry(r.size, r), FreeWanted(view) - {r});
      left.key := key;
      var alloc' := Insert(alloc, Entry(left.key, left), AllocWanted(view, {}));
      ghost var x, rest := BlockOf(left), Free(r.offset, r.size);
      CoherentSplit(view, list, blocks, alloc, alloc', free, free'', at, rest, left, x);
      ghost var view': View := view[r := rest][left := x];
      Install(list[..i] + [left] + list[i..], alloc', free'', view', blocks[..at] + [x, rest] + blocks[at + 1..]);
    }

    /** The index takes on a new state in which its three views agree. */
    method Install(list': seq<Record>, alloc': seq<Entry>, free': seq<Entry>,
                   ghost view': View, ghost blocks': seq<Block>)
      requires Coherent(view', list', blocks', alloc', free', {}) && WellFormed(blocks')
      requires forall r :: r in view' ==> Shows(r, view'[r])
      modifies this
      ensures Valid()
      ensures list == list' && alloc == alloc' && free == free' && view == view' && blocks == blocks'
    {
      hide Coherent, Formed;
      list, alloc, free, view, blocks := list', alloc', free', view', blocks';
    }
  }
}
