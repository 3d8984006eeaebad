/** A heap file as a value: its blocks, its bytes and its size limit; and what each operation does to it. */
module Store {
  import opened Bytes
  import opened BlobFormat
  import opened Blocks

  datatype Item = Item(id: seq<byte>, data: seq<byte>)

  type Table = map<seq<byte>, seq<byte>>

  // Items and the table they make

  ghost predicate DistinctIds(items: seq<Item>) {
    forall i, j :: 0 <= i < j < |items| ==> items[i].id != items[j].id
  }

  function TableOf(items: seq<Item>): Table {
    if items == [] then map[]
    else TableOf(items[..|items| - 1])[items[|items| - 1].id := items[|items| - 1].data]
  }

  lemma {:induction false} TableHas(items: seq<Item>, id: seq<byte>)
    ensures id in TableOf(items) <==> exists i :: 0 <= i < |items| && items[i].id == id
  {
    if items == [] {
    } else {
      var n := |items| - 1;
      TableHas(items[..n], id);
      assert items[n] == items[n];
      assert forall i :: 0 <= i < n ==> items[..n][i] == items[i];
    }
  }

  /** One item among others with different ids is one binding, wherever it stands. */
  lemma {:induction false} TableAround(l: seq<Item>, x: Item, r: seq<Item>)
    requires DistinctIds(l + [x] + r)
    ensures TableOf(l + [x] + r) == TableOf(l + r)[x.id := x.data]
    ensures x.id !in TableOf(l + r)
  {
    var items := l + [x] + r;
    if r == [] {
      assert items[..|l|] == l && l + r == l;
      assert forall i :: 0 <= i < |l| ==> items[i] == l[i];
      TableHas(l, x.id);
    } else {
      var n, y := |r| - 1, r[|r| - 1];
      var items0 := l + [x] + r[..n];
      assert items[..|items| - 1] == items0 && (l + r)[..|l + r| - 1] == l + r[..n];
      assert forall i :: 0 <= i < |items0| ==> items0[i] == items[i];
      assert items[|l|] == x && items[|items| - 1] == y;
      TableAround(l, x, r[..n]);
    }
  }

  lemma DistinctWithout(l: seq<Item>, x: Item, r: seq<Item>)
    requires DistinctIds(l + [x] + r)
    ensures DistinctIds(l + r)
  {
    var a, c := l + [x] + r, l + r;
    assert forall i :: 0 <= i < |c| ==> c[i] == a[if i < |l| then i else i + 1];
  }

  lemma DistinctWith(l: seq<Item>, x: Item, r: seq<Item>)
    requires DistinctIds(l + r) && x.id !in TableOf(l + r)
    ensures DistinctIds(l + [x] + r)
  {
    var a, c := l + [x] + r, l + r;
    TableHas(c, x.id);
    forall i, j | 0 <= i < j < |a| ensures a[i].id != a[j].id {
      assert a[i] == if i < |l| then c[i] else if i == |l| then x else c[i - 1];
      assert a[j] == if j < |l| then c[j] else if j == |l| then x else c[j - 1];
    }
  }

  // What the bytes of a block hold

  ghost predicate InFile(f: seq<byte>, x: Block) {
    x.End() <= |f|
  }

  function SlotOf(f: seq<byte>, x: Block): (s: seq<byte>)
    ensures x.End() <= |f| ==> |s| == x.size
  {
    if x.End() <= |f| then f[x.offset..x.End()] else []
  }

  /** The blob in a block: its id and its data, both encrypted. */
  function ItemAt(f: seq<byte>, x: Block): Item {
    var s := SlotOf(f, x);
    if Sized(s) then Item(IdOf(s), DataOf(s)) else Item([], [])
  }

  /** The block holds a blob with a matching checksum, and is filed under the hash of the blob's id. */
  ghost predicate Holds(f: seq<byte>, x: Block) {
    x.Alloc? && InFile(f, x) && Intact(SlotOf(f, x)) && x.key == Hash(ItemAt(f, x).id)
  }

  function Items(f: seq<byte>, a: seq<Block>): (items: seq<Item>)
    ensures |items| == |a|
  {
    seq(|a|, i requires 0 <= i < |a| => ItemAt(f, a[i]))
  }

  ghost predicate AllHold(f: seq<byte>, a: seq<Block>) {
    forall i :: 0 <= i < |a| ==> Holds(f, a[i])
  }

  /** `g` has the bytes of `f` in every block of `a`. */
  ghost predicate AgreeOn(f: seq<byte>, g: seq<byte>, a: seq<Block>) {
    forall i :: 0 <= i < |a| ==> a[i].End() <= |f| && a[i].End() <= |g| && SlotOf(f, a[i]) == SlotOf(g, a[i])
  }

  lemma AgreeKeeps(f: seq<byte>, g: seq<byte>, a: seq<Block>)
    requires AllHold(f, a) && AgreeOn(f, g, a)
    ensures AllHold(g, a) && Items(g, a) == Items(f, a)
  {
  }

  lemma ItemsConcat(f: seq<byte>, l: seq<Block>, r: seq<Block>)
    ensures Items(f, l + r) == Items(f, l) + Items(f, r)
  {
    hide ItemAt;
    assert forall i :: 0 <= i < |l + r| ==> Items(f, l + r)[i] == (Items(f, l) + Items(f, r))[i];
  }

  lemma ItemsAround(f: seq<byte>, l: seq<Block>, x: Block, r: seq<Block>)
    ensures Items(f, l + [x] + r) == Items(f, l) + [ItemAt(f, x)] + Items(f, r)
    ensures Items(f, l + r) == Items(f, l) + Items(f, r)
  {
    hide ItemAt;
    ItemsConcat(f, l + [x], r);
    ItemsConcat(f, l, [x]);
    ItemsConcat(f, l, r);
    assert Items(f, [x]) == [ItemAt(f, x)];
  }

  lemma HoldAround(f: seq<byte>, l: seq<Block>, x: Block, r: seq<Block>)
    ensures AllHold(f, l + [x] + r) <==> AllHold(f, l + r) && Holds(f, x)
  {
    var a, c := l + [x] + r, l + r;
    assert a[|l|] == x;
    assert forall i :: 0 <= i < |c| ==> c[i] == a[if i < |l| then i else i + 1];
    assert forall i :: 0 <= i < |a| && i != |l| ==> a[i] == c[if i < |l| then i else i - 1];
  }

  /** Taking one block out, while the others keep their bytes, takes its blob out of the table. */
  lemma BlobRemoved(f: seq<byte>, g: seq<byte>, l: seq<Block>, x: Block, r: seq<Block>)
    requires AllHold(f, l + [x] + r) && DistinctIds(Items(f, l + [x] + r)) && AgreeOn(f, g, l + r)
    ensures AllHold(g, l + r) && DistinctIds(Items(g, l + r))
    ensures TableOf(Items(g, l + r)) == TableOf(Items(f, l + [x] + r)) - {ItemAt(f, x).id}
  {
    hide AllHold, AgreeOn, DistinctIds, TableOf, ItemAt, Items;
    ItemsAround(f, l, x, r);
    HoldAround(f, l, x, r);
    AgreeKeeps(f, g, l + r);
    TableAround(Items(f, l), ItemAt(f, x), Items(f, r));
    DistinctWithout(Items(f, l), ItemAt(f, x), Items(f, r));
  }

  /** Putting a block with a new id in, while the others keep their bytes, adds its blob to the table. */
  lemma BlobAdded(f: seq<byte>, g: seq<byte>, l: seq<Block>, x: Block, r: seq<Block>)
    requires AllHold(f, l + r) && DistinctIds(Items(f, l + r)) && AgreeOn(f, g, l + r)
    requires Holds(g, x) && ItemAt(g, x).id !in TableOf(Items(f, l + r))
    ensures AllHold(g, l + [x] + r) && DistinctIds(Items(g, l + [x] + r))
    ensures TableOf(Items(g, l + [x] + r)) == TableOf(Items(f, l + r))[ItemAt(g, x).id := ItemAt(g, x).data]
  {
    hide AllHold, AgreeOn, DistinctIds, TableOf, ItemAt, Items, Holds;
    AgreeKeeps(f, g, l + r);
    ItemsAround(g, l, x, r);
    HoldAround(g, l, x, r);
    DistinctWith(Items(g, l), ItemAt(g, x), Items(g, r));
    TableAround(Items(g, l), ItemAt(g, x), Items(g, r));
  }

  // The state of a heap file

  datatype Store = Store(blocks: seq<Block>, bytes: seq<byte>, maxSize: nat)

  const NO_LIMIT: nat := U64_LIMIT - 1

  function StoredItems(s: Store): seq<Item> {
    Items(s.bytes, Allocs(s.blocks))
  }

  /** The table that the file stands for. */
  function Contents(s: Store): Table {
    TableOf(StoredItems(s))
  }

  /** The blocks tile a part of the file behind its 8-byte header, and the size of their index fits in 32 bits. */
  ghost predicate Placed(b: seq<Block>, fileSize: nat) {
    && WellFormed(b) && BigEnough(b)
    && (b != [] ==> 8 <= b[0].offset && End(b) <= fileSize)
    && IndexSize(b) < U32_LIMIT
  }

  /** The invariant of every state that a heap file can be in. */
  ghost predicate StoreValid(s: Store) {
    && Placed(s.blocks, |s.bytes|)
    && AllHold(s.bytes, Allocs(s.blocks))
    && DistinctIds(StoredItems(s))
    && s.maxSize <= NO_LIMIT
  }

  ghost predicate StoredAt(s: Store, id: seq<byte>, i: nat) {
    i < |s.blocks| && s.blocks[i].Alloc? && ItemAt(s.bytes, s.blocks[i]).id == id
  }

  lemma RankOf(s: Store, i: nat)
    requires i < |s.blocks| && s.blocks[i].Alloc?
    ensures var k := |Allocs(s.blocks[..i])|;
      k < |Allocs(s.blocks)| && Allocs(s.blocks)[k] == s.blocks[i]
      && StoredItems(s)[k] == ItemAt(s.bytes, s.blocks[i])
  {
    AllocRank(s.blocks, i);
  }

  /** An id is bound exactly when some allocated block holds it. */
  lemma BoundMeansStored(s: Store, id: seq<byte>)
    ensures id in Contents(s) <==> exists i :: StoredAt(s, id, i)
  {
    TableHas(StoredItems(s), id);
    if i :| StoredAt(s, id, i) {
      RankOf(s, i);
    }
    if id in Contents(s) {
      var k :| 0 <= k < |StoredItems(s)| && StoredItems(s)[k].id == id;
      AllocsAreBlocks(s.blocks, k);
      var i :| 0 <= i < |s.blocks| && s.blocks[i] == Allocs(s.blocks)[k];
      assert StoredAt(s, id, i);
    }
  }

  /** Only one block holds a given id. */
  lemma StoredOnce(s: Store, id: seq<byte>, i: nat, j: nat)
    requires DistinctIds(StoredItems(s)) && StoredAt(s, id, i) && StoredAt(s, id, j)
    ensures i == j
  {
    RankOf(s, i);
    RankOf(s, j);
    if i < j {
      TakeTake(s.blocks, j, i);
      AllocRank(s.blocks[..j], i);
    } else if j < i {
      TakeTake(s.blocks, i, j);
      AllocRank(s.blocks[..i], j);
    }
  }

  lemma StoredIsBound(s: Store, id: seq<byte>, i: nat)
    requires StoreValid(s) && StoredAt(s, id, i)
    ensures id in Contents(s) && Contents(s)[id] == ItemAt(s.bytes, s.blocks[i]).data
  {
    RankOf(s, i);
    TableLookup(StoredItems(s), |Allocs(s.blocks[..i])|);
  }

  // Releasing a block

  /** Block `i` freed. When the last block goes, the file is resized, to what the place where that block started and
      the remaining index add up to: usually that makes it shorter, but see `Sizes.ReleaseLengthensExactly`. */
  function Released(s: Store, i: nat): Store
    requires i < |s.blocks|
  {
    var b := Deallocated(s.blocks, i);
    Store(b,
          if i == |s.blocks| - 1 then Resize(s.bytes, s.blocks[i].offset + IndexSize(b)) else s.bytes,
          s.maxSize)
  }

  lemma ReleasedPlaced(s: Store, i: nat)
    requires Placed(s.blocks, |s.bytes|) && i < |s.blocks| && s.blocks[i].Alloc? && HoleFits(s.blocks, i)
    ensures Placed(Released(s, i).blocks, |Released(s, i).bytes|)
    ensures IndexSize(Released(s, i).blocks) + RECORD_SIZE == IndexSize(s.blocks)
  {
    var b, c := s.blocks, Deallocated(s.blocks, i);
    DeallocatedWellFormed(b, i);
    DeallocatedRemoves(b, i);
    if c != [] {
      FirstStays(b, i);
      if i == |b| - 1 {
        EndBelowReleased(b, i);
      }
    }
  }

  lemma FirstStays(b: seq<Block>, i: nat)
    requires i < |b| && Deallocated(b, i) != []
    ensures Deallocated(b, i)[0].offset == b[0].offset
  {
  }

  lemma EndBelowReleased(b: seq<Block>, i: nat)
    requires WellFormed(b) && i == |b| - 1 && Deallocated(b, i) != []
    ensures End(Deallocated(b, i)) <= b[i].offset
  {
    var lo := Lo(b, i);
    assert Deallocated(b, i) == b[..lo];
    BlocksAreSorted(b, lo - 1, i);
  }

  lemma ResizeAgrees(f: seq<byte>, n: nat, a: seq<Block>)
    requires forall k :: 0 <= k < |a| ==> a[k].End() <= |f| && a[k].End() <= n
    ensures AgreeOn(f, Resize(f, n), a)
  {
    forall k | 0 <= k < |a| ensures SlotOf(f, a[k]) == SlotOf(Resize(f, n), a[k]) {
    }
  }

  lemma WholeAgrees(f: seq<byte>, a: seq<Block>)
    requires forall k :: 0 <= k < |a| ==> a[k].End() <= |f|
    ensures AgreeOn(f, f, a)
  {
  }

  /** The bytes of every remaining block survive a release. */
  lemma ReleasedAgrees(s: Store, i: nat)
    requires Placed(s.blocks, |s.bytes|) && i < |s.blocks| && s.blocks[i].Alloc? && HoleFits(s.blocks, i)
    ensures AgreeOn(s.bytes, Released(s, i).bytes, Allocs(Released(s, i).blocks))
  {
    hide AgreeOn, Deallocated, Allocs, Resize, HoleFits;
    var b, c := s.blocks, Deallocated(s.blocks, i);
    DeallocatedWellFormed(b, i);
    AllocsAscending(c);
    WholeAgrees(s.bytes, Allocs(c));
    if i == |b| - 1 {
      if c != [] {
        EndBelowReleased(b, i);
      }
      ResizeAgrees(s.bytes, b[i].offset + IndexSize(c), Allocs(c));
    }
  }

  /** Releasing a block takes exactly its blob out of the table. */
  lemma ReleasedForgets(s: Store, i: nat)
    requires StoreValid(s) && i < |s.blocks| && s.blocks[i].Alloc? && HoleFits(s.blocks, i)
    ensures StoreValid(Released(s, i))
    ensures Contents(Released(s, i)) == Contents(s) - {ItemAt(s.bytes, s.blocks[i]).id}
  {
    ReleasedPlaced(s, i);
    ReleasedAgrees(s, i);
    DeallocatedRemoves(s.blocks, i);
    BlobRemoved(s.bytes, Released(s, i).bytes, Allocs(s.blocks[..i]), s.blocks[i], Allocs(s.blocks[i + 1..]));
  }

  // Erasing

  /** What a caller has to know before an erase: the hole that it leaves inside the file is smaller than 2^32 bytes. */
  ghost predicate CanErase(s: Store, id: seq<byte>) {
    forall i :: StoredAt(s, id, i) ==> HoleFits(s.blocks, i)
  }

  /** `eraseBlob`: the block that holds the id is released, if there is one. */
  ghost function Erased(s: Store, id: seq<byte>): Store {
    if exists i :: StoredAt(s, id, i) then
      var i :| StoredAt(s, id, i);
      Released(s, i)
    else s
  }

  lemma ErasedIs(s: Store, id: seq<byte>, i: nat)
    requires DistinctIds(StoredItems(s)) && StoredAt(s, id, i)
    ensures Erased(s, id) == Released(s, i)
  {
    var j :| StoredAt(s, id, j) && Erased(s, id) == Released(s, j);
    StoredOnce(s, id, i, j);
  }

  lemma EraseForgets(s: Store, id: seq<byte>)
    requires StoreValid(s) && CanErase(s, id)
    ensures StoreValid(Erased(s, id))
    ensures Contents(Erased(s, id)) == Contents(s) - {id}
    ensures End(Erased(s, id).blocks) <= End(s.blocks)
    ensures IndexSize(Erased(s, id).blocks) <= IndexSize(s.blocks)
    ensures Erased(s, id).maxSize == s.maxSize
  {
    BoundMeansStored(s, id);
    if i :| StoredAt(s, id, i) {
      ErasedIs(s, id, i);
      ReleasedForgets(s, i);
      ReleasedPlaced(s, i);
      DeallocatedWellFormed(s.blocks, i);
    }
  }

  lemma BehindTheHeader(b: seq<Block>, i: nat)
    requires WellFormed(b) && i < |b| && b[0].offset >= 8
    ensures b[i].offset >= 8
  {
    if i > 0 {
      BlocksAreSorted(b, 0, i);
    }
  }

  // Writing

  /** The size of the block that a blob asks for. */
  function Need(id: seq<byte>, data: seq<byte>): nat {
    Max(BlobSize(|id|, |data|), MIN_SIZE)
  }

  /** The sizes that a write computes stay within their 32 and 64 bits. */
  predicate CanStore(s: Store, id: seq<byte>, data: seq<byte>) {
    && OVERHEAD + |id| + |data| < U32_LIMIT
    && IndexSize(s.blocks) + RECORD_SIZE < U32_LIMIT
    && Footprint(s.blocks) + Need(id, data) + RECORD_SIZE < U64_LIMIT
  }

  /** What a caller has to know before a write. */
  ghost predicate CanWrite(s: Store, id: seq<byte>, data: seq<byte>) {
    CanStore(s, id, data) && CanErase(s, id)
  }

  /** The blocks with a new one at the end. */
  function Grown(b: seq<Block>, id: seq<byte>, data: seq<byte>): seq<Block> {
    Appended(b, End(b), Hash(id), Need(id, data))
  }

  /** `writeData` on block `i` of `s`, and the release of that block when it refuses. */
  ghost predicate Filled(s: Store, i: nat, id: seq<byte>, data: seq<byte>, ok: bool, t: Store) {
    && i < |s.blocks| && s.blocks[i].offset + OVERHEAD + |id| + |data| <= |s.bytes|
    && |data| < U32_LIMIT
    && if |id| <= MAX_ID
       then ok && t == s.(bytes := Put(s.bytes, s.blocks[i].offset, Encode(id, data)))
       else !ok && t == Released(s, i)
  }

  /** A write that finds a free block: some best fit is carved. */
  ghost predicate Reuses(s: Store, id: seq<byte>, data: seq<byte>, ok: bool, t: Store, at: nat) {
    && BestFit(s.blocks, at, Need(id, data))
    && Filled(s.(blocks := Carved(s.blocks, at, Need(id, data), Hash(id))), at, id, data, ok, t)
  }

  /** A write that has to append: refused when blocks and index would pass the limit. */
  ghost predicate Appends(s: Store, id: seq<byte>, data: seq<byte>, ok: bool, t: Store) {
    var b := Grown(s.blocks, id, data);
    if Footprint(b) > s.maxSize then !ok && t == s
    else Filled(s.(blocks := b, bytes := Resize(s.bytes, Footprint(b))), |s.blocks|, id, data, ok, t)
  }

  /** `writeBlob` with the encrypted id and data: erase first, then reuse a free block or append one. */
  ghost predicate Writes(s: Store, id: seq<byte>, data: seq<byte>, ok: bool, t: Store) {
    var e := Erased(s, id);
    if HasFit(e.blocks, Need(id, data)) then exists at :: Reuses(e, id, data, ok, t, at)
    else Appends(e, id, data, ok, t)
  }

  /** A free block is big enough, or one more block and its index entry stay within the limit. */
  ghost predicate HasRoom(s: Store, id: seq<byte>, data: seq<byte>) {
    HasFit(s.blocks, Need(id, data)) || Footprint(Grown(s.blocks, id, data)) <= s.maxSize
  }

  lemma PutAgrees(g: seq<byte>, l: seq<Block>, x: Block, r: seq<Block>, e: seq<byte>)
    requires Ascending(l + [x] + r) && |e| <= x.size
    requires forall k :: 0 <= k < |l + [x] + r| ==> (l + [x] + r)[k].End() <= |g|
    ensures x.End() <= |g| && AgreeOn(g, Put(g, x.offset, e), l + r)
    ensures e <= SlotOf(Put(g, x.offset, e), x)
  {
    var a, c := l + [x] + r, l + r;
    assert a[|l|] == x;
    var h := Put(g, x.offset, e);
    forall k | 0 <= k < |c|
      ensures c[k].End() <= |g| && SlotOf(g, c[k]) == SlotOf(h, c[k])
    {
      var i := if k < |l| then k else k + 1;
      assert c[k] == a[i];
      Elsewhere(g, x.offset, e, c[k]);
    }
    PutThere(g, x.offset, e);
    SliceOfSlice(h, x.offset, x.End(), 0, |e|);
  }

  lemma Elsewhere(g: seq<byte>, p: nat, e: seq<byte>, y: Block)
    requires p + |e| <= |g| && y.End() <= |g| && (y.End() <= p || p + |e| <= y.offset)
    ensures SlotOf(g, y) == SlotOf(Put(g, p, e), y)
  {
    var h, s, t := Put(g, p, e), SlotOf(g, y), SlotOf(Put(g, p, e), y);
    forall k | 0 <= k < |s| ensures s[k] == t[k] {
      assert s[k] == g[y.offset + k] && t[k] == h[y.offset + k];
    }
  }

  lemma AgreeTransitive(f: seq<byte>, g: seq<byte>, h: seq<byte>, a: seq<Block>)
    requires AgreeOn(f, g, a) && AgreeOn(g, h, a)
    ensures AgreeOn(f, h, a)
  {
  }

  /** Writing a new blob into block `x`, one more than the valid store `s` has, is a table update. */
  lemma WrittenInto(s: Store, c: seq<Block>, g: seq<byte>, l: seq<Block>, x: Block, r: seq<Block>,
                    id: seq<byte>, data: seq<byte>)
    requires StoreValid(s) && id !in Contents(s)
    requires |id| <= MAX_ID && |data| < U32_LIMIT && OVERHEAD + |id| + |data| <= x.size
    requires Placed(c, |g|) && Allocs(c) == l + [x] + r && Allocs(s.blocks) == l + r
    requires AgreeOn(s.bytes, g, l + r) && x.Alloc? && x.key == Hash(id)
    ensures x.End() <= |g|
    ensures var t := Store(c, Put(g, x.offset, Encode(id, data)), s.maxSize);
      StoreValid(t) && Contents(t) == Contents(s)[id := data]
  {
    AllocsAscending(c);
    assert forall k :: 0 <= k < |l + [x] + r| ==> (l + [x] + r)[k].End() <= End(c);
    var e := Encode(id, data);
    PutAgrees(g, l, x, r, e);
    var h := Put(g, x.offset, e);
    BlobRoundTrip(SlotOf(h, x), id, data);
    AgreeTransitive(s.bytes, g, h, l + r);
    BlobAdded(s.bytes, h, l, x, r);
  }

  lemma ReuseRefines(s: Store, id: seq<byte>, data: seq<byte>, ok: bool, t: Store, at: nat)
    requires StoreValid(s) && id !in Contents(s) && CanStore(s, id, data)
    requires Reuses(s, id, data, ok, t, at)
    ensures StoreValid(t)
    ensures ok <==> |id| <= MAX_ID
    ensures ok ==> Contents(t) == Contents(s)[id := data]
    ensures |t.bytes| == |s.bytes|
    ensures !ok ==> t == s
  {
    hide AllHold, DistinctIds, TableOf, ItemAt, Items, AgreeOn, WellFormed, Encode, Hash, Deallocated;
    var need, key := Need(id, data), Hash(id);
    var c := Carved(s.blocks, at, need, key);
    CarvedWellFormed(s.blocks, at, need, key);
    if |id| <= MAX_ID {
      CarvedAdds(s.blocks, at, need, key);
      CarvedPlaced(s.blocks, |s.bytes|, at, need, key);
      SameBytesAgree(s.bytes, Allocs(s.blocks));
      WrittenInto(s, c, s.bytes, Allocs(s.blocks[..at]), c[at], Allocs(s.blocks[at + 1..]), id, data);
    } else {
      ReuseUndone(s, at, need, key);
    }
  }

  /** The refused blob's block is put back: nothing has changed. */
  lemma ReuseUndone(s: Store, at: nat, need: nat, key: nat)
    requires WellFormed(s.blocks) && need >= MIN_SIZE && BestFit(s.blocks, at, need)
    ensures at < |Carved(s.blocks, at, need, key)|
    ensures Released(s.(blocks := Carved(s.blocks, at, need, key)), at) == s
  {
    AllocateDeallocateRestores(s.blocks, at, need, key);
  }

  lemma CarvedPlaced(b: seq<Block>, fileSize: nat, at: nat, need: nat, key: nat)
    requires Placed(b, fileSize) && BestFit(b, at, need) && need >= MIN_SIZE
    requires IndexSize(b) + RECORD_SIZE < U32_LIMIT
    ensures Placed(Carved(b, at, need, key), fileSize)
  {
    CarvedWellFormed(b, at, need, key);
    CarvedAdds(b, at, need, key);
  }

  lemma SameBytesAgree(f: seq<byte>, a: seq<Block>)
    requires AllHold(f, a)
    ensures AgreeOn(f, f, a)
  {
  }

  lemma GrownPlaced(s: Store, id: seq<byte>, data: seq<byte>)
    requires StoreValid(s) && CanStore(s, id, data)
    ensures var c, g := Grown(s.blocks, id, data), Resize(s.bytes, Footprint(Grown(s.blocks, id, data)));
      && Placed(c, |g|)
      && |c| == |s.blocks| + 1 && c[|s.blocks|] == Alloc(End(s.blocks), Hash(id), Need(id, data))
      && Allocs(c) == Allocs(s.blocks) + [c[|s.blocks|]]
      && AgreeOn(s.bytes, g, Allocs(s.blocks))
  {
    var b, key, need := s.blocks, Hash(id), Need(id, data);
    AppendedWellFormed(b, End(b), key, need);
    AppendedCases(b, End(b), key, need);
    AppendedAdds(b, End(b), key, need);
    AllocsAscending(b);
    ResizeAgrees(s.bytes, Footprint(Grown(b, id, data)), Allocs(b));
  }

  lemma AppendRefines(s: Store, id: seq<byte>, data: seq<byte>, ok: bool, t: Store)
    requires StoreValid(s) && id !in Contents(s) && CanStore(s, id, data)
    requires Appends(s, id, data, ok, t)
    ensures StoreValid(t)
    ensures ok <==> |id| <= MAX_ID && Footprint(Grown(s.blocks, id, data)) <= s.maxSize
    ensures ok ==> Contents(t) == Contents(s)[id := data]
    ensures ok ==> |t.bytes| == Footprint(t.blocks) <= s.maxSize
    ensures !ok ==> t.blocks == s.blocks && Contents(t) == Contents(s)
  {
    hide AllHold, DistinctIds, TableOf, ItemAt, Items, AgreeOn, WellFormed;
    hide Encode, Hash, Deallocated, Footprint, Appended;
    var c := Grown(s.blocks, id, data);
    if Footprint(c) <= s.maxSize {
      var g := Resize(s.bytes, Footprint(c));
      GrownPlaced(s, id, data);
      if |id| <= MAX_ID {
        var x := c[|s.blocks|];
        assert Allocs(s.blocks) + [] == Allocs(s.blocks) && Allocs(s.blocks) + [x] + [] == Allocs(c);
        WrittenInto(s, c, g, Allocs(s.blocks), x, [], id, data);
      } else {
        AppendUndone(s, c, g, id, data);
      }
    }
  }

  lemma AllocsEnd(b: seq<Block>)
    requires WellFormed(b)
    ensures forall k :: 0 <= k < |Allocs(b)| ==> Allocs(b)[k].End() <= End(b)
  {
    AllocsAscending(b);
  }

  /** The refused blob's block goes again, and the file is cut behind the old blocks. */
  lemma AppendUndone(s: Store, c: seq<Block>, g: seq<byte>, id: seq<byte>, data: seq<byte>)
    requires StoreValid(s) && c == Grown(s.blocks, id, data) && Placed(c, |g|)
    requires |c| == |s.blocks| + 1 && AgreeOn(s.bytes, g, Allocs(s.blocks))
    requires c[|s.blocks|].offset == End(s.blocks)
    ensures var t := Released(s.(blocks := c, bytes := g), |s.blocks|);
      StoreValid(t) && t.blocks == s.blocks && Contents(t) == Contents(s)
  {
    hide AllHold, DistinctIds, TableOf, ItemAt, Items, AgreeOn, WellFormed, Hash, Deallocated, Appended, Resize;
    AppendDeallocateRestores(s.blocks, End(s.blocks), Hash(id), Need(id, data));
    assert End(s.blocks) <= |g|;
    CutBehindBlocks(s, g);
  }

  lemma CutBehindBlocks(s: Store, g: seq<byte>)
    requires StoreValid(s) && AgreeOn(s.bytes, g, Allocs(s.blocks)) && End(s.blocks) <= |g|
    ensures var t := s.(bytes := Resize(g, End(s.blocks) + IndexSize(s.blocks)));
      StoreValid(t) && Contents(t) == Contents(s)
  {
    hide AllHold, DistinctIds, TableOf, Items, AgreeOn, WellFormed, Resize;
    var n, a := End(s.blocks) + IndexSize(s.blocks), Allocs(s.blocks);
    AllocsEnd(s.blocks);
    ResizeAgrees(g, n, a);
    AgreeTransitive(s.bytes, g, Resize(g, n), a);
    AgreeKeeps(s.bytes, Resize(g, n), a);
  }

  lemma EraseLeavesRoom(s: Store, id: seq<byte>, data: seq<byte>)
    requires StoreValid(s) && CanWrite(s, id, data)
    ensures CanStore(Erased(s, id), id, data)
  {
    hide Erased, Need, Contents;
    EraseForgets(s, id);
  }

  /** Where a write puts its blob when a free block of the erased file is big enough: in a smallest one of them,
      whether the limit would allow a new block or not. The file keeps its size, and the list its end. */
  lemma ReusedPlace(s: Store, id: seq<byte>, data: seq<byte>, ok: bool, t: Store, at: nat)
    requires StoreValid(s) && id !in Contents(s) && CanStore(s, id, data)
    requires Reuses(s, id, data, ok, t, at)
    ensures |t.bytes| == |s.bytes| && End(t.blocks) == End(s.blocks) && t.maxSize == s.maxSize
    ensures ok <==> |id| <= 255
    ensures var n := Max(9 + |id| + |data|, 256);
      && at < |s.blocks| && s.blocks[at].Free? && n <= s.blocks[at].size
      && (forall j :: 0 <= j < |s.blocks| && s.blocks[j].Free? && n <= s.blocks[j].size ==>
            s.blocks[at].size <= s.blocks[j].size)
      && (ok ==> StoredAt(t, id, at) && t.blocks[at].offset == s.blocks[at].offset
                 && t.blocks[at].size == if s.blocks[at].size < n + 256 then s.blocks[at].size else n)
      && (ok ==> SameAround(s.bytes, t.bytes, s.blocks[at].offset, 9 + |id| + |data|))
  {
    hide AllHold, DistinctIds, TableOf, ItemAt, Items, Encode, Hash, Deallocated, Carved, WellFormed, Put;
    var need, key := Need(id, data), Hash(id);
    NeedInNumbers(id, data);
    CarvedWellFormed(s.blocks, at, need, key);
    ReuseRefines(s, id, data, ok, t, at);
    if ok {
      var c := Carved(s.blocks, at, need, key);
      CarvedPlaced(s.blocks, |s.bytes|, at, need, key);
      BlockInside(c, |s.bytes|, at);
      BlobThere(s.bytes, c[at], id, data);
      PutSameAround(s.bytes, |s.bytes|, c[at].offset, Encode(id, data));
    }
  }

  /** But for the `n` bytes from `p` on, `g` is `f`, cut or with zeros behind it. */
  ghost predicate SameAround(f: seq<byte>, g: seq<byte>, p: nat, n: nat) {
    forall i :: 0 <= i < |g| && !(p <= i < p + n) ==> g[i] == if i < |f| then f[i] else 0
  }

  lemma PutSameAround(f: seq<byte>, size: nat, p: nat, x: seq<byte>)
    requires p + |x| <= size
    ensures SameAround(f, Put(Resize(f, size), p, x), p, |x|)
    ensures size == |f| ==> SameAround(f, Put(f, p, x), p, |x|)
  {
  }

  lemma NeedInNumbers(id: seq<byte>, data: seq<byte>)
    requires OVERHEAD + |id| + |data| < U32_LIMIT
    ensures Need(id, data) == Max(9 + |id| + |data|, 256)
  {
    BlobSizeExact(|id|, |data|);
  }

  lemma BlockInside(b: seq<Block>, fileSize: nat, i: nat)
    requires Placed(b, fileSize) && i < |b|
    ensures b[i].End() <= fileSize
  {
    if i < |b| - 1 {
      BlocksAreSorted(b, i, |b| - 1);
    }
  }

  /** A blob put into a block is the item there. */
  lemma BlobThere(g: seq<byte>, x: Block, id: seq<byte>, data: seq<byte>)
    requires |id| <= MAX_ID && |data| < U32_LIMIT && OVERHEAD + |id| + |data| <= x.size && x.End() <= |g|
    ensures ItemAt(Put(g, x.offset, Encode(id, data)), x) == Item(id, data)
  {
    hide Encode;
    var e := Encode(id, data);
    var h := Put(g, x.offset, e);
    PutThere(g, x.offset, e);
    SliceOfSlice(h, x.offset, x.End(), 0, |e|);
    BlobRoundTrip(SlotOf(h, x), id, data);
  }

  /** Where it goes when none is: behind the last block, if the limit allows that. */
  lemma AppendedPlace(s: Store, id: seq<byte>, data: seq<byte>, ok: bool, t: Store)
    requires StoreValid(s) && id !in Contents(s) && CanStore(s, id, data)
    requires Appends(s, id, data, ok, t)
    ensures t.maxSize == s.maxSize
    ensures var n := Max(9 + |id| + |data|, 256);
      var size := End(s.blocks) + n + 4 + 16 * (NumAlloc(s.blocks) + 1);
      && (ok <==> |id| <= 255 && size <= s.maxSize)
      && (size > s.maxSize ==> t == s)
      && (!ok && size <= s.maxSize ==>
            t.blocks == s.blocks && |t.bytes| == End(s.blocks) + 4 + 16 * NumAlloc(s.blocks))
      && (ok ==> |t.bytes| == size && |t.blocks| == |s.blocks| + 1 && t.blocks[..|s.blocks|] == s.blocks
                 && StoredAt(t, id, |s.blocks|) && t.blocks[|s.blocks|].offset == End(s.blocks)
                 && t.blocks[|s.blocks|].size == n
                 && SameAround(s.bytes, t.bytes, End(s.blocks), 9 + |id| + |data|))
  {
    hide AllHold, DistinctIds, TableOf, ItemAt, Items, Encode, Hash, Deallocated, WellFormed, Put, Appended;
    NeedInNumbers(id, data);
    AppendRefines(s, id, data, ok, t);
    GrownFootprint(s, id, data);
    GrownPlaced(s, id, data);
    AppendedCases(s.blocks, End(s.blocks), Hash(id), Need(id, data));
    AppendDeallocateRestores(s.blocks, End(s.blocks), Hash(id), Need(id, data));
    if ok {
      var c, x := Grown(s.blocks, id, data), Grown(s.blocks, id, data)[|s.blocks|];
      BlockInside(c, Footprint(c), |s.blocks|);
      BlobThere(Resize(s.bytes, Footprint(c)), x, id, data);
      PutSameAround(s.bytes, Footprint(c), x.offset, Encode(id, data));
    }
  }

  /** `writeBlob` is a table update when it succeeds. When it fails, because the id is too long or the file
      would pass its limit, the old value is gone all the same: it is a removal, and the blocks are those
      of the erase. */
  lemma WriteRefines(s: Store, id: seq<byte>, data: seq<byte>, ok: bool, t: Store)
    requires StoreValid(s) && CanWrite(s, id, data) && Writes(s, id, data, ok, t)
    ensures StoreValid(t)
    ensures ok ==> Contents(t) == Contents(s)[id := data]
    ensures !ok ==> Contents(t) == Contents(s) - {id} && t.blocks == Erased(s, id).blocks
    ensures ok <==> |id| <= MAX_ID && HasRoom(Erased(s, id), id, data)
  {
    hide StoreValid, Contents, Erased, Reuses, Appends, HasFit, Footprint, Grown, Need;
    var e := Erased(s, id);
    EraseForgets(s, id);
    EraseLeavesRoom(s, id, data);
    assert (Contents(s) - {id})[id := data] == Contents(s)[id := data];
    if HasFit(e.blocks, Need(id, data)) {
      var at :| Reuses(e, id, data, ok, t, at);
      ReuseRefines(e, id, data, ok, t, at);
    } else {
      AppendRefines(e, id, data, ok, t);
    }
  }

  /** The write in numbers, with the blocks of the erased file: a blob that fits into a free block goes into a smallest
      one, and neither the file nor the list gets longer; only a blob that does not is appended, and then it needs
      its own bytes, at least 256, and 16 bytes of the index below the limit. */
  lemma WriteInNumbers(s: Store, id: seq<byte>, data: seq<byte>, ok: bool, t: Store)
    requires StoreValid(s) && CanWrite(s, id, data) && Writes(s, id, data, ok, t)
    ensures var b, n := Erased(s, id).blocks, Max(9 + |id| + |data|, 256);
      var fits := exists i :: 0 <= i < |b| && b[i].Free? && n <= b[i].size;
      var size := End(b) + n + 4 + 16 * (NumAlloc(b) + 1);
      && (ok <==> |id| <= 255 && (fits || size <= s.maxSize))
      && (fits ==> |t.bytes| == |Erased(s, id).bytes| && End(t.blocks) == End(b))
      && (fits && ok ==> exists at: nat ::
            && at < |b| && b[at].Free? && n <= b[at].size
            && (forall j :: 0 <= j < |b| && b[j].Free? && n <= b[j].size ==> b[at].size <= b[j].size)
            && StoredAt(t, id, at) && t.blocks[at].offset == b[at].offset
            && SameAround(Erased(s, id).bytes, t.bytes, b[at].offset, 9 + |id| + |data|)
            && t.blocks[at].size == if b[at].size < n + 256 then b[at].size else n)
      && (!fits && ok ==>
            && |t.bytes| == size && End(t.blocks) == End(b) + n
            && StoredAt(t, id, |b|) && t.blocks[|b|].offset == End(b) && t.blocks[|b|].size == n
            && SameAround(Erased(s, id).bytes, t.bytes, End(b), 9 + |id| + |data|))
  {
    hide StoreValid, Contents, Erased, Reuses, Appends, Footprint, Grown, Need, ItemAt;
    var e := Erased(s, id);
    EraseForgets(s, id);
    EraseLeavesRoom(s, id, data);
    NeedInNumbers(id, data);
    if HasFit(e.blocks, Need(id, data)) {
      var at :| Reuses(e, id, data, ok, t, at);
      ReusedPlace(e, id, data, ok, t, at);
    } else {
      AppendedPlace(e, id, data, ok, t);
    }
  }

  /** As long as no limit is set, every blob with an id of at most 255 bytes is stored. */
  lemma UnlimitedWriteSucceeds(s: Store, id: seq<byte>, data: seq<byte>, ok: bool, t: Store)
    requires StoreValid(s) && CanWrite(s, id, data) && Writes(s, id, data, ok, t)
    requires s.maxSize == NO_LIMIT && |id| <= MAX_ID
    ensures ok
  {
    hide Writes, Contents, Erased, AllHold, DistinctIds;
    var e := Erased(s, id);
    EraseForgets(s, id);
    WriteRefines(s, id, data, ok, t);
    EraseLeavesRoom(s, id, data);
    GrownFootprint(e, id, data);
  }

  lemma GrownFootprint(s: Store, id: seq<byte>, data: seq<byte>)
    requires StoreValid(s)
    ensures Footprint(Grown(s.blocks, id, data)) == Footprint(s.blocks) + Need(id, data) + RECORD_SIZE
  {
    AppendedCases(s.blocks, End(s.blocks), Hash(id), Need(id, data));
    AppendedAdds(s.blocks, End(s.blocks), Hash(id), Need(id, data));
  }

  const EMPTY: Store := Store([], [], NO_LIMIT)

  /** The file after its first write. */
  function FirstBlob(id: seq<byte>, data: seq<byte>): Store
    requires |id| <= MAX_ID && OVERHEAD + |id| + |data| < U32_LIMIT
  {
    NeedInNumbers(id, data);
    var b := [Alloc(8, Hash(id), Need(id, data))];
    Store(b, Put(Resize([], Need(id, data) + 28), 8, Encode(id, data)), NO_LIMIT)
  }

  lemma FirstGrown(id: seq<byte>, data: seq<byte>)
    requires OVERHEAD + |id| + |data| < U32_LIMIT
    ensures Grown([], id, data) == [Alloc(8, Hash(id), Need(id, data))]
    ensures Footprint(Grown([], id, data)) == Need(id, data) + 28
    ensures OVERHEAD + |id| + |data| <= Need(id, data) < U32_LIMIT
  {
    hide Hash;
    AllocsOne(Alloc(8, Hash(id), Need(id, data)));
  }

  /** An empty file takes every blob whose sizes fit. */
  lemma FirstWrite(id: seq<byte>, data: seq<byte>)
    requires |id| <= MAX_ID && OVERHEAD + |id| + |data| < U32_LIMIT
    ensures CanWrite(EMPTY, id, data) && Writes(EMPTY, id, data, true, FirstBlob(id, data))
  {
    hide Hash, Encode, Need, Grown;
    FirstGrown(id, data);
    FirstAppend(id, data);
    assert Erased(EMPTY, id) == EMPTY;
  }

  lemma FirstAppend(id: seq<byte>, data: seq<byte>)
    requires |id| <= MAX_ID && OVERHEAD + |id| + |data| < U32_LIMIT
    ensures Appends(EMPTY, id, data, true, FirstBlob(id, data))
  {
    hide Hash, Encode, Need, Grown, Footprint, Put, Resize;
    FirstGrown(id, data);
  }

  // Shrinking

  /** `setMaxSize`: the last blocks go until the rest fits. A file that becomes empty loses its limit, too. */
  function Limited(s: Store, cap: nat): Store {
    if |s.bytes| < cap then s.(maxSize := cap)
    else if s.blocks == [] || Shrunk(s.blocks, cap) == [] then EMPTY
    else
      var c := Shrunk(s.blocks, cap);
      Store(c, Resize(s.bytes, Footprint(c)), cap)
  }

  lemma {:induction false} TableLookup(items: seq<Item>, i: nat)
    requires DistinctIds(items) && i < |items|
    ensures items[i].id in TableOf(items) && TableOf(items)[items[i].id] == items[i].data
  {
    var n := |items| - 1;
    if i == n {
    } else {
      TableLookup(items[..n], i);
      assert items[..n][i] == items[i];
    }
  }

  /** `t` binds a part of what `s` binds, to the same data. */
  ghost predicate SubTable(t: Table, s: Table) {
    forall id :: id in t ==> id in s && t[id] == s[id]
  }

  lemma TablePrefix(items: seq<Item>, n: nat)
    requires DistinctIds(items) && n <= |items|
    ensures DistinctIds(items[..n]) && SubTable(TableOf(items[..n]), TableOf(items))
  {
    forall id | id in TableOf(items[..n])
      ensures id in TableOf(items) && TableOf(items[..n])[id] == TableOf(items)[id]
    {
      TableHas(items[..n], id);
      var i :| 0 <= i < n && items[..n][i].id == id;
      TableLookup(items[..n], i);
      TableLookup(items, i);
    }
  }

  /** A prefix of the blocks, on a file that is cut behind them, keeps exactly its blobs. */
  lemma PrefixKept(s: Store, c: seq<Block>, n: nat, cap: nat)
    requires StoreValid(s) && c != [] && ProperPrefix(c, s.blocks) && WellFormed(c) && BigEnough(c)
    requires n >= End(c) && cap <= NO_LIMIT
    ensures var t := Store(c, Resize(s.bytes, n), cap);
      StoreValid(t) && StoredItems(t) <= StoredItems(s) && SubTable(Contents(t), Contents(s))
  {
    hide TableOf, Items, WellFormed, SubTable, DistinctIds, AllHold, AgreeOn;
    var t := Store(c, Resize(s.bytes, n), cap);
    PrefixEnds(s.blocks, c);
    AllocsPrefix(s.blocks, |c|);
    PrefixHolds(s.bytes, Allocs(c), Allocs(s.blocks));
    AllocsEnd(c);
    ResizeAgrees(s.bytes, n, Allocs(c));
    AgreeKeeps(s.bytes, t.bytes, Allocs(c));
    TablePrefix(StoredItems(s), NumAlloc(c));
  }

  lemma PrefixHolds(f: seq<byte>, a: seq<Block>, b: seq<Block>)
    requires a <= b
    ensures AllHold(f, b) ==> AllHold(f, a)
    ensures Items(f, a) == Items(f, b)[..|a|]
  {
    hide ItemAt, Holds;
  }

  lemma PrefixEnds(b: seq<Block>, c: seq<Block>)
    requires WellFormed(b) && c != [] && ProperPrefix(c, b)
    ensures End(c) <= End(b) && c[0] == b[0]
  {
    BlocksAreSorted(b, |c| - 1, |b| - 1);
  }

  /** After `setMaxSize` the file is no larger than the limit, and what is left is a prefix of the blocks and of
      the blobs, as they were. A file that shrinks ends with its index; an empty one has no limit any more. */
  lemma LimitedShrinks(s: Store, cap: nat)
    requires StoreValid(s) && cap <= NO_LIMIT
    ensures var t := Limited(s, cap);
      && StoreValid(t)
      && |t.bytes| <= cap
      && t.blocks <= s.blocks
      && StoredItems(t) <= StoredItems(s)
      && SubTable(Contents(t), Contents(s))
      && (cap <= |s.bytes| ==> LongerDoNotFit(s.blocks, t.blocks, cap))
      && (|s.bytes| < cap ==> t.blocks == s.blocks && t.bytes == s.bytes && t.maxSize == cap)
      && (cap <= |s.bytes| && t.blocks != [] ==> |t.bytes| == Footprint(t.blocks) && t.maxSize == cap)
      && (cap <= |s.bytes| && t.blocks == [] ==> t.bytes == [] && t.maxSize == NO_LIMIT)
  {
    hide AllHold, DistinctIds, TableOf, Items, WellFormed, Footprint, SubTable;
    var t := Limited(s, cap);
    if |s.bytes| < cap {
      SubTableReflexive(s);
    } else if s.blocks == [] {
      EmptyIsValid(s);
    } else {
      ShrunkIsLongestFit(s.blocks, cap);
      var c := Shrunk(s.blocks, cap);
      if c == [] {
        EmptyIsValid(s);
      } else {
        FootprintBeyondEnd(c);
        PrefixKept(s, c, Footprint(c), cap);
      }
    }
  }

  /** `setMaxSize` keeps every block, and every blob, exactly when the file is smaller than the limit or has no
      blocks. A file that is just as large as the limit, which is all that is asked for, loses its last blob. */
  lemma LimitedKeepsExactly(s: Store, cap: nat)
    requires StoreValid(s) && cap <= NO_LIMIT
    ensures Limited(s, cap).blocks == s.blocks <==> |s.bytes| < cap || s.blocks == []
    ensures Contents(Limited(s, cap)) == Contents(s) <==> |s.bytes| < cap || s.blocks == []
  {
    if cap <= |s.bytes| && s.blocks != [] {
      LastBlobIsLost(s, cap);
    }
  }

  lemma LastBlobIsLost(s: Store, cap: nat)
    requires StoreValid(s) && cap <= |s.bytes| && cap <= NO_LIMIT && s.blocks != []
    ensures var t, x := Limited(s, cap), ItemAt(s.bytes, s.blocks[|s.blocks| - 1]).id;
      |t.blocks| < |s.blocks| && x in Contents(s) && x !in Contents(t)
  {
    hide Limited, Placed, AllHold, DistinctIds, TableOf, Footprint, ItemAt, SubTable, LongerDoNotFit;
    var n, t := |s.blocks| - 1, Limited(s, cap);
    LimitedShrinks(s, cap);
    LimitedIsShorter(s, cap);
    LastIsAllocated(s);
    assert t.blocks == s.blocks[..n][..|t.blocks|];
    AllocsPrefix(s.blocks[..n], |t.blocks|);
    RankOf(s, n);
    TableLookup(StoredItems(s), NumAlloc(s.blocks[..n]));
    assert StoredItems(t) == StoredItems(s)[..NumAlloc(t.blocks)];
    BeyondPrefix(StoredItems(s), NumAlloc(t.blocks), NumAlloc(s.blocks[..n]));
  }

  lemma LimitedIsShorter(s: Store, cap: nat)
    requires StoreValid(s) && cap <= |s.bytes| && s.blocks != []
    ensures |Limited(s, cap).blocks| < |s.blocks|
  {
    ShrunkIsLongestFit(s.blocks, cap);
  }

  lemma LastIsAllocated(s: Store)
    requires StoreValid(s) && s.blocks != []
    ensures s.blocks[|s.blocks| - 1].Alloc?
  {
  }

  lemma BeyondPrefix(items: seq<Item>, m: nat, k: nat)
    requires DistinctIds(items) && m <= k < |items|
    ensures items[k].id !in TableOf(items[..m])
  {
    TableHas(items[..m], items[k].id);
  }

  /** Block `i` outlives the limit: it is not the last one, and it fits together with the blocks before it. */
  ghost predicate Spared(s: Store, cap: nat, i: nat) {
    i + 1 < |s.blocks| && Footprint(s.blocks[..i + 1]) <= cap
  }

  /** The limit takes away the blob stored under `x`. */
  ghost predicate Drops(s: Store, cap: nat, x: seq<byte>) {
    cap <= |s.bytes| && exists i: nat :: StoredAt(s, x, i) && !Spared(s, cap, i)
  }

  lemma RankBelow(b: seq<Block>, i: nat, m: nat)
    requires i < |b| && m <= |b| && b[i].Alloc?
    ensures NumAlloc(b[..i]) < NumAlloc(b[..m]) <==> i < m
  {
    if i < m {
      TakeTake(b, m, i);
      AllocRank(b[..m], i);
    } else {
      TakeTake(b, i, m);
      AllocsPrefix(b[..i], m);
    }
  }

  lemma FootprintGrows(b: seq<Block>, m: nat, n: nat)
    requires WellFormed(b) && 0 < m <= n <= |b|
    ensures Footprint(b[..m]) <= Footprint(b[..n])
  {
    hide Allocs;
    TakeTake(b, n, m);
    AllocsPrefix(b[..n], m);
    if m < n {
      BlocksAreSorted(b, m - 1, n - 1);
    }
  }

  lemma LimitedLeavesSpared(s: Store, cap: nat, i: nat)
    requires StoreValid(s) && cap <= NO_LIMIT && cap <= |s.bytes|
    requires i < |s.blocks| && s.blocks[i].Alloc?
    ensures i < |Limited(s, cap).blocks| <==> Spared(s, cap, i)
  {
    hide AllHold, DistinctIds, TableOf, Items, WellFormed, Footprint, Shrunk;
    var c := Shrunk(s.blocks, cap);
    ShrunkIsLongestFit(s.blocks, cap);
    if i < |c| {
      FootprintGrows(s.blocks, i + 1, |c|);
    }
  }

  /** A stored blob survives a limit exactly when its block is spared. */
  lemma SurvivesLimitExactly(s: Store, cap: nat, x: seq<byte>, i: nat)
    requires StoreValid(s) && cap <= NO_LIMIT && cap <= |s.bytes| && StoredAt(s, x, i)
    ensures x in Contents(Limited(s, cap)) <==> Spared(s, cap, i)
  {
    hide Limited, Placed, AllHold, DistinctIds, TableOf, ItemAt, SubTable, LongerDoNotFit, Spared;
    var t, k := Limited(s, cap), NumAlloc(s.blocks[..i]);
    LimitedShrinks(s, cap);
    LimitedLeavesSpared(s, cap, i);
    RankOf(s, i);
    assert s.blocks[..|t.blocks|] == t.blocks;
    RankBelow(s.blocks, i, |t.blocks|);
    assert StoredItems(t) == StoredItems(s)[..NumAlloc(t.blocks)];
    assert StoredItems(s)[k].id == x;
    if k < NumAlloc(t.blocks) {
      TableLookup(StoredItems(t), k);
      assert StoredItems(t)[k].id == x;
    } else {
      BeyondPrefix(StoredItems(s), NumAlloc(t.blocks), k);
    }
  }

  /** What a limit leaves: exactly the blobs that it does not drop. */
  lemma LimitedDropsExactly(s: Store, cap: nat, x: seq<byte>)
    requires StoreValid(s) && cap <= NO_LIMIT
    ensures x in Contents(Limited(s, cap)) <==> x in Contents(s) && !Drops(s, cap, x)
  {
    hide Contents, StoredAt, Placed, AllHold, Spared;
    LimitedShrinks(s, cap);
    LimitedKeepsExactly(s, cap);
    BoundMeansStored(s, x);
    if cap <= |s.bytes| {
      if i: nat :| StoredAt(s, x, i) {
        SurvivesLimitExactly(s, cap, x, i);
        forall j: nat | StoredAt(s, x, j) ensures j == i {
          StoredOnce(s, x, i, j);
        }
      }
    }
  }

  /** A file that already meets the limit is not left alone when it meets it exactly. */
  lemma FileAtItsLimitLosesABlob(s: Store)
    requires StoreValid(s) && s.blocks != [] && |s.bytes| <= NO_LIMIT
    ensures Contents(Limited(s, |s.bytes|)) != Contents(s)
  {
    LimitedKeepsExactly(s, |s.bytes|);
  }

  lemma NoBlocksNoContents(s: Store)
    requires StoreValid(s)
    ensures s.blocks == [] <==> Contents(s) == map[]
  {
    if s.blocks != [] {
      var n := |s.blocks| - 1;
      RankOf(s, n);
      TableLookup(StoredItems(s), NumAlloc(s.blocks[..n]));
    }
  }

  lemma FootprintBeyondEnd(c: seq<Block>)
    ensures End(c) <= Footprint(c)
  {
  }

  lemma SubTableReflexive(s: Store)
    ensures SubTable(Contents(s), Contents(s))
  {
  }

  lemma EmptyIsValid(s: Store)
    ensures StoreValid(EMPTY) && Contents(EMPTY) == map[] && StoredItems(EMPTY) == []
    ensures SubTable(Contents(EMPTY), Contents(s))
  {
  }

  // Closing and opening

  function IndexBytes(b: seq<Block>): (x: seq<byte>)
    ensures |x| == IndexSize(b)
  {
    AllocsAreAllocated(b);
    ToBE(4, NumAlloc(b)) + Serialized(Allocs(b))
  }

  lemma AllocsAreAllocated(b: seq<Block>)
    ensures forall k :: 0 <= k < |Allocs(b)| ==> Allocs(b)[k].Alloc?
  {
    forall k | 0 <= k < |Allocs(b)| ensures Allocs(b)[k].Alloc? {
      AllocsAreBlocks(b, k);
    }
  }

  /** The file with the place of the index at its front, and long enough for the index. */
  function Prepared(s: Store): (f: seq<byte>)
    requires Placed(s.blocks, |s.bytes|) && s.blocks != []
    ensures End(s.blocks) + IndexSize(s.blocks) <= |f|
  {
    BlocksBehindHeader(s.blocks, |s.bytes|);
    var f := Put(s.bytes, 0, ToBE(8, End(s.blocks)));
    Resize(f, Max(|f|, Footprint(s.blocks)))
  }

  /** What the destructor leaves on disk: the place of the index at the front, the index behind the last block,
      or nothing at all. */
  function Committed(s: Store): seq<byte>
    requires Placed(s.blocks, |s.bytes|)
  {
    if s.blocks == [] then [] else Put(Prepared(s), End(s.blocks), IndexBytes(s.blocks))
  }

  lemma BlocksBehindHeader(b: seq<Block>, fileSize: nat)
    requires Placed(b, fileSize) && b != []
    ensures 8 < End(b) <= fileSize
  {
    AllocsAscending(b);
  }

  /** `findHeapIndex` and the constructor's loop. */
  function IndexOffset(f: seq<byte>): nat
    requires |f| >= 8
  {
    FromBE(f[..8])
  }

  function NumRecords(f: seq<byte>): nat
    requires |f| >= 8 && IndexOffset(f) + 4 <= |f|
  {
    FromBE(f[IndexOffset(f)..IndexOffset(f) + 4])
  }

  predicate HasIndex(f: seq<byte>) {
    && |f| >= 8
    && IndexOffset(f) + 4 <= |f|
    && IndexOffset(f) + 4 + RECORD_SIZE * NumRecords(f) <= |f|
  }

  function StoredRecords(f: seq<byte>): seq<Block>
    requires HasIndex(f)
  {
    ReadRecords(f, IndexOffset(f) + 4, NumRecords(f))
  }

  /** The file is empty or has an index of ascending records. */
  ghost predicate Readable(f: seq<byte>) {
    f == [] || (HasIndex(f) && Ascending(StoredRecords(f)))
  }

  /** What the constructor makes of a file that has an index of ascending records. */
  function Loaded(f: seq<byte>): Store
    requires Readable(f)
  {
    if f == [] then EMPTY else Store(Rebuilt(StoredRecords(f)), f, NO_LIMIT)
  }

  /** The records of the index make a list that is in order, whatever the bytes of their blocks are. */
  ghost predicate Openable(f: seq<byte>) {
    Readable(f) && WellFormed(Loaded(f).blocks)
  }

  /** The file was left by a heap file. */
  ghost predicate Loadable(f: seq<byte>) {
    Readable(f) && StoreValid(Loaded(f))
  }

  lemma {:induction false} BlocksTakeSpace(b: seq<Block>)
    requires Sizes32(b) && Chained(b) && BigEnough(b) && (b != [] ==> b[0].offset >= 8)
    ensures 8 + MIN_SIZE * NumAlloc(b) <= End(b)
  {
    if b == [] {
    } else if |b| == 1 {
      AllocsOne(b[0]);
      assert b == [b[0]];
    } else {
      FrontOf(b);
      BlocksTakeSpace(b[..|b| - 1]);
    }
  }

  lemma HolesFitBelow4GiB(b: seq<Block>, i: nat)
    requires WellFormed(b) && i < |b| && 8 <= b[0].offset && End(b) <= U32_LIMIT
    ensures HoleFits(b, i)
  {
    HoleSpans(b, i);
    BehindTheHeader(b, Lo(b, i));
    if Hi(b, i) < |b| {
      BlocksAreSorted(b, Hi(b, i) - 1, |b| - 1);
    }
  }

  /** As long as the blocks stay below 4 GiB, nothing but the size of the blob has to be checked before a write,
      and nothing at all before an erase. */
  lemma NothingToCheckBelow4GiB(s: Store, id: seq<byte>, data: seq<byte>)
    requires StoreValid(s) && End(s.blocks) <= U32_LIMIT
    ensures CanErase(s, id)
    ensures OVERHEAD + |id| + |data| < U32_LIMIT ==> CanWrite(s, id, data)
  {
    forall i: nat | StoredAt(s, id, i) ensures HoleFits(s.blocks, i) {
      HolesFitBelow4GiB(s.blocks, i);
    }
    BlocksTakeSpace(s.blocks);
  }

  lemma LeadingFreePlaced(b: seq<Block>, fileSize: nat)
    requires Placed(b, fileSize)
    ensures Placed(WithoutLeadingFree(b), fileSize) && Allocs(WithoutLeadingFree(b)) == Allocs(b)
  {
    if b != [] && b[0].Free? {
      SplitAt(b, 1);
      ChainedConcat(b[..1], b[1..]);
      AllocsAtFree(b, 0);
      assert Allocs(b[..0]) == [];
      assert [] + Allocs(b[1..]) == Allocs(b[1..]);
      Neighbours(b, 0);
    }
  }

  lemma RecordsFit(s: Store)
    requires StoreValid(s)
    ensures forall k :: 0 <= k < NumAlloc(s.blocks) ==> Allocs(s.blocks)[k].Alloc? && FitsRecord(Allocs(s.blocks)[k])
  {
    AllocsAscending(s.blocks);
    forall k | 0 <= k < NumAlloc(s.blocks) ensures FitsRecord(Allocs(s.blocks)[k]) {
      AllocsAreBlocks(s.blocks, k);
      assert Holds(s.bytes, Allocs(s.blocks)[k]);
    }
  }

  lemma PutAround(f: seq<byte>, header: seq<byte>, at: nat, x: seq<byte>)
    requires |header| <= at <= |f|
    ensures var g := Put(f, 0, header);
      var h := Put(Resize(g, Max(|g|, at + |x|)), at, x);
      forall i :: |header| <= i < |f| && !(at <= i < at + |x|) ==> h[i] == f[i]
  {
  }

  /** Writing the header and the index changes no byte in any other place, of a block or not. */
  lemma CommittedElsewhere(s: Store, i: nat)
    requires StoreValid(s) && s.blocks != []
    requires 8 <= i < |s.bytes| && !(End(s.blocks) <= i < Footprint(s.blocks))
    ensures i < |Committed(s)| && Committed(s)[i] == s.bytes[i]
  {
    hide IndexBytes, ToBE, WellFormed, AllHold, DistinctIds, End, Put, Resize, Allocs;
    BlocksBehindHeader(s.blocks, |s.bytes|);
    PutAround(s.bytes, ToBE(8, End(s.blocks)), End(s.blocks), IndexBytes(s.blocks));
  }

  /** Writing the header and the index leaves the bytes of every block alone. */
  lemma CommittedAgrees(s: Store)
    requires StoreValid(s) && s.blocks != []
    ensures AgreeOn(s.bytes, Committed(s), Allocs(s.blocks))
  {
    hide IndexBytes, Footprint, ToBE, WellFormed;
    var f, end, a := Committed(s), End(s.blocks), Allocs(s.blocks);
    BlocksBehindHeader(s.blocks, |s.bytes|);
    AllocsBehindHeader(s.blocks, |s.bytes|);
    assert forall i :: 8 <= i < end ==> f[i] == s.bytes[i];
    forall k | 0 <= k < |a| ensures SlotOf(s.bytes, a[k]) == SlotOf(f, a[k]) {
    }
  }

  lemma AllocsBehindHeader(b: seq<Block>, fileSize: nat)
    requires Placed(b, fileSize)
    ensures forall k :: 0 <= k < NumAlloc(b) ==> 8 <= Allocs(b)[k].offset && Allocs(b)[k].End() <= End(b)
  {
    AllocsAscending(b);
  }

  /** The stored index is found again and spells the allocated blocks. */
  lemma IndexReadBack(s: Store)
    requires StoreValid(s) && s.blocks != []
    ensures HasIndex(Committed(s)) && StoredRecords(Committed(s)) == Allocs(s.blocks)
  {
    hide Committed, IndexOffset, NumRecords, Serialized, ReadRecords, AllHold, DistinctIds, WellFormed, FitsRecord;
    var f, end := Committed(s), End(s.blocks);
    HeaderReadBack(s);
    RecordsFit(s);
    ReadRecordsBack(f, end + 4, Allocs(s.blocks));
  }

  lemma HeaderReadBack(s: Store)
    requires StoreValid(s) && s.blocks != []
    ensures var f, end, n := Committed(s), End(s.blocks), NumAlloc(s.blocks);
      && HasIndex(f) && IndexOffset(f) == end && NumRecords(f) == n
      && f[end + 4..end + 4 + RECORD_SIZE * n] == Serialized(Allocs(s.blocks))
  {
    hide ToBE, FromBE, Serialized, Prepared, Put, WellFormed, AllHold, DistinctIds;
    var f, end, n := Committed(s), End(s.blocks), NumAlloc(s.blocks);
    BlocksBehindHeader(s.blocks, |s.bytes|);
    AllocsAreAllocated(s.blocks);
    EndBound(s.blocks);
    SpanValues();
    BigEndianRoundTrip(8, end);
    BigEndianRoundTrip(4, n);
    var x := IndexBytes(s.blocks);
    PreparedHeader(s);
    PutBehind(Prepared(s), end, x, 8);
    PutThere(Prepared(s), end, x);
    SliceParts(f, end, end + 4, end + |x|, ToBE(4, n), Serialized(Allocs(s.blocks)));
  }

  lemma PreparedHeader(s: Store)
    requires Placed(s.blocks, |s.bytes|) && s.blocks != []
    ensures Prepared(s)[..8] == ToBE(8, End(s.blocks))
  {
    hide ToBE, WellFormed;
    BlocksBehindHeader(s.blocks, |s.bytes|);
    PutThere(s.bytes, 0, ToBE(8, End(s.blocks)));
    var f := Put(s.bytes, 0, ToBE(8, End(s.blocks)));
    assert Prepared(s)[..8] == f[..8];
  }

  /** The constructor finds in the committed bytes the blocks that were there, but for one at the front. */
  lemma CommittedLoads(s: Store)
    requires StoreValid(s)
    ensures Readable(Committed(s))
    ensures Loaded(Committed(s)) == Store(WithoutLeadingFree(s.blocks), Committed(s), NO_LIMIT)
  {
    if s.blocks != [] {
      hide Committed, HasIndex, StoredRecords, Ascending, Rebuilt, WithoutLeadingFree, AllHold, DistinctIds;
      RebuiltAll(s.blocks);
      IndexReadBack(s);
    }
  }

  lemma RebuiltAll(b: seq<Block>)
    requires WellFormed(b)
    ensures Ascending(Allocs(b)) && Rebuilt(Allocs(b)) == WithoutLeadingFree(b)
  {
    RebuiltFromAllocs(b);
  }

  /** The same blocks without a free one at the front, on the committed bytes, are as valid and hold as much. */
  lemma CommittedHoldsTheSame(s: Store)
    requires StoreValid(s)
    ensures var t := Store(WithoutLeadingFree(s.blocks), Committed(s), NO_LIMIT);
      StoreValid(t) && Contents(t) == Contents(s)
  {
    if s.blocks != [] {
      hide Committed, DistinctIds, TableOf, Items, AllHold, AgreeOn, WellFormed, WithoutLeadingFree;
      CommittedIsLongEnough(s);
      LeadingFreePlaced(s.blocks, |Committed(s)|);
      CommittedAgrees(s);
      AgreeKeeps(s.bytes, Committed(s), Allocs(s.blocks));
    }
  }

  lemma CommittedIsLongEnough(s: Store)
    requires StoreValid(s) && s.blocks != []
    ensures Placed(s.blocks, |Committed(s)|)
  {
  }

  /** The state after closing the file and opening it again. */
  function Reopened(s: Store): Store
    requires StoreValid(s)
  {
    CommittedLoads(s);
    Loaded(Committed(s))
  }

  /** Closing and opening again loses nothing: the same table, and the same blocks except for a free block at
      the front, which is not stored. */
  lemma ReopenedIsSame(s: Store)
    requires StoreValid(s)
    ensures Loadable(Committed(s))
    ensures StoreValid(Reopened(s))
    ensures Reopened(s).blocks == WithoutLeadingFree(s.blocks)
    ensures Contents(Reopened(s)) == Contents(s)
    ensures Reopened(s).bytes == Committed(s) && Reopened(s).maxSize == NO_LIMIT
  {
    hide StoreValid, Contents, Committed, WithoutLeadingFree, HasIndex, StoredRecords, Ascending, Loaded;
    CommittedLoads(s);
    CommittedHoldsTheSame(s);
  }

  lemma CommittedIsOpenable(s: Store)
    requires StoreValid(s) && Loadable(Committed(s))
    ensures Openable(Committed(s))
  {
  }

  /** From the second time on, closing and opening changes no block at all. */
  lemma ReopenedTwiceIsSame(s: Store, t: Store)
    requires StoreValid(s) && t == Reopened(s)
    ensures StoreValid(t) && Reopened(t).blocks == t.blocks
  {
    hide StoreValid, Contents, Committed, WithoutLeadingFree, Reopened;
    ReopenedIsSame(s);
    ReopenedIsSame(t);
    WellFormedBlocks(s);
    NoLeadingFreeTwice(s.blocks);
  }

  lemma WellFormedBlocks(s: Store)
    requires StoreValid(s)
    ensures WellFormed(s.blocks)
  {
  }

  lemma NoLeadingFreeTwice(b: seq<Block>)
    requires WellFormed(b)
    ensures WithoutLeadingFree(WithoutLeadingFree(b)) == WithoutLeadingFree(b)
  {
    if b != [] && b[0].Free? {
      Neighbours(b, 0);
    }
  }
}