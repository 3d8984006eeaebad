/** include/heap_file.h and src/heap_file.cpp: the store on one file. */
module HeapFile {
  import opened Bytes
  import opened ByteOrder
  import opened SimpleEncrypt
  import opened BlobFormat
  import opened Blocks
  import opened RecordMap
  import opened HeapIndex
  import opened MmapFile
  import opened HeapBlob
  import opened Store
  import opened Views
  import Runs
  import Sizes

  class HeapFile {
    const host: Host
    const index: HeapIndex
    const file: MmapFile
    const cipher: Simple
    var maxSize: uint64

    ghost function State(): Store
      reads this, index, file, file.data
    {
      Store(index.blocks, file.data[..], maxSize)
    }

    /** What a caller sees: the stored table through the file's key. */
    ghost function Visible(): Table
      requires cipher.Valid()
      reads this, index, file, file.data
    {
      Seen(cipher.key, Contents(State()))
    }

    /** The call of an operation under this file's key, from state `s` to now, is a step of a run. */
    ghost predicate Did(s: Store, op: Runs.Op, answer: Runs.Answer)
      requires cipher.Valid()
      reads this, index, file, file.data
    {
      Runs.Step(s, Runs.Event(cipher.key, op, answer), State())
    }

    /** The parts are in order; the bytes of the blocks may be anything. */
    ghost predicate Sound()
      reads this, index, index.view.Keys, file
    {
      index.Valid() && file.Valid() && file.pageSize >= 8 && cipher.Valid() && host.Configured()
    }

    ghost predicate Valid()
      reads this, index, index.view.Keys, file, file.data
    {
      Sound() && StoreValid(State())
    }

    /** Opens a file with an index in order, on a configured host and under a key of its own. The heap file is in
        order exactly when the blobs are, too: when an earlier heap file has left them. */
    constructor (host: Host, contents: seq<byte>, key: seq<byte>, pageSize: nat, begin: nat)
      requires pageSize >= 8 && host.Configured() && Openable(contents)
      ensures Sound() && State() == Loaded(contents) && file.data[..] == contents
      ensures Valid() <==> Loadable(contents)
      ensures this.host == host && cipher.key == EffectiveKey(key) && maxSize == U64_LIMIT - 1
      ensures fresh(index) && fresh(file) && fresh(file.data) && fresh(index.view.Keys)
    {
      this.host, maxSize := host, U64_LIMIT - 1;
      index := new HeapIndex();
      file := new MmapFile(contents, pageSize, begin);
      cipher := new Simple(key);
      new;
      OpenIndex();
    }

    method OpenIndex()
      requires Sound() && index.blocks == [] && index.view == map[] && maxSize == NO_LIMIT
      requires Openable(file.data[..])
      modifies index, file
      ensures file.data == old(file.data) && fresh(index.view.Keys)
      ensures Sound() && State() == Loaded(file.data[..])
    {
      hide HeapIndex.ValidBut, StoreValid, Loaded, Readable, Openable;
      NothingLoaded(file.data[..]);
      if file.fileSize > 0 {
        LoadIndex();
      }
    }

    static lemma NothingLoaded(f: seq<byte>)
      requires Openable(f)
      ensures Readable(f) && (f != [] ==> HasIndex(f) && Ascending(StoredRecords(f)))
      ensures Loaded(f) == if f == [] then EMPTY else Store(Rebuilt(StoredRecords(f)), f, NO_LIMIT)
    {
    }

    /** `readN2H` through a pointer into the window. */
    method ReadMapped(ptr: int, w: nat) returns (v: nat, next: nat)
      requires file.Valid() && file.FileIndex(ptr) >= 0 && file.IsInWindow(file.FileIndex(ptr), w)
      requires w == 8 ==> host.Configured()
      ensures next == file.FileIndex(ptr) + w <= file.data.Length
      ensures v == FromBE(file.data[next - w..next])
    {
      v, next := ReadN2H(host, file.data, file.FileIndex(ptr), w);
    }

    /** `writeH2N` through a pointer into the window. */
    method WriteMapped(ptr: int, w: nat, v: nat) returns (next: nat)
      requires file.Valid() && file.FileIndex(ptr) >= 0 && file.IsInWindow(file.FileIndex(ptr), w)
      requires w == 8 ==> v < U64_LIMIT && host.Configured()
      modifies file.data
      ensures next == file.FileIndex(ptr) + w <= file.data.Length
      ensures file.data[..] == Put(old(file.data[..]), file.FileIndex(ptr), ToBE(w, v))
    {
      next := WriteH2N(host, file.data, file.FileIndex(ptr), w, v);
    }

    /** `findHeapIndex`: the number of stored records, and where they start. */
    method FindHeapIndex() returns (numRecords: nat, p: nat)
      requires file.Valid() && host.Configured() && HasIndex(file.data[..])
      modifies file
      ensures file.Valid() && file.data == old(file.data)
      ensures numRecords == NumRecords(file.data[..]) && p == IndexOffset(file.data[..]) + 4
      ensures numRecords > 0 ==> file.IsInWindow(p, RECORD_SIZE * numRecords)
    {
      hide FromBE;
      ghost var f := file.data[..];
      var header := file.GetReadPtr(0, 8);
      var heapIndexOffset, next := ReadMapped(header.value, 8);
      assert file.data[0..8] == f[..8];
      var count := file.GetReadPtr(heapIndexOffset, 4);
      numRecords, next := ReadMapped(count.value, 4);
      assert file.data[heapIndexOffset..heapIndexOffset + 4] == f[heapIndexOffset..heapIndexOffset + 4];
      var records := file.GetReadPtr(heapIndexOffset + 4, RECORD_SIZE * numRecords);
      p := heapIndexOffset + 4;
    }

    /** The constructor's loop: the stored records are appended one by one. */
    method LoadIndex()
      requires Sound() && index.blocks == [] && index.view == map[]
      requires file.data[..] != [] && Openable(file.data[..])
      modifies index, file
      ensures Sound() && file.data == old(file.data)
      ensures index.blocks == Rebuilt(StoredRecords(file.data[..]))
      ensures fresh(index.view.Keys)
    {
      hide HeapIndex.Valid, StoreValid, Ascending, Rebuilt, ReadRecords;
      ghost var f := file.data[..];
      ghost var recs := StoredRecords(f);
      var numRecords, p := FindHeapIndex();
      NoRecords(recs);
      for i := 0 to numRecords
        invariant p == IndexOffset(f) + 4 + RECORD_SIZE * i
        invariant Sound() && file.data == old(file.data) && file.data[..] == f
        invariant Ascending(recs[..i]) && index.blocks == Rebuilt(recs[..i])
        invariant fresh(index.view.Keys)
        invariant file.IsInWindow(IndexOffset(f) + 4, RECORD_SIZE * numRecords) || numRecords == 0
      {
        NextRecord(f, i, p);
        LoadRecord(p, recs[..i], recs[i]);
        p := p + RECORD_SIZE;
      }
      assert recs[..numRecords] == recs;
    }

    static lemma NoRecords(recs: seq<Block>)
      ensures Ascending(recs[..0]) && Rebuilt(recs[..0]) == []
    {
      assert recs[..0] == [];
    }

    method LoadRecord(p: nat, ghost before: seq<Block>, ghost x: Block)
      requires Sound() && file.IsInWindow(p, RECORD_SIZE)
      requires ReadRecord(file.data[..], p) == x && x.size > 0 && x.End() < U64_LIMIT
      requires Ascending(before) && index.blocks == Rebuilt(before)
      requires Rebuilt(before) == [] || End(Rebuilt(before)) <= x.offset < End(Rebuilt(before)) + U32_LIMIT
      modifies index
      ensures Sound()
      ensures index.blocks == Appended(Rebuilt(before), x.offset, x.key, x.size)
      ensures fresh(index.view.Keys - old(index.view.Keys))
    {
      hide HeapIndex.Valid, Rebuilt, Appended, Ascending, FromBE;
      var r := new Record.Deserialized(host, file.data, p);
      var ok := index.AddAllocatedBlock(r);
    }

    static lemma NextRecord(f: seq<byte>, i: nat, p: nat)
      requires f != [] && Openable(f) && i < NumRecords(f) && p == IndexOffset(f) + 4 + RECORD_SIZE * i
      ensures var recs := StoredRecords(f);
        && p + RECORD_SIZE <= |f| && recs[i] == ReadRecord(f, p)
        && Ascending(recs[..i]) && Ascending(recs[..i + 1])
        && recs[i].size > 0 && recs[i].End() < U64_LIMIT
        && (Rebuilt(recs[..i]) == []
            || End(Rebuilt(recs[..i])) <= recs[i].offset < End(Rebuilt(recs[..i])) + U32_LIMIT)
        && Rebuilt(recs[..i + 1])
           == Appended(Rebuilt(recs[..i]), recs[i].offset, recs[i].key, recs[i].size)
    {
      hide ReadRecord, ReadRecords, StoreValid, Ascending, Rebuilt, Appended, WellFormed, FromBE;
      ReadRecordAt(f, IndexOffset(f) + 4, NumRecords(f), i);
      RebuiltPrefix(StoredRecords(f), i);
      GapFits(StoredRecords(f), i);
    }

    static lemma RebuiltPrefix(recs: seq<Block>, i: nat)
      requires Ascending(recs) && i < |recs|
      ensures Ascending(recs[..i]) && Ascending(recs[..i + 1])
      ensures recs[i].Alloc? && recs[i].size > 0 && recs[i].End() <= End(Rebuilt(recs))
      ensures Rebuilt(recs[..i]) == [] || End(Rebuilt(recs[..i])) <= recs[i].offset
      ensures Rebuilt(recs[..i + 1]) == Appended(Rebuilt(recs[..i]), recs[i].offset, recs[i].key, recs[i].size)
    {
      AscendingTake(recs, i);
      AscendingTake(recs, i + 1);
      EndsBelow(recs, i);
      TakeTake(recs, i + 1, i);
      assert recs[..i + 1][i] == recs[i];
      if i > 0 {
        assert recs[..i][i - 1] == recs[i - 1];
      }
    }

    /** The gap before record `i`, a block of the rebuilt list, has a size of 32 bits. */
    static lemma GapFits(recs: seq<Block>, i: nat)
      requires Ascending(recs) && i < |recs| && WellFormed(Rebuilt(recs))
      ensures Ascending(recs[..i]) && recs[i].End() < U64_LIMIT
      ensures Rebuilt(recs[..i]) == [] || recs[i].offset < End(Rebuilt(recs[..i])) + U32_LIMIT
    {
      hide Rebuilt, Ascending, Appended;
      RebuiltPrefix(recs, i);
      RebuiltGrows(recs, i + 1);
      var b := Rebuilt(recs[..i]);
      if b != [] && End(b) < recs[i].offset {
        GapIsBlock(b, recs[i]);
        assert Rebuilt(recs)[|b|].size < U32_LIMIT;
      }
    }

    static lemma GapIsBlock(b: seq<Block>, x: Block)
      requires b != [] && End(b) < x.offset && x.Alloc?
      ensures var c := Appended(b, x.offset, x.key, x.size);
        |b| < |c| && c[|b|].size == x.offset - End(b)
    {
    }

    static lemma {:induction false} RebuiltGrows(recs: seq<Block>, n: nat)
      requires Ascending(recs) && n <= |recs|
      ensures Ascending(recs[..n]) && Rebuilt(recs[..n]) <= Rebuilt(recs)
    {
      if n == |recs| {
        assert recs[..n] == recs;
      } else {
        var m := |recs| - 1;
        RebuiltGrows(recs[..m], n);
        TakeTake(recs, m, n);
      }
    }

    static lemma AscendingTake(recs: seq<Block>, n: nat)
      requires Ascending(recs) && n <= |recs|
      ensures Ascending(recs[..n])
    {
    }

    static lemma EndsBelow(recs: seq<Block>, i: nat)
      requires Ascending(recs) && i < |recs|
      ensures recs[i].End() <= End(Rebuilt(recs))
    {
    }

    static lemma {:induction false} ReadRecordAt(f: seq<byte>, p: nat, n: nat, i: nat)
      requires p + RECORD_SIZE * n <= |f| && i < n
      ensures ReadRecords(f, p, n)[i] == ReadRecord(f, p + RECORD_SIZE * i)
    {
      if i == n - 1 {
      } else {
        ReadRecordAt(f, p, n - 1, i);
      }
    }

    lemma IndexSizeIs()
      requires index.Valid()
      ensures index.NumAllocatedRecords() == NumAlloc(index.blocks)
      ensures IndexSize(index.blocks) < U32_LIMIT ==> index.Size() == IndexSize(index.blocks)
    {
    }

    static lemma PlacedIndexSize(b: seq<Block>, fileSize: nat)
      requires Placed(b, fileSize)
      ensures IndexSize(b) < U32_LIMIT
    {
    }

    lemma AllocSorted()
      requires index.Valid()
      ensures KeySorted(index.alloc)
    {
      FilesSorted(index.alloc, AllocWanted(index.view, {}));
    }

    /** An allocated block's slot is mapped as a whole and starts with a length byte that fits. */
    lemma SlotInFile(i: nat)
      requires Valid() && i < |index.blocks| && index.blocks[i].Alloc?
      ensures var x, f := index.blocks[i], file.data[..];
        && 8 <= x.offset && x.End() <= |f| == file.fileSize
        && SlotOf(f, x) == f[x.offset..x.End()]
        && Intact(SlotOf(f, x)) && x.key == Hash(ItemAt(f, x).id)
    {
      RankOf(State(), i);
      AllocsBehindHeader(index.blocks, |file.data[..]|);
      assert Holds(file.data[..], index.blocks[i]);
    }

    /** What `hasId` compares is the id of the item in the block, and it stays inside the block. */
    lemma HasIdMeansItem(i: nat, id: seq<byte>)
      requires Valid() && i < |index.blocks| && index.blocks[i].Alloc?
      ensures var x, f := index.blocks[i], file.data[..];
        && x.End() <= |f| == file.fileSize && 0 < x.size
        && !AsksBehind(f[x.offset..x.End()], id)
        && (FindsId(f[x.offset..], x.size, id) <==> ItemAt(f, x).id == id)
    {
      SlotInFile(i);
      var x, f := index.blocks[i], file.data[..];
      IdInSlot(f, x.offset, x.End(), id);
    }

    static lemma IdInSlot(f: seq<byte>, p: nat, q: nat, id: seq<byte>)
      requires p < q <= |f| && Framed(f[p..q])
      ensures !AsksBehind(f[p..q], id)
      ensures FindsId(f[p..], q - p, id) <==> IdOf(f[p..q]) == id
    {
      var s, n: nat := f[p..q], f[p];
      assert s[0] == f[p] == f[p..][0];
      if |id| == n {
        SliceOfSlice(f, p, |f|, 1, 1 + n);
        SliceOfSlice(f, p, q, 1, 1 + n);
      }
    }

    lemma NotStored(id: seq<byte>, first: nat, last: nat)
      requires Valid() && first <= last <= |index.alloc|
      requires forall j :: 0 <= j < |index.alloc| ==> (first <= j < last <==> index.alloc[j].key == Hash(id))
      requires forall j :: first <= j < last ==> ItemAt(file.data[..], BlockOf(index.alloc[j].rec)).id != id
      ensures forall i :: !StoredAt(State(), id, i)
    {
      forall i: nat ensures !StoredAt(State(), id, i) {
        NotStoredAt(id, first, last, i);
      }
    }

    lemma NotStoredAt(id: seq<byte>, first: nat, last: nat, i: nat)
      requires Valid() && first <= last <= |index.alloc|
      requires forall j :: 0 <= j < |index.alloc| ==> (first <= j < last <==> index.alloc[j].key == Hash(id))
      requires forall j :: first <= j < last ==> ItemAt(file.data[..], BlockOf(index.alloc[j].rec)).id != id
      ensures !StoredAt(State(), id, i)
    {
      hide HeapIndex.ValidBut, StoreValid, ItemAt, Hash, StoredAt;
      if StoredAt(State(), id, i) {
        StoredEntry(id, i);
      }
    }

    lemma StoredEntry(id: seq<byte>, i: nat)
      requires Valid() && StoredAt(State(), id, i)
      ensures exists j :: (0 <= j < |index.alloc| && index.alloc[j].key == Hash(id)
                           && ItemAt(file.data[..], BlockOf(index.alloc[j].rec)).id == id)
    {
      hide HeapIndex.ValidBut, StoreValid, ItemAt, Hash;
      SlotInFile(i);
      index.AllocFiled(i);
    }

    /** Asks the record in entry `k` for its id. */
    method Ask(k: nat, id: array<byte>) returns (b: Blob, same: bool, ghost i: nat)
      requires Valid() && k < |index.alloc| && id != file.data
      modifies file
      ensures Valid() && file.data == old(file.data)
      ensures i < |index.list| == |index.blocks| && index.list[i] == index.alloc[k].rec
      ensures index.blocks[i] == BlockOf(index.alloc[k].rec)
      ensures b.rec == index.list[i] && b.mem == file.data && b.at == index.blocks[i].offset
      ensures b.InBounds() && b.end == file.MappedEnd()
      ensures same <==> ItemAt(file.data[..], index.blocks[i]).id == id[..]
    {
      hide HeapIndex.ValidBut, StoreValid, ItemAt;
      var r := index.alloc[k].rec;
      i := index.AllocEntry(k);
      HasIdMeansItem(i, id[..]);
      assert r.size > 0 && r.offset + r.size <= file.fileSize;
      var p := file.GetReadPtr(r.offset, r.size);
      b := new Blob(host, r, file.data, file.FileIndex(p.value), file.MappedEnd());
      assert b.Slot() == file.data[..][r.offset..r.offset + r.size];
      assert file.data[r.offset..] == file.data[..][r.offset..];
      same := b.HasId(id);
    }

    /** The candidate records are those filed under the id's hash; each is asked for its id. */
    method FindBlob(id: array<byte>) returns (b: Blob, ghost i: nat)
      requires Valid() && id != file.data
      modifies file
      ensures Valid() && file.data == old(file.data)
      ensures b.IsNil() <==> forall j :: !StoredAt(State(), id[..], j)
      ensures !b.IsNil() ==> StoredAt(State(), id[..], i) && i < |index.list| && b.rec == index.list[i]
      ensures !b.IsNil() ==> b.mem == file.data && b.at == State().blocks[i].offset
      ensures !b.IsNil() ==> b.InBounds() && b.end == file.MappedEnd()
    {
      hide HeapIndex.ValidBut, StoreValid, ItemAt, Hash;
      var h := ComputeHash(id, 0, id.Length);
      assert id[0..id.Length] == id[..];
      AllocSorted();
      var first, last := EqualRange(index.alloc, h);
      for k := first to last
        invariant Valid() && file.data == old(file.data)
        invariant forall j :: first <= j < k ==>
          ItemAt(file.data[..], BlockOf(index.alloc[j].rec)).id != id[..]
      {
        var same;
        b, same, i := Ask(k, id);
        if same {
          assert StoredAt(State(), id[..], i);
          return;
        }
      }
      NotStored(id[..], first, last);
      i := 0;
      b := new Blob.Nil(host);
    }

    /** A copy of the id, encrypted in place. */
    method EncryptedId(clearId: array<byte>) returns (id: array<byte>)
      requires cipher.Valid()
      ensures fresh(id) && id[..] == Cipher(cipher.key, clearId[..])
    {
      id := new byte[clearId.Length](i requires 0 <= i < clearId.Length reads clearId => clearId[i]);
      assert id[..] == clearId[..] && id[0..id.Length] == id[..];
      PutAll(id[..], Cipher(cipher.key, id[..]));
      var ok := cipher.Encrypt(id, 0, id, 0, id.Length);
    }

    method HasBlob(clearId: array<byte>) returns (has: bool)
      requires Valid()
      modifies file
      ensures Valid() && file.data == old(file.data) && State() == old(State())
      ensures has <==> clearId[..] in Visible()
      ensures Did(old(State()), Runs.Has(clearId[..]), Runs.Flag(has))
    {
      hide HeapIndex.ValidBut, StoreValid, Seen, Contents;
      var id := EncryptedId(clearId);
      var b, i := FindBlob(id);
      BoundMeansStored(State(), id[..]);
      SeenAt(cipher.key, Contents(State()), clearId[..]);
      has := !b.IsNil();
    }

    /** The data of a stored blob is always delivered: null means that the id is not bound. */
    method GetBlob(clearId: array<byte>) returns (data: array?<byte>)
      requires Valid()
      modifies file
      ensures Valid() && file.data == old(file.data) && State() == old(State())
      ensures data != null <==> clearId[..] in Visible()
      ensures data != null ==> fresh(data) && data[..] == Visible()[clearId[..]]
      ensures Did(old(State()), Runs.Get(clearId[..]),
                  Runs.Data(if data == null then None else Some(data[..])))
    {
      hide HeapIndex.ValidBut, StoreValid, Seen, Contents, Cipher, Intact, Sized, DataOf, StoredAt, Runs.Delivers;
      var id := EncryptedId(clearId);
      var b, i := FindBlob(id);
      BoundMeansStored(State(), id[..]);
      SeenAt(cipher.key, Contents(State()), clearId[..]);
      Runs.LookupIsDelivered(cipher.key, State(), clearId[..]);
      if b.IsNil() {
        return null;
      }
      BlobHoldsItem(id[..], i);
      assert b.Slot() == file.data[..][b.at..b.at + b.rec.size];
      data := b.GetData(cipher);
    }

    lemma BlobHoldsItem(id: seq<byte>, i: nat)
      requires Valid() && StoredAt(State(), id, i) && i < |index.list|
      ensures var x, f, r := index.blocks[i], file.data[..], index.list[i];
        && r.offset == x.offset && r.size == x.size && r.size >= 1
        && x.End() <= |f| && Intact(f[x.offset..x.End()])
        && id in Contents(State()) && Contents(State())[id] == DataOf(f[x.offset..x.End()])
    {
      hide HeapIndex.ValidBut;
      HasIdMeansItem(i, id);
      SlotInFile(i);
      index.AllocFiled(i);
      RankOf(State(), i);
      TableLookup(StoredItems(State()), |Allocs(index.blocks[..i])|);
    }

    /** Frees a record and, when it was the last, resizes the file: the index is going to follow the place where the
        record started. */
    method Release(r: Record, ghost i: nat)
      requires Sound() && i < |index.list| && index.list[i] == r
      requires i < |index.blocks| && index.blocks[i].Alloc? && HoleFits(index.blocks, i)
      requires Placed(index.blocks, file.fileSize)
      modifies index, index.view.Keys, file
      ensures Sound() && index.view.Keys <= old(index.view.Keys)
      ensures State() == Released(old(State()), i)
      ensures file.fileSize == if i == |old(index.blocks)| - 1
                               then old(index.blocks)[i].offset + 4 + 16 * (NumAlloc(old(index.blocks)) - 1)
                               else old(file.fileSize)
      ensures file.data == old(file.data) || fresh(file.data)
    {
      hide HeapIndex.ValidBut, Placed, Deallocated, HoleFits;
      Sizes.SizeAfterRelease(State(), i);
      index.AllocFiled(i);
      ReleasedIndexSize(State(), i);
      var isLast := index.IsLast(r);
      var offset := r.offset;
      Deallocate(r, i);
      if isLast {
        IndexSizeIs();
        file.Trim(offset + index.Size());
      }
    }

    static lemma ReleasedIndexSize(s: Store, i: nat)
      requires Placed(s.blocks, |s.bytes|) && i < |s.blocks| && s.blocks[i].Alloc? && HoleFits(s.blocks, i)
      ensures IndexSize(Deallocated(s.blocks, i)) < U32_LIMIT
    {
      ReleasedPlaced(s, i);
    }

    method Deallocate(r: Record, ghost i: nat)
      requires Sound() && i < |index.list| && index.list[i] == r
      requires i < |index.blocks| && index.blocks[i].Alloc? && HoleFits(index.blocks, i)
      modifies index, index.view.Keys
      ensures Sound() && index.view.Keys <= old(index.view.Keys)
      ensures index.blocks == Deallocated(old(index.blocks), i)
    {
      hide HeapIndex.ValidBut, Deallocated, HoleFits, WellFormed;
      WellFormedNow();
      OnlyOne(index.blocks, i);
      index.AllocFiled(i);
      assert index.blocks[i] == BlockOf(r) && BlockOf(r) in index.blocks;
      var ok := index.Deallocate(r);
    }

    /** Erasing an id that is not stored is a success, too. */
    method EraseEncryptedId(id: array<byte>) returns (ok: bool)
      requires Valid() && id != file.data && CanErase(State(), id[..])
      modifies index, index.view.Keys, file
      ensures ok && Valid() && index.view.Keys <= old(index.view.Keys)
      ensures State() == Erased(old(State()), id[..])
      ensures file.data == old(file.data) || fresh(file.data)
    {
      hide HeapIndex.ValidBut, StoreValid, StoredAt, Released, Erased;
      ghost var s := State();
      EraseForgets(s, id[..]);
      ValidParts(s);
      var b, i := FindBlob(id);
      if b.IsNil() {
        NotErased(s, id[..]);
        return true;
      }
      ErasedIs(s, id[..], i);
      StoredIsAlloc(s, id[..], i);
      Release(b.rec, i);
      return true;
    }

    static lemma ValidParts(s: Store)
      requires StoreValid(s)
      ensures Placed(s.blocks, |s.bytes|) && DistinctIds(StoredItems(s))
    {
    }

    static lemma NotErased(s: Store, id: seq<byte>)
      requires forall j :: !StoredAt(s, id, j)
      ensures Erased(s, id) == s
    {
    }

    static lemma StoredIsAlloc(s: Store, id: seq<byte>, i: nat)
      requires StoredAt(s, id, i)
      ensures i < |s.blocks| && s.blocks[i].Alloc?
    {
    }

    method EraseBlob(clearId: array<byte>) returns (ok: bool)
      requires Valid() && CanErase(State(), Cipher(cipher.key, clearId[..]))
      modifies index, index.view.Keys, file
      ensures ok && Valid() && index.view.Keys <= old(index.view.Keys)
      ensures Did(old(State()), Runs.Erase(old(clearId[..])), Runs.Flag(ok))
      ensures Visible() == old(Visible()) - {clearId[..]}
      ensures var s, id := old(State()), Cipher(cipher.key, old(clearId[..]));
        file.fileSize == if s.blocks != [] && StoredAt(s, id, |s.blocks| - 1)
                         then s.blocks[|s.blocks| - 1].offset + 4 + 16 * (NumAlloc(s.blocks) - 1) else |s.bytes|
      ensures file.data == old(file.data) || fresh(file.data)
    {
      hide HeapIndex.ValidBut, StoreValid, Erased, Seen, Contents, Cipher, StoredAt;
      var id := EncryptedId(clearId);
      EraseForgets(State(), id[..]);
      Sizes.SizeAfterErase(State(), id[..]);
      SeenRemove(cipher.key, Contents(State()), clearId[..]);
      ok := EraseEncryptedId(id);
    }

    /** A new block at the end of the index, and the size that the file needs for it. */
    method ProposeBlock(blobSize: uint32, hashCode: uint32, ghost id: seq<byte>, ghost data: seq<byte>)
      returns (added: Record, proposedSize: nat)
      requires Sound() && CanStore(State(), id, data)
      requires blobSize == BlobSize(|id|, |data|) && hashCode == Hash(id)
      modifies index
      ensures Sound() && fresh(index.view.Keys - old(index.view.Keys))
      ensures index.blocks == Grown(old(index.blocks), id, data)
      ensures proposedSize == Footprint(index.blocks)
      ensures BlockOf(added) == Alloc(End(old(index.blocks)), Hash(id), Need(id, data))
      ensures |old(index.blocks)| < |index.list| && index.list[|old(index.blocks)|] == added
    {
      hide HeapIndex.ValidBut, WellFormed, Appended, Deallocated, Hash;
      ghost var b := index.blocks;
      WellFormedNow();
      LastShown();
      var offset := 8;
      if |index.list| > 0 {
        var last := index.list[|index.list| - 1];
        offset := last.offset + last.size;
      }
      added := new Record(offset, hashCode, blobSize, true);
      var ok := index.AddAllocatedBlock(added);
      IndexSizeIs();
      LastShown();
      GrownEnds(b, id, data);
      proposedSize := added.offset + added.size + index.Size();
    }

    /** A new block at the end, unless blocks and index would pass the limit: then it is taken back. */
    method AppendBlock(blobSize: uint32, hashCode: uint32, ghost id: seq<byte>, ghost data: seq<byte>)
      returns (r: Record?)
      requires Sound() && CanStore(State(), id, data)
      requires blobSize == BlobSize(|id|, |data|) && hashCode == Hash(id)
      modifies index, index.view.Keys, file
      ensures Sound() && fresh(index.view.Keys - old(index.view.Keys))
      ensures r == null <==> Footprint(Grown(old(index.blocks), id, data)) > maxSize
      ensures r == null ==> State() == old(State()) && file.data == old(file.data)
      ensures r != null ==> file.data == old(file.data) || fresh(file.data)
      ensures r != null ==> |old(index.blocks)| < |index.list| && index.list[|old(index.blocks)|] == r
      ensures r != null ==>
        State() == old(State()).(blocks := Grown(old(index.blocks), id, data),
                                 bytes := Resize(old(file.data[..]), Footprint(Grown(old(index.blocks), id, data))))
    {
      hide HeapIndex.ValidBut, WellFormed, Grown, Hash, Footprint, Need, Resize;
      ghost var b := index.blocks;
      WellFormedNow();
      var added, proposedSize := ProposeBlock(blobSize, hashCode, id, data);
      if proposedSize > maxSize {
        TakeBack(added, b, id, data);
        return null;
      }
      file.Trim(proposedSize);
      return added;
    }

    lemma LastShown()
      requires index.Valid()
      ensures |index.list| == |index.blocks|
      ensures index.list != [] ==>
        End(index.blocks) == index.list[|index.list| - 1].offset + index.list[|index.list| - 1].size
    {
      index.LastShown();
    }

    static lemma GrownEnds(b: seq<Block>, id: seq<byte>, data: seq<byte>)
      requires WellFormed(b)
      ensures var c := Grown(b, id, data);
        && End(c) == End(b) + Need(id, data)
        && |c| == |b| + 1 && c[|b|] == Alloc(End(b), Hash(id), Need(id, data))
        && Deallocated(c, |b|) == b && HoleFits(c, |b|)
        && IndexSize(c) == IndexSize(b) + RECORD_SIZE
    {
      AppendedCases(b, End(b), Hash(id), Need(id, data));
      AppendedAdds(b, End(b), Hash(id), Need(id, data));
      AppendDeallocateRestores(b, End(b), Hash(id), Need(id, data));
    }

    method TakeBack(r: Record, ghost b: seq<Block>, ghost id: seq<byte>, ghost data: seq<byte>)
      requires Sound() && WellFormed(b) && index.blocks == Grown(b, id, data)
      requires BlockOf(r) == Alloc(End(b), Hash(id), Need(id, data))
      modifies index, index.view.Keys
      ensures Sound() && index.blocks == b && index.view.Keys <= old(index.view.Keys)
    {
      hide HeapIndex.ValidBut, WellFormed, Appended, Deallocated, Hash, Grown, Need;
      GrownEnds(b, id, data);
      WellFormedNow();
      OnlyOne(index.blocks, |b|);
      assert BlockOf(r) == index.blocks[|b|];
      assert BlockOf(r) in index.blocks;
      NeedIsSmall(id, data);
      var ok := index.Deallocate(r);
    }

    static lemma NeedIsSmall(id: seq<byte>, data: seq<byte>)
      ensures MIN_SIZE <= Need(id, data) < U32_LIMIT
    {
    }

    lemma WellFormedNow()
      requires index.Valid()
      ensures WellFormed(index.blocks)
    {
    }

    /** A record for the blob: a free one that fits, or else a new one. */
    method Place(blobSize: uint32, hashCode: uint32, ghost id: seq<byte>, ghost data: seq<byte>)
      returns (r: Record?, ghost at: nat)
      requires Sound() && CanStore(State(), id, data)
      requires blobSize == BlobSize(|id|, |data|) && hashCode == Hash(id)
      modifies index, index.view.Keys, file
      ensures Sound() && fresh(index.view.Keys - old(index.view.Keys))
      ensures file.data == old(file.data) || fresh(file.data)
      ensures Placing(old(State()), id, data, r == null, at, State())
      ensures r == null ==> file.data == old(file.data)
      ensures r != null ==> at < |index.list| && index.list[at] == r
    {
      hide HeapIndex.ValidBut, WellFormed, Grown, Footprint, Carved, BestFit, HasFit, Hash, CanWrite;
      r, at := index.Allocate(blobSize, hashCode);
      if r == null {
        at := |index.blocks|;
        r := AppendBlock(blobSize, hashCode, id, data);
      }
    }

    /** Maps the record's bytes and writes the blob there; a refused blob's record is released. */
    method Fill(r: Record, ghost at: nat, id: array<byte>, blob: array<byte>) returns (ok: bool)
      requires Sound() && at < |index.list| && index.list[at] == r
      requires at < |index.blocks| && index.blocks[at].Alloc? && HoleFits(index.blocks, at)
      requires Placed(index.blocks, file.fileSize)
      requires OVERHEAD + id.Length + blob.Length <= index.blocks[at].size < U32_LIMIT
      requires id != file.data && blob != file.data
      modifies index, index.view.Keys, file, file.data
      ensures Sound() && index.view.Keys <= old(index.view.Keys)
      ensures file.data == old(file.data) || fresh(file.data)
      ensures Filled(old(State()), at, old(id[..]), Cipher(cipher.key, old(blob[..])), ok, State())
    {
      hide HeapIndex.ValidBut, Placed, Deallocated, Encode, Cipher, Released;
      index.AllocFiled(at);
      InsideFile(at);
      var writePtr := file.GetPtr(r.offset, r.size);
      var b := new Blob(host, r, file.data, file.FileIndex(writePtr), file.MappedEnd());
      var aborted;
      ok, aborted := b.WriteData(id, blob, cipher);
      assert !aborted;
      if ok {
        return;
      }
      Release(r, at);
    }

    lemma InsideFile(i: nat)
      requires Sound() && Placed(index.blocks, file.fileSize)
      requires i < |index.blocks| && index.blocks[i].Alloc?
      ensures index.blocks[i].End() <= file.fileSize == |file.data[..]|
    {
      AllocsBehindHeader(index.blocks, file.fileSize);
      AllocRank(index.blocks, i);
    }

    /** Erases the id first; then the encrypted blob goes into a free record or a new one. */
    method WriteBlob(clearId: array<byte>, blob: array<byte>) returns (ok: bool)
      requires Valid() && blob != file.data
      requires CanWrite(State(), Cipher(cipher.key, clearId[..]), Cipher(cipher.key, blob[..]))
      modifies index, index.view.Keys, file, file.data
      ensures Valid() && fresh(index.view.Keys - old(index.view.Keys))
      ensures file.data == old(file.data) || fresh(file.data)
      ensures Did(old(State()), Runs.Write(old(clearId[..]), old(blob[..])), Runs.Flag(ok))
      ensures ok ==> Visible() == old(Visible())[old(clearId[..]) := old(blob[..])]
      ensures !ok ==> Visible() == old(Visible()) - {old(clearId[..])}
      ensures var e := Erased(old(State()), Cipher(cipher.key, old(clearId[..])));
        var n := Max(9 + clearId.Length + blob.Length, 256);
        var fits := exists i :: 0 <= i < |e.blocks| && e.blocks[i].Free? && n <= e.blocks[i].size;
        && (ok <==> clearId.Length <= 255
                    && (fits || End(e.blocks) + n + 4 + 16 * (NumAlloc(e.blocks) + 1) <= maxSize))
        && (fits ==> file.fileSize == |e.bytes| && End(index.blocks) == End(e.blocks))
    {
      hide HeapIndex.ValidBut, StoreValid, Contents, Seen, Cipher, Erased, Placed, Writes, Filled, Placing;
      hide StoredAt, End, Allocs, CanErase;
      var id := EncryptedId(clearId);
      ghost var s, e, d := State(), id[..], Cipher(cipher.key, blob[..]);
      SeenUpdate(cipher.key, Contents(s), clearId[..], blob[..]);
      SeenRemove(cipher.key, Contents(s), clearId[..]);
      EraseForgets(s, e);
      var erased := EraseEncryptedId(id);
      if !erased {
        return false;
      }
      ok := StoreErased(id, blob, s);
      WriteRefines(s, e, d, ok, State());
      WriteInNumbers(s, e, d, ok, State());
    }

    /** The part of `writeBlob` behind the erase; `s` is the state before it. */
    method StoreErased(id: array<byte>, blob: array<byte>, ghost s: Store) returns (ok: bool)
      requires Valid() && id != file.data && blob != file.data
      requires State() == Erased(s, id[..]) && CanStore(State(), id[..], Cipher(cipher.key, blob[..]))
      modifies index, index.view.Keys, file, file.data
      ensures Sound() && fresh(index.view.Keys - old(index.view.Keys))
      ensures file.data == old(file.data) || fresh(file.data)
      ensures Writes(s, old(id[..]), Cipher(cipher.key, old(blob[..])), ok, State())
    {
      hide HeapIndex.ValidBut, StoreValid, Cipher, Erased, Placed, Writes, Filled, Placing, Hash;
      ghost var e, d, t := id[..], Cipher(cipher.key, blob[..]), State();
      ValidParts(t);
      var blobSize := BlobSize(id.Length, blob.Length);
      var hashCode := ComputeHash(id, 0, id.Length);
      assert id[0..id.Length] == id[..];
      var r, at := Place(blobSize, hashCode, e, d);
      if r == null {
        RefusedWrites(s, e, d, at, State());
        return false;
      }
      PlacedFor(t, e, d, at, State());
      ghost var u := State();
      ok := Fill(r, at, id, blob);
      FilledWrites(s, e, d, at, u, ok, State());
    }

    /** Empties the file and lifts the limit. Because the index does not empty its list, the heap file is in
        order afterwards exactly when the list was empty already: then clearing is a step of a run. Otherwise the
        list and the multimaps disagree, whatever blocks one takes them to describe. */
    method Clear()
      requires file.Valid() && file.pageSize >= 8 && cipher.Valid() && host.Configured()
      modifies this, index, file
      ensures State() == EMPTY && file.fileSize == 0 && maxSize == U64_LIMIT - 1 && fresh(file.data)
      ensures Valid() <==> old(index.list) == []
      ensures old(index.list) != [] ==>
        forall v: View, b: seq<Block> :: !Coherent(v, index.list, b, index.alloc, index.free, {})
      ensures old(Valid()) && old(index.list) == [] ==> Did(old(State()), Runs.Clear, Runs.Flag(true))
      ensures Valid() ==> index.view == map[]
    {
      index.Clear();
      file.Clear();
      maxSize := U64_LIMIT - 1;
      EmptyIsValid(EMPTY);
    }

    lemma LimitSeen(s: Store, cap: uint64)
      requires StoreValid(s) && cipher.Valid()
      ensures var t := Limited(s, cap);
        && StoreValid(t) && |t.bytes| <= cap
        && (cap <= |s.bytes| && t.blocks != [] ==>
              t.maxSize == cap && |t.bytes| == End(t.blocks) + 4 + 16 * NumAlloc(t.blocks))
        && (cap <= |s.bytes| && t.blocks == [] ==> t.maxSize == U64_LIMIT - 1 && |t.bytes| == 0)
        && Runs.Step(s, Runs.Event(cipher.key, Runs.SetMaxSize(cap), Runs.Flag(true)), t)
        && Runs.LimitStep(cipher.key, Seen(cipher.key, Contents(s)), s, cap, Seen(cipher.key, Contents(t)))
    {
      hide StoreValid, Contents, Seen, Limited, SubTable, Drops, Runs.LimitStep, Runs.StoredLimitStep;
      LimitedShrinks(s, cap);
      Runs.LimitedIsLimitStep(s, cap);
      Runs.SeenLimitStep(cipher.key, Contents(s), s, cap, Contents(Limited(s, cap)));
    }

    /** Nothing happens to a file below the limit. Otherwise last blocks are freed until the rest fits, at least one;
        then the file is cut once. */
    method SetMaxSize(cap: uint64)
      requires Valid()
      modifies this, index, index.view.Keys, file
      ensures Valid() && index.view.Keys <= old(index.view.Keys)
      ensures Did(old(State()), Runs.SetMaxSize(cap), Runs.Flag(true))
      ensures file.fileSize <= cap
      ensures cap <= old(file.fileSize) && index.blocks != [] ==>
        maxSize == cap && file.fileSize == End(index.blocks) + 4 + 16 * NumAlloc(index.blocks)
      ensures cap <= old(file.fileSize) && index.blocks == [] ==> maxSize == U64_LIMIT - 1 && file.fileSize == 0
      ensures Runs.LimitStep(cipher.key, old(Visible()), old(State()), cap, Visible())
      ensures old(file.fileSize) < cap ==> file.data == old(file.data) && index.list == old(index.list)
      ensures file.data == old(file.data) || fresh(file.data)
    {
      hide HeapIndex.ValidBut, StoreValid, Contents, Seen, Placed, Limited, Runs.LimitStep, Runs.Step;
      ghost var s := State();
      LimitSeen(s, cap);
      ValidParts(s);
      LimitedCases(s, cap);
      maxSize := cap;
      if file.fileSize < maxSize {
        return;
      }
      RemoveBlobs(cap);
    }

    /** The part of `setMaxSize` that shrinks the file, which is not below the limit yet. */
    method RemoveBlobs(cap: uint64)
      requires Sound() && Placed(index.blocks, file.fileSize) && maxSize == cap <= file.fileSize
      modifies this, index, index.view.Keys, file
      ensures Sound() && index.view.Keys <= old(index.view.Keys)
      ensures State() == Limited(old(State()), cap)
      ensures file.data == old(file.data) || fresh(file.data)
    {
      hide HeapIndex.ValidBut, StoreValid, Placed, Limited;
      LimitedCases(State(), cap);
      NoneAllocated();
      if index.NumAllocatedRecords() == 0 {
        Clear();
        return;
      }
      var currentSize := ShrinkIndex(cap);
      if currentSize == 0 {
        Clear();
        return;
      }
      file.Trim(currentSize);
    }

    static lemma LimitedCases(s: Store, cap: nat)
      ensures |s.bytes| < cap ==> Limited(s, cap) == s.(maxSize := cap)
      ensures |s.bytes| >= cap ==> Limited(s, cap) == Limited(s.(maxSize := cap), cap)
      ensures |s.bytes| >= cap && s.blocks == [] ==> Limited(s, cap) == EMPTY
      ensures |s.bytes| >= cap && s.blocks != [] && Shrunk(s.blocks, cap) == [] ==> Limited(s, cap) == EMPTY
      ensures |s.bytes| >= cap && s.blocks != [] && Shrunk(s.blocks, cap) != [] ==>
        Limited(s, cap) == Store(Shrunk(s.blocks, cap),
                                 Resize(s.bytes, Footprint(Shrunk(s.blocks, cap))), cap)
    {
    }

    lemma NoneAllocated()
      requires index.Valid()
      ensures |index.list| == |index.blocks|
      ensures index.NumAllocatedRecords() == 0 <==> index.blocks == []
      ensures index.blocks != [] ==> index.blocks[|index.blocks| - 1].Alloc?
    {
      if index.blocks != [] {
        AllocRank(index.blocks, |index.blocks| - 1);
      }
    }

    /** The loop of `setMaxSize`; the size of the file to keep, 0 when no block is left. */
    method ShrinkIndex(cap: uint64) returns (currentSize: nat)
      requires Sound() && Placed(index.blocks, file.fileSize) && index.blocks != []
      modifies index, index.view.Keys
      ensures Sound() && index.view.Keys <= old(index.view.Keys)
      ensures index.blocks == Shrunk(old(index.blocks), cap)
      ensures index.blocks == [] ==> index.list == [] && currentSize == 0
      ensures index.blocks != [] ==> currentSize == Footprint(index.blocks) > 0
    {
      hide HeapIndex.ValidBut, Placed;
      ghost var b := index.blocks;
      var again := true;
      currentSize := 0;
      while again
        invariant Sound() && Placed(index.blocks, file.fileSize) && index.blocks != []
        invariant index.view.Keys <= old(index.view.Keys)
        invariant again ==> Shrunk(index.blocks, cap) == Shrunk(b, cap)
        invariant !again ==> index.blocks == Shrunk(b, cap) && currentSize == Footprint(index.blocks) > 0
        decreases again, |index.blocks|
      {
        ghost var c := index.blocks;
        FreeLast();
        if index.NumAllocatedRecords() == 0 {
          return 0;
        }
        IndexSizeIs();
        PlacedIndexSize(index.blocks, file.fileSize);
        LastShown();
        var rec := index.list[|index.list| - 1];
        currentSize := rec.offset + rec.size + index.Size();
        again := currentSize > cap;
      }
    }

    method FreeLast()
      requires Sound() && Placed(index.blocks, file.fileSize) && index.blocks != []
      modifies index, index.view.Keys
      ensures Sound() && Placed(index.blocks, file.fileSize) && index.view.Keys <= old(index.view.Keys)
      ensures index.blocks == Deallocated(old(index.blocks), |old(index.blocks)| - 1)
      ensures |index.blocks| < |old(index.blocks)| && |index.list| == |index.blocks|
      ensures index.NumAllocatedRecords() == 0 <==> index.blocks == []
    {
      hide HeapIndex.ValidBut, Placed, Deallocated;
      ghost var n := |index.blocks| - 1;
      NoneAllocated();
      LastFreed(index.blocks, file.fileSize);
      Deallocate(index.list[|index.list| - 1], n);
      NoneAllocated();
    }

    static lemma LastFreed(b: seq<Block>, fileSize: nat)
      requires Placed(b, fileSize) && b != []
      ensures Placed(Deallocated(b, |b| - 1), fileSize) && |Deallocated(b, |b| - 1)| < |b|
    {
      DroppedLast(b);
      if Deallocated(b, |b| - 1) != [] {
        PrefixEnds(b, Deallocated(b, |b| - 1));
      }
    }

    /** Writes the place of the index at the front of the file and the number of records behind the last block. */
    method PrepForCommit() returns (p: nat)
      requires Valid() && index.blocks != []
      modifies file, file.data
      ensures file.Valid() && (file.data == old(file.data) || fresh(file.data))
      ensures p == End(index.blocks) + 4
      ensures file.IsInWindow(End(index.blocks), IndexSize(index.blocks))
      ensures file.data[..] == Put(Prepared(old(State())), End(index.blocks), ToBE(4, NumAlloc(index.blocks)))
    {
      hide HeapIndex.ValidBut, StoreValid, Put, ToBE, Resize;
      ValidParts(State());
      BlocksBehindHeader(index.blocks, file.fileSize);
      PlacedIndexSize(index.blocks, file.fileSize);
      LastShown();
      NoneAllocated();
      IndexSizeIs();
      var last := index.list[|index.list| - 1];
      var indexOffset := last.offset + last.size;
      var ptr := file.GetPtr(0, 1);
      file.FrontPageMapped(8);
      p := WriteMapped(ptr, 8, indexOffset);
      var numRecords := index.NumAllocatedRecords();
      ptr := file.GetPtr(indexOffset, index.Size());
      p := WriteMapped(ptr, 4, numRecords);
    }

    /** The destructor: leaves the committed bytes in the file. */
    method Close()
      requires Valid()
      modifies file, file.data
      ensures file.data[..] == Committed(old(State()))
      ensures file.data == old(file.data) || fresh(file.data)
    {
      hide HeapIndex.ValidBut, StoreValid, HalfCommitted, Prepared, Placed, Committed, Put, MmapFile.IsInWindow;
      hide End, IndexSize, Allocs, NumAlloc, RecordBytes;
      ghost var s := State();
      NoneAllocated();
      ValidParts(s);
      CommittedNothing(s);
      if index.NumAllocatedRecords() == 0 {
        file.Clear();
        return;
      }
      var p := PrepForCommit();
      HalfCommittedEnds(s);
      IndexSizeIs();
      var numSerialized := 0;
      for k := 0 to |index.list|
        invariant index.Valid() && file.Valid() && index.blocks == s.blocks && |index.list| == |s.blocks|
        invariant file.data == old(file.data) || fresh(file.data)
        invariant numSerialized == NumAlloc(s.blocks[..k])
        invariant p == End(s.blocks) + 4 + RECORD_SIZE * numSerialized
        invariant file.IsInWindow(End(s.blocks), IndexSize(s.blocks))
        invariant file.data[..] == HalfCommitted(s, k)
      {
        var e := index.list[k];
        HalfCommittedStep(s, k, p);
        var free := index.IsFree(e);
        if !free {
          index.AllocFiled(k);
          assert file.IsInWindow(p, RECORD_SIZE);
          var written;
          written, p := e.Serialize(host, file.data, p);
          numSerialized := numSerialized + 1;
        }
      }
      assert numSerialized == index.NumAllocatedRecords();
    }

    static lemma CommittedNothing(s: Store)
      requires Placed(s.blocks, |s.bytes|)
      ensures s.blocks == [] ==> Committed(s) == []
    {
    }
  }

  /** Closing a file and opening what is on disk, as `Close` and the constructor do, is a step of a run, too. */
  lemma ClosingAndOpeningIsAStep(s: Store, key: seq<byte>, answer: Runs.Answer)
    requires StoreValid(s) && key != []
    ensures Loadable(Committed(s)) && Openable(Committed(s))
    ensures Runs.Step(s, Runs.Event(key, Runs.Reopen, answer), Loaded(Committed(s)))
  {
    hide StoreValid, Committed, Loaded, Readable;
    ReopenedIsSame(s);
    CommittedIsOpenable(s);
  }

  /** How a record is found for a blob: `refused` when there is none and the limit forbids a new one; otherwise
      block `at` of `t` is the one. */
  ghost predicate Placing(s: Store, id: seq<byte>, data: seq<byte>, refused: bool, at: nat, t: Store) {
    if HasFit(s.blocks, Need(id, data)) then
      && !refused && BestFit(s.blocks, at, Need(id, data))
      && t == s.(blocks := Carved(s.blocks, at, Need(id, data), Hash(id)))
    else if Footprint(Grown(s.blocks, id, data)) > s.maxSize then refused && t == s
    else
      && !refused && at == |s.blocks|
      && t == s.(blocks := Grown(s.blocks, id, data), bytes := Resize(s.bytes, Footprint(Grown(s.blocks, id, data))))
  }

  lemma PlacedFor(s: Store, id: seq<byte>, data: seq<byte>, at: nat, t: Store)
    requires StoreValid(s) && CanStore(s, id, data) && Placing(s, id, data, false, at, t)
    ensures at < |t.blocks| && t.blocks[at].Alloc? && HoleFits(t.blocks, at)
    ensures Placed(t.blocks, |t.bytes|)
    ensures OVERHEAD + |id| + |data| <= t.blocks[at].size < U32_LIMIT
  {
    hide AllHold, DistinctIds, AgreeOn;
    if HasFit(s.blocks, Need(id, data)) {
      CarvedPlaced(s.blocks, |s.bytes|, at, Need(id, data), Hash(id));
      CarvedWellFormed(s.blocks, at, Need(id, data), Hash(id));
      AllocateDeallocateRestores(s.blocks, at, Need(id, data), Hash(id));
    } else {
      GrownPlaced(s, id, data);
    }
  }

  lemma RefusedWrites(s: Store, id: seq<byte>, data: seq<byte>, at: nat, t: Store)
    requires Placing(Erased(s, id), id, data, true, at, t)
    ensures Writes(s, id, data, false, t)
  {
  }

  lemma FilledWrites(s: Store, id: seq<byte>, data: seq<byte>, at: nat, t: Store, ok: bool, u: Store)
    requires Placing(Erased(s, id), id, data, false, at, t) && Filled(t, at, id, data, ok, u)
    ensures Writes(s, id, data, ok, u)
  {
    hide Erased, Filled;
    if HasFit(Erased(s, id).blocks, Need(id, data)) {
      assert Reuses(Erased(s, id), id, data, ok, u, at);
    }
  }

  /** The index after the first `k` blocks have been looked at. */
  function HalfIndex(b: seq<Block>, k: nat): (x: seq<byte>)
    requires k <= |b|
    ensures |x| == 4 + RECORD_SIZE * NumAlloc(b[..k]) <= IndexSize(b)
  {
    AllocsPrefix(b, k);
    AllocsAreAllocated(b[..k]);
    ToBE(4, NumAlloc(b)) + Serialized(Allocs(b[..k]))
  }

  lemma HalfIndexEnds(b: seq<Block>)
    ensures HalfIndex(b, 0) == ToBE(4, NumAlloc(b)) && HalfIndex(b, |b|) == IndexBytes(b)
    ensures NumAlloc(b[..0]) == 0 && NumAlloc(b[..|b|]) == NumAlloc(b)
  {
    hide ToBE;
    assert b[..0] == [] && b[..|b|] == b;
    assert ToBE(4, NumAlloc(b)) + [] == ToBE(4, NumAlloc(b));
  }

  /** An allocated block adds its record; a free one adds nothing. */
  lemma HalfIndexStep(b: seq<Block>, k: nat)
    requires k < |b|
    ensures var x := b[k];
      HalfIndex(b, k + 1) == HalfIndex(b, k) + if x.Alloc? then RecordBytes(x.offset, x.key, x.size) else []
    ensures NumAlloc(b[..k + 1]) == NumAlloc(b[..k]) + if b[k].Alloc? then 1 else 0
  {
    hide ToBE, RecordBytes;
    var a, x := Allocs(b[..k]), b[k];
    AllocsStep(b, k);
    if x.Alloc? {
      assert (a + [x])[..|a|] == a;
    } else {
      assert a + [] == a;
    }
  }

  /** The bytes of the file after the first `k` blocks have been looked at. */
  ghost function HalfCommitted(s: Store, k: nat): seq<byte>
    requires Placed(s.blocks, |s.bytes|) && s.blocks != [] && k <= |s.blocks|
  {
    Put(Prepared(s), End(s.blocks), HalfIndex(s.blocks, k))
  }

  lemma HalfCommittedEnds(s: Store)
    requires Placed(s.blocks, |s.bytes|) && s.blocks != []
    ensures HalfCommitted(s, 0) == Put(Prepared(s), End(s.blocks), ToBE(4, NumAlloc(s.blocks)))
    ensures HalfCommitted(s, |s.blocks|) == Committed(s)
    ensures NumAlloc(s.blocks[..0]) == 0 && NumAlloc(s.blocks[..|s.blocks|]) == NumAlloc(s.blocks)
  {
    hide Put, ToBE, Placed, Prepared, HalfIndex, IndexBytes;
    HalfIndexEnds(s.blocks);
  }

  lemma HalfCommittedStep(s: Store, k: nat, p: nat)
    requires Placed(s.blocks, |s.bytes|) && k < |s.blocks|
    requires p == End(s.blocks) + 4 + RECORD_SIZE * NumAlloc(s.blocks[..k])
    ensures var x, f := s.blocks[k], HalfCommitted(s, k);
      && (x.Free? ==> HalfCommitted(s, k + 1) == f && NumAlloc(s.blocks[..k + 1]) == NumAlloc(s.blocks[..k]))
      && (x.Alloc? ==>
            && p + RECORD_SIZE <= End(s.blocks) + IndexSize(s.blocks) <= |f|
            && NumAlloc(s.blocks[..k + 1]) == NumAlloc(s.blocks[..k]) + 1
            && HalfCommitted(s, k + 1) == Put(f, p, RecordBytes(x.offset, x.key, x.size)))
  {
    hide Put, Placed, Prepared, HalfIndex, RecordBytes;
    var x, i := s.blocks[k], HalfIndex(s.blocks, k);
    HalfIndexStep(s.blocks, k);
    assert |HalfIndex(s.blocks, k + 1)| <= IndexSize(s.blocks);
    if x.Alloc? {
      PutTwice(Prepared(s), End(s.blocks), i, RecordBytes(x.offset, x.key, x.size));
    } else {
      assert i + [] == i;
    }
  }

  lemma AllocsStep(b: seq<Block>, k: nat)
    requires k < |b|
    ensures Allocs(b[..k + 1]) == Allocs(b[..k]) + IfAlloc(b[k])
  {
    TakeTake(b, k + 1, k);
  }
}
