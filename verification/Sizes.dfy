/** The size of the file against its limit: which operations can make the file longer, and when it passes the limit
    that `setMaxSize` has set. */
module Sizes {
  import opened Bytes
  import opened SimpleEncrypt
  import opened BlobFormat
  import opened Blocks
  import opened Store
  import opened Runs

  // Releasing

  lemma EndWithoutLast(b: seq<Block>)
    requires WellFormed(b) && b != [] && b[0].offset >= 8
    ensures var i, c := |b| - 1, Deallocated(b, |b| - 1);
      && End(c) <= b[i].offset
      && (End(c) == b[i].offset <==> if i == 0 then b[i].offset == 8 else b[i - 1].Alloc?)
  {
    var i := |b| - 1;
    if i > 0 {
      Neighbours(b, i - 1);
      if b[i - 1].Free? && i > 1 {
        Neighbours(b, i - 2);
      }
    }
  }

  /** When the last block goes, the file gets the size that the remaining blocks and their index need exactly when
      there is no free block before it: the program counts from the place where the released block started.
      When another block goes, the file keeps its size. */
  lemma FileSizeAfterRelease(s: Store, i: nat)
    requires Placed(s.blocks, |s.bytes|) && i < |s.blocks| && s.blocks[i].Alloc? && HoleFits(s.blocks, i)
    ensures i < |s.blocks| - 1 ==> Released(s, i).bytes == s.bytes
    ensures var t := Released(s, i);
      i == |s.blocks| - 1 ==>
        && Footprint(t.blocks) <= |t.bytes|
        && (|t.bytes| == Footprint(t.blocks) <==>
              if i == 0 then s.blocks[i].offset == 8 else s.blocks[i - 1].Alloc?)
  {
    if i == |s.blocks| - 1 {
      hide WellFormed, IndexSize, Deallocated;
      EndWithoutLast(s.blocks);
    }
  }

  /** The size of the file after a release: when the last block goes, the place where it started and the index of
      the blocks that are left, whatever comes before it. */
  lemma SizeAfterRelease(s: Store, i: nat)
    requires i < |s.blocks| && s.blocks[i].Alloc?
    ensures |Released(s, i).bytes|
      == if i == |s.blocks| - 1 then s.blocks[i].offset + 4 + 16 * (NumAlloc(s.blocks) - 1) else |s.bytes|
  {
    hide Deallocated;
    DeallocatedRemoves(s.blocks, i);
  }

  /** And after an erase. */
  lemma SizeAfterErase(s: Store, id: seq<byte>)
    requires StoreValid(s)
    ensures |Erased(s, id).bytes|
      == if s.blocks != [] && StoredAt(s, id, |s.blocks| - 1)
         then s.blocks[|s.blocks| - 1].offset + 4 + 16 * (NumAlloc(s.blocks) - 1) else |s.bytes|
  {
    hide ItemAt, Deallocated, Placed, AllHold, Released;
    if i :| StoredAt(s, id, i) {
      ErasedIs(s, id, i);
      SizeAfterRelease(s, i);
      if s.blocks != [] && StoredAt(s, id, |s.blocks| - 1) {
        StoredOnce(s, id, i, |s.blocks| - 1);
      }
    }
  }

  /** A release makes the file longer exactly when it is that of the last block and blocks have joined the index
      since the file got its size, so many that their records outweigh the released block. */
  lemma ReleaseLengthensExactly(s: Store, i: nat)
    requires i < |s.blocks| && s.blocks[i].Alloc?
    ensures |Released(s, i).bytes| > |s.bytes|
      <==> i == |s.blocks| - 1 && s.blocks[i].offset + IndexSize(s.blocks) > |s.bytes| + RECORD_SIZE
  {
    hide Deallocated;
    DeallocatedRemoves(s.blocks, i);
  }

  /** An erase of `id` leaves a file of more than `size` bytes. */
  ghost predicate ErasesBeyond(s: Store, id: seq<byte>, size: nat) {
    && s.blocks != [] && StoredAt(s, id, |s.blocks| - 1)
    && s.blocks[|s.blocks| - 1].offset + IndexSize(s.blocks) > size + RECORD_SIZE
  }

  /** The exact condition for an erase to lengthen the file (`size == |s.bytes|`) and to pass the limit. */
  lemma EraseBeyondExactly(s: Store, id: seq<byte>, size: nat)
    requires StoreValid(s) && |s.bytes| <= size
    ensures |Erased(s, id).bytes| > size <==> ErasesBeyond(s, id, size)
  {
    hide ItemAt, Deallocated, Placed, AllHold;
    if i :| StoredAt(s, id, i) {
      ErasedIs(s, id, i);
      DeallocatedRemoves(s.blocks, i);
      if ErasesBeyond(s, id, size) {
        StoredOnce(s, id, i, |s.blocks| - 1);
      }
    }
  }

  // Writing

  lemma FootprintIs(b: seq<Block>)
    ensures Footprint(b) == End(b) + IndexSize(b)
  {
  }

  lemma AppendedSize(s: Store, id: seq<byte>, data: seq<byte>, ok: bool, t: Store)
    requires StoreValid(s) && Appends(s, id, data, ok, t)
    ensures t.maxSize == s.maxSize
    ensures if Footprint(Grown(s.blocks, id, data)) > s.maxSize then t == s else |t.bytes| <= s.maxSize
  {
    hide Deallocated, Encode, Hash, Appended, StoreValid, Placed, WellFormed, Footprint, Put, Resize;
    WellFormedBlocks(s);
    AppendedCases(s.blocks, End(s.blocks), Hash(id), Need(id, data));
    FootprintIs(s.blocks);
    AppendDeallocateRestores(s.blocks, End(s.blocks), Hash(id), Need(id, data));
    GrownFootprint(s, id, data);
  }

  /** The erase of a write passes the limit, and what follows leaves the size alone: a free block is reused, or no
      block can be appended. */
  ghost predicate WritesBeyond(s: Store, id: seq<byte>, data: seq<byte>) {
    var e := Erased(s, id);
    && ErasesBeyond(s, id, s.maxSize)
    && (HasFit(e.blocks, Need(id, data)) || Footprint(Grown(e.blocks, id, data)) > s.maxSize)
  }

  /** A write passes the limit only through its erase. */
  lemma WriteBeyondExactly(s: Store, id: seq<byte>, data: seq<byte>, ok: bool, t: Store)
    requires StoreValid(s) && CanWrite(s, id, data) && Writes(s, id, data, ok, t) && |s.bytes| <= s.maxSize
    ensures t.maxSize == s.maxSize
    ensures |t.bytes| > s.maxSize <==> WritesBeyond(s, id, data)
  {
    hide StoreValid, Contents, Erased, Reuses, Appends, HasFit, Footprint, Grown, Need, ErasesBeyond;
    var e := Erased(s, id);
    EraseForgets(s, id);
    EraseLeavesRoom(s, id, data);
    EraseBeyondExactly(s, id, s.maxSize);
    if HasFit(e.blocks, Need(id, data)) {
      var at :| Reuses(e, id, data, ok, t, at);
      ReuseRefines(e, id, data, ok, t, at);
      ReusedLimit(e, id, data, ok, t, at);
    } else {
      AppendedSize(e, id, data, ok, t);
    }
  }

  lemma ReusedLimit(s: Store, id: seq<byte>, data: seq<byte>, ok: bool, t: Store, at: nat)
    requires Reuses(s, id, data, ok, t, at)
    ensures t.maxSize == s.maxSize
  {
  }

  // Closing

  /** Closing may lengthen the file, by the index that it writes behind the last block. */
  lemma ClosedSize(s: Store)
    requires StoreValid(s)
    ensures |Committed(s)| == if s.blocks == [] then 0 else Max(|s.bytes|, Footprint(s.blocks))
    ensures |s.bytes| <= s.maxSize ==>
      (|Committed(s)| > s.maxSize <==> s.blocks != [] && Footprint(s.blocks) > s.maxSize)
  {
    hide IndexBytes, Footprint, ToBE, WellFormed;
  }

  // Runs

  ghost predicate Within(s: Store) {
    |s.bytes| <= s.maxSize
  }

  /** The event takes a file within its limit beyond it. Reopening lifts the limit to the largest size there is. */
  ghost predicate Outgrows(s: Store, e: Event) {
    e.key != [] && match e.op
                   case Write(id, data) => WritesBeyond(s, Cipher(e.key, id), Cipher(e.key, data))
                   case Erase(id) => ErasesBeyond(s, Cipher(e.key, id), s.maxSize)
                   case Reopen => s.blocks != [] && Max(|s.bytes|, Footprint(s.blocks)) > NO_LIMIT
                   case _ => false
  }

  lemma StepOutgrowsExactly(s: Store, e: Event, t: Store)
    requires StoreValid(s) && Step(s, e, t) && Within(s)
    ensures !Within(t) <==> Outgrows(s, e)
  {
    hide StoreValid, Contents, Writes, Erased, Limited, Reopened, Cipher, CanWrite, CanErase, Delivers;
    hide WritesBeyond, ErasesBeyond, Footprint;
    match e.op
    case Write(id, data) => WriteBeyondExactly(s, Cipher(e.key, id), Cipher(e.key, data), e.answer.ok, t);
    case Erase(id) =>
      EraseForgets(s, Cipher(e.key, id));
      EraseBeyondExactly(s, Cipher(e.key, id), s.maxSize);
    case SetMaxSize(cap) => LimitedIsWithin(s, cap);
    case Reopen => ReopenedSize(s);
    case _ =>
  }

  lemma LimitedIsWithin(s: Store, cap: nat)
    requires StoreValid(s) && cap <= NO_LIMIT
    ensures Within(Limited(s, cap))
  {
    hide StoreValid;
    LimitedShrinks(s, cap);
  }

  lemma ReopenedSize(s: Store)
    requires StoreValid(s)
    ensures Reopened(s).maxSize == NO_LIMIT
    ensures |Reopened(s).bytes| == if s.blocks == [] then 0 else Max(|s.bytes|, Footprint(s.blocks))
  {
    hide StoreValid, Committed, Loaded, Footprint;
    CommittedLoads(s);
    ClosedSize(s);
  }

  /** A run that starts within its limit stays there exactly as long as no event outgrows it. */
  lemma {:induction false} RunStaysWithinExactly(states: seq<Store>, events: seq<Event>, n: nat)
    requires IsRun(states, events) && n <= |events| && Within(states[0])
    ensures (forall m :: 0 <= m <= n ==> Within(states[m]))
      <==> (forall m :: 0 <= m < n ==> !Outgrows(states[m], events[m]))
  {
    hide StoreValid, Step, Within, Outgrows;
    if n == 0 {
    } else {
      RunStaysWithinExactly(states, events, n - 1);
      RunStaysValid(states, events, n - 1);
      RunStep(states, events, n - 1);
      if Within(states[n - 1]) {
        StepOutgrowsExactly(states[n - 1], events[n - 1], states[n]);
      }
    }
  }

  // A run that outgrows its limit

  /** The event of a write or an erase in clear that succeeds. */
  function Done(op: Op): Event {
    Event([0], op, Flag(true))
  }

  lemma ErasesBlock(s: Store, i: nat)
    requires StoreValid(s) && i < |s.blocks| && s.blocks[i].Alloc? && HoleFits(s.blocks, i)
    ensures var id := ItemAt(s.bytes, s.blocks[i]).id;
      && Step(s, Done(Erase(id)), Released(s, i))
      && StoreValid(Released(s, i)) && Contents(Released(s, i)) == Contents(s) - {id}
  {
    hide ItemAt, Placed, AllHold, DistinctIds, TableOf, Cipher, Released, HoleFits;
    var id := ItemAt(s.bytes, s.blocks[i]).id;
    EmptyKeyIsClear(id);
    ErasedIs(s, id, i);
    ReleasedForgets(s, i);
    forall j: nat | StoredAt(s, id, j) ensures j == i {
      StoredOnce(s, id, i, j);
    }
  }

  /** An id that is not stored can be written without an erase. */
  lemma NotStoredYet(s: Store, id: seq<byte>)
    requires id !in Contents(s)
    ensures Erased(s, id) == s && CanErase(s, id)
  {
    BoundMeansStored(s, id);
  }

  /** A large blob's place is given to `k` small ones, between the header and the last block, which stays. */
  ghost predicate Stage(s: Store, k: nat) {
    var b := s.blocks;
    && StoreValid(s) && s.maxSize == 5165 && |s.bytes| == 5164
    && k <= 19 && |b| == (if k < 19 then k + 2 else 20)
    && (forall j :: 0 <= j < k ==> b[j].Alloc?)
    && (k < 19 ==> b[k] == Free(8 + 256 * k, 4864 - 256 * k))
    && b[|b| - 1].Alloc? && b[|b| - 1].offset == 4872
    && SmallIds(Contents(s), k)
  }

  ghost predicate SmallIds(v: Table, k: nat) {
    forall x :: x in v ==> |x| == 1 && (x[0] < k || x[0] >= 254)
  }

  lemma OneMoreId(v: Table, k: byte)
    requires SmallIds(v, k) && k < 254
    ensures [k] !in v && SmallIds(v[[k] := []], k + 1)
  {
  }

  function Next(s: Store, k: nat): Store
    requires Stage(s, k) && k < 19
  {
    Store(Carved(s.blocks, k, MIN_SIZE, Hash([k])), Put(s.bytes, 8 + 256 * k, Encode([k], [])), s.maxSize)
  }

  lemma NextStage(s: Store, k: nat)
    requires Stage(s, k) && k < 19
    ensures Stage(Next(s, k), k + 1)
    ensures Step(s, Done(Write([k], [])), Next(s, k))
  {
    hide StoreValid, Contents, Writes, CanWrite, Carved, Hash, Encode, Put, Cipher, SmallIds, Erased, HasRoom;
    OneMoreId(Contents(s), k);
    EmptyKeyIsClear([k]);
    EmptyKeyIsClear([]);
    NextWrites(s, k);
    WriteRefines(s, [k], [], true, Next(s, k));
    NextBlocks(s.blocks, k);
  }

  lemma NextBlocks(b: seq<Block>, k: nat)
    requires k < 19 && |b| == k + 2 && b[k] == Free(8 + 256 * k, 4864 - 256 * k)
    requires (forall j :: 0 <= j < k ==> b[j].Alloc?) && b[k + 1].Alloc?
    ensures var c := Carved(b, k, MIN_SIZE, Hash([k]));
      && |c| == (if k < 18 then k + 3 else 20)
      && (forall j :: 0 <= j <= k ==> c[j].Alloc?) && c[k].offset == b[k].offset
      && (k < 18 ==> c[k + 1] == Free(8 + 256 * (k + 1), 4864 - 256 * (k + 1)))
      && c[|c| - 1] == b[k + 1]
  {
    hide Hash;
    CarvedCases(b, k, MIN_SIZE, Hash([k]));
  }

  lemma NextWrites(s: Store, k: nat)
    requires Stage(s, k) && k < 19
    ensures CanWrite(s, [k], []) && Writes(s, [k], [], true, Next(s, k))
  {
    hide StoreValid, Contents, Carved, Hash, Encode, Put, Erased, CanErase, Footprint, SmallIds;
    OneMoreId(Contents(s), k);
    NotStoredYet(s, [k]);
    NextBlocks(s.blocks, k);
    SmallFootprint(s);
    assert BestFit(s.blocks, k, MIN_SIZE);
    assert Reuses(s, [k], [], true, Next(s, k), k);
  }

  lemma SmallFootprint(s: Store)
    requires StoreValid(s) && |s.bytes| == 5164 && |s.blocks| <= 20
    ensures IndexSize(s.blocks) <= 324 && Footprint(s.blocks) <= 5488
  {
    hide WellFormed, BigEnough, AllHold;
  }

  const LARGE: seq<byte> := Resize([], 4854)

  /** One large blob and a small one behind it. */
  function TwoBlobs(): Store {
    var b := [Alloc(8, Hash([254]), 4864), Alloc(4872, Hash([255]), 256)];
    Store(b, Put(Resize(FirstBlob([254], LARGE).bytes, 5164), 4872, Encode([255], [])), NO_LIMIT)
  }

  lemma TwoBlobsWritten()
    ensures var s := FirstBlob([254], LARGE);
      && Step(EMPTY, Done(Write([254], LARGE)), s) && Step(s, Done(Write([255], [])), TwoBlobs())
      && StoreValid(TwoBlobs()) && Contents(TwoBlobs()) == map[[254] := LARGE, [255] := []]
  {
    hide StoreValid, Contents, Writes, CanWrite, FirstBlob, TwoBlobs, Cipher, Erased;
    var s := FirstBlob([254], LARGE);
    EmptyKeyIsClear([254]);
    EmptyKeyIsClear(LARGE);
    EmptyKeyIsClear([255]);
    EmptyKeyIsClear([]);
    EmptyIsValid(EMPTY);
    FirstWrite([254], LARGE);
    WriteRefines(EMPTY, [254], LARGE, true, s);
    SecondWrite(s);
    WriteRefines(s, [255], [], true, TwoBlobs());
  }

  lemma SecondWrite(s: Store)
    requires s == FirstBlob([254], LARGE) && StoreValid(s) && [255] !in Contents(s)
    ensures CanWrite(s, [255], []) && Writes(s, [255], [], true, TwoBlobs())
  {
    hide StoreValid, Contents, Hash, Encode, Put, Resize, Erased, CanErase, Grown;
    NotStoredYet(s, [255]);
    SecondGrown();
    AllocsOne(s.blocks[0]);
    assert Footprint(s.blocks) == 4892;
    assert s.blocks == [Alloc(8, Hash([254]), 4864)];
    assert Appends(s, [255], [], true, TwoBlobs());
  }

  lemma SecondGrown()
    ensures var b := [Alloc(8, Hash([254]), 4864)];
      && Grown(b, [255], []) == b + [Alloc(4872, Hash([255]), 256)]
      && Footprint(Grown(b, [255], [])) == 5164
  {
    hide Hash, Allocs, Appended;
    var b, x := [Alloc(8, Hash([254]), 4864)], Alloc(4872, Hash([255]), 256);
    AppendedCases(b, 4872, Hash([255]), 256);
    AllocsOne(b[0]);
    AppendedAdds(b, 4872, Hash([255]), 256);
  }

  /** A limit just above the size of the file, and the large blob erased. */
  function Prelude(): seq<Store> {
    var s := TwoBlobs();
    [EMPTY, FirstBlob([254], LARGE), s, s.(maxSize := 5165), Released(s.(maxSize := 5165), 0)]
  }

  function PreludeEvents(id: seq<byte>): seq<Event> {
    [Done(Write([254], LARGE)), Done(Write([255], [])), Done(SetMaxSize(5165)), Done(Erase(id))]
  }

  lemma PreludeRuns(id: seq<byte>)
    requires id == ItemAt(TwoBlobs().bytes, TwoBlobs().blocks[0]).id
    ensures IsRun(Prelude(), PreludeEvents(id))
    ensures Stage(Prelude()[4], 0)
  {
    hide StoreValid, Contents, FirstBlob, Cipher, Step;
    var s, t := TwoBlobs(), TwoBlobs().(maxSize := 5165);
    TwoBlobsWritten();
    EmptyIsValid(EMPTY);
    Raised(s);
    ErasesBlock(t, 0);
    LargeFreed();
  }

  lemma Raised(s: Store)
    requires StoreValid(s) && |s.bytes| == 5164
    ensures var t := s.(maxSize := 5165);
      Step(s, Done(SetMaxSize(5165)), t) && StoreValid(t) && Contents(t) == Contents(s)
  {
    hide Placed, AllHold, DistinctIds, TableOf, Items;
  }

  lemma LargeFreed()
    ensures var b := TwoBlobs().blocks;
      b[0].Alloc? && HoleFits(b, 0) && Deallocated(b, 0) == [Free(8, 4864), b[1]]
  {
    hide Hash;
  }

  /** `k` small blobs are written into the place of the large one. */
  lemma {:induction false} StageReached(k: nat) returns (states: seq<Store>, events: seq<Event>)
    requires k <= 19
    ensures IsRun(states, events) && states[0] == EMPTY && Stage(states[|events|], k)
  {
    if k == 0 {
      var id := ItemAt(TwoBlobs().bytes, TwoBlobs().blocks[0]).id;
      PreludeRuns(id);
      states := Prelude();
      events := PreludeEvents(id);
    } else {
      states, events := StageReached(k - 1);
      var s := states[|events|];
      NextStage(s, k - 1);
      RunGrows(states, events, Done(Write([k - 1], [])), Next(s, k - 1));
      states, events := states + [Next(s, k - 1)], events + [Done(Write([k - 1], []))];
    }
  }

  lemma RunGrows(states: seq<Store>, events: seq<Event>, e: Event, t: Store)
    requires IsRun(states, events) && Step(states[|events|], e, t)
    ensures IsRun(states + [t], events + [e])
  {
    hide Step, StoreValid;
  }

  /** The last event of the run, an erase, makes the file longer and takes it past its limit; and closing the file
      before that event would have done so, too. */
  ghost predicate LimitOutgrown(states: seq<Store>, events: seq<Event>) {
    && IsRun(states, events) && states[0] == EMPTY && events != []
    && var n := |events| - 1;
       && events[n].op.Erase?
       && StoreValid(states[n]) && |states[n].bytes| < states[n].maxSize < |Committed(states[n])|
       && |states[n + 1].bytes| > states[n].maxSize == states[n + 1].maxSize
  }

  /** A run in which the file has 5164 bytes under a limit of 5165, and 5180 after an erase. */
  lemma EraseOutgrowsLimit()
    ensures exists states: seq<Store>, events: seq<Event> :: LimitOutgrown(states, events)
  {
    hide StoreValid, Committed, Released, ItemAt, Step;
    var states, events := StageReached(19);
    var s := states[|events|];
    var id := ItemAt(s.bytes, s.blocks[19]).id;
    FullStage(s);
    ErasesBlock(s, 19);
    RunGrows(states, events, Done(Erase(id)), Released(s, 19));
    assert LimitOutgrown(states + [Released(s, 19)], events + [Done(Erase(id))]);
  }

  lemma FullStage(s: Store)
    requires Stage(s, 19)
    ensures HoleFits(s.blocks, 19) && s.blocks[19].Alloc?
    ensures |Released(s, 19).bytes| == 5180 && Released(s, 19).maxSize == s.maxSize
    ensures |Committed(s)| > s.maxSize
  {
    hide StoreValid, Committed, Deallocated;
    AllAllocated(s.blocks);
    DeallocatedRemoves(s.blocks, 19);
    ClosedSize(s);
  }

  lemma {:induction false} AllAllocated(b: seq<Block>)
    requires forall i :: 0 <= i < |b| ==> b[i].Alloc?
    ensures Allocs(b) == b
  {
    if b == [] {
    } else {
      AllAllocated(b[..|b| - 1]);
    }
  }

  /** The last event of the run, an erase, leaves no block, but more bytes than an empty index needs. */
  ghost predicate SpaceLeft(states: seq<Store>, events: seq<Event>) {
    && IsRun(states, events) && states[0] == EMPTY && events != [] && events[|events| - 1].op.Erase?
    && states[|events|].blocks == [] && |states[|events|].bytes| > Footprint([])
  }

  /** Because a free block came before the last one, the file still has 4876 bytes: an empty index would need 12. */
  lemma EraseLeavesFreeSpace()
    ensures exists states: seq<Store>, events: seq<Event> ::
      SpaceLeft(states, events) && |states[|events|].bytes| == 4876
  {
    hide StoreValid, ItemAt, Step;
    var states, events := StageReached(0);
    var s := states[|events|];
    var id := ItemAt(s.bytes, s.blocks[1]).id;
    assert Deallocated(s.blocks, 1) == [];
    ErasesBlock(s, 1);
    RunGrows(states, events, Done(Erase(id)), Released(s, 1));
    assert SpaceLeft(states + [Released(s, 1)], events + [Done(Erase(id))]);
  }
}
