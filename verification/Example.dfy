/** A whole file, byte by byte: what is on disk after one blob has been written under a key and the file closed. */
module Example {
  import opened Bytes
  import opened SimpleEncrypt
  import opened BlobFormat
  import opened Blocks
  import opened Store
  import opened Runs

  /** The key [1, 2] turns the id [7, 7] into [6, 5] and the data [9, 9] into [8, 11]. */
  lemma KeyApplied()
    ensures Cipher([1, 2], [7, 7]) == [6, 5] && Cipher([1, 2], [9, 9]) == [8, 11]
  {
    XorOf(7, 1, 6);
    XorOf(7, 2, 5);
    XorOf(9, 1, 8);
    XorOf(9, 2, 11);
  }

  lemma XorOf(a: byte, b: byte, c: byte)
    requires (a as bv8) ^ (b as bv8) == c as bv8
    ensures Xor(a, b) == c
  {
    ByteToBits(c);
  }

  /** One more round: `m` is the hash so far times 33, and `c` its lowest byte combined with the next one. */
  lemma Round(s: seq<byte>, b: byte, m: uint32, c: byte)
    requires 33 * Hash(s) % U32_LIMIT == m && Xor(m % 256, b) == c
    ensures Hash(s + [b]) == m - m % 256 + c
  {
    hide Xor;
    HashGrows(s, b);
    Times33Is(Hash(s));
  }

  lemma HashOfId()
    ensures Hash([6, 5]) == 5859846
  {
    hide Hash, Xor;
    HashInArithmetic([], 0);
    XorOf(165, 6, 163);
    Round([], 6, 177573, 163);
    XorOf(3, 5, 6);
    assert [] + [6] == [6];
    Round([6], 5, 5859843, 6);
    assert [6] + [5] == [6, 5];
  }

  lemma HashOfData()
    ensures Hash([8, 11]) == 5860166
  {
    hide Hash, Xor;
    HashInArithmetic([], 0);
    XorOf(165, 8, 173);
    Round([], 8, 177573, 173);
    XorOf(77, 11, 70);
    assert [] + [8] == [8];
    Round([8], 11, 5860173, 70);
    assert [8] + [11] == [8, 11];
  }

  lemma FourBytes(a: byte, b: byte, c: byte, d: byte)
    ensures ToBE(4, ((a * 256 + b) * 256 + c) * 256 + d) == [a, b, c, d]
  {
    hide ToBE;
    var s := [a, b, c, d];
    assert s[..3] == [a, b, c] && [a, b, c][..2] == [a, b] && [a, b][..1] == [a] && [a][..0] == [];
    assert FromBE([a]) == a;
    assert FromBE([a, b]) == a * 256 + b;
    assert FromBE([a, b, c]) == (a * 256 + b) * 256 + c;
    NumberBack(s);
  }

  lemma {:induction false} LeadingZero(w: nat, v: nat)
    requires v < Span(w)
    ensures ToBE(w + 1, v) == [0] + ToBE(w, v)
  {
    if w == 0 {
    } else {
      LeadingZero(w - 1, v / 256);
    }
  }

  lemma EightBytes(v: nat)
    requires v < U32_LIMIT
    ensures ToBE(8, v) == [0, 0, 0, 0] + ToBE(4, v)
  {
    SpanValues();
    hide ToBE;
    SpansGrow();
    LeadingZero(4, v);
    LeadingZero(5, v);
    LeadingZero(6, v);
    LeadingZero(7, v);
  }

  lemma SpansGrow()
    ensures Span(4) < Span(5) < Span(6) < Span(7)
  {
  }

  /** Place of the index; length of the id, id, checksum, length of the data, data; the rest of the block; number of
      records; offset, key and size of the one record. */
  lemma OneBlobOnDisk(t: Store)
    requires Step(EMPTY, Event([1, 2], Write([7, 7], [9, 9]), Flag(true)), t)
    ensures StoreValid(t)
    ensures Committed(t)
      == [0, 0, 0, 0, 0, 0, 1, 8]
         + [2, 6, 5, 0, 89, 107, 70, 0, 0, 0, 2, 8, 11] + Resize([], 243)
         + [0, 0, 0, 1] + [0, 0, 0, 0, 0, 0, 0, 8, 0, 89, 106, 6, 0, 0, 1, 0]
  {
    hide StoreValid, Writes, CanWrite, Cipher, Committed, FirstBlob, Resize;
    EmptyIsValid(EMPTY);
    KeyApplied();
    StepKeeps(EMPTY, Event([1, 2], Write([7, 7], [9, 9]), Flag(true)), t);
    OnlyOneOutcome(t);
    OnDisk(t);
  }

  lemma OnlyOneOutcome(t: Store)
    requires Writes(EMPTY, [6, 5], [8, 11], true, t)
    ensures t == FirstBlob([6, 5], [8, 11])
  {
    hide Hash, Encode, Need, Grown, Footprint, Put, Resize, Released;
    FirstGrown([6, 5], [8, 11]);
    assert Erased(EMPTY, [6, 5]) == EMPTY;
  }

  lemma BlobBytes()
    ensures Encode([6, 5], [8, 11]) == [2, 6, 5, 0, 89, 107, 70, 0, 0, 0, 2, 8, 11]
  {
    hide Hash, ToBE;
    HashOfData();
    FourBytes(0, 89, 107, 70);
    FourBytes(0, 0, 0, 2);
  }

  lemma RecordOnDisk()
    ensures RecordBytes(8, 5859846, 256) == [0, 0, 0, 0, 0, 0, 0, 8, 0, 89, 106, 6, 0, 0, 1, 0]
  {
    hide ToBE;
    EightBytes(8);
    FourBytes(0, 0, 0, 8);
    FourBytes(0, 89, 106, 6);
    FourBytes(0, 0, 1, 0);
  }

  lemma IndexOnDisk(b: seq<Block>)
    requires b == [Alloc(8, 5859846, 256)]
    ensures Allocs(b) == b && End(b) == 264 && Footprint(b) == 284
    ensures IndexBytes(b) == [0, 0, 0, 1] + [0, 0, 0, 0, 0, 0, 0, 8, 0, 89, 106, 6, 0, 0, 1, 0]
  {
    hide ToBE, RecordBytes;
    AllocsOne(b[0]);
    FourBytes(0, 0, 0, 1);
    RecordOnDisk();
    assert b[..0] == [] && Serialized(b[..0]) == [];
    assert [] + RecordBytes(8, 5859846, 256) == RecordBytes(8, 5859846, 256);
  }

  lemma HeaderOnDisk()
    ensures ToBE(8, 264) == [0, 0, 0, 0, 0, 0, 1, 8]
  {
    hide ToBE;
    EightBytes(264);
    FourBytes(0, 0, 1, 8);
  }

  lemma OnDisk(t: Store)
    requires t == FirstBlob([6, 5], [8, 11]) && StoreValid(t)
    ensures Committed(t)
      == [0, 0, 0, 0, 0, 0, 1, 8]
         + [2, 6, 5, 0, 89, 107, 70, 0, 0, 0, 2, 8, 11] + Resize([], 243)
         + [0, 0, 0, 1] + [0, 0, 0, 0, 0, 0, 0, 8, 0, 89, 106, 6, 0, 0, 1, 0]
  {
    hide StoreValid, Hash, Encode, IndexBytes, Footprint, End, ToBE, Need;
    HashOfId();
    BlobBytes();
    NeedInNumbers([6, 5], [8, 11]);
    IndexOnDisk(t.blocks);
    HeaderOnDisk();
    Assembled(Encode([6, 5], [8, 11]), ToBE(8, 264), IndexBytes(t.blocks));
  }

  /** Block, header and index put into their places in a file of zeros. */
  lemma Assembled(blob: seq<byte>, header: seq<byte>, index: seq<byte>)
    requires |blob| == 13 && |header| == 8 && |index| == 20
    ensures var f := Put(Put(Resize([], 284), 8, blob), 0, header);
      Put(Resize(f, 284), 264, index) == header + blob + Resize([], 243) + index
  {
  }
}
