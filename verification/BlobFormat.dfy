/** The bytes of one stored blob (src/heap_blob.cpp): length of the id, id, checksum, length of the data, data. */
module BlobFormat {
  import opened Bytes
  import opened SimpleEncrypt

  /** One byte for the length of the id, four for the checksum, four for the length of the data. */
  const OVERHEAD: nat := 9
  const MAX_ID: nat := 255

  /** `(hash << 5) + hash` in 32 bits. */
  function Times33(h: uint32): uint32 {
    (h * 32 % U32_LIMIT + h) % U32_LIMIT
  }

  /** A 32-bit number combined with a byte: only its lowest byte changes. */
  function XorLow(h: uint32, b: byte): uint32 {
    h - h % 256 + Xor(h % 256, b)
  }

  /** One round of the djb2 hash with exclusive-or. */
  function HashRound(h: uint32, b: byte): uint32 {
    XorLow(Times33(h), b)
  }

  function Fold<S>(round: (S, byte) -> S, seed: S, s: seq<byte>): S {
    if s == [] then seed else round(Fold(round, seed, s[..|s| - 1]), s[|s| - 1])
  }

  function Hash(s: seq<byte>): uint32 {
    Fold(HashRound, 5381, s)
  }

  lemma Times33Is(h: uint32)
    ensures Times33(h) == 33 * h % U32_LIMIT
  {
  }

  lemma XorLowParts(h: uint32, b: byte)
    ensures XorLow(h, b) / 256 == h / 256 && XorLow(h, b) % 256 == Xor(h % 256, b)
  {
  }

  lemma HashGrows(s: seq<byte>, b: byte)
    ensures Hash(s + [b]) == HashRound(Hash(s), b)
  {
    assert (s + [b])[..|s|] == s;
  }

  /** The hash in arithmetic: it starts at 5381, and each byte multiplies it by 33, modulo 2^32, and changes the
      lowest eight bits of that. */
  lemma HashInArithmetic(s: seq<byte>, b: byte)
    ensures Hash([]) == 5381
    ensures Hash(s + [b]) / 256 == 33 * Hash(s) % U32_LIMIT / 256
    ensures Hash(s + [b]) % 256 == Xor(33 * Hash(s) % 256, b)
  {
    hide XorLow, Times33, Xor;
    HashGrows(s, b);
    Times33Is(Hash(s));
    XorLowParts(Times33(Hash(s)), b);
    LowByteOfWord(33 * Hash(s));
  }

  lemma LowByteOfWord(n: nat)
    ensures n % U32_LIMIT % 256 == n % 256
  {
  }

  // 33 is odd, so multiplying by it is injective modulo 2^32: 0x3E0F83E1 undoes it.
  lemma Times33Injective(h: uint32, g: uint32)
    requires 33 * h % U32_LIMIT == 33 * g % U32_LIMIT
    ensures h == g
  {
    var q := 33 * h / U32_LIMIT - 33 * g / U32_LIMIT;
    assert 33 * (h - g) == U32_LIMIT * q;
    assert h - g == U32_LIMIT * (0x3E0F83E1 * q - 8 * (h - g));
  }

  ghost predicate Injective<S(!new)>(round: (S, byte) -> S) {
    && (forall h, g, b :: round(h, b) == round(g, b) ==> h == g)
    && (forall h, a, b :: round(h, a) == round(h, b) ==> a == b)
  }

  lemma HashRoundInjective()
    ensures Injective(HashRound)
  {
    hide XorLow, Times33;
    forall h: uint32, g: uint32, b: byte | HashRound(h, b) == HashRound(g, b) ensures h == g {
      XorLowInjective(Times33(h), Times33(g), b, b);
      Times33Is(h);
      Times33Is(g);
      Times33Injective(h, g);
    }
    forall h: uint32, a: byte, b: byte | HashRound(h, a) == HashRound(h, b) ensures a == b {
      XorLowInjective(Times33(h), Times33(h), a, b);
    }
  }

  lemma XorLowInjective(h: uint32, g: uint32, a: byte, b: byte)
    requires XorLow(h, a) == XorLow(g, b)
    ensures a == b ==> h == g
    ensures h == g ==> a == b
  {
    hide XorLow, Xor;
    XorLowParts(h, a);
    XorLowParts(g, b);
    XorTwice(h % 256, a);
    XorTwice(g % 256, b);
    XorGivesTheOther(h % 256, a);
    XorGivesTheOther(g % 256, b);
  }

  /** Changing one byte, wherever it is, changes what an injective round makes of the string. */
  lemma {:induction false} OneByteChangesFold<S(!new)>(
    round: (S, byte) -> S, seed: S, s: seq<byte>, k: nat, c: byte)
    requires Injective(round)
    requires k < |s| && c != s[k]
    ensures Fold(round, seed, s[k := c]) != Fold(round, seed, s)
  {
    var n, t := |s| - 1, s[k := c];
    if k == n {
      assert t[..n] == s[..n];
    } else {
      assert t[..n] == s[..n][k := c];
      OneByteChangesFold(round, seed, s[..n], k, c);
    }
  }

  lemma OneByteChangesChecksum(s: seq<byte>, k: nat, c: byte)
    requires k < |s| && c != s[k]
    ensures Hash(s[k := c]) != Hash(s)
  {
    HashRoundInjective();
    OneByteChangesFold(HashRound, 5381, s, k, c);
  }

  /** `blobSize`: the sum is cut to 32 bits. */
  function BlobSize(idSize: nat, dataSize: nat): uint32 {
    (OVERHEAD + idSize + dataSize) % U32_LIMIT
  }

  function Encode(id: seq<byte>, data: seq<byte>): (s: seq<byte>)
    requires |id| <= MAX_ID && |data| < U32_LIMIT
    ensures |s| == OVERHEAD + |id| + |data|
  {
    [|id|] + id + ToBE(4, Hash(data)) + ToBE(4, |data|) + data
  }

  /** A record's bytes `s` are long enough for the id they announce and for the fixed fields. */
  predicate Framed(s: seq<byte>) {
    s != [] && s[0] + OVERHEAD <= |s|
  }

  function IdOf(s: seq<byte>): seq<byte>
    requires Framed(s)
  {
    s[1..1 + s[0]]
  }

  function StoredHash(s: seq<byte>): nat
    requires Framed(s)
  {
    FromBE(s[1 + s[0]..5 + s[0]])
  }

  function DataSize(s: seq<byte>): nat
    requires Framed(s)
  {
    FromBE(s[5 + s[0]..9 + s[0]])
  }

  predicate Sized(s: seq<byte>) {
    Framed(s) && DataSize(s) <= |s| - OVERHEAD - s[0]
  }

  function DataOf(s: seq<byte>): seq<byte>
    requires Sized(s)
  {
    s[9 + s[0]..9 + s[0] + DataSize(s)]
  }

  /** Exactly what `getData` accepts. */
  predicate Intact(s: seq<byte>) {
    Sized(s) && StoredHash(s) == Hash(DataOf(s))
  }

  /** What is written is read back, from a record of any size that has room for it. */
  lemma BlobRoundTrip(s: seq<byte>, id: seq<byte>, data: seq<byte>)
    requires |id| <= MAX_ID && |data| < U32_LIMIT
    requires Encode(id, data) <= s
    ensures Intact(s) && IdOf(s) == id && DataOf(s) == data
  {
    hide Hash, ToBE, FromBE;
    var e, n := Encode(id, data), |id|;
    assert e == s[..|e|];
    assert s[0] == e[0] == n;
    assert s[1..1 + n] == e[1..1 + n] == id;
    assert s[1 + n..5 + n] == e[1 + n..5 + n] == ToBE(4, Hash(data));
    assert s[5 + n..9 + n] == e[5 + n..9 + n] == ToBE(4, |data|);
    SpanValues();
    BigEndianRoundTrip(4, Hash(data));
    BigEndianRoundTrip(4, |data|);
    assert s[9 + n..9 + n + |data|] == e[9 + n..9 + n + |data|] == data;
  }

  /** `getData` rejects a stored blob when one byte of its checksum or of its data has changed. */
  lemma OneByteCorruptionIsRejected(s: seq<byte>, id: seq<byte>, data: seq<byte>, k: nat, c: byte)
    requires |id| <= MAX_ID && |data| < U32_LIMIT
    requires Encode(id, data) <= s
    requires 1 + |id| <= k < 5 + |id| || OVERHEAD + |id| <= k < OVERHEAD + |id| + |data|
    requires c != s[k]
    ensures !Intact(s[k := c])
  {
    hide Hash, FromBE, ToBE;
    BlobRoundTrip(s, id, data);
    var t, n := s[k := c], |id|;
    assert t[0] == s[0] && t[5 + n..9 + n] == s[5 + n..9 + n];
    if k < 5 + n {
      assert DataOf(t) == DataOf(s);
      assert t[1 + n..5 + n][k - 1 - n] != s[1 + n..5 + n][k - 1 - n];
      if StoredHash(t) == StoredHash(s) {
        BigEndianInjective(t[1 + n..5 + n], s[1 + n..5 + n]);
      }
    } else {
      assert t[1 + n..5 + n] == s[1 + n..5 + n];
      assert DataOf(t) == data[k - OVERHEAD - n := c];
      OneByteChangesChecksum(data, k - OVERHEAD - n, c);
    }
  }

  /** `getData` accepts a record exactly when it starts with a written blob. */
  lemma IntactExactly(s: seq<byte>)
    ensures Intact(s) <==> exists id: seq<byte>, data: seq<byte> ::
      |id| <= MAX_ID && |data| < U32_LIMIT && Encode(id, data) <= s
  {
    if Intact(s) {
      StartsWithItsBlob(s);
      assert Encode(IdOf(s), DataOf(s)) <= s;
    }
    forall id: seq<byte>, data: seq<byte> | |id| <= MAX_ID && |data| < U32_LIMIT && Encode(id, data) <= s
      ensures Intact(s)
    {
      BlobRoundTrip(s, id, data);
    }
  }

  lemma StartsWithItsBlob(s: seq<byte>)
    requires Intact(s)
    ensures |IdOf(s)| <= MAX_ID && |DataOf(s)| < U32_LIMIT && Encode(IdOf(s), DataOf(s)) <= s
  {
    hide Hash, ToBE, FromBE;
    var n: nat := s[0];
    NumberBack(s[1 + n..5 + n]);
    NumberBack(s[5 + n..9 + n]);
    var m := DataSize(s);
    assert s[..9 + n + m] == [s[0]] + s[1..1 + n] + s[1 + n..5 + n] + s[5 + n..9 + n] + s[9 + n..9 + n + m];
  }

  lemma NumberBack(s: seq<byte>)
    requires |s| == 4
    ensures FromBE(s) < U32_LIMIT && ToBE(4, FromBE(s)) == s
  {
    BigEndianBound(s);
    SpanValues();
    BigEndianRoundTrip(4, FromBE(s));
    BigEndianInjective(ToBE(4, FromBE(s)), s);
  }

  /** `blobSize` is the sum, as long as that is a number of 32 bits; otherwise a multiple of 2^32 is missing. */
  lemma BlobSizeExact(idSize: nat, dataSize: nat)
    ensures 9 + idSize + dataSize < U32_LIMIT ==> BlobSize(idSize, dataSize) == 9 + idSize + dataSize
    ensures exists q: nat :: BlobSize(idSize, dataSize) + U32_LIMIT * q == 9 + idSize + dataSize
  {
    var n := 9 + idSize + dataSize;
    assert BlobSize(idSize, dataSize) + U32_LIMIT * (n / U32_LIMIT) == n;
  }

  /** A record sized by `blobSize` has room for the blob exactly when the sum stays below 2^32. */
  lemma BlobSizeHasRoomExactly(id: seq<byte>, data: seq<byte>)
    ensures OVERHEAD + |id| + |data| <= BlobSize(|id|, |data|) <==> OVERHEAD + |id| + |data| < U32_LIMIT
  {
  }

  /** Filling in the fields in the program's order, checksum last, gives the encoding:
      `p1` to `p4` are where the id, the checksum, the length and the data go. */
  lemma FieldsMakeBlob(f: seq<byte>, p: nat, p1: nat, p2: nat, p3: nat, p4: nat, id: seq<byte>, data: seq<byte>)
    requires |id| <= MAX_ID && |data| < U32_LIMIT
    requires p1 == p + 1 && p2 == p1 + |id| && p3 == p2 + 4 && p4 == p3 + 4 && p4 + |data| <= |f|
    ensures Put(Put(Put(Put(Put(f, p, [|id|]), p1, id), p3, ToBE(4, |data|)), p4, data), p2, ToBE(4, Hash(data)))
      == Put(f, p, Encode(id, data))
  {
    hide Hash, ToBE, Put, Encode;
    EncodeParts(id, data);
    FillFields(f, p, p1, p2, p3, p4, [|id|], id, ToBE(4, Hash(data)), ToBE(4, |data|), data);
  }

  lemma FillFields(f: seq<byte>, p: nat, p1: nat, p2: nat, p3: nat, p4: nat,
                   a: seq<byte>, b: seq<byte>, gap: seq<byte>, c: seq<byte>, d: seq<byte>)
    requires p1 == p + |a| && p2 == p1 + |b| && p3 == p2 + |gap| && p4 == p3 + |c| && p4 + |d| <= |f|
    ensures Put(Put(Put(Put(Put(f, p, a), p1, b), p3, c), p4, d), p2, gap) == Put(f, p, a + b + gap + (c + d))
  {
    PutTwice(f, p, a, b);
    PutTwice(Put(f, p, a + b), p3, c, d);
    FillGap(f, p, a + b, gap, c + d);
  }

  lemma EncodeParts(id: seq<byte>, data: seq<byte>)
    requires |id| <= MAX_ID && |data| < U32_LIMIT
    ensures [|id|] + id + ToBE(4, Hash(data)) + (ToBE(4, |data|) + data) == Encode(id, data)
  {
    hide Hash, ToBE;
  }

  lemma FillGap(f: seq<byte>, p: nat, a: seq<byte>, gap: seq<byte>, b: seq<byte>)
    requires p + |a| + |gap| + |b| <= |f|
    ensures Put(Put(Put(f, p, a), p + |a| + |gap|, b), p + |a|, gap) == Put(f, p, a + gap + b)
  {
    var g, h := Put(Put(Put(f, p, a), p + |a| + |gap|, b), p + |a|, gap), Put(f, p, a + gap + b);
    forall i | 0 <= i < |f| ensures g[i] == h[i] {
    }
  }
}
