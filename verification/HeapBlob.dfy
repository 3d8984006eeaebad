/** src/heap_blob.cpp: reading and writing one blob through a pointer into the mapped file. */
module HeapBlob {
  import opened Bytes
  import opened ByteOrder
  import opened SimpleEncrypt
  import opened BlobFormat
  import opened RecordMap

  /** The accumulator loop of `hash`, in 32 bits. */
  method ComputeHash(mem: array<byte>, p: nat, size: nat) returns (h: uint32)
    requires p + size <= mem.Length
    ensures h == Hash(mem[p..p + size])
  {
    hide Xor;
    h := 5381;
    for i := 0 to size
      invariant h == Hash(mem[p..p + i])
    {
      HashGrows(mem[p..p + i], mem[p + i]);
      assert mem[p..p + i] + [mem[p + i]] == mem[p..p + (i + 1)];
      var shifted := h * 32 % U32_LIMIT;
      h := XorLow((shifted + h) % U32_LIMIT, mem[p + i]);
    }
  }

  /** `std::copy` into the mapped file. */
  method Copy(src: array<byte>, mem: array<byte>, p: nat) returns (next: nat)
    requires src != mem && p + src.Length <= mem.Length
    modifies mem
    ensures next == p + src.Length
    ensures mem[..] == Put(old(mem[..]), p, src[..])
  {
    for i := 0 to src.Length
      invariant forall j :: 0 <= j < mem.Length ==>
        mem[j] == if p <= j < p + i then src[j - p] else old(mem[j])
    {
      mem[p + i] := src[i];
    }
    next := p + src.Length;
  }

  lemma Inside(mem: array<byte>, at: nat, size: nat, i: nat, j: nat, p: nat, q: nat)
    requires at + size <= mem.Length && i <= j <= size && p == at + i && q == at + j
    ensures mem[at..at + size][i..j] == mem[p..q]
  {
    var x, y := mem[at..at + size][i..j], mem[p..q];
    assert |x| == |y| && forall k :: 0 <= k < |x| ==> x[k] == y[k];
  }

  lemma FramedFits(s: seq<byte>)
    requires Framed(s)
    ensures s != [] && s[0] + OVERHEAD <= |s|
  {
  }

  lemma FirstByte(mem: array<byte>, at: nat, size: nat)
    requires 1 <= size && at + size <= mem.Length
    ensures mem[at..at + 1] == [mem[at]] && mem[at..at + size][0] == mem[at]
  {
  }

  /** The fields of a record's bytes `s`, by position. */
  lemma FieldsAt(s: seq<byte>, idSize: nat)
    requires s != [] && idSize == s[0]
    ensures idSize + OVERHEAD > |s| ==> !Sized(s)
    ensures idSize + OVERHEAD <= |s| ==>
      && Framed(s)
      && StoredHash(s) == FromBE(s[1 + idSize..5 + idSize])
      && DataSize(s) == FromBE(s[5 + idSize..9 + idSize])
      && (Sized(s) <==> DataSize(s) <= |s| - OVERHEAD - idSize)
      && (Sized(s) ==> DataOf(s) == s[9 + idSize..9 + idSize + DataSize(s)])
  {
  }

  /** The answer of `hasId` for a record of `size` bytes at the front of the memory `m`. */
  predicate FindsId(m: seq<byte>, size: nat, id: seq<byte>)
    requires 1 <= size <= |m|
  {
    |id| == m[0] && m[0] <= size && 1 + |id| <= |m| && id == m[1..1 + |id|]
  }

  /** The record's own bytes `s` leave the answer open: the loop asks for one more. */
  predicate AsksBehind(s: seq<byte>, id: seq<byte>) {
    s != [] && |id| == s[0] == |s| && s[1..] == id[..|s| - 1]
  }

  /** The answer is settled by the record's bytes, whatever follows them, exactly when the loop does not ask
      for the byte behind the record. */
  lemma AnswerIsInTheRecordExactly(s: seq<byte>, id: seq<byte>)
    requires s != []
    ensures (forall b: byte, c: byte :: FindsId(s + [b], |s|, id) == FindsId(s + [c], |s|, id)) <==> !AsksBehind(s, id)
  {
    if AsksBehind(s, id) {
      var n := |s|;
      var b: byte := id[n - 1];
      var c: byte := if b == 0 then 1 else 0;
      assert (s + [b])[1..1 + |id|] == s[1..] + [b] == id[..n - 1] + [b] == id;
      assert (s + [c])[1..1 + |id|][n - 1] == c;
      assert FindsId(s + [b], n, id) && !FindsId(s + [c], n, id);
    } else {
      forall b: byte, c: byte ensures FindsId(s + [b], |s|, id) == FindsId(s + [c], |s|, id) {
        NextByteDoesNotMatter(s, id, b);
        NextByteDoesNotMatter(s, id, c);
      }
    }
  }

  lemma NextByteDoesNotMatter(s: seq<byte>, id: seq<byte>, b: byte)
    requires s != [] && !AsksBehind(s, id)
    ensures FindsId(s + [b], |s|, id) <==> |id| == s[0] && |id| < |s| && id == s[1..1 + |id|]
  {
    var m := s + [b];
    if |id| == s[0] {
      if |id| == |s| {
        assert m[1..1 + |id|][..|s| - 1] == s[1..];
      } else if |id| < |s| {
        assert forall k :: 0 <= k < |s| ==> m[k] == s[k];
        assert m[1..1 + |id|] == s[1..1 + |id|];
      }
    }
  }

  class Blob {
    const host: Host
    const rec: Record
    const mem: array?<byte>   // null for a blob that is nil
    const at: nat             // where the record's bytes start in `mem`
    ghost const end: nat      // where the mapped bytes of `mem` end

    constructor (host: Host, rec: Record, mem: array<byte>, at: nat, ghost end: nat)
      ensures this.host == host && this.rec == rec && this.mem == mem && this.at == at && this.end == end
    {
      this.host, this.rec, this.mem, this.at := host, rec, mem, at;
      this.end := end;
    }

    constructor Nil(host: Host)
      ensures IsNil() && fresh(rec)
    {
      this.host, mem, at := host, null, 0;
      end := 0;
      rec := new Record(0, 0, 0, false);
    }

    predicate IsNil() {
      mem == null
    }

    /** The record lies inside the mapped bytes. */
    ghost predicate InBounds()
      reads rec
    {
      mem != null ==> rec.size >= 1 && at + rec.size <= end <= mem.Length
    }

    /** The `n` bytes from `p` on may be looked at: they lie behind the start of the record and are mapped. */
    ghost predicate Mapped(p: nat, n: nat) {
      mem != null && at <= p && p + n <= end <= mem.Length
    }

    /** They may be changed, too: they belong to the record. */
    ghost predicate Owned(p: nat, n: nat)
      reads rec
    {
      Mapped(p, n) && p + n <= at + rec.size
    }

    function Slot(): seq<byte>
      requires mem != null && at + rec.size <= mem.Length
      reads rec, mem
    {
      mem[at..at + rec.size]
    }

    /** The comparison of ids. Only when length byte, record size and the length of the id are equal and all bytes
        but the last one match does it look at the byte behind the record: that one has to be mapped then. */
    method HasId(id: array<byte>) returns (same: bool)
      requires InBounds()
      requires mem != null && AsksBehind(Slot(), id[..]) ==> at + rec.size < end
      ensures same <==> mem != null && FindsId(mem[at..], rec.size, id[..])
    {
      hide FromMemory, Htonll;
      if mem == null {
        return false;
      }
      BigEndianByte(mem[at]);
      assert mem[at..at + 1] == [mem[at]];
      assert Mapped(at, 1);
      var idSize, p := ReadN2H(host, mem, at, 1);
      if id.Length != idSize || idSize > rec.size {
        return false;
      }
      for i := 0 to idSize
        invariant forall j :: 0 <= j < i ==> p + j < mem.Length && id[j] == mem[p + j]
      {
        if i == rec.size - 1 {
          assert Slot()[1..] == id[..][..|Slot()| - 1];
        }
        assert Mapped(p + i, 1);
        if id[i] != mem[p + i] {
          assert id[..][i] == id[i];
          return false;
        }
      }
      return true;
    }

    /** The fields before the data, except for the checksum, whose place is left as it is. */
    method WriteFields(mem: array<byte>, id: array<byte>, dataSize: nat) returns (hashPtr: nat, p: nat)
      requires this.mem == mem && InBounds() && id != mem && id.Length <= MAX_ID && dataSize < U32_LIMIT
      requires OVERHEAD + id.Length + dataSize <= rec.size
      modifies mem
      ensures hashPtr == at + 1 + id.Length && p == hashPtr + 8
      ensures mem[..]
        == Put(Put(Put(old(mem[..]), at, [id.Length]), at + 1, id[..]), hashPtr + 4, ToBE(4, dataSize))
    {
      hide Put, ToBE;
      OneByte(id.Length);
      assert Owned(at, 1);
      var p1 := WriteH2N(host, mem, at, 1, id.Length);
      assert Owned(p1, id.Length);
      hashPtr := Copy(id, mem, p1);
      assert Owned(hashPtr + 4, 4);
      p := WriteH2N(host, mem, hashPtr + 4, 4, dataSize);
    }

    /** Writes id, length and encrypted data, and the checksum last; nothing outside the record changes.
        An id longer than 255 bytes is refused before anything is written. A blob that does not fit is not refused:
        the program asserts that it fits, and is aborted. The writer tells its size in 32 bits. */
    method WriteData(id: array<byte>, data: array<byte>, cipher: Simple) returns (ok: bool, aborted: bool)
      requires mem != null && InBounds() && id != mem && data != mem && cipher.Valid()
      requires data.Length < U32_LIMIT
      modifies mem
      ensures aborted <==> OVERHEAD + id.Length + data.Length > rec.size
      ensures ok <==> !aborted && id.Length <= MAX_ID
      ensures ok ==> at + OVERHEAD + id.Length + data.Length <= mem.Length
      ensures ok ==> mem[..] == Put(old(mem[..]), at, Encode(id[..], Cipher(cipher.key, data[..])))
      ensures !ok ==> mem[..] == old(mem[..])
    {
      hide Put, Hash, Cipher, ToBE, Encode;
      if OVERHEAD + id.Length + data.Length > rec.size {
        return false, true;
      }
      if id.Length > MAX_ID {
        return false, false;
      }
      ghost var f, payload := mem[..], Cipher(cipher.key, data[..]);
      var hashPtr, p := WriteFields(mem, id, data.Length);
      ghost var f' := mem[..];
      assert data[0..data.Length] == data[..];
      assert Owned(p, data.Length);
      var ok' := cipher.Encrypt(data, 0, mem, p, data.Length);
      PutThere(f', p, payload);
      var h := ComputeHash(mem, p, data.Length);
      assert mem[p..p + data.Length] == mem[..][p..p + data.Length];
      assert Owned(hashPtr, 4);
      var next := WriteH2N(host, mem, hashPtr, 4, h);
      FieldsMakeBlob(f, at, at + 1, hashPtr, hashPtr + 4, p, id[..], payload);
      return true, false;
    }

    /** Walks the cursor over the fixed fields and the id, checking the lengths on the way. */
    method ReadFields(mem: array<byte>, ghost s: seq<byte>)
      returns (sized: bool, storedHash: nat, dataSize: nat, p: nat)
      requires this.mem == mem && InBounds() && s == mem[at..at + rec.size]
      ensures sized <==> Sized(s)
      ensures sized ==> storedHash == StoredHash(s) && dataSize == DataSize(s)
      ensures sized ==> Mapped(p, dataSize) && mem[p..p + dataSize] == DataOf(s)
    {
      hide Hash, FromBE, Sized, Framed, StoredHash, DataSize, DataOf;
      var recSize := rec.size;
      BigEndianByte(mem[at]);
      FirstByte(mem, at, recSize);
      FieldsAt(s, mem[at]);
      dataSize, storedHash := 0, 0;
      var keySize;
      assert Mapped(at, 1);
      keySize, p := ReadN2H(host, mem, at, 1);
      if keySize + OVERHEAD > recSize {
        sized := false;
        return;
      }
      sized, storedHash, dataSize, p := ReadSizes(mem, s, p + keySize);
    }

    method ReadSizes(mem: array<byte>, ghost s: seq<byte>, cursor: nat)
      returns (sized: bool, storedHash: nat, dataSize: nat, p: nat)
      requires this.mem == mem && InBounds() && s == mem[at..at + rec.size]
      requires Framed(s) && cursor == at + 1 + s[0]
      ensures sized <==> Sized(s)
      ensures storedHash == StoredHash(s) && dataSize == DataSize(s)
      ensures sized ==> Mapped(p, dataSize) && mem[p..p + dataSize] == DataOf(s)
    {
      hide Hash, FromBE, FromMemory, Htonll, Sized, Framed, StoredHash, DataSize, DataOf;
      FieldsAt(s, s[0]);
      FramedFits(s);
      ghost var n := s[0];
      Inside(mem, at, rec.size, 1 + n, 5 + n, cursor, cursor + 4);
      Inside(mem, at, rec.size, 5 + n, 9 + n, cursor + 4, cursor + 8);
      assert Mapped(cursor, 8);
      storedHash, p := ReadN2H(host, mem, cursor, 4);
      dataSize, p := ReadN2H(host, mem, p, 4);
      sized := dataSize <= rec.size - OVERHEAD - (cursor - at - 1);
      if sized {
        Inside(mem, at, rec.size, 9 + n, 9 + n + dataSize, p, p + dataSize);
      }
    }

    /** Hands the data to a reader that decrypts it, if the lengths and the checksum are consistent.
        The result is null, and no reader is called, if they are not. */
    method GetData(cipher: Simple) returns (data: array?<byte>)
      requires InBounds() && cipher.Valid()
      ensures data != null <==> mem != null && Intact(Slot())
      ensures data != null ==> fresh(data) && data[..] == Cipher(cipher.key, DataOf(Slot()))
    {
      hide Hash, Cipher, Put, FromBE, Sized, DataOf, StoredHash;
      if IsNil() {
        return null;
      }
      var sized, storedHash, dataSize, p := ReadFields(mem, Slot());
      if !sized {
        return null;
      }
      var h := ComputeHash(mem, p, dataSize);
      if h != storedHash {
        return null;
      }
      data := new byte[dataSize];
      PutAll(data[..], Cipher(cipher.key, mem[p..p + dataSize]));
      var ok := cipher.Encrypt(mem, p, data, 0, dataSize);
    }
  }

  /** Documented is that a blob that is too big for the record is refused. A byte in a record of nine bytes, which
      just has room for an empty blob, aborts the program instead. */
  method OneByteTooMany(host: Host) returns (ok: bool, aborted: bool)
    ensures aborted
  {
    var rec := new Record(0, 0, OVERHEAD, false);
    var mem, id, data := new byte[OVERHEAD], new byte[0], new byte[1];
    var cipher := new Simple([]);
    var b := new Blob(host, rec, mem, 0, OVERHEAD);
    ok, aborted := b.WriteData(id, data, cipher);
  }

  lemma BigEndianByte(b: byte)
    ensures FromBE([b]) == b
  {
    assert [b][..0] == [];
  }

  lemma OneByte(n: nat)
    requires n <= MAX_ID
    ensures ToBE(1, n) == [n]
  {
    assert ToBE(0, n / 256) == [];
  }
}
