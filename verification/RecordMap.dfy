/** The records of the index and the multimap that files them (include/heap_index.h). */
module RecordMap {
  import opened Bytes
  import opened ByteOrder
  import opened Blocks

  class Record {
    var offset: uint64
    var key: uint32
    var size: uint32

    constructor (offset: uint64, key: uint32, size: uint32, toMinSize: bool)
      ensures this.offset == offset && this.key == key
      ensures this.size == if toMinSize then Max(size, MIN_SIZE) else size
    {
      this.offset, this.key := offset, key;
      this.size := Max(size, if toMinSize then MIN_SIZE else 0);
    }

    /** The free record between `lhs` and `rhs`, its size cut to 32 bits; null where the constructor throws,
        because there is no room between them. */
    static method Gap(lhs: Record, rhs: Record) returns (gap: Record?)
      requires lhs.offset + lhs.size < U64_LIMIT
      ensures gap == null <==> lhs.offset + lhs.size >= rhs.offset
      ensures gap != null ==> fresh(gap) && gap.offset == lhs.offset + lhs.size && gap.key == 0
      ensures gap != null ==> gap.size == (rhs.offset - gap.offset) % U32_LIMIT
    {
      if lhs.offset + lhs.size >= rhs.offset {
        return null;
      }
      var end := lhs.offset + lhs.size;
      gap := new Record(end, 0, (rhs.offset - end) % U32_LIMIT, false);
    }

    predicate Same(r: Record)
      reads this, r
    {
      size == r.size && key == r.key && offset == r.offset
    }

    predicate SharesRightBoundaryWith(rhs: Record)
      reads this, rhs
    {
      (offset + size) % U64_LIMIT == rhs.offset
    }

    /** Takes in the neighbour `r`; the sum of the sizes is cut to 32 bits. */
    method Coalesce(r: Record)
      requires SharesRightBoundaryWith(r) || r.SharesRightBoundaryWith(this)
      modifies this
      ensures offset == Min(old(offset), old(r.offset))
      ensures size == (old(size) + old(r.size)) % U32_LIMIT
      ensures key == old(key)
    {
      offset := Min(offset, r.offset);
      size := (size + r.size) % U32_LIMIT;
    }

    method SplitOffLeft(leftSize: uint32) returns (left: Record)
      requires size > leftSize
      modifies this
      ensures fresh(left) && left.offset == old(offset) && left.key == 0 && left.size == leftSize
      ensures offset == (old(offset) + leftSize) % U64_LIMIT && size == old(size) - leftSize
      ensures key == old(key)
    {
      left := new Record(offset, 0, leftSize, false);
      offset := (offset + leftSize) % U64_LIMIT;
      size := size - leftSize;
    }

    /** The three fields, offset first: the sum's operands run from left to right. They are in network order, except
        for the offset on a host that is not configured. */
    method Serialize(host: Host, mem: array<byte>, p: nat) returns (written: nat, next: nat)
      requires p + RECORD_SIZE <= mem.Length
      modifies mem
      ensures written == RECORD_SIZE && next == p + RECORD_SIZE
      ensures host.Configured() ==> mem[..] == Put(old(mem[..]), p, RecordBytes(old(offset), old(key), old(size)))
      ensures !host.Configured() ==>
        mem[..] == Put(old(mem[..]), p,
                       InMemory(host, 8, Htonll(host, old(offset))) + ToBE(4, old(key)) + ToBE(4, old(size)))
    {
      hide InMemory, Htonll, ToBE, Put;
      ghost var before := mem[..];
      ghost var image := if host.Configured() then ToBE(8, offset) else InMemory(host, 8, Htonll(host, offset));
      var q := WriteH2N(host, mem, p, 8, offset);
      var q' := WriteH2N(host, mem, q, 4, key);
      PutTwice(before, p, image, ToBE(4, key));
      next := WriteH2N(host, mem, q', 4, size);
      PutTwice(before, p, image + ToBE(4, key), ToBE(4, size));
      written := 8 + 4 + 4;
    }

    constructor Deserialized(host: Host, mem: array<byte>, p: nat)
      requires p + RECORD_SIZE <= mem.Length
      ensures host.Configured() ==> offset == FromBE(mem[p..p + 8])
      ensures !host.Configured() ==>
        FromMemory(host, mem[p..p + 8]) < U64_LIMIT && offset == Htonll(host, FromMemory(host, mem[p..p + 8]))
      ensures key == FromBE(mem[p + 8..p + 12])
      ensures size == FromBE(mem[p + 12..p + 16])
    {
      hide InMemory, FromMemory, Htonll, FromBE;
      var q, o, k, s;
      SpanValues();
      o, q := ReadN2H(host, mem, p, 8);
      k, q := ReadN2H(host, mem, q, 4);
      s, q := ReadN2H(host, mem, q, 4);
      BigEndianBound(mem[p..p + 8]);
      BigEndianBound(mem[p + 8..p + 12]);
      BigEndianBound(mem[p + 12..p + 16]);
      HtonllBound(host, mem[p..p + 8]);
      offset, key, size := o, k, s;
    }
  }

  datatype Entry = Entry(key: nat, rec: Record)

  ghost predicate KeySorted(m: seq<Entry>) {
    forall i, j :: 0 <= i < j < |m| ==> m[i].key <= m[j].key
  }

  /** The multimap `m` files exactly the records of `w`, each once, under the key that `w` gives it. */
  ghost predicate Files(m: seq<Entry>, w: map<Record, nat>) {
    && KeySorted(m)
    && (forall i, j :: 0 <= i < j < |m| ==> m[i].rec != m[j].rec)
    && (forall i :: 0 <= i < |m| ==> m[i].rec in w && m[i].key == w[m[i].rec])
    && (forall r :: r in w ==> Entry(w[r], r) in m)
  }

  lemma FilesSorted(m: seq<Entry>, w: map<Record, nat>)
    requires Files(m, w)
    ensures KeySorted(m)
  {
  }

  /** `multimap::lower_bound`. */
  method LowerBound(m: seq<Entry>, key: nat) returns (i: nat)
    requires KeySorted(m)
    ensures i <= |m|
    ensures forall j :: 0 <= j < i ==> m[j].key < key
    ensures forall j :: i <= j < |m| ==> m[j].key >= key
  {
    i := 0;
    var hi := |m|;
    while i < hi
      invariant i <= hi <= |m|
      invariant forall j :: 0 <= j < i ==> m[j].key < key
      invariant forall j :: hi <= j < |m| ==> m[j].key >= key
    {
      var mid := (i + hi) / 2;
      if m[mid].key < key {
        i := mid + 1;
      } else {
        hi := mid;
      }
    }
  }

  /** `multimap::equal_range`: exactly the entries with the given key. */
  method EqualRange(m: seq<Entry>, key: nat) returns (first: nat, last: nat)
    requires KeySorted(m)
    ensures first <= last <= |m|
    ensures forall j :: 0 <= j < |m| ==> (first <= j < last <==> m[j].key == key)
    ensures forall j :: last <= j < |m| ==> m[j].key > key
  {
    first := LowerBound(m, key);
    last := LowerBound(m, key + 1);
    assert last < |m| ==> m[last].key > key;
  }

  /** `multimap::insert`: behind the entries with the same key. */
  method Insert(m: seq<Entry>, e: Entry, ghost w: map<Record, nat>) returns (n: seq<Entry>)
    requires Files(m, w) && e.rec !in w
    ensures Files(n, w[e.rec := e.key]) && |n| == |m| + 1
    ensures exists i :: (0 <= i <= |m| && n == m[..i] + [e] + m[i..]
                         && (forall j :: 0 <= j < i ==> m[j].key <= e.key)
                         && (forall j :: i <= j < |m| ==> m[j].key > e.key))
  {
    var i := LowerBound(m, e.key + 1);
    n := m[..i] + [e] + m[i..];
    InsertFiles(m, i, e, w);
  }

  lemma InsertFiles(m: seq<Entry>, i: nat, e: Entry, w: map<Record, nat>)
    requires Files(m, w) && e.rec !in w && i <= |m|
    requires forall j :: 0 <= j < i ==> m[j].key <= e.key
    requires forall j :: i <= j < |m| ==> m[j].key > e.key
    ensures Files(m[..i] + [e] + m[i..], w[e.rec := e.key])
  {
    var n, v := m[..i] + [e] + m[i..], w[e.rec := e.key];
    InsertedSorted(m, i, e);
    forall k | 0 <= k < |n| ensures n[k].rec in v && n[k].key == v[n[k].rec] {
      InsertedMember(m, i, e, n[k]);
    }
    forall r | r in v ensures Entry(v[r], r) in n {
      InsertedMember(m, i, e, Entry(v[r], r));
    }
  }

  lemma InsertedSorted(m: seq<Entry>, i: nat, e: Entry)
    requires KeySorted(m) && i <= |m|
    requires forall j, k :: 0 <= j < k < |m| ==> m[j].rec != m[k].rec
    requires forall j :: 0 <= j < |m| ==> m[j].rec != e.rec
    requires forall j :: 0 <= j < i ==> m[j].key <= e.key
    requires forall j :: i <= j < |m| ==> m[j].key > e.key
    ensures var n := m[..i] + [e] + m[i..];
      KeySorted(n) && forall j, k :: 0 <= j < k < |n| ==> n[j].rec != n[k].rec
  {
    var n := m[..i] + [e] + m[i..];
    assert forall j :: 0 <= j < |n| ==> n[j] == if j < i then m[j] else if j == i then e else m[j - 1];
  }

  /** `multimap::erase` of one entry. */
  lemma ErasedFiles(m: seq<Entry>, k: nat, w: map<Record, nat>)
    requires Files(m, w) && k < |m|
    ensures Files(Without(m, k), w - {m[k].rec})
  {
    var n, v := Without(m, k), w - {m[k].rec};
    assert forall j :: 0 <= j < |n| ==> n[j] == m[if j < k then j else j + 1];
    forall r | r in v ensures Entry(v[r], r) in n {
      KeptMember(m, k, Entry(w[r], r));
    }
  }

  /** `removeIfFree`: takes the record out of the multimap if it is there. */
  method RemoveIfFree(m: seq<Entry>, r: Record, ghost w: map<Record, nat>) returns (found: bool, n: seq<Entry>)
    requires Files(m, w) && (r in w ==> w[r] == r.size)
    ensures found <==> r in w
    ensures Files(n, w - {r})
    ensures !found ==> n == m
    ensures found ==> exists i :: 0 <= i < |m| && m[i].rec == r && n == Without(m, i)
  {
    var first, last := EqualRange(m, r.size);
    for i := first to last
      invariant forall j :: first <= j < i ==> m[j].rec != r
    {
      if m[i].rec == r {
        ErasedFiles(m, i, w);
        return true, Without(m, i);
      }
    }
    assert w - {r} == w;
    return false, m;
  }
}
