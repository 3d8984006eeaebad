/** include/byte_order.h and src/byte_order.cpp: numbers in network order, whatever the host's own order. */
module ByteOrder {
  import opened Bytes

  /** How a host lays out an integer in memory. */
  datatype Order = LittleEndian | BigEndian

  /** A host as the program sees it: its byte order, and whether its compiler defines `__LITTLE_ENDIAN__`. */
  datatype Host = Host(order: Order, littleDefined: bool) {
    /** The macro tells the truth. Not every compiler for a little-endian host defines it. */
    predicate Configured() {
      littleDefined <==> order == LittleEndian
    }
  }

  function ToLE(w: nat, v: nat): (s: seq<byte>)
    ensures |s| == w
  {
    if w == 0 then [] else [v % 256] + ToLE(w - 1, v / 256)
  }

  function FromLE(s: seq<byte>): nat {
    if s == [] then 0 else s[0] + 256 * FromLE(s[1..])
  }

  /** The bytes of a `w`-byte integer variable holding `v`. */
  function InMemory(host: Host, w: nat, v: nat): (s: seq<byte>)
    ensures |s| == w
  {
    if host.order == LittleEndian then ToLE(w, v) else ToBE(w, v)
  }

  /** The value of a `w`-byte integer variable whose bytes are `s`. */
  function FromMemory(host: Host, s: seq<byte>): nat {
    if host.order == LittleEndian then FromLE(s) else FromBE(s)
  }

  /** The `w` base-256 digits of `v` in reverse order: what `htons` and `htonl` do on a little-endian host. */
  function Swapped(w: nat, v: nat): nat {
    if w == 0 then 0 else (v % 256) * Span(w - 1) + Swapped(w - 1, v / 256)
  }

  /** `htons` and `htonl`, which the system adapts to the host. */
  function Hton(host: Host, w: nat, v: nat): nat {
    if host.order == LittleEndian then Swapped(w, v) else v
  }

  /** src/byte_order.cpp: where the macro is defined, each half goes through `htonl`, and the halves change places.
      The or-ed parts have no bit in common, so the or is a sum. */
  function Htonll(host: Host, ll: uint64): nat {
    if host.littleDefined
    then Hton(host, 4, ll % U32_LIMIT) * U32_LIMIT + Hton(host, 4, ll / U32_LIMIT)
    else ll
  }

  /** `h2n` and `n2h` on a number of `w` bytes: the two are the same function. */
  function H2N(host: Host, w: nat, v: nat): nat
    requires w == 8 ==> v < U64_LIMIT
  {
    if w == 8 then Htonll(host, v) else Hton(host, w, v)
  }

  lemma SpanSum(m: nat, n: nat)
    ensures Span(m + n) == Span(m) * Span(n)
  {
    if m == 0 {
    } else {
      SpanSum(m - 1, n);
      assert Span(m + n) == 256 * Span(m + n - 1);
    }
  }

  lemma DivSplit(m: nat, a: nat, b: nat)
    requires m > 0
    ensures (a * Span(m) + b) % 256 == b % 256
    ensures (a * Span(m) + b) / 256 == a * Span(m - 1) + b / 256
  {
    var k := a * Span(m - 1);
    assert a * Span(m) == 256 * k;
    assert (256 * k + b) / 256 == k + b / 256;
  }

  lemma {:induction false} SwappedHalves(m: nat, n: nat, a: nat, b: nat)
    requires b < Span(m)
    ensures Swapped(m + n, a * Span(m) + b) == Swapped(m, b) * Span(n) + Swapped(n, a)
  {
    if m == 0 {
    } else {
      DivSplit(m, a, b);
      SwappedHalves(m - 1, n, a, b / 256);
      SpanSum(m - 1, n);
      Regroup(b % 256, Span(m - 1), Span(n), Swapped(m - 1, b / 256));
    }
  }

  lemma Regroup(d: nat, s: nat, t: nat, r: nat)
    ensures d * (s * t) + r * t == (d * s + r) * t
  {
    assert d * (s * t) == (d * s) * t;
  }

  /** On a little-endian host that says so, `htonll` reverses all eight bytes, as `htonl` reverses four. */
  lemma HtonllReverses(host: Host, ll: uint64)
    requires host == Host(LittleEndian, true)
    ensures Htonll(host, ll) == Swapped(8, ll)
  {
    SpanValues();
    SwappedHalves(4, 4, ll / U32_LIMIT, ll % U32_LIMIT);
  }

  lemma {:induction false} LittleEndianTop(w: nat, a: nat, b: nat)
    requires b < Span(w) && a < 256
    ensures ToLE(w + 1, a * Span(w) + b) == ToLE(w, b) + [a]
  {
    if w == 0 {
    } else {
      DivSplit(w, a, b);
      LittleEndianTop(w - 1, a, b / 256);
    }
  }

  lemma ScaleBound(d: nat, s: nat)
    requires d < 256
    ensures d * s <= 255 * s
  {
  }

  lemma {:induction false} SwappedBound(w: nat, v: nat)
    ensures Swapped(w, v) < Span(w)
  {
    if w == 0 {
    } else {
      SwappedBound(w - 1, v / 256);
      ScaleBound(v % 256, Span(w - 1));
    }
  }

  lemma {:induction false} SwappedInMemory(w: nat, v: nat)
    ensures ToLE(w, Swapped(w, v)) == ToBE(w, v)
  {
    if w == 0 {
    } else {
      SwappedInMemory(w - 1, v / 256);
      SwappedBound(w - 1, v / 256);
      LittleEndianTop(w - 1, v % 256, Swapped(w - 1, v / 256));
    }
  }

  lemma ShiftSum(x: nat, t: nat, r: nat, d: nat)
    ensures (x * t + r) * 256 + d == x * (256 * t) + (r * 256 + d)
  {
    assert x * (256 * t) == (x * t) * 256;
  }

  lemma {:induction false} BigEndianFirst(s: seq<byte>)
    requires s != []
    ensures FromBE(s) == s[0] * Span(|s| - 1) + FromBE(s[1..])
  {
    var n := |s| - 1;
    if n == 0 {
    } else {
      BigEndianFirst(s[..n]);
      assert s[..n][1..] == s[1..][..n - 1] && s[1..][n - 1] == s[n];
      ShiftSum(s[0], Span(n - 1), FromBE(s[..n][1..]), s[n]);
    }
  }

  lemma {:induction false} SwappedFromMemory(s: seq<byte>)
    ensures Swapped(|s|, FromLE(s)) == FromBE(s)
  {
    if s == [] {
    } else {
      SwappedFromMemory(s[1..]);
      BigEndianFirst(s);
      var d, r := s[0], FromLE(s[1..]);
      assert (d + 256 * r) % 256 == d && (d + 256 * r) / 256 == r;
    }
  }

  /** The memory image of `h2n(v)` is `v` in big-endian order, on every host for numbers of other sizes
      than eight bytes, and on every configured host for those. */
  lemma NetworkOrder(host: Host, w: nat, v: nat)
    requires w == 8 ==> v < U64_LIMIT && host.Configured()
    ensures InMemory(host, w, H2N(host, w, v)) == ToBE(w, v)
  {
    if host.order == LittleEndian {
      SwappedInMemory(w, v);
      if w == 8 {
        HtonllReverses(host, v);
      }
    }
  }

  /** Likewise, `n2h` of a variable read from the bytes `s` is the big-endian number in `s`. */
  lemma HostOrder(host: Host, s: seq<byte>)
    requires |s| == 8 ==> host.Configured()
    ensures |s| == 8 ==> FromMemory(host, s) < U64_LIMIT
    ensures H2N(host, |s|, FromMemory(host, s)) == FromBE(s)
  {
    BigEndianBound(s);
    SpanValues();
    if host.order == LittleEndian {
      SwappedFromMemory(s);
      LittleEndianBound(s);
      if |s| == 8 {
        HtonllReverses(host, FromLE(s));
      }
    }
  }

  /** Eight-byte numbers go out in network order exactly on the configured hosts: where the macro is missing on a
      little-endian host, or defined on a big-endian one, the number 1 goes out wrong. */
  lemma NetworkOrderExactlyWhenConfigured(host: Host)
    ensures (forall v: uint64 :: InMemory(host, 8, Htonll(host, v)) == ToBE(8, v)) <==> host.Configured()
  {
    if host.Configured() {
      forall v: uint64 ensures InMemory(host, 8, Htonll(host, v)) == ToBE(8, v) {
        NetworkOrder(host, 8, v);
      }
    } else {
      OneGoesOutWrong(host);
    }
  }

  lemma OneGoesOutWrong(host: Host)
    requires !host.Configured()
    ensures InMemory(host, 8, Htonll(host, 1)) != ToBE(8, 1)
  {
    assert ToBE(8, 1)[7] == 1;
    if host.order == LittleEndian {
      LastDigitOfOne(8);
      assert Htonll(host, 1) == 1;
    } else {
      assert Htonll(host, 1) == U32_LIMIT;
      assert ToBE(8, U32_LIMIT)[7] == 0;
    }
  }

  lemma LastDigitOfOne(w: nat)
    requires w > 1
    ensures ToLE(w, 1)[w - 1] == 0
  {
    ZerosOfZero(w - 1);
    assert ToLE(w, 1) == [1] + ToLE(w - 1, 0);
  }

  lemma {:induction false} ZerosOfZero(w: nat)
    ensures forall i :: 0 <= i < w ==> ToLE(w, 0)[i] == 0
  {
    if w == 0 {
    } else {
      ZerosOfZero(w - 1);
    }
  }

  /** What a host has written it reads back itself, configured or not. */
  lemma SameHostRoundTrip(host: Host, w: nat, v: nat)
    requires v < Span(w)
    ensures w == 8 ==> v < U64_LIMIT && FromMemory(host, InMemory(host, w, H2N(host, w, v))) < U64_LIMIT
    ensures H2N(host, w, FromMemory(host, InMemory(host, w, H2N(host, w, v)))) == v
  {
    SpanValues();
    var u := H2N(host, w, v);
    H2NTwice(host, w, v);
    if host.order == LittleEndian {
      LittleEndianRoundTrip(w, u);
    } else {
      BigEndianRoundTrip(w, u);
    }
  }

  lemma H2NTwice(host: Host, w: nat, v: nat)
    requires v < Span(w)
    ensures w == 8 ==> v < U64_LIMIT
    ensures H2N(host, w, v) < Span(w)
    ensures H2N(host, w, H2N(host, w, v)) == v
  {
    hide Swapped, Span, Htonll;
    SpanValues();
    if w == 8 {
      HtonllTwice(host, v);
    } else {
      SwappedTwice(w, v);
    }
  }

  lemma HalvesOf(a: uint32, b: uint32)
    ensures (a * U32_LIMIT + b) / U32_LIMIT == a && (a * U32_LIMIT + b) % U32_LIMIT == b
  {
  }

  lemma HtonllTwice(host: Host, ll: uint64)
    ensures Htonll(host, ll) < U64_LIMIT
    ensures Htonll(host, Htonll(host, ll)) == ll
  {
    hide Swapped, Span;
    SpanValues();
    if host.littleDefined {
      if host.order == LittleEndian {
        hide Htonll;
        SwappedTwice(8, ll);
        HtonllReverses(host, ll);
        HtonllReverses(host, Swapped(8, ll));
      } else {
        HalvesOf(ll % U32_LIMIT, ll / U32_LIMIT);
      }
    }
  }

  lemma SwappedTwice(w: nat, v: nat)
    requires v < Span(w)
    ensures Swapped(w, v) < Span(w)
    ensures Swapped(w, Swapped(w, v)) == v
  {
    SwappedBound(w, v);
    SwappedInMemory(w, v);
    LittleEndianRoundTrip(w, Swapped(w, v));
    SwappedFromMemory(ToBE(w, v));
    BigEndianRoundTrip(w, v);
  }

  lemma {:induction false} LittleEndianRoundTrip(w: nat, v: nat)
    requires v < Span(w)
    ensures FromLE(ToLE(w, v)) == v
  {
    if w == 0 {
    } else {
      LittleEndianRoundTrip(w - 1, v / 256);
      assert ToLE(w, v)[1..] == ToLE(w - 1, v / 256);
    }
  }

  lemma {:induction false} LittleEndianBound(s: seq<byte>)
    ensures FromLE(s) < Span(|s|)
  {
    if s == [] {
    } else {
      LittleEndianBound(s[1..]);
    }
  }

  lemma MemoryBound(host: Host, s: seq<byte>)
    ensures FromMemory(host, s) < Span(|s|)
    ensures |s| == 8 ==> FromMemory(host, s) < U64_LIMIT
  {
    SpanValues();
    LittleEndianBound(s);
    BigEndianBound(s);
  }

  lemma HtonllBound(host: Host, s: seq<byte>)
    requires |s| == 8
    ensures FromMemory(host, s) < U64_LIMIT && Htonll(host, FromMemory(host, s)) < U64_LIMIT
  {
    MemoryBound(host, s);
    HtonllTwice(host, FromMemory(host, s));
  }

  /** `writeH2N`: stores `v` at `p` and moves `p` on; in network order, except for eight bytes on a host that is
      not configured. */
  method WriteH2N(host: Host, mem: array<byte>, p: nat, w: nat, v: nat) returns (next: nat)
    requires p + w <= mem.Length
    requires w == 8 ==> v < U64_LIMIT
    modifies mem
    ensures next == p + w
    ensures w != 8 || host.Configured() ==> mem[..] == Put(old(mem[..]), p, ToBE(w, v))
    ensures w == 8 && !host.Configured() ==> mem[..] == Put(old(mem[..]), p, InMemory(host, w, Htonll(host, v)))
  {
    var image := InMemory(host, w, H2N(host, w, v));
    if w != 8 || host.Configured() {
      NetworkOrder(host, w, v);
    }
    for i := 0 to w
      invariant forall k :: 0 <= k < mem.Length ==>
        mem[k] == if p <= k < p + i then image[k - p] else old(mem[k])
    {
      mem[p + i] := image[i];
    }
    next := p + w;
  }

  /** `readN2H`: the number stored at `p`; in network order, with the same exception. */
  method ReadN2H(host: Host, mem: array<byte>, p: nat, w: nat) returns (v: nat, next: nat)
    requires p + w <= mem.Length
    ensures next == p + w
    ensures w != 8 || host.Configured() ==> v == FromBE(mem[p..p + w])
    ensures w == 8 && !host.Configured() ==>
      FromMemory(host, mem[p..p + w]) < U64_LIMIT && v == Htonll(host, FromMemory(host, mem[p..p + w]))
  {
    MemoryBound(host, mem[p..p + w]);
    if w != 8 || host.Configured() {
      HostOrder(host, mem[p..p + w]);
    }
    v := H2N(host, w, FromMemory(host, mem[p..p + w]));
    next := p + w;
  }
}
