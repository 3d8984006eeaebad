/** Byte strings: the flat contents of a file, and big-endian numbers inside it. */
module Bytes {
  type byte = x: int | 0 <= x < 256

  const U32_LIMIT: nat := 0x1_0000_0000
  const U64_LIMIT: nat := 0x1_0000_0000_0000_0000

  type uint32 = x: int | 0 <= x < 0x1_0000_0000
  type uint64 = x: int | 0 <= x < 0x1_0000_0000_0000_0000

  datatype Option<+T> = None | Some(value: T)

  function Max(a: int, b: int): int {
    if a < b then b else a
  }

  function Min(a: int, b: int): int {
    if a < b then a else b
  }

  lemma SplitAt<T>(s: seq<T>, i: nat)
    requires i <= |s|
    ensures s == s[..i] + s[i..]
  {
  }

  lemma SplitAround<T>(s: seq<T>, i: nat)
    requires i < |s|
    ensures s == s[..i] + [s[i]] + s[i + 1..]
  {
  }

  lemma TakeTake<T>(s: seq<T>, n: nat, m: nat)
    requires m <= n <= |s|
    ensures s[..n][..m] == s[..m]
  {
  }

  lemma SliceParts<T>(s: seq<T>, p: nat, q: nat, r: nat, x: seq<T>, y: seq<T>)
    requires p <= q <= r <= |s| && s[p..r] == x + y && |x| == q - p
    ensures s[p..q] == x && s[q..r] == y
  {
    assert s[p..q] == s[p..r][..q - p] && s[q..r] == s[p..r][q - p..];
  }

  lemma SliceOfSlice<T>(s: seq<T>, p: nat, q: nat, i: nat, j: nat)
    requires p <= q <= |s| && i <= j <= q - p
    ensures s[p..q][i..j] == s[p + i..p + j]
  {
    var x, y := s[p..q][i..j], s[p + i..p + j];
    assert |x| == |y| && forall k :: 0 <= k < |x| ==> x[k] == s[p..q][i + k] == y[k];
  }

  /** `s` without element `k`. */
  function Without<T>(s: seq<T>, k: nat): seq<T>
    requires k < |s|
  {
    s[..k] + s[k + 1..]
  }

  lemma KeptMember<T>(s: seq<T>, i: nat, x: T)
    requires i < |s| && x in s && x != s[i]
    ensures x in Without(s, i)
  {
    SplitAround(s, i);
  }

  lemma InsertedMember<T>(s: seq<T>, i: nat, e: T, x: T)
    requires i <= |s|
    ensures x in s[..i] + [e] + s[i..] <==> x in s || x == e
  {
    SplitAt(s, i);
  }

  /** `f` with the bytes at `p` and after replaced by `x`. */
  function Put(f: seq<byte>, p: nat, x: seq<byte>): (g: seq<byte>)
    requires p + |x| <= |f|
    ensures |g| == |f|
  {
    f[..p] + x + f[p + |x|..]
  }

  lemma PutThere(f: seq<byte>, p: nat, x: seq<byte>)
    requires p + |x| <= |f|
    ensures Put(f, p, x)[p..p + |x|] == x
  {
  }

  lemma PutBehind(f: seq<byte>, p: nat, x: seq<byte>, n: nat)
    requires n <= p && p + |x| <= |f|
    ensures Put(f, p, x)[..n] == f[..n]
  {
  }

  lemma PutAll(f: seq<byte>, x: seq<byte>)
    requires |f| == |x|
    ensures Put(f, 0, x) == x
  {
  }

  /** What `ftruncate` does: cut the tail off or append zeros. */
  function Resize(f: seq<byte>, n: nat): (g: seq<byte>)
    ensures |g| == n
    ensures forall i :: 0 <= i < n ==> g[i] == if i < |f| then f[i] else 0
  {
    if n <= |f| then f[..n] else f + seq(n - |f|, _ => 0)
  }

  lemma PutTwice(f: seq<byte>, p: nat, x: seq<byte>, y: seq<byte>)
    requires p + |x| + |y| <= |f|
    ensures Put(Put(f, p, x), p + |x|, y) == Put(f, p, x + y)
  {
    var g, h := Put(Put(f, p, x), p + |x|, y), Put(f, p, x + y);
    assert |g| == |h|;
    forall i | 0 <= i < |f| ensures g[i] == h[i] {
    }
  }

  /** The `w` lowest base-256 digits of `v`, most significant first (network order). */
  function ToBE(w: nat, v: nat): (s: seq<byte>)
    ensures |s| == w
  {
    if w == 0 then [] else ToBE(w - 1, v / 256) + [v % 256]
  }

  function FromBE(s: seq<byte>): nat {
    if s == [] then 0 else FromBE(s[..|s| - 1]) * 256 + s[|s| - 1]
  }

  /** 256 to the power `w`: one more than the largest number of `w` bytes. */
  function Span(w: nat): (n: nat)
    ensures n > 0
  {
    if w == 0 then 1 else 256 * Span(w - 1)
  }

  lemma SpanValues()
    ensures Span(1) == 256
    ensures Span(4) == U32_LIMIT
    ensures Span(8) == U64_LIMIT
  {
    assert Span(2) == 0x1_0000;
    assert Span(3) == 0x100_0000;
    assert Span(4) == 0x1_0000_0000;
    assert Span(5) == 0x100_0000_0000;
    assert Span(6) == 0x1_0000_0000_0000;
    assert Span(7) == 0x100_0000_0000_0000;
  }

  lemma DivideTwice(v: nat, n: nat)
    requires n > 0
    ensures (v / 256) / n == v / (256 * n)
  {
    var q, r := v / 256, v % 256;
    var a, b := q / n, q % n;
    assert q == n * a + b;
    assert v == (256 * n) * a + (256 * b + r) by {
      assert 256 * (n * a) == (256 * n) * a;
    }
    assert 256 * b + r < 256 * n;
    QuotientIs(v, 256 * n, a, 256 * b + r);
  }

  lemma NotBetween(n: int, d: int)
    requires n > 0
    ensures d > 0 ==> n * d >= n
    ensures d < 0 ==> n * d <= -n
  {
  }

  lemma QuotientIs(v: nat, d: nat, a: nat, r: nat)
    requires r < d && v == d * a + r
    ensures v / d == a
  {
    var k := v / d - a;
    assert d * k == r - v % d by {
      assert d * (v / d) - d * a == d * k;
    }
    NotBetween(d, k);
  }

  /** The bytes of a number in network order, one by one. */
  lemma {:induction false} BigEndianDigit(w: nat, v: nat, i: nat)
    requires i < w
    ensures ToBE(w, v)[i] == v / Span(w - 1 - i) % 256
  {
    if i == w - 1 {
    } else {
      BigEndianDigit(w - 1, v / 256, i);
      DivideTwice(v, Span(w - 2 - i));
    }
  }

  lemma {:induction false} BigEndianRoundTrip(w: nat, v: nat)
    requires v < Span(w)
    ensures FromBE(ToBE(w, v)) == v
  {
    if w == 0 {
    } else {
      BigEndianRoundTrip(w - 1, v / 256);
      assert ToBE(w, v)[..w - 1] == ToBE(w - 1, v / 256);
    }
  }

  lemma {:induction false} BigEndianInjective(s: seq<byte>, t: seq<byte>)
    requires |s| == |t| && FromBE(s) == FromBE(t)
    ensures s == t
  {
    if s == [] {
    } else {
      var n := |s| - 1;
      BigEndianInjective(s[..n], t[..n]);
      assert s == s[..n] + [s[n]] && t == t[..n] + [t[n]];
    }
  }

  lemma {:induction false} BigEndianBound(s: seq<byte>)
    ensures FromBE(s) < Span(|s|)
  {
    if s == [] {
    } else {
      BigEndianBound(s[..|s| - 1]);
    }
  }
}
