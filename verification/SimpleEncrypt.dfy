/** include/simple_encrypt.h and src/simple_encrypt.cpp: exclusive-or with a repeated key. */
module SimpleEncrypt {
  import opened Bytes

  function XorBits(a: bv8, b: bv8): bv8 {
    a ^ b
  }

  function Xor(a: byte, b: byte): byte {
    XorBits(a as bv8, b as bv8) as byte
  }

  lemma XorBitsTwice(a: bv8, b: bv8)
    ensures XorBits(XorBits(a, b), b) == a
  {
  }

  lemma ByteToBits(a: int)
    requires 0 <= a < 256
    ensures (a as bv8) as int == a
  {
    if a < 32 {
    } else if a < 64 {
    } else if a < 96 {
    } else if a < 128 {
    } else if a < 192 {
    } else {
    }
  }

  lemma BitsToByte(z: bv8)
    ensures (z as byte) as bv8 == z
  {
  }

  lemma XorTwice(a: byte, b: byte)
    ensures Xor(Xor(a, b), b) == a
  {
    var x: bv8, y: bv8 := a as bv8, b as bv8;
    var z: bv8 := XorBits(x, y);
    ByteToBits(a);
    BitsToByte(z);
    calc {
      Xor(Xor(a, b), b);
      XorBits((z as byte) as bv8, y) as byte;
      XorBits(z, y) as byte;
      { XorBitsTwice(x, y); }
      x as byte;
      a;
    }
  }

  lemma XorZero(a: byte)
    ensures Xor(a, 0) == a
  {
    ByteToBits(a);
    assert (0 as byte) as bv8 == 0;
    assert forall x: bv8 :: XorBits(x, 0) == x;
  }

  lemma XorOfZero(b: byte)
    ensures Xor(0, b) == b
  {
    ByteToBits(b);
    assert (0 as byte) as bv8 == 0;
    assert forall x: bv8 :: XorBits(0, x) == x;
  }

  lemma XorSelf(a: byte)
    ensures Xor(a, a) == 0
  {
    assert forall x: bv8 :: XorBits(x, x) == 0;
  }

  /** The exclusive-or of a cipher byte and its clear byte is the key byte. */
  lemma XorGivesTheOther(a: byte, b: byte)
    ensures Xor(Xor(a, b), a) == b
  {
    var x: bv8, y: bv8 := a as bv8, b as bv8;
    var z: bv8 := XorBits(x, y);
    ByteToBits(b);
    BitsToByte(z);
    assert XorBits(z, x) == y;
  }

  /** Each bit of the exclusive-or, picked out by the mask `m`, says whether the bits of the operands differ. */
  lemma XorIsBitwise(a: bv8, b: bv8, m: bv8)
    requires m & (m - 1) == 0
    ensures XorBits(a, b) & m != 0 <==> (a & m != 0) != (b & m != 0)
  {
  }

  /** The constructor's key: an empty key becomes a single zero. */
  function EffectiveKey(key: seq<byte>): (k: seq<byte>)
    ensures k != []
  {
    if key == [] then [0] else key
  }

  /** `s` under the cyclic key `k`: encryption and decryption are the same function. */
  function Cipher(k: seq<byte>, s: seq<byte>): (t: seq<byte>)
    requires k != []
    ensures |t| == |s|
  {
    seq(|s|, i requires 0 <= i < |s| => Xor(s[i], k[i % |k|]))
  }

  lemma CipherAt(k: seq<byte>, s: seq<byte>, i: nat)
    requires k != [] && i < |s|
    ensures Cipher(k, s)[i] == Xor(s[i], k[i % |k|])
  {
  }

  /** Decryption undoes encryption. */
  lemma CipherInvolution(k: seq<byte>, s: seq<byte>)
    requires k != []
    ensures Cipher(k, Cipher(k, s)) == s
  {
    var t := Cipher(k, s);
    forall i | 0 <= i < |s| ensures Cipher(k, t)[i] == s[i] {
      XorTwice(s[i], k[i % |k|]);
    }
  }

  /** Every position has a key byte of its own, and the key starts again behind its end: what is known in clear
      gives away the key at that place. */
  lemma KnownTextShowsTheKey(k: seq<byte>, s: seq<byte>, i: nat)
    requires k != [] && i < |s|
    ensures Xor(Cipher(k, s)[i], s[i]) == k[i % |k|]
  {
    XorGivesTheOther(s[i], k[i % |k|]);
  }

  /** Zeros become the repeated key. */
  lemma ZerosShowTheKey(k: seq<byte>, s: seq<byte>, i: nat)
    requires k != [] && i < |s| && s[i] == 0
    ensures Cipher(k, s)[i] == k[i % |k|]
  {
    XorOfZero(k[i % |k|]);
  }

  /** The key, once and then again, is encrypted to zeros. */
  lemma KeyTwiceVanishes(k: seq<byte>, i: nat)
    requires k != [] && i < 2 * |k|
    ensures Cipher(k, k + k)[i] == 0
  {
    var n := |k|;
    if i < n {
      assert i % n == i;
    } else {
      StartsAgain(i, n);
    }
    XorSelf((k + k)[i]);
  }

  lemma StartsAgain(i: nat, n: nat)
    requires n <= i < 2 * n
    ensures i % n == i - n
  {
  }

  lemma CipherInjective(k: seq<byte>, s: seq<byte>, t: seq<byte>)
    requires k != [] && Cipher(k, s) == Cipher(k, t)
    ensures s == t
  {
    CipherInvolution(k, s);
    CipherInvolution(k, t);
  }

  /** include/heap_file.h:31: the empty key leaves everything in clear. */
  lemma EmptyKeyIsClear(s: seq<byte>)
    ensures Cipher(EffectiveKey([]), s) == s
  {
    forall i | 0 <= i < |s| ensures Cipher([0], s)[i] == s[i] {
      XorZero(s[i]);
    }
  }

  class Simple {
    const key: seq<byte>

    ghost predicate Valid() {
      key != []
    }

    constructor (key: seq<byte>)
      ensures Valid() && this.key == EffectiveKey(key)
    {
      this.key := if key == [] then [0] else key;
    }

    /** The `XOR` loop on two stretches of memory, which may be the same one. */
    method Encrypt(src: array<byte>, from: nat, dest: array<byte>, to: nat, size: nat) returns (ok: bool)
      requires from + size <= src.Length && to + size <= dest.Length
      requires src != dest || to <= from || from + size <= to
      modifies dest
      ensures ok <==> Valid()
      ensures ok ==> dest[..] == Put(old(dest[..]), to, Cipher(key, old(src[from..from + size])))
      ensures !ok ==> dest[..] == old(dest[..])
    {
      hide Xor, Cipher;
      if |key| == 0 {
        return false;
      }
      ghost var clear := src[from..from + size];
      ghost var code := Cipher(key, clear);
      for i := 0 to size
        invariant forall j :: 0 <= j < dest.Length ==>
          dest[j] == if to <= j < to + i then code[j - to] else old(dest[j])
        invariant forall j :: i <= j < size ==> src[from + j] == clear[j]
      {
        CipherAt(key, clear, i);
        dest[to + i] := Xor(src[from + i], key[i % |key|]);
      }
      return true;
    }
  }
}
