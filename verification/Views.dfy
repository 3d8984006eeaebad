/** The table as a caller with a given key sees it: ids and data are stored encrypted. */
module Views {
  import opened Bytes
  import opened SimpleEncrypt
  import opened Store

  /** The stored table `t` seen through key `k`. */
  ghost function Seen(k: seq<byte>, t: Table): (v: Table)
    requires k != []
  {
    map id | id in (set e | e in t :: Cipher(k, e)) ::
      if Cipher(k, id) in t then Cipher(k, t[Cipher(k, id)]) else []
  }

  /** An id is seen exactly when its encryption is stored, and its data is then decrypted. */
  lemma SeenAt(k: seq<byte>, t: Table, id: seq<byte>)
    requires k != []
    ensures id in Seen(k, t) <==> Cipher(k, id) in t
    ensures id in Seen(k, t) ==> Seen(k, t)[id] == Cipher(k, t[Cipher(k, id)])
  {
    CipherInvolution(k, id);
    if id in Seen(k, t) {
      var e :| e in t && Cipher(k, e) == id;
      CipherInvolution(k, e);
    }
  }

  /** Storing the encrypted blob under the encrypted id binds the id to the blob. */
  lemma SeenUpdate(k: seq<byte>, t: Table, id: seq<byte>, data: seq<byte>)
    requires k != []
    ensures Seen(k, t[Cipher(k, id) := Cipher(k, data)]) == Seen(k, t)[id := data]
  {
    var u := t[Cipher(k, id) := Cipher(k, data)];
    forall x
      ensures x in Seen(k, u) <==> x in Seen(k, t)[id := data]
      ensures x in Seen(k, u) ==> Seen(k, u)[x] == Seen(k, t)[id := data][x]
    {
      SeenAt(k, u, x);
      SeenAt(k, t, x);
      CipherInvolution(k, data);
      if Cipher(k, x) == Cipher(k, id) {
        CipherInjective(k, x, id);
      }
    }
  }

  lemma SeenRemove(k: seq<byte>, t: Table, id: seq<byte>)
    requires k != []
    ensures Seen(k, t - {Cipher(k, id)}) == Seen(k, t) - {id}
  {
    var u := t - {Cipher(k, id)};
    forall x
      ensures x in Seen(k, u) <==> x in Seen(k, t) - {id}
      ensures x in Seen(k, u) ==> Seen(k, u)[x] == (Seen(k, t) - {id})[x]
    {
      SeenAt(k, u, x);
      SeenAt(k, t, x);
      if Cipher(k, x) == Cipher(k, id) {
        CipherInjective(k, x, id);
      }
    }
  }

  /** A part of the stored table is seen as a part. */
  lemma SeenSubTable(k: seq<byte>, t: Table, u: Table)
    requires k != [] && SubTable(t, u)
    ensures SubTable(Seen(k, t), Seen(k, u))
  {
    forall id | id in Seen(k, t) ensures id in Seen(k, u) && Seen(k, t)[id] == Seen(k, u)[id] {
      SeenAt(k, t, id);
      SeenAt(k, u, id);
    }
  }

  /** `t` and `u` bind `id` alike, or neither binds it. */
  ghost predicate SameAt(t: Table, u: Table, id: seq<byte>) {
    (id in t <==> id in u) && (id in t ==> t[id] == u[id])
  }

  /** Under a wrong key an id is found exactly when its encryption is that of an id stored under the right one. */
  lemma WrongKeySees(k1: seq<byte>, k2: seq<byte>, t: Table, id2: seq<byte>)
    requires k1 != [] && k2 != []
    ensures id2 in Seen(k2, t) <==> exists id1 :: id1 in Seen(k1, t) && Cipher(k1, id1) == Cipher(k2, id2)
  {
    SeenAt(k2, t, id2);
    var id1 := Cipher(k1, Cipher(k2, id2));
    CipherInvolution(k1, Cipher(k2, id2));
    SeenAt(k1, t, id1);
    forall x | x in Seen(k1, t) && Cipher(k1, x) == Cipher(k2, id2) ensures Cipher(k2, id2) in t {
      SeenAt(k1, t, x);
    }
  }

  /** What is stored is seen in full under every key: a file looks empty under some key only if it is empty. */
  lemma SeenEmptyExactly(k: seq<byte>, t: Table)
    requires k != []
    ensures Seen(k, t) == map[] <==> t == map[]
  {
    if t != map[] {
      var e :| e in t;
      CipherInvolution(k, e);
      SeenAt(k, t, Cipher(k, e));
    }
  }

  lemma SeenInjective(k: seq<byte>, t: Table, u: Table)
    requires k != [] && Seen(k, t) == Seen(k, u)
    ensures t == u
  {
    forall e
      ensures e in t <==> e in u
      ensures e in t ==> t[e] == u[e]
    {
      CipherInvolution(k, e);
      SeenAt(k, t, Cipher(k, e));
      SeenAt(k, u, Cipher(k, e));
      if e in t && e in u {
        CipherInjective(k, t[e], u[e]);
      }
    }
  }

  lemma OneUnderOne()
    ensures Cipher([0], [0]) == Cipher([1], [1])
  {
    XorZero(0);
    assert Cipher([0], [0])[0] == Xor(0, 0) == 0;
    assert (1 as bv8) ^ (1 as bv8) == 0;
    assert Cipher([1], [1])[0] == Xor(1, 1) == 0;
  }
}
