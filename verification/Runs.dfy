/** Whole runs of a heap file: any sequence of operations, with files closed and opened again in between,
    and each operation under a key of its own. */
module Runs {
  import opened Bytes
  import opened SimpleEncrypt
  import opened Store
  import opened Views

  datatype Op =
    | Write(id: seq<byte>, data: seq<byte>)
    | Erase(id: seq<byte>)
    | Get(id: seq<byte>)
    | Has(id: seq<byte>)
    | SetMaxSize(cap: nat)
    | Clear
    | Reopen

  datatype Answer = Flag(ok: bool) | Data(data: Option<seq<byte>>)

  /** One operation under one key, and its answer. */
  datatype Event = Event(key: seq<byte>, op: Op, answer: Answer)

  /** What `getBlob` delivers: the decrypted data of the block that stores the encrypted id. */
  ghost predicate Delivers(k: seq<byte>, s: Store, id: seq<byte>, data: Option<seq<byte>>)
    requires k != []
  {
    match data
    case None => forall i :: !StoredAt(s, Cipher(k, id), i)
    case Some(d) => exists i: nat :: StoredAt(s, Cipher(k, id), i) && d == Cipher(k, ItemAt(s.bytes, s.blocks[i]).data)
  }

  /** The transitions of the file, in terms of its blocks and bytes. `clear` is one only where there are no
      blocks: otherwise it leaves no heap file behind, see `HeapFile.Clear`. */
  ghost predicate Step(s: Store, e: Event, t: Store) {
    && e.key != []
    && match e.op
       case Write(id, data) =>
         && e.answer.Flag? && CanWrite(s, Cipher(e.key, id), Cipher(e.key, data))
         && Writes(s, Cipher(e.key, id), Cipher(e.key, data), e.answer.ok, t)
       case Erase(id) =>
         && e.answer == Flag(true) && CanErase(s, Cipher(e.key, id))
         && t == Erased(s, Cipher(e.key, id))
       case Get(id) => e.answer.Data? && t == s && Delivers(e.key, s, id, e.answer.data)
       case Has(id) => e.answer.Flag? && t == s && (e.answer.ok <==> exists i :: StoredAt(s, Cipher(e.key, id), i))
       case SetMaxSize(cap) => cap <= NO_LIMIT && t == Limited(s, cap)
       case Clear => s.blocks == [] && t == EMPTY
       case Reopen => StoreValid(s) && t == Reopened(s)
  }

  /** A limit on file `s` takes away exactly the blobs in the blocks that it does not spare. It takes away at least
      one exactly when the file is not smaller than the limit and something is stored. */
  ghost predicate LimitStep(k: seq<byte>, v: Table, s: Store, cap: nat, w: Table)
    requires k != []
  {
    && SubTable(w, v)
    && (forall id :: id in w <==> id in v && !Drops(s, cap, Cipher(k, id)))
    && (w == v <==> |s.bytes| < cap || v == map[])
  }

  /** The transitions of the map that file `s` stands for, seen through the event's key. */
  ghost predicate MapStep(v: Table, s: Store, e: Event, w: Table)
    requires e.key != []
  {
    match e.op
    case Write(id, data) => e.answer.Flag? && w == if e.answer.ok then v[id := data] else v - {id}
    case Erase(id) => w == v - {id}
    case Get(id) => e.answer == Data(if id in v then Some(v[id]) else None) && w == v
    case Has(id) => e.answer == Flag(id in v) && w == v
    case SetMaxSize(cap) => LimitStep(e.key, v, s, cap, w)
    case Clear => w == map[]
    case Reopen => w == v
  }

  lemma DeliversIsLookup(k: seq<byte>, s: Store, id: seq<byte>, data: Option<seq<byte>>)
    requires k != [] && StoreValid(s) && Delivers(k, s, id, data)
    ensures var v := Seen(k, Contents(s)); data == if id in v then Some(v[id]) else None
  {
    hide Cipher, ItemAt, StoreValid, Contents, Seen;
    SeenAt(k, Contents(s), id);
    BoundMeansStored(s, Cipher(k, id));
    if data.Some? {
      var i: nat :| StoredAt(s, Cipher(k, id), i) && data.value == Cipher(k, ItemAt(s.bytes, s.blocks[i]).data);
      StoredIsBound(s, Cipher(k, id), i);
    }
  }

  lemma LookupIsDelivered(k: seq<byte>, s: Store, id: seq<byte>)
    requires k != [] && StoreValid(s)
    ensures var v := Seen(k, Contents(s)); Delivers(k, s, id, if id in v then Some(v[id]) else None)
  {
    hide Cipher, ItemAt, StoreValid, Contents, Seen;
    SeenAt(k, Contents(s), id);
    BoundMeansStored(s, Cipher(k, id));
    if i: nat :| StoredAt(s, Cipher(k, id), i) {
      StoredIsBound(s, Cipher(k, id), i);
    }
  }

  /** What an operation stores and removes, as a change of the stored table. */
  ghost predicate StoredStep(v: Table, s: Store, e: Event, w: Table)
    requires e.key != []
  {
    match e.op
    case Write(id, data) =>
      e.answer.Flag? && w == if e.answer.ok then v[Cipher(e.key, id) := Cipher(e.key, data)]
                             else v - {Cipher(e.key, id)}
    case Erase(id) => w == v - {Cipher(e.key, id)}
    case SetMaxSize(cap) => StoredLimitStep(v, s, cap, w)
    case Clear => w == v == map[]
    case _ => w == v
  }

  /** The same for the table of encrypted ids. */
  ghost predicate StoredLimitStep(v: Table, s: Store, cap: nat, w: Table) {
    && SubTable(w, v)
    && (forall x :: x in w <==> x in v && !Drops(s, cap, x))
    && (w == v <==> |s.bytes| < cap || v == map[])
  }

  lemma LimitedIsLimitStep(s: Store, cap: nat)
    requires StoreValid(s) && cap <= NO_LIMIT
    ensures StoreValid(Limited(s, cap))
    ensures StoredLimitStep(Contents(s), s, cap, Contents(Limited(s, cap)))
  {
    hide StoreValid, Contents, Limited, SubTable, Drops;
    LimitedShrinks(s, cap);
    LimitedKeepsExactly(s, cap);
    NoBlocksNoContents(s);
    forall x
      ensures x in Contents(Limited(s, cap)) <==> x in Contents(s) && !Drops(s, cap, x)
    {
      LimitedDropsExactly(s, cap, x);
    }
  }

  lemma ClearedIsEmpty(s: Store)
    requires StoreValid(s) && s.blocks == []
    ensures StoreValid(EMPTY) && Contents(EMPTY) == map[] == Contents(s)
  {
    NoBlocksNoContents(s);
    EmptyIsValid(s);
  }

  /** Every operation keeps the file valid and changes the stored table as it should. */
  lemma StepKeeps(s: Store, e: Event, t: Store)
    requires StoreValid(s) && Step(s, e, t)
    ensures StoreValid(t) && StoredStep(Contents(s), s, e, Contents(t))
  {
    hide StoreValid, Contents, Writes, Erased, Limited, Reopened, Cipher, StoredLimitStep, CanWrite, CanErase;
    match e.op
    case Write(id, data) => WriteRefines(s, Cipher(e.key, id), Cipher(e.key, data), e.answer.ok, t);
    case Erase(id) => EraseForgets(s, Cipher(e.key, id));
    case SetMaxSize(cap) => LimitedIsLimitStep(s, cap);
    case Clear => ClearedIsEmpty(s);
    case Reopen => ReopenedIsSame(s);
    case _ =>
  }

  /** A limit is seen alike under every key. */
  lemma SeenLimitStep(k: seq<byte>, v: Table, s: Store, cap: nat, w: Table)
    requires k != [] && StoredLimitStep(v, s, cap, w)
    ensures LimitStep(k, Seen(k, v), s, cap, Seen(k, w))
  {
    hide Seen, SubTable, Drops, Cipher;
    SeenSubTable(k, w, v);
    SeenEmptyExactly(k, v);
    forall id
      ensures id in Seen(k, w) <==> id in Seen(k, v) && !Drops(s, cap, Cipher(k, id))
    {
      SeenAt(k, v, id);
      SeenAt(k, w, id);
    }
    if Seen(k, w) == Seen(k, v) {
      SeenInjective(k, w, v);
    }
  }

  /** Every operation does to the map what its answer says. */
  lemma StepRefinesMap(s: Store, e: Event, t: Store)
    requires StoreValid(s) && Step(s, e, t)
    ensures MapStep(Seen(e.key, Contents(s)), s, e, Seen(e.key, Contents(t)))
  {
    hide StoreValid, Contents, Seen, Writes, Erased, Limited, Reopened, Cipher, CanWrite, CanErase;
    hide LimitStep, StoredLimitStep;
    var k, v := e.key, Contents(s);
    StepKeeps(s, e, t);
    match e.op
    case Write(id, data) =>
      SeenUpdate(k, v, id, data);
      SeenRemove(k, v, id);
    case Erase(id) => SeenRemove(k, v, id);
    case Get(id) => DeliversIsLookup(k, s, id, e.answer.data);
    case Has(id) =>
      SeenAt(k, v, id);
      BoundMeansStored(s, Cipher(k, id));
    case SetMaxSize(cap) => SeenLimitStep(k, v, s, cap, Contents(t));
    case Clear => SeenEmptyExactly(k, Contents(t));
    case Reopen =>
  }

  /** `states` are the states before, between and after the events. */
  ghost predicate IsRun(states: seq<Store>, events: seq<Event>) {
    && |states| == |events| + 1
    && StoreValid(states[0])
    && forall i, j :: 0 <= i < |events| && j == i + 1 ==> Step(states[i], events[i], states[j])
  }

  lemma RunStep(states: seq<Store>, events: seq<Event>, n: nat)
    requires IsRun(states, events) && n < |events|
    ensures events[n].key != [] && Step(states[n], events[n], states[n + 1])
  {
  }

  lemma {:induction false} RunStaysValid(states: seq<Store>, events: seq<Event>, n: nat)
    requires IsRun(states, events) && n <= |events|
    ensures StoreValid(states[n])
  {
    hide StoreValid, Step, StoredStep, Contents;
    if n == 0 {
    } else {
      RunStaysValid(states, events, n - 1);
      RunStep(states, events, n - 1);
      StepKeeps(states[n - 1], events[n - 1], states[n]);
    }
  }

  /** Over every run the file is a finite map from ids to byte strings. */
  lemma RunRefinesMap(states: seq<Store>, events: seq<Event>, n: nat)
    requires IsRun(states, events) && n < |events|
    ensures StoreValid(states[n]) && StoreValid(states[n + 1])
    ensures events[n].key != []
      && MapStep(Seen(events[n].key, Contents(states[n])), states[n], events[n],
                 Seen(events[n].key, Contents(states[n + 1])))
  {
    hide StoreValid, Step, MapStep, Contents, Seen;
    RunStaysValid(states, events, n);
    RunStaysValid(states, events, n + 1);
    RunStep(states, events, n);
    StepRefinesMap(states[n], events[n], states[n + 1]);
  }

  /** The event writes or erases the encrypted id `x`, under whatever key. */
  ghost predicate Names(e: Event, x: seq<byte>) {
    e.key != [] && match e.op
                   case Write(id, _) => Cipher(e.key, id) == x
                   case Erase(id) => Cipher(e.key, id) == x
                   case _ => false
  }

  /** The event, on file `s`, writes or erases the encrypted id `x` or sets a limit that drops its blob. */
  ghost predicate Touches(e: Event, s: Store, x: seq<byte>) {
    Names(e, x) || (e.op.SetMaxSize? && Drops(s, e.op.cap, x))
  }

  lemma UntouchedStep(s: Store, e: Event, t: Store, x: seq<byte>)
    requires StoreValid(s) && Step(s, e, t) && !Touches(e, s, x)
    ensures SameAt(Contents(s), Contents(t), x)
  {
    hide StoreValid, Contents, Writes, Erased, Limited, Reopened, Cipher, CanWrite, CanErase, Delivers, Drops;
    StepKeeps(s, e, t);
  }

  /** And one that does touch it takes it away or puts another blob in its place. */
  lemma TouchedIsReplaced(s: Store, e: Event, t: Store, x: seq<byte>)
    requires StoreValid(s) && Step(s, e, t) && Touches(e, s, x)
    ensures x !in Contents(t) || Stores(e, x, Contents(t)[x])
  {
    hide StoreValid, Contents, Writes, Erased, Limited, Reopened, Cipher, CanWrite, CanErase, Delivers, Drops;
    StepKeeps(s, e, t);
  }

  /** What is stored under `x` stays as long as no event touches it. */
  lemma {:induction false} UntouchedStays(states: seq<Store>, events: seq<Event>, m: nat, n: nat, x: seq<byte>)
    requires IsRun(states, events) && m <= n <= |events|
    requires forall i :: m <= i < n ==> !Touches(events[i], states[i], x)
    ensures SameAt(Contents(states[m]), Contents(states[n]), x)
    decreases n
  {
    hide StoreValid, Contents, Step, Touches;
    if m == n {
    } else {
      UntouchedStays(states, events, m, n - 1, x);
      RunStaysValid(states, events, n - 1);
      RunStep(states, events, n - 1);
      UntouchedStep(states[n - 1], events[n - 1], states[n], x);
    }
  }

  /** A blob that was written successfully is read back unchanged, through any number of reopenings and of limits
      that spare its block, until a limit drops it or an id with the same encryption is written or erased, under
      whatever key. */
  lemma WrittenIsRead(states: seq<Store>, events: seq<Event>, m: nat, n: nat)
    requires IsRun(states, events) && m < n <= |events|
    requires events[m].op.Write? && events[m].answer == Flag(true) && events[m].key != []
    requires forall i :: m < i < n ==>
      !Touches(events[i], states[i], Cipher(events[m].key, events[m].op.id))
    ensures var v := Seen(events[m].key, Contents(states[n]));
      events[m].op.id in v && v[events[m].op.id] == events[m].op.data
  {
    hide StoreValid, Contents, Seen, Step;
    var k, id := events[m].key, events[m].op.id;
    RunRefinesMap(states, events, m);
    UntouchedStays(states, events, m + 1, n, Cipher(k, id));
    SeenAt(k, Contents(states[m + 1]), id);
    SeenAt(k, Contents(states[n]), id);
  }

  /** Event `e` has stored `data` under the encrypted id `x`. */
  ghost predicate Stores(e: Event, x: seq<byte>, data: seq<byte>) {
    && e.key != [] && e.op.Write? && e.answer == Flag(true)
    && Cipher(e.key, e.op.id) == x && Cipher(e.key, e.op.data) == data
  }

  /** Event `m` has stored `data` under `x`, and none of the later ones up to `n` has written or erased it. */
  ghost predicate LastStores(events: seq<Event>, m: nat, n: nat, x: seq<byte>, data: seq<byte>) {
    && m < n <= |events| && Stores(events[m], x, data)
    && forall i :: m < i < n ==> !Names(events[i], x)
  }

  /** What an event leaves under `x` it has stored there itself, or else it was there before and the event does not
      name it. */
  lemma StoredOrKept(s: Store, e: Event, t: Store, x: seq<byte>)
    requires StoreValid(s) && Step(s, e, t) && x in Contents(t)
    ensures Stores(e, x, Contents(t)[x])
      || (!Names(e, x) && x in Contents(s) && Contents(s)[x] == Contents(t)[x])
  {
    hide StoreValid, Contents, Writes, Erased, Limited, Reopened, Cipher, CanWrite, CanErase, Delivers;
    StepKeeps(s, e, t);
  }

  /** In a run that starts with an empty file, whatever is stored is what the last event that named its id wrote. */
  lemma {:induction false} NothingFromNowhere(states: seq<Store>, events: seq<Event>, n: nat, x: seq<byte>)
    requires IsRun(states, events) && n <= |events| && Contents(states[0]) == map[]
    requires x in Contents(states[n])
    ensures exists m :: LastStores(events, m, n, x, Contents(states[n])[x])
  {
    hide StoreValid, Contents, Step, Stores, Names;
    if n == 0 {
    } else {
      var e, data := events[n - 1], Contents(states[n])[x];
      RunStaysValid(states, events, n - 1);
      RunStep(states, events, n - 1);
      StoredOrKept(states[n - 1], e, states[n], x);
      if Stores(e, x, data) {
        assert LastStores(events, n - 1, n, x, data);
      } else {
        NothingFromNowhere(states, events, n - 1, x);
        var m :| LastStores(events, m, n - 1, x, data);
        assert LastStores(events, m, n, x, data);
      }
    }
  }

  /** An event under another key leaves alone every id that is not encrypted to the id it touches. */
  lemma OtherKeysStayApart(s: Store, e: Event, t: Store, k: seq<byte>, id: seq<byte>)
    requires StoreValid(s) && Step(s, e, t) && k != [] && !Touches(e, s, Cipher(k, id))
    ensures SameAt(Seen(k, Contents(s)), Seen(k, Contents(t)), id)
  {
    hide StoreValid, Contents, Seen, Step, Cipher;
    UntouchedStep(s, e, t, Cipher(k, id));
    SeenAt(k, Contents(s), id);
    SeenAt(k, Contents(t), id);
  }

  // Under a wrong key

  /** A file looks empty under a key exactly when it is empty, whatever the key. */
  lemma LooksEmptyExactlyWhenEmpty(s: Store, k: seq<byte>)
    requires StoreValid(s) && k != []
    ensures Seen(k, Contents(s)) == map[] <==> s.blocks == []
  {
    SeenEmptyExactly(k, Contents(s));
    NoBlocksNoContents(s);
  }

  /** A file that holds the id [0] under the key [0], and is then opened under the key [1], holds the id [1]. */
  lemma WrongKeyIsNotEmpty(data: seq<byte>, answer: Answer)
    requires |data| < U32_LIMIT - 10
    ensures exists s: Store, t: Store ::
      && IsRun([EMPTY, s, t], [Event([0], Write([0], data), Flag(true)), Event([1], Reopen, answer)])
      && [1] in Seen([1], Contents(t))
  {
    hide StoreValid, Contents, Seen, Writes, Cipher, CanWrite, Reopened, Step;
    var write, reopen := Event([0], Write([0], data), Flag(true)), Event([1], Reopen, answer);
    var s := FirstBlob(Cipher([0], [0]), Cipher([0], data));
    FirstEvent(data);
    EmptyIsValid(EMPTY);
    StepKeeps(EMPTY, write, s);
    var t := Reopened(s);
    ReopenedStep(s, reopen);
    StepKeeps(s, reopen, t);
    OneUnderOne();
    SeenAt([1], Contents(t), [1]);
    assert IsRun([EMPTY, s, t], [write, reopen]);
  }

  lemma FirstEvent(data: seq<byte>)
    requires |data| < U32_LIMIT - 10
    ensures |Cipher([0], [0])| == 1 && |Cipher([0], data)| == |data|
    ensures Step(EMPTY, Event([0], Write([0], data), Flag(true)), FirstBlob(Cipher([0], [0]), Cipher([0], data)))
  {
    hide Writes, CanWrite;
    FirstWrite(Cipher([0], [0]), Cipher([0], data));
  }

  lemma ReopenedStep(s: Store, e: Event)
    requires StoreValid(s) && e.key != [] && e.op == Reopen
    ensures Step(s, e, Reopened(s))
  {
  }
}
