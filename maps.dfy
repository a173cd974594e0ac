/**
 * The hash map with two-tier locking: a table from a 64-bit hash to an item
 * block, a structural `insertLock`, and one lock per entry. Locks are ghost:
 * `entryHeld` is the set of entries whose lock the caller holds, and
 * `lockLog` records every lock acquisition and release in order.
 */
module Maps {
  import opened Common

  /** `TSMAP_INT` or `TSMAP_STR`. */
  datatype KeyType = IntKeys | StrKeys

  /** The caller's key: an integer, or a possibly null string. */
  datatype MapKey = IntKey(n: u64) | StrKey(s: Option<string>)

  datatype LockEvent =
    | AcquireInsert
    | ReleaseInsert
    | AcquireEntry(hash: u64)
    | ReleaseEntry(hash: u64)

  /** Whether `insertLock` is held after the events of `log`. */
  function InsertHeld(log: seq<LockEvent>): bool
  {
    if log == [] then false
    else if log[|log| - 1] == AcquireInsert then true
    else if log[|log| - 1] == ReleaseInsert then false
    else InsertHeld(log[..|log| - 1])
  }

  /** The entry locks held after the events of `log`. */
  function EntriesHeld(log: seq<LockEvent>): set<u64>
  {
    if log == [] then {}
    else
      var e := log[|log| - 1];
      var before := EntriesHeld(log[..|log| - 1]);
      match e
      case AcquireEntry(h) => before + {h}
      case ReleaseEntry(h) => before - {h}
      case _ => before
  }

  /** The ordering the map keeps: no entry lock is ever requested while `insertLock` is held. */
  ghost predicate InsertFreeAtEntryAcquire(log: seq<LockEvent>)
  {
    forall i :: 0 <= i < |log| && log[i].AcquireEntry? ==> !InsertHeld(log[..i])
  }

  /** The stricter rule that `insertLock` is never requested while an entry lock is held. */
  ghost predicate NoInsertInsideEntry(log: seq<LockEvent>)
  {
    forall i :: 0 <= i < |log| && log[i] == AcquireInsert ==> EntriesHeld(log[..i]) == {}
  }

  /** A log that keeps the ordering and leaves `insertLock` free. */
  ghost predicate Ordered(log: seq<LockEvent>)
  {
    InsertFreeAtEntryAcquire(log) && !InsertHeld(log)
  }

  /** One event more: how it changes whether `insertLock` is held and which entry locks are. */
  lemma Snoc(log: seq<LockEvent>, e: LockEvent)
    ensures InsertHeld(log + [e]) == if e == AcquireInsert then true else if e == ReleaseInsert then false else InsertHeld(log)
    ensures EntriesHeld(log + [e]) ==
      if e.AcquireEntry? then EntriesHeld(log) + {e.hash}
      else if e.ReleaseEntry? then EntriesHeld(log) - {e.hash}
      else EntriesHeld(log)
  {
    assert (log + [e])[..|log|] == log;
  }

  /** `insertLock` taken and released: afterwards it is free and the entry locks are as before. */
  lemma SnocTap(log: seq<LockEvent>)
    ensures !InsertHeld(log + [AcquireInsert, ReleaseInsert])
    ensures EntriesHeld(log + [AcquireInsert, ReleaseInsert]) == EntriesHeld(log)
  {
    Snoc(log, AcquireInsert);
    Snoc(log + [AcquireInsert], ReleaseInsert);
    assert log + [AcquireInsert] + [ReleaseInsert] == log + [AcquireInsert, ReleaseInsert];
  }

  /** The lock events of `TSM_SetItem` on hash `h`: it ends holding no lock at all. */
  function SetItemEvents(h: u64): (r: seq<LockEvent>)
    ensures !InsertHeld(r) && EntriesHeld(r) == {}
  {
    var tap := [AcquireInsert, ReleaseInsert];
    SnocTap([]);
    assert [] + tap == tap;
    Snoc(tap, AcquireEntry(h));
    Snoc(tap + [AcquireEntry(h)], ReleaseEntry(h));
    assert tap + [AcquireEntry(h)] + [ReleaseEntry(h)] == [AcquireInsert, ReleaseInsert, AcquireEntry(h), ReleaseEntry(h)];
    [AcquireInsert, ReleaseInsert, AcquireEntry(h), ReleaseEntry(h)]
  }

  /**
   * The lock events of `TSM_AcquireItem` on hash `h`: a tap, then the entry
   * lock when present. It ends with `insertLock` free, holding the entry lock
   * of a present hash and nothing otherwise.
   */
  function AcquireEvents(h: u64, present: bool): (r: seq<LockEvent>)
    ensures !InsertHeld(r)
    ensures EntriesHeld(r) == if present then {h} else {}
  {
    var tap := [AcquireInsert, ReleaseInsert];
    SnocTap([]);
    assert [] + tap == tap;
    Snoc(tap, AcquireEntry(h));
    if present then tap + [AcquireEntry(h)] else tap
  }

  /**
   * The lock events of `TSM_ReleaseItem` on hash `h`: a tap, then the entry
   * unlock when present. After `AcquireEvents` on the same hash it leaves no
   * lock held.
   */
  function ReleaseEvents(h: u64, present: bool): (r: seq<LockEvent>)
    ensures !InsertHeld(r)
    ensures !InsertHeld(AcquireEvents(h, present) + r) && EntriesHeld(AcquireEvents(h, present) + r) == {}
  {
    var tap := [AcquireInsert, ReleaseInsert];
    var a := AcquireEvents(h, present);
    SnocTap([]);
    assert [] + tap == tap;
    Snoc(tap, ReleaseEntry(h));
    SnocTap(a);
    Snoc(a + tap, ReleaseEntry(h));
    assert a + (tap + [ReleaseEntry(h)]) == a + tap + [ReleaseEntry(h)];
    if present then tap + [ReleaseEntry(h)] else tap
  }

  /** The lock events of `TSM_RemoveItem` on a present hash `h`: the entry lock taken and released, nothing else. */
  function RemoveEvents(h: u64): (r: seq<LockEvent>)
    ensures !InsertHeld(r) && EntriesHeld(r) == {}
  {
    Snoc([], AcquireEntry(h));
    Snoc([AcquireEntry(h)], ReleaseEntry(h));
    assert [] + [AcquireEntry(h)] == [AcquireEntry(h)];
    assert [AcquireEntry(h)] + [ReleaseEntry(h)] == [AcquireEntry(h), ReleaseEntry(h)];
    [AcquireEntry(h), ReleaseEntry(h)]
  }

  /** The lock events of `TSM_GetItem` on a present hash `h`: acquire then release, which leaves no lock held. */
  function GetItemEvents(h: u64): (r: seq<LockEvent>)
    ensures !InsertHeld(r) && EntriesHeld(r) == {}
  {
    AcquireEvents(h, true) + ReleaseEvents(h, true)
  }

  /** Appending events after a log with `insertLock` free: the lock state is that of the suffix alone. */
  lemma {:induction false} InsertHeldAppend(log: seq<LockEvent>, suffix: seq<LockEvent>)
    requires !InsertHeld(log)
    ensures InsertHeld(log + suffix) == InsertHeld(suffix)
    decreases |suffix|
  {
    if suffix != [] {
      var init := suffix[..|suffix| - 1];
      assert (log + suffix)[..|log + suffix| - 1] == log + init;
      InsertHeldAppend(log, init);
    } else {
      assert log + suffix == log;
    }
  }

  /**
   * Appending a block of events that is itself ordered, after a log that is
   * ordered and ends with `insertLock` free, keeps the whole log ordered.
   */
  lemma AppendKeepsOrder(log: seq<LockEvent>, block: seq<LockEvent>)
    requires Ordered(log) && Ordered(block)
    ensures Ordered(log + block)
  {
    var all := log + block;
    InsertHeldAppend(log, block);
    forall i | 0 <= i < |all| && all[i].AcquireEntry?
      ensures !InsertHeld(all[..i])
    {
      if i < |log| {
        assert all[..i] == log[..i];
      } else {
        assert all[..i] == log + block[..i - |log|];
        assert block[i - |log|] == all[i];
        InsertHeldAppend(log, block[..i - |log|]);
      }
    }
  }

  /** `TSM_SetItem` drops `insertLock` before it takes the entry lock. */
  lemma SetItemEventsOrdered(h: u64)
    ensures Ordered(SetItemEvents(h))
  {
    var b := SetItemEvents(h);
    assert b[..2] == [AcquireInsert, ReleaseInsert] && b[..2][..1] == [AcquireInsert];
    assert b[..3][..2] == b[..2];
  }

  /** `TSM_GetItem` keeps the ordering too: each entry-lock request follows a completed tap. */
  lemma GetItemEventsOrdered(h: u64)
    ensures Ordered(GetItemEvents(h))
  {
    var b := GetItemEvents(h);
    assert b == [AcquireInsert, ReleaseInsert, AcquireEntry(h), AcquireInsert, ReleaseInsert, ReleaseEntry(h)];
    assert b[..2] == [AcquireInsert, ReleaseInsert] && b[..2][..1] == [AcquireInsert];
    assert b[..5][..4] == b[..2] + [AcquireEntry(h)] + [AcquireInsert];
  }

  /** `TSM_AcquireItem` and `TSM_ReleaseItem` each keep the ordering on their own. */
  lemma AcquireReleaseEventsOrdered(h: u64, present: bool)
    ensures Ordered(AcquireEvents(h, present)) && Ordered(ReleaseEvents(h, present))
  {
    var a := AcquireEvents(h, present);
    assert a[..2] == [AcquireInsert, ReleaseInsert] && a[..2][..1] == [AcquireInsert];
  }

  /** `TSM_RemoveItem` takes its entry lock with `insertLock` free. */
  lemma RemoveEventsOrdered(h: u64)
    ensures Ordered(RemoveEvents(h))
  {
    assert RemoveEvents(h)[..0] == [];
  }

  /**
   * The stricter rule does not hold of the code: `TSM_ReleaseItem` taps
   * `insertLock` while the caller still holds the entry lock, so even one
   * `TSM_GetItem` on a present hash requests `insertLock` inside an entry lock.
   */
  lemma GetItemTapsInsertInsideEntry(h: u64)
    ensures !NoInsertInsideEntry(GetItemEvents(h))
  {
    var b := GetItemEvents(h);
    assert b == [AcquireInsert, ReleaseInsert, AcquireEntry(h), AcquireInsert, ReleaseInsert, ReleaseEntry(h)];
    assert b[3] == AcquireInsert;
    var p1, p2, p3 := b[..1], b[..2], b[..3];
    assert p1[..0] == [] && EntriesHeld(p1) == {};
    assert p2[..1] == p1 && EntriesHeld(p2) == {};
    assert p3[..2] == p2 && EntriesHeld(p3) == {h};
  }

  /** Which hash a key maps to: the integer itself, the string hash of a string, 0 for a null string. */
  function HashOf(keyType: KeyType, key: MapKey, strHash: string -> u64): (h: u64)
    requires key.IntKey? <==> keyType == IntKeys
    ensures keyType == IntKeys ==> h == key.n
    ensures keyType == StrKeys && key.s.Some? ==> h == strHash(key.s.value)
    ensures keyType == StrKeys && key.s.None? ==> h == 0
  {
    match key
    case IntKey(n) => n
    case StrKey(s) => if s.Some? then strHash(s.value) else 0
  }

  /**
   * What a set does to the table: a new hash gets a fresh block (the given
   * value, or an undefined block when none is given); an existing hash has its
   * value replaced when a value is given and is left alone otherwise.
   */
  function SetSpec(table: map<u64, seq<byte>>, h: u64, dataIn: Option<seq<byte>>, itemSize: nat): (r: map<u64, seq<byte>>)
    ensures r.Keys == table.Keys + {h}
    ensures |r| == if h in table then |table| else |table| + 1
    ensures forall k :: k in table && k != h ==> r[k] == table[k]
    ensures dataIn.Some? ==> r[h] == dataIn.value
    ensures dataIn.None? && h in table ==> r[h] == table[h]
  {
    var r := if dataIn.Some? then table[h := dataIn.value]
             else if h in table then table
             else table[h := Zeros(itemSize)];
    assert r.Keys == table.Keys + {h};
    assert |r| == |r.Keys|;
    r
  }

  /** The two steps of `TSM_SetItem`, the insertion and then the copy, together make `SetSpec`. */
  lemma SetSteps(table: map<u64, seq<byte>>, h: u64, dataIn: Option<seq<byte>>, itemSize: nat)
    ensures var inserted := if h !in table then table[h := Zeros(itemSize)] else table;
            SetSpec(table, h, dataIn, itemSize) == if dataIn.Some? then inserted[h := dataIn.value] else inserted
  {
    var inserted := if h !in table then table[h := Zeros(itemSize)] else table;
    if dataIn.Some? {
      assert inserted[h := dataIn.value] == table[h := dataIn.value];
    }
  }

  /** A set with a value of the item size keeps every value at the item size. */
  lemma SetSpecSizes(table: map<u64, seq<byte>>, h: u64, dataIn: Option<seq<byte>>, itemSize: nat)
    requires forall k :: k in table ==> |table[k]| == itemSize
    requires dataIn.Some? ==> |dataIn.value| == itemSize
    ensures forall k :: k in SetSpec(table, h, dataIn, itemSize) ==> |SetSpec(table, h, dataIn, itemSize)[k]| == itemSize
  {
  }

  /** Deleting a present hash removes exactly one entry. */
  lemma RemoveCount(table: map<u64, seq<byte>>, h: u64)
    ensures |table - {h}| == if h in table then |table| - 1 else |table|
  {
    var t := table - {h};
    if h in table {
      assert t.Keys == table.Keys - {h};
      assert |t.Keys| == |table.Keys| - 1;
    } else {
      assert t == table;
    }
  }

  /** Set then get on the same hash yields the value set; any other hash is unaffected. */
  lemma SetThenGet(table: map<u64, seq<byte>>, h: u64, v: seq<byte>, other: u64, itemSize: nat)
    requires other != h
    ensures var t := SetSpec(table, h, Some(v), itemSize);
            t[h] == v && (other in t <==> other in table) && (other in table ==> t[other] == table[other])
  {
  }

  /** Setting the same key twice: both calls name the same entry, the count grows at most once, the later value wins. */
  lemma {:induction false} SetTwice(table: map<u64, seq<byte>>, h: u64, v1: seq<byte>, v2: seq<byte>, itemSize: nat)
    ensures var t1 := SetSpec(table, h, Some(v1), itemSize);
            var t2 := SetSpec(t1, h, Some(v2), itemSize);
            && |t2| == |t1| == (if h in table then |table| else |table| + 1)
            && t2[h] == v2
  {
    var t1 := SetSpec(table, h, Some(v1), itemSize);
    if h !in table {
      assert t1.Keys == table.Keys + {h};
    } else {
      assert t1.Keys == table.Keys;
    }
    var t2 := SetSpec(t1, h, Some(v2), itemSize);
    assert t2.Keys == t1.Keys;
  }

  class ThreadSafeMap {
    /** The khash table: at most one entry per hash, by construction of `map`. */
    var table: map<u64, seq<byte>>
    const keyType: KeyType
    const itemSize: nat
    /** The string hash function of the hash-table library. */
    const strHash: string -> u64
    ghost var entryHeld: set<u64>
    ghost var lockLog: seq<LockEvent>

    ghost predicate Valid()
      reads this
    {
      && entryHeld <= table.Keys
      && (forall h :: h in table ==> |table[h]| == itemSize)
      && Ordered(lockLog)
    }

    /** `TSM_Create`: an empty table, no locks held. */
    constructor (keyType: KeyType, itemSize: nat, strHash: string -> u64)
      ensures Valid()
      ensures this.keyType == keyType && this.itemSize == itemSize && this.strHash == strHash
      ensures table == map[] && entryHeld == {} && lockLog == []
    {
      this.keyType := keyType;
      this.itemSize := itemSize;
      this.strHash := strHash;
      table := map[];
      entryHeld := {};
      lockLog := [];
    }

    /** `TSM_GetItemsCount`: the number of live entries, which is the number of distinct hashes. */
    function GetItemsCount(): (n: nat)
      reads this
      ensures n == |table.Keys|
    {
      |table|
    }

    /**
     * `TSM_SetItem`: derive the hash, under `insertLock` add an entry when the
     * hash is new, release `insertLock`, then under the entry's own lock copy
     * `dataIn` in when it is non-null. Returns the entry's hash.
     */
    method SetItem(key: MapKey, dataIn: Option<seq<byte>>) returns (hash: u64)
      requires Valid()
      requires key.IntKey? <==> keyType == IntKeys
      requires dataIn.Some? ==> |dataIn.value| == itemSize
      requires HashOf(keyType, key, strHash) !in entryHeld
      modifies this`table, this`lockLog
      ensures Valid()
      ensures hash == HashOf(keyType, key, strHash)
      ensures table == SetSpec(old(table), hash, dataIn, itemSize)
      ensures GetItemsCount() == if hash in old(table) then old(GetItemsCount()) else old(GetItemsCount()) + 1
      ensures lockLog == old(lockLog) + SetItemEvents(hash)
    {
      hash := HashOf(keyType, key, strHash);
      var t := table;
      // under insertLock: look the hash up, add an entry when it is new
      if hash !in t {
        t := t[hash := Zeros(itemSize)];
      }
      // insertLock released; under the entry lock: copy the value in
      if dataIn.Some? {
        t := t[hash := dataIn.value];
      }
      SetSteps(table, hash, dataIn, itemSize);
      SetSpecSizes(table, hash, dataIn, itemSize);
      table := t;
      SetItemEventsOrdered(hash);
      AppendKeepsOrder(lockLog, SetItemEvents(hash));
      lockLog := lockLog + SetItemEvents(hash);
    }

    /**
     * `TSM_RemoveItem`: an absent hash fails and changes nothing. A present one
     * has its entry lock taken and released (waiting out any holder), then the
     * entry alone is deleted.
     */
    method RemoveItem(hash: u64) returns (ok: bool)
      requires Valid()
      requires hash in table ==> hash !in entryHeld
      modifies this`table, this`lockLog
      ensures Valid()
      ensures ok == (hash in old(table))
      ensures table == old(table) - {hash}
      ensures GetItemsCount() == if ok then old(GetItemsCount()) - 1 else old(GetItemsCount())
      ensures lockLog == old(lockLog) + if ok then RemoveEvents(hash) else []
    {
      RemoveCount(table, hash);
      if hash !in table {
        assert table == table - {hash};
        assert lockLog + [] == lockLog;
        return false;
      }
      ghost var block := RemoveEvents(hash);
      RemoveEventsOrdered(hash);
      AppendKeepsOrder(lockLog, block);
      lockLog := lockLog + block;
      var t := table - {hash};
      assert t.Keys == table.Keys - {hash};
      table := t;
      ok := true;
    }

    /**
     * `TSM_AcquireItem`: tap `insertLock`, then for a present hash take and keep
     * its entry lock and return its value; an absent hash gives null and takes
     * no entry lock.
     */
    method AcquireItem(hash: u64) returns (item: Option<seq<byte>>)
      requires Valid()
      requires hash in table ==> hash !in entryHeld
      modifies this`entryHeld, this`lockLog
      ensures Valid()
      ensures item == if hash in table then Some(table[hash]) else None
      ensures entryHeld == if hash in table then old(entryHeld) + {hash} else old(entryHeld)
      ensures lockLog == old(lockLog) + AcquireEvents(hash, hash in table)
    {
      AcquireReleaseEventsOrdered(hash, hash in table);
      AppendKeepsOrder(lockLog, AcquireEvents(hash, hash in table));
      lockLog := lockLog + AcquireEvents(hash, hash in table);
      if hash !in table {
        return None;
      }
      entryHeld := entryHeld + {hash};
      item := Some(table[hash]);
    }

    /**
     * A write through the pointer `TSM_AcquireItem` returned, while the
     * caller holds that entry's lock: the entry's value is replaced and no
     * entry is added or removed.
     */
    method WriteHeld(hash: u64, value: seq<byte>)
      requires Valid() && hash in entryHeld && |value| == itemSize
      modifies this`table
      ensures Valid()
      ensures table == old(table)[hash := value]
      ensures table.Keys == old(table).Keys
    {
      table := table[hash := value];
    }

    /**
     * `TSM_ReleaseItem`: tap `insertLock`, then release the entry lock of a
     * present hash; an absent hash releases nothing.
     */
    method ReleaseItem(hash: u64)
      requires Valid()
      requires hash in table ==> hash in entryHeld
      modifies this`entryHeld, this`lockLog
      ensures Valid()
      ensures entryHeld == old(entryHeld) - {hash}
      ensures lockLog == old(lockLog) + ReleaseEvents(hash, hash in table)
    {
      AcquireReleaseEventsOrdered(hash, hash in table);
      AppendKeepsOrder(lockLog, ReleaseEvents(hash, hash in table));
      lockLog := lockLog + ReleaseEvents(hash, hash in table);
      entryHeld := entryHeld - {hash};
    }

    /**
     * `TSM_GetItem`: acquire, copy the value out of a present hash, release.
     * An absent hash gives false.
     */
    method GetItem(hash: u64) returns (ok: bool, dataOut: seq<byte>)
      requires Valid()
      requires hash in table ==> hash !in entryHeld
      modifies this`entryHeld, this`lockLog
      ensures Valid()
      ensures ok == (hash in table)
      ensures ok ==> dataOut == table[hash]
      ensures entryHeld == old(entryHeld)
      ensures lockLog == old(lockLog) + AcquireEvents(hash, ok) + ReleaseEvents(hash, ok)
    {
      dataOut := [];
      var item := AcquireItem(hash);
      ReleaseItem(hash);
      if item.None? {
        ok := false;
      } else {
        ok := true;
        dataOut := item.value;
      }
    }

    /**
     * `TSM_RunForAllKeys`: pass every live hash to the operator exactly once.
     * The result is the sequence of hashes passed, in visiting order.
     */
    method RunForAllKeys() returns (visited: seq<u64>)
      ensures forall i, j :: 0 <= i < j < |visited| ==> visited[i] != visited[j]
      ensures forall h :: h in visited <==> h in table
      ensures |visited| == |table|
    {
      visited := [];
      var rest := table.Keys;
      while rest != {}
        invariant rest <= table.Keys
        invariant forall h :: h in visited <==> h in table && h !in rest
        invariant forall i, j :: 0 <= i < j < |visited| ==> visited[i] != visited[j]
        invariant |visited| + |rest| == |table|
        decreases rest
      {
        var h :| h in rest;
        visited := visited + [h];
        rest := rest - {h};
      }
    }
  }

  /**
   * Set 42 twice on an integer map: the same hash both times, and get returns
   * the later value; a write through an acquired entry is seen by the next get.
   */
  method MapScenario()
  {
    var m := new ThreadSafeMap(IntKeys, 1, s => 7);
    var h1 := m.SetItem(IntKey(42), Some([1]));
    var h2 := m.SetItem(IntKey(42), Some([2]));
    assert h1 == h2 == 42;
    var ok, v := m.GetItem(h1);
    assert ok && v == [2];
    assert m.GetItemsCount() == 1;
    var ref := m.AcquireItem(h1);
    m.WriteHeld(h1, [3]);
    m.ReleaseItem(h1);
    ok, v := m.GetItem(h1);
    assert ok && v == [3];
  }
}
