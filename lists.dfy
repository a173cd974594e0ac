/**
 * The insertion-keyed list: a dynamic array of `length` slots whose first
 * `itemsCount` slots hold the live entries, each keyed by the insertion
 * counter at the time it was inserted and kept in ascending key order. One
 * coarse lock (`held`) guards the list; some calls return with it held.
 */
module Lists {
  import opened Common

  /** Capacity grows and shrinks in steps of this many slots. */
  const LIST_LENGTH_INCREMENT: nat := 10

  /** The removal marker: `0xFFFFFFFF` stored into a 32-bit `int` reads back as -1. */
  const RemovedKey: int := -1

  datatype Item = Item(key: int, data: seq<byte>)

  /** A slot that holds no live entry. */
  const Vacant := Item(RemovedKey, [])

  /** Strictly ascending keys: sorted, and no key twice. */
  ghost predicate SortedByKey(s: seq<Item>)
  {
    forall i, j :: 0 <= i < j < |s| ==> s[i].key < s[j].key
  }

  function KeysOf(s: seq<Item>): set<int>
  {
    set e | e in s :: e.key
  }

  /** The entries of `live` other than the one(s) keyed `key`, order kept. */
  function Without(live: seq<Item>, key: int): (r: seq<Item>)
    ensures KeysOf(r) == KeysOf(live) - {key}
    ensures key !in KeysOf(live) ==> r == live
  {
    if live == [] then []
    else
      var rest := Without(live[1..], key);
      assert KeysOf(live) == {live[0].key} + KeysOf(live[1..]);
      assert KeysOf([live[0]] + rest) == {live[0].key} + KeysOf(rest) by {
        assert forall e :: e in [live[0]] + rest <==> e == live[0] || e in rest;
      }
      if live[0].key == key then rest else [live[0]] + rest
  }

  /** Dropping one entry from a sorted sequence leaves it sorted. */
  lemma SortedDrop(s: seq<Item>, idx: nat)
    requires SortedByKey(s) && idx < |s|
    ensures SortedByKey(s[..idx] + s[idx + 1..])
  {
    var t := s[..idx] + s[idx + 1..];
    forall i, j | 0 <= i < j < |t| ensures t[i].key < t[j].key {
      var i' := if i < idx then i else i + 1;
      var j' := if j < idx then j else j + 1;
      assert t[i] == s[i'] && t[j] == s[j'];
    }
  }

  /** The value stored under `key`, if any. */
  function Lookup(live: seq<Item>, key: int): (r: Option<seq<byte>>)
    ensures r.None? <==> key !in KeysOf(live)
    ensures r.Some? ==> Item(key, r.value) in live
  {
    if live == [] then None
    else
      assert KeysOf(live) == {live[0].key} + KeysOf(live[1..]);
      if live[0].key == key then Some(live[0].data) else Lookup(live[1..], key)
  }

  /** `live` with the value stored under `key` replaced by `value`. */
  function Update(live: seq<Item>, key: int, value: seq<byte>): (r: seq<Item>)
    ensures |r| == |live|
    ensures forall i :: 0 <= i < |r| ==> r[i].key == live[i].key
    ensures forall i :: 0 <= i < |r| && live[i].key != key ==> r[i] == live[i]
    ensures key in KeysOf(live) ==> Lookup(r, key) == Some(value)
  {
    if live == [] then []
    else
      assert KeysOf(live) == {live[0].key} + KeysOf(live[1..]);
      var rest := Update(live[1..], key, value);
      if live[0].key == key then [Item(key, value)] + rest else [live[0]] + rest
  }

  /** In a sorted list, removing by key removes exactly the entry at that key's position. */
  lemma {:induction false} WithoutAt(live: seq<Item>, i: nat)
    requires SortedByKey(live) && i < |live|
    ensures Without(live, live[i].key) == live[..i] + live[i + 1..]
  {
    if i == 0 {
      WithoutHead(live);
    } else {
      var tail := live[1..];
      assert tail[i - 1] == live[i];
      WithoutCons(live, live[i].key);
      WithoutAt(tail, i - 1);
      DropSplit(live, i);
    }
  }

  /** Removing a key other than the head's keeps the head. */
  lemma WithoutCons(live: seq<Item>, key: int)
    requires 0 < |live| && live[0].key != key
    ensures Without(live, key) == [live[0]] + Without(live[1..], key)
  {
  }

  /** Dropping position `i > 0` commutes with splitting off the head. */
  lemma DropSplit<T>(s: seq<T>, i: nat)
    requires 0 < i < |s|
    ensures [s[0]] + (s[1..][..i - 1] + s[1..][i..]) == s[..i] + s[i + 1..]
  {
    assert s[1..][..i - 1] == s[1..i];
    assert s[1..][i..] == s[i + 1..];
    assert [s[0]] + s[1..i] == s[..i];
  }

  /** In a sorted list, removing the head's key removes the head alone. */
  lemma WithoutHead(live: seq<Item>)
    requires SortedByKey(live) && 0 < |live|
    ensures Without(live, live[0].key) == live[1..]
  {
    var k, tail := live[0].key, live[1..];
    assert k !in KeysOf(tail) by {
      forall e | e in tail ensures e.key != k {
        var j :| 0 <= j < |tail| && tail[j] == e;
        assert live[j + 1] == e;
      }
    }
    assert Without(live, k) == Without(tail, k);
  }

  /** In a sorted list, the lookup of the key at position `i` finds that position's value. */
  lemma {:induction false} LookupAt(live: seq<Item>, i: nat)
    requires SortedByKey(live) && i < |live|
    ensures Lookup(live, live[i].key) == Some(live[i].data)
  {
    if i > 0 {
      LookupAt(live[1..], i - 1);
    }
  }

  /** In a sorted list, updating the key at position `i` rewrites that position only. */
  lemma {:induction false} UpdateAt(live: seq<Item>, i: nat, value: seq<byte>)
    requires SortedByKey(live) && i < |live|
    ensures Update(live, live[i].key, value) == live[i := Item(live[i].key, value)]
  {
    var r := Update(live, live[i].key, value);
    forall j | 0 <= j < |live| ensures r[j] == live[i := Item(live[i].key, value)][j] {
      if j == i {
        UpdateAtHead(live[i..], live[i].key, value);
        UpdateSuffix(live, i, live[i].key, value);
      }
    }
  }

  /** Updating the key of the head entry rewrites the head. */
  lemma UpdateAtHead(live: seq<Item>, key: int, value: seq<byte>)
    requires live != [] && live[0].key == key
    ensures Update(live, key, value)[0] == Item(key, value)
  {
  }

  /** Update works position by position: a suffix of the result is the update of the suffix. */
  lemma {:induction false} UpdateSuffix(live: seq<Item>, i: nat, key: int, value: seq<byte>)
    requires i <= |live|
    ensures Update(live, key, value)[i..] == Update(live[i..], key, value)
  {
    if i > 0 {
      UpdateSuffix(live[1..], i - 1, key, value);
      assert live[1..][i - 1..] == live[i..];
    }
  }

  /**
   * Binary search over the live entries, as `bsearch` is used by `TSL_Remove`
   * and `TSL_AcquireItem`: the position of `key`, or -1 when it is absent.
   */
  method BinarySearch(live: seq<Item>, key: int) returns (idx: int)
    requires SortedByKey(live)
    ensures -1 <= idx < |live|
    ensures 0 <= idx ==> live[idx].key == key
    ensures idx == -1 ==> key !in KeysOf(live)
  {
    var lo, hi := 0, |live|;
    while lo < hi
      invariant 0 <= lo <= hi <= |live|
      invariant forall i :: 0 <= i < lo ==> live[i].key < key
      invariant forall i :: hi <= i < |live| ==> key < live[i].key
    {
      var mid := (lo + hi) / 2;
      if live[mid].key < key {
        lo := mid + 1;
      } else if key < live[mid].key {
        hi := mid;
      } else {
        return mid;
      }
    }
    return -1;
  }

  /**
   * The slots after the entry at `idx` is removed: the live entries before and
   * after it close up, and its slot, now vacant, sits just past them.
   */
  function DropSlot(data: seq<Item>, count: nat, idx: nat): (r: seq<Item>)
    requires idx < count <= |data|
    ensures |r| == |data|
    ensures r[..count - 1] == data[..idx] + data[idx + 1..count]
    ensures r[count - 1] == Vacant
    ensures r[count..] == data[count..]
  {
    var r := data[..idx] + data[idx + 1..count] + [Vacant] + data[count..];
    assert r[..count - 1] == data[..idx] + data[idx + 1..count];
    assert r[count..] == data[count..];
    r
  }

  /**
   * The list's invariant: `length` slots, a multiple of ten and at least ten,
   * holding between `length - 10` and `length` live entries in the first slots,
   * sorted by key, with keys below the insertion counter; vacant slots carry
   * the removal marker.
   */
  ghost predicate WellFormed(data: seq<Item>, length: nat, itemsCount: nat, insertCount: nat, itemSize: nat)
  {
    && |data| == length
    && LIST_LENGTH_INCREMENT <= length && length % LIST_LENGTH_INCREMENT == 0
    && length - LIST_LENGTH_INCREMENT <= itemsCount <= length
    && SortedByKey(data[..itemsCount])
    && (forall i :: 0 <= i < itemsCount ==> 0 <= data[i].key < insertCount && |data[i].data| == itemSize)
    && (forall i :: itemsCount <= i < length ==> data[i].key == RemovedKey)
  }

  /** The capacity after a removal leaves `count` entries in `length` slots. */
  function ShrunkLength(length: nat, count: nat): (r: nat)
    ensures r <= length
    ensures r < length <==> count + LIST_LENGTH_INCREMENT < length
    ensures r < length ==> r + LIST_LENGTH_INCREMENT == length
    ensures count <= length ==> count <= r
  {
    if count < length - LIST_LENGTH_INCREMENT then length - LIST_LENGTH_INCREMENT else length
  }

  /** Removing the entry at `idx` and then shrinking keeps the list well formed. */
  lemma RemoveWellFormed(data: seq<Item>, length: nat, count: nat, insertCount: nat, itemSize: nat, idx: nat)
    requires WellFormed(data, length, count, insertCount, itemSize) && idx < count
    ensures var newLength := ShrunkLength(length, count - 1);
            && newLength <= length
            && WellFormed(DropSlot(data, count, idx)[..newLength], newLength, count - 1, insertCount, itemSize)
            && DropSlot(data, count, idx)[..newLength][..count - 1] == data[..idx] + data[idx + 1..count]
  {
    var d := DropSlot(data, count, idx);
    var newLength := ShrunkLength(length, count - 1);
    var live := data[..count];
    SortedDrop(live, idx);
    assert live[..idx] + live[idx + 1..] == data[..idx] + data[idx + 1..count];
    assert d[..newLength][..count - 1] == d[..count - 1];
    forall i | count - 1 <= i < newLength ensures d[i].key == RemovedKey {
      if i >= count {
        assert d[i] == d[count..][i - count];
      }
    }
  }

  /** Overwriting the value at live slot `slot` keeps the list well formed. */
  lemma SetWellFormed(data: seq<Item>, length: nat, count: nat, insertCount: nat, itemSize: nat, slot: nat, value: seq<byte>)
    requires WellFormed(data, length, count, insertCount, itemSize) && slot < count && |value| == itemSize
    ensures WellFormed(data[slot := Item(data[slot].key, value)], length, count, insertCount, itemSize)
  {
    var d := data[slot := Item(data[slot].key, value)];
    assert forall i :: 0 <= i < |d| ==> d[i].key == data[i].key;
    assert SortedByKey(d[..count]) by {
      forall i, j | 0 <= i < j < count ensures d[..count][i].key < d[..count][j].key {
        assert data[..count][i].key < data[..count][j].key;
      }
    }
  }

  /** Appending an entry under a fresh key, after growing when full, keeps the list well formed. */
  lemma InsertWellFormed(data: seq<Item>, length: nat, count: nat, insertCount: nat, itemSize: nat, value: seq<byte>)
    requires WellFormed(data, length, count, insertCount, itemSize) && |value| == itemSize
    ensures var grown := if count + 1 > length then data + seq(LIST_LENGTH_INCREMENT, _ => Vacant) else data;
            var newLength := if count + 1 > length then length + LIST_LENGTH_INCREMENT else length;
            && count < |grown|
            && WellFormed(grown[count := Item(insertCount, value)], newLength, count + 1, insertCount + 1, itemSize)
            && grown[count := Item(insertCount, value)][..count + 1] == data[..count] + [Item(insertCount, value)]
  {
    var grown := if count + 1 > length then data + seq(LIST_LENGTH_INCREMENT, _ => Vacant) else data;
    var d := grown[count := Item(insertCount, value)];
    assert grown[..count] == data[..count];
    assert d[..count + 1] == data[..count] + [Item(insertCount, value)];
  }

  class SortedList {
    var data: seq<Item>
    var length: nat
    var itemsCount: nat
    var insertCount: nat
    const itemSize: nat
    /** Whether the list's access lock is held. */
    ghost var held: bool

    ghost predicate Valid()
      reads this
    {
      WellFormed(data, length, itemsCount, insertCount, itemSize)
    }

    /** The live entries, in ascending key order. */
    ghost function Entries(): seq<Item>
      reads this
      requires Valid()
    {
      data[..itemsCount]
    }

    /** `TSL_Create`: ten vacant slots, no entries, insertion counter at 0, lock free. */
    constructor (itemSize: nat)
      ensures Valid() && !held
      ensures this.itemSize == itemSize
      ensures Entries() == [] && length == LIST_LENGTH_INCREMENT && insertCount == 0
    {
      data := seq(LIST_LENGTH_INCREMENT, _ => Vacant);
      length := LIST_LENGTH_INCREMENT;
      itemsCount, insertCount := 0, 0;
      this.itemSize := itemSize;
      held := false;
    }

    /**
     * `TSL_GetItemsCount`: despite its name it reports the capacity `length`, a
     * multiple of ten that is at least the number of entries and at most ten more.
     */
    function GetItemsCount(): (n: nat)
      reads this
      requires Valid()
      ensures |Entries()| <= n <= |Entries()| + LIST_LENGTH_INCREMENT
      ensures n % LIST_LENGTH_INCREMENT == 0 && LIST_LENGTH_INCREMENT <= n
    {
      length
    }

    /**
     * `TSL_Insert`: under the lock, grow by ten slots when full, store the value
     * under key `insertCount`, bump both counters, release the lock. The new key
     * exceeds every live key, so the re-sort leaves the entries as they are. The
     * value returned is the incremented counter, one more than the key stored.
     */
    method Insert(dataIn: seq<byte>) returns (r: nat)
      requires Valid() && !held && |dataIn| == itemSize
      modifies this
      ensures Valid() && !held
      ensures Entries() == old(Entries()) + [Item(old(insertCount), dataIn)]
      ensures forall k :: k in KeysOf(old(Entries())) ==> k < old(insertCount)
      ensures insertCount == old(insertCount) + 1 && r == insertCount
      ensures r !in KeysOf(Entries())
      ensures length == if old(itemsCount) + 1 > old(length) then old(length) + LIST_LENGTH_INCREMENT else old(length)
    {
      held := true;
      InsertWellFormed(data, length, itemsCount, insertCount, itemSize, dataIn);
      var grown := data;
      if itemsCount + 1 > length {
        length := length + LIST_LENGTH_INCREMENT;
        grown := data + seq(LIST_LENGTH_INCREMENT, _ => Vacant);
      }
      data := grown[itemsCount := Item(insertCount, dataIn)];
      insertCount := insertCount + 1;
      itemsCount := itemsCount + 1;
      held := false;
      r := insertCount;
    }

    /**
     * The removal proper: the entry at `idx` leaves the live range, which
     * closes up, and the capacity shrinks by ten when it falls more than ten
     * below it.
     */
    method DropEntry(idx: nat)
      requires Valid() && idx < itemsCount
      modifies this`data, this`itemsCount, this`length
      ensures Valid()
      ensures Entries() == old(Entries()[..idx] + Entries()[idx + 1..])
      ensures itemsCount == old(itemsCount) - 1
      ensures length == ShrunkLength(old(length), old(itemsCount) - 1)
    {
      RemoveWellFormed(data, length, itemsCount, insertCount, itemSize, idx);
      var newLength := ShrunkLength(length, itemsCount - 1);
      data := DropSlot(data, itemsCount, idx)[..newLength];
      itemsCount := itemsCount - 1;
      length := newLength;
    }

    /**
     * `TSL_Remove`: under the lock, fail on an empty list or an absent key and
     * return WITHOUT releasing the lock. Otherwise drop exactly the entry with
     * that key (its slot, marked removed, moves past the live entries), shrink
     * by ten slots when the entries fall more than ten below the capacity,
     * release the lock and succeed.
     */
    method Remove(key: int) returns (ok: bool)
      requires Valid() && !held
      modifies this`data, this`itemsCount, this`length, this`held
      ensures Valid()
      ensures ok == (key in KeysOf(old(Entries())))
      ensures held == !ok
      ensures ok ==> Entries() == Without(old(Entries()), key)
      ensures !ok ==> data == old(data) && itemsCount == old(itemsCount) && length == old(length)
      ensures insertCount == old(insertCount)
      ensures ok ==> length == ShrunkLength(old(length), old(itemsCount) - 1)
    {
      held := true;
      if itemsCount == 0 {
        return false;
      }
      var idx := BinarySearch(data[..itemsCount], key);
      if idx < 0 {
        return false;
      }
      WithoutAt(data[..itemsCount], idx);
      DropEntry(idx);
      held := false;
      ok := true;
    }

    /**
     * `TSL_AcquireItem`: take the lock and locate `key`; the lock stays held
     * whether or not the key is found. The result is the entry's slot (the
     * pointer to its value), or -1 for a null pointer.
     */
    method AcquireItem(key: int) returns (slot: int)
      requires Valid() && !held
      modifies this`held
      ensures Valid() && held
      ensures -1 <= slot < itemsCount
      ensures slot == -1 <==> key !in KeysOf(Entries())
      ensures 0 <= slot ==> data[slot].key == key
      ensures 0 <= slot ==> Lookup(Entries(), key) == Some(data[slot].data)
    {
      held := true;
      slot := BinarySearch(data[..itemsCount], key);
      if 0 <= slot {
        LookupAt(data[..itemsCount], slot);
      }
    }

    /** `TSL_ReleaseItem`: release the lock taken by `AcquireItem`. */
    method ReleaseItem()
      requires held
      modifies this`held
      ensures !held
    {
      held := false;
    }

    /**
     * `TSL_GetItem`: an absent key fails and leaves the lock held; a present key
     * copies its value out, releases the lock and succeeds.
     */
    method GetItem(key: int) returns (ok: bool, dataOut: seq<byte>)
      requires Valid() && !held
      modifies this`held
      ensures Valid()
      ensures ok == (key in KeysOf(Entries()))
      ensures held == !ok
      ensures ok ==> Lookup(Entries(), key) == Some(dataOut)
    {
      dataOut := [];
      var slot := AcquireItem(key);
      if slot < 0 {
        return false, dataOut;
      }
      dataOut := data[slot].data;
      ReleaseItem();
      ok := true;
    }

    /** The `memcpy` into a found entry: the value stored under that entry's key is replaced. */
    method Overwrite(slot: nat, value: seq<byte>)
      requires Valid() && held && slot < itemsCount && |value| == itemSize
      modifies this`data
      ensures Valid()
      ensures Entries() == Update(old(Entries()), old(data[slot].key), value)
    {
      ghost var live := data[..itemsCount];
      SetWellFormed(data, length, itemsCount, insertCount, itemSize, slot, value);
      UpdateAt(live, slot, value);
      data := data[slot := Item(data[slot].key, value)];
      assert data[..itemsCount] == live[slot := Item(live[slot].key, value)];
    }

    /**
     * `TSL_SetItem`: an absent key fails and leaves the lock held; a present key
     * has its value overwritten when `dataIn` is non-null, then the lock is
     * released and the call succeeds.
     */
    method SetItem(key: int, dataIn: Option<seq<byte>>) returns (ok: bool)
      requires Valid() && !held
      requires dataIn.Some? ==> |dataIn.value| == itemSize
      modifies this`data, this`held
      ensures Valid()
      ensures ok == (key in KeysOf(old(Entries())))
      ensures held == !ok
      ensures Entries() == if ok && dataIn.Some? then Update(old(Entries()), key, dataIn.value) else old(Entries())
      ensures length == old(length) && insertCount == old(insertCount)
    {
      var slot := AcquireItem(key);
      if slot < 0 {
        return false;
      }
      if dataIn.Some? {
        Overwrite(slot, dataIn.value);
      }
      ReleaseItem();
      ok := true;
    }
  }

  /**
   * `TSL_GetIndexKey`: -1 for a null list or an index past `itemsCount`;
   * otherwise the key in that slot. The index `itemsCount` itself is let
   * through, and reads the first slot past the live entries.
   */
  function GetIndexKey(list: SortedList?, index: nat): (key: int)
    reads list
    requires list != null ==> list.Valid()
    requires list != null && index <= list.itemsCount ==> index < list.length
    ensures list == null ==> key == -1
    ensures list != null && index < list.itemsCount ==> key == list.Entries()[index].key
    ensures list != null && index == list.itemsCount ==> key == RemovedKey && key !in KeysOf(list.Entries())
    ensures list != null && index > list.itemsCount ==> key == -1
  {
    if list == null then -1
    else if index > list.itemsCount then -1
    else list.data[index].key
  }

  /**
   * Insert A and B, remove the first key: with the intended removal the key at
   * index 0 is then the second key; the value `Insert` returned is one past
   * the key it stored.
   */
  method ListScenario()
  {
    var list := new SortedList(1);
    var r0 := list.Insert([0x41]);
    var r1 := list.Insert([0x42]);
    assert r0 == 1 && r1 == 2;
    assert list.Entries() == [Item(0, [0x41]), Item(1, [0x42])];
    var ok := list.Remove(r0 - 1);
    assert ok && !list.held;
    assert list.Entries() == [Item(1, [0x42])] by {
      WithoutAt([Item(0, [0x41]), Item(1, [0x42])], 0);
    }
    assert GetIndexKey(list, 0) == 1;
    assert list.GetItemsCount() == 10;
  }
}

/**
 * `TSL_Remove` as written marks the removed slot with `0xFFFFFFFF`, which a
 * 32-bit `int` holds as -1, and re-sorts ascending by key. Even taking the
 * sort to cover exactly the live slots, the marker then sorts FIRST, so after
 * `itemsCount` is decremented the dead slot is still counted as live and the
 * entry with the largest key falls out of the live range.
 */
module ListRemovalAsWritten {
  import opened Common
  import opened Lists

  /** The live slots after marking the slot at `idx`, in the order an ascending sort leaves them. */
  function MarkedAndSorted(live: seq<Item>, idx: nat): seq<Item>
    requires idx < |live|
  {
    [Item(RemovedKey, live[idx].data)] + live[..idx] + live[idx + 1..]
  }

  /** The live entries `TSL_Remove` leaves behind as written: the first `itemsCount - 1` sorted slots. */
  function RemoveAsWritten(live: seq<Item>, idx: nat): (r: seq<Item>)
    requires idx < |live|
    ensures |r| == |live| - 1
  {
    MarkedAndSorted(live, idx)[..|live| - 1]
  }

  /**
   * `MarkedAndSorted` is what the ascending sort produces: it is sorted and a
   * permutation of the slots with the marker written in (distinct keys make
   * the sorted permutation unique).
   */
  lemma MarkedAndSortedIsTheSort(live: seq<Item>, idx: nat)
    requires SortedByKey(live) && idx < |live|
    requires forall i :: 0 <= i < |live| ==> 0 <= live[i].key
    ensures SortedByKey(MarkedAndSorted(live, idx))
    ensures multiset(MarkedAndSorted(live, idx)) == multiset(live[idx := Item(RemovedKey, live[idx].data)])
  {
    var m := Item(RemovedKey, live[idx].data);
    var s := MarkedAndSorted(live, idx);
    SortedDrop(live, idx);
    var rest := live[..idx] + live[idx + 1..];
    assert s == [m] + rest;
    forall j | 0 < j < |s| ensures m.key < s[j].key {
      var j' := if j - 1 < idx then j - 1 else j;
      assert s[j] == live[j'];
    }
    assert live[idx := m] == live[..idx] + [m] + live[idx + 1..];
  }

  /**
   * With at least two entries, whichever entry is removed, the dead slot
   * stays live at position 0 and the entry with the largest key is lost.
   */
  lemma RemoveAsWrittenLosesLargest(live: seq<Item>, idx: nat)
    requires SortedByKey(live) && 1 < |live| && idx < |live|
    requires forall i :: 0 <= i < |live| ==> 0 <= live[i].key
    ensures RemoveAsWritten(live, idx)[0].key == RemovedKey
    ensures live[|live| - 1].key !in KeysOf(RemoveAsWritten(live, idx))
    ensures RemoveAsWritten(live, idx) != Without(live, live[idx].key)
  {
    var r := RemoveAsWritten(live, idx);
    var last := live[|live| - 1];
    forall e | e in r ensures e.key != last.key {
      var j :| 0 <= j < |r| && r[j] == e;
      if j > 0 {
        MarkedAndSortedAt(live, idx, j);
        var j' := if j - 1 < idx then j - 1 else j;
        assert live[j'].key < last.key;
      }
    }
    WithoutAt(live, idx);
    var w := Without(live, live[idx].key);
    assert w[0] in live;
  }

  /** Past the marker, slot `j` of the marked and sorted slots holds the live entry just before or at `j`. */
  lemma MarkedAndSortedAt(live: seq<Item>, idx: nat, j: nat)
    requires idx < |live| && 0 < j < |live|
    ensures MarkedAndSorted(live, idx)[j] == if j - 1 < idx then live[j - 1] else live[j]
  {
    var s := MarkedAndSorted(live, idx);
    if j - 1 < idx {
      assert s[j] == live[..idx][j - 1];
    } else {
      assert s[j] == live[idx + 1..][j - 1 - idx];
    }
  }

  /**
   * Insert A (key 0) and B (key 1), remove key 0: as written the only live
   * entry is the dead slot (key -1), while the intended result holds B alone.
   */
  lemma RemoveAsWrittenCounterexample()
    ensures var live := [Item(0, [0x41]), Item(1, [0x42])];
            && RemoveAsWritten(live, 0) == [Item(RemovedKey, [0x41])]
            && Without(live, 0) == [Item(1, [0x42])]
  {
    var live := [Item(0, [0x41]), Item(1, [0x42])];
    assert live[1..] == [Item(1, [0x42])];
    assert Without(live[1..][1..], 0) == [];
  }
}
