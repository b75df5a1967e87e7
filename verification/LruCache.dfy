/** The least-recently-used cache as a doubly linked list with a hash map and a byte budget. */
module LruCaches {
  import opened LruLists
  import opened Results

  class DatabaseCacheRecord<V> {
    const key: string
    var value: V
    var next: DatabaseCacheRecord?<V>
    var prev: DatabaseCacheRecord?<V>
    const size: nat

    constructor (key: string, value: V, size: nat)
      ensures this.key == key && this.value == value && this.size == size
    {
      this.key, this.value, this.size := key, value, size;
      next, prev := null, null;
    }
  }

  class DatabaseCache<V(!new)> {
    var maxSize: nat
    var currentSize: nat
    var cacheMap: map<string, DatabaseCacheRecord<V>>
    var head: DatabaseCacheRecord?<V>
    var last: DatabaseCacheRecord?<V>
    var attempts: nat
    var hits: nat
    const sizeOf: (string, V) -> nat
    ghost var records: seq<DatabaseCacheRecord<V>>
    ghost var items: seq<Item<V>>

    ghost function At(i: int): DatabaseCacheRecord?<V>
      reads `records
    {
      if 0 <= i < |records| then records[i] else null
    }

    ghost predicate LinkedAt(i: int)
      requires 0 <= i < |records|
      reads `records, records
    {
      records[i].prev == At(i - 1) && records[i].next == At(i + 1)
    }

    ghost predicate MappedAt(i: int)
      requires 0 <= i < |records|
      reads `records, `cacheMap, records
    {
      records[i].key in cacheMap && cacheMap[records[i].key] == records[i]
    }

    ghost predicate KeyLeads(key: string)
      reads `records, `cacheMap, records
    {
      key in cacheMap ==> cacheMap[key] in records && cacheMap[key].key == key
    }

    ghost predicate ItemAt(i: int)
      requires 0 <= i < |records| && i < |items|
      reads `records, `items, records
    {
      items[i] == Item(records[i].key, records[i].value, records[i].size)
    }

    /** The records form one list from head to last, linked both ways. */
    ghost predicate Linked()
      reads `records, `head, `last, records
    {
      && head == At(0) && last == At(|records| - 1)
      && (forall i :: 0 <= i < |records| ==> LinkedAt(i))
      && (forall i, j :: 0 <= i < j < |records| ==> records[i] != records[j])
    }

    /** The map leads from every key to the one record of that key. */
    ghost predicate Mapped()
      reads `records, `cacheMap, records
    {
      && (forall i :: 0 <= i < |records| ==> MappedAt(i))
      && (forall k :: KeyLeads(k))
    }

    ghost predicate Abstracts()
      reads `records, `items, records
    {
      |items| == |records| && forall i :: 0 <= i < |items| ==> ItemAt(i)
    }

    ghost predicate Valid()
      reads `records, `items, `head, `last, `cacheMap, `currentSize, records
    {
      Linked() && Mapped() && Abstracts() && currentSize == Sum(items)
    }

    lemma KeysDistinct()
      requires Valid()
      ensures Distinct(items)
    {
      forall i, j | 0 <= i < j < |items| ensures items[i].key != items[j].key {
        assert ItemAt(i) && ItemAt(j) && MappedAt(i) && MappedAt(j);
        assert records[i] != records[j];
      }
    }

    constructor (sizeOf: (string, V) -> nat)
      ensures Valid() && items == [] && maxSize == 0 && attempts == 0 && hits == 0 && this.sizeOf == sizeOf
    {
      maxSize, currentSize, cacheMap, head, last, attempts, hits := 0, 0, map[], null, null, 0, 0;
      this.sizeOf := sizeOf;
      records, items := [], [];
      new;
      assert Linked() && Mapped() && Abstracts();
    }

    method SetMaxSize(size: nat)
      requires Valid()
      modifies `maxSize
      ensures Valid() && maxSize == size && items == old(items)
    {
      maxSize := size;
    }

    /** The pointers of a record that is not the first one, and of its neighbours, when it moves to the
        front */
    method Splice(record: DatabaseCacheRecord<V>, ghost i: nat)
      requires Linked() && 0 < i < |records| && records[i] == record
      modifies `head, `last, records
      ensures head == record && record.prev == null && record.next == records[0]
      ensures last == if i == |records| - 1 then records[i - 1] else old(last)
      ensures forall j {:trigger records[j]} :: 0 <= j < |records| && j != i ==>
                && records[j].prev == (if j == 0 then record else if j == i + 1 then records[i - 1]
                  else old(records[j].prev))
                && records[j].next == (if j == i - 1 then old(record.next) else old(records[j].next))
      ensures forall j {:trigger records[j]} :: 0 <= j < |records| ==> records[j].value == old(records[j].value)
    {
      assert LinkedAt(i) && LinkedAt(i - 1) && LinkedAt(0);
      if i + 1 < |records| { assert LinkedAt(i + 1); }
      record.prev.next := record.next;
      if last == record {
        last := record.prev;
      } else {
        record.next.prev := record.prev;
      }
      head.prev := record;
      record.prev := null;
      record.next := head;
      head := record;
    }

    /** The record at `i` is first, the others keep their order. */
    static ghost predicate InFront(after: seq<DatabaseCacheRecord<V>>, before: seq<DatabaseCacheRecord<V>>, i: nat) {
      i < |before| && after == [before[i]] + before[..i] + before[i + 1..]
    }

    /** Unlinking a record that is not the first one, and linking it in front */
    method Relink(record: DatabaseCacheRecord<V>, ghost i: nat)
      requires Linked() && 0 < i < |records| && records[i] == record
      modifies `head, `last, `records, records
      ensures Linked() && head == record && InFront(records, old(records), i)
      ensures forall r {:trigger r.value} :: r in old(records) ==> r.value == old(r.value)
    {
      ghost var before := records;
      ghost var after := [record] + before[..i] + before[i + 1..];
      MovedRecords(before, i, after);
      assert LinkedAt(i);
      Splice(record, i);
      records := after;
      forall j | 0 <= j < |records| ensures LinkedAt(j) {
        ghost var p := if j == 0 then i else if j <= i then j - 1 else j;
        assert records[j] == before[p];
        assert old(LinkedAt(p));
      }
    }

    /** A hit that is not the first record moves to the front. */
    method MoveToHead(record: DatabaseCacheRecord<V>, ghost i: nat)
      requires Valid() && 0 < i < |records| && records[i] == record
      modifies `head, `last, `records, `items, records
      ensures Valid() && items == Touched(old(items), i) && head == record
      ensures forall r :: r in records <==> r in old(records)
    {
      hide Sum, Touched, LinkedAt, InFront, Mapped, Linked, MapsTo;
      ghost var before := records;
      MapOfRecords();
      Relink(record, i);
      SameRecords(before, i, records);
      SameRecordsMapped(before);
      forall p | 0 <= p < |before|
        ensures items[p] == Item(before[p].key, before[p].value, before[p].size)
      {
        assert old(ItemAt(p));
      }
      TouchItems(before, i);
    }

    /** The items follow their records. */
    ghost method TouchItems(before: seq<DatabaseCacheRecord<V>>, i: nat)
      requires i < |before| == |records| == |items| && InFront(records, before, i)
      requires forall p :: 0 <= p < |before| ==> items[p] == Item(before[p].key, before[p].value, before[p].size)
      requires Linked() && Mapped() && currentSize == Sum(items)
      modifies `items
      ensures Valid() && items == Touched(old(items), i)
    {
      SumTouched(items, i);
      hide Linked, Mapped, Sum;
      items := Touched(items, i);
    }

    /** The map leads from the key of every record to the record, and to nothing else. */
    static ghost predicate MapsTo(m: map<string, DatabaseCacheRecord<V>>, rs: seq<DatabaseCacheRecord<V>>) {
      && (forall p :: 0 <= p < |rs| ==> rs[p].key in m && m[rs[p].key] == rs[p])
      && (forall k :: k in m ==> m[k] in rs && m[k].key == k)
    }

    lemma MapOfRecords()
      requires Mapped()
      ensures MapsTo(cacheMap, records)
    {
      forall p | 0 <= p < |records|
        ensures records[p].key in cacheMap && cacheMap[records[p].key] == records[p]
      {
        assert MappedAt(p);
      }
      forall k | k in cacheMap ensures cacheMap[k] in records && cacheMap[k].key == k { assert KeyLeads(k); }
    }

    /** The map does not depend on the order of the records. */
    lemma SameRecordsMapped(before: seq<DatabaseCacheRecord<V>>)
      requires MapsTo(cacheMap, before) && forall r :: r in records <==> r in before
      ensures Mapped()
    {
      forall j | 0 <= j < |records| ensures MappedAt(j) { assert records[j] in before; }
      forall k ensures KeyLeads(k) {}
    }

    static lemma SameRecords(before: seq<DatabaseCacheRecord<V>>, i: nat, after: seq<DatabaseCacheRecord<V>>)
      requires InFront(after, before, i)
      ensures |after| == |before| && after[0] == before[i] && forall r :: r in after <==> r in before
    {
      assert before == before[..i] + [before[i]] + before[i + 1..];
    }

    static lemma MovedRecords(before: seq<DatabaseCacheRecord<V>>, i: nat, after: seq<DatabaseCacheRecord<V>>)
      requires InFront(after, before, i)
      requires forall a, b :: 0 <= a < b < |before| ==> before[a] != before[b]
      ensures |after| == |before| && after[0] == before[i]
      ensures forall j :: 0 < j <= i ==> after[j] == before[j - 1]
      ensures forall j :: i < j < |before| ==> after[j] == before[j]
      ensures forall a, b :: 0 <= a < b < |after| ==> after[a] != after[b]
      ensures forall r :: r in after <==> r in before
    {
      assert before == before[..i] + [before[i]] + before[i + 1..];
      forall a, b | 0 <= a < b < |after| ensures after[a] != after[b] {
        var x := if a == 0 then i else if a <= i then a - 1 else a;
        var y := if b <= i then b - 1 else b;
        assert after[a] == before[x] && after[b] == before[y] && x != y;
      }
    }

    /** `findKey`: a hit moves the record to the front. */
    method FindKey(key: string) returns (record: DatabaseCacheRecord?<V>)
      requires Valid()
      modifies `head, `last, `records, `items, `attempts, `hits, records
      ensures Valid() && items == Found(old(items), key)
      ensures forall r :: r in records <==> r in old(records)
      ensures record == null <==> IndexOf(old(items), key) == |old(items)|
      ensures record != null ==> |records| > 0 && record == records[0] && record.key == key
      ensures attempts == old(attempts) + 1 && hits == old(hits) + (if record != null then 1 else 0)
    {
      hide Sum, Linked, Mapped, Abstracts, IndexOf, Touched;
      attempts := attempts + 1;
      if key in cacheMap {
        hits := hits + 1;
        record := cacheMap[key];
        ghost var i := PlaceOf(key);
        FirstInPlace();
        if head != record {
          MoveToHead(record, i);
        }
        HeadIsFirst();
      } else {
        record := null;
        NoPlace(key);
      }
    }

    lemma PlaceOf(key: string) returns (i: nat)
      requires Valid() && key in cacheMap
      ensures i < |records| == |items| && records[i] == cacheMap[key] && records[i].key == key
      ensures IndexOf(items, key) == i
      ensures head == cacheMap[key] <==> i == 0
    {
      hide Sum, IndexOf;
      KeysDistinct();
      assert KeyLeads(key);
      i :| 0 <= i < |records| && records[i] == cacheMap[key];
      assert ItemAt(i);
      IndexIs(items, i);
      assert i > 0 ==> records[0] != records[i];
    }

    lemma HeadIsFirst()
      requires Valid()
      ensures head == At(0)
    {
    }

    lemma FirstInPlace()
      requires Valid() && |items| > 0
      ensures Touched(items, 0) == items
    {
    }

    lemma NoPlace(key: string)
      requires Valid() && key !in cacheMap
      ensures IndexOf(items, key) == |items|
    {
      hide Sum;
      AbsentIndex(items, key);
      forall i | 0 <= i < |items| ensures items[i].key != key { assert ItemAt(i) && MappedAt(i); }
    }

    /** `find` of the derived caches */
    method Find(key: string) returns (value: Option<V>)
      requires Valid()
      modifies `head, `last, `records, `items, `attempts, `hits, records
      ensures Valid() && forall r :: r in records <==> r in old(records)
      ensures items == (if maxSize == 0 then old(items) else Found(old(items), key))
      ensures value == if maxSize == 0 then None else ValueOf(old(items), key)
    {
      if maxSize == 0 {
        return None;
      }
      var record := FindKey(key);
      if record == null {
        return None;
      }
      assert ItemAt(0);
      return Some(record.value);
    }

    /** The pointers of a new record in front */
    method LinkFront(record: DatabaseCacheRecord<V>)
      requires Linked() && record !in records
      modifies `head, `last, `records, record`prev, record`next, records
      ensures Linked() && records == [record] + old(records)
      ensures forall r {:trigger r.value} :: r in old(records) || r == record ==> r.value == old(r.value)
    {
      ghost var before := records;
      if |before| > 0 { assert LinkedAt(0); }
      record.prev := null;
      if head == null {
        record.next := null;
        last := record;
      } else {
        record.next := head;
        head.prev := record;
      }
      head := record;
      records := [record] + records;
      forall j | 0 <= j < |records| ensures LinkedAt(j) {
        if j > 0 { assert records[j] == before[j - 1] && old(LinkedAt(j - 1)); }
      }
      forall a, b | 0 <= a < b < |records| ensures records[a] != records[b] {
        assert records[b] == before[b - 1];
        if a > 0 { assert records[a] == before[a - 1]; }
      }
    }

    /** A new record in front */
    method PushFront(record: DatabaseCacheRecord<V>)
      requires Valid() && record !in records && record.key !in cacheMap
      modifies `head, `last, `records, `items, `cacheMap, `currentSize, record`prev, record`next, records
      ensures Valid() && records == [record] + old(records)
      ensures items == [Item(record.key, record.value, record.size)] + old(items)
    {
      hide Linked, LinkedAt;
      ghost var before := records;
      LinkFront(record);
      cacheMap := cacheMap[record.key := record];
      currentSize := currentSize + record.size;
      items := [Item(record.key, record.value, record.size)] + items;
      forall j | 0 <= j < |records| ensures MappedAt(j) && ItemAt(j) {
        if j > 0 {
          assert records[j] == before[j - 1];
          assert old(MappedAt(j - 1)) && old(ItemAt(j - 1));
        }
      }
      forall k ensures KeyLeads(k) { assert old(KeyLeads(k)); }
    }

    /** The last record leaves the list. */
    method UnlinkLast()
      requires Linked() && |records| > 1
      modifies `last, `records, records
      ensures Linked() && records == old(records[..|records| - 1])
      ensures forall r {:trigger r.value} :: r in old(records) ==> r.value == old(r.value)
    {
      ghost var before, n := records, |records| - 1;
      assert LinkedAt(n) && LinkedAt(n - 1);
      last.prev.next := null;
      last := last.prev;
      records := records[..n];
      forall j | 0 <= j < n ensures LinkedAt(j) {
        assert records[j] == before[j] && before[j] != before[n];
        assert old(LinkedAt(j));
      }
    }

    /** The key of a record that just left the list is forgotten. */
    method Forget(tmp: DatabaseCacheRecord<V>)
      requires tmp !in records && tmp.key in cacheMap && cacheMap[tmp.key] == tmp
      requires forall i :: 0 <= i < |records| ==> MappedAt(i)
      requires forall k :: k in cacheMap ==> cacheMap[k].key == k && (cacheMap[k] == tmp || cacheMap[k] in records)
      modifies `cacheMap
      ensures Mapped()
    {
      cacheMap := map k | k in cacheMap && k != tmp.key :: cacheMap[k];
      forall i | 0 <= i < |records| ensures MappedAt(i) {
        assert old(MappedAt(i)) && records[i] in records;
      }
      forall k ensures KeyLeads(k) {}
    }

    /** The last record is unlinked and forgotten. */
    method DropLast()
      requires Valid() && |records| > 1
      modifies `last, `records, `items, `cacheMap, `currentSize, records
      ensures Valid() && records == old(records[..|records| - 1]) && items == old(items[..|items| - 1])
    {
      hide Sum, Linked, LinkedAt;
      ghost var before, n := records, |records| - 1;
      var tmp := last;
      LastIsEnd();
      UnlinkLast();
      assert before == records + [tmp];
      forall j | 0 <= j < n ensures MappedAt(j) { assert records[j] == before[j] && old(MappedAt(j)); }
      forall k | k in cacheMap ensures cacheMap[k].key == k && (cacheMap[k] == tmp || cacheMap[k] in records) {
        assert old(KeyLeads(k));
      }
      assert tmp.key in cacheMap && cacheMap[tmp.key] == tmp by { assert old(MappedAt(n)); }
      Forget(tmp);
      hide Mapped;
      SumLast(items);
      assert items[n].size == tmp.size by { assert old(ItemAt(n)); }
      currentSize := currentSize - tmp.size;
      items := items[..n];
      forall j | 0 <= j < n ensures ItemAt(j) { assert records[j] == before[j] && old(ItemAt(j)); }
    }

    lemma LastIsEnd()
      requires Linked()
      ensures last == At(|records| - 1)
      ensures forall i, j :: 0 <= i < j < |records| ==> records[i] != records[j]
    {
    }

    /** Records are dropped from the end until the budget is met or one record is left. */
    method Evict()
      requires Valid() && |records| > 0
      modifies `last, `records, `items, `cacheMap, `currentSize, records
      ensures Valid() && items == Evicted(old(items), maxSize)
      ensures records <= old(records) && |records| > 0
    {
      while currentSize > maxSize && last.prev != null
        invariant Valid() && |records| > 0 && records <= old(records)
        invariant Evicted(items, maxSize) == Evicted(old(items), maxSize)
        decreases |records|
      {
        assert LinkedAt(|records| - 1);
        DropLast();
      }
      assert LinkedAt(|records| - 1);
    }

    /** `addKeyValue`: true when the cache is switched off, when the budget was exceeded, and after an
        update. */
    method AddKeyValue(key: string, value: V, update: bool) returns (full: bool)
      requires Valid()
      modifies this, records
      ensures Valid() && maxSize == old(maxSize)
      ensures forall r :: r in records ==> r in old(records) || fresh(r)
      ensures items == if maxSize == 0 then old(items)
                       else Added(old(items), maxSize, Item(key, value, sizeOf(key, value)), update)
      ensures full == (maxSize == 0 || (if IndexOf(old(items), key) < |old(items)| then update
                                        else Sum(old(items)) + sizeOf(key, value) > maxSize))
    {
      if maxSize == 0 {
        return true;
      }
      var record := FindKey(key);
      hide Linked, Mapped, Abstracts, Evicted, Touched;
      assert forall i :: 0 <= i < |records| ==> records[i] in old(records);
      if record != null {
        if update {
          Update(value);
          return true;
        } else {
          return false;
        }
      }
      full := InsertNew(key, value);
    }

    /** A key that is not cached: its record goes to the front, and old ones make room. */
    method InsertNew(key: string, value: V) returns (full: bool)
      requires Valid() && IndexOf(items, key) == |items|
      modifies this, records
      ensures Valid() && maxSize == old(maxSize)
      ensures forall r :: r in records ==> r in old(records) || fresh(r)
      ensures items == Evicted([Item(key, value, sizeOf(key, value))] + old(items), maxSize)
      ensures full == (Sum(old(items)) + sizeOf(key, value) > maxSize)
    {
      hide Linked, Mapped, Abstracts, Evicted;
      assert key !in cacheMap by { AbsentIndex(items, key); if key in cacheMap { KeyHasIndex(key); } }
      var record := new DatabaseCacheRecord(key, value, sizeOf(key, value));
      PushFront(record);
      assert forall i :: 0 <= i < |records| ==> records[i] in old(records) || fresh(records[i]);
      SumOne(items[0]);
      SumConcat([items[0]], items[1..]);
      full := currentSize > maxSize;
      Evict();
    }

    lemma KeyHasIndex(key: string)
      requires Valid() && key in cacheMap
      ensures exists i :: 0 <= i < |items| && items[i].key == key
    {
      assert KeyLeads(key);
      var i :| 0 <= i < |records| && records[i] == cacheMap[key];
      assert ItemAt(i) && items[i].key == key;
    }

    /** `updateRecord` of the first record: the value is replaced, the accounted size stays. */
    method Update(value: V)
      requires Valid() && |records| > 0
      modifies `items, records
      ensures Valid() && items == old(items)[0 := old(items)[0].(value := value)]
    {
      head.value := value;
      SumOfUpdate(items, value);
      items := items[0 := items[0].(value := value)];
      forall j | 0 <= j < |records| ensures LinkedAt(j) && MappedAt(j) && ItemAt(j) {
        assert old(LinkedAt(j)) && old(MappedAt(j)) && old(ItemAt(j));
        assert j > 0 ==> records[j] != records[0];
      }
      forall k ensures KeyLeads(k) { assert old(KeyLeads(k)); }
    }

    method Clear()
      requires Valid()
      modifies `head, `last, `attempts, `hits, `cacheMap, `currentSize, `records, `items
      ensures Valid() && items == [] && currentSize == 0 && attempts == 0 && hits == 0
    {
      var record := head;
      ghost var i := 0;
      while record != null
        invariant 0 <= i <= |records| && record == At(i) && Linked()
        decreases |records| - i
      {
        assert LinkedAt(i);
        record := record.next;
        i := i + 1;
      }
      head, last, attempts, hits, cacheMap, currentSize := null, null, 0, 0, map[], 0;
      records, items := [], [];
    }
  }
}
