/** The associative cache as a class: arrays updated in place, proved against the ring of CacheRings. */
module AssocCaches {
  import opened Bits
  import opened Results
  import opened SmtKeys
  import opened CacheRings

  /** `s` with the elements from `at` on replaced by `xs` */
  ghost function Spliced(s: seq<nat>, at: nat, xs: seq<nat>): (r: seq<nat>)
    requires at + |xs| <= |s|
    ensures |r| == |s|
  {
    s[..at] + xs + s[at + |xs|..]
  }

  lemma SplicedTwice(s: seq<nat>, at: nat, xs: seq<nat>, ys: seq<nat>)
    requires at + |xs| + |ys| <= |s|
    ensures Spliced(Spliced(s, at, xs), at + |xs|, ys) == Spliced(s, at, xs + ys)
  {
  }

  lemma PaddedParts(value: seq<nat>)
    requires |value| == 8 || |value| >= 12
    ensures Padded(value) == [value[0], value[1], value[2], value[3]] + [value[4], value[5], value[6], value[7]]
                             + (if |value| > 8 then [value[8], value[9], value[10], value[11]] else [0, 0, 0, 0])
  {
  }

  lemma SplicedIsWritten(values: seq<nat>, c: nat, value: seq<nat>)
    requires 12 * c + 12 <= |values| && |value| == 12
    ensures Spliced(values, 12 * c, value) == WriteValue(values, c, value)
  {
  }

  /** The table and the array of values fit 32 bits exactly up to 31 key bits and 2^28 entries. */
  lemma SizesFitIff(nKeyBits: nat, log2CacheSize: nat)
    ensures Pow2(nKeyBits) <= UINT32_MAX <==> nKeyBits <= 31
    ensures 12 * Pow2(log2CacheSize) <= UINT32_MAX <==> log2CacheSize <= 28
  {
    Pow2Words();
    assert Pow2(32) == 2 * Pow2(31) && Pow2(31) == 2 * Pow2(30) && Pow2(30) == 2 * Pow2(29) && Pow2(29) == 2 * Pow2(28);
    hide Pow2;
    if nKeyBits <= 31 { Pow2Monotonic(nKeyBits, 31); } else { Pow2Monotonic(32, nKeyBits); }
    if log2CacheSize <= 28 { Pow2Monotonic(log2CacheSize, 28); } else { Pow2Monotonic(29, log2CacheSize); }
  }

  class DatabaseMTAssociativeCache {
    const nKeyBits: nat
    const log2CacheSize: nat
    const indexesSize: nat
    const cacheSize: nat
    const indexesMask: nat
    const cacheMask: nat
    const indexes: array<nat>
    const keys: array<nat>
    const values: array<nat>
    const isLeaf: array<bool>
    var currentCacheIndex: nat
    var attempts: nat
    var hits: nat

    ghost predicate Valid()
      reads this, indexes
    {
      && indexesSize == Pow2(nKeyBits) && indexesMask == indexesSize - 1 && indexes.Length == indexesSize
      && cacheSize == Pow2(log2CacheSize) && cacheMask == cacheSize - 1 && cacheSize < UINT32_MAX
      && keys.Length == 4 * cacheSize && values.Length == 12 * cacheSize && isLeaf.Length == cacheSize
      && indexes != keys && indexes != values && keys != values
      && currentCacheIndex <= UINT32_MAX && SmallIndexes(indexes[..])
    }

    ghost function View(): (s: Cache)
      reads this, indexes, keys, values, isLeaf
      requires Valid()
      ensures s.Shaped() && s.Size() == cacheSize
    {
      Cache(currentCacheIndex, indexes[..], keys[..], values[..], isLeaf[..])
    }

    /** `postConstruct`. Sizes are 32-bit, and so are the products that locate the parts of an entry: they
        do not wrap exactly for the sizes required here (`SizesFitIff`). */
    constructor (nKeyBits: nat, log2CacheSize: nat)
      requires nKeyBits <= 31 && log2CacheSize <= 28
      ensures Valid() && this.nKeyBits == nKeyBits && this.log2CacheSize == log2CacheSize
      ensures fresh(indexes) && fresh(keys) && fresh(values) && fresh(isLeaf)
      ensures CacheRings.Valid(View())
      ensures View() == Empty(Pow2(nKeyBits), cacheSize, keys[..], values[..], isLeaf[..])
    {
      var nIndexes, size := Shl(1, nKeyBits), Shl(1, log2CacheSize);
      ShlMultiplies(1, nKeyBits);
      ShlMultiplies(1, log2CacheSize);
      SizesFitIff(nKeyBits, log2CacheSize);
      hide Shl, Pow2;
      var initValue := UINT32_MAX - size - 1;
      this.nKeyBits, this.log2CacheSize, indexesSize, cacheSize := nKeyBits, log2CacheSize, nIndexes, size;
      indexes := new nat[nIndexes](_ => initValue);
      keys := new nat[4 * size];
      values := new nat[12 * size];
      isLeaf := new bool[size];
      currentCacheIndex, attempts, hits := 0, 0, 0;
      var mask := OnesMask(log2CacheSize);
      cacheMask := mask;
      mask := OnesMask(nKeyBits);
      indexesMask := mask;
      new;
      assert indexes[..] == Filled(nIndexes, initValue);
    }

    static method OnesMask(bits: nat) returns (mask: nat)
      ensures mask == Pow2(bits) - 1
    {
      mask := 0;
      for i := 0 to bits
        invariant mask == Pow2(i) - 1
      {
        ShlMultiplies(mask, 1);
        mask := Shl(mask, 1);
        mask := mask + 1;
      }
    }

    /** The slot that word `i` of the key selects */
    function TableIndex(key: Quad, i: nat): (t: nat)
      requires Valid() && i < 4
      reads this, indexes
      ensures t == Slot(key, i, indexes.Length)
    {
      AndMask(key.At(i), nKeyBits);
      And(key.At(i), indexesMask)
    }

    function CacheIndex(raw: nat): (c: nat)
      requires Valid()
      reads this, indexes
      ensures c == raw % cacheSize && c < cacheSize
    {
      AndMask(raw, log2CacheSize);
      And(raw, cacheMask)
    }

    predicate IsStale(raw: nat)
      requires raw <= UINT32_MAX
      reads this
      ensures IsStale(raw) == Stale(currentCacheIndex, raw, cacheSize)
    {
      || (currentCacheIndex >= raw && currentCacheIndex - raw > cacheSize)
      || (currentCacheIndex < raw && UINT32_MAX - raw + currentCacheIndex > cacheSize)
    }

    predicate HasKey(c: nat, key: Quad)
      requires Valid() && c < cacheSize
      reads this, indexes, keys
      ensures HasKey(c, key) == (KeyOf(keys[..], c) == key)
    {
      keys[4 * c] == key.e0 && keys[4 * c + 1] == key.e1 && keys[4 * c + 2] == key.e2 && keys[4 * c + 3] == key.e3
    }

    /** Writing one entry of the ring, field element by field element */
    method StoreEntry(c: nat, key: Quad, value: seq<nat>)
      requires Valid() && c < cacheSize && (|value| == 8 || |value| >= 12)
      modifies keys, values, isLeaf
      ensures Valid() && View() == WriteEntry(old(View()), c, key, value)
    {
      isLeaf[c] := |value| > 8;
      var k := 4 * c;
      keys[k], keys[k + 1], keys[k + 2], keys[k + 3] := key.e0, key.e1, key.e2, key.e3;
      assert keys[..] == WriteKey(old(keys[..]), c, key);
      StoreValue(c, value, isLeaf[c]);
    }

    method StoreValue(c: nat, value: seq<nat>, leaf: bool)
      requires Valid() && c < cacheSize && (|value| == 8 || |value| >= 12) && leaf == (|value| > 8)
      modifies values
      ensures values[..] == WriteValue(old(values[..]), c, Padded(value))
    {
      hide Spliced, Padded, WriteValue;
      ghost var was := values[..];
      var at := 12 * c;
      StoreFour(at, value[0], value[1], value[2], value[3]);
      StoreFour(at + 4, value[4], value[5], value[6], value[7]);
      SplicedTwice(was, at, [value[0], value[1], value[2], value[3]], [value[4], value[5], value[6], value[7]]);
      ghost var last: seq<nat>;
      if leaf {
        StoreFour(at + 8, value[8], value[9], value[10], value[11]);
        last := [value[8], value[9], value[10], value[11]];
      } else {
        StoreFour(at + 8, 0, 0, 0, 0);
        last := [0, 0, 0, 0];
      }
      ghost var first := [value[0], value[1], value[2], value[3]] + [value[4], value[5], value[6], value[7]];
      SplicedTwice(was, at, first, last);
      PaddedParts(value);
      SplicedIsWritten(was, c, Padded(value));
    }

    method StoreFour(at: nat, v0: nat, v1: nat, v2: nat, v3: nat)
      requires at + 4 <= values.Length
      modifies values
      ensures values[..] == Spliced(old(values[..]), at, [v0, v1, v2, v3])
    {
      values[at], values[at + 1], values[at + 2], values[at + 3] := v0, v1, v2, v3;
    }

    /** Displacement, one entry after the other; `ok` is false when the process exits. */
    method ForcedInsertion(rawCacheIndexes: array<nat>, iters0: nat) returns (ok: bool)
      requires Valid() && rawCacheIndexes.Length == 10 && iters0 <= 9 && rawCacheIndexes[iters0] <= UINT32_MAX
      requires rawCacheIndexes != indexes && rawCacheIndexes != keys && rawCacheIndexes != values
      modifies indexes, rawCacheIndexes
      ensures keys[..] == old(keys[..]) && values[..] == old(values[..])
      ensures var f := Force(old(indexes[..]), keys[..], currentCacheIndex, cacheSize,
        old(rawCacheIndexes[..iters0 + 1]));
              ok == f.Some? && (ok ==> Valid() && indexes[..] == f.value)
      decreases 9 - iters0
    {
      hide Choose, Stale, Slot;
      ghost var chain := rawCacheIndexes[..iters0 + 1];
      var rawCacheIndex := rawCacheIndexes[iters0];
      var iters := iters0 + 1;
      if iters > 9 {
        return false;
      }
      var cacheIndex := CacheIndex(rawCacheIndex);
      var key := Quad(keys[4 * cacheIndex], keys[4 * cacheIndex + 1], keys[4 * cacheIndex + 2],
          keys[4 * cacheIndex + 3]);
      var choice := ChooseSlot(key, rawCacheIndexes, iters);
      ghost var slots := indexes[..];
      ChooseIsChosen(slots, key, currentCacheIndex, cacheSize, chain, 0, Stuck);
      match choice
      case Place(i) =>
        indexes[TableIndex(key, i)] := rawCacheIndex;
        ok := true;
      case Stuck =>
        ok := false;
      case Displace(pos, minRawCacheIndex) =>
        indexes[TableIndex(key, pos)] := rawCacheIndex;
        rawCacheIndexes[iters] := minRawCacheIndex;
        assert rawCacheIndexes[..iters + 1] == chain + [minRawCacheIndex];
        ok := ForcedInsertion(rawCacheIndexes, iters);
    }

    /** The search for a stale slot, or else for the oldest entry that the chain has not used */
    method ChooseSlot(key: Quad, rawCacheIndexes: array<nat>, iters: nat) returns (choice: Choice)
      requires Valid() && rawCacheIndexes.Length == 10 && iters <= 9
      ensures choice == Choose(indexes[..], key, currentCacheIndex, cacheSize, rawCacheIndexes[..iters], 0, Stuck)
    {
      hide Stale;
      ghost var chain := rawCacheIndexes[..iters];
      ghost var all := Choose(indexes[..], key, currentCacheIndex, cacheSize, chain, 0, Stuck);
      var minRawCacheIndex := UINT32_MAX;
      var pos := -1;
      var i := 0;
      while i < 4
        invariant 0 <= i <= 4 && pos < i
        invariant pos < 0 ==> minRawCacheIndex == UINT32_MAX
        invariant all == Choose(indexes[..], key, currentCacheIndex, cacheSize, chain, i,
                                if pos < 0 then Stuck else Displace(pos, minRawCacheIndex))
      {
        var raw := indexes[TableIndex(key, i)];
        if IsStale(raw) {
          return Place(i);
        }
        var used := false;
        var k := 0;
        while k < iters && !used
          invariant 0 <= k <= iters
          invariant used ==> raw in chain
          invariant !used ==> raw !in chain[..k]
          decreases iters - k, !used
        {
          if rawCacheIndexes[k] == raw {
            used := true;
          } else {
            k := k + 1;
          }
        }
        assert chain[..iters] == chain;
        if !used && raw < minRawCacheIndex {
          minRawCacheIndex, pos := raw, i;
        }
        i := i + 1;
      }
      return if pos < 0 then Stuck else Displace(pos, minRawCacheIndex);
    }

    /** The end of `addKeyValue`, when all four slots lead to live entries of other keys */
    method InsertForced(key: Quad, value: seq<nat>) returns (ok: bool)
      requires Valid() && (|value| == 8 || |value| >= 12)
      modifies this, indexes, keys, values, isLeaf
      ensures var s := old(View());
              var t := WriteEntry(s, s.cur % cacheSize, key, value).(cur := NextIndex(s.cur));
              var f := Force(t.indexes, t.keys, t.cur, cacheSize, [s.cur]);
              ok == f.Some? && (ok ==> Valid() && View() == t.(indexes := f.value))
      ensures attempts == old(attempts) && hits == old(hits)
    {
      hide Stale, Force, WriteEntry;
      ghost var s := View();
      var cacheIndex := CacheIndex(currentCacheIndex);
      currentCacheIndex := if currentCacheIndex == UINT32_MAX then 0 else currentCacheIndex + 1;
      StoreEntry(cacheIndex, key, value);
      WriteCommutes(s, cacheIndex, key, value, indexes[..], currentCacheIndex);
      var rawCacheIndexes := new nat[10];
      rawCacheIndexes[0] := if currentCacheIndex == 0 then UINT32_MAX else currentCacheIndex - 1;
      assert rawCacheIndexes[..1] == [s.cur];
      ok := ForcedInsertion(rawCacheIndexes, 0);
    }

    /** `addKeyValue`; `ok` is false when the process exits. */
    method AddKeyValue(key: Quad, value: seq<nat>, update: bool) returns (ok: bool)
      requires Valid() && (|value| == 8 || |value| >= 12)
      modifies this, indexes, keys, values, isLeaf
      ensures var r := Add(old(View()), key, value, update);
              ok == r.Some? && (ok ==> Valid() && View() == r.value)
      ensures attempts == old(attempts) && hits == old(hits)
    {
      hide Stale, Force, WriteEntry;
      ghost var s := View();
      OwnSlotIs(s, key, 0);
      var i := 0;
      while i < 4
        invariant 0 <= i <= 4
        invariant Valid() && View() == s && attempts == old(attempts) && hits == old(hits)
        invariant OwnSlot(s, key, 0) == OwnSlot(s, key, i)
      {
        var tableIndex := TableIndex(key, i);
        var raw := indexes[tableIndex];
        var cacheIndex := CacheIndex(raw);
        if IsStale(raw) {
          assert OwnSlot(s, key, 0) == Free(i);
          cacheIndex := CacheIndex(currentCacheIndex);
          indexes[tableIndex] := currentCacheIndex;
          currentCacheIndex := if currentCacheIndex == UINT32_MAX then 0 else currentCacheIndex + 1;
          StoreEntry(cacheIndex, key, value);
          WriteCommutes(s, cacheIndex, key, value, indexes[..], currentCacheIndex);
          return true;
        } else if HasKey(cacheIndex, key) {
          assert OwnSlot(s, key, 0) == Match(i);
          if update {
            StoreEntry(cacheIndex, key, value);
          }
          return true;
        }
        i := i + 1;
      }
      ok := InsertForced(key, value);
    }

    static lemma WriteCommutes(s: Cache, c: nat, key: Quad, value: seq<nat>, indexes: seq<nat>, cur: nat)
      requires s.Shaped() && c < s.Size() && (|value| == 8 || |value| >= 12) && |indexes| == |s.indexes|
      ensures WriteEntry(s.(indexes := indexes, cur := cur), c, key, value)
           == WriteEntry(s, c, key, value).(indexes := indexes, cur := cur)
    {
    }

    method ReadValue(c: nat) returns (value: seq<nat>)
      requires Valid() && c < cacheSize
      ensures value == ValueOf(values[..], c)
    {
      var at := 12 * c;
      value := [values[at], values[at + 1], values[at + 2], values[at + 3],
                values[at + 4], values[at + 5], values[at + 6], values[at + 7],
                values[at + 8], values[at + 9], values[at + 10], values[at + 11]];
    }

    /** `findKey` */
    method FindKey(key: Quad) returns (found: bool, value: seq<nat>)
      requires Valid()
      modifies `attempts, `hits
      ensures Valid() && View() == old(View())
      ensures Find(View(), key) == if found then Some(value) else None
      ensures attempts == old(attempts) + 1 && hits == old(hits) + (if found then 1 else 0)
    {
      hide Stale;
      attempts := attempts + 1;
      ghost var s := View();
      var i := 0;
      while i < 4
        invariant 0 <= i <= 4
        invariant Find(s, key) == FindFrom(s, key, i)
      {
        var raw := indexes[TableIndex(key, i)];
        var cacheIndex := CacheIndex(raw);
        if !IsStale(raw) && HasKey(cacheIndex, key) {
          hits := hits + 1;
          value := ReadValue(cacheIndex);
          return true, value;
        }
        i := i + 1;
      }
      return false, [];
    }
  }
}
