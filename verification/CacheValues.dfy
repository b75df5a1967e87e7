/** Which value the associative cache returns for a key: the one just added, and after more calls the
    last one added as long as no second entry of the key was written. */
module CacheValues {
  import opened Results
  import opened SmtKeys
  import opened CacheRings

  // ---------------------------------------------------------------- entries stay in slots of their key

  /** Slot `t` leads to an entry whose key has this slot. */
  predicate OwnsSlot(indexes: seq<nat>, keys: seq<nat>, size: nat, t: nat)
    requires size > 0 && |keys| == 4 * size && t < |indexes|
  {
    exists i :: 0 <= i < 4 && t == Slot(KeyOf(keys, indexes[t] % size), i, |indexes|)
  }

  ghost predicate Placed(indexes: seq<nat>, keys: seq<nat>, cur: nat, size: nat)
    requires size > 0 && |keys| == 4 * size && SmallIndexes(indexes)
  {
    forall t :: 0 <= t < |indexes| && !Stale(cur, indexes[t], size) ==> OwnsSlot(indexes, keys, size, t)
  }

  /** A valid cache whose live entries are all led to from slots of their own keys */
  ghost predicate Orderly(s: Cache) {
    Valid(s) && SmallIndexes(s.indexes) && Placed(s.indexes, s.keys, s.cur, s.Size())
  }

  lemma RedirectPlaced(indexes: seq<nat>, keys: seq<nat>, cur: nat, size: nat, i: nat, raw: nat)
    requires size > 0 && |keys| == 4 * size && SmallIndexes(indexes) && |indexes| > 0 && i < 4 && raw <= UINT32_MAX
    requires Placed(indexes, keys, cur, size)
    ensures var more := indexes[Slot(KeyOf(keys, raw % size), i, |indexes|) := raw];
      SmallIndexes(more) && Placed(more, keys, cur, size)
  {
    hide Stale, Slot;
    var at := Slot(KeyOf(keys, raw % size), i, |indexes|);
    var more := indexes[at := raw];
    forall t | 0 <= t < |more| && !Stale(cur, more[t], size) ensures OwnsSlot(more, keys, size, t) {
      if t == at {
        assert t == Slot(KeyOf(keys, more[t] % size), i, |more|);
      } else {
        assert OwnsSlot(indexes, keys, size, t);
        var j :| 0 <= j < 4 && t == Slot(KeyOf(keys, indexes[t] % size), j, |indexes|);
        assert t == Slot(KeyOf(keys, more[t] % size), j, |more|);
      }
    }
  }

  lemma {:induction false} ForcePlaced(indexes: seq<nat>, keys: seq<nat>, cur: nat, size: nat, chain: seq<nat>)
    requires |indexes| > 0 && SmallIndexes(indexes) && size > 0 && |keys| == 4 * size
    requires 0 < |chain| <= 10 && LastOf(chain) <= UINT32_MAX && Placed(indexes, keys, cur, size)
    ensures var f := Force(indexes, keys, cur, size, chain);
      f.Some? ==> SmallIndexes(f.value) && Placed(f.value, keys, cur, size)
    decreases 10 - |chain|
  {
    hide Choose, Stale, Placed;
    if |chain| <= 9 {
      var raw := LastOf(chain);
      var key := KeyOf(keys, raw % size);
      var c := Choose(indexes, key, cur, size, chain, 0, Stuck);
      ChooseIsChosen(indexes, key, cur, size, chain, 0, Stuck);
      if !c.Stuck? {
        RedirectPlaced(indexes, keys, cur, size, c.i, raw);
        if c.Displace? { ForcePlaced(indexes[Slot(key, c.i, |indexes|) := raw], keys, cur, size, chain + [c.raw]); }
      }
    }
  }

  /** Writing the next entry takes its ring slot from an entry that is stale from then on. */
  lemma AppendPlaced(s: Cache, key: Quad, value: seq<nat>)
    requires Orderly(s) && (|value| == 8 || |value| >= 12) && s.cur + 1 < InitialIndex(s.Size())
    ensures var t := Appended(s, key, value); Placed(t.indexes, t.keys, t.cur, t.Size())
  {
    hide WriteKey, WriteValue, Padded, KeyOf, Slot;
    ValidSlots(s);
    var t := Appended(s, key, value);
    forall i | 0 <= i < |t.indexes| && !Stale(t.cur, t.indexes[i], t.Size())
      ensures OwnsSlot(t.indexes, t.keys, t.Size(), i)
    {
      var raw := s.indexes[i];
      assert Live(s, raw) && raw + s.Size() != s.cur;
      SameKey(s, key, value, raw);
      assert OwnsSlot(s.indexes, s.keys, s.Size(), i);
    }
  }

  /** The key of an entry that is still live after the next one was written has not changed. */
  lemma SameKey(s: Cache, key: Quad, value: seq<nat>, raw: nat)
    requires Valid(s) && (|value| == 8 || |value| >= 12) && Live(s, raw) && raw + s.Size() != s.cur
    ensures raw % s.Size() != s.cur % s.Size()
    ensures KeyOf(Appended(s, key, value).keys, raw % s.Size()) == KeyOf(s.keys, raw % s.Size())
  {
    hide WriteKey, WriteValue, Padded, KeyOf;
    if raw % s.Size() == s.cur % s.Size() {
      RingSlots(s.cur, raw, s.Size());
      assert false;
    }
    WriteKeyAt(s.keys, s.cur % s.Size(), key, raw % s.Size());
  }

  lemma AddKeepsOrderly(s: Cache, key: Quad, value: seq<nat>, update: bool)
    requires Orderly(s) && (|value| == 8 || |value| >= 12)
    requires s.cur + 1 < InitialIndex(s.Size()) && Add(s, key, value, update).Some?
    ensures Orderly(Add(s, key, value, update).value)
  {
    AddKeepsValid(s, key, value, update);
    hide WriteKey, WriteValue, Padded, KeyOf, Force, OwnSlot, Stale, Placed, Slot;
    var o := OwnSlot(s, key, 0);
    OwnSlotIs(s, key, 0);
    var t := Appended(s, key, value);
    match o
    case Match(i) =>
      MatchKeepsKeys(s, s.indexes[Slot(key, i, |s.indexes|)] % s.Size(), key, value);
    case Free(i) =>
      AppendPlaced(s, key, value);
      AppendedIsLive(s, key, value);
      RedirectPlaced(t.indexes, t.keys, t.cur, t.Size(), i, s.cur);
    case Full =>
      AppendPlaced(s, key, value);
      ForcePlaced(t.indexes, t.keys, t.cur, t.Size(), [s.cur]);
  }

  // ---------------------------------------------------------------- the value that was just added

  /** The slots before the one `OwnSlot` names lead to live entries of other keys. */
  lemma {:induction false} OwnSlotBefore(s: Cache, key: Quad, i: nat, j: nat)
    requires i <= j < 4 && s.Shaped() && SmallIndexes(s.indexes)
    requires var o := OwnSlot(s, key, i); o.Full? || j < o.i
    ensures var raw := s.indexes[Slot(key, j, |s.indexes|)];
      !Stale(s.cur, raw, s.Size()) && KeyOf(s.keys, raw % s.Size()) != key
    decreases 4 - i
  {
    if i < j { OwnSlotBefore(s, key, i + 1, j); }
  }

  /** A slot the lookup passes over */
  predicate Passed(s: Cache, key: Quad, j: nat)
    requires s.Shaped() && SmallIndexes(s.indexes) && j < 4
  {
    var raw := s.indexes[Slot(key, j, |s.indexes|)];
    Stale(s.cur, raw, s.Size()) || KeyOf(s.keys, raw % s.Size()) != key
  }

  lemma {:induction false} FindPasses(s: Cache, key: Quad, i: nat, m: nat)
    requires s.Shaped() && SmallIndexes(s.indexes) && i <= m < 4
    requires !Passed(s, key, m) && forall j :: i <= j < m ==> Passed(s, key, j)
    ensures FindFrom(s, key, i) == Some(ValueOf(s.values, s.indexes[Slot(key, m, |s.indexes|)] % s.Size()))
    decreases m - i
  {
    if i < m {
      assert Passed(s, key, i);
      FindPasses(s, key, i + 1, m);
    }
  }

  /** All entries a lookup of the key can come to have the value `v`. */
  ghost predicate FoundValue(s: Cache, key: Quad, v: seq<nat>) {
    s.Shaped() && forall raw: nat :: FoundAt(s, key, raw) ==> ValueOf(s.values, raw % s.Size()) == v
  }

  lemma FoundValueIsFound(s: Cache, key: Quad, v: seq<nat>)
    requires Valid(s) && FoundValue(s, key, v)
    ensures SmallIndexes(s.indexes) && (Find(s, key).Some? ==> Find(s, key).value == v)
  {
    ValidSlots(s);
    FindSucceeds(s, key, 0);
  }

  /** What an addition that writes a new entry makes of the cache */
  lemma AddIs(s: Cache, key: Quad, value: seq<nat>, update: bool)
    requires Valid(s) && SmallIndexes(s.indexes) && (|value| == 8 || |value| >= 12)
    requires s.cur + 1 < InitialIndex(s.Size()) && Add(s, key, value, update).Some?
    ensures var o, u := OwnSlot(s, key, 0), Add(s, key, value, update).value;
      && u.Shaped() && u.Size() == s.Size() && |u.indexes| == |s.indexes|
      && (o.Match? ==> u.keys == s.keys && u.indexes == s.indexes && u.cur == s.cur)
      && (!o.Match? ==> u.keys == Appended(s, key, value).keys && u.values == Appended(s, key, value).values
                        && u.cur == s.cur + 1)
      && forall t :: 0 <= t < |u.indexes| ==> u.indexes[t] == s.cur || u.indexes[t] in s.indexes
  {
    hide WriteKey, WriteValue, Padded, KeyOf, Force, OwnSlot, Stale, Slot;
    var o := OwnSlot(s, key, 0);
    OwnSlotIs(s, key, 0);
    var t := Appended(s, key, value);
    if o.Match? {
      MatchKeepsKeys(s, s.indexes[Slot(key, o.i, |s.indexes|)] % s.Size(), key, value);
    } else if o.Full? {
      ForceSlots(t.indexes, t.keys, t.cur, t.Size(), [s.cur], 0);
      var u := Add(s, key, value, update).value;
      forall i | 0 <= i < |u.indexes| ensures u.indexes[i] == s.cur || u.indexes[i] in s.indexes {
        ForceSlots(t.indexes, t.keys, t.cur, t.Size(), [s.cur], i);
      }
    }
  }

  /** An entry found after an addition is the new one or was found before. */
  lemma FoundBefore(s: Cache, key: Quad, value: seq<nat>, update: bool, k: Quad, raw: nat)
    requires Orderly(s) && (|value| == 8 || |value| >= 12)
    requires s.cur + 1 < InitialIndex(s.Size()) && Add(s, key, value, update).Some?
    requires FoundAt(Add(s, key, value, update).value, k, raw) && raw != s.cur
    ensures FoundAt(s, k, raw)
    ensures Add(s, key, value, update).value.cur == s.cur + 1 ==> raw + s.Size() != s.cur
  {
    AddIs(s, key, value, update);
    hide Add, Appended, KeyOf, OwnSlot, Stale, Slot, Placed;
    var u := Add(s, key, value, update).value;
    if !OwnSlot(s, key, 0).Match? {
      var i :| 0 <= i < 4 && u.indexes[Slot(KeyOf(u.keys, raw % u.Size()), i, |u.indexes|)] == raw;
      var at :| 0 <= at < |s.indexes| && s.indexes[at] == raw;
      LedBefore(s, key, value, k, raw, at);
    }
  }

  lemma LedBefore(s: Cache, key: Quad, value: seq<nat>, k: Quad, raw: nat, at: nat)
    requires Orderly(s) && (|value| == 8 || |value| >= 12) && s.cur + 1 < InitialIndex(s.Size())
    requires at < |s.indexes| && s.indexes[at] == raw && raw < s.cur && s.cur + 1 <= raw + s.Size()
    requires KeyOf(Appended(s, key, value).keys, raw % s.Size()) == k
    ensures FoundAt(s, k, raw)
  {
    hide WriteKey, WriteValue, Padded, KeyOf, Slot;
    ValidSlots(s);
    SameKey(s, key, value, raw);
    assert OwnsSlot(s.indexes, s.keys, s.Size(), at);
  }

  /** When the key is added to a cache none of whose own slots is stale or leads to it, the new entry is
      the only one a lookup can come to. */
  lemma FullIsNew(s: Cache, key: Quad, raw: nat)
    requires Valid(s) && SmallIndexes(s.indexes) && OwnSlot(s, key, 0).Full?
    ensures !FoundAt(s, key, raw)
  {
    hide Stale, KeyOf, Slot;
    if FoundAt(s, key, raw) {
      var i :| 0 <= i < 4 && s.indexes[Slot(KeyOf(s.keys, raw % s.Size()), i, |s.indexes|)] == raw;
      OwnSlotBefore(s, key, 0, i);
    }
  }

  lemma NewEntryValue(s: Cache, key: Quad, value: seq<nat>)
    requires Valid(s) && (|value| == 8 || |value| >= 12)
    ensures ValueOf(Appended(s, key, value).values, s.cur % s.Size()) == Padded(value)
  {
    hide WriteKey, WriteValue, Padded, KeyOf, ValueOf;
    WriteValueAt(s.values, s.cur % s.Size(), Padded(value), s.cur % s.Size());
  }

  /** A lookup of the key that was just added returns its value; without `update` a key that one of its
      slots already led to keeps the value it had. */
  lemma AddThenFind(s: Cache, key: Quad, value: seq<nat>, update: bool)
    requires Orderly(s) && (|value| == 8 || |value| >= 12)
    requires s.cur + 1 < InitialIndex(s.Size()) && Add(s, key, value, update).Some?
    ensures Orderly(Add(s, key, value, update).value)
    ensures OwnSlot(s, key, 0).Match? ==> Find(s, key).Some?
    ensures Find(Add(s, key, value, update).value, key) ==
            if OwnSlot(s, key, 0).Match? && !update then Find(s, key) else Some(Padded(value))
  {
    AddKeepsOrderly(s, key, value, update);
    match OwnSlot(s, key, 0)
    case Match(_) => MatchThenFind(s, key, value, update);
    case Free(_) => FreeThenFind(s, key, value, update);
    case Full => FullThenFind(s, key, value, update);
  }

  lemma MatchThenFind(s: Cache, key: Quad, value: seq<nat>, update: bool)
    requires Orderly(s) && (|value| == 8 || |value| >= 12) && OwnSlot(s, key, 0).Match?
    requires s.cur + 1 < InitialIndex(s.Size())
    ensures var u := Add(s, key, value, update).value;
      u.Shaped() && SmallIndexes(u.indexes)
      && Find(s, key).Some? && Find(u, key) == if update then Some(Padded(value)) else Find(s, key)
  {
    AddIs(s, key, value, update);
    hide WriteKey, WriteValue, Padded, KeyOf, ValueOf, Stale, Slot, Placed;
    OwnSlotIs(s, key, 0);
    var i := OwnSlot(s, key, 0).i;
    var c := s.indexes[Slot(key, i, |s.indexes|)] % s.Size();
    var u := Add(s, key, value, update).value;
    MatchKeepsKeys(s, c, key, value);
    WriteValueAt(s.values, c, Padded(value), c);
    forall j | 0 <= j < i ensures Passed(s, key, j) && Passed(u, key, j) { OwnSlotBefore(s, key, 0, j); }
    FindPasses(s, key, 0, i);
    FindPasses(u, key, 0, i);
  }

  lemma FreeThenFind(s: Cache, key: Quad, value: seq<nat>, update: bool)
    requires Orderly(s) && (|value| == 8 || |value| >= 12) && OwnSlot(s, key, 0).Free?
    requires s.cur + 1 < InitialIndex(s.Size())
    ensures var u := Add(s, key, value, update).value;
      u.Shaped() && SmallIndexes(u.indexes) && Find(u, key) == Some(Padded(value))
  {
    hide WriteKey, WriteValue, Padded, KeyOf, ValueOf, Placed;
    OwnSlotIs(s, key, 0);
    AppendedIsLive(s, key, value);
    NewEntryValue(s, key, value);
    AddKeepsOrderly(s, key, value, update);
    ValidSlots(s);
    var i := OwnSlot(s, key, 0).i;
    var u := Add(s, key, value, update).value;
    forall j | 0 <= j < i ensures Passed(u, key, j) {
      OwnSlotBefore(s, key, 0, j);
      var raw := s.indexes[Slot(key, j, |s.indexes|)];
      assert u.indexes[Slot(key, j, |u.indexes|)] == raw;
      if raw + s.Size() != s.cur { SameKey(s, key, value, raw); }
    }
    FindPasses(u, key, 0, i);
  }

  lemma FullThenFind(s: Cache, key: Quad, value: seq<nat>, update: bool)
    requires Orderly(s) && (|value| == 8 || |value| >= 12) && OwnSlot(s, key, 0).Full?
    requires s.cur + 1 < InitialIndex(s.Size()) && Add(s, key, value, update).Some?
    ensures var u := Add(s, key, value, update).value;
      u.Shaped() && SmallIndexes(u.indexes) && Find(u, key) == Some(Padded(value))
  {
    AddIs(s, key, value, update);
    AddFinds(s, key, value, update);
    AddKeepsOrderly(s, key, value, update);
    NewEntryValue(s, key, value);
    var u := Add(s, key, value, update).value;
    hide Add, Padded, KeyOf, ValueOf, Stale, Placed, OwnSlot, FoundAt;
    forall raw: nat | FoundAt(u, key, raw) ensures raw == s.cur {
      if raw != s.cur {
        FoundBefore(s, key, value, update, key, raw);
        FullIsNew(s, key, raw);
      }
    }
    assert FoundValue(u, key, Padded(value));
    FindIffFindable(u, key);
    FoundValueIsFound(u, key, Padded(value));
  }

  // ---------------------------------------------------------------- no second entry of a key

  /** A lookup of the key can come to one entry at most. */
  ghost predicate Sole(s: Cache, key: Quad) {
    forall a: nat, b: nat :: FoundAt(s, key, a) && FoundAt(s, key, b) ==> a == b
  }

  /** Adding the key takes a stale slot although another slot leads to an entry of the key that is not
      the next to be overwritten. */
  ghost predicate AddsSecond(s: Cache, key: Quad)
    requires s.Shaped() && SmallIndexes(s.indexes)
  {
    OwnSlot(s, key, 0).Free? && exists raw: nat :: FoundAt(s, key, raw) && raw + s.Size() != s.cur
  }

  /** An addition leaves one entry of its key exactly when it does not add a second one. */
  lemma AddSoleIff(s: Cache, key: Quad, value: seq<nat>, update: bool)
    requires Orderly(s) && (|value| == 8 || |value| >= 12) && Sole(s, key)
    requires s.cur + 1 < InitialIndex(s.Size()) && Add(s, key, value, update).Some?
    ensures Sole(Add(s, key, value, update).value, key) <==> !AddsSecond(s, key)
  {
    AddIs(s, key, value, update);
    var u := Add(s, key, value, update).value;
    var o := OwnSlot(s, key, 0);
    if AddsSecond(s, key) {
      var raw: nat :| FoundAt(s, key, raw) && raw + s.Size() != s.cur;
      AddKeepsFound(s, key, value, update, key, raw);
      FreeIsFound(s, key, value, update);
    }
    hide Add, Appended, KeyOf, Stale, Placed, OwnSlot, FoundAt;
    forall a: nat | FoundAt(u, key, a) && a != s.cur ensures FoundAt(s, key, a) && !o.Full? {
      FoundBefore(s, key, value, update, key, a);
      if o.Full? { FullIsNew(s, key, a); }
    }
    if o.Match? && FoundAt(u, key, s.cur) { NotYetFound(u, key); }
    if !AddsSecond(s, key) {
      forall a: nat, b: nat | FoundAt(u, key, a) && FoundAt(u, key, b) ensures a == b {
        if a != s.cur { FoundBefore(s, key, value, update, key, a); }
        if b != s.cur { FoundBefore(s, key, value, update, key, b); }
      }
    }
  }

  lemma NotYetFound(s: Cache, key: Quad)
    ensures !FoundAt(s, key, s.cur)
  {
  }

  lemma FreeIsFound(s: Cache, key: Quad, value: seq<nat>, update: bool)
    requires Valid(s) && SmallIndexes(s.indexes) && (|value| == 8 || |value| >= 12) && OwnSlot(s, key, 0).Free?
    ensures FoundAt(Add(s, key, value, update).value, key, s.cur)
  {
    hide WriteKey, WriteValue, Padded, KeyOf, Leads;
    OwnSlotIs(s, key, 0);
    var t := Appended(s, key, value);
    AppendedIsLive(s, key, value);
    RedirectReaches(t.indexes, t.keys, s.Size(), OwnSlot(s, key, 0).i, s.cur);
  }

  /** The key leads to one entry at most, and that has the value it was last added with. */
  ghost predicate Holds(s: Cache, key: Quad, last: Option<seq<nat>>) {
    && s.Shaped() && Sole(s, key)
    && forall raw: nat :: FoundAt(s, key, raw) ==> last == Some(ValueOf(s.values, raw % s.Size()))
  }

  lemma OwnAddHolds(s: Cache, key: Quad, value: seq<nat>, last: Option<seq<nat>>)
    requires Orderly(s) && (|value| == 8 || |value| >= 12) && Holds(s, key, last) && !AddsSecond(s, key)
    requires s.cur + 1 < InitialIndex(s.Size()) && Add(s, key, value, true).Some?
    ensures Holds(Add(s, key, value, true).value, key, Some(Padded(value)))
  {
    AddIs(s, key, value, true);
    AddKeepsOrderly(s, key, value, true);
    AddThenFind(s, key, value, true);
    AddSoleIff(s, key, value, true);
    var u := Add(s, key, value, true).value;
    hide Add, Appended, KeyOf, ValueOf, Stale, Placed, OwnSlot, FoundAt, Padded, AddsSecond;
    FindSucceeds(u, key, 0);
  }

  lemma OtherAddHolds(s: Cache, key: Quad, value: seq<nat>, update: bool, k: Quad, last: Option<seq<nat>>)
    requires Orderly(s) && (|value| == 8 || |value| >= 12) && Holds(s, k, last) && k != key
    requires s.cur + 1 < InitialIndex(s.Size()) && Add(s, key, value, update).Some?
    ensures Holds(Add(s, key, value, update).value, k, last)
  {
    AddIs(s, key, value, update);
    var u := Add(s, key, value, update).value;
    hide WriteKey, Padded, KeyOf, ValueOf, Stale, Placed, OwnSlot;
    forall raw: nat | FoundAt(u, k, raw)
      ensures FoundAt(s, k, raw) && ValueOf(u.values, raw % u.Size()) == ValueOf(s.values, raw % s.Size())
    {
      if raw == s.cur { NewEntryIsOther(s, key, value, update, k); }
      FoundBefore(s, key, value, update, k, raw);
      OtherValue(s, key, value, update, k, raw);
    }
  }

  lemma NewEntryIsOther(s: Cache, key: Quad, value: seq<nat>, update: bool, k: Quad)
    requires Orderly(s) && (|value| == 8 || |value| >= 12) && k != key
    requires s.cur + 1 < InitialIndex(s.Size()) && Add(s, key, value, update).Some?
    ensures !FoundAt(Add(s, key, value, update).value, k, s.cur)
  {
    AddIs(s, key, value, update);
    AppendedIsLive(s, key, value);
    hide Add, Appended, KeyOf, OwnSlot, Stale, Placed;
  }

  lemma OtherValue(s: Cache, key: Quad, value: seq<nat>, update: bool, k: Quad, raw: nat)
    requires Orderly(s) && (|value| == 8 || |value| >= 12) && k != key && FoundAt(s, k, raw)
    requires s.cur + 1 < InitialIndex(s.Size()) && Add(s, key, value, update).Some?
    requires !OwnSlot(s, key, 0).Match? ==> raw + s.Size() != s.cur
    ensures var u := Add(s, key, value, update).value;
      u.Shaped() && u.Size() == s.Size() && ValueOf(u.values, raw % s.Size()) == ValueOf(s.values, raw % s.Size())
  {
    AddIs(s, key, value, update);
    var o := OwnSlot(s, key, 0);
    OwnSlotIs(s, key, 0);
    hide WriteKey, WriteValue, Padded, KeyOf, ValueOf, Stale, Placed, OwnSlot, Slot, Force;
    if o.Match? {
      WriteValueAt(s.values, s.indexes[Slot(key, o.i, |s.indexes|)] % s.Size(), Padded(value), raw % s.Size());
    } else {
      SameKey(s, key, value, raw);
      WriteValueAt(s.values, s.cur % s.Size(), Padded(value), raw % s.Size());
    }
  }

  /** The value the key was last added with */
  function Latest(calls: seq<Call>, k: Quad): Option<seq<nat>>
    requires forall c :: c in calls ==> CallOk(c)
  {
    if calls == [] then None
    else
      var c := calls[|calls| - 1];
      assert CallOk(c);
      if c.key == k then Some(Padded(c.value)) else Latest(calls[..|calls| - 1], k)
  }

  /** Every call of the run that adds the key updates it, and none adds a second entry of it. */
  ghost predicate NeverSecond(s: Cache, calls: seq<Call>, k: Quad)
    decreases |calls|
  {
    calls == [] ||
    (var c := calls[0];
     CallOk(c) && s.Shaped() && SmallIndexes(s.indexes) && s.cur <= UINT32_MAX
     && (c.key == k ==> c.update && !AddsSecond(s, k))
     && Add(s, c.key, c.value, c.update).Some?
     && NeverSecond(Add(s, c.key, c.value, c.update).value, calls[1..], k))
  }

  lemma {:induction false} AddsHold(s: Cache, done: seq<Call>, calls: seq<Call>, t: Cache, k: Quad)
    requires Orderly(s) && Adds(s, calls, t) && NeverSecond(s, calls, k)
    requires s.cur + |calls| < InitialIndex(s.Size())
    requires (forall c :: c in done ==> CallOk(c)) && (forall c :: c in calls ==> CallOk(c))
    requires Holds(s, k, Latest(done, k))
    ensures Orderly(t) && Holds(t, k, Latest(done + calls, k))
    decreases |calls|
  {
    hide Add, Holds, AddsSecond, Orderly, Padded;
    if calls == [] {
      assert done + calls == done;
    } else {
      var c := calls[0];
      OrderlyIsValid(s);
      AddKeepsValid(s, c.key, c.value, c.update);
      AddKeepsOrderly(s, c.key, c.value, c.update);
      var more := done + [c];
      assert more[..|more| - 1] == done && more + calls[1..] == done + calls;
      if c.key == k {
        OwnAddHolds(s, k, c.value, Latest(done, k));
      } else {
        OtherAddHolds(s, c.key, c.value, c.update, k, Latest(done, k));
      }
      AddsHold(Add(s, c.key, c.value, c.update).value, more, calls[1..], t, k);
    }
  }

  lemma OrderlyIsValid(s: Cache)
    requires Orderly(s)
    ensures Valid(s) && SmallIndexes(s.indexes)
  {
  }

  /** From the empty cache on, a hit returns the value its key was last added with, as long as no second
      entry of the key is written. */
  lemma LatestIsFound(s: Cache, calls: seq<Call>, t: Cache, k: Quad)
    requires s.Shaped() && s.Size() < UINT32_MAX && s == Empty(|s.indexes|, s.Size(), s.keys, s.values, s.leaf)
    requires Adds(s, calls, t) && |calls| < InitialIndex(s.Size()) && NeverSecond(s, calls, k)
    requires forall c :: c in calls ==> CallOk(c)
    ensures t.Shaped() && SmallIndexes(t.indexes)
    ensures Find(t, k).Some? ==> Latest(calls, k) == Find(t, k)
  {
    EmptyIsOrderly(s, k);
    assert [] + calls == calls;
    AddsHold(s, [], calls, t, k);
    FindSucceeds(t, k, 0);
  }

  lemma EmptyIsOrderly(s: Cache, k: Quad)
    requires s.Shaped() && s.Size() < UINT32_MAX && s == Empty(|s.indexes|, s.Size(), s.keys, s.values, s.leaf)
    requires 0 < InitialIndex(s.Size())
    ensures Orderly(s) && Holds(s, k, None)
  {
    UnusedSlotStaleIff(s.cur, s.Size());
  }

  // ---------------------------------------------------------------- an old value that comes back

  const KEY_K := Quad(1, 5, 4, 0)
  const KEY_L := Quad(5, 4, 4, 5)

  function Eight(v: nat): (r: seq<nat>)
    ensures |r| == 8
  {
    [v, 0, 0, 0, 0, 0, 0, 0]
  }

  function Update(key: Quad, v: nat): Call {
    Call(key, Eight(v), true)
  }

  /** Seven additions to a cache of 8 index slots and 4 entries; the fourth and the sixth are of `KEY_K`. */
  const RUN: seq<Call> := [
    Update(KEY_L, 1), Update(Quad(5, 1, 3, 3), 2), Update(Quad(5, 5, 2, 4), 3), Update(KEY_K, 4),
    Update(Quad(7, 0, 7, 2), 5), Update(KEY_K, 6), Update(KEY_L, 7)]

  /** A cache with 8 index slots and 4 entries, entry by entry */
  ghost predicate Looks(s: Cache, cur: nat, indexes: seq<nat>, keys: seq<Quad>)
    requires |indexes| == 8 && |keys| == 4
  {
    && s.Shaped() && s.Size() == 4 && s.cur == cur && s.indexes == indexes
    && forall c :: 0 <= c < 4 && c < cur ==> KeyOf(s.keys, c) == keys[c]
  }

  /** The entry a slot of the key leads to is live and of another key. */
  predicate Taken(cur: nat, indexes: seq<nat>, keys: seq<Quad>, key: Quad, j: nat)
    requires |indexes| == 8 && |keys| == 4 && j < 4
  {
    var raw := indexes[Slot(key, j, 8)];
    raw < cur <= raw + 4 && keys[raw % 4] != key
  }

  /** What looking for a slot of the key finds in a cache that looks like this */
  lemma {:induction false} OwnSlotLooks(s: Cache, cur: nat, indexes: seq<nat>, keys: seq<Quad>, key: Quad, i: nat,
      m: nat)
    requires |indexes| == 8 && |keys| == 4 && Looks(s, cur, indexes, keys) && SmallIndexes(s.indexes)
    requires i <= m <= 4 && forall j :: i <= j < m ==> Taken(cur, indexes, keys, key, j)
    requires m < 4 ==> Stale(cur, indexes[Slot(key, m, 8)], 4)
    ensures OwnSlot(s, key, i) == if m < 4 then Free(m) else Full
    decreases m - i
  {
    if i < m {
      assert Taken(cur, indexes, keys, key, i);
      OwnSlotLooks(s, cur, indexes, keys, key, i + 1, m);
    }
  }

  /** An addition that writes a new entry into the first free slot */
  lemma FreeStep(s: Cache, cur: nat, indexes: seq<nat>, keys: seq<Quad>, key: Quad, v: nat, m: nat) returns (u: Cache)
    requires |indexes| == 8 && |keys| == 4 && Looks(s, cur, indexes, keys) && SmallIndexes(s.indexes)
    requires m < 4 && Stale(cur, indexes[Slot(key, m, 8)], 4) && cur < 100
    requires forall j :: 0 <= j < m ==> Taken(cur, indexes, keys, key, j)
    ensures Add(s, key, Eight(v), true) == Some(u) && SmallIndexes(u.indexes)
    ensures Looks(u, cur + 1, indexes[Slot(key, m, 8) := cur], keys[cur % 4 := key])
    ensures ValueOf(u.values, 3) == if cur % 4 == 3 then Padded(Eight(v)) else ValueOf(s.values, 3)
  {
    OwnSlotLooks(s, cur, indexes, keys, key, 0, m);
    hide WriteKey, WriteValue, Padded, KeyOf, ValueOf, Stale, Slot, Eight, OwnSlot, Taken;
    u := Add(s, key, Eight(v), true).value;
    WriteValueAt(s.values, cur % 4, Padded(Eight(v)), 3);
    hide ValueOf;
    WrittenLooks(s, cur, indexes, keys, key, Eight(v));
  }

  lemma WrittenLooks(s: Cache, cur: nat, indexes: seq<nat>, keys: seq<Quad>, key: Quad, value: seq<nat>)
    requires |indexes| == 8 && |keys| == 4 && Looks(s, cur, indexes, keys) && |value| == 8
    ensures Looks(WriteEntry(s, cur % 4, key, value).(cur := cur + 1), cur + 1, indexes, keys[cur % 4 := key])
  {
    hide WriteKey, WriteValue, Padded, KeyOf;
    var t := WriteEntry(s, cur % 4, key, value);
    forall c | 0 <= c < 4 && c < cur + 1 ensures KeyOf(t.keys, c) == keys[cur % 4 := key][c] {
      WriteKeyAt(s.keys, cur % 4, key, c);
    }
  }

  lemma AddsStep(s: Cache, calls: seq<Call>, i: nat, u: Cache, t: Cache)
    requires i < |calls| && CallOk(calls[i]) && s.Shaped() && SmallIndexes(s.indexes) && s.cur <= UINT32_MAX
    requires Add(s, calls[i].key, calls[i].value, calls[i].update) == Some(u) && Adds(u, calls[i + 1..], t)
    ensures Adds(s, calls[i..], t)
  {
    hide Add;
    assert calls[i..][1..] == calls[i + 1..];
  }

  const UNUSED: nat := InitialIndex(4)

  /** The index table after `n` calls */
  function Table(n: nat): (r: seq<nat>)
    ensures |r| == 8
  {
    match n
    case 0 => [UNUSED, UNUSED, UNUSED, UNUSED, UNUSED, UNUSED, UNUSED, UNUSED]
    case 1 => [UNUSED, UNUSED, UNUSED, UNUSED, UNUSED, 0, UNUSED, UNUSED]
    case 2 => [UNUSED, 1, UNUSED, UNUSED, UNUSED, 0, UNUSED, UNUSED]
    case 3 => [UNUSED, 1, 2, UNUSED, UNUSED, 0, UNUSED, UNUSED]
    case 4 => [UNUSED, 1, 2, UNUSED, 3, 0, UNUSED, UNUSED]
    case 5 => [UNUSED, 1, 2, UNUSED, 3, 0, UNUSED, 4]
    case 6 => [UNUSED, 1, 2, UNUSED, 3, 5, UNUSED, 4]
    case _ => [UNUSED, 3, 2, UNUSED, 6, 5, UNUSED, 4]
  }

  const KEY_2 := Quad(5, 1, 3, 3)
  const KEY_3 := Quad(5, 5, 2, 4)
  const KEY_5 := Quad(7, 0, 7, 2)

  /** The keys in the ring after `n` calls */
  function Ring(n: nat): (r: seq<Quad>)
    ensures |r| == 4
  {
    match n
    case 0 => [ZERO, ZERO, ZERO, ZERO]
    case 1 => [KEY_L, ZERO, ZERO, ZERO]
    case 2 => [KEY_L, KEY_2, ZERO, ZERO]
    case 3 => [KEY_L, KEY_2, KEY_3, ZERO]
    case 4 => [KEY_L, KEY_2, KEY_3, KEY_K]
    case 5 => [KEY_5, KEY_2, KEY_3, KEY_K]
    case 6 => [KEY_5, KEY_K, KEY_3, KEY_K]
    case _ => [KEY_5, KEY_K, KEY_L, KEY_K]
  }

  /** The first free slot the call with number `n` finds */
  function FreeAt(n: nat): nat {
    match n
    case 0 => 0
    case 1 => 1
    case 2 => 2
    case 3 => 2
    case 4 => 0
    case _ => 1
  }

  predicate CallFinds(n: nat)
    requires n < 6
  {
    var key, m := RUN[n].key, FreeAt(n);
    && m < 4 && Table(n)[Slot(key, m, 8)] <= UINT32_MAX && Stale(n, Table(n)[Slot(key, m, 8)], 4)
    && (m > 0 ==> Taken(n, Table(n), Ring(n), key, 0))
    && (m > 1 ==> Taken(n, Table(n), Ring(n), key, 1)) && m <= 2
    && Table(n + 1) == Table(n)[Slot(key, m, 8) := n] && Ring(n + 1) == Ring(n)[n % 4 := key]
  }

  lemma EarlyCalls()
    ensures CallFinds(0) && CallFinds(1)
  {
  }

  lemma MiddleCalls()
    ensures CallFinds(2) && CallFinds(3)
  {
  }

  lemma LateCalls()
    ensures CallFinds(4) && CallFinds(5)
  {
  }

  /** One of the first six calls */
  lemma RunStep(s: Cache, n: nat) returns (u: Cache)
    requires n < 6 && CallFinds(n) && Looks(s, n, Table(n), Ring(n)) && SmallIndexes(s.indexes)
    requires RUN[n] == Update(RUN[n].key, n + 1)
    ensures Add(s, RUN[n].key, RUN[n].value, true) == Some(u) && SmallIndexes(u.indexes)
    ensures Looks(u, n + 1, Table(n + 1), Ring(n + 1))
    ensures ValueOf(u.values, 3) == if n == 3 then Padded(Eight(4)) else ValueOf(s.values, 3)
  {
    hide Table, Ring, Looks, Taken, Stale, Slot, Add, ValueOf, Padded, Eight;
    u := FreeStep(s, n, Table(n), Ring(n), RUN[n].key, n + 1, FreeAt(n));
  }

  lemma SlotsOfLast()
    ensures Slot(KEY_L, 0, 8) == 5 && Slot(KEY_L, 1, 8) == 4 && Slot(KEY_L, 2, 8) == 4 && Slot(KEY_L, 3, 8) == 5
    ensures Slot(KEY_K, 0, 8) == 1
  {
  }

  lemma LastTables()
    ensures SmallIndexes(Table(6)) && SmallIndexes(Table(6)[4 := 6]) && SmallIndexes(Table(7))
    ensures Table(6)[4 := 6][1 := 3] == Table(7)
  {
  }

  lemma LastRings()
    ensures Ring(6)[2 := KEY_L] == Ring(7) && Ring(7)[2] == KEY_L && Ring(7)[3] == KEY_K
  {
  }

  /** `KEY_L` finds its slots taken; its new entry takes the one of the first entry of `KEY_K`. */
  lemma FirstLink()
    ensures SmallIndexes(Table(6)) && Choose(Table(6), KEY_L, 7, 4, [6], 0, Stuck) == Displace(1, 3)
  {
    var t := Table(6);
    SlotsOfLast();
    hide Table, Slot;
    assert Choose(t, KEY_L, 7, 4, [6], 4, Displace(1, 3)) == Displace(1, 3);
    assert Choose(t, KEY_L, 7, 4, [6], 3, Displace(1, 3)) == Displace(1, 3);
    assert Choose(t, KEY_L, 7, 4, [6], 2, Displace(1, 3)) == Displace(1, 3);
    assert Choose(t, KEY_L, 7, 4, [6], 1, Displace(0, 5)) == Displace(1, 3);
  }

  /** That one goes to a slot that is stale by now and comes before the slot of the second entry. */
  lemma SecondLink()
    ensures var t := Table(6)[4 := 6]; SmallIndexes(t) && Choose(t, KEY_K, 7, 4, [6, 3], 0, Stuck) == Place(0)
  {
    SlotsOfLast();
  }

  lemma LastForce(keys: seq<nat>)
    requires |keys| == 16 && KeyOf(keys, 2) == KEY_L && KeyOf(keys, 3) == KEY_K
    ensures SmallIndexes(Table(6)) && Force(Table(6), keys, 7, 4, [6]) == Some(Table(7))
  {
    hide Table, Slot, Choose, KeyOf, SmallIndexes;
    FirstLink();
    SecondLink();
    LastTables();
    SlotsOfLast();
    assert [6] + [3] == [6, 3] && LastOf([6, 3]) == 3;
    assert Force(Table(6)[4 := 6], keys, 7, 4, [6, 3]) == Some(Table(7));
  }

  /** The seventh call finds no free slot and pushes the first entry of `KEY_K` back in front of the second. */
  lemma LastStep(s: Cache) returns (u: Cache)
    requires Looks(s, 6, Table(6), Ring(6)) && SmallIndexes(s.indexes)
    ensures Add(s, KEY_L, Eight(7), true) == Some(u) && SmallIndexes(u.indexes)
    ensures Looks(u, 7, Table(7), Ring(7)) && ValueOf(u.values, 3) == ValueOf(s.values, 3)
  {
    hide Table, Ring, WriteKey, WriteValue, Padded, KeyOf, ValueOf, Stale, Slot, Eight, OwnSlot, Taken, Force,
      SmallIndexes;
    NoFreeSlot();
    OwnSlotLooks(s, 6, Table(6), Ring(6), KEY_L, 0, 4);
    WrittenLooks(s, 6, Table(6), Ring(6), KEY_L, Eight(7));
    LastRings();
    LastTables();
    var t := WriteEntry(s, 2, KEY_L, Eight(7)).(cur := 7);
    LastForce(t.keys);
    u := Add(s, KEY_L, Eight(7), true).value;
    WriteValueAt(s.values, 2, Padded(Eight(7)), 3);
  }

  lemma NoFreeSlot()
    ensures forall j :: 0 <= j < 4 ==> Taken(6, Table(6), Ring(6), KEY_L, j)
  {
    SlotsOfLast();
    hide Slot;
    forall j | 0 <= j < 4 ensures Taken(6, Table(6), Ring(6), KEY_L, j) {
      assert j == 0 || j == 1 || j == 2 || j == 3;
    }
  }

  lemma EmptyLooks(s: Cache)
    requires s.Shaped() && |s.indexes| == 8 && s.Size() == 4 && s == Empty(8, 4, s.keys, s.values, s.leaf)
    ensures Looks(s, 0, Table(0), Ring(0)) && SmallIndexes(s.indexes)
  {
    assert Filled(8, UNUSED) == Table(0);
  }

  lemma RunCalls()
    ensures |RUN| == 7 && forall n :: 0 <= n < 7 ==> CallOk(RUN[n]) && RUN[n] == Update(RUN[n].key, n + 1)
    ensures RUN[6].key == KEY_L && Latest(RUN, KEY_K) == Some(Padded(Eight(6)))
  {
    hide Padded;
    assert RUN[..6][5] == Update(KEY_K, 6);
  }

  /** The first six calls */
  lemma SixSteps(s: Cache) returns (s6: Cache)
    requires Looks(s, 0, Table(0), Ring(0)) && SmallIndexes(s.indexes)
    ensures Looks(s6, 6, Table(6), Ring(6)) && SmallIndexes(s6.indexes)
    ensures ValueOf(s6.values, 3) == Padded(Eight(4))
    ensures forall t :: Adds(s6, RUN[6..], t) ==> Adds(s, RUN, t)
  {
    RunCalls();
    EarlyCalls();
    MiddleCalls();
    LateCalls();
    hide CallFinds, Table, Ring, Add, Padded, Eight, ValueOf, Adds, Find;
    var s1 := RunStep(s, 0);
    var s2 := RunStep(s1, 1);
    var s3 := RunStep(s2, 2);
    var s4 := RunStep(s3, 3);
    var s5 := RunStep(s4, 4);
    s6 := RunStep(s5, 5);
    forall t | Adds(s6, RUN[6..], t) ensures Adds(s, RUN, t) {
      AddsStep(s5, RUN, 5, s6, t);
      AddsStep(s4, RUN, 4, s5, t);
      AddsStep(s3, RUN, 3, s4, t);
      AddsStep(s2, RUN, 2, s3, t);
      AddsStep(s1, RUN, 1, s2, t);
      AddsStep(s, RUN, 0, s1, t);
      assert RUN[0..] == RUN;
    }
  }

  /** With `update` a lookup can return an older value than the last one: after the seven additions the
      lookup of `KEY_K` returns the 4 of the fourth call, not the 6 of the sixth. */
  lemma OldValueReturns(s: Cache) returns (t: Cache)
    requires s.Shaped() && |s.indexes| == 8 && s.Size() == 4 && s == Empty(8, 4, s.keys, s.values, s.leaf)
    ensures (forall c :: c in RUN ==> CallOk(c)) && Adds(s, RUN, t)
    ensures t.Shaped() && SmallIndexes(t.indexes)
    ensures Find(t, KEY_K) == Some(Padded(Eight(4))) && Latest(RUN, KEY_K) == Some(Padded(Eight(6)))
    ensures !NeverSecond(s, RUN, KEY_K)
  {
    RunCalls();
    EmptyLooks(s);
    hide Add, Eight, Padded, ValueOf, Adds, Find, NeverSecond;
    var s6 := SixSteps(s);
    t := LastStep(s6);
    LastAdd(s6, t);
    LastFind(t);
    OtherValues();
    if NeverSecond(s, RUN, KEY_K) { LatestIsFound(s, RUN, t, KEY_K); }
  }

  lemma OtherValues()
    ensures Padded(Eight(4)) != Padded(Eight(6))
  {
    assert Padded(Eight(4))[0] == 4 && Padded(Eight(6))[0] == 6;
  }

  lemma LastAdd(s6: Cache, t: Cache)
    requires s6.Shaped() && SmallIndexes(s6.indexes) && s6.cur == 6
    requires Add(s6, KEY_L, Eight(7), true) == Some(t)
    ensures Adds(s6, RUN[6..], t)
  {
    RunCalls();
    hide Add, Eight;
    assert RUN[7..] == [];
    AddsStep(s6, RUN, 6, t, t);
  }

  /** The first slot of `KEY_K` leads to its first entry. */
  lemma LastFind(t: Cache)
    requires Looks(t, 7, Table(7), Ring(7)) && SmallIndexes(t.indexes)
    ensures Find(t, KEY_K) == Some(ValueOf(t.values, 3))
  {
    assert Slot(KEY_K, 0, 8) == 1 && Table(7)[1] == 3 && Ring(7)[3] == KEY_K;
    hide KeyOf, ValueOf, Slot, Table, Ring;
    assert Find(t, KEY_K) == FindFrom(t, KEY_K, 0);
  }
}
