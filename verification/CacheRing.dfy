/** The associative cache as a value: a ring of entries, and an index table that leads from each of
    the four words of a key to the number of an entry. Entry numbers grow for ever and wrap at 32
    bits; the ring slot is the number modulo the ring size. */
module CacheRings {
  import opened Bits
  import opened Results
  import opened SmtKeys

  const UINT32_MAX: nat := 0xFFFF_FFFF

  datatype Cache = Cache(cur: nat, indexes: seq<nat>, keys: seq<nat>, values: seq<nat>, leaf: seq<bool>) {
    /** Ring size */
    function Size(): nat {
      |leaf|
    }

    predicate Shaped() {
      |leaf| > 0 && |indexes| > 0 && |keys| == 4 * |leaf| && |values| == 12 * |leaf|
    }
  }

  function KeyOf(keys: seq<nat>, c: nat): Quad
    requires 4 * c + 4 <= |keys|
  {
    Quad(keys[4 * c], keys[4 * c + 1], keys[4 * c + 2], keys[4 * c + 3])
  }

  function ValueOf(values: seq<nat>, c: nat): (r: seq<nat>)
    requires 12 * c + 12 <= |values|
    ensures |r| == 12
  {
    values[12 * c..12 * c + 12]
  }

  function Slot(key: Quad, i: nat, n: nat): (r: nat)
    requires i < 4 && n > 0
    ensures r < n
  {
    key.At(i) % n
  }

  /** The entry with this number has been overwritten, or never existed. */
  predicate Stale(cur: nat, raw: nat, size: nat)
    requires raw <= UINT32_MAX
  {
    || (cur >= raw && cur - raw > size)
    || (cur < raw && UINT32_MAX - raw + cur > size)
  }

  /** What an index slot holds before its first use */
  function InitialIndex(size: nat): nat
    requires size < UINT32_MAX
  {
    UINT32_MAX - size - 1
  }

  /** Unused slots read as stale exactly while the entry number has not reached their marker, and once
      more at the very last number before it wraps. */
  lemma UnusedSlotStaleIff(cur: nat, size: nat)
    requires cur <= UINT32_MAX && size < UINT32_MAX
    ensures Stale(cur, InitialIndex(size), size) <==> cur < InitialIndex(size) || cur == UINT32_MAX
  {
    assert InitialIndex(size) + size == UINT32_MAX - 1;
  }

  function NextIndex(cur: nat): nat {
    if cur == UINT32_MAX then 0 else cur + 1
  }

  predicate SmallIndexes(indexes: seq<nat>) {
    forall t :: 0 <= t < |indexes| ==> indexes[t] <= UINT32_MAX
  }

  // ---------------------------------------------------------------- the displacement chain

  datatype Choice = Place(i: nat) | Displace(i: nat, raw: nat) | Stuck

  /** The first stale slot of the key, else the one with the least number not used in the chain yet. */
  function Choose(indexes: seq<nat>, key: Quad, cur: nat, size: nat, chain: seq<nat>, i: nat, best: Choice): Choice
    requires i <= 4 && |indexes| > 0 && SmallIndexes(indexes)
    decreases 4 - i
  {
    if i == 4 then best
    else
      var raw := indexes[Slot(key, i, |indexes|)];
      if Stale(cur, raw, size) then Place(i)
      else
        var least := if best.Displace? then best.raw else UINT32_MAX;
        Choose(indexes, key, cur, size, chain, i + 1,
               if raw !in chain && raw < least then Displace(i, raw) else best)
  }

  ghost predicate Chosen(indexes: seq<nat>, key: Quad, cur: nat, size: nat, chain: seq<nat>, c: Choice)
    requires |indexes| > 0 && SmallIndexes(indexes)
  {
    match c
    case Place(i) => i < 4 && Stale(cur, indexes[Slot(key, i, |indexes|)], size)
    case Displace(i, raw) =>
      i < 4 && raw == indexes[Slot(key, i, |indexes|)] && raw !in chain && !Stale(cur, raw, size)
    case Stuck => true
  }

  lemma {:induction false} ChooseIsChosen(indexes: seq<nat>, key: Quad, cur: nat, size: nat, chain: seq<nat>, i: nat,
      best: Choice)
    requires i <= 4 && |indexes| > 0 && SmallIndexes(indexes)
    requires !best.Place? && Chosen(indexes, key, cur, size, chain, best)
    ensures Chosen(indexes, key, cur, size, chain, Choose(indexes, key, cur, size, chain, i, best))
    decreases 4 - i
  {
    if i < 4 {
      var raw := indexes[Slot(key, i, |indexes|)];
      if !Stale(cur, raw, size) {
        var least := if best.Displace? then best.raw else UINT32_MAX;
        ChooseIsChosen(indexes, key, cur, size, chain, i + 1,
                       if raw !in chain && raw < least then Displace(i, raw) else best);
      }
    }
  }

  /** A stale slot is always taken: nothing is displaced while one of the four slots is free. */
  lemma {:induction false} FreeSlotIsTaken(indexes: seq<nat>, key: Quad, cur: nat, size: nat, chain: seq<nat>, i: nat,
      best: Choice, j: nat)
    requires i <= j < 4 && |indexes| > 0 && SmallIndexes(indexes)
    requires Stale(cur, indexes[Slot(key, j, |indexes|)], size)
    ensures Choose(indexes, key, cur, size, chain, i, best).Place?
    decreases 4 - i
  {
    var raw := indexes[Slot(key, i, |indexes|)];
    if !Stale(cur, raw, size) {
      var least := if best.Displace? then best.raw else UINT32_MAX;
      FreeSlotIsTaken(indexes, key, cur, size, chain, i + 1,
                      if raw !in chain && raw < least then Displace(i, raw) else best, j);
    }
  }

  function LastOf(chain: seq<nat>): nat
    requires chain != []
  {
    chain[|chain| - 1]
  }

  /** `forcedInsertion`: the last entry of the chain takes a slot of its key; if that slot was in use,
      the entry it led to is next. None when the process exits. */
  function Force(indexes: seq<nat>, keys: seq<nat>, cur: nat, size: nat, chain: seq<nat>): Option<seq<nat>>
    requires |indexes| > 0 && SmallIndexes(indexes) && size > 0 && |keys| == 4 * size
    requires 0 < |chain| <= 10 && LastOf(chain) <= UINT32_MAX
    decreases 10 - |chain|
  {
    var raw := LastOf(chain);
    if |chain| > 9 then None
    else
      var key := KeyOf(keys, raw % size);
      var c := Choose(indexes, key, cur, size, chain, 0, Stuck);
      ChooseIsChosen(indexes, key, cur, size, chain, 0, Stuck);
      match c
      case Place(i) => Some(indexes[Slot(key, i, |indexes|) := raw])
      case Displace(i, m) =>
        Force(indexes[Slot(key, i, |indexes|) := raw], keys, cur, size, chain + [m])
      case Stuck => None
  }

  /** Some slot of the entry's key leads to the entry. */
  ghost predicate Leads(indexes: seq<nat>, keys: seq<nat>, size: nat, raw: nat)
    requires |indexes| > 0 && size > 0 && |keys| == 4 * size
  {
    exists i :: 0 <= i < 4 && indexes[Slot(KeyOf(keys, raw % size), i, |indexes|)] == raw
  }

  /** Redirecting one slot to `raw` leaves every entry reachable except the one the slot led to. */
  lemma RedirectKeeps(indexes: seq<nat>, keys: seq<nat>, size: nat, t: nat, raw: nat, r: nat)
    requires |indexes| > 0 && size > 0 && |keys| == 4 * size && t < |indexes|
    requires Leads(indexes, keys, size, r) && indexes[t] != r
    ensures Leads(indexes[t := raw], keys, size, r)
  {
    var i :| 0 <= i < 4 && indexes[Slot(KeyOf(keys, r % size), i, |indexes|)] == r;
    assert Slot(KeyOf(keys, r % size), i, |indexes|) != t;
    assert indexes[t := raw][Slot(KeyOf(keys, r % size), i, |indexes[t := raw]|)] == r;
  }

  lemma RedirectReaches(indexes: seq<nat>, keys: seq<nat>, size: nat, i: nat, raw: nat)
    requires |indexes| > 0 && size > 0 && |keys| == 4 * size && i < 4
    ensures Leads(indexes[Slot(KeyOf(keys, raw % size), i, |indexes|) := raw], keys, size, raw)
  {
    var t := Slot(KeyOf(keys, raw % size), i, |indexes|);
    assert indexes[t := raw][Slot(KeyOf(keys, raw % size), i, |indexes[t := raw]|)] == raw;
  }

  /** The whole chain loses no entry, and makes its last one reachable. */
  lemma {:induction false} ForceLosesNothing(indexes: seq<nat>, keys: seq<nat>, cur: nat, size: nat, chain: seq<nat>,
      r: nat)
    requires |indexes| > 0 && SmallIndexes(indexes) && size > 0 && |keys| == 4 * size
    requires 0 < |chain| <= 10 && LastOf(chain) <= UINT32_MAX
    requires r <= UINT32_MAX && !Stale(cur, r, size)
    requires r == LastOf(chain) || Leads(indexes, keys, size, r)
    ensures var f := Force(indexes, keys, cur, size, chain);
            f.Some? ==> |f.value| == |indexes| && Leads(f.value, keys, size, r)
    decreases 10 - |chain|
  {
    hide Leads, Choose, Stale;
    if |chain| <= 9 {
      var raw := LastOf(chain);
      var key := KeyOf(keys, raw % size);
      var c := Choose(indexes, key, cur, size, chain, 0, Stuck);
      ChooseIsChosen(indexes, key, cur, size, chain, 0, Stuck);
      if !c.Stuck? {
        var t := Slot(key, c.i, |indexes|);
        RedirectReaches(indexes, keys, size, c.i, raw);
        if r != raw && indexes[t] != r { RedirectKeeps(indexes, keys, size, t, raw, r); }
        if c.Displace? {
          ForceLosesNothing(indexes[t := raw], keys, cur, size, chain + [c.raw], r);
        }
      }
    }
  }

  /** Every slot of the result holds what some slot held before, or the number that was inserted. */
  lemma {:induction false} ForceSlots(indexes: seq<nat>, keys: seq<nat>, cur: nat, size: nat, chain: seq<nat>, t: nat)
    requires |indexes| > 0 && SmallIndexes(indexes) && size > 0 && |keys| == 4 * size && t < |indexes|
    requires 0 < |chain| <= 10 && LastOf(chain) <= UINT32_MAX
    ensures var f := Force(indexes, keys, cur, size, chain);
            f.Some? ==> |f.value| == |indexes| && (f.value[t] == LastOf(chain) || f.value[t] in indexes)
    decreases 10 - |chain|
  {
    hide Choose, Stale;
    if |chain| <= 9 {
      var raw := LastOf(chain);
      var key := KeyOf(keys, raw % size);
      var c := Choose(indexes, key, cur, size, chain, 0, Stuck);
      ChooseIsChosen(indexes, key, cur, size, chain, 0, Stuck);
      if c.Displace? {
        ForceSlots(indexes[Slot(key, c.i, |indexes|) := raw], keys, cur, size, chain + [c.raw], t);
      }
    }
  }

  /** The process does not exit while the entry at hand has a stale slot. */
  lemma FreeSlotEndsChain(indexes: seq<nat>, keys: seq<nat>, cur: nat, size: nat, chain: seq<nat>, j: nat)
    requires |indexes| > 0 && SmallIndexes(indexes) && size > 0 && |keys| == 4 * size && j < 4
    requires 0 < |chain| <= 9 && LastOf(chain) <= UINT32_MAX
    requires Stale(cur, indexes[Slot(KeyOf(keys, LastOf(chain) % size), j, |indexes|)], size)
    ensures Force(indexes, keys, cur, size, chain).Some?
  {
    FreeSlotIsTaken(indexes, KeyOf(keys, LastOf(chain) % size), cur, size, chain, 0, Stuck, j);
  }

  /** The number a slot of the key holds */
  function Held(indexes: seq<nat>, key: Quad, i: nat): nat
    requires |indexes| > 0 && i < 4
  {
    indexes[Slot(key, i, |indexes|)]
  }

  /** One of the key's slots is stale. */
  predicate HasRoom(indexes: seq<nat>, key: Quad, cur: nat, size: nat)
    requires |indexes| > 0 && SmallIndexes(indexes)
  {
    exists i :: 0 <= i < 4 && Stale(cur, Held(indexes, key, i), size)
  }

  /** Slot `i` is the first stale one. */
  ghost predicate TakesRoom(indexes: seq<nat>, key: Quad, cur: nat, size: nat, i: nat)
    requires |indexes| > 0 && SmallIndexes(indexes)
  {
    && i < 4 && Stale(cur, Held(indexes, key, i), size)
    && forall j :: 0 <= j < i ==> !Stale(cur, Held(indexes, key, j), size)
  }

  /** The number can be displaced: the chain has not used it, and it is below the number the search
      starts from. */
  predicate Usable(chain: seq<nat>, raw: nat) {
    raw !in chain && raw < UINT32_MAX
  }

  /** `c` is the first of the slots below `n` with the least usable number, or `Stuck` if there is none. */
  ghost predicate LeastUsable(indexes: seq<nat>, key: Quad, chain: seq<nat>, n: nat, c: Choice)
    requires |indexes| > 0 && n <= 4
  {
    match c
    case Place(_) => false
    case Stuck => forall j :: 0 <= j < n ==> !Usable(chain, Held(indexes, key, j))
    case Displace(i, raw) =>
      && i < n && raw == Held(indexes, key, i) && Usable(chain, raw)
      && (forall j :: 0 <= j < n && Usable(chain, Held(indexes, key, j)) ==> raw <= Held(indexes, key, j))
      && (forall j :: 0 <= j < i ==> Held(indexes, key, j) != raw)
  }

  lemma {:induction false} ChooseFrom(indexes: seq<nat>, key: Quad, cur: nat, size: nat, chain: seq<nat>, i: nat,
      best: Choice)
    requires i <= 4 && |indexes| > 0 && SmallIndexes(indexes) && LeastUsable(indexes, key, chain, i, best)
    ensures var c := Choose(indexes, key, cur, size, chain, i, best);
      if c.Place? then
        && i <= c.i < 4 && Stale(cur, Held(indexes, key, c.i), size)
        && forall j :: i <= j < c.i ==> !Stale(cur, Held(indexes, key, j), size)
      else
        && (forall j :: i <= j < 4 ==> !Stale(cur, Held(indexes, key, j), size))
        && LeastUsable(indexes, key, chain, 4, c)
    decreases 4 - i
  {
    hide Stale, Slot;
    if i < 4 {
      var raw := Held(indexes, key, i);
      if !Stale(cur, raw, size) {
        var least := if best.Displace? then best.raw else UINT32_MAX;
        ChooseFrom(indexes, key, cur, size, chain, i + 1,
                   if raw !in chain && raw < least then Displace(i, raw) else best);
      }
    }
  }

  /** Which slot is chosen: the first stale one; with no stale one, the first that holds the least number
      the chain has not used; and none exactly when the chain has used all four. */
  lemma ChoiceIsLeast(indexes: seq<nat>, key: Quad, cur: nat, size: nat, chain: seq<nat>)
    requires |indexes| > 0 && SmallIndexes(indexes)
    ensures var c := Choose(indexes, key, cur, size, chain, 0, Stuck);
      && (c.Place? <==> HasRoom(indexes, key, cur, size))
      && (c.Place? ==> TakesRoom(indexes, key, cur, size, c.i))
      && (!c.Place? ==> LeastUsable(indexes, key, chain, 4, c))
  {
    hide Stale, Slot;
    ChooseFrom(indexes, key, cur, size, chain, 0, Stuck);
  }

  /** One link of the displacement chain, without the search: the last entry of the chain takes its first
      stale slot; with no stale slot it takes the slot of the least usable number, which is next; and the
      process exits after ten entries, or when no number is usable. */
  lemma ForceLink(indexes: seq<nat>, keys: seq<nat>, cur: nat, size: nat, chain: seq<nat>)
    requires |indexes| > 0 && SmallIndexes(indexes) && size > 0 && |keys| == 4 * size
    requires 0 < |chain| <= 10 && LastOf(chain) <= UINT32_MAX
    ensures var raw, f := LastOf(chain), Force(indexes, keys, cur, size, chain);
      var key := KeyOf(keys, raw % size);
      && (|chain| == 10 ==> f == None)
      && (|chain| < 10 && HasRoom(indexes, key, cur, size) ==>
        exists i :: TakesRoom(indexes, key, cur, size, i) && f == Some(indexes[Slot(key, i, |indexes|) := raw]))
      && (|chain| < 10 && !HasRoom(indexes, key, cur, size) ==>
        forall c :: LeastUsable(indexes, key, chain, 4, c) ==>
          f == if c.Stuck? then None
               else Force(indexes[Slot(key, c.i, |indexes|) := raw], keys, cur, size, chain + [c.raw]))
  {
    hide Stale, Slot, KeyOf, Choose;
    if |chain| < 10 {
      var raw := LastOf(chain);
      var key := KeyOf(keys, raw % size);
      ChoiceIsLeast(indexes, key, cur, size, chain);
      var c := Choose(indexes, key, cur, size, chain, 0, Stuck);
      if c.Place? {
        assert TakesRoom(indexes, key, cur, size, c.i);
      } else {
        forall d | LeastUsable(indexes, key, chain, 4, d) ensures d == c { OneLeast(indexes, key, chain, c, d); }
      }
    }
  }

  lemma OneLeast(indexes: seq<nat>, key: Quad, chain: seq<nat>, c: Choice, d: Choice)
    requires |indexes| > 0 && LeastUsable(indexes, key, chain, 4, c) && LeastUsable(indexes, key, chain, 4, d)
    ensures c == d
  {
    hide Held;
    if c.Displace? && d.Displace? { assert c.raw == d.raw; }
  }

  /** The insertion fails only after ten entries, or at an entry without a stale slot and all of whose slots
      hold numbers the chain has used. */
  lemma {:induction false} ForceFailsOnly(indexes: seq<nat>, keys: seq<nat>, cur: nat, size: nat, chain: seq<nat>)
    returns (table: seq<nat>, whole: seq<nat>)
    requires |indexes| > 0 && SmallIndexes(indexes) && size > 0 && |keys| == 4 * size
    requires 0 < |chain| <= 10 && LastOf(chain) <= UINT32_MAX && Force(indexes, keys, cur, size, chain).None?
    ensures |table| == |indexes| && SmallIndexes(table) && chain <= whole && |whole| <= 10
    ensures var key := KeyOf(keys, LastOf(whole) % size);
      |whole| == 10 || (!HasRoom(table, key, cur, size) && LeastUsable(table, key, whole, 4, Stuck))
    decreases 10 - |chain|
  {
    hide Stale, Slot, KeyOf, HasRoom, LeastUsable, Choose;
    table, whole := indexes, chain;
    if |chain| < 10 {
      var raw := LastOf(chain);
      var key := KeyOf(keys, raw % size);
      ChoiceIsLeast(indexes, key, cur, size, chain);
      ChooseIsChosen(indexes, key, cur, size, chain, 0, Stuck);
      var c := Choose(indexes, key, cur, size, chain, 0, Stuck);
      if c.Displace? {
        table, whole := ForceFailsOnly(indexes[Slot(key, c.i, |indexes|) := raw], keys, cur, size, chain + [c.raw]);
      }
    }
  }

  // ---------------------------------------------------------------- adding and finding

  function Padded(value: seq<nat>): (r: seq<nat>)
    requires |value| == 8 || |value| >= 12
    ensures |r| == 12
  {
    if |value| > 8 then value[..12] else value + [0, 0, 0, 0]
  }

  function WriteKey(keys: seq<nat>, c: nat, key: Quad): (r: seq<nat>)
    requires 4 * c + 4 <= |keys|
    ensures |r| == |keys|
  {
    keys[4 * c := key.e0][4 * c + 1 := key.e1][4 * c + 2 := key.e2][4 * c + 3 := key.e3]
  }

  function WriteValue(values: seq<nat>, c: nat, value: seq<nat>): (r: seq<nat>)
    requires 12 * c + 12 <= |values| && |value| == 12
    ensures |r| == |values|
  {
    values[..12 * c] + value + values[12 * c + 12..]
  }

  function WriteEntry(s: Cache, c: nat, key: Quad, value: seq<nat>): (t: Cache)
    requires s.Shaped() && c < s.Size() && (|value| == 8 || |value| >= 12)
    ensures t.Shaped() && t.Size() == s.Size() && t.indexes == s.indexes && t.cur == s.cur
  {
    s.(keys := WriteKey(s.keys, c, key), values := WriteValue(s.values, c, Padded(value)),
        leaf := s.leaf[c := |value| > 8])
  }

  /** Writing an entry: its key, its value cut or filled up with zeros to 12 elements, and whether the value
      had them, are at its place; nothing else changes. */
  lemma WrittenEntry(s: Cache, c: nat, key: Quad, value: seq<nat>, d: nat)
    requires s.Shaped() && c < s.Size() && d < s.Size() && (|value| == 8 || |value| >= 12)
    ensures var t := WriteEntry(s, c, key, value);
      && KeyOf(t.keys, d) == (if d == c then key else KeyOf(s.keys, d))
      && t.leaf[d] == (if d == c then |value| >= 12 else s.leaf[d])
      && forall i :: 0 <= i < 12 ==> ValueOf(t.values, d)[i] ==
                                     if d != c then ValueOf(s.values, d)[i] else if i < |value| then value[i] else 0
  {
    WriteKeyAt(s.keys, c, key, d);
    WriteValueAt(s.values, c, Padded(value), d);
    hide WriteKey, WriteValue, KeyOf, ValueOf;
  }

  datatype Own = Free(i: nat) | Match(i: nat) | Full

  /** The first of the key's own slots that is stale or leads to an entry of this very key */
  function OwnSlot(s: Cache, key: Quad, i: nat): Own
    requires i <= 4 && s.Shaped() && SmallIndexes(s.indexes)
    decreases 4 - i
  {
    if i == 4 then Full
    else
      var raw := s.indexes[Slot(key, i, |s.indexes|)];
      if Stale(s.cur, raw, s.Size()) then Free(i)
      else if KeyOf(s.keys, raw % s.Size()) == key then Match(i)
      else OwnSlot(s, key, i + 1)
  }

  lemma {:induction false} OwnSlotIs(s: Cache, key: Quad, i: nat)
    requires i <= 4 && s.Shaped() && SmallIndexes(s.indexes)
    ensures var o := OwnSlot(s, key, i);
            && (o.Free? ==> o.i < 4 && Stale(s.cur, s.indexes[Slot(key, o.i, |s.indexes|)], s.Size()))
            && (o.Match? ==> o.i < 4 && !Stale(s.cur, s.indexes[Slot(key, o.i, |s.indexes|)], s.Size())
                             && KeyOf(s.keys, s.indexes[Slot(key, o.i, |s.indexes|)] % s.Size()) == key)
    decreases 4 - i
  {
    if i < 4 { OwnSlotIs(s, key, i + 1); }
  }

  /** `addKeyValue`; None when the process exits. */
  function Add(s: Cache, key: Quad, value: seq<nat>, update: bool): Option<Cache>
    requires s.Shaped() && SmallIndexes(s.indexes) && s.cur <= UINT32_MAX && (|value| == 8 || |value| >= 12)
  {
    var size := s.Size();
    var o := OwnSlot(s, key, 0);
    OwnSlotIs(s, key, 0);
    match o
    case Free(i) =>
      Some(WriteEntry(s, s.cur % size, key, value)
           .(indexes := s.indexes[Slot(key, i, |s.indexes|) := s.cur], cur := NextIndex(s.cur)))
    case Match(i) =>
      var c := s.indexes[Slot(key, i, |s.indexes|)] % size;
      Some(if update then WriteEntry(s, c, key, value) else s)
    case Full =>
      var t := WriteEntry(s, s.cur % size, key, value).(cur := NextIndex(s.cur));
      match Force(t.indexes, t.keys, t.cur, size, [s.cur])
      case None => None
      case Some(indexes) => Some(t.(indexes := indexes))
  }

  /** `findKey`: the first of the key's slots that leads to a live entry of this key */
  function FindFrom(s: Cache, key: Quad, i: nat): Option<seq<nat>>
    requires i <= 4 && s.Shaped() && SmallIndexes(s.indexes)
    decreases 4 - i
  {
    if i == 4 then None
    else
      var raw := s.indexes[Slot(key, i, |s.indexes|)];
      if !Stale(s.cur, raw, s.Size()) && KeyOf(s.keys, raw % s.Size()) == key
      then Some(ValueOf(s.values, raw % s.Size()))
      else FindFrom(s, key, i + 1)
  }

  function Find(s: Cache, key: Quad): Option<seq<nat>>
    requires s.Shaped() && SmallIndexes(s.indexes)
  {
    FindFrom(s, key, 0)
  }

  // ---------------------------------------------------------------- invariant

  /** The entry number counts up from zero and has not reached the value that marks unused slots;
      every slot holds that value or the number of an entry written before. */
  ghost predicate Valid(s: Cache) {
    && s.Shaped() && s.Size() < UINT32_MAX
    && s.cur < InitialIndex(s.Size())
    && forall t :: 0 <= t < |s.indexes| ==> s.indexes[t] < s.cur || s.indexes[t] == InitialIndex(s.Size())
  }

  /** Entries that have not been overwritten */
  predicate Live(s: Cache, raw: nat) {
    raw < s.cur <= raw + s.Size()
  }

  lemma ValidSlots(s: Cache)
    requires Valid(s)
    ensures SmallIndexes(s.indexes)
    ensures forall t :: 0 <= t < |s.indexes| ==> Stale(s.cur, s.indexes[t], s.Size()) == !Live(s, s.indexes[t])
  {
  }

  /** The key is found through entry `raw`. */
  ghost predicate FoundAt(s: Cache, key: Quad, raw: nat) {
    && s.Shaped() && Live(s, raw) && KeyOf(s.keys, raw % s.Size()) == key
    && Leads(s.indexes, s.keys, s.Size(), raw)
  }

  ghost predicate Findable(s: Cache, key: Quad) {
    exists raw: nat :: FoundAt(s, key, raw)
  }

  /** `findKey` succeeds exactly for the findable keys, */
  lemma FindIffFindable(s: Cache, key: Quad)
    requires Valid(s)
    ensures SmallIndexes(s.indexes) && (Find(s, key).Some? <==> Findable(s, key))
  {
    ValidSlots(s);
    FindSucceeds(s, key, 0);
    if Findable(s, key) {
      var raw: nat :| FoundAt(s, key, raw);
      var i :| 0 <= i < 4 && s.indexes[Slot(KeyOf(s.keys, raw % s.Size()), i, |s.indexes|)] == raw;
      FindDoesNotMiss(s, key, 0, i);
    }
  }

  /** and returns the value stored with an entry of that key. */
  lemma {:induction false} FindSucceeds(s: Cache, key: Quad, i: nat)
    requires Valid(s) && i <= 4 && SmallIndexes(s.indexes)
    ensures FindFrom(s, key, i).Some? ==>
              exists raw: nat :: FoundAt(s, key, raw) && FindFrom(s, key, i).value == ValueOf(s.values, raw % s.Size())
    decreases 4 - i
  {
    if i < 4 {
      ValidSlots(s);
      var raw := s.indexes[Slot(key, i, |s.indexes|)];
      if !Stale(s.cur, raw, s.Size()) && KeyOf(s.keys, raw % s.Size()) == key {
        assert Leads(s.indexes, s.keys, s.Size(), raw);
        assert FoundAt(s, key, raw);
      } else {
        FindSucceeds(s, key, i + 1);
      }
    }
  }

  lemma {:induction false} FindDoesNotMiss(s: Cache, key: Quad, i: nat, j: nat)
    requires Valid(s) && i <= j < 4 && SmallIndexes(s.indexes)
    requires var raw := s.indexes[Slot(key, j, |s.indexes|)]; Live(s, raw) && KeyOf(s.keys, raw % s.Size()) == key
    ensures FindFrom(s, key, i).Some?
    decreases 4 - i
  {
    ValidSlots(s);
    if i < j { FindDoesNotMiss(s, key, i + 1, j); }
  }

  // ---------------------------------------------------------------- what adding keeps

  /** Two live entries, or a live one and the next one, never share a ring slot unless the older one
      is exactly one ring size behind. */
  lemma RingSlots(cur: nat, raw: nat, size: nat)
    requires size > 0 && raw < cur <= raw + size && cur % size == raw % size
    ensures raw + size == cur
  {
    var a, b := cur / size, raw / size;
    assert cur == a * size + cur % size && raw == b * size + raw % size;
    assert (a - b - 1) * size == a * size - b * size - size == cur - raw - size;
    MultipleBelow(size, a - b - 1, cur - raw - size);
  }

  lemma WriteKeyAt(keys: seq<nat>, c: nat, key: Quad, d: nat)
    requires 4 * c + 4 <= |keys| && 4 * d + 4 <= |keys|
    ensures KeyOf(WriteKey(keys, c, key), d) == if d == c then key else KeyOf(keys, d)
  {
  }

  lemma WriteValueAt(values: seq<nat>, c: nat, value: seq<nat>, d: nat)
    requires 12 * c + 12 <= |values| && 12 * d + 12 <= |values| && |value| == 12
    ensures ValueOf(WriteValue(values, c, value), d) == if d == c then value else ValueOf(values, d)
  {
    var after := WriteValue(values, c, value);
    if d < c {
      assert 12 * d + 12 <= 12 * c;
      assert ValueOf(after, d) == ValueOf(values, d);
    } else if d > c {
      assert 12 * d >= 12 * c + 12;
      assert ValueOf(after, d) == ValueOf(values, d);
    }
  }

  /** The cache after the new entry has been written and counted, before any slot leads to it */
  function Appended(s: Cache, key: Quad, value: seq<nat>): (t: Cache)
    requires s.Shaped() && (|value| == 8 || |value| >= 12)
    ensures t.Shaped() && t.Size() == s.Size()
  {
    WriteEntry(s, s.cur % s.Size(), key, value).(cur := NextIndex(s.cur))
  }

  lemma AppendKeeps(s: Cache, key: Quad, value: seq<nat>, k: Quad, raw: nat)
    requires Valid(s) && (|value| == 8 || |value| >= 12) && FoundAt(s, k, raw) && s.cur < raw + s.Size()
    ensures FoundAt(Appended(s, key, value), k, raw)
  {
    hide WriteKey, WriteValue, Padded, KeyOf;
    if raw % s.Size() == s.cur % s.Size() {
      RingSlots(s.cur, raw, s.Size());
      assert false;
    }
    WriteKeyAt(s.keys, s.cur % s.Size(), key, raw % s.Size());
  }

  /** Entry numbers below `cur` are below the marker of unused slots. */
  lemma AppendedIsLive(s: Cache, key: Quad, value: seq<nat>)
    requires Valid(s) && (|value| == 8 || |value| >= 12)
    ensures var t := Appended(s, key, value); Live(t, s.cur) && KeyOf(t.keys, s.cur % s.Size()) == key
  {
    hide WriteKey, KeyOf;
    WriteKeyAt(s.keys, s.cur % s.Size(), key, s.cur % s.Size());
  }

  /** The cache stays valid until the entry number reaches the marker of unused slots. */
  lemma AddKeepsValid(s: Cache, key: Quad, value: seq<nat>, update: bool)
    requires Valid(s) && SmallIndexes(s.indexes) && (|value| == 8 || |value| >= 12)
    requires s.cur + 1 < InitialIndex(s.Size())
    ensures Add(s, key, value, update).Some? ==>
              && Valid(Add(s, key, value, update).value)
              && Add(s, key, value, update).value.Size() == s.Size()
              && s.cur <= Add(s, key, value, update).value.cur <= s.cur + 1
  {
    hide WriteKey, WriteValue, Padded, KeyOf, Force, OwnSlot, WriteEntry, Stale;
    var o := OwnSlot(s, key, 0);
    OwnSlotIs(s, key, 0);
    var t := Appended(s, key, value);
    if o.Full? { ForcedIndexes(s, t); }
  }

  lemma ForcedIndexes(s: Cache, t: Cache)
    requires Valid(s) && s.cur + 1 < InitialIndex(s.Size())
    requires t.Shaped() && t.Size() == s.Size() && t.indexes == s.indexes && t.cur == s.cur + 1
    ensures SmallIndexes(t.indexes)
    ensures var f := Force(t.indexes, t.keys, t.cur, t.Size(), [s.cur]);
            f.Some? ==> |f.value| == |t.indexes|
                        && forall j :: 0 <= j < |f.value| ==> f.value[j] < t.cur || f.value[j] == InitialIndex(s.Size())
  {
    hide Force;
    var f := Force(t.indexes, t.keys, t.cur, t.Size(), [s.cur]);
    ForceSlots(t.indexes, t.keys, t.cur, t.Size(), [s.cur], 0);
    if f.Some? {
      forall j | 0 <= j < |f.value| ensures f.value[j] < t.cur || f.value[j] == InitialIndex(s.Size()) {
        ForceSlots(t.indexes, t.keys, t.cur, t.Size(), [s.cur], j);
      }
    }
  }

  /** A key that was found through an entry is still found through it, until the ring comes round. */
  lemma AddKeepsFound(s: Cache, key: Quad, value: seq<nat>, update: bool, k: Quad, raw: nat)
    requires Valid(s) && SmallIndexes(s.indexes) && (|value| == 8 || |value| >= 12)
    requires s.cur + 1 < InitialIndex(s.Size()) && FoundAt(s, k, raw)
    requires Add(s, key, value, update).Some? && Live(Add(s, key, value, update).value, raw)
    ensures FoundAt(Add(s, key, value, update).value, k, raw)
  {
    hide WriteKey, WriteValue, Padded, KeyOf, Force, Leads;
    var o := OwnSlot(s, key, 0);
    OwnSlotIs(s, key, 0);
    ValidSlots(s);
    var t := Appended(s, key, value);
    if o.Match? {
      var c := s.indexes[Slot(key, o.i, |s.indexes|)] % s.Size();
      MatchKeepsKeys(s, c, key, value);
    } else {
      AppendKeeps(s, key, value, k, raw);
      if o.Free? {
        RedirectKeeps(t.indexes, t.keys, s.Size(), Slot(key, o.i, |s.indexes|), s.cur, raw);
      } else {
        ForceLosesNothing(t.indexes, t.keys, t.cur, s.Size(), [s.cur], raw);
      }
    }
  }

  lemma MatchKeepsKeys(s: Cache, c: nat, key: Quad, value: seq<nat>)
    requires s.Shaped() && c < s.Size() && (|value| == 8 || |value| >= 12) && KeyOf(s.keys, c) == key
    ensures WriteEntry(s, c, key, value).keys == s.keys
  {
  }

  /** The key that was added is found. */
  lemma AddFinds(s: Cache, key: Quad, value: seq<nat>, update: bool)
    requires Valid(s) && SmallIndexes(s.indexes) && (|value| == 8 || |value| >= 12)
    requires s.cur + 1 < InitialIndex(s.Size()) && Add(s, key, value, update).Some?
    ensures Findable(Add(s, key, value, update).value, key)
  {
    hide WriteKey, WriteValue, Padded, KeyOf, Force, Leads;
    var o := OwnSlot(s, key, 0);
    OwnSlotIs(s, key, 0);
    ValidSlots(s);
    var t := Appended(s, key, value);
    var u := Add(s, key, value, update).value;
    AppendedIsLive(s, key, value);
    match o
    case Match(i) =>
      var raw := s.indexes[Slot(key, i, |s.indexes|)];
      MatchKeepsKeys(s, raw % s.Size(), key, value);
      SlotLeads(u, key, i, raw);
      assert FoundAt(u, key, raw);
    case Free(i) =>
      RedirectReaches(t.indexes, t.keys, s.Size(), i, s.cur);
      assert FoundAt(u, key, s.cur);
    case Full =>
      ForceLosesNothing(t.indexes, t.keys, t.cur, s.Size(), [s.cur], s.cur);
      assert FoundAt(u, key, s.cur);
  }

  lemma SlotLeads(s: Cache, key: Quad, i: nat, raw: nat)
    requires s.Shaped() && i < 4 && KeyOf(s.keys, raw % s.Size()) == key && s.indexes[Slot(key, i, |s.indexes|)] == raw
    ensures Leads(s.indexes, s.keys, s.Size(), raw)
  {
  }

  /** Every key that was findable still is, unless the entry it was found through is the one that was
      overwritten: the entry one ring size behind. */
  lemma AddLosesOnlyTheOverwritten(s: Cache, key: Quad, value: seq<nat>, update: bool, k: Quad)
    requires Valid(s) && SmallIndexes(s.indexes) && (|value| == 8 || |value| >= 12)
    requires s.cur + 1 < InitialIndex(s.Size()) && Add(s, key, value, update).Some? && Findable(s, k)
    ensures Findable(Add(s, key, value, update).value, k)
         || (Add(s, key, value, update).value.cur == s.cur + 1 && s.Size() <= s.cur
             && FoundAt(s, k, s.cur - s.Size()))
  {
    hide Add;
    var t := Add(s, key, value, update).value;
    AddKeepsValid(s, key, value, update);
    var raw: nat :| FoundAt(s, k, raw);
    if Live(t, raw) { AddKeepsFound(s, key, value, update, k, raw); }
  }

  // ---------------------------------------------------------------- runs

  datatype Call = Call(key: Quad, value: seq<nat>, update: bool)

  predicate CallOk(c: Call) {
    |c.value| == 8 || |c.value| >= 12
  }

  /** `t` is reached from `s` by the calls, none of which makes the process exit. */
  ghost predicate Adds(s: Cache, calls: seq<Call>, t: Cache)
    decreases |calls|
  {
    if calls == [] then s == t
    else
      var c := calls[0];
      && CallOk(c) && s.Shaped() && SmallIndexes(s.indexes) && s.cur <= UINT32_MAX
      && Add(s, c.key, c.value, c.update).Some?
      && Adds(Add(s, c.key, c.value, c.update).value, calls[1..], t)
  }

  function Empty(indexesSize: nat, size: nat, keys: seq<nat>, values: seq<nat>, leaf: seq<bool>): Cache
    requires size < UINT32_MAX
  {
    Cache(0, Filled(indexesSize, InitialIndex(size)), keys, values, leaf)
  }

  function Filled(n: nat, v: nat): seq<nat> {
    seq(n, i => v)
  }

  /** Each call takes at most one entry number. */
  lemma {:induction false} AddsKeepValid(s: Cache, calls: seq<Call>, t: Cache)
    requires Valid(s) && Adds(s, calls, t) && s.cur + |calls| < InitialIndex(s.Size())
    ensures Valid(t) && t.Size() == s.Size() && s.cur <= t.cur <= s.cur + |calls|
    decreases |calls|
  {
    hide Add, Stale, Valid;
    if calls != [] {
      var c := calls[0];
      ValidCounts(s);
      AddKeepsValid(s, c.key, c.value, c.update);
      AddsKeepValid(Add(s, c.key, c.value, c.update).value, calls[1..], t);
    }
  }

  lemma ValidCounts(s: Cache)
    requires Valid(s)
    ensures s.Shaped() && s.cur < InitialIndex(s.Size()) && SmallIndexes(s.indexes)
  {
  }

  /** After any calls, a key is still found through the entry it was found through, as long as fewer
      entries than the ring holds have been written since. */
  lemma {:induction false} AddsKeepFound(s: Cache, calls: seq<Call>, t: Cache, k: Quad, raw: nat)
    requires Valid(s) && Adds(s, calls, t) && s.cur + |calls| < InitialIndex(s.Size())
    requires FoundAt(s, k, raw) && t.cur <= raw + s.Size()
    ensures FoundAt(t, k, raw)
    decreases |calls|
  {
    hide Add, Stale, Valid, Leads;
    if calls != [] {
      var c := calls[0];
      ValidCounts(s);
      AddKeepsValid(s, c.key, c.value, c.update);
      var u := Add(s, c.key, c.value, c.update).value;
      AddsKeepValid(u, calls[1..], t);
      AddKeepsFound(s, c.key, c.value, c.update, k, raw);
      AddsKeepFound(u, calls[1..], t, k, raw);
    }
  }

  /** Starting from the empty cache, every lookup returns the one value its key was ever added with. */
  ghost predicate EntriesHold(s: Cache, content: Quad -> seq<nat>) {
    s.Shaped() && forall raw: nat :: Live(s, raw) ==> EntryHolds(s, content, raw)
  }

  ghost predicate EntryHolds(s: Cache, content: Quad -> seq<nat>, raw: nat)
    requires s.Shaped()
  {
    ValueOf(s.values, raw % s.Size()) == content(KeyOf(s.keys, raw % s.Size()))
  }

  ghost predicate CallHolds(c: Call, content: Quad -> seq<nat>) {
    CallOk(c) && Padded(c.value) == content(c.key)
  }

  lemma AddKeepsEntries(s: Cache, c: Call, content: Quad -> seq<nat>)
    requires Valid(s) && SmallIndexes(s.indexes) && CallHolds(c, content) && EntriesHold(s, content)
    requires s.cur + 1 < InitialIndex(s.Size()) && Add(s, c.key, c.value, c.update).Some?
    ensures EntriesHold(Add(s, c.key, c.value, c.update).value, content)
  {
    hide WriteKey, WriteValue, Padded, Force, Stale, KeyOf, ValueOf, EntryHolds;
    var o := OwnSlot(s, c.key, 0);
    OwnSlotIs(s, c.key, 0);
    AddKeepsValid(s, c.key, c.value, c.update);
    var u := Add(s, c.key, c.value, c.update).value;
    if o.Match? {
      var raw := s.indexes[Slot(c.key, o.i, |s.indexes|)];
      WriteKeepsEntries(s, raw % s.Size(), c, content);
    } else {
      var t := WriteEntry(s, s.cur % s.Size(), c.key, c.value);
      WriteKeepsEntries(s, s.cur % s.Size(), c, content);
      SameEntries(s, t, u, content);
    }
  }

  lemma SameEntries(s: Cache, t: Cache, u: Cache, content: Quad -> seq<nat>)
    requires s.Shaped() && t.Shaped() && u.Shaped() && t.Size() == s.Size() == u.Size()
    requires u.keys == t.keys && u.values == t.values && u.cur == s.cur + 1
    requires forall raw: nat :: Live(s, raw) || raw % s.Size() == s.cur % s.Size() ==> EntryHolds(t, content, raw)
    ensures EntriesHold(u, content)
  {
    hide KeyOf, ValueOf;
    forall raw: nat | Live(u, raw) ensures EntryHolds(u, content, raw) {
      assert raw == s.cur || Live(s, raw);
      assert EntryHolds(t, content, raw);
    }
  }

  /** Writing an entry with the right value leaves every live entry, and the written one, right. */
  lemma WriteKeepsEntries(s: Cache, at: nat, c: Call, content: Quad -> seq<nat>)
    requires EntriesHold(s, content) && CallHolds(c, content) && at < s.Size()
    ensures var t := WriteEntry(s, at, c.key, c.value);
            forall raw: nat :: Live(s, raw) || raw % s.Size() == at ==> EntryHolds(t, content, raw)
  {
    hide WriteKey, WriteValue, Padded, KeyOf, ValueOf;
    var t := WriteEntry(s, at, c.key, c.value);
    forall raw: nat | Live(s, raw) || raw % s.Size() == at ensures EntryHolds(t, content, raw) {
      var d := raw % s.Size();
      WriteKeyAt(s.keys, at, c.key, d);
      WriteValueAt(s.values, at, Padded(c.value), d);
      if d != at { assert EntryHolds(s, content, raw); }
    }
  }

  lemma {:induction false} AddsKeepEntries(s: Cache, calls: seq<Call>, t: Cache, content: Quad -> seq<nat>)
    requires Valid(s) && Adds(s, calls, t) && s.cur + |calls| < InitialIndex(s.Size())
    requires EntriesHold(s, content) && forall c :: c in calls ==> CallHolds(c, content)
    ensures Valid(t) && EntriesHold(t, content)
    decreases |calls|
  {
    hide Add, Stale, Valid, EntriesHold;
    if calls != [] {
      var c := calls[0];
      ValidCounts(s);
      AddKeepsValid(s, c.key, c.value, c.update);
      AddKeepsEntries(s, c, content);
      AddsKeepEntries(Add(s, c.key, c.value, c.update).value, calls[1..], t, content);
    }
  }

  lemma EveryHitIsRight(s: Cache, calls: seq<Call>, t: Cache, content: Quad -> seq<nat>, k: Quad)
    requires s.Shaped() && s.Size() < UINT32_MAX && s == Empty(|s.indexes|, s.Size(), s.keys, s.values, s.leaf)
    requires Adds(s, calls, t) && |calls| < InitialIndex(s.Size())
    requires forall c :: c in calls ==> CallHolds(c, content)
    ensures t.Shaped() && SmallIndexes(t.indexes) && (Find(t, k).Some? ==> Find(t, k).value == content(k))
  {
    AddsKeepEntries(s, calls, t, content);
    ValidCounts(t);
    FindSucceeds(t, k, 0);
    if Find(t, k).Some? {
      var raw: nat :| FoundAt(t, k, raw) && Find(t, k).value == ValueOf(t.values, raw % t.Size());
      assert EntryHolds(t, content, raw);
    }
  }
}
