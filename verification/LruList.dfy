/** The least-recently-used cache as a list of items, most recently used first. */
module LruLists {
  import opened Results

  datatype Item<V> = Item(key: string, value: V, size: nat)

  ghost predicate Distinct<V(!new)>(items: seq<Item<V>>) {
    forall i, j :: 0 <= i < j < |items| ==> items[i].key != items[j].key
  }

  function Sum<V>(items: seq<Item<V>>): nat {
    if items == [] then 0 else items[0].size + Sum(items[1..])
  }

  /** The place of a key; the length of the list when it is absent */
  function IndexOf<V>(items: seq<Item<V>>, key: string): (i: nat)
    ensures i <= |items| && (i < |items| ==> items[i].key == key)
  {
    if items == [] then 0 else if items[0].key == key then 0 else 1 + IndexOf(items[1..], key)
  }

  /** Item `i` becomes the first one. */
  function Touched<V>(items: seq<Item<V>>, i: nat): (r: seq<Item<V>>)
    requires i < |items|
    ensures |r| == |items|
  {
    [items[i]] + items[..i] + items[i + 1..]
  }

  /** Items are dropped from the end while they are too many for the budget, but for the first one. */
  function Evicted<V>(items: seq<Item<V>>, max: nat): (r: seq<Item<V>>)
    ensures r <= items
  {
    if |items| > 1 && Sum(items) > max then Evicted(items[..|items| - 1], max) else items
  }

  function Found<V>(items: seq<Item<V>>, key: string): seq<Item<V>> {
    var i := IndexOf(items, key);
    if i < |items| then Touched(items, i) else items
  }

  function Added<V>(items: seq<Item<V>>, max: nat, item: Item<V>, update: bool): seq<Item<V>> {
    var i := IndexOf(items, item.key);
    if i < |items| then
      var moved := Touched(items, i);
      if update then moved[0 := moved[0].(value := item.value)] else moved
    else Evicted([item] + items, max)
  }

  // ---------------------------------------------------------------- sums and indices

  lemma {:induction false} SumConcat<V>(a: seq<Item<V>>, b: seq<Item<V>>)
    ensures Sum(a + b) == Sum(a) + Sum(b)
  {
    if a == [] {
      assert a + b == b;
    } else {
      assert (a + b)[1..] == a[1..] + b;
      SumConcat(a[1..], b);
    }
  }

  lemma SumOne<V>(x: Item<V>)
    ensures Sum([x]) == x.size
  {
    assert [x][1..] == [];
  }

  lemma SumTouched<V>(items: seq<Item<V>>, i: nat)
    requires i < |items|
    ensures Sum(Touched(items, i)) == Sum(items)
  {
    hide Sum;
    SplitAt(items, i);
    SumOfThree([items[i]], items[..i], items[i + 1..]);
    SumOfThree(items[..i], [items[i]], items[i + 1..]);
  }

  lemma SplitAt<T>(s: seq<T>, i: nat)
    requires i < |s|
    ensures s == s[..i] + [s[i]] + s[i + 1..]
  {
  }

  lemma SumOfThree<V>(a: seq<Item<V>>, b: seq<Item<V>>, c: seq<Item<V>>)
    ensures Sum(a + b + c) == Sum(a) + Sum(b) + Sum(c)
  {
    hide Sum;
    SumConcat(a + b, c);
    SumConcat(a, b);
  }

  lemma SumLast<V>(items: seq<Item<V>>)
    requires items != []
    ensures Sum(items) == Sum(items[..|items| - 1]) + items[|items| - 1].size
  {
    var x := items[|items| - 1];
    assert items == items[..|items| - 1] + [x];
    SumConcat(items[..|items| - 1], [x]);
    SumOne(x);
  }

  /** Replacing a value does not change the sizes. */
  lemma SumOfUpdate<V>(items: seq<Item<V>>, v: V)
    requires items != []
    ensures Sum(items[0 := items[0].(value := v)]) == Sum(items)
  {
    assert items[0 := items[0].(value := v)][1..] == items[1..];
  }

  lemma {:induction false} IndexIs<V(!new)>(items: seq<Item<V>>, i: nat)
    requires Distinct(items) && i < |items|
    ensures IndexOf(items, items[i].key) == i
  {
    if i > 0 {
      assert items[0].key != items[i].key;
      assert Distinct(items[1..]) by {
        forall a, b | 0 <= a < b < |items[1..]| ensures items[1..][a].key != items[1..][b].key {
          assert items[a + 1].key != items[b + 1].key;
        }
      }
      IndexIs(items[1..], i - 1);
    }
  }

  lemma {:induction false} AbsentIndex<V>(items: seq<Item<V>>, key: string)
    ensures IndexOf(items, key) == |items| <==> forall i :: 0 <= i < |items| ==> items[i].key != key
  {
    if items != [] {
      AbsentIndex(items[1..], key);
      assert forall i :: 0 < i < |items| ==> items[i] == items[1..][i - 1];
      assert forall i :: 0 <= i < |items[1..]| ==> items[1..][i] == items[i + 1];
    }
  }

  // ---------------------------------------------------------------- eviction

  /** Eviction keeps the longest prefix that fits the budget, and at least one item. */
  lemma {:induction false} EvictedIsLongestFit<V>(items: seq<Item<V>>, max: nat)
    requires items != []
    ensures var r := Evicted(items, max);
            && 0 < |r| && r == items[..|r|]
            && (Sum(r) <= max || |r| == 1)
            && forall n :: |r| < n <= |items| ==> Sum(items[..n]) > max
    decreases |items|
  {
    var r := Evicted(items, max);
    if |items| > 1 && Sum(items) > max {
      var shorter := items[..|items| - 1];
      EvictedIsLongestFit(shorter, max);
      assert items[..|items|] == items;
      forall n | |r| < n <= |items| ensures Sum(items[..n]) > max {
        if n < |items| { assert items[..n] == shorter[..n]; }
      }
    } else {
      assert items[..|items|] == items;
    }
  }

  // ---------------------------------------------------------------- what the operations keep

  lemma TouchedDistinct<V(!new)>(items: seq<Item<V>>, i: nat)
    requires Distinct(items) && i < |items|
    ensures Distinct(Touched(items, i))
  {
  }

  lemma AddedKeepsDistinct<V(!new)>(items: seq<Item<V>>, max: nat, item: Item<V>, update: bool)
    requires Distinct(items)
    ensures Distinct(Added(items, max, item, update))
  {
    var i := IndexOf(items, item.key);
    if i < |items| {
      TouchedDistinct(items, i);
    } else {
      AbsentIndex(items, item.key);
      var longer := [item] + items;
      assert Distinct(longer);
      assert Evicted(longer, max) <= longer;
    }
  }

  /** An insertion keeps the longest prefix of the new item and the old list that fits the budget, and at
      least the new item. */
  lemma InsertionFits<V>(items: seq<Item<V>>, max: nat, item: Item<V>, update: bool)
    requires IndexOf(items, item.key) == |items|
    ensures Sum(Added(items, max, item, update)) <= max || |Added(items, max, item, update)| == 1
    ensures |Added(items, max, item, update)| > 0 && Added(items, max, item, update)[0] == item
    ensures Added(items, max, item, update) <= [item] + items
    ensures forall n :: |Added(items, max, item, update)| < n <= |items| + 1 ==> Sum(([item] + items)[..n]) > max
  {
    EvictedIsLongestFit([item] + items, max);
  }

  function ValueOf<V>(items: seq<Item<V>>, key: string): Option<V> {
    var i := IndexOf(items, key);
    if i < |items| then Some(items[i].value) else None
  }

  lemma ValueIs<V(!new)>(items: seq<Item<V>>, i: nat)
    requires Distinct(items) && i < |items|
    ensures ValueOf(items, items[i].key) == Some(items[i].value)
  {
    IndexIs(items, i);
  }

  /** Looking a key up changes no value. */
  lemma FoundKeepsValues<V(!new)>(items: seq<Item<V>>, key: string, k: string)
    requires Distinct(items)
    ensures ValueOf(Found(items, key), k) == ValueOf(items, k)
  {
    var i := IndexOf(items, key);
    if i < |items| { TouchedKeepsValues(items, i, k); }
  }

  lemma TouchedKeepsValues<V(!new)>(items: seq<Item<V>>, i: nat, k: string)
    requires Distinct(items) && i < |items|
    ensures ValueOf(Touched(items, i), k) == ValueOf(items, k)
  {
    var t, j := Touched(items, i), IndexOf(items, k);
    TouchedDistinct(items, i);
    AbsentIndex(items, k);
    AbsentIndex(t, k);
    if j < |items| {
      var p := if j < i then j + 1 else if j == i then 0 else j;
      assert t[p] == items[j];
      ValueIs(t, p);
    } else {
      forall p | 0 <= p < |t| ensures t[p].key != k {
        assert t[p] == items[if p == 0 then i else if p <= i then p - 1 else p];
      }
    }
  }

  /** Adding: a key that was cached keeps its value unless it is an update; a new one has the value it
      was added with; every other key keeps its value or is dropped. */
  lemma AddedValues<V(!new)>(items: seq<Item<V>>, max: nat, item: Item<V>, update: bool, k: string)
    requires Distinct(items)
    ensures var before, after := ValueOf(items, k), ValueOf(Added(items, max, item, update), k);
            if k == item.key then
              after == if before.Some? && !update then before else Some(item.value)
            else after == before || after == None
  {
    var i := IndexOf(items, item.key);
    AddedKeepsDistinct(items, max, item, update);
    if i < |items| {
      TouchedKeepsValues(items, i, k);
      if update { UpdatedFirst(Touched(items, i), item.value, k); }
      if k == item.key { ValueIs(items, i); }
    } else {
      var longer := [item] + items;
      var r := Evicted(longer, max);
      EvictedIsLongestFit(longer, max);
      AbsentIndex(items, item.key);
      AbsentIndex(r, k);
      var j := IndexOf(r, k);
      if k == item.key {
        ValueIs(r, 0);
      } else if j < |r| {
        assert r[j] == longer[j] && j > 0 && items[j - 1] == r[j];
        ValueIs(items, j - 1);
      }
    }
  }

  lemma UpdatedFirst<V(!new)>(items: seq<Item<V>>, v: V, k: string)
    requires Distinct(items) && items != []
    ensures var t := items[0 := items[0].(value := v)];
            Distinct(t) && ValueOf(t, k) == if k == items[0].key then Some(v) else ValueOf(items, k)
  {
    var t := items[0 := items[0].(value := v)];
    assert Distinct(t);
    AbsentIndex(items, k);
    AbsentIndex(t, k);
    var j := IndexOf(items, k);
    if k == items[0].key {
      ValueIs(t, 0);
    } else if j < |items| {
      assert t[j] == items[j];
      ValueIs(t, j);
      ValueIs(items, j);
    }
  }

  // ---------------------------------------------------------------- recency

  function Keys<V>(items: seq<Item<V>>): (r: seq<string>)
    ensures |r| == |items| && forall i :: 0 <= i < |items| ==> r[i] == items[i].key
  {
    seq(|items|, i requires 0 <= i < |items| => items[i].key)
  }

  function Without(keys: seq<string>, key: string): seq<string> {
    if keys == [] then []
    else if keys[0] == key then Without(keys[1..], key)
    else [keys[0]] + Without(keys[1..], key)
  }

  /** The keys of a log of uses, newest first, each at its most recent use */
  function Recent(log: seq<string>): seq<string> {
    if log == [] then [] else [log[0]] + Without(Recent(log[1..]), log[0])
  }

  lemma {:induction false} WithoutConcat(a: seq<string>, b: seq<string>, key: string)
    ensures Without(a + b, key) == Without(a, key) + Without(b, key)
  {
    if a == [] {
      assert a + b == b;
    } else {
      assert (a + b)[1..] == a[1..] + b;
      WithoutConcat(a[1..], b, key);
    }
  }

  lemma {:induction false} WithoutAbsent(a: seq<string>, key: string)
    requires key !in a
    ensures Without(a, key) == a
  {
    if a != [] { WithoutAbsent(a[1..], key); }
  }

  lemma WithoutKeepsPrefix(a: seq<string>, b: seq<string>, key: string)
    requires a <= b
    ensures Without(a, key) <= Without(b, key)
  {
    assert b == a + b[|a|..];
    WithoutConcat(a, b[|a|..], key);
  }

  lemma TouchedKeys<V(!new)>(items: seq<Item<V>>, i: nat)
    requires Distinct(items) && i < |items|
    ensures Keys(Touched(items, i)) == [items[i].key] + Without(Keys(items), items[i].key)
  {
    var k := items[i].key;
    var a, b := Keys(items[..i]), Keys(items[i + 1..]);
    assert k !in a && k !in b;
    KeysOfParts(items[..i], items[i], items[i + 1..]);
    SplitAt(items, i);
    hide Keys, Without;
    WithoutMiddle(a, k, b);
  }

  lemma KeysOfParts<V>(a: seq<Item<V>>, x: Item<V>, b: seq<Item<V>>)
    ensures Keys(a + [x] + b) == Keys(a) + [x.key] + Keys(b)
    ensures Keys([x] + a + b) == [x.key] + Keys(a) + Keys(b)
  {
  }

  lemma WithoutMiddle(a: seq<string>, k: string, b: seq<string>)
    requires k !in a && k !in b
    ensures [k] + Without(a + [k] + b, k) == [k] + a + b
  {
    hide Without;
    WithoutItself(k);
    WithoutConcat(a + [k], b, k);
    WithoutConcat(a, [k], k);
    WithoutAbsent(a, k);
    WithoutAbsent(b, k);
    AppendNothing(a);
    ConcatAssoc([k], a, b);
  }

  lemma WithoutItself(k: string)
    ensures Without([k], k) == []
  {
    assert [k][1..] == [];
  }

  lemma AppendNothing<T>(a: seq<T>)
    ensures a + [] == a
  {
  }

  lemma ConcatAssoc<T>(a: seq<T>, b: seq<T>, c: seq<T>)
    ensures a + (b + c) == a + b + c
  {
  }

  // ---------------------------------------------------------------- runs

  datatype Op<V> = AddOp(item: Item<V>, update: bool) | FindOp(key: string) | SetMaxSize(max: nat) | Clear

  datatype State<V> = State(items: seq<Item<V>>, max: nat)

  /** With a budget of zero the cache is switched off. */
  function Step<V>(s: State<V>, op: Op<V>): State<V> {
    match op
    case AddOp(item, update) => if s.max == 0 then s else s.(items := Added(s.items, s.max, item, update))
    case FindOp(key) => if s.max == 0 then s else s.(items := Found(s.items, key))
    case SetMaxSize(max) => s.(max := max)
    case Clear => s.(items := [])
  }

  /** The key an operation uses: an addition always does, a lookup when it hits. */
  function Uses<V>(s: State<V>, op: Op<V>): seq<string> {
    match op
    case AddOp(item, _) => if s.max == 0 then [] else [item.key]
    case FindOp(key) => if s.max == 0 || IndexOf(s.items, key) == |s.items| then [] else [key]
    case SetMaxSize(_) => []
    case Clear => []
  }

  function Run<V>(ops: seq<Op<V>>): State<V> {
    if ops == [] then State([], 0) else Step(Run(ops[..|ops| - 1]), ops[|ops| - 1])
  }

  /** The keys used so far, newest first */
  function Log<V>(ops: seq<Op<V>>): seq<string> {
    if ops == [] then [] else Uses(Run(ops[..|ops| - 1]), ops[|ops| - 1]) + Log(ops[..|ops| - 1])
  }

  lemma {:induction false} RunDistinct<V(!new)>(ops: seq<Op<V>>)
    ensures Distinct(Run(ops).items)
  {
    if ops != [] {
      var s, op := Run(ops[..|ops| - 1]), ops[|ops| - 1];
      RunDistinct(ops[..|ops| - 1]);
      if op.AddOp? {
        AddedKeepsDistinct(s.items, s.max, op.item, op.update);
      } else if op.FindOp? {
        var i := IndexOf(s.items, op.key);
        if i < |s.items| { TouchedDistinct(s.items, i); }
      }
    }
  }

  /** The operation gives the key its value: it adds the key when it is not cached, or updates it. */
  predicate Writes<V>(s: State<V>, op: Op<V>, key: string) {
    op.AddOp? && op.item.key == key && s.max > 0 && (op.update || ValueOf(s.items, key).None?)
  }

  lemma StepValue<V(!new)>(s: State<V>, op: Op<V>, key: string)
    requires Distinct(s.items) && ValueOf(Step(s, op).items, key).Some?
    ensures ValueOf(Step(s, op).items, key) == if Writes(s, op, key) then Some(op.item.value) else ValueOf(s.items, key)
  {
    hide Found, Added;
    match op
    case AddOp(item, update) => AddedValues(s.items, s.max, item, update, key);
    case FindOp(k) => FoundKeepsValues(s.items, k, key);
    case SetMaxSize(_) =>
    case Clear =>
  }

  /** Operation `j` was the last to give the key its value, and the key has been cached ever since. */
  ghost predicate LastWritten<V>(ops: seq<Op<V>>, j: nat, key: string) {
    && j < |ops| && Writes(Run(ops[..j]), ops[j], key)
    && (forall m :: j < m < |ops| ==> !Writes(Run(ops[..m]), ops[m], key))
    && (forall m :: j < m <= |ops| ==> ValueOf(Run(ops[..m]).items, key).Some?)
  }

  /** After any operations a cached key has the value it was last inserted with, or the one of the last
      update since. */
  lemma {:induction false} CachedValue<V(!new)>(ops: seq<Op<V>>, key: string)
    requires ValueOf(Run(ops).items, key).Some?
    ensures exists j: nat :: LastWritten(ops, j, key) && ValueOf(Run(ops).items, key) == Some(ops[j].item.value)
  {
    if ops == [] {
      assert false;
    } else {
      hide Step, Writes, ValueOf, LastWritten;
      var n := |ops| - 1;
      var before := ops[..n];
      RunDistinct(before);
      StepValue(Run(before), ops[n], key);
      hide Run;
      if Writes(Run(before), ops[n], key) {
        WrittenNow(ops, key);
      } else {
        CachedValue(before, key);
        var j: nat :| LastWritten(before, j, key) && ValueOf(Run(before).items, key) == Some(before[j].item.value);
        WrittenBefore(ops, j, key);
      }
    }
  }

  lemma WrittenNow<V>(ops: seq<Op<V>>, key: string)
    requires ops != [] && ValueOf(Run(ops).items, key).Some?
    requires Writes(Run(ops[..|ops| - 1]), ops[|ops| - 1], key)
    ensures LastWritten(ops, |ops| - 1, key)
  {
    hide Run, ValueOf;
    WholeOps(ops);
  }

  lemma WrittenBefore<V>(ops: seq<Op<V>>, j: nat, key: string)
    requires ops != [] && ValueOf(Run(ops).items, key).Some?
    requires LastWritten(ops[..|ops| - 1], j, key) && !Writes(Run(ops[..|ops| - 1]), ops[|ops| - 1], key)
    ensures LastWritten(ops, j, key) && ops[j] == ops[..|ops| - 1][j]
  {
    hide Run, Writes, ValueOf;
    WholeOps(ops);
    var n := |ops| - 1;
    assert ops[..n][..j] == ops[..j];
    forall m | j < m < |ops| ensures !Writes(Run(ops[..m]), ops[m], key) {
      if m < n { assert ops[..n][..m] == ops[..m] && ops[..n][m] == ops[m]; }
    }
    forall m | j < m <= |ops| ensures ValueOf(Run(ops[..m]).items, key).Some? {
      if m <= n { assert ops[..n][..m] == ops[..m]; }
    }
  }

  lemma WholeOps<V>(ops: seq<Op<V>>)
    ensures ops[..|ops|] == ops
  {
  }

  /** After any operations the list holds the most recently used keys, in the order of their last use. */
  lemma {:induction false} HoldsMostRecent<V(!new)>(ops: seq<Op<V>>)
    ensures Keys(Run(ops).items) <= Recent(Log(ops))
  {
    if ops != [] {
      var before := ops[..|ops| - 1];
      var s, op := Run(before), ops[|ops| - 1];
      RunDistinct(before);
      HoldsMostRecent(before);
      StepRecent(s, op, Log(before));
    }
  }

  lemma StepRecent<V(!new)>(s: State<V>, op: Op<V>, log: seq<string>)
    requires Distinct(s.items) && Keys(s.items) <= Recent(log)
    ensures Keys(Step(s, op).items) <= Recent(Uses(s, op) + log)
  {
    hide Touched, Recent, Without;
    assert [] + log == log;
    if s.max > 0 && (op.AddOp? || op.FindOp?) {
      var k := if op.AddOp? then op.item.key else op.key;
      var i := IndexOf(s.items, k);
      if i < |s.items| {
        UseCached(s.items, i, log);
        if op.AddOp? && op.update {
          var t := Touched(s.items, i);
          assert Keys(t[0 := t[0].(value := op.item.value)]) == Keys(t);
        }
      } else if op.AddOp? {
        UseNew(s.items, s.max, op.item, log);
      }
    }
  }

  lemma UseCached<V(!new)>(items: seq<Item<V>>, i: nat, log: seq<string>)
    requires Distinct(items) && i < |items| && Keys(items) <= Recent(log)
    ensures Keys(Touched(items, i)) <= Recent([items[i].key] + log)
  {
    var k := items[i].key;
    assert ([k] + log)[1..] == log;
    TouchedKeys(items, i);
    WithoutKeepsPrefix(Keys(items), Recent(log), k);
  }

  lemma UseNew<V(!new)>(items: seq<Item<V>>, max: nat, item: Item<V>, log: seq<string>)
    requires Keys(items) <= Recent(log) && IndexOf(items, item.key) == |items|
    ensures Keys(Evicted([item] + items, max)) <= Recent([item.key] + log)
  {
    hide Recent, Without, Evicted, Keys;
    var k := item.key;
    NewKeyPrefix(items, item, log);
    RecentOfUse(k, log);
    KeysPrefix(Evicted([item] + items, max), [item] + items);
    PrefixTrans(Keys(Evicted([item] + items, max)), Keys([item] + items), Recent([k] + log));
  }

  lemma NewKeyPrefix<V(!new)>(items: seq<Item<V>>, item: Item<V>, log: seq<string>)
    requires Keys(items) <= Recent(log) && IndexOf(items, item.key) == |items|
    ensures Keys([item] + items) <= [item.key] + Without(Recent(log), item.key)
  {
    hide Recent, Without, IndexOf;
    var k := item.key;
    assert k !in Keys(items) by { AbsentIndex(items, k); }
    WithoutKeepsPrefix(Keys(items), Recent(log), k);
    WithoutAbsent(Keys(items), k);
    ConsPrefix(k, Keys(items), Without(Recent(log), k));
    ConsKeys(item, items);
  }

  lemma ConsKeys<V>(item: Item<V>, items: seq<Item<V>>)
    ensures Keys([item] + items) == [item.key] + Keys(items)
  {
  }

  lemma ConsPrefix(k: string, a: seq<string>, b: seq<string>)
    requires a <= b
    ensures [k] + a <= [k] + b
  {
    assert b == a + b[|a|..];
    assert [k] + b == ([k] + a) + b[|a|..];
  }

  lemma RecentOfUse(k: string, log: seq<string>)
    ensures Recent([k] + log) == [k] + Without(Recent(log), k)
  {
    assert ([k] + log)[1..] == log;
  }

  lemma KeysPrefix<V>(a: seq<Item<V>>, b: seq<Item<V>>)
    requires a <= b
    ensures Keys(a) <= Keys(b)
  {
  }

  lemma PrefixTrans(a: seq<string>, b: seq<string>, c: seq<string>)
    requires a <= b <= c
    ensures a <= c
  {
  }
}
