/** Non-adjacent form: the table-driven recoding of a little-endian scalar into digits 0, 1 and -1,
    and double-and-add over those digits. */
module Naf {
  import opened Bits
  import opened Groups

  /** A byte is below 256. */
  predicate Bytes(s: seq<nat>) {
    forall i :: 0 <= i < |s| ==> s[i] < 256
  }

  /** The number a byte string stands for, least significant byte first. */
  function LittleEndian(s: seq<nat>): nat {
    if s == [] then 0 else s[0] + 256 * LittleEndian(s[1..])
  }

  /** A stored digit: 2 stands for -1. */
  function Digit(d: nat): int {
    if d == 1 then 1 else if d == 2 then -1 else 0
  }

  /** The number a digit string stands for. */
  function DigitValue(ds: seq<nat>): int {
    if ds == [] then 0 else Digit(ds[0]) + 2 * DigitValue(ds[1..])
  }

  predicate NonAdjacent(ds: seq<nat>) {
    forall i :: 0 <= i < |ds| - 1 ==> ds[i] == 0 || ds[i + 1] == 0
  }

  lemma {:induction false} DigitValueAppend(a: seq<nat>, b: seq<nat>)
    ensures DigitValue(a + b) == DigitValue(a) + Pow2(|a|) * DigitValue(b)
  {
    if a == [] {
      assert a + b == b;
    } else {
      assert (a + b)[1..] == a[1..] + b;
      DigitValueAppend(a[1..], b);
      ProductAssoc(2, Pow2(|a| - 1), DigitValue(b));
    }
  }

  lemma {:induction false} ZeroDigits(ds: seq<nat>)
    requires forall i :: 0 <= i < |ds| ==> ds[i] == 0
    ensures DigitValue(ds) == 0
  {
    if ds != [] { ZeroDigits(ds[1..]); }
  }

  // ---------------------------------------------------------------- the table

  /** What is still owed at a digit position: its own bit and a carry into the next one. */
  function Owed(carry: bool, last: bool): nat {
    BoolToNat(last) + 2 * BoolToNat(carry)
  }

  /** One step of the recoding: a digit, and the new carry and last bit. */
  method Step(carry: bool, last: bool, cur: bool) returns (digit: nat, carry': bool, last': bool)
    ensures Owed(carry, last) + 2 * BoolToNat(cur) == Digit(digit) + 2 * Owed(carry', last')
    ensures digit <= 2 && (digit != 0 <==> last)
    ensures last ==> !last'
    ensures !(carry && last) ==> Owed(carry', last') - BoolToNat(cur) == 0 || Owed(carry', last') - BoolToNat(cur) == 1
  {
    if last {
      if cur {
        if carry {
          last', carry', digit := false, true, 1;
        } else {
          last', carry', digit := false, true, 2;
        }
      } else {
        if carry {
          last', carry', digit := false, true, 2;
        } else {
          last', carry', digit := false, false, 1;
        }
      }
    } else {
      if cur {
        if carry {
          last', carry', digit := false, true, 0;
        } else {
          last', carry', digit := true, false, 0;
        }
      } else {
        if carry {
          last', carry', digit := true, false, 0;
        } else {
          last', carry', digit := false, false, 0;
        }
      }
    }
  }

  /** Eight bytes of a table entry: digits in the low bits, carry and last bit in the first byte. */
  type Entry = e: seq<nat> | |e| == 8 witness [0, 0, 0, 0, 0, 0, 0, 0]

  function EntryDigits(e: Entry): (ds: seq<nat>)
    ensures |ds| == 8
  {
    seq(8, k requires 0 <= k < 8 => e[k] % 4)
  }

  predicate EntryCarry(e: Entry) {
    e[0] / 4 % 2 == 1
  }

  predicate EntryLast(e: Entry) {
    e[0] / 8 % 2 == 1
  }

  /** What the entry for an input of last bit, eight bits of scalar and carry must hold. */
  ghost predicate EntryFor(e: Entry, inp: nat) {
    var ds, carry, last := EntryDigits(e), EntryCarry(e), EntryLast(e);
    var carry0, last0 := Bit(inp, 9), Bit(inp, 0);
    && (forall k :: 0 <= k < 8 ==> ds[k] <= 2)
    && inp % 512 + 2 * (inp / 512) == DigitValue(ds) + 256 * Owed(carry, last)
    && NonAdjacent(ds) && (ds[0] != 0 ==> last0) && (last ==> ds[7] == 0)
    && (!(carry0 && last0) ==>
         && !(carry && last)
         && (Owed(carry, last) - inp / 256 % 2 == 0 || Owed(carry, last) - inp / 256 % 2 == 1))
    && (inp < 2 ==> Owed(carry, last) == 0 && forall k :: 1 <= k < 8 ==> ds[k] == 0)
  }

  /** Progress of the recoding of one input, after `i` digits: the value. */
  ghost predicate ValueKept(inp: nat, i: nat, res: seq<nat>, carry: bool, last: bool) {
    DigitValue(res) + Pow2(i) * (Owed(carry, last) + 2 * Shr(inp % 512, i + 1)) == inp % 512 + 2 * (inp / 512)
  }

  /** Progress of the recoding of one input, after `i` digits: the shape of the digits. */
  ghost predicate Shaped(inp: nat, i: nat, res: seq<nat>, carry: bool, last: bool) {
    && |res| == i <= 8
    && (forall k :: 0 <= k < i ==> res[k] <= 2)
    && NonAdjacent(res) && (i > 0 && res[0] != 0 ==> Bit(inp, 0)) && (last && i > 0 ==> res[i - 1] == 0)
    && (i == 0 ==> carry == Bit(inp, 9) && last == Bit(inp, 0))
    && (!(Bit(inp, 9) && Bit(inp, 0)) ==>
         && !(carry && last)
         && (i > 0 ==>
           Owed(carry, last) - BoolToNat(Bit(inp, i)) == 0 || Owed(carry, last) - BoolToNat(Bit(inp, i)) == 1))
    && (inp < 2 ==> !carry && (i > 0 ==> !last) && forall k :: 1 <= k < i ==> res[k] == 0)
  }

  ghost predicate Recoded(inp: nat, i: nat, res: seq<nat>, carry: bool, last: bool) {
    ValueKept(inp, i, res, carry, last) && Shaped(inp, i, res, carry, last)
  }

  /** The value invariant across one step, with `p` the weight of the digit. */
  lemma StepValue(value: int, p: nat, owed: nat, cur: nat, rest: nat, digit: int, owed': nat, total: int)
    requires value + p * (owed + 2 * (cur + 2 * rest)) == total
    requires owed + 2 * cur == digit + 2 * owed'
    ensures value + p * digit + 2 * p * (owed' + 2 * rest) == total
  {
    assert owed + 2 * (cur + 2 * rest) == digit + 2 * (owed' + 2 * rest);
    Distribute(p, digit, owed' + 2 * rest);
  }

  lemma Distribute(p: int, a: int, b: int)
    ensures p * (a + 2 * b) == p * a + 2 * p * b
  {
  }

  lemma RecodeStep(inp: nat, i: nat, res: seq<nat>, carry: bool, last: bool, digit: nat, carry': bool, last': bool)
    requires inp < 1024 && i < 8 && Recoded(inp, i, res, carry, last)
    requires Owed(carry, last) + 2 * BoolToNat(Bit(inp, i + 1)) == Digit(digit) + 2 * Owed(carry', last')
    requires digit <= 2 && (digit != 0 <==> last) && (last ==> !last')
    requires !(carry && last) ==>
      Owed(carry', last') - BoolToNat(Bit(inp, i + 1)) == 0 || Owed(carry', last') - BoolToNat(Bit(inp, i + 1)) == 1
    ensures Recoded(inp, i + 1, res + [digit], carry', last')
  {
    if inp < 2 { BitZero(i); assert !Bit(inp, i + 1); }
    hide ValueKept, Shaped, Bit;
    assert |res| == i by { ShapedLength(inp, i, res, carry, last); }
    KeepValue(inp, i, res, carry, last, digit, carry', last');
    ShapeStep(inp, i, res, carry, last, digit, carry', last');
  }

  lemma ShapedLength(inp: nat, i: nat, res: seq<nat>, carry: bool, last: bool)
    requires Shaped(inp, i, res, carry, last)
    ensures |res| == i
  {
  }

  lemma KeepValue(inp: nat, i: nat, res: seq<nat>, carry: bool, last: bool, digit: nat, carry': bool, last': bool)
    requires inp < 1024 && i < 8 && |res| == i && ValueKept(inp, i, res, carry, last)
    requires Owed(carry, last) + 2 * BoolToNat(Bit(inp, i + 1)) == Digit(digit) + 2 * Owed(carry', last')
    ensures ValueKept(inp, i + 1, res + [digit], carry', last')
  {
    hide Shr, DigitValue, Pow2, Bit, Owed, BoolToNat, Digit;
    LowBit(inp, i + 1);
    RecodeValue(res, digit, i);
    StepValue(DigitValue(res), Pow2(i), Owed(carry, last), BoolToNat(Bit(inp, i + 1)), Shr(inp % 512, i + 2),
        Digit(digit),
      Owed(carry', last'), inp % 512 + 2 * (inp / 512));
  }

  lemma ShapeStep(inp: nat, i: nat, res: seq<nat>, carry: bool, last: bool, digit: nat, carry': bool, last': bool)
    requires inp < 1024 && i < 8 && Shaped(inp, i, res, carry, last)
    requires Owed(carry, last) + 2 * BoolToNat(Bit(inp, i + 1)) == Digit(digit) + 2 * Owed(carry', last')
    requires digit <= 2 && (digit != 0 <==> last) && (last ==> !last') && (inp < 2 ==> !Bit(inp, i + 1))
    requires !(carry && last) ==>
      Owed(carry', last') - BoolToNat(Bit(inp, i + 1)) == 0 || Owed(carry', last') - BoolToNat(Bit(inp, i + 1)) == 1
    ensures Shaped(inp, i + 1, res + [digit], carry', last')
  {
    hide Bit;
  }

  lemma RecodeValue(res: seq<nat>, digit: nat, i: nat)
    requires |res| == i
    ensures DigitValue(res + [digit]) == DigitValue(res) + Pow2(i) * Digit(digit) && Pow2(i + 1) == 2 * Pow2(i)
  {
    DigitValueAppend(res, [digit]);
    assert [digit][1..] == [];
    assert DigitValue([digit]) == Digit(digit);
  }

  /** Peeling one bit off the nine low bits of an input. */
  lemma LowBit(inp: nat, j: nat)
    requires inp < 1024 && j <= 8
    ensures Shr(inp % 512, j) == BoolToNat(Bit(inp, j)) + 2 * Shr(inp % 512, j + 1)
  {
    Halve(inp % 512, j);
    BitShr(inp % 512, j, 0);
    LowBitsSame(inp, 512, j);
    Pow2Small();
  }

  lemma Pow2Small()
    ensures Pow2(9) == 512
  {
  }

  lemma {:induction false} Halve(x: nat, j: nat)
    ensures Shr(x, j) / 2 == Shr(x, j + 1)
  {
    if j > 0 { Halve(x / 2, j - 1); }
  }

  /** The low bits survive a reduction modulo a power of two. */
  lemma {:induction false} LowBitsSame(x: nat, m: nat, j: nat)
    requires m == Pow2(9) && j < 9
    ensures Bit(x % m, j) == Bit(x, j)
  {
    ModKeepsBits(x, 9, j);
  }

  lemma {:induction false} ModKeepsBits(x: nat, n: nat, j: nat)
    requires j < n
    ensures Bit(x % Pow2(n), j) == Bit(x, j)
  {
    var m := Pow2(n - 1);
    assert Pow2(n) == 2 * m;
    ModHalf(x, m);
    if j > 0 { ModKeepsBits(x / 2, n - 1, j - 1); }
  }

  lemma ModHalf(x: nat, m: nat)
    requires m > 0
    ensures x % (2 * m) % 2 == x % 2 && x % (2 * m) / 2 == x / 2 % m
  {
    var q, r := x / 2 / m, x / 2 % m;
    assert x == q * (2 * m) + (2 * r + x % 2);
    DivUnique(x, 2 * m, q, 2 * r + x % 2);
  }

  method BuildNafTable() returns (table: array<Entry>)
    ensures fresh(table) && table.Length == 1024
    ensures forall inp :: 0 <= inp < 1024 ==> EntryFor(table[inp], inp)
  {
    table := new Entry[1024](i => [0, 0, 0, 0, 0, 0, 0, 0]);
    for inp := 0 to 1024
      invariant forall k :: 0 <= k < inp ==> EntryFor(table[k], k)
    {
      table[inp] := BuildEntry(inp);
    }
  }

  method BuildEntry(inp: nat) returns (e: Entry)
    requires inp < 1024
    ensures EntryFor(e, inp)
  {
    var carry, last := Bit(inp, 9), Bit(inp, 0);
    var res: seq<nat> := [];
    Start(inp);
    for i := 0 to 8
      invariant Recoded(inp, i, res, carry, last)
    {
      var cur := Bit(inp, i + 1);
      var digit, carry', last' := Step(carry, last, cur);
      RecodeStep(inp, i, res, carry, last, digit, carry', last');
      res, carry, last := res + [digit], carry', last';
    }
    e := res[0 := res[0] + (if carry then 4 else 0) + (if last then 8 else 0)];
    Finish(inp);
    PackEntry(e, inp, res, carry, last);
  }

  lemma PackEntry(e: Entry, inp: nat, res: seq<nat>, carry: bool, last: bool)
    requires inp < 1024 && Recoded(inp, 8, res, carry, last)
    requires e == res[0 := res[0] + (if carry then 4 else 0) + (if last then 8 else 0)]
    requires Shr(inp % 512, 9) == 0 && Pow2(8) == 256 && BoolToNat(Bit(inp, 8)) == inp / 256 % 2
    ensures EntryFor(e, inp)
  {
    hide Shr, DigitValue, Bit, Pow2;
    assert EntryDigits(e) == res;
    assert EntryCarry(e) == carry && EntryLast(e) == last;
  }

  lemma Start(inp: nat)
    requires inp < 1024
    ensures Recoded(inp, 0, [], Bit(inp, 9), Bit(inp, 0))
  {
    LowBit(inp, 0);
    TopBit(inp);
    if inp < 2 { BitZero(8); }
  }

  lemma TopBit(inp: nat)
    requires inp < 1024
    ensures BoolToNat(Bit(inp, 9)) == inp / 512 && BoolToNat(Bit(inp, 8)) == inp / 256 % 2
  {
    hide Bit, Shr, Pow2;
    Pow2Small();
    Pow2Words();
    LowestBit(Shr(inp, 9));
    LowestBit(Shr(inp, 8));
    BitShr(inp, 9, 0);
    ShrDivides(inp, 9);
    BitShr(inp, 8, 0);
    ShrDivides(inp, 8);
  }

  lemma Finish(inp: nat)
    requires inp < 1024
    ensures Shr(inp % 512, 9) == 0 && Pow2(8) == 256
    ensures BoolToNat(Bit(inp, 8)) == inp / 256 % 2
  {
    ShrDivides(inp % 512, 9);
    Pow2Small();
    TopBit(inp);
  }

  // ---------------------------------------------------------------- recoding a scalar

  /** The low bit of byte `i`; bytes past the end are zero. */
  function LowBitOf(scalar: seq<nat>, i: nat): nat {
    if i < |scalar| then scalar[i] % 2 else 0
  }

  function ByteOf(scalar: seq<nat>, i: nat): nat {
    if i < |scalar| then scalar[i] else 0
  }

  /** The bytes from `i` on, as a number. */
  function Suffix(scalar: seq<nat>, i: nat): nat {
    if i < |scalar| then LittleEndian(scalar[i..]) else 0
  }

  /** After `i` bytes: the digits so far and what is still owed add up to the scalar. */
  ghost predicate NafProgress(scalar: seq<nat>, i: nat, naf: seq<nat>, carry: bool, last: bool) {
    var owed := Owed(carry, last) - LowBitOf(scalar, i);
    && |naf| == 8 * i
    && (forall k :: 0 <= k < |naf| ==> naf[k] <= 2)
    && NonAdjacent(naf) && (last && i > 0 ==> naf[8 * i - 1] == 0)
    && !(carry && last) && 0 <= owed <= 1
    && DigitValue(naf) + Pow2(8 * i) * (Suffix(scalar, i) + owed) == LittleEndian(scalar)
  }

  /** The table index of byte `i`. */
  function TableIndex(scalar: seq<nat>, i: nat, carry: bool, last: bool): nat {
    BoolToNat(last) + (ByteOf(scalar, i) - LowBitOf(scalar, i)) + 256 * LowBitOf(scalar, i + 1) + 512 * BoolToNat(carry)
  }

  lemma IndexFields(scalar: seq<nat>, i: nat, carry: bool, last: bool)
    requires Bytes(scalar)
    ensures var st := TableIndex(scalar, i, carry, last);
      && st < 1024 && Bit(st, 9) == carry && Bit(st, 0) == last
      && st / 256 % 2 == LowBitOf(scalar, i + 1)
      && st % 512 + 2 * (st / 512) == BoolToNat(last) + 2 * BoolToNat(carry)
        + (ByteOf(scalar, i) - LowBitOf(scalar, i)) + 256 * LowBitOf(scalar, i + 1)
  {
    var st := TableIndex(scalar, i, carry, last);
    var l, b, n, c := BoolToNat(last), ByteOf(scalar, i) - LowBitOf(scalar, i), LowBitOf(scalar, i + 1),
        BoolToNat(carry);
    EvenByte(ByteOf(scalar, i));
    LowestBit(st);
    hide Bit, ByteOf, LowBitOf;
    FieldsOf(st, l, b, n, c);
    TopBit(st);
  }

  lemma LowestBit(x: nat)
    ensures Bit(x, 0) == (x % 2 == 1)
  {
  }

  lemma EvenByte(b: nat)
    requires b < 256
    ensures (b - b % 2) % 2 == 0 && 0 <= b - b % 2 <= 254
  {
  }

  /** The fields of a table index. */
  lemma FieldsOf(st: nat, l: nat, b: nat, n: nat, c: nat)
    requires l <= 1 && b <= 254 && b % 2 == 0 && n <= 1 && c <= 1 && st == l + b + 256 * n + 512 * c
    ensures st < 1024 && st % 2 == l && st / 512 == c && st % 512 == l + b + 256 * n && st / 256 % 2 == n
  {
    DivUnique(st, 512, c, l + b + 256 * n);
    DivUnique(st, 256, n + 2 * c, l + b);
    DivUnique(n + 2 * c, 2, c, n);
    DivUnique(st, 2, b / 2 + 128 * n + 256 * c, l);
  }

  lemma SuffixStep(scalar: seq<nat>, i: nat)
    ensures Suffix(scalar, i) == ByteOf(scalar, i) + 256 * Suffix(scalar, i + 1)
  {
    if i < |scalar| { assert scalar[i..][1..] == scalar[i + 1..]; }
  }

  lemma NafByte(scalar: seq<nat>, i: nat, naf: seq<nat>, carry: bool, last: bool, e: Entry)
    requires Bytes(scalar) && NafProgress(scalar, i, naf, carry, last)
    requires EntryFor(e, TableIndex(scalar, i, carry, last))
    ensures NafProgress(scalar, i + 1, naf + EntryDigits(e), EntryCarry(e), EntryLast(e))
  {
    IndexFields(scalar, i, carry, last);
    SuffixStep(scalar, i);
    DigitValueAppend(naf, EntryDigits(e));
    ByteValue(DigitValue(naf), 8 * i, Suffix(scalar, i) + Owed(carry, last) - LowBitOf(scalar, i),
        DigitValue(EntryDigits(e)),
      Suffix(scalar, i + 1) + Owed(EntryCarry(e), EntryLast(e)) - LowBitOf(scalar, i + 1));
    hide DigitValue, Pow2, LittleEndian, Bit, Suffix, Digit;
    var ds, more := EntryDigits(e), naf + EntryDigits(e);
    forall k | 0 <= k < |more| - 1 ensures more[k] == 0 || more[k + 1] == 0 {
      if k >= |naf| { assert ds[k - |naf|] == 0 || ds[k - |naf| + 1] == 0; }
    }
  }

  lemma ByteValue(value: int, n: nat, rest: int, digits: int, rest': int)
    requires rest == digits + 256 * rest'
    ensures value + Pow2(n) * rest == value + Pow2(n) * digits + Pow2(n + 8) * rest'
  {
    Pow2Add(n, 8);
    assert Pow2(8) == 256;
    DistributeBy(Pow2(n), digits, rest');
  }

  lemma DistributeBy(p: int, a: int, b: int)
    ensures p * (a + 256 * b) == p * a + p * 256 * b
  {
  }

  /** `buildNaf`: the digits add up to the scalar, no two neighbours are both non-zero, and there is
      nothing beyond digit 8 * size. */
  method BuildNaf(table: array<Entry>, scalar: seq<nat>) returns (naf: seq<nat>)
    requires table.Length == 1024 && forall inp :: 0 <= inp < 1024 ==> EntryFor(table[inp], inp)
    requires |scalar| >= 1 && Bytes(scalar)
    ensures |naf| == 8 * (|scalar| + 2)
    ensures DigitValue(naf) == LittleEndian(scalar)
    ensures NonAdjacent(naf) && forall k :: 0 <= k < |naf| ==> naf[k] <= 2
    ensures forall k :: 8 * |scalar| + 1 <= k < |naf| ==> naf[k] == 0
  {
    var size := |scalar|;
    naf := [];
    var carry, last := false, scalar[0] % 2 == 1;
    var i := 0;
    StartNaf(scalar);
    hide EntryFor, NafProgress, TableIndex, LittleEndian, DigitValue, NonAdjacent;
    while i < size + 2
      invariant 0 <= i <= size + 2
      invariant NafProgress(scalar, i, naf, carry, last)
      invariant forall k :: 8 * size + 1 <= k < |naf| ==> naf[k] == 0
      invariant i > size ==> !carry && !last
    {
      var st := StateOf(scalar, i, carry, last);
      IndexFields(scalar, i, carry, last);
      var rs := table[st];
      NafByte(scalar, i, naf, carry, last, rs);
      PastTheEnd(scalar, i, carry, last, rs);
      carry, last := EntryCarry(rs), EntryLast(rs);
      naf := naf + EntryDigits(rs);
      i := i + 1;
    }
    NafComplete(scalar, i, naf);
  }

  /** The table index of one byte: its upper bits, the low bit of the next byte and the state. */
  method StateOf(scalar: seq<nat>, i: nat, carry: bool, last: bool) returns (st: nat)
    ensures st == TableIndex(scalar, i, carry, last)
  {
    var size := |scalar|;
    st := if last then 1 else 0;
    if i < size { st := st + (scalar[i] - scalar[i] % 2); }
    if i < size - 1 { st := st + 256 * (scalar[i + 1] % 2); }
    if carry { st := st + 0x200; }
  }

  lemma NafComplete(scalar: seq<nat>, i: nat, naf: seq<nat>)
    requires i >= |scalar| && NafProgress(scalar, i, naf, false, false)
    ensures |naf| == 8 * i && DigitValue(naf) == LittleEndian(scalar)
    ensures NonAdjacent(naf) && forall k :: 0 <= k < |naf| ==> naf[k] <= 2
  {
    assert Suffix(scalar, i) == 0;
  }

  lemma StartNaf(scalar: seq<nat>)
    requires |scalar| >= 1
    ensures NafProgress(scalar, 0, [], false, scalar[0] % 2 == 1)
  {
    assert scalar[0..] == scalar;
  }

  /** Past the last byte at most one more digit is owed, and then nothing. */
  lemma PastTheEnd(scalar: seq<nat>, i: nat, carry: bool, last: bool, e: Entry)
    requires EntryFor(e, TableIndex(scalar, i, carry, last))
    ensures i >= |scalar| && Owed(carry, last) <= 1 ==> Owed(EntryCarry(e), EntryLast(e)) == 0
    ensures i >= |scalar| && Owed(carry, last) <= 1 ==> forall k :: 1 <= k < 8 ==> EntryDigits(e)[k] == 0
    ensures i >= |scalar| && !carry && !last ==> EntryDigits(e)[0] == 0
  {
  }

  // ---------------------------------------------------------------- scalar multiplication

  /** `nafMulByScalar`: scalar times base, in any abelian group. */
  method NafMulByScalar<T(==, !new)>(G: Group<T>, table: array<Entry>, base: T, scalar: seq<nat>) returns (r: T)
    requires Abelian(G)
    requires table.Length == 1024 && forall inp :: 0 <= inp < 1024 ==> EntryFor(table[inp], inp)
    requires |scalar| >= 1 && Bytes(scalar)
    ensures r == Times(G, LittleEndian(scalar), base)
  {
    hide EntryFor, Times, LittleEndian, NonAdjacent, DigitValue, Abelian, Bytes;
    var nBits := 8 * |scalar| + 2;
    var naf := BuildNaf(table, scalar);
    var i := SkipZeros(naf, nBits);
    r := SumDigits(G, naf, i, base);
  }

  /** The second loop: from the digit at `first` down to the lowest. */
  method SumDigits<T(==, !new)>(G: Group<T>, naf: seq<nat>, first: int, base: T) returns (r: T)
    requires Abelian(G) && -1 <= first < |naf| && DigitValue(naf[first + 1..]) == 0
    ensures r == Times(G, DigitValue(naf), base)
  {
    hide Times, DigitValue, Abelian;
    r := G.zero;
    TimesNone(G, base);
    var i := first;
    ghost var n := 0;
    while i >= 0
      invariant -1 <= i < |naf| && n == DigitValue(naf[i + 1..])
      invariant r == Times(G, n, base)
    {
      FirstDigit(naf, i);
      r := DoubleAndAdd(G, r, naf[i], base, n);
      n := 2 * n + Digit(naf[i]);
      i := i - 1;
    }
    WholeNaf(naf);
  }

  /** The first loop: down to the highest digit that is not zero. */
  method SkipZeros(naf: seq<nat>, nBits: nat) returns (i: int)
    requires nBits <= |naf| && forall k :: nBits <= k < |naf| ==> naf[k] == 0
    ensures -1 <= i < nBits && (i >= 0 ==> naf[i] != 0)
    ensures DigitValue(naf[i + 1..]) == 0
  {
    hide DigitValue;
    i := nBits - 1;
    while i >= 0 && naf[i] == 0
      invariant -1 <= i < nBits
      invariant forall k :: i < k < |naf| ==> naf[k] == 0
    {
      i := i - 1;
    }
    ZeroDigits(naf[i + 1..]);
  }

  /** One round of the loop: `r` is `n` times the base before it. */
  method DoubleAndAdd<T(==, !new)>(G: Group<T>, r0: T, digit: nat, base: T, ghost n: int) returns (r: T)
    requires Abelian(G) && r0 == Times(G, n, base)
    ensures r == Times(G, 2 * n + Digit(digit), base)
  {
    hide Times, Abelian;
    NextDigit(G, n, base);
    r := G.add(r0, r0);
    if digit == 1 {
      r := G.add(r, base);
    } else if digit == 2 {
      r := G.add(r, G.neg(base));
    }
  }

  lemma WholeNaf(naf: seq<nat>)
    ensures naf[0..] == naf
  {
  }

  lemma FirstDigit(naf: seq<nat>, i: nat)
    requires i < |naf|
    ensures DigitValue(naf[i..]) == 2 * DigitValue(naf[i + 1..]) + Digit(naf[i])
  {
    assert naf[i..][0] == naf[i] && naf[i..][1..] == naf[i + 1..];
  }

  /** Doubling, and adding or subtracting the base. */
  lemma NextDigit<T(!new)>(G: Group<T>, n: int, base: T)
    requires Abelian(G)
    ensures var d := G.add(Times(G, n, base), Times(G, n, base));
      && d == Times(G, 2 * n, base)
      && G.add(d, base) == Times(G, 2 * n + 1, base)
      && G.add(d, G.neg(base)) == Times(G, 2 * n - 1, base)
  {
    TimesAdd(G, n, n, base);
    TimesNext(G, 2 * n, base);
  }
}
