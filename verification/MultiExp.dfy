/** Multi-exponentiation with buckets: scalars are cut into chunks, every thread adds bases into its
    own accumulators, and a recursive reduction in place weighs the accumulators by their index. */
module MultiExp {
  import opened Bits
  import opened Groups
  import opened LinearSums
  import opened Naf

  const PME2_PACK_FACTOR: nat := 2
  const PME2_MAX_CHUNK_SIZE_BITS: nat := 16
  const PME2_MIN_CHUNK_SIZE_BITS: nat := 2

  // ---------------------------------------------------------------- chunks of a scalar

  /** Chunk `c` of a scalar in base 2^bits. */
  function Chunk(scalar: nat, bits: nat, c: nat): nat {
    Shr(scalar, bits * c) % Pow2(bits)
  }

  lemma {:induction false} BitLittleEndian(s: seq<nat>, i: nat)
    requires Bytes(s)
    ensures Bit(LittleEndian(s), i) == (i / 8 < |s| && Bit(s[i / 8], i % 8))
    decreases |s|
  {
    if s == [] {
      BitZero(i);
    } else {
      var rest := LittleEndian(s[1..]);
      ByteBits(s[0], rest, i);
      if i >= 8 { BitLittleEndian(s[1..], i - 8); }
    }
  }

  /** A byte below a number shifted by eight bits. */
  lemma ByteBits(b: nat, rest: nat, i: nat)
    requires b < 256
    ensures Bit(b + 256 * rest, i) == if i < 8 then Bit(b, i) else Bit(rest, i - 8)
  {
    Pow2Words();
    DivUnique(b + 256 * rest, 256, rest, b);
    hide Bit, Shr, Pow2;
    if i < 8 {
      ModKeepsBits(b + 256 * rest, 8, i);
    } else {
      ShrDivides(b + 256 * rest, 8);
      BitShr(b + 256 * rest, 8, i - 8);
    }
  }

  lemma {:induction false} MaskBits(n: nat, i: nat)
    ensures Pow2(n) > 0 && Bit(Pow2(n) - 1, i) == (i < n)
  {
    if n == 0 {
      BitZero(i);
    } else if i > 0 {
      assert (Pow2(n) - 1) / 2 == Pow2(n - 1) - 1;
      MaskBits(n - 1, i - 1);
    }
  }

  /** Bits of a chunk. */
  lemma ChunkBits(scalar: nat, bits: nat, c: nat, i: nat)
    ensures Bit(Chunk(scalar, bits, c), i) == (i < bits && Bit(scalar, bits * c + i))
  {
    if i < bits {
      ModKeepsBits(Shr(scalar, bits * c), bits, i);
      BitShr(scalar, bits * c, i);
    } else {
      FitsHasNoHighBit(Chunk(scalar, bits, c), bits, i);
    }
  }

  /** `getChunk` at a bit position: eight bytes are read where the chunk starts, but never past the
      end of the scalar; the last chunk may have fewer bits. */
  function ReadBits(scalar: seq<nat>, bits: nat, bitStart: nat): nat
    requires |scalar| >= 8 && bitStart < 8 * |scalar|
  {
    var byteStart := ByteStart(|scalar|, bitStart);
    var effective: nat := if bitStart + bits > |scalar| * 8 then |scalar| * 8 - bitStart else bits;
    var v := LittleEndian(scalar[byteStart..byteStart + 8]);
    And(Shr(v, bitStart - byteStart * 8), Shl(1, effective) - 1)
  }

  function ByteStart(size: nat, bitStart: nat): (r: nat)
    requires size >= 8
    ensures r <= size - 8 && 8 * r <= bitStart
    ensures r == size - 8 || bitStart - 8 * r < 8
  {
    if bitStart / 8 > size - 8 then size - 8 else bitStart / 8
  }

  function GetChunk(scalar: seq<nat>, bits: nat, c: nat): nat
    requires |scalar| >= 8 && c * bits < 8 * |scalar|
  {
    ReadBits(scalar, bits, c * bits)
  }

  /** A bit of the word that is read at byte `start`. */
  lemma WordBit(scalar: seq<nat>, start: nat, i: nat)
    requires Bytes(scalar) && start + 8 <= |scalar|
    ensures Bit(LittleEndian(scalar[start..start + 8]), i) == (i < 64 && Bit(LittleEndian(scalar), 8 * start + i))
  {
    var word := scalar[start..start + 8];
    BitLittleEndian(word, i);
    BitLittleEndian(scalar, 8 * start + i);
    assert (8 * start + i) / 8 == start + i / 8 && (8 * start + i) % 8 == i % 8;
  }

  lemma ScalarTop(scalar: seq<nat>, i: nat)
    requires Bytes(scalar) && i >= 8 * |scalar|
    ensures !Bit(LittleEndian(scalar), i)
  {
    BitLittleEndian(scalar, i);
  }

  /** A bit of the word that was read, after shifting and masking. */
  lemma ReadBit(scalar: seq<nat>, bits: nat, bitStart: nat, i: nat)
    requires Bytes(scalar) && |scalar| >= 8 && bits <= 16 && bitStart < 8 * |scalar|
    ensures Bit(ReadBits(scalar, bits, bitStart), i) == (i < bits && Bit(LittleEndian(scalar), bitStart + i))
  {
    hide Shl, Shr, And, Bit, LittleEndian, Bytes, Pow2;
    var byteStart := ByteStart(|scalar|, bitStart);
    var effective: nat := if bitStart + bits > |scalar| * 8 then |scalar| * 8 - bitStart else bits;
    var shift := bitStart - byteStart * 8;
    var v := LittleEndian(scalar[byteStart..byteStart + 8]);
    ShlMultiplies(1, effective);
    BitAnd(Shr(v, shift), Shl(1, effective) - 1, i);
    MaskBits(effective, i);
    BitShr(v, shift, i);
    WordBit(scalar, byteStart, shift + i);
    if bitStart + i >= 8 * |scalar| { ScalarTop(scalar, bitStart + i); }
  }

  /** `getChunk` returns the chunk, also where the word read is clamped to the end of the scalar. */
  lemma GetChunkIsChunk(scalar: seq<nat>, bits: nat, c: nat)
    requires Bytes(scalar) && |scalar| >= 8 && bits <= 16 && c * bits < 8 * |scalar|
    ensures GetChunk(scalar, bits, c) == Chunk(LittleEndian(scalar), bits, c)
  {
    assert bits * c == c * bits;
    forall i: nat ensures Bit(GetChunk(scalar, bits, c), i) == Bit(Chunk(LittleEndian(scalar), bits, c), i) {
      ReadBit(scalar, bits, c * bits, i);
      ChunkBits(LittleEndian(scalar), bits, c, i);
    }
    SameBits(GetChunk(scalar, bits, c), Chunk(LittleEndian(scalar), bits, c));
  }

  /** Putting a chunk back below the rest of the scalar. */
  lemma ChunkStep(scalar: nat, bits: nat, c: nat)
    ensures Shr(scalar, bits * c) == Chunk(scalar, bits, c) + Pow2(bits) * Shr(scalar, bits * (c + 1))
  {
    hide Shr, Pow2;
    var x := Shr(scalar, bits * c);
    ShrShr(scalar, bits * c, bits);
    assert bits * c + bits == bits * (c + 1);
    ShrDivides(x, bits);
    DivMod(x, Pow2(bits));
  }

  /** A scalar of `size` bytes has nothing left after 8 * size bits. */
  lemma ScalarEnds(scalar: seq<nat>, n: nat)
    requires Bytes(scalar) && n >= 8 * |scalar|
    ensures Shr(LittleEndian(scalar), n) == 0
  {
    forall i: nat ensures !Bit(Shr(LittleEndian(scalar), n), i) {
      BitShr(LittleEndian(scalar), n, i);
      BitLittleEndian(scalar, i + n);
    }
    if Shr(LittleEndian(scalar), n) > 0 { HasBit(Shr(LittleEndian(scalar), n)); }
  }

  // ---------------------------------------------------------------- the accumulators

  /** The weight of accumulator `p`: its index within its thread's block. */
  function Weights(size: nat, block: nat): (w: seq<nat>)
    requires block > 0
    ensures |w| == size
  {
    seq(size, p requires 0 <= p < size => p % block)
  }

  /** The weighted sum of all accumulators of all threads. */
  ghost function Weighted<T>(G: Group<T>, accs: seq<T>, block: nat): T
    requires block > 0
  {
    LinComb(G, Weights(|accs|, block), accs)
  }

  ghost predicate AllZero<T>(G: Group<T>, accs: seq<T>) {
    forall p :: 0 <= p < |accs| ==> accs[p] == G.zero
  }

  /** The scalars of all bases shifted right by `n` bits. */
  function Shifted(scalars: seq<seq<nat>>, n: nat): (r: seq<nat>)
    ensures |r| == |scalars|
  {
    seq(|scalars|, i requires 0 <= i < |scalars| => Shr(LittleEndian(scalars[i]), n))
  }

  function Chunks(scalars: seq<seq<nat>>, bits: nat, c: nat): (r: seq<nat>)
    ensures |r| == |scalars|
  {
    seq(|scalars|, i requires 0 <= i < |scalars| => Chunk(LittleEndian(scalars[i]), bits, c))
  }

  predicate Scalars(scalars: seq<seq<nat>>, size: nat) {
    forall i :: 0 <= i < |scalars| ==> |scalars[i]| == size && Bytes(scalars[i])
  }

  function Numbers(scalars: seq<seq<nat>>): (r: seq<nat>)
    ensures |r| == |scalars|
  {
    seq(|scalars|, i requires 0 <= i < |scalars| => LittleEndian(scalars[i]))
  }

  /** Σ scalar[i] · base[i] */
  function MultiExpSpec<T>(G: Group<T>, bases: seq<T>, scalars: seq<seq<nat>>): T
    requires |bases| == |scalars|
  {
    LinComb(G, Numbers(scalars), bases)
  }

  // ---------------------------------------------------------------- chunk by chunk

  /** After `k` of the bases: chunk digits of the first `k`, zero for the others. */
  function FirstDigits(digits: seq<nat>, k: nat): (r: seq<nat>)
    ensures |r| == |digits|
  {
    seq(|digits|, i requires 0 <= i < |digits| => if i < k then digits[i] else 0)
  }

  lemma {:induction false} NextDigitCounted<T(!new)>(G: Group<T>, digits: seq<nat>, bases: seq<T>, k: nat)
    requires Abelian(G) && |digits| == |bases| && k < |bases|
    ensures LinComb(G, FirstDigits(digits, k + 1), bases) ==
            G.add(LinComb(G, FirstDigits(digits, k), bases), Times(G, digits[k], bases[k]))
  {
    var n := |bases| - 1;
    if k == n {
      assert FirstDigits(digits, n + 1)[..n] == FirstDigits(digits, n)[..n];
      AddZero(G, LinComb(G, FirstDigits(digits, n)[..n], bases[..n]));
    } else {
      assert FirstDigits(digits, k + 1)[..n] == FirstDigits(digits[..n], k + 1);
      assert FirstDigits(digits, k)[..n] == FirstDigits(digits[..n], k);
      NextDigitCounted(G, digits[..n], bases[..n], k);
      AddZero(G, LinComb(G, FirstDigits(digits[..n], k + 1), bases[..n]));
      AddZero(G, LinComb(G, FirstDigits(digits[..n], k), bases[..n]));
    }
  }

  /** Index of an accumulator within its block. */
  lemma IndexInBlock(thread: nat, block: nat, v: nat, nThreads: nat)
    requires v < block && thread < nThreads
    ensures thread * block + v < nThreads * block && (thread * block + v) % block == v
  {
    DivUnique(thread * block + v, block, thread, v);
    ProductsOrdered(thread + 1, nThreads, block);
    ProductOfSum(thread, 1, block);
  }

  /** 0, 1, .., n - 1 */
  function Indices(n: nat): (r: seq<nat>)
    ensures |r| == n && forall i :: 0 <= i < n ==> r[i] == i
  {
    seq(n, i => i)
  }

  /** `reduce` is correct when this is kept: accumulators by index, plus the thread sums by `half`. */
  ghost function Potential<T>(G: Group<T>, accs: seq<T>, half: nat, sall: seq<T>): T
    requires 2 * half <= |accs|
  {
    G.add(LinComb(G, Indices(2 * half), accs[..2 * half]), Times(G, half, Sum(G, sall)))
  }

  /** Adding element `q` to element `p` and clearing it. */
  lemma LinCombMove<T(!new)>(G: Group<T>, w: seq<nat>, xs: seq<T>, p: nat, q: nat)
    requires Abelian(G) && |w| == |xs| && p < |xs| && q < |xs| && p != q
    ensures G.add(LinComb(G, w, xs[p := G.add(xs[p], xs[q])][q := G.zero]), Times(G, w[q], xs[q]))
         == G.add(LinComb(G, w, xs), Times(G, w[p], xs[q]))
  {
    LinCombUpdate(G, w, xs, p, xs[q]);
    LinCombClear(G, w, xs[p := G.add(xs[p], xs[q])], q);
  }

  /** Moving accumulator `half + i` to `i` and to one thread's sum keeps the potential. */
  lemma PotentialKept<T(
      !new)>(G: Group<T>, accs: seq<T>, half: nat, sall: seq<T>, i: nat, t: nat, accs': seq<T>, sall': seq<T>)
    requires Abelian(G) && 2 * half <= |accs| && 0 < i < half && t < |sall|
    requires accs' == accs[i := G.add(accs[i], accs[half + i])][half + i := G.zero]
    requires sall' == sall[t := G.add(sall[t], accs[half + i])]
    ensures Potential(G, accs', half, sall') == Potential(G, accs, half, sall)
  {
    var w, xs, x := Indices(2 * half), accs[..2 * half], accs[half + i];
    var xs' := xs[i := G.add(xs[i], x)][half + i := G.zero];
    assert accs'[..2 * half] == xs';
    LinCombMove(G, w, xs, i, half + i);
    SumUpdate(G, sall, t, x);
    hide LinComb, Times, Sum;
    PotentialArith(G, LinComb(G, w, xs), LinComb(G, w, xs'), Sum(G, sall), x, half, i);
  }

  lemma PotentialArith<T(!new)>(G: Group<T>, l: T, l': T, s: T, x: T, half: nat, i: nat)
    requires Abelian(G) && G.add(l', Times(G, half + i, x)) == G.add(l, Times(G, i, x))
    ensures G.add(l', Times(G, half, G.add(s, x))) == G.add(l, Times(G, half, s))
  {
    TimesOfSum(G, half, s, x);
    TimesAdd(G, half, i, x);
    MoveWeight(G, l', l, Times(G, half, x), Times(G, i, x));
    Comm(G, Times(G, half, s), Times(G, half, x));
    Assoc(G, l', Times(G, half, x), Times(G, half, s));
  }

  lemma MoveWeight<T(!new)>(G: Group<T>, a: T, b: T, h: T, i: T)
    requires Abelian(G) && G.add(a, G.add(h, i)) == G.add(b, i)
    ensures G.add(a, h) == b
  {
    Assoc(G, a, h, i);
    CancelNeg(G, G.add(a, h), i);
    CancelNeg(G, b, i);
  }

  lemma AllDigits(digits: seq<nat>)
    ensures FirstDigits(digits, |digits|) == digits
  {
  }

  class ParallelMultiexp<T(==, !new)> {
    const G: Group<T>
    var bases: seq<T>
    var scalars: seq<seq<nat>>
    var scalarSize: nat
    var nThreads: nat
    var bitsPerChunk: nat
    var accsPerChunk: nat
    var accs: array<T>

    constructor (G: Group<T>)
      ensures this.G == G
    {
      this.G := G;
      bases, scalars := [], [];
      scalarSize, nThreads, bitsPerChunk, accsPerChunk := 0, 1, 0, 1;
      accs := new T[0];
    }

    /** The fields are set up for a run over chunks. */
    ghost predicate Ready()
      reads this
    {
      && Abelian(G) && nThreads > 0 && 1 <= bitsPerChunk <= 16 && accsPerChunk == Pow2(bitsPerChunk)
      && accs.Length == nThreads * accsPerChunk
      && |bases| == |scalars| && scalarSize >= 8 && Scalars(scalars, scalarSize)
    }

    method InitAccs()
      requires Ready()
      modifies accs
      ensures AllZero(G, accs[..])
    {
      var i := 0;
      while i < nThreads * accsPerChunk
        invariant 0 <= i <= accs.Length
        invariant forall k :: 0 <= k < i ==> accs[k] == G.zero
      {
        accs[i] := G.zero;
        i := i + 1;
      }
    }

    /** The digit of base `i`. */
    function DigitOf(i: nat, idChunk: nat): nat
      reads this
      requires Ready() && i < |bases| && idChunk * bitsPerChunk < 8 * scalarSize
    {
      assert |scalars[i]| == scalarSize;
      GetChunk(scalars[i], bitsPerChunk, idChunk)
    }

    /** Adding `x` to accumulator `p` adds it to the weighted sum as often as the bucket counts. */
    method AddToBucket(p: nat, x: T)
      requires Ready() && p < accs.Length
      modifies accs
      ensures accs[p] == G.add(old(accs[p]), x)
      ensures forall q :: 0 <= q < accs.Length && q != p ==> accs[q] == old(accs[q])
      ensures Weighted(G, accs[..], accsPerChunk) == G.add(old(Weighted(G, accs[..], accsPerChunk)),
        Times(G, p % accsPerChunk, x))
    {
      hide LinComb, Times;
      LinCombUpdate(G, Weights(accs.Length, accsPerChunk), accs[..], p, x);
      accs[p] := G.add(accs[p], x);
      assert accs[..] == old(accs[..])[p := G.add(old(accs[p]), x)];
    }

    /** One base goes into the accumulator of its digit; the thread of an iteration is arbitrary. */
    method AddBase(i: nat, idChunk: nat)
      requires Ready() && i < |bases| && idChunk * bitsPerChunk < 8 * scalarSize
      requires forall p :: 0 <= p < accs.Length && p % accsPerChunk == 0 ==> accs[p] == G.zero
      modifies accs
      ensures Weighted(G, accs[..], accsPerChunk) == G.add(old(Weighted(G, accs[..], accsPerChunk)),
        Times(G, DigitOf(i, idChunk), bases[i]))
      ensures forall p :: 0 <= p < accs.Length && p % accsPerChunk == 0 ==> accs[p] == G.zero
    {
      hide Weighted, Times, GetChunk;
      var chunkValue := DigitOf(i, idChunk);
      GetChunkIsChunk(scalars[i], bitsPerChunk, idChunk);
      if bases[i] == G.zero || chunkValue == 0 {
        NothingToAdd(G, Weighted(G, accs[..], accsPerChunk), chunkValue, bases[i]);
      } else {
        var idThread: nat :| idThread < nThreads;
        IndexInBlock(idThread, accsPerChunk, chunkValue, nThreads);
        AddToBucket(idThread * accsPerChunk + chunkValue, bases[i]);
      }
    }

    /** Every base is added; afterwards no accumulator of digit zero was used. */
    method ProcessChunk(idChunk: nat)
      requires Ready() && AllZero(G, accs[..]) && idChunk * bitsPerChunk < 8 * scalarSize
      modifies accs
      ensures Weighted(G, accs[..], accsPerChunk) == LinComb(G, Chunks(scalars, bitsPerChunk, idChunk), bases)
      ensures forall p :: 0 <= p < accs.Length && p % accsPerChunk == 0 ==> accs[p] == G.zero
    {
      hide LinComb, Weighted, Times, FirstDigits;
      ghost var digits := Chunks(scalars, bitsPerChunk, idChunk);
      StartChunk(G, accs[..], accsPerChunk, digits, bases);
      var i := 0;
      while i < |bases|
        invariant 0 <= i <= |bases|
        invariant Weighted(G, accs[..], accsPerChunk) == LinComb(G, FirstDigits(digits, i), bases)
        invariant forall p :: 0 <= p < accs.Length && p % accsPerChunk == 0 ==> accs[p] == G.zero
      {
        GetChunkIsChunk(scalars[i], bitsPerChunk, idChunk);
        NextDigitCounted(G, digits, bases, i);
        AddBase(i, idChunk);
        i := i + 1;
      }
      AllDigits(digits);
    }

    /** Add the accumulators of all other threads to those of the first and clear them. */
    method PackThreads()
      requires Ready()
      modifies accs
      ensures forall p :: 0 <= p < accs.Length ==>
        accs[p] == if p < accsPerChunk then ColumnSum(G, old(accs[..]), accsPerChunk, p, nThreads) else G.zero
      ensures Weighted(G, accs[..], accsPerChunk) == old(Weighted(G, accs[..], accsPerChunk))
    {
      hide Weighted, Packed, PackedBelow;
      ghost var was := accs[..];
      PackBelowStart(G, was, accsPerChunk, nThreads);
      BlockFits(accsPerChunk, nThreads);
      var i := 0;
      while i < accsPerChunk
        invariant 0 <= i <= accsPerChunk
        invariant Weighted(G, accs[..], accsPerChunk) == Weighted(G, was, accsPerChunk)
        invariant PackedBelow(G, was, accs[..], accsPerChunk, i, nThreads)
      {
        ghost var before := accs[..];
        PackColumn(i);
        PackBelowStep(G, was, before, accs[..], accsPerChunk, i, nThreads);
        i := i + 1;
      }
      PackDone(G, was, accs[..], accsPerChunk, nThreads);
    }

    /** Accumulator `q` is added to accumulator `i` of the same column and cleared. */
    method MoveTo(i: nat, q: nat)
      requires Ready() && i < accs.Length && q < accs.Length && i != q && i % accsPerChunk == q % accsPerChunk
      modifies accs
      ensures accs[..] == old(accs[..])[i := G.add(old(accs[i]), old(accs[q]))][q := G.zero]
      ensures Weighted(G, accs[..], accsPerChunk) == old(Weighted(G, accs[..], accsPerChunk))
    {
      hide Weighted;
      ghost var was := accs[..];
      accs[i] := G.add(accs[i], accs[q]);
      accs[q] := G.zero;
      assert accs[..] == was[i := G.add(was[i], was[q])][q := G.zero];
      WeightedMove(G, was, accsPerChunk, i, q);
    }

    /** One accumulator index: the inner loop over the threads. */
    method PackColumn(i: nat)
      requires Ready() && i < accsPerChunk <= accs.Length
      modifies accs
      ensures Packed(G, old(accs[..]), accs[..], accsPerChunk, i, nThreads)
      ensures Weighted(G, accs[..], accsPerChunk) == old(Weighted(G, accs[..], accsPerChunk))
    {
      hide Weighted, Packed;
      ghost var was := accs[..];
      PackStart(G, was, accsPerChunk, i);
      var j := 1;
      while j < nThreads
        invariant 1 <= j <= nThreads
        invariant Weighted(G, accs[..], accsPerChunk) == Weighted(G, was, accsPerChunk)
        invariant Packed(G, was, accs[..], accsPerChunk, i, j)
      {
        IndexInBlock(j, accsPerChunk, i, nThreads);
        var q := j * accsPerChunk + i;
        ghost var before := accs[..];
        PackStep(G, was, before, accsPerChunk, i, j, nThreads);
        if accs[q] != G.zero {
          MoveTo(i, q);
        }
        j := j + 1;
      }
    }

    /** The loop of `reduce`: the upper half is added to the lower one and, summed up per thread, to the
        accumulator in the middle. The thread of an iteration is arbitrary. */
    method FoldHalves(half: nat)
      requires Ready() && 1 <= half && 2 * half <= accs.Length
      modifies accs
      ensures LinComb(G, Indices(2 * half), accs[..2 * half]) == LinComb(G, Indices(2 * half), old(accs[..2 * half]))
      ensures forall p :: half < p < 2 * half ==> accs[p] == G.zero
      ensures forall p :: 0 <= p < accs.Length && (p == 0 || p >= 2 * half) ==> accs[p] == old(accs[p])
    {
      hide LinComb, Sum, Times;
      var sall := new T[nThreads](k => G.zero);
      StartFold(G, accs[..], half, sall[..]);
      var i := 1;
      while i < half
        invariant 1 <= i <= half
        invariant Potential(G, accs[..], half, sall[..]) == LinComb(G, Indices(2 * half), old(accs[..2 * half]))
        invariant forall p :: half < p < half + i ==> accs[p] == G.zero
        invariant forall p :: 0 <= p < accs.Length && (p == 0 || p >= 2 * half) ==> accs[p] == old(accs[p])
      {
        var idThread: nat :| idThread < nThreads;
        ghost var was, wasSum := accs[..], sall[..];
        if accs[half + i] != G.zero {
          accs[i] := G.add(accs[i], accs[half + i]);
          sall[idThread] := G.add(sall[idThread], accs[half + i]);
          accs[half + i] := G.zero;
          assert accs[..] == was[i := G.add(was[i], was[half + i])][half + i := G.zero];
          assert sall[..] == wasSum[idThread := G.add(wasSum[idThread], was[half + i])];
          PotentialKept(G, was, half, wasSum, i, idThread, accs[..], sall[..]);
        }
        i := i + 1;
      }
      AddThreadSums(half, sall[..]);
    }

    /** The accumulator in the middle takes the sums of all threads. */
    method AddThreadSums(half: nat, sall: seq<T>)
      requires Ready() && 1 <= half && 2 * half <= accs.Length
      modifies accs
      ensures LinComb(G, Indices(2 * half), accs[..2 * half]) == old(Potential(G, accs[..], half, sall))
      ensures forall p :: 0 <= p < accs.Length && p != half ==> accs[p] == old(accs[p])
    {
      ghost var was := accs[..];
      var i := 0;
      SumPrefixes(G, sall);
      AddZero(G, was[half]);
      while i < |sall|
        invariant 0 <= i <= |sall|
        invariant accs[half] == G.add(was[half], Sum(G, sall[..i]))
        invariant forall p :: 0 <= p < accs.Length && p != half ==> accs[p] == was[p]
      {
        Assoc(G, was[half], Sum(G, sall[..i]), sall[i]);
        assert sall[..i + 1][..i] == sall[..i];
        accs[half] := G.add(accs[half], sall[i]);
        i := i + 1;
      }
      assert sall[..|sall|] == sall;
      LinCombUpdate(G, Indices(2 * half), was[..2 * half], half, Sum(G, sall));
      assert accs[..2 * half] == was[..2 * half][half := G.add(was[half], Sum(G, sall))];
    }

    /** Double the accumulator in the middle `k` times. */
    method DoubleMiddle(half: nat, k: nat)
      requires Ready() && half < accs.Length
      modifies accs
      ensures accs[half] == Times(G, Pow2(k), old(accs[half]))
      ensures forall p :: 0 <= p < accs.Length && p != half ==> accs[p] == old(accs[p])
    {
      ghost var top := accs[half];
      TimesOne(G, top);
      var i := 0;
      while i < k
        invariant 0 <= i <= k
        invariant accs[half] == Times(G, Pow2(i), top)
        invariant forall p :: 0 <= p < accs.Length && p != half ==> accs[p] == old(accs[p])
      {
        TimesOnce(G, Pow2(i), top);
        accs[half] := G.add(accs[half], accs[half]);
        i := i + 1;
      }
    }

    /** Σ i · accs[i] over 1 <= i < 2^nBits, clearing those accumulators. */
    method Reduce(nBits: nat) returns (res: T)
      requires Ready() && 1 <= nBits && Pow2(nBits) <= accs.Length
      modifies accs
      ensures res == LinComb(G, Indices(Pow2(nBits)), old(accs[..Pow2(nBits)]))
      ensures forall p :: 1 <= p < Pow2(nBits) && p < accs.Length ==> accs[p] == G.zero
      ensures forall p :: 0 <= p < accs.Length && (p == 0 || p >= Pow2(nBits)) ==> accs[p] == old(accs[p])
      decreases nBits
    {
      hide LinComb;
      if nBits == 1 {
        res := accs[1];
        OneAccumulator(G, accs[..2]);
        accs[1] := G.zero;
        return;
      }
      var ndiv2 := Pow2(nBits - 1);
      FoldHalves(ndiv2);
      ghost var folded := accs[..2 * ndiv2];
      SplitAtHalf(G, folded, ndiv2);
      assert accs[..ndiv2] == folded[..ndiv2];
      var p1 := Reduce(nBits - 1);
      DoubleMiddle(ndiv2, nBits - 1);
      res := G.add(p1, accs[ndiv2]);
      accs[ndiv2] := G.zero;
    }

    /** One chunk: fill the buckets, merge the threads, reduce. */
    method ChunkResult(idChunk: nat) returns (res: T)
      requires Ready() && AllZero(G, accs[..]) && idChunk * bitsPerChunk < 8 * scalarSize
      modifies accs
      ensures AllZero(G, accs[..])
      ensures res == LinComb(G, Chunks(scalars, bitsPerChunk, idChunk), bases)
    {
      hide LinComb;
      ProcessChunk(idChunk);
      ghost var was := accs[..];
      PackThreads();
      BlockFits(accsPerChunk, nThreads);
      ZeroColumn(G, was, accsPerChunk, 0, nThreads);
      FirstBlock(G, accs[..], accsPerChunk);
      res := Reduce(bitsPerChunk);
    }

    /** `multiexp`: the sum of scalar times base, for every number of bases and of threads. */
    method Multiexp(bases: seq<T>, scalars: seq<seq<nat>>, scalarSize: nat, nThreads: nat, table: array<Entry>)
      returns (r: T)
      requires Abelian(G) && |bases| == |scalars| && Scalars(scalars, scalarSize) && nThreads > 0
      requires |bases| == 1 ==> scalarSize >= 1
      requires |bases| > 1 ==> scalarSize >= 8
      requires table.Length == 1024 && forall inp :: 0 <= inp < 1024 ==> EntryFor(table[inp], inp)
      modifies this
      ensures r == MultiExpSpec(G, bases, scalars)
    {
      hide LinComb, EntryFor, Times, MultiExpSpec, LittleEndian;
      this.nThreads, this.bases, this.scalars, this.scalarSize := nThreads, bases, scalars, scalarSize;
      var n := |bases|;
      if n == 0 {
        SmallSums(G, bases, scalars);
        return G.zero;
      }
      if n == 1 {
        SmallSums(G, bases, scalars);
        r := NafMulByScalar(G, table, bases[0], scalars[0]);
        return;
      }
      bitsPerChunk := ChunkBitsFor(n);
      var nChunks := (scalarSize * 8 - 1) / bitsPerChunk + 1;
      accsPerChunk := Pow2(bitsPerChunk);
      accs := new T[nThreads * accsPerChunk](i => G.zero);
      var chunkResults := RunChunks(nChunks);
      r := Horner(chunkResults);
    }

    static method ChunkBitsFor(n: nat) returns (bits: nat)
      ensures PME2_MIN_CHUNK_SIZE_BITS <= bits <= PME2_MAX_CHUNK_SIZE_BITS
    {
      bits := Log2(n / PME2_PACK_FACTOR % 0x1_0000_0000);
      if bits > PME2_MAX_CHUNK_SIZE_BITS { bits := PME2_MAX_CHUNK_SIZE_BITS; }
      if bits < PME2_MIN_CHUNK_SIZE_BITS { bits := PME2_MIN_CHUNK_SIZE_BITS; }
    }

    method RunChunks(nChunks: nat) returns (chunkResults: seq<T>)
      requires Ready() && nChunks == (scalarSize * 8 - 1) / bitsPerChunk + 1
      modifies accs
      ensures |chunkResults| == nChunks
      ensures forall c :: 0 <= c < nChunks ==> chunkResults[c] == LinComb(G, Chunks(scalars, bitsPerChunk, c), bases)
    {
      hide LinComb;
      InitAccs();
      chunkResults := [];
      var i := 0;
      while i < nChunks
        invariant 0 <= i <= nChunks && |chunkResults| == i && AllZero(G, accs[..])
        invariant forall c :: 0 <= c < i ==> chunkResults[c] == LinComb(G, Chunks(scalars, bitsPerChunk, c), bases)
      {
        ChunkStarts(scalarSize, bitsPerChunk, i);
        var res := ChunkResult(i);
        chunkResults := chunkResults + [res];
        i := i + 1;
      }
    }

    method DoubleTimes(x: T, n: nat) returns (r: T)
      requires Abelian(G)
      ensures r == Times(G, Pow2(n), x)
    {
      hide Abelian;
      TimesOne(G, x);
      r := x;
      var k := 0;
      while k < n
        invariant 0 <= k <= n
        invariant r == Times(G, Pow2(k), x)
      {
        TimesOnce(G, Pow2(k), x);
        r := G.add(r, r);
        k := k + 1;
      }
    }

    /** From the top chunk down: double as often as a chunk has bits, and add the next chunk. */
    method Horner(chunkResults: seq<T>) returns (r: T)
      requires Ready() && |chunkResults| == (scalarSize * 8 - 1) / bitsPerChunk + 1
      requires forall c :: 0 <= c < |chunkResults| ==>
        chunkResults[c] == LinComb(G, Chunks(scalars, bitsPerChunk, c), bases)
      ensures r == MultiExpSpec(G, bases, scalars)
    {
      hide LinComb, Chunks, Shifted, Times, Pow2, Scalars;
      var nChunks := |chunkResults|;
      r := chunkResults[nChunks - 1];
      TopChunk(scalars, scalarSize, bitsPerChunk, nChunks);
      var j := nChunks - 2;
      while j >= 0
        invariant -1 <= j <= nChunks - 2
        invariant r == LinComb(G, Shifted(scalars, bitsPerChunk * (j + 1)), bases)
      {
        r := DoubleTimes(r, bitsPerChunk);
        r := G.add(r, chunkResults[j]);
        ChunksAndShifted(scalars, bitsPerChunk, j);
        LinCombHorner(G, Shifted(scalars, bitsPerChunk * (j + 1)), Chunks(scalars, bitsPerChunk, j),
          Shifted(scalars, bitsPerChunk * j), Pow2(bitsPerChunk), bases);
        j := j - 1;
      }
      NotShifted(scalars);
    }
  }

  /** Position of the highest set bit; 0 for 0. */
  function Log2(x: nat): nat {
    if x <= 1 then 0 else 1 + Log2(x / 2)
  }

  lemma StartChunk<T(!new)>(G: Group<T>, accs: seq<T>, block: nat, digits: seq<nat>, bases: seq<T>)
    requires Abelian(G) && block > 0 && AllZero(G, accs) && |digits| == |bases|
    ensures Weighted(G, accs, block) == G.zero == LinComb(G, FirstDigits(digits, 0), bases)
  {
    LinCombZeros(G, Weights(|accs|, block), accs);
    LinCombZeros(G, FirstDigits(digits, 0), bases);
  }

  lemma NothingToAdd<T(!new)>(G: Group<T>, s: T, n: nat, x: T)
    requires Abelian(G) && (x == G.zero || n == 0)
    ensures G.add(s, Times(G, n, x)) == s
  {
    TimesZero(G, n);
    AddZero(G, s);
  }

  lemma BlockFits(block: nat, nThreads: nat)
    requires nThreads > 0 && block > 0
    ensures block <= nThreads * block
  {
    ProductsOrdered(1, nThreads, block);
  }

  // ---------------------------------------------------------------- packing the threads

  /** The accumulator of index `i` summed over the first `n` threads. */
  function ColumnSum<T>(G: Group<T>, xs: seq<T>, block: nat, i: nat, n: nat): T
    requires i < block && 1 <= n && n * block <= |xs|
  {
    ColumnBound(block, i, n, |xs|);
    if n == 1 then xs[i] else G.add(ColumnSum(G, xs, block, i, n - 1), xs[(n - 1) * block + i])
  }

  lemma ColumnBound(block: nat, i: nat, n: nat, size: nat)
    requires i < block && 1 <= n && n * block <= size
    ensures (n - 1) * block + i < size && i < size && (n - 1) * block <= size
  {
    ProductOfSum(n - 1, 1, block);
    ProductNotNegative(n - 1, block);
  }

  /** Column `i` holds the sum over `j` threads in the first block and zero in those of the others;
      nothing else differs from `xs`. */
  ghost predicate Packed<T>(G: Group<T>, xs: seq<T>, ys: seq<T>, block: nat, i: nat, j: nat) {
    && i < block && 1 <= j && j * block <= |xs| == |ys|
    && forall p :: 0 <= p < |xs| ==> ys[p] == PackedAt(G, xs, block, i, j, p)
  }

  ghost function PackedAt<T>(G: Group<T>, xs: seq<T>, block: nat, i: nat, j: nat, p: nat): T
    requires i < block && 1 <= j && j * block <= |xs| && p < |xs|
  {
    if p % block != i then xs[p]
    else if p == i then ColumnSum(G, xs, block, i, j)
    else if p / block < j then G.zero else xs[p]
  }

  lemma PackStart<T>(G: Group<T>, xs: seq<T>, block: nat, i: nat)
    requires i < block <= |xs|
    ensures Packed(G, xs, xs, block, i, 1)
  {
    forall p | 0 <= p < |xs| ensures xs[p] == PackedAt(G, xs, block, i, 1, p) { DivMod(p, block); }
  }

  /** Accumulator `q` of thread `j` moves to the first block; a zero stays where it is. */
  lemma PackStep<T(!new)>(G: Group<T>, xs: seq<T>, ys: seq<T>, block: nat, i: nat, j: nat, nThreads: nat)
    requires Abelian(G) && Packed(G, xs, ys, block, i, j) && j < nThreads && |xs| == nThreads * block
    ensures var q := j * block + i;
      && i < q < |xs| && q % block == i == i % block
      && Packed(G, xs, if ys[q] != G.zero then ys[i := G.add(ys[i], ys[q])][q := G.zero] else ys, block, i, j + 1)
  {
    hide Abelian;
    var q := j * block + i;
    IndexInBlock(j, block, i, nThreads);
    DivUnique(q, block, j, i);
    DivUnique(i, block, 0, i);
    NextThread(block, j, nThreads);
    assert ys[i] == PackedAt(G, xs, block, i, j, i) && ys[q] == PackedAt(G, xs, block, i, j, q);
    AddZero(G, ys[i]);
    var zs := if ys[q] != G.zero then ys[i := G.add(ys[i], ys[q])][q := G.zero] else ys;
    forall p | 0 <= p < |xs| ensures zs[p] == PackedAt(G, xs, block, i, j + 1, p) {
      assert ys[p] == PackedAt(G, xs, block, i, j, p);
      OneOfThread(block, p, i, j);
    }
  }

  lemma NextThread(block: nat, j: nat, nThreads: nat)
    requires j < nThreads && 0 < block && 1 <= j
    ensures (j + 1) * block <= nThreads * block && j * block >= block
  {
    ProductsOrdered(j + 1, nThreads, block);
    ProductsOrdered(1, j, block);
  }

  /** Only one index has column `i` and thread `j`. */
  lemma OneOfThread(block: nat, p: nat, i: nat, j: nat)
    requires i < block
    ensures p % block == i && p / block == j <==> p == j * block + i
  {
    DivMod(p, block);
    DivUnique(j * block + i, block, j, i);
  }

  /** The columns below `i` are packed, the others are as in `xs`. */
  ghost predicate PackedBelow<T>(G: Group<T>, xs: seq<T>, ys: seq<T>, block: nat, i: nat, nThreads: nat) {
    && 0 < block && 1 <= nThreads && |xs| == |ys| == nThreads * block
    && forall p :: 0 <= p < |xs| ==> ys[p] == PackedBelowAt(G, xs, block, i, nThreads, p)
  }

  ghost function PackedBelowAt<T>(G: Group<T>, xs: seq<T>, block: nat, i: nat, nThreads: nat, p: nat): T
    requires 0 < block && 1 <= nThreads && |xs| == nThreads * block && p < |xs|
  {
    if p % block >= i then xs[p] else if p < block then ColumnSum(G, xs, block, p, nThreads) else G.zero
  }

  lemma PackBelowStart<T>(G: Group<T>, xs: seq<T>, block: nat, nThreads: nat)
    requires 0 < block && 1 <= nThreads && |xs| == nThreads * block
    ensures PackedBelow(G, xs, xs, block, 0, nThreads)
  {
  }

  lemma PackBelowStep<T>(G: Group<T>, xs: seq<T>, ys: seq<T>, zs: seq<T>, block: nat, i: nat, nThreads: nat)
    requires PackedBelow(G, xs, ys, block, i, nThreads) && Packed(G, ys, zs, block, i, nThreads)
    ensures PackedBelow(G, xs, zs, block, i + 1, nThreads)
  {
    SameColumnSum(G, xs, ys, block, i, nThreads, nThreads);
    hide ColumnSum;
    forall p | 0 <= p < |xs| ensures zs[p] == PackedBelowAt(G, xs, block, i + 1, nThreads, p) {
      assert zs[p] == PackedAt(G, ys, block, i, nThreads, p) && ys[p] == PackedBelowAt(G, xs, block, i, nThreads, p);
      ThreadOf(block, p, nThreads);
    }
  }

  lemma ThreadOf(block: nat, p: nat, nThreads: nat)
    requires 0 < block && p < nThreads * block
    ensures p / block < nThreads && (p < block ==> p % block == p)
    ensures p % block < block && (p >= block ==> p % block < p)
  {
    DivMod(p, block);
    if p < block { DivUnique(p, block, 0, p); }
  }

  /** A column that is not packed yet has the sum it had. */
  lemma {:induction false} SameColumnSum<T>(G: Group<T>, xs: seq<T>, ys: seq<T>, block: nat, i: nat, n: nat,
      nThreads: nat)
    requires PackedBelow(G, xs, ys, block, i, nThreads) && i < block && 1 <= n <= nThreads && n * block <= |xs|
    ensures ColumnSum(G, xs, block, i, n) == ColumnSum(G, ys, block, i, n)
  {
    ColumnBound(block, i, n, |xs|);
    IndexInBlock(n - 1, block, i, nThreads);
    assert ys[(n - 1) * block + i] == PackedBelowAt(G, xs, block, i, nThreads, (n - 1) * block + i);
    if n > 1 { SameColumnSum(G, xs, ys, block, i, n - 1, nThreads); }
  }

  lemma PackDone<T>(G: Group<T>, xs: seq<T>, ys: seq<T>, block: nat, nThreads: nat)
    requires PackedBelow(G, xs, ys, block, block, nThreads)
    ensures forall p :: 0 <= p < |xs| ==> ys[p] == if p < block then ColumnSum(G, xs, block, p, nThreads) else G.zero
  {
    hide ColumnSum;
    forall p | 0 <= p < |xs| ensures ys[p] == if p < block then ColumnSum(G, xs, block, p, nThreads) else G.zero {
      assert ys[p] == PackedBelowAt(G, xs, block, block, nThreads, p);
      ThreadOf(block, p, nThreads);
    }
  }

  /** A column of zeros sums to zero. */
  lemma {:induction false} ZeroColumn<T(!new)>(G: Group<T>, xs: seq<T>, block: nat, i: nat, n: nat)
    requires Abelian(G) && i < block && 1 <= n && n * block <= |xs|
    requires forall p :: 0 <= p < |xs| && p % block == i ==> xs[p] == G.zero
    ensures ColumnSum(G, xs, block, i, n) == G.zero
  {
    hide Abelian;
    ColumnBound(block, i, n, |xs|);
    DivUnique((n - 1) * block + i, block, n - 1, i);
    AddZero(G, G.zero);
    if n > 1 { ZeroColumn(G, xs, block, i, n - 1); }
  }

  lemma WeightedMove<T(!new)>(G: Group<T>, xs: seq<T>, block: nat, i: nat, q: nat)
    requires Abelian(G) && block > 0 && i < |xs| && q < |xs| && i != q && i % block == q % block
    ensures Weighted(G, xs[i := G.add(xs[i], xs[q])][q := G.zero], block) == Weighted(G, xs, block)
  {
    var w := Weights(|xs|, block);
    LinCombMove(G, w, xs, i, q);
    CancelNeg(G, LinComb(G, w, xs), Times(G, w[i], xs[q]));
    CancelNeg(G, LinComb(G, w, xs[i := G.add(xs[i], xs[q])][q := G.zero]), Times(G, w[q], xs[q]));
  }

  lemma OneAccumulator<T(!new)>(G: Group<T>, xs: seq<T>)
    requires Abelian(G) && |xs| == 2
    ensures LinComb(G, Indices(2), xs) == xs[1] && Pow2(1) == 2
  {
    var w := Indices(2);
    TimesOne(G, xs[1]);
    AddZero(G, xs[1]);
    AddZero(G, G.zero);
    assert xs[..1][..0] == [];
    assert LinComb(G, w[..1], xs[..1]) == G.zero;
  }

  lemma StartFold<T(!new)>(G: Group<T>, accs: seq<T>, half: nat, sall: seq<T>)
    requires Abelian(G) && 2 * half <= |accs| && AllZero(G, sall)
    ensures Potential(G, accs, half, sall) == LinComb(G, Indices(2 * half), accs[..2 * half])
  {
    SumZeros(G, sall);
    TimesZero(G, half);
    AddZero(G, LinComb(G, Indices(2 * half), accs[..2 * half]));
  }

  lemma SumPrefixes<T>(G: Group<T>, sall: seq<T>)
    ensures Sum(G, sall[..0]) == G.zero
  {
  }

  /** With the upper half cleared, what counts is the lower half and the middle. */
  lemma SplitAtHalf<T(!new)>(G: Group<T>, xs: seq<T>, half: nat)
    requires Abelian(G) && |xs| == 2 * half && half >= 1 && forall p :: half < p < 2 * half ==> xs[p] == G.zero
    ensures LinComb(G, Indices(2 * half), xs) ==
            G.add(LinComb(G, Indices(half), xs[..half]), Times(G, half, xs[half]))
  {
    var w := Indices(2 * half);
    LinCombPrefix(G, w, xs, half + 1);
    assert w[..half + 1][..half] == Indices(half) && xs[..half + 1][..half] == xs[..half];
  }

  lemma TimesOnce<T(!new)>(G: Group<T>, n: nat, x: T)
    requires Abelian(G)
    ensures G.add(Times(G, n, x), Times(G, n, x)) == Times(G, 2 * n, x)
  {
    TimesAdd(G, n, n, x);
  }

  lemma ChunkStarts(size: nat, bits: nat, c: nat)
    requires size >= 1 && bits >= 1 && c < (size * 8 - 1) / bits + 1
    ensures c * bits < 8 * size
  {
    var q := (size * 8 - 1) / bits;
    DivMod(size * 8 - 1, bits);
    assert (q - c) * bits >= 0;
    assert q * bits == (q - c) * bits + c * bits;
  }

  lemma ChunksEnd(size: nat, bits: nat)
    requires size >= 1 && bits >= 1
    ensures bits * ((size * 8 - 1) / bits + 1) >= 8 * size
  {
    var q := (size * 8 - 1) / bits;
    DivMod(size * 8 - 1, bits);
    assert bits * (q + 1) == q * bits + bits;
  }

  /** The top chunk is all there is above it. */
  lemma TopChunk(scalars: seq<seq<nat>>, size: nat, bits: nat, nChunks: nat)
    requires Scalars(scalars, size) && size >= 1 && bits >= 1 && nChunks == (size * 8 - 1) / bits + 1
    ensures Chunks(scalars, bits, nChunks - 1) == Shifted(scalars, bits * (nChunks - 1))
  {
    ChunksEnd(size, bits);
    forall i | 0 <= i < |scalars|
      ensures Chunk(LittleEndian(scalars[i]), bits, nChunks - 1) == Shr(LittleEndian(scalars[i]), bits * (nChunks - 1))
    {
      ChunkStep(LittleEndian(scalars[i]), bits, nChunks - 1);
      ScalarEnds(scalars[i], bits * nChunks);
    }
  }

  lemma ChunksAndShifted(scalars: seq<seq<nat>>, bits: nat, c: nat)
    ensures forall i :: 0 <= i < |scalars| ==>
      Shifted(scalars, bits * c)[i] == Chunks(scalars, bits, c)[i] + Pow2(bits) * Shifted(scalars, bits * (c + 1))[i]
  {
    forall i | 0 <= i < |scalars|
      ensures Shifted(scalars, bits * c)[i] == Chunks(scalars, bits, c)[i]
        + Pow2(bits) * Shifted(scalars, bits * (c + 1))[i]
    {
      ChunkStep(LittleEndian(scalars[i]), bits, c);
    }
  }

  lemma NotShifted(scalars: seq<seq<nat>>)
    ensures Shifted(scalars, 0) == Numbers(scalars)
  {
  }

  /** After merging the threads only the first block counts, weighted by plain indices. */
  lemma FirstBlock<T(!new)>(G: Group<T>, accs: seq<T>, block: nat)
    requires Abelian(G) && 0 < block <= |accs| && forall p :: block <= p < |accs| ==> accs[p] == G.zero
    ensures Weighted(G, accs, block) == LinComb(G, Indices(block), accs[..block])
  {
    var w := Weights(|accs|, block);
    LinCombPrefix(G, w, accs, block);
    forall p | 0 <= p < block ensures w[p] == p { DivUnique(p, block, 0, p); }
    assert w[..block] == Indices(block);
  }

  lemma SmallSums<T(!new)>(G: Group<T>, bases: seq<T>, scalars: seq<seq<nat>>)
    requires Abelian(G) && |bases| == |scalars|
    ensures |bases| == 0 ==> MultiExpSpec(G, bases, scalars) == G.zero
    ensures |bases| == 1 ==> MultiExpSpec(G, bases, scalars) == Times(G, LittleEndian(scalars[0]), bases[0])
  {
    if |bases| == 1 {
      var c := Numbers(scalars);
      assert LinComb(G, c[..0], bases[..0]) == G.zero;
      AddZero(G, Times(G, c[0], bases[0]));
    }
  }
}
