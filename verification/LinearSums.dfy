/** Sums of multiples of group elements, and how they react to updates of single elements. */
module LinearSums {
  import opened Groups

  /** Σ coefs[i] · xs[i] */
  function LinComb<T>(G: Group<T>, coefs: seq<nat>, xs: seq<T>): T
    requires |coefs| == |xs|
  {
    if xs == [] then G.zero
    else
      var n := |xs| - 1;
      G.add(LinComb(G, coefs[..n], xs[..n]), Times(G, coefs[n], xs[n]))
  }

  lemma {:induction false} LinCombUpdate<T(!new)>(G: Group<T>, coefs: seq<nat>, xs: seq<T>, p: nat, d: T)
    requires Abelian(G) && |coefs| == |xs| && p < |xs|
    ensures LinComb(G, coefs, xs[p := G.add(xs[p], d)]) == G.add(LinComb(G, coefs, xs), Times(G, coefs[p], d))
  {
    var n := |xs| - 1;
    var ys := xs[p := G.add(xs[p], d)];
    if p == n {
      assert ys[..n] == xs[..n];
      TimesOfSum(G, coefs[n], xs[n], d);
      Assoc(G, LinComb(G, coefs[..n], xs[..n]), Times(G, coefs[n], xs[n]), Times(G, coefs[n], d));
    } else {
      assert ys[..n] == xs[..n][p := G.add(xs[..n][p], d)];
      LinCombUpdate(G, coefs[..n], xs[..n], p, d);
      SwapLast(G, LinComb(G, coefs[..n], xs[..n]), Times(G, coefs[p], d), Times(G, coefs[n], xs[n]));
    }
  }

  /** Clearing an element takes its multiple away. */
  lemma LinCombClear<T(!new)>(G: Group<T>, coefs: seq<nat>, xs: seq<T>, p: nat)
    requires Abelian(G) && |coefs| == |xs| && p < |xs|
    ensures G.add(LinComb(G, coefs, xs[p := G.zero]), Times(G, coefs[p], xs[p])) == LinComb(G, coefs, xs)
  {
    LinCombUpdate(G, coefs, xs[p := G.zero], p, xs[p]);
    AddZero(G, xs[p]);
    assert xs[p := G.zero][p := xs[p]] == xs;
  }

  lemma {:induction false} LinCombZeros<T(!new)>(G: Group<T>, coefs: seq<nat>, xs: seq<T>)
    requires Abelian(G) && |coefs| == |xs| && forall i :: 0 <= i < |xs| ==> xs[i] == G.zero || coefs[i] == 0
    ensures LinComb(G, coefs, xs) == G.zero
  {
    if xs != [] {
      var n := |xs| - 1;
      LinCombZeros(G, coefs[..n], xs[..n]);
      TimesZero(G, coefs[n]);
      AddZero(G, G.zero);
    }
  }

  /** Zero elements at the end do not count. */
  lemma {:induction false} LinCombPrefix<T(!new)>(G: Group<T>, coefs: seq<nat>, xs: seq<T>, m: nat)
    requires Abelian(G) && |coefs| == |xs| && m <= |xs| && forall i :: m <= i < |xs| ==> xs[i] == G.zero
    ensures LinComb(G, coefs, xs) == LinComb(G, coefs[..m], xs[..m])
  {
    if m < |xs| {
      var n := |xs| - 1;
      LinCombPrefix(G, coefs[..n], xs[..n], m);
      assert coefs[..n][..m] == coefs[..m] && xs[..n][..m] == xs[..m];
      TimesZero(G, coefs[n]);
      AddZero(G, LinComb(G, coefs[..n], xs[..n]));
    } else {
      assert coefs[..m] == coefs && xs[..m] == xs;
    }
  }

  /** Multiplying all coefficients by `k` and adding others. */
  lemma {:induction false} LinCombHorner<T(
      !new)>(G: Group<T>, high: seq<nat>, low: seq<nat>, all: seq<nat>, k: nat, xs: seq<T>)
    requires Abelian(G) && |high| == |low| == |all| == |xs|
    requires forall i :: 0 <= i < |xs| ==> all[i] == low[i] + k * high[i]
    ensures LinComb(G, all, xs) == G.add(Times(G, k, LinComb(G, high, xs)), LinComb(G, low, xs))
  {
    if xs == [] {
      TimesZero(G, k);
      AddZero(G, G.zero);
    } else {
      var n := |xs| - 1;
      var x := xs[n];
      LinCombHorner(G, high[..n], low[..n], all[..n], k, xs[..n]);
      var h, l := LinComb(G, high[..n], xs[..n]), LinComb(G, low[..n], xs[..n]);
      TimesAdd(G, k * high[n], low[n], x);
      TimesOfTimes(G, k, high[n], x);
      Exchange(G, Times(G, k, h), l, Times(G, k * high[n], x), Times(G, low[n], x));
      TimesOfSum(G, k, h, Times(G, high[n], x));
    }
  }

  /** Σ xs[i] */
  function Sum<T>(G: Group<T>, xs: seq<T>): T {
    if xs == [] then G.zero else G.add(Sum(G, xs[..|xs| - 1]), xs[|xs| - 1])
  }

  lemma {:induction false} SumUpdate<T(!new)>(G: Group<T>, xs: seq<T>, p: nat, d: T)
    requires Abelian(G) && p < |xs|
    ensures Sum(G, xs[p := G.add(xs[p], d)]) == G.add(Sum(G, xs), d)
  {
    var n := |xs| - 1;
    var ys := xs[p := G.add(xs[p], d)];
    if p == n {
      assert ys[..n] == xs[..n];
      Assoc(G, Sum(G, xs[..n]), xs[n], d);
    } else {
      assert ys[..n] == xs[..n][p := G.add(xs[..n][p], d)];
      SumUpdate(G, xs[..n], p, d);
      SwapLast(G, Sum(G, xs[..n]), d, xs[n]);
    }
  }

  lemma {:induction false} SumZeros<T(!new)>(G: Group<T>, xs: seq<T>)
    requires Abelian(G) && forall i :: 0 <= i < |xs| ==> xs[i] == G.zero
    ensures Sum(G, xs) == G.zero
  {
    if xs != [] {
      SumZeros(G, xs[..|xs| - 1]);
      AddZero(G, G.zero);
    }
  }
}
