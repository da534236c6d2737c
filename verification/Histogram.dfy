/** The self-rescaling histogram of hcat (and, with linearity one, of timerTest). */
module Histograms {

  /** pow(., q) on non-negative reals, with its inverse pow(., 1/q). */
  datatype Power = Power(raise: real -> real, root: real -> real) {

    ghost predicate Monotone() {
      && raise(0.0) == 0.0 && raise(1.0) == 1.0
      && (forall x, y :: 0.0 <= x < y ==> raise(x) < raise(y))
    }

    ghost predicate Inverse() {
      forall x :: 0.0 <= x ==> root(x) >= 0.0 && raise(root(x)) == x
    }

    ghost predicate ProductAt(x: real, y: real) {
      0.0 <= x && 0.0 <= y ==> raise(x * y) == raise(x) * raise(y)
    }

    ghost predicate Multiplicative() {
      forall x, y :: ProductAt(x, y)
    }

    ghost predicate Valid() {
      Monotone() && Inverse() && Multiplicative()
    }
  }

  /** Linearity one, the setting of timerTest. */
  function Linear(): Power {
    Power(x => x, x => x)
  }

  lemma LinearIsPower()
    ensures Linear().Valid()
  {
    forall x, y ensures Linear().ProductAt(x, y) {
      assert Linear().raise(x * y) == x * y;
    }
  }

  datatype Bin = Bin(total: real, count: nat) {
    function Mean(): real
      requires count > 0
    {
      total / count as real
    }
  }

  function Ceil(x: real): int {
    -((-x).Floor)
  }

  function Clip(index: int, n: nat): int
    requires n > 0
  {
    if index > n - 1 then n - 1 else index
  }

  /** Bin of a value at the fraction `r` of the range of `n` bins. */
  function BinAt(p: Power, n: nat, r: real): int
    requires n > 0
  {
    Clip(Ceil((n - 1) as real * p.raise(r)), n)
  }

  /** Bin of a value in a histogram of `n` bins over [lo, hi]. */
  function Index(p: Power, n: nat, lo: real, hi: real, v: real): int
    requires n > 0 && lo < hi
  {
    BinAt(p, n, (v - lo) / (hi - lo))
  }

  /** The index as the rebinning loop computes it, from a scale fixed before the loop. */
  function ScaledBin(p: Power, n: nat, lo: real, scale: real, v: real): int
    requires n > 0
  {
    Clip(Ceil(scale * p.raise(v - lo)), n)
  }

  lemma DivMonotone(a: real, b: real, d: real)
    requires d > 0.0 && 0.0 <= a <= b
    ensures 0.0 <= a / d <= b / d
    ensures a / d * d == a
  {
  }

  lemma SelfRatio(k: real)
    requires k > 0.0
    ensures k / k == 1.0
  {
  }

  lemma RatioMonotone(lo: real, hi: real, v: real, w: real)
    requires lo < hi && lo <= v <= w <= hi
    ensures 0.0 <= (v - lo) / (hi - lo) <= (w - lo) / (hi - lo) <= 1.0
  {
    DivMonotone(v - lo, w - lo, hi - lo);
    DivMonotone(w - lo, hi - lo, hi - lo);
    SelfRatio(hi - lo);
  }

  lemma ScaleMonotone(k: real, a: real, b: real)
    requires 0.0 <= k && 0.0 <= a <= b
    ensures 0.0 <= k * a <= k * b
  {
  }

  lemma CeilMonotone(x: real, y: real)
    requires 0.0 <= x <= y
    ensures 0 <= Ceil(x) <= Ceil(y)
  {
  }

  lemma Scaled(k: real, a: real, b: real) returns (x: real, y: real)
    requires 0.0 <= k && 0.0 <= a <= b
    ensures x == k * a && y == k * b && 0.0 <= x <= y
  {
    x, y := k * a, k * b;
    ScaleMonotone(k, a, b);
  }

  lemma BinAtMonotone(p: Power, n: nat, r: real, s: real)
    requires p.Monotone() && n > 0 && 0.0 <= r <= s
    ensures 0 <= BinAt(p, n, r) <= BinAt(p, n, s) < n
  {
    hide *;
    RaiseMonotone(p, r, s);
    var x, y := Scaled((n - 1) as real, p.raise(r), p.raise(s));
    CeilMonotone(x, y);
    BinAtIs(p, n, r, x);
    BinAtIs(p, n, s, y);
    ClipMonotone(Ceil(x), Ceil(y), n);
  }

  lemma BinAtIs(p: Power, n: nat, r: real, x: real)
    requires n > 0 && x == (n - 1) as real * p.raise(r)
    ensures BinAt(p, n, r) == Clip(Ceil(x), n)
  {
  }

  lemma ClipMonotone(i: int, j: int, n: nat)
    requires n > 0 && 0 <= i <= j
    ensures 0 <= Clip(i, n) <= Clip(j, n) < n
  {
  }

  lemma IndexMonotone(p: Power, n: nat, lo: real, hi: real, v: real, w: real)
    requires p.Monotone() && n > 0 && lo < hi && lo <= v <= w <= hi
    ensures 0 <= Index(p, n, lo, hi, v) <= Index(p, n, lo, hi, w) < n
  {
    hide BinAt, Power.Monotone;
    RatioMonotone(lo, hi, v, w);
    BinAtMonotone(p, n, (v - lo) / (hi - lo), (w - lo) / (hi - lo));
  }

  lemma RaiseMonotone(p: Power, x: real, y: real)
    requires p.Monotone() && 0.0 <= x <= y
    ensures 0.0 <= p.raise(x) <= p.raise(y)
  {
    assert 0.0 < x ==> p.raise(0.0) < p.raise(x);
  }

  /** While rebinning, the code scales first and raises the unscaled distance: the same index. */
  lemma ScaledIndex(p: Power, n: nat, lo: real, hi: real, v: real)
    requires p.Valid() && n > 0 && lo < hi && lo <= v
    ensures p.raise(hi - lo) > 0.0
    ensures ScaledBin(p, n, lo, (n - 1) as real / p.raise(hi - lo), v) == Index(p, n, lo, hi, v)
  {
    hide *;
    var k, d := (n - 1) as real, hi - lo;
    var r := (v - lo) / d;
    ValidPower(p);
    RatioTimes(v - lo, d);
    RaisePositive(p, d);
    RaiseProduct(p, r, d, v - lo);
    var scale := k / p.raise(d);
    ScaleCancels(k, p.raise(d), p.raise(r), p.raise(v - lo), scale);
    IndexIs(p, n, lo, hi, v, r, k * p.raise(r));
    ScaledBinIs(p, n, lo, scale, v, k * p.raise(r));
  }

  lemma ValidPower(p: Power)
    requires p.Valid()
    ensures p.Monotone() && p.Multiplicative()
  {
  }

  lemma IndexIs(p: Power, n: nat, lo: real, hi: real, v: real, r: real, x: real)
    requires n > 0 && lo < hi && r == (v - lo) / (hi - lo) && x == (n - 1) as real * p.raise(r)
    ensures Index(p, n, lo, hi, v) == Clip(Ceil(x), n)
  {
  }

  lemma ScaledBinIs(p: Power, n: nat, lo: real, scale: real, v: real, x: real)
    requires n > 0 && x == scale * p.raise(v - lo)
    ensures ScaledBin(p, n, lo, scale, v) == Clip(Ceil(x), n)
  {
  }

  lemma RaisePositive(p: Power, d: real)
    requires p.Monotone() && d > 0.0
    ensures p.raise(d) > 0.0
  {
    assert p.raise(0.0) < p.raise(d);
  }

  lemma RatioTimes(x: real, d: real)
    requires d > 0.0 && x >= 0.0
    ensures x / d * d == x && x / d >= 0.0
  {
  }

  lemma RaiseProduct(p: Power, x: real, y: real, z: real)
    requires p.Multiplicative() && 0.0 <= x && 0.0 <= y && z == x * y
    ensures p.raise(z) == p.raise(x) * p.raise(y)
  {
    assert p.ProductAt(x, y);
  }

  lemma ScaleCancels(k: real, d: real, r: real, product: real, scale: real)
    requires d > 0.0 && product == r * d && scale == k / d
    ensures scale * product == k * r
  {
    assert scale * d == k;
    assert scale * product == (scale * d) * r;
  }

  /** Every non-empty bin holds values whose mean belongs to it. In a range of one point all means
      coincide, so there any bin will do. */
  ghost predicate Placed(p: Power, bins: seq<Bin>, lo: real, hi: real) {
    && |bins| > 0 && lo <= hi
    && forall i :: 0 <= i < |bins| ==> PlacedBin(p, |bins|, lo, hi, i, bins[i])
  }

  ghost predicate PlacedBin(p: Power, n: nat, lo: real, hi: real, i: int, b: Bin)
    requires n > 0 && lo <= hi
  {
    && (b.count == 0 ==> b.total == 0.0)
    && (b.count > 0 ==> lo <= b.Mean() <= hi && (lo < hi ==> Index(p, n, lo, hi, b.Mean()) == i))
  }

  function Merge(b: Bin, total: real, count: nat): Bin {
    Bin(b.total + total, b.count + count)
  }

  /** The mean of two groups lies between their means. */
  lemma Mediant(b: Bin, total: real, count: nat)
    requires b.count > 0 && count > 0
    ensures var m, x, y := Merge(b, total, count).Mean(), b.Mean(), total / count as real;
            (x <= m <= y) || (y <= m <= x)
  {
    var x, y := b.Mean(), total / count as real;
    var c, d := b.count as real, count as real;
    var m := (b.total + total) / (c + d);
    assert b.total == x * c && total == y * d;
    assert m * (c + d) == x * c + y * d;
    Between(m, x, y, c, d);
  }

  lemma Between(m: real, x: real, y: real, c: real, d: real)
    requires c > 0.0 && d > 0.0 && m * (c + d) == x * c + y * d
    ensures x <= y ==> x <= m <= y
    ensures y <= x ==> y <= m <= x
  {
    assert (m - x) * (c + d) == (y - x) * d;
    assert (m - y) * (c + d) == (x - y) * c;
  }

  lemma MergePlaced(p: Power, n: nat, lo: real, hi: real, i: int, b: Bin, total: real, count: nat)
    requires p.Monotone() && n > 0 && lo <= hi && PlacedBin(p, n, lo, hi, i, b)
    requires PlacedBin(p, n, lo, hi, i, Bin(total, count))
    ensures PlacedBin(p, n, lo, hi, i, Merge(b, total, count))
  {
    if b.count > 0 && count > 0 {
      Mediant(b, total, count);
      var m, x, y := Merge(b, total, count).Mean(), b.Mean(), Bin(total, count).Mean();
      if lo < hi {
        if x <= y {
          IndexMonotone(p, n, lo, hi, x, m);
          IndexMonotone(p, n, lo, hi, m, y);
        } else {
          IndexMonotone(p, n, lo, hi, y, m);
          IndexMonotone(p, n, lo, hi, m, x);
        }
      }
    }
  }

  /** Non-empty bins are in order of their means: what the early break of CountInRange relies on. */
  lemma MeansOrdered(p: Power, bins: seq<Bin>, lo: real, hi: real, i: nat, j: nat)
    requires p.Monotone() && Placed(p, bins, lo, hi)
    requires i < j < |bins| && bins[i].count > 0 && bins[j].count > 0
    ensures bins[i].Mean() <= bins[j].Mean()
    ensures lo < hi ==> bins[i].Mean() < bins[j].Mean()
  {
    assert PlacedBin(p, |bins|, lo, hi, i, bins[i]) && PlacedBin(p, |bins|, lo, hi, j, bins[j]);
    if lo < hi && bins[j].Mean() <= bins[i].Mean() {
      IndexMonotone(p, |bins|, lo, hi, bins[j].Mean(), bins[i].Mean());
      assert false;
    }
  }

  function CountOf(bins: seq<Bin>): nat {
    if bins == [] then 0 else CountOf(bins[..|bins| - 1]) + bins[|bins| - 1].count
  }

  function SumOf(bins: seq<Bin>): real {
    if bins == [] then 0.0 else SumOf(bins[..|bins| - 1]) + bins[|bins| - 1].total
  }

  /** Count of the bins whose mean lies in [from, to]. */
  function InRange(bins: seq<Bin>, from: real, to: real): nat {
    if bins == [] then 0
    else
      var last := bins[|bins| - 1];
      InRange(bins[..|bins| - 1], from, to) +
      if last.count > 0 && from <= last.Mean() <= to then last.count else 0
  }

  lemma {:induction false} MergeSums(bins: seq<Bin>, i: nat, total: real, count: nat)
    requires i < |bins|
    ensures CountOf(bins[i := Merge(bins[i], total, count)]) == CountOf(bins) + count
    ensures SumOf(bins[i := Merge(bins[i], total, count)]) == SumOf(bins) + total
  {
    var merged := bins[i := Merge(bins[i], total, count)];
    if i == |bins| - 1 {
      assert merged[..|bins| - 1] == bins[..|bins| - 1];
    } else {
      MergeSums(bins[..|bins| - 1], i, total, count);
      assert merged[..|bins| - 1] == bins[..|bins| - 1][i := Merge(bins[i], total, count)];
    }
  }

  lemma {:induction false} EmptySums(bins: seq<Bin>)
    requires forall i :: 0 <= i < |bins| ==> bins[i] == Bin(0.0, 0)
    ensures CountOf(bins) == 0 && SumOf(bins) == 0.0
  {
    if bins != [] {
      EmptySums(bins[..|bins| - 1]);
    }
  }

  lemma MergeIntoBins(p: Power, bins: seq<Bin>, lo: real, hi: real, i: nat, total: real, count: nat)
    requires p.Monotone() && Placed(p, bins, lo, hi) && i < |bins|
    requires PlacedBin(p, |bins|, lo, hi, i, Bin(total, count))
    ensures Placed(p, bins[i := Merge(bins[i], total, count)], lo, hi)
  {
    MergePlaced(p, |bins|, lo, hi, i, bins[i], total, count);
  }

  /** A tallied value belongs into the bin the code computes for it. */
  lemma ValuePlaced(p: Power, n: nat, lo: real, hi: real, i: int, value: real, count: nat)
    requires n > 0 && lo <= value <= hi && (lo < hi ==> i == Index(p, n, lo, hi, value))
    ensures PlacedBin(p, n, lo, hi, i, Bin(value * count as real, count))
  {
    if count > 0 {
      MeanOfProduct(value, count);
    }
  }

  lemma MeanOfProduct(value: real, count: nat)
    requires count > 0
    ensures Bin(value * count as real, count).Mean() == value
  {
  }

  lemma LowestIndex(p: Power, n: nat, lo: real, hi: real)
    requires p.Monotone() && n > 0 && lo < hi
    ensures Index(p, n, lo, hi, lo) == 0
  {
    assert (lo - lo) / (hi - lo) == 0.0;
  }

  /** A bin keeps its place when its mean is re-indexed for a wider range. */
  lemma ReplacedBin(p: Power, n: nat, lo: real, hi: real, scale: real, b: Bin)
    requires p.Valid() && n > 0 && lo < hi && b.count > 0 && lo <= b.Mean() <= hi
    requires p.raise(hi - lo) != 0.0 && scale == (n - 1) as real / p.raise(hi - lo)
    ensures 0 <= ScaledBin(p, n, lo, scale, b.Mean()) < n
    ensures PlacedBin(p, n, lo, hi, ScaledBin(p, n, lo, scale, b.Mean()), b)
  {
    hide Index, ScaledBin, Power.Monotone, Power.Multiplicative;
    ScaledIndex(p, n, lo, hi, b.Mean());
    IndexMonotone(p, n, lo, hi, b.Mean(), b.Mean());
  }

  lemma WiderBin(p: Power, n: nat, lo: real, hi: real, i: int, b: Bin, wideLo: real, wideHi: real)
    requires n > 0 && lo <= hi && PlacedBin(p, n, lo, hi, i, b) && wideLo <= lo && hi <= wideHi
    ensures b.count == 0 ==> b.total == 0.0
    ensures b.count > 0 ==> wideLo <= b.Mean() <= wideHi
  {
  }

  lemma InOwnBin(p: Power, bins: seq<Bin>, lo: real, hi: real, i: nat)
    requires Placed(p, bins, lo, hi) && i < |bins|
    ensures lo <= hi && PlacedBin(p, |bins|, lo, hi, i, bins[i])
    ensures bins[i].count > 0 ==>
              lo <= bins[i].Mean() <= hi && (lo < hi ==> Index(p, |bins|, lo, hi, bins[i].Mean()) == i)
  {
    assert PlacedBin(p, |bins|, lo, hi, i, bins[i]);
  }

  lemma PrefixSums(bins: seq<Bin>, i: nat)
    requires i < |bins|
    ensures CountOf(bins[..i + 1]) == CountOf(bins[..i]) + bins[i].count
    ensures SumOf(bins[..i + 1]) == SumOf(bins[..i]) + bins[i].total
    ensures CountOf(bins[..0]) == 0 && SumOf(bins[..0]) == 0.0
  {
    assert bins[..i + 1][..i] == bins[..i];
  }

  lemma EmptyPlaced(p: Power, bins: seq<Bin>, lo: real, hi: real)
    requires |bins| > 0 && lo <= hi && forall i :: 0 <= i < |bins| ==> bins[i] == Bin(0.0, 0)
    ensures Placed(p, bins, lo, hi) && CountOf(bins) == 0 && SumOf(bins) == 0.0
  {
    EmptySums(bins);
  }

  /** Once a mean is beyond the range, no later bin can be inside it. */
  lemma {:induction false} NothingBeyond(p: Power, bins: seq<Bin>, lo: real, hi: real, from: real, to: real,
                                         i: nat, k: nat)
    requires p.Monotone() && Placed(p, bins, lo, hi) && i < k <= |bins|
    requires bins[i].count > 0 && bins[i].Mean() > to
    ensures InRange(bins[..k], from, to) == InRange(bins[..i], from, to)
    decreases k
  {
    assert bins[..k][..k - 1] == bins[..k - 1];
    if k - 1 > i {
      NothingBeyond(p, bins, lo, hi, from, to, i, k - 1);
      if bins[k - 1].count > 0 {
        MeansOrdered(p, bins, lo, hi, i, k - 1);
      }
    }
  }

  lemma PrefixInRange(bins: seq<Bin>, i: nat, from: real, to: real)
    requires i < |bins|
    ensures var b := bins[i];
            InRange(bins[..i + 1], from, to) ==
            InRange(bins[..i], from, to) + if b.count > 0 && from <= b.Mean() <= to then b.count else 0
    ensures InRange(bins[..0], from, to) == 0
  {
    assert bins[..i + 1][..i] == bins[..i];
  }

  /** The bin at which the running count first reaches `goal`, or |bins| if it never does. */
  function Reaching(bins: seq<Bin>, goal: nat): (i: nat)
    ensures i <= |bins|
    ensures i < |bins| ==> CountOf(bins[..i + 1]) >= goal
    ensures forall j :: 0 < j <= i ==> CountOf(bins[..j]) < goal
  {
    if bins == [] then 0
    else
      var front := bins[..|bins| - 1];
      var i := Reaching(front, goal);
      assert forall j :: 0 < j <= |front| ==> front[..j] == bins[..j];
      assert bins[..|bins|] == bins;
      if i < |front| then i else if CountOf(bins) >= goal then |bins| - 1 else |bins|
  }

  /** Upper edge of bin `i`. */
  function Edge(p: Power, n: nat, lo: real, hi: real, i: nat): real
    requires n > 1
  {
    p.root(i as real / (n - 1) as real) * (hi - lo) + lo
  }

  /** Rounding by conversion to unsigned, which truncates; it is defined only above -1. */
  function Round(x: real): nat {
    if x + 0.5 < 0.0 then 0 else (x + 0.5).Floor
  }

  predicate Convertible(count: nat, q: real) {
    count as real * q + 0.5 > -1.0
  }

  /** Every fraction from 0 on has a goal; a negative one as long as it asks for fewer than 1.5 values. */
  lemma ConvertibleIs(count: nat, q: real)
    ensures q >= 0.0 ==> Convertible(count, q)
    ensures Convertible(count, q) <==> count as real * -q < 1.5
  {
    var product := count as real * q;
    assert Convertible(count, q) <==> product + 0.5 > -1.0;
    hide *;
    NegativeProduct(count as real, q);
  }

  lemma NegativeProduct(n: real, q: real)
    requires n >= 0.0
    ensures n * -q == -(n * q) && (q >= 0.0 ==> n * q >= 0.0)
  {
  }

  function Goal(count: nat, q: real): nat {
    Round(count as real * q)
  }

  function PercentileOf(p: Power, bins: seq<Bin>, lo: real, hi: real, q: real): real
    requires |bins| > 1
  {
    var i := Reaching(bins, Goal(CountOf(bins), q));
    if i < |bins| then Edge(p, |bins|, lo, hi, i) else hi
  }

  lemma RootMonotone(p: Power, x: real, y: real)
    requires p.Valid() && 0.0 <= x <= y
    ensures 0.0 <= p.root(x) <= p.root(y)
  {
    hide Power.Multiplicative;
    assert p.raise(p.root(x)) == x && p.raise(p.root(y)) == y;
    if p.root(y) < p.root(x) {
      assert false;
    }
  }

  /** A value lies below the upper edge of bin `i` exactly when its bin is at most `i`. */
  lemma IndexVsEdge(p: Power, n: nat, lo: real, hi: real, v: real, i: nat)
    requires p.Valid() && n > 1 && lo < hi && lo <= v <= hi && i < n
    ensures Index(p, n, lo, hi, v) <= i <==> v <= Edge(p, n, lo, hi, i)
  {
    hide *;
    var k, d := (n - 1) as real, hi - lo;
    var r, e := (v - lo) / d, i as real / k;
    RatioMonotone(lo, hi, v, hi);
    RatioTimes(v - lo, d);
    DivMonotone(i as real, k, k);
    RaiseVsRoot(p, r, e);
    IndexVsRaised(p, n, lo, hi, v, i);
    EdgeIs(p, n, lo, hi, i);
    var root := p.root(e);
    TimesMonotone(r, root, d);
    assert Edge(p, n, lo, hi, i) == root * d + lo;
    assert v == r * d + lo;
    assert v <= Edge(p, n, lo, hi, i) <==> r * d <= root * d;
  }

  lemma IndexVsRaised(p: Power, n: nat, lo: real, hi: real, v: real, i: nat)
    requires n > 1 && lo < hi && i < n && 0.0 <= p.raise((v - lo) / (hi - lo)) <= 1.0
    ensures Index(p, n, lo, hi, v) <= i <==> p.raise((v - lo) / (hi - lo)) <= i as real / (n - 1) as real
  {
    var k := (n - 1) as real;
    var x, e := p.raise((v - lo) / (hi - lo)), i as real / k;
    assert e * k == i as real;
    CeilVsBound(k, x, e, i);
    hide Ceil;
    assert k.Floor == n - 1;
    assert Index(p, n, lo, hi, v) == Ceil(k * x);
  }

  lemma EdgeIs(p: Power, n: nat, lo: real, hi: real, i: nat)
    requires n > 1
    ensures Edge(p, n, lo, hi, i) == p.root(i as real / (n - 1) as real) * (hi - lo) + lo
  {
  }

  lemma RaiseVsRoot(p: Power, r: real, e: real)
    requires p.Valid() && 0.0 <= r <= 1.0 && 0.0 <= e
    ensures 0.0 <= p.raise(r) <= 1.0
    ensures r <= p.root(e) <==> p.raise(r) <= e
  {
    hide Power.Multiplicative;
    assert p.raise(p.root(e)) == e;
  }

  lemma TimesMonotone(x: real, y: real, d: real)
    requires d > 0.0
    ensures x <= y <==> x * d <= y * d
  {
  }

  lemma CeilVsBound(k: real, x: real, e: real, i: nat)
    requires k >= 1.0 && k == k.Floor as real && 0.0 <= x <= 1.0 && e * k == i as real
    ensures Ceil(k * x) <= i <==> x <= e
    ensures Ceil(k * x) <= k.Floor
  {
    TimesMonotone(x, e, k);
    TimesMonotone(x, 1.0, k);
  }

  /** Up to the edge of bin `i` lie the bins 0 to i and, unless the range is one point, no others. */
  lemma {:induction false} UpToEdge(p: Power, bins: seq<Bin>, lo: real, hi: real, i: nat, k: nat)
    requires p.Valid() && |bins| > 1 && Placed(p, bins, lo, hi) && i < |bins| && k <= |bins|
    ensures InRange(bins[..k], lo, Edge(p, |bins|, lo, hi, i)) ==
            if lo < hi && k > i then CountOf(bins[..i + 1]) else CountOf(bins[..k])
    decreases k
  {
    if k > 0 {
      hide *;
      var j := k - 1;
      UpToEdge(p, bins, lo, hi, i, j);
      PrefixInRange(bins, j, lo, Edge(p, |bins|, lo, hi, i));
      PrefixSums(bins, j);
      BinUpToEdge(p, bins, lo, hi, i, j);
      var b := bins[j];
      if b.count > 0 && j > i && lo < hi {
        assert !(lo <= b.Mean() <= Edge(p, |bins|, lo, hi, i));
      }
    }
  }

  lemma BinUpToEdge(p: Power, bins: seq<Bin>, lo: real, hi: real, i: nat, k: nat)
    requires p.Valid() && |bins| > 1 && Placed(p, bins, lo, hi) && i < |bins| && k < |bins|
    ensures lo <= hi
    ensures bins[k].count > 0 ==>
              (lo <= bins[k].Mean() <= Edge(p, |bins|, lo, hi, i) <==> lo == hi || k <= i)
  {
    hide *;
    InOwnBin(p, bins, lo, hi, k);
    if bins[k].count > 0 {
      if lo < hi {
        IndexVsEdge(p, |bins|, lo, hi, bins[k].Mean(), i);
      } else {
        PointEdge(p, |bins|, lo, i);
      }
    }
  }

  lemma PointEdge(p: Power, n: nat, lo: real, i: nat)
    requires n > 1
    ensures Edge(p, n, lo, lo, i) == lo
  {
  }

  lemma RoundMonotone(x: real, y: real)
    requires x <= y
    ensures Round(x) <= Round(y)
  {
  }

  lemma RoundWhole(n: nat)
    ensures Round(n as real) == n
  {
  }

  lemma Products(n: real, q: real, r: real) returns (a: real, b: real)
    requires 0.0 <= n && q <= r
    ensures a == n * q && b == n * r && a <= b && (r <= 1.0 ==> b <= n)
  {
    a, b := n * q, n * r;
    ScaleMonotone(n, 0.0, r - q);
    assert b - a == n * (r - q);
    if r <= 1.0 {
      ScaleMonotone(n, 0.0, 1.0 - r);
      assert n - b == n * (1.0 - r);
    }
  }

  lemma GoalBounds(count: nat, q: real, r: real)
    requires q <= r
    ensures Goal(count, q) <= Goal(count, r)
    ensures r <= 1.0 ==> Goal(count, r) <= count
  {
    hide *;
    var a, b := Products(count as real, q, r);
    GoalIs(count, q, a);
    GoalIs(count, r, b);
    RoundMonotone(a, b);
    if r <= 1.0 {
      RoundMonotone(b, count as real);
      RoundWhole(count);
    }
  }

  lemma GoalIs(count: nat, q: real, product: real)
    requires product == count as real * q
    ensures Goal(count, q) == Round(product)
  {
  }

  /** The percentile reaches the rounded goal, and every earlier bin edge falls short of it. */
  lemma PercentileReachesGoal(p: Power, bins: seq<Bin>, lo: real, hi: real, q: real)
    requires p.Valid() && |bins| > 1 && Placed(p, bins, lo, hi) && q <= 1.0
    ensures var goal, i := Goal(CountOf(bins), q), Reaching(bins, Goal(CountOf(bins), q));
            && InRange(bins, lo, PercentileOf(p, bins, lo, hi, q)) >= goal
            && i < |bins| && (i > 0 ==> CountOf(bins[..i]) < goal)
            && (lo < hi ==> forall j :: 0 <= j < i ==> InRange(bins, lo, Edge(p, |bins|, lo, hi, j)) < goal)
  {
    hide Power.Valid, Placed;
    GoalBounds(CountOf(bins), q, q);
    var goal := Goal(CountOf(bins), q);
    var i := Reaching(bins, goal);
    assert bins[..|bins|] == bins;
    UpToEdge(p, bins, lo, hi, i, |bins|);
    if lo == hi {
      assert i < |bins|;
    }
    if lo < hi {
      forall j | 0 <= j < i ensures InRange(bins, lo, Edge(p, |bins|, lo, hi, j)) < goal {
        UpToEdge(p, bins, lo, hi, j, |bins|);
        assert CountOf(bins[..j + 1]) < goal;
      }
    }
  }

  /** `x` splits the values at `mark`: it is the first edge up to which more than `mark` of them lie. A
      negative mark gives the lower end, and one that all values do not exceed the upper end. */
  ghost predicate Splits(p: Power, bins: seq<Bin>, lo: real, hi: real, mark: real, x: real)
    requires |bins| > 1
  {
    if mark < 0.0 then x == lo
    else if mark >= CountOf(bins) as real then x == hi
    else
      && InRange(bins, lo, x) as real > mark
      && (exists i :: 0 <= i < |bins| && x == Edge(p, |bins|, lo, hi, i))
      && (lo < hi ==> forall j :: 0 <= j < |bins| && Edge(p, |bins|, lo, hi, j) < x ==>
                        InRange(bins, lo, Edge(p, |bins|, lo, hi, j)) as real <= mark)
  }

  lemma {:induction false} CountGrows(bins: seq<Bin>, i: nat, j: nat)
    requires i <= j <= |bins|
    ensures CountOf(bins[..i]) <= CountOf(bins[..j])
    decreases j
  {
    if i < j {
      CountGrows(bins, i, j - 1);
      PrefixSums(bins, j - 1);
    }
  }

  /** Rounding to the nearest whole number, halves upwards. */
  lemma RoundToNearest(x: real)
    requires x >= -0.5
    ensures Round(x) as real - 0.5 <= x < Round(x) as real + 0.5
  {
  }

  lemma LowestEdge(p: Power, n: nat, lo: real, hi: real)
    requires p.Valid() && n > 1
    ensures Edge(p, n, lo, hi, 0) == lo
  {
    hide Power.Multiplicative;
    assert p.raise(p.root(0.0)) == 0.0;
    assert p.root(0.0) == 0.0;
    assert 0 as real / (n - 1) as real == 0.0;
  }

  lemma EdgeSplits(p: Power, bins: seq<Bin>, lo: real, hi: real, mark: real, goal: nat)
    requires p.Valid() && |bins| > 1 && Placed(p, bins, lo, hi) && 0.0 <= mark < CountOf(bins) as real
    requires goal as real - 1.0 <= mark < goal as real
    ensures Reaching(bins, goal) < |bins|
    ensures Splits(p, bins, lo, hi, mark, Edge(p, |bins|, lo, hi, Reaching(bins, goal)))
  {
    hide Power.Valid, Placed, Edge;
    var i := Reaching(bins, goal);
    assert bins[..|bins|] == bins;
    assert CountOf(bins) >= goal;
    assert i < |bins|;
    var x := Edge(p, |bins|, lo, hi, i);
    UpToEdge(p, bins, lo, hi, i, |bins|);
    forall j | lo < hi && 0 <= j < |bins| && Edge(p, |bins|, lo, hi, j) < x
      ensures InRange(bins, lo, Edge(p, |bins|, lo, hi, j)) as real <= mark
    {
      if j >= i {
        EdgeMonotone(p, |bins|, lo, hi, i, j);
      }
      UpToEdge(p, bins, lo, hi, j, |bins|);
      assert CountOf(bins[..j + 1]) < goal;
    }
  }

  /** The split at n*q - 1/2, for `n` values in all. */
  ghost predicate SplitsAt(p: Power, bins: seq<Bin>, lo: real, hi: real, q: real, x: real)
    requires |bins| > 1
  {
    Splits(p, bins, lo, hi, CountOf(bins) as real * q - 0.5, x)
  }

  lemma SplitsAtIs(p: Power, bins: seq<Bin>, lo: real, hi: real, q: real, x: real, product: real)
    requires |bins| > 1 && product == CountOf(bins) as real * q && Splits(p, bins, lo, hi, product - 0.5, x)
    ensures SplitsAt(p, bins, lo, hi, q, x)
  {
    hide Splits, CountOf;
    assert product - 0.5 == CountOf(bins) as real * q - 0.5;
  }

  /** For every fraction q the percentile splits the n values at n*q - 1/2, ties included. */
  lemma PercentileSplits(p: Power, bins: seq<Bin>, lo: real, hi: real, q: real)
    requires p.Valid() && |bins| > 1 && Placed(p, bins, lo, hi)
    ensures SplitsAt(p, bins, lo, hi, q, PercentileOf(p, bins, lo, hi, q))
  {
    hide Power.Valid, Placed, Edge, Goal, Round, Splits, SplitsAt, CountOf, Reaching;
    var product := CountOf(bins) as real * q;
    GoalIs(CountOf(bins), q, product);
    SplitsFrom(p, bins, lo, hi, product, Goal(CountOf(bins), q));
    SplitsAtIs(p, bins, lo, hi, q, PercentileOf(p, bins, lo, hi, q), product);
  }

  /** A goal of zero is reached at once. */
  lemma {:induction false} ReachingZero(bins: seq<Bin>)
    requires bins != []
    ensures Reaching(bins, 0) == 0
  {
    if |bins| > 1 {
      ReachingZero(bins[..|bins| - 1]);
    }
  }

  lemma SplitsFrom(p: Power, bins: seq<Bin>, lo: real, hi: real, product: real, goal: nat)
    requires p.Valid() && |bins| > 1 && Placed(p, bins, lo, hi) && goal == Round(product)
    ensures var i := Reaching(bins, goal);
            Splits(p, bins, lo, hi, product - 0.5, if i < |bins| then Edge(p, |bins|, lo, hi, i) else hi)
  {
    hide Power.Valid, Placed, Edge;
    assert bins[..|bins|] == bins;
    var i, mark := Reaching(bins, goal), product - 0.5;
    if mark < 0.0 {
      LowestEdge(p, |bins|, lo, hi);
      ReachingZero(bins);
    } else {
      RoundToNearest(product);
      hide Round;
      if mark < CountOf(bins) as real {
        EdgeSplits(p, bins, lo, hi, mark, goal);
      } else if i < |bins| {
        CountGrows(bins, i + 1, |bins|);
        assert false;
      }
    }
  }

  lemma EdgeMonotone(p: Power, n: nat, lo: real, hi: real, i: nat, j: nat)
    requires p.Valid() && n > 1 && lo <= hi && i <= j < n
    ensures lo <= Edge(p, n, lo, hi, i) <= Edge(p, n, lo, hi, j) <= hi
  {
    hide *;
    var k, d := (n - 1) as real, hi - lo;
    EdgeIs(p, n, lo, hi, i);
    EdgeIs(p, n, lo, hi, j);
    DivMonotone(i as real, j as real, k);
    DivMonotone(j as real, k, k);
    SelfRatio(k);
    RootMonotone(p, i as real / k, j as real / k);
    RootAtMostOne(p, j as real / k);
    EdgeBetween(lo, d, p.root(i as real / k), p.root(j as real / k));
    var x, y := p.root(i as real / k), p.root(j as real / k);
    assert y * d + lo <= d + lo;
    assert Edge(p, n, lo, hi, j) == y * d + lo;
    assert Edge(p, n, lo, hi, j) <= d + lo;
  }

  lemma EdgeBetween(lo: real, d: real, x: real, y: real)
    requires 0.0 <= d && 0.0 <= x <= y <= 1.0
    ensures lo <= x * d + lo <= y * d + lo <= d + lo
  {
  }

  lemma RootAtMostOne(p: Power, x: real)
    requires p.Valid() && 0.0 <= x <= 1.0
    ensures 0.0 <= p.root(x) <= 1.0
  {
    hide Power.Multiplicative;
    assert p.raise(p.root(x)) == x;
  }

  /** Percentiles grow with the fraction asked for. */
  lemma PercentileMonotone(p: Power, bins: seq<Bin>, lo: real, hi: real, q: real, r: real)
    requires p.Valid() && |bins| > 1 && lo <= hi && q <= r
    ensures PercentileOf(p, bins, lo, hi, q) <= PercentileOf(p, bins, lo, hi, r)
  {
    hide Power.Valid, Edge;
    GoalBounds(CountOf(bins), q, r);
    var i, j := Reaching(bins, Goal(CountOf(bins), q)), Reaching(bins, Goal(CountOf(bins), r));
    if j < |bins| {
      if i > j {
        assert false;
      }
      EdgeMonotone(p, |bins|, lo, hi, i, j);
    } else if i < |bins| {
      EdgeMonotone(p, |bins|, lo, hi, i, i);
    }
  }

  /** Three values in three bins over [0, 10]: the fraction 1/2 asks for 1.5 values, which is rounded
      up, so the answer is the middle of the range. */
  lemma MedianOfThree(bins: seq<Bin>)
    requires bins == [Bin(0.0, 1), Bin(5.0, 1), Bin(10.0, 1)]
    ensures Placed(Linear(), bins, 0.0, 10.0)
    ensures PercentileOf(Linear(), bins, 0.0, 10.0, 0.5) == 5.0
  {
    ThirdsOfTen();
    assert forall i :: 0 <= i < 3 ==> PlacedBin(Linear(), 3, 0.0, 10.0, i, bins[i]);
    hide Index, Power.Valid, Placed;
    assert CountOf(bins[..1]) == 1;
    assert CountOf(bins[..2]) == 2 by {
      assert bins[..2][..1] == bins[..1];
    }
    assert CountOf(bins) == 3 by {
      assert bins[..2] == bins[..|bins| - 1];
    }
    assert Goal(3, 0.5) == 2;
    assert Reaching(bins, 2) == 1 by {
      hide CountOf;
    }
    assert Edge(Linear(), 3, 0.0, 10.0, 1) == 5.0;
  }

  /** Bins 0, 1 and 2 end at 0, 5 and 10. */
  lemma ThirdsOfTen()
    ensures Index(Linear(), 3, 0.0, 10.0, 0.0) == 0 && Index(Linear(), 3, 0.0, 10.0, 0.1) == 1
    ensures Index(Linear(), 3, 0.0, 10.0, 5.0) == 1 && Index(Linear(), 3, 0.0, 10.0, 5.1) == 2
    ensures Index(Linear(), 3, 0.0, 10.0, 10.0) == 2
  {
  }

  lemma ValidIs(h: Histogram)
    ensures h.Valid() <==>
            && h.power.Valid() && h.numBins > 0
            && (h.bin != null ==> h.bin.Length == h.numBins && Placed(h.power, h.bin[..], h.minVal, h.maxVal))
    ensures h.power.Valid() ==> h.power.Monotone()
    ensures h.bin != null ==> h.Bins() == h.bin[..]
  {
  }

  /** The range after a tally: a new maximum is overshot, so that growing values rebin rarely. */
  function Reach(lo: real, hi: real, value: real): (range: (real, real))
    ensures lo <= hi ==> range.0 <= lo && hi <= range.1 && range.0 <= value <= range.1
  {
    if value < lo then (value, hi)
    else if value > hi then (lo, if value < 0.0 then 0.5 * value else 2.0 * value)
    else (lo, hi)
  }

  lemma ReachOutside(lo: real, hi: real, value: real)
    requires lo <= hi && (value < lo || value > hi)
    ensures Reach(lo, hi, value) ==
            if value < lo then (value, hi) else (lo, if value < 0.0 then 0.5 * value else 2.0 * value)
    ensures Reach(lo, hi, value).0 < Reach(lo, hi, value).1
  {
  }

  lemma ClipRange(index: nat, n: nat)
    requires n > 0
    ensures 0 <= Clip(index, n) < n
  {
  }

  class Histogram {
    const power: Power
    const numBins: nat
    var bin: array?<Bin>
    var minVal: real
    var maxVal: real

    ghost predicate Valid()
      reads this, bin
    {
      && power.Valid() && numBins > 0
      && (bin != null ==> bin.Length == numBins && Placed(power, bin[..], minVal, maxVal))
    }

    ghost function Bins(): seq<Bin>
      reads this, bin
    {
      if bin == null then [] else bin[..]
    }

    constructor (numBins: nat, power: Power)
      requires numBins > 0 && power.Valid()
      ensures Valid() && bin == null && this.numBins == numBins && this.power == power
    {
      this.numBins, this.power := numBins, power;
      bin, minVal, maxVal := null, 0.0, 0.0;
    }

    /** An empty histogram over a preset range. */
    method InitBins(rangeMin: real, rangeMax: real)
      requires Valid() && rangeMin <= rangeMax
      modifies this
      ensures Valid() && fresh(bin) && minVal == rangeMin && maxVal == rangeMax
      ensures CountOf(Bins()) == 0 && SumOf(Bins()) == 0.0
    {
      bin := new Bin[numBins](_ => Bin(0.0, 0));
      minVal, maxVal := rangeMin, rangeMax;
      EmptyPlaced(power, bin[..], minVal, maxVal);
    }

    /** Adds to one bin of `bins`. */
    method AddTo(bins: array<Bin>, lo: real, hi: real, index: nat, total: real, count: nat)
      requires power.Monotone() && index < bins.Length && Placed(power, bins[..], lo, hi)
      requires PlacedBin(power, bins.Length, lo, hi, index, Bin(total, count))
      modifies bins
      ensures Placed(power, bins[..], lo, hi)
      ensures CountOf(bins[..]) == old(CountOf(bins[..])) + count
      ensures SumOf(bins[..]) == old(SumOf(bins[..])) + total
    {
      MergeIntoBins(power, bins[..], lo, hi, index, total, count);
      MergeSums(bins[..], index, total, count);
      ghost var before := bins[..];
      bins[index] := Merge(bins[index], total, count);
      assert bins[..] == before[index := Merge(before[index], total, count)];
    }

    /** Copies the bins into new ones over the wider range [lo, hi]. */
    method Rebin(lo: real, hi: real) returns (newBin: array<Bin>)
      requires Valid() && bin != null && lo <= minVal && maxVal <= hi && lo < hi
      ensures fresh(newBin) && newBin.Length == numBins && Placed(power, newBin[..], lo, hi)
      ensures CountOf(newBin[..]) == CountOf(bin[..]) && SumOf(newBin[..]) == SumOf(bin[..])
    {
      assert power.raise(0.0) < power.raise(hi - lo) && power.raise(0.0) == 0.0;
      assert power.Monotone();
      hide *;
      newBin := new Bin[numBins](_ => Bin(0.0, 0));
      EmptyPlaced(power, newBin[..], lo, hi);
      var newScale := (numBins - 1) as real / power.raise(hi - lo);
      ghost var olds := bin[..];
      PrefixSums(olds, 0);
      for i := 0 to numBins
        invariant fresh(newBin) && newBin.Length == numBins && Placed(power, newBin[..], lo, hi)
        invariant CountOf(newBin[..]) == CountOf(olds[..i]) && SumOf(newBin[..]) == SumOf(olds[..i])
      {
        var b := bin[i];
        InOwnBin(power, olds, minVal, maxVal, i);
        WiderBin(power, numBins, minVal, maxVal, i, b, lo, hi);
        PrefixSums(olds, i);
        if b.count > 0 {
          ReplacedBin(power, numBins, lo, hi, newScale, b);
          var index := ScaledBin(power, numBins, lo, newScale, b.Mean());
          AddTo(newBin, lo, hi, index, b.total, b.count);
        }
      }
      assert olds[..numBins] == olds;
    }

    /** Adds a value to the bin its position in [lo, hi] selects. In a range of one point that index
        is ill-defined (0/0): `stray` stands for whatever it yields, cut to the last bin like any. */
    method AddValue(bins: array<Bin>, lo: real, hi: real, value: real, count: nat, stray: nat)
      requires power.Monotone() && bins.Length > 0 && Placed(power, bins[..], lo, hi) && lo <= value <= hi
      modifies bins
      ensures Placed(power, bins[..], lo, hi)
      ensures CountOf(bins[..]) == old(CountOf(bins[..])) + count
      ensures SumOf(bins[..]) == old(SumOf(bins[..])) + value * count as real
    {
      ClipRange(stray, bins.Length);
      hide *;
      var index := Clip(stray, bins.Length);
      if lo < hi {
        index := Index(power, bins.Length, lo, hi, value);
        IndexMonotone(power, bins.Length, lo, hi, value, value);
      }
      ValuePlaced(power, bins.Length, lo, hi, index, value, count);
      AddTo(bins, lo, hi, index, value * count as real, count);
    }

    /** Tally of a value outside the range: rebin to a range that reaches it. */
    method TallyOutside(value: real, count: nat)
      requires Valid() && bin != null && minVal <= maxVal && (value < minVal || value > maxVal)
      modifies this
      ensures Valid() && bin != null && fresh(bin) && minVal <= value <= maxVal
      ensures (minVal, maxVal) == Reach(old(minVal), old(maxVal), value)
      ensures CountOf(Bins()) == old(CountOf(Bins())) + count
      ensures SumOf(Bins()) == old(SumOf(Bins())) + value * count as real
    {
      ReachOutside(minVal, maxVal, value);
      ValidIs(this);
      hide *;
      var newBin;
      if value < minVal {
        newBin := Rebin(value, maxVal);
        minVal := value;
        LowestIndex(power, numBins, minVal, maxVal);
        ValuePlaced(power, numBins, minVal, maxVal, 0, value, count);
        AddTo(newBin, minVal, maxVal, 0, value * count as real, count);
      } else {
        var newMax := if value < 0.0 then 0.5 * value else 2.0 * value;
        newBin := Rebin(minVal, newMax);
        maxVal := newMax;
        AddValue(newBin, minVal, maxVal, value, count, 0);
      }
      bin := newBin;
      ValidIs(this);
    }

    /** Tally. */
    method Tally(value: real, count: nat, stray: nat)
      requires Valid()
      modifies this, bin
      ensures Valid() && bin != null && minVal <= value <= maxVal
      ensures bin == old(bin) || fresh(bin)
      ensures (minVal, maxVal) == if old(bin) == null then (value, value) else Reach(old(minVal), old(maxVal), value)
      ensures minVal == (if old(bin) == null || value < old(minVal) then value else old(minVal))
      ensures maxVal == if old(bin) == null then value
                        else if value <= old(maxVal) then old(maxVal)
                        else if value < 0.0 then value / 2.0 else value * 2.0
      ensures CountOf(Bins()) == old(CountOf(Bins())) + count
      ensures SumOf(Bins()) == old(SumOf(Bins())) + value * count as real
    {
      assert power.Monotone();
      hide Index, PlacedBin, Power.Valid, Power.Monotone, CountOf, SumOf;
      if bin == null {
        EmptySums([]);
        bin := new Bin[numBins](_ => Bin(0.0, 0));
        minVal, maxVal := value, value;
        EmptyPlaced(power, bin[..], minVal, maxVal);
        ValuePlaced(power, numBins, minVal, maxVal, 0, value, count);
        AddTo(bin, minVal, maxVal, 0, value * count as real, count);
      } else if value > maxVal || value < minVal {
        TallyOutside(value, count);
      } else {
        AddValue(bin, minVal, maxVal, value, count, stray);
      }
    }

    /** Count. */
    method Count() returns (total: nat)
      requires Valid()
      ensures total == CountOf(Bins())
    {
      total := 0;
      if bin != null {
        PrefixSums(bin[..], 0);
        for i := 0 to numBins
          invariant total == CountOf(bin[..][..i])
        {
          PrefixSums(bin[..], i);
          total := total + bin[i].count;
        }
        assert bin[..][..numBins] == bin[..];
      }
    }

    /** CountInRange: the early break loses nothing. */
    method CountInRange(rangeMin: real, rangeMax: real) returns (rangeTotal: nat)
      requires Valid()
      ensures rangeTotal == InRange(Bins(), rangeMin, rangeMax)
    {
      rangeTotal := 0;
      if bin == null {
        return;
      }
      assert power.Monotone();
      hide *;
      ghost var bins := bin[..];
      PrefixInRange(bins, 0, rangeMin, rangeMax);
      assert bins[..numBins] == bins;
      for i := 0 to numBins
        invariant rangeTotal == InRange(bins[..i], rangeMin, rangeMax)
      {
        PrefixInRange(bins, i, rangeMin, rangeMax);
        if bin[i].count > 0 {
          var value := bin[i].Mean();
          if value < rangeMin {
            continue;
          } else if value > rangeMax {
            NothingBeyond(power, bins, minVal, maxVal, rangeMin, rangeMax, i, numBins);
            break;
          } else {
            rangeTotal := rangeTotal + bin[i].count;
          }
        }
      }
    }

    /** PercentageInRange: the full scan. Without any count the result is not a number. */
    method PercentageInRange(rangeMin: real, rangeMax: real) returns (defined: bool, percentage: real)
      requires Valid()
      ensures defined <==> bin == null || CountOf(Bins()) > 0
      ensures percentage == if defined && bin != null
                            then 100.0 * InRange(Bins(), rangeMin, rangeMax) as real / CountOf(Bins()) as real else 0.0
    {
      if bin == null {
        return true, 0.0;
      }
      ghost var bins := bin[..];
      var countTotal, rangeTotal := 0, 0;
      PrefixInRange(bins, 0, rangeMin, rangeMax);
      PrefixSums(bins, 0);
      for i := 0 to numBins
        invariant rangeTotal == InRange(bins[..i], rangeMin, rangeMax) && countTotal == CountOf(bins[..i])
      {
        PrefixInRange(bins, i, rangeMin, rangeMax);
        PrefixSums(bins, i);
        if bin[i].count > 0 {
          var value := bin[i].Mean();
          countTotal := countTotal + bin[i].count;
          if value < rangeMin {
            continue;
          } else if value > rangeMax {
            continue;
          } else {
            rangeTotal := rangeTotal + bin[i].count;
          }
        }
      }
      assert bins[..numBins] == bins;
      if countTotal == 0 {
        return false, 0.0;
      }
      return true, 100.0 * rangeTotal as real / countTotal as real;
    }

    /** The loop of Percentile: the edge of the bin at which the count reaches `goal`. */
    method EdgeAtGoal(goal: nat) returns (x: real)
      requires Valid() && numBins > 1
      ensures var i := Reaching(Bins(), goal);
              x == if i < |Bins()| then Edge(power, numBins, minVal, maxVal, i) else maxVal
    {
      hide Edge, CountOf, Reaching, Placed, Power.Valid;
      x := maxVal;
      var count := 0;
      if bin != null {
        ghost var bins := bin[..];
        PrefixSums(bins, 0);
        for i := 0 to numBins
          invariant count == CountOf(bins[..i]) && i <= Reaching(bins, goal)
        {
          PrefixSums(bins, i);
          count := count + bin[i].count;
          if count >= goal {
            return Edge(power, numBins, minVal, maxVal, i);
          }
        }
      }
    }

    /** Percentile. So negative a fraction that the goal cannot be converted leaves the result undefined. */
    method Percentile(q: real) returns (defined: bool, x: real)
      requires Valid() && numBins > 1
      ensures defined <==> Convertible(CountOf(Bins()), q)
      ensures defined ==> x == if bin == null then maxVal else PercentileOf(power, Bins(), minVal, maxVal, q)
      ensures defined && bin != null ==>
                SplitsAt(power, Bins(), minVal, maxVal, q, x)
    {
      hide *;
      var total := Count();
      defined, x := Convertible(total, q), maxVal;
      if defined {
        x := EdgeAtGoal(Goal(total, q));
        PercentileFacts(this, q);
      }
    }
  }

  lemma PercentileFacts(h: Histogram, q: real)
    requires h.Valid() && h.numBins > 1
    ensures h.bin == null ==> h.Bins() == []
    ensures h.bin != null ==>
              var bins := h.Bins();
              var x, i := PercentileOf(h.power, bins, h.minVal, h.maxVal, q), Reaching(bins, Goal(CountOf(bins), q));
              && |bins| == h.numBins && SplitsAt(h.power, bins, h.minVal, h.maxVal, q, x)
              && x == if i < |bins| then Edge(h.power, |bins|, h.minVal, h.maxVal, i) else h.maxVal
  {
    hide Goal, Edge, CountOf, Reaching, Placed, SplitsAt, Power.Valid;
    if h.bin != null {
      PercentileSplits(h.power, h.bin[..], h.minVal, h.maxVal, q);
    }
  }

  /** A line of hcat's input; `stray` is the bin its tally picks if the range is one point. */
  datatype Datum = Datum(value: real, count: nat, stray: nat)

  function CountTallied(input: seq<Datum>): nat {
    if input == [] then 0 else CountTallied(input[..|input| - 1]) + input[|input| - 1].count
  }

  function SumTallied(input: seq<Datum>): real {
    if input == [] then 0.0
    else
      var last := input[|input| - 1];
      SumTallied(input[..|input| - 1]) + last.value * last.count as real
  }

  lemma TalliedPrefix(input: seq<Datum>, i: nat)
    requires i < |input|
    ensures CountTallied(input[..i + 1]) == CountTallied(input[..i]) + input[i].count
    ensures SumTallied(input[..i + 1]) == SumTallied(input[..i]) + input[i].value * input[i].count as real
    ensures CountTallied(input[..0]) == 0 && SumTallied(input[..0]) == 0.0
  {
    assert input[..i + 1][..i] == input[..i];
  }

  /** The range of the histogram holds the first `k` values. */
  ghost predicate AllInRange(h: Histogram, input: seq<Datum>, k: nat)
    requires k <= |input|
    reads h
  {
    forall i :: 0 <= i < k ==> h.bin != null && h.minVal <= input[i].value <= h.maxVal
  }

  /** hcat's input loop, into an empty histogram or one with preset bins. Count and sum of the bins grow
      by those of everything tallied, and the range ends up holding every value. */
  method TallyAll(h: Histogram, input: seq<Datum>) returns (mean: real, meanCount: nat)
    requires h.Valid()
    modifies h, h.bin
    ensures h.Valid() && meanCount == CountTallied(input) && mean == SumTallied(input)
    ensures CountOf(h.Bins()) == old(CountOf(h.Bins())) + meanCount
    ensures SumOf(h.Bins()) == old(SumOf(h.Bins())) + mean
    ensures AllInRange(h, input, |input|)
  {
    hide CountOf, SumOf, CountTallied, SumTallied, Histogram.Valid;
    mean, meanCount := 0.0, 0;
    NothingTallied(input);
    for k := 0 to |input|
      invariant h.Valid() && (h.bin == old(h.bin) || fresh(h.bin))
      invariant meanCount == CountTallied(input[..k]) && mean == SumTallied(input[..k])
      invariant CountOf(h.Bins()) == old(CountOf(h.Bins())) + meanCount
      invariant SumOf(h.Bins()) == old(SumOf(h.Bins())) + mean
      invariant AllInRange(h, input, k)
    {
      TalliedPrefix(input, k);
      var datum := input[k];
      h.Tally(datum.value, datum.count, datum.stray);
      mean := mean + datum.value * datum.count as real;
      meanCount := meanCount + datum.count;
    }
    assert input[..|input|] == input;
  }

  lemma NothingTallied(input: seq<Datum>)
    ensures CountTallied(input[..0]) == 0 && SumTallied(input[..0]) == 0.0
  {
  }
}
