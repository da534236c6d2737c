/** trpr's flow summaries and the windowed RATE accounting of its event loop. */
module FlowRates {

  datatype Sample = Sample(value: real, weight: real)

  function Square(x: real): real {
    x * x
  }

  function Weighted(x: Sample): real {
    x.value * x.weight
  }

  function WeightedSquare(x: Sample): real {
    Square(x.value) * x.weight
  }

  function WeightSum(s: seq<Sample>): real {
    if s == [] then 0.0 else WeightSum(s[..|s| - 1]) + s[|s| - 1].weight
  }

  function ValueSum(s: seq<Sample>): real {
    if s == [] then 0.0 else ValueSum(s[..|s| - 1]) + Weighted(s[|s| - 1])
  }

  function SquareSum(s: seq<Sample>): real {
    if s == [] then 0.0 else SquareSum(s[..|s| - 1]) + WeightedSquare(s[|s| - 1])
  }

  ghost predicate Positive(s: seq<Sample>) {
    forall i :: 0 <= i < |s| ==> s[i].weight > 0.0
  }

  ghost predicate Between(s: seq<Sample>, lo: real, hi: real) {
    forall i :: 0 <= i < |s| ==> lo <= s[i].value <= hi
  }

  /** The sums, one sample at a time. */
  lemma SumsUnfold(s: seq<Sample>)
    requires s != []
    ensures var front, x := s[..|s| - 1], s[|s| - 1];
            && WeightSum(s) == WeightSum(front) + x.weight
            && ValueSum(s) == ValueSum(front) + Weighted(x)
            && SquareSum(s) == SquareSum(front) + WeightedSquare(x)
            && (Positive(s) ==> Positive(front) && x.weight > 0.0)
            && forall lo, hi :: Between(s, lo, hi) ==> Between(front, lo, hi) && lo <= x.value <= hi
  {
    hide Weighted, WeightedSquare;
  }

  /** Mean between the bounds, in terms of the sums. */
  ghost predicate MeanWithin(lo: real, hi: real, W: real, S: real) {
    lo * W <= S <= hi * W
  }

  lemma {:induction false} SumsBounded(s: seq<Sample>, lo: real, hi: real)
    requires Positive(s) && Between(s, lo, hi)
    ensures WeightSum(s) >= 0.0 && (s != [] ==> WeightSum(s) > 0.0)
    ensures MeanWithin(lo, hi, WeightSum(s), ValueSum(s))
  {
    if s != [] {
      var front, x := s[..|s| - 1], s[|s| - 1];
      SumsUnfold(s);
      SumsBounded(front, lo, hi);
      hide *;
      BoundStep(lo, hi, WeightSum(front), ValueSum(front), x);
    }
  }

  lemma BoundStep(lo: real, hi: real, W: real, S: real, x: Sample)
    requires MeanWithin(lo, hi, W, S) && lo <= x.value <= hi && x.weight > 0.0
    ensures MeanWithin(lo, hi, W + x.weight, S + Weighted(x))
  {
    Scaled(lo, x.value, x.weight);
    Scaled(x.value, hi, x.weight);
    assert lo * (W + x.weight) == lo * W + lo * x.weight;
    assert hi * (W + x.weight) == hi * W + hi * x.weight;
  }

  lemma Scaled(a: real, b: real, w: real)
    requires a <= b && w >= 0.0
    ensures a * w <= b * w
  {
  }

  ghost predicate Cauchy(W: real, S: real, Q: real) {
    W >= 0.0 && Q >= 0.0 && Square(S) <= Q * W
  }

  /** Weighted Cauchy-Schwarz. */
  lemma {:induction false} CauchySchwarz(s: seq<Sample>)
    requires Positive(s)
    ensures Cauchy(WeightSum(s), ValueSum(s), SquareSum(s))
  {
    if s != [] {
      var front, x := s[..|s| - 1], s[|s| - 1];
      SumsUnfold(s);
      CauchySchwarz(front);
      if front == [] {
        OneSample(x);
      } else {
        SumsPositive(front);
        hide *;
        CauchyStep(WeightSum(front), ValueSum(front), SquareSum(front), x);
      }
    }
  }

  lemma SumsPositive(s: seq<Sample>)
    requires Positive(s) && s != []
    ensures WeightSum(s) > 0.0
  {
    var lo, hi := Extremes(s);
    SumsBounded(s, lo, hi);
  }

  lemma {:induction false} Extremes(s: seq<Sample>) returns (lo: real, hi: real)
    requires s != []
    ensures Between(s, lo, hi)
  {
    var last := s[|s| - 1].value;
    lo, hi := last, last;
    if |s| > 1 {
      var l, h := Extremes(s[..|s| - 1]);
      lo, hi := if l < last then l else last, if h > last then h else last;
      forall i | 0 <= i < |s| ensures lo <= s[i].value <= hi {
        if i < |s| - 1 {
          assert s[..|s| - 1][i] == s[i];
        }
      }
    }
  }

  lemma OneSample(x: Sample)
    requires x.weight > 0.0
    ensures Cauchy(x.weight, Weighted(x), WeightedSquare(x))
  {
    SquareNonNegative(x.value);
    ProductNonNegative(Square(x.value), x.weight);
    assert Square(x.value * x.weight) == x.value * x.value * x.weight * x.weight;
  }

  lemma CauchyStep(W: real, S: real, Q: real, x: Sample)
    requires W > 0.0 && x.weight > 0.0 && Cauchy(W, S, Q)
    ensures Cauchy(W + x.weight, S + Weighted(x), Q + WeightedSquare(x))
  {
    var v, w := x.value, x.weight;
    var missing := Q + Square(v) * W - 2.0 * (v * S);
    MissingTerm(W, S, Q, v, missing);
    StepExpansion(W, S, Q, v, w, missing);
    SquareNonNegative(S - v * W);
    SquareNonNegative(v);
    hide Square;
    NonNegativeFactor(W, missing);
    ProductNonNegative(w, missing);
    ProductNonNegative(Square(v), w);
  }

  lemma SquareIs(x: real)
    ensures x * x == Square(x)
  {
  }

  lemma NoSums()
    ensures WeightSum([]) == 0.0
  {
  }

  lemma SumsNotPositive(s: seq<Sample>)
    requires Positive(s) && WeightSum(s) == 0.0
    ensures s == []
  {
    if s != [] {
      SumsPositive(s);
    }
  }

  lemma SquareNonNegative(x: real)
    ensures Square(x) >= 0.0
  {
  }

  lemma ProductNonNegative(x: real, y: real)
    requires x >= 0.0 && y >= 0.0
    ensures x * y >= 0.0
  {
  }

  lemma MissingTerm(W: real, S: real, Q: real, v: real, missing: real)
    requires missing == Q + Square(v) * W - 2.0 * (v * S)
    ensures W * missing == (Q * W - Square(S)) + Square(S - v * W)
  {
  }

  lemma StepExpansion(W: real, S: real, Q: real, v: real, w: real, missing: real)
    requires missing == Q + Square(v) * W - 2.0 * (v * S)
    ensures (Q + Square(v) * w) * (W + w) - Square(S + v * w) == (Q * W - Square(S)) + w * missing
  {
  }

  lemma NonNegativeFactor(a: real, b: real)
    requires a > 0.0 && (a * b >= 0.0 || b * a >= 0.0)
    ensures b >= 0.0
  {
  }

  /** Mean and variance from the running sums, for any non-empty run of positively weighted samples. */
  lemma SummaryBounds(s: seq<Sample>, lo: real, hi: real)
    requires Positive(s) && s != [] && Between(s, lo, hi)
    ensures WeightSum(s) > 0.0
    ensures lo <= ValueSum(s) / WeightSum(s) <= hi
    ensures SquareSum(s) / WeightSum(s) - Square(ValueSum(s) / WeightSum(s)) >= 0.0
  {
    hide *;
    SumsBounded(s, lo, hi);
    CauchySchwarz(s);
    MeanBetween(ValueSum(s), WeightSum(s), lo, hi);
    VarianceNonNegative(WeightSum(s), ValueSum(s), SquareSum(s));
  }

  lemma MeanBetween(S: real, W: real, lo: real, hi: real)
    requires W > 0.0 && MeanWithin(lo, hi, W, S)
    ensures lo <= S / W <= hi
  {
    assert S / W * W == S;
  }

  lemma VarianceNonNegative(W: real, S: real, Q: real)
    requires W > 0.0 && Cauchy(W, S, Q)
    ensures Q / W - Square(S / W) >= 0.0
  {
    var m, q := S / W, Q / W;
    assert m * W == S && q * W == Q;
    assert Square(S) == Square(m) * W * W;
    assert (q - Square(m)) * W * W == Q * W - Square(S);
    NonNegativeFactor(W, (q - Square(m)) * W);
    NonNegativeFactor(W, q - Square(m));
  }

  lemma SumsExtend(s: seq<Sample>, value: real, weight: real, product: real, square: real)
    requires product == value * weight && square == value * value * weight
    ensures var more := s + [Sample(value, weight)];
            && ValueSum(more) == ValueSum(s) + product
            && SquareSum(more) == SquareSum(s) + square
            && WeightSum(more) == WeightSum(s) + weight
            && (Positive(s) && weight > 0.0 ==> Positive(more))
  {
    assert (s + [Sample(value, weight)])[..|s|] == s;
    assert Square(value) * weight == value * value * weight;
  }

  lemma BetweenExtends(s: seq<Sample>, x: Sample, lo: real, hi: real, newLo: real, newHi: real)
    requires s == [] || (Between(s, lo, hi) && newLo <= lo && hi <= newHi)
    requires newLo <= x.value <= newHi
    ensures Between(s + [x], newLo, newHi)
  {
  }

  const KBITS := 0.008    // kilobits in a byte

  class Flow {
    const preset: bool          // given on the command line rather than discovered
    var byteCount: nat
    var sumInit: bool
    var sumTotal: real
    var sumVar: real
    var sumWeight: real
    var sumMin: real
    var sumMax: real
    ghost var samples: seq<Sample>
    ghost var allBytes: nat     // every byte ever added
    ghost var joined: nat       // windows plotted before this flow existed

    /** The running sums are those of the samples so far. */
    ghost predicate Valid()
      reads this
    {
      && (sumInit <==> samples == [])
      && Positive(samples)
      && (sumInit ==> sumTotal == 0.0 && sumVar == 0.0 && sumWeight == 0.0)
      && sumTotal == ValueSum(samples) && sumVar == SquareSum(samples) && sumWeight == WeightSum(samples)
      && (!sumInit ==> Between(samples, sumMin, sumMax))
    }

    constructor (preset: bool, ghost joined: nat)
      ensures Valid() && sumInit && byteCount == 0 && allBytes == 0 && samples == []
      ensures this.joined == joined && this.preset == preset
    {
      this.preset := preset;
      sumInit, sumTotal, sumVar, sumWeight := true, 0.0, 0.0, 0.0;
      sumMin, sumMax, byteCount := 0.0, 0.0, 0;
      samples, allBytes, this.joined := [], 0, joined;
    }

    method AddBytes(pktSize: nat)
      modifies this`byteCount, this`allBytes
      ensures byteCount == old(byteCount) + pktSize && allBytes == old(allBytes) + pktSize
      ensures forall window, plotted :: old(Balanced(window, plotted)) ==> Balanced(window, plotted)
    {
      byteCount := byteCount + pktSize;
      allBytes := allBytes + pktSize;
    }

    method UpdateSummary(value: real, weight: real)
      requires Valid() && weight > 0.0
      modifies this`sumInit, this`sumTotal, this`sumVar, this`sumWeight, this`sumMin, this`sumMax, this`samples
      ensures Valid() && samples == old(samples) + [Sample(value, weight)]
      ensures sumTotal == old(sumTotal) + value * weight && sumWeight == old(sumWeight) + weight
    {
      hide *;
      ghost var before, lo, hi := samples, sumMin, sumMax;
      var product, square := value * weight, value * value * weight;
      SumsExtend(samples, value, weight, product, square);
      ValidIs();
      Accumulate(value, weight, product, square);
      samples := samples + [Sample(value, weight)];
      BetweenExtends(before, Sample(value, weight), lo, hi, sumMin, sumMax);
      ValidIs();
    }

    /** The bookkeeping of UpdateSummary, given the two products. */
    method Accumulate(value: real, weight: real, product: real, square: real)
      modifies this`sumInit, this`sumTotal, this`sumVar, this`sumWeight, this`sumMin, this`sumMax
      ensures !sumInit
      ensures sumTotal == (if old(sumInit) then product else old(sumTotal) + product)
      ensures sumVar == (if old(sumInit) then square else old(sumVar) + square)
      ensures sumWeight == (if old(sumInit) then weight else old(sumWeight) + weight)
      ensures sumMin <= value <= sumMax
      ensures !old(sumInit) ==> sumMin <= old(sumMin) && old(sumMax) <= sumMax
    {
      if sumInit {
        sumTotal := product;
        sumMin, sumMax := value, value;
        sumVar := square;
        sumWeight := weight;
        sumInit := false;
      } else {
        sumWeight := sumWeight + weight;
        sumTotal := sumTotal + product;
        sumVar := sumVar + square;
        if value < sumMin { sumMin := value; }
        if value > sumMax { sumMax := value; }
      }
    }

    lemma ValidIs()
      ensures Valid() <==>
              && (sumInit <==> samples == []) && Positive(samples) && (!sumInit ==> Between(samples, sumMin, sumMax))
              && (sumInit ==> sumTotal == 0.0 && sumVar == 0.0 && sumWeight == 0.0)
              && sumTotal == ValueSum(samples) && sumVar == SquareSum(samples) && sumWeight == WeightSum(samples)
    {
    }

    /** Not a number exactly when the flow has no samples. */
    method SummaryAverage() returns (defined: bool, average: real)
      requires Valid()
      ensures defined <==> samples != []
      ensures defined ==> sumMin <= average <= sumMax && WeightSum(samples) > 0.0
      ensures average == if defined then ValueSum(samples) / WeightSum(samples) else 0.0
    {
      ValidIs();
      hide *;
      if sumWeight == 0.0 {
        SumsNotPositive(samples);
        return false, 0.0;
      }
      NoSums();
      SummaryBounds(samples, sumMin, sumMax);
      return true, sumTotal / sumWeight;
    }

    /** Never negative, so its square root is defined. */
    method SummaryVariance() returns (defined: bool, variance: real)
      requires Valid()
      ensures defined <==> samples != []
      ensures defined ==> variance >= 0.0 && WeightSum(samples) > 0.0
      ensures variance == if defined then SquareSum(samples) / WeightSum(samples) -
                                          Square(ValueSum(samples) / WeightSum(samples)) else 0.0
    {
      ValidIs();
      hide *;
      var mean;
      defined, mean := SummaryAverage();
      if !defined {
        return false, 0.0;
      }
      SummaryBounds(samples, sumMin, sumMax);
      SquareIs(mean);
      return true, sumVar / sumWeight - mean * mean;
    }

    /** Kilobits plotted plus kilobits pending are the kilobits of all bytes ever added, and the
        weight is the number of windows since the flow joined. */
    ghost predicate Balanced(window: real, plotted: nat)
      reads this
    {
      && Valid() && joined <= plotted
      && sumTotal * window + KBITS * byteCount as real == KBITS * allBytes as real
      && sumWeight == (plotted - joined) as real
    }

    /** Closing a window on this flow: plot its rate and start counting anew. */
    method PlotWindow(windowSize: real, ghost plotted: nat)
      requires windowSize > 0.0 && Balanced(windowSize, plotted)
      modifies this
      ensures Balanced(windowSize, plotted + 1) && byteCount == 0
      ensures allBytes == old(allBytes) && joined == old(joined)
    {
      BalancedIs(windowSize, plotted);
      var kbits := KBITS * byteCount as real;
      ghost var total, weight := sumTotal, sumWeight;
      hide *;
      UpdateSummary(kbits / windowSize, 1.0);
      byteCount := 0;
      PlotBalances(windowSize, plotted, total, kbits, weight);
    }

    lemma BalancedIs(window: real, plotted: nat)
      requires Balanced(window, plotted)
      ensures Valid() && joined <= plotted && sumWeight == (plotted - joined) as real
      ensures sumTotal * window + KBITS * byteCount as real == KBITS * allBytes as real
    {
    }

    lemma PlotBalances(window: real, plotted: nat, total: real, kbits: real, weight: real)
      requires Valid() && byteCount == 0 && joined <= plotted && window > 0.0
      requires sumTotal == total + kbits / window * 1.0 && sumWeight == weight + 1.0
      requires total * window + kbits == KBITS * allBytes as real && weight == (plotted - joined) as real
      ensures Balanced(window, plotted + 1)
    {
      RateTimesWindow(total, kbits, window);
      hide Valid;
    }

    /** Windows without any event count as windows of rate zero. */
    method PlotGap(gapCount: nat, ghost windowSize: real, ghost plotted: nat)
      requires gapCount > 0 && Balanced(windowSize, plotted)
      modifies this
      ensures Balanced(windowSize, plotted + gapCount) && byteCount == old(byteCount)
      ensures allBytes == old(allBytes) && joined == old(joined)
    {
      UpdateSummary(0.0, gapCount as real);
    }
  }

  lemma RateTimesWindow(total: real, kbits: real, window: real)
    requires window > 0.0
    ensures (total + kbits / window) * window == total * window + kbits
  {
    assert kbits / window * window == kbits;
  }

  /** Windows of width `w` that must pass beyond `end` before `t` is inside one. */
  function Steps(end: real, t: real, w: real): nat
    requires w > 0.0
    decreases if t <= end then 0 else ((t - end) / w).Floor + 1
  {
    if t <= end then 0
    else
      assert (t - (end + w)) / w == (t - end) / w - 1.0 && (t - end) / w > 0.0 by {
        OneWindowLess(t - end, w);
      }
      1 + Steps(end + w, t, w)
  }

  lemma OneWindowLess(x: real, w: real)
    requires w > 0.0 && x > 0.0
    ensures (x - w) / w == x / w - 1.0 && x / w > 0.0
  {
    var r := x / w;
    assert r * w == x;
    QuotientIs(r - 1.0, x - w, w);
    NonNegativeFactor(w, r);
  }

  lemma QuotientIs(q: real, x: real, w: real)
    requires w > 0.0 && q * w == x
    ensures x / w == q
  {
  }

  /** Time covered by a number of windows. */
  function Span(windows: int, w: real): real {
    windows as real * w
  }

  /** Every flow of `before` keeps its place. */
  ghost predicate Extends(before: seq<Flow>, flows: seq<Flow>) {
    |before| <= |flows| && forall i :: 0 <= i < |before| ==> flows[i] == before[i]
  }

  ghost predicate Distinct(flows: seq<Flow>) {
    forall i, j :: 0 <= i < j < |flows| ==> flows[i] != flows[j]
  }

  /** What an event's packet matches: flows of the list, and patterns for flows to discover. A packet
      of an excluded flow, and a timeout, match nothing. */
  datatype Match = Match(listed: set<nat>, patterns: nat)

  datatype Entry = Entry(bytes: nat, joined: nat, preset: bool)

  ghost predicate AllBalanced(flows: seq<Flow>, window: real, plotted: nat)
    reads flows
  {
    forall i :: 0 <= i < |flows| ==> flows[i].Balanced(window, plotted)
  }

  /** Bytes ever added to each flow, and the window it joined at. */
  ghost function Ledger(flows: seq<Flow>): seq<Entry>
    reads flows
  {
    seq(|flows|, i requires 0 <= i < |flows| reads flows => Entry(flows[i].allBytes, flows[i].joined, flows[i].preset))
  }

  /** The ledger with the bytes credited to the matching flows among the first `k`. */
  function Credited(ledger: seq<Entry>, listed: set<nat>, bytes: nat, k: nat): seq<Entry> {
    seq(|ledger|, i requires 0 <= i < |ledger| =>
      if i < k && i in listed then ledger[i].(bytes := ledger[i].bytes + bytes) else ledger[i])
  }

  /** A discovered flow among the first `k` matches, so no more are discovered. */
  ghost predicate Recognised(ledger: seq<Entry>, listed: set<nat>, k: nat) {
    exists i :: 0 <= i < k && i < |ledger| && i in listed && !ledger[i].preset
  }

  function Discovered(n: nat, bytes: nat, joined: nat): seq<Entry> {
    seq(n, _ => Entry(bytes, joined, false))
  }

  /** What an event does to the ledger. */
  ghost function AfterEvent(ledger: seq<Entry>, m: Match, bytes: nat, plotted: nat): seq<Entry> {
    Credited(ledger, m.listed, bytes, |ledger|) +
    Discovered(if Recognised(ledger, m.listed, |ledger|) then 0 else m.patterns, bytes, plotted)
  }

  /** What an event does to the flows: those there are keep their place and the listed ones gain the
      bytes; unless one of these was discovered before, every matching pattern gives a new flow. */
  lemma EventLaw(ledger: seq<Entry>, m: Match, bytes: nat, plotted: nat)
    ensures var after := AfterEvent(ledger, m, bytes, plotted);
            && |ledger| <= |after|
            && (forall i :: 0 <= i < |ledger| ==>
                  && after[i].joined == ledger[i].joined && after[i].preset == ledger[i].preset
                  && after[i].bytes == ledger[i].bytes + if i in m.listed then bytes else 0)
            && (forall i :: |ledger| <= i < |after| ==> after[i] == Entry(bytes, plotted, false))
            && |after| - |ledger| == NewFlows(ledger, m)
  {
  }

  /** The flows to create: none if a listed flow was discovered earlier, otherwise one a pattern. */
  ghost function NewFlows(ledger: seq<Entry>, m: Match): nat {
    if forall i :: 0 <= i < |ledger| && i in m.listed ==> ledger[i].preset then m.patterns else 0
  }

  /** How many of the first `k` flows are listed. */
  function ListedBelow(listed: set<nat>, k: nat): nat {
    if k == 0 then 0 else ListedBelow(listed, k - 1) + if k - 1 in listed then 1 else 0
  }

  function TotalBytes(ledger: seq<Entry>): nat {
    if ledger == [] then 0 else TotalBytes(ledger[..|ledger| - 1]) + ledger[|ledger| - 1].bytes
  }

  /** Bytes an event hands out: its size for every flow it matches and every flow it creates. */
  ghost function HandedOut(ledger: seq<Entry>, m: Match, bytes: nat): nat {
    bytes * (ListedBelow(m.listed, |ledger|) + NewFlows(ledger, m))
  }

  lemma {:induction false} TotalCredited(ledger: seq<Entry>, after: seq<Entry>, listed: set<nat>, bytes: nat)
    requires |ledger| == |after|
    requires forall i :: 0 <= i < |ledger| ==> after[i].bytes == ledger[i].bytes + if i in listed then bytes else 0
    ensures TotalBytes(after) == TotalBytes(ledger) + bytes * ListedBelow(listed, |ledger|)
  {
    if ledger != [] {
      var n := |ledger| - 1;
      TotalCredited(ledger[..n], after[..n], listed, bytes);
      assert bytes * (ListedBelow(listed, n) + 1) == bytes * ListedBelow(listed, n) + bytes;
    }
  }

  lemma {:induction false} TotalDiscovered(ledger: seq<Entry>, after: seq<Entry>, bytes: nat)
    requires |ledger| <= |after| && after[..|ledger|] == ledger
    requires forall i :: |ledger| <= i < |after| ==> after[i].bytes == bytes
    ensures TotalBytes(after) == TotalBytes(ledger) + bytes * (|after| - |ledger|)
    decreases |after|
  {
    if |after| > |ledger| {
      var n := |after| - 1;
      assert after[..n][..|ledger|] == ledger;
      TotalDiscovered(ledger, after[..n], bytes);
      assert bytes * (n + 1 - |ledger|) == bytes * (n - |ledger|) + bytes;
    } else {
      assert after == ledger;
    }
  }

  lemma TotalAfterEvent(ledger: seq<Entry>, m: Match, bytes: nat, plotted: nat)
    ensures TotalBytes(AfterEvent(ledger, m, bytes, plotted)) == TotalBytes(ledger) + HandedOut(ledger, m, bytes)
  {
    var after := AfterEvent(ledger, m, bytes, plotted);
    EventLaw(ledger, m, bytes, plotted);
    hide AfterEvent, NewFlows;
    TotalCredited(ledger, after[..|ledger|], m.listed, bytes);
    TotalDiscovered(after[..|ledger|], after, bytes);
    Distribute(bytes, ListedBelow(m.listed, |ledger|), NewFlows(ledger, m));
  }

  lemma Distribute(x: int, y: int, z: int)
    ensures x * (y + z) == x * y + x * z
  {
  }

  /** A parsed packet event. */
  datatype TraceEvent = TraceEvent(time: real, matched: Match, size: nat)

  /** The accounting as a whole: the window's end, the windows plotted, and every flow's entry. */
  datatype Accounts = Accounts(started: bool, end: real, plotted: nat, ledger: seq<Entry>)

  /** One event: the windows that ended before it are plotted, then its bytes are credited. */
  ghost function Next(a: Accounts, e: TraceEvent, w: real): Accounts
    requires w > 0.0
  {
    var end := if a.started then a.end else e.time + w;
    var n := Steps(end, e.time, w);
    Accounts(true, end + Span(n, w), a.plotted + n, AfterEvent(a.ledger, e.matched, e.size, a.plotted + n))
  }

  ghost function Run(a: Accounts, events: seq<TraceEvent>, w: real): Accounts
    requires w > 0.0
  {
    if events == [] then a else Next(Run(a, events[..|events| - 1], w), events[|events| - 1], w)
  }

  lemma RunNone(a: Accounts, events: seq<TraceEvent>, w: real)
    requires w > 0.0
    ensures Run(a, events[..0], w) == a
  {
  }

  lemma RunMore(a: Accounts, events: seq<TraceEvent>, k: nat, w: real)
    requires w > 0.0 && k < |events|
    ensures Run(a, events[..k + 1], w) == Next(Run(a, events[..k], w), events[k], w)
  {
    assert events[..k + 1][..k] == events[..k];
  }

  lemma ExtendsIs(before: seq<Flow>, flows: seq<Flow>)
    requires Extends(before, flows)
    ensures |before| <= |flows| && forall i :: 0 <= i < |before| ==> flows[i] == before[i]
  {
  }

  /** Bytes handed out by the events of a trace. */
  ghost function HandedOutBy(a: Accounts, events: seq<TraceEvent>, w: real): nat
    requires w > 0.0
  {
    if events == [] then 0
    else
      var front, e := events[..|events| - 1], events[|events| - 1];
      HandedOutBy(a, front, w) + HandedOut(Run(a, front, w).ledger, e.matched, e.size)
  }

  /** No byte is lost or counted twice: all flows together hold what the trace handed out. */
  lemma {:induction false} BytesConserved(a: Accounts, events: seq<TraceEvent>, w: real)
    requires w > 0.0
    ensures TotalBytes(Run(a, events, w).ledger) == TotalBytes(a.ledger) + HandedOutBy(a, events, w)
  {
    if events != [] {
      var front, e := events[..|events| - 1], events[|events| - 1];
      BytesConserved(a, front, w);
      hide *;
      HandedOutUnfold(a, events, w);
      RunUnfold(a, events, w);
      NextTotal(Run(a, front, w), e, w);
    } else {
      hide AfterEvent, HandedOut, TotalBytes, Steps, Span;
    }
  }

  lemma HandedOutUnfold(a: Accounts, events: seq<TraceEvent>, w: real)
    requires w > 0.0 && events != []
    ensures var front, e := events[..|events| - 1], events[|events| - 1];
            HandedOutBy(a, events, w) ==
            HandedOutBy(a, front, w) + HandedOut(Run(a, front, w).ledger, e.matched, e.size)
  {
    hide HandedOut, Run;
  }

  lemma NextTotal(a: Accounts, e: TraceEvent, w: real)
    requires w > 0.0
    ensures TotalBytes(Next(a, e, w).ledger) == TotalBytes(a.ledger) + HandedOut(a.ledger, e.matched, e.size)
  {
    hide AfterEvent, HandedOut, TotalBytes, Steps, Span;
    TotalAfterEvent(a.ledger, e.matched, e.size, Next(a, e, w).plotted);
  }

  /** The windows tile the time since the first event: as many as were plotted, and the open one. */
  lemma {:induction false} WindowsTile(a: Accounts, events: seq<TraceEvent>, w: real)
    requires w > 0.0 && !a.started && events != []
    ensures var b := Run(a, events, w);
            && b.started && b.plotted >= a.plotted
            && b.end == events[0].time + w + Span(b.plotted - a.plotted, w)
            && b.end == events[0].time + w + (b.plotted - a.plotted) as real * w
    ensures events[|events| - 1].time <= Run(a, events, w).end
  {
    hide *;
    var front, e := events[..|events| - 1], events[|events| - 1];
    RunUnfold(a, events, w);
    if front == [] {
      FirstWindow(a, e, w);
    } else {
      WindowsTile(a, front, w);
      LaterWindow(Run(a, front, w), e, w, events[0].time + w, a.plotted);
    }
    SpanIs(Run(a, events, w).plotted - a.plotted, w);
  }

  lemma SpanIs(n: int, w: real)
    ensures Span(n, w) == n as real * w
  {
  }

  lemma RunUnfold(a: Accounts, events: seq<TraceEvent>, w: real)
    requires w > 0.0 && events != []
    ensures Run(a, events, w) == Next(Run(a, events[..|events| - 1], w), events[|events| - 1], w)
    ensures |events| == 1 ==> Run(a, events, w) == Next(a, events[0], w)
  {
  }

  lemma FirstWindow(a: Accounts, e: TraceEvent, w: real)
    requires w > 0.0 && !a.started
    ensures var b := Next(a, e, w);
            && b.started && b.plotted == a.plotted && e.time <= b.end
            && b.end == e.time + w + Span(b.plotted - a.plotted, w)
  {
  }

  lemma LaterWindow(a: Accounts, e: TraceEvent, w: real, start: real, plotted: nat)
    requires w > 0.0 && a.started && a.plotted >= plotted && a.end == start + Span(a.plotted - plotted, w)
    ensures var b := Next(a, e, w);
            b.started && b.plotted >= plotted && b.end == start + Span(b.plotted - plotted, w) && e.time <= b.end
  {
    hide AfterEvent, Span, Steps;
    StepsCover(a.end, e.time, w);
    SpanAdds(a.plotted - plotted, Steps(a.end, e.time, w), w);
  }

  lemma SpanAdds(m: int, n: int, w: real)
    ensures Span(m + n, w) == Span(m, w) + Span(n, w)
  {
  }

  /** That many windows reach `t`, and none fewer does. */
  lemma {:induction false} StepsCover(end: real, t: real, w: real)
    requires w > 0.0
    ensures t <= end + Span(Steps(end, t, w), w) == end + Steps(end, t, w) as real * w
    ensures Steps(end, t, w) > 0 ==> end + Span(Steps(end, t, w) - 1, w) < t
    ensures Steps(end, t, w) > 0 ==> end + (Steps(end, t, w) - 1) as real * w < t
    decreases Steps(end, t, w)
  {
    if t > end {
      StepsCover(end + w, t, w);
      SpanAdds(Steps(end + w, t, w), 1, w);
      if Steps(end + w, t, w) > 0 {
        SpanAdds(Steps(end + w, t, w) - 1, 1, w);
      }
    }
  }

  /** The first event opens a window; otherwise the fewest windows are plotted that take the open one
      to `time`. */
  ghost predicate WindowMoved(a: Accounts, b: Accounts, time: real, w: real) {
    && b.started && b.plotted >= a.plotted && time <= b.end
    && b.end == (if a.started then a.end else time + w) + (b.plotted - a.plotted) as real * w
    && (b.plotted > a.plotted ==> b.end - w < time)
  }

  lemma NextWindow(a: Accounts, e: TraceEvent, w: real)
    requires w > 0.0
    ensures WindowMoved(a, Next(a, e, w), e.time, w)
  {
    hide AfterEvent, Steps;
    var end := if a.started then a.end else e.time + w;
    StepsCover(end, e.time, w);
    SpanAdds(Steps(end, e.time, w) - 1, 1, w);
  }

  /** One event on the accounts, entry by entry. */
  lemma NextLaw(a: Accounts, e: TraceEvent, w: real)
    requires w > 0.0
    ensures var b, n := Next(a, e, w), |a.ledger|;
            && WindowMoved(a, b, e.time, w)
            && n <= |b.ledger|
            && (forall i :: 0 <= i < n ==>
                  && b.ledger[i].joined == a.ledger[i].joined && b.ledger[i].preset == a.ledger[i].preset
                  && b.ledger[i].bytes == a.ledger[i].bytes + if i in e.matched.listed then e.size else 0)
            && (forall i :: n <= i < |b.ledger| ==> b.ledger[i] == Entry(e.size, b.plotted, false))
            && |b.ledger| - n == if forall i :: 0 <= i < n && i in e.matched.listed ==> a.ledger[i].preset
                                 then e.matched.patterns else 0
  {
    hide AfterEvent, Steps, Span;
    NextWindow(a, e, w);
    EventLaw(a.ledger, e.matched, e.size, Next(a, e, w).plotted);
  }

  lemma CreditStart(ledger: seq<Entry>, listed: set<nat>, bytes: nat)
    ensures Credited(ledger, listed, bytes, 0) == ledger && !Recognised(ledger, listed, 0)
  {
  }

  lemma CreditStep(ledger: seq<Entry>, listed: set<nat>, bytes: nat, k: nat)
    requires k < |ledger|
    ensures var now := Credited(ledger, listed, bytes, k);
            && |now| == |ledger| && now[k].preset == ledger[k].preset
            && Credited(ledger, listed, bytes, k + 1) ==
               if k in listed then now[k := now[k].(bytes := now[k].bytes + bytes)] else now
    ensures Recognised(ledger, listed, k + 1) <==>
            Recognised(ledger, listed, k) || (k in listed && !ledger[k].preset)
  {
  }

  lemma DiscoverStep(n: nat, bytes: nat, joined: nat)
    ensures Discovered(n + 1, bytes, joined) == Discovered(n, bytes, joined) + [Entry(bytes, joined, false)]
  {
  }

  lemma LedgerOfMore(flows: seq<Flow>, flow: Flow)
    ensures Ledger(flows + [flow]) == Ledger(flows) + [Entry(flow.allBytes, flow.joined, flow.preset)]
  {
  }

  /** The first pass of UpdateWindowPlot: every flow's rate over the closed window. */
  method PlotWindows(flows: seq<Flow>, windowSize: real, ghost plotted: nat)
    requires Distinct(flows) && windowSize > 0.0 && AllBalanced(flows, windowSize, plotted)
    modifies flows
    ensures AllBalanced(flows, windowSize, plotted + 1) && Ledger(flows) == old(Ledger(flows))
    ensures forall i :: 0 <= i < |flows| ==> flows[i].byteCount == 0
  {
    hide Flow.Balanced;
    for k := 0 to |flows|
      invariant forall i :: 0 <= i < k ==> flows[i].Balanced(windowSize, plotted + 1) && flows[i].byteCount == 0
      invariant forall i :: k <= i < |flows| ==> flows[i].Balanced(windowSize, plotted)
      invariant Ledger(flows) == old(Ledger(flows))
    {
      flows[k].PlotWindow(windowSize, plotted);
    }
  }

  /** The second pass: the windows of the gap, all of rate zero. */
  method PlotGaps(flows: seq<Flow>, gapCount: nat, ghost windowSize: real, ghost plotted: nat)
    requires Distinct(flows) && gapCount > 0 && AllBalanced(flows, windowSize, plotted)
    requires forall i :: 0 <= i < |flows| ==> flows[i].byteCount == 0
    modifies flows
    ensures AllBalanced(flows, windowSize, plotted + gapCount) && Ledger(flows) == old(Ledger(flows))
    ensures forall i :: 0 <= i < |flows| ==> flows[i].byteCount == 0
  {
    hide Flow.Balanced;
    for k := 0 to |flows|
      invariant forall i :: 0 <= i < k ==> flows[i].Balanced(windowSize, plotted + gapCount)
      invariant forall i :: k <= i < |flows| ==> flows[i].Balanced(windowSize, plotted)
      invariant forall i :: 0 <= i < |flows| ==> flows[i].byteCount == 0
      invariant Ledger(flows) == old(Ledger(flows))
    {
      flows[k].PlotGap(gapCount, windowSize, plotted);
    }
  }

  /** UpdateWindowPlot in RATE mode: close the window for every flow, then fill the gap up to
      `theTime` with windows of rate zero. */
  method UpdateWindowPlot(flows: seq<Flow>, theTime: real, windowStart: real, windowEnd: real, ghost plotted: nat)
    requires Distinct(flows) && windowStart < windowEnd && AllBalanced(flows, windowEnd - windowStart, plotted)
    modifies flows
    ensures var w := windowEnd - windowStart;
            AllBalanced(flows, w, plotted + 1 + Steps(windowEnd + w, theTime, w))
    ensures Ledger(flows) == old(Ledger(flows))
    ensures forall i :: 0 <= i < |flows| ==> flows[i].byteCount == 0
  {
    hide AllBalanced, Ledger;
    var windowSize := windowEnd - windowStart;
    PlotWindows(flows, windowSize, plotted);
    var gapCount, tempEnd := 0, windowEnd + windowSize;
    while theTime > tempEnd
      invariant gapCount + Steps(tempEnd, theTime, windowSize) == Steps(windowEnd + windowSize, theTime, windowSize)
      decreases Steps(tempEnd, theTime, windowSize)
    {
      gapCount := gapCount + 1;
      tempEnd := tempEnd + windowSize;
    }
    if gapCount > 0 {
      PlotGaps(flows, gapCount, windowSize, plotted + 1);
    }
  }

  lemma NewFlowBalanced(flow: Flow, window: real, plotted: nat)
    requires flow.Valid() && flow.sumInit && flow.byteCount == flow.allBytes && flow.joined == plotted
    ensures flow.Balanced(window, plotted)
  {
  }

  /** The window state of trpr's main loop, with a positive window size in RATE mode. */
  class RateMonitor {
    const updateWindow: real
    var flows: seq<Flow>
    var windowStart: real
    var windowEnd: real
    ghost var plotted: nat      // windows elapsed since the first event

    ghost predicate Valid()
      reads this, flows
    {
      && updateWindow > 0.0 && Distinct(flows)
      && (windowStart >= 0.0 ==> windowEnd == windowStart + updateWindow)
      && (windowStart < 0.0 ==> plotted == 0)
      && AllBalanced(flows, updateWindow, plotted)
    }

    constructor (updateWindow: real)
      requires updateWindow > 0.0
      ensures Valid() && flows == [] && windowStart < 0.0
    {
      this.updateWindow := updateWindow;
      flows, windowStart, windowEnd, plotted := [], -1.0, 0.0, 0;
    }

    /** A flow given on the command line, before any event. */
    method Preset()
      requires Valid() && windowStart < 0.0
      modifies this`flows
      ensures Valid() && Ledger(flows) == old(Ledger(flows)) + [Entry(0, 0, true)]
    {
      var flow := new Flow(true, 0);
      NewFlowBalanced(flow, updateWindow, plotted);
      flows := flows + [flow];
    }

    /** Adds bytes to one flow of the list. */
    method Credit(k: nat, pktSize: nat)
      requires Valid() && k < |flows|
      modifies flows
      ensures Valid() && k < |old(Ledger(flows))|
      ensures Ledger(flows) == old(Ledger(flows)[k := Ledger(flows)[k].(bytes := Ledger(flows)[k].bytes + pktSize)])
      ensures old(Ledger(flows))[k].preset == flows[k].preset
    {
      hide Flow.Balanced;
      flows[k].AddBytes(pktSize);
    }

    /** Adds the packet to every flow of the list it matches. */
    method CreditListed(m: Match, pktSize: nat) returns (recognised: bool)
      requires Valid()
      modifies flows
      ensures Valid() && Ledger(flows) == Credited(old(Ledger(flows)), m.listed, pktSize, |flows|)
      ensures recognised <==> Recognised(old(Ledger(flows)), m.listed, |flows|)
    {
      ghost var before := Ledger(flows);
      recognised := false;
      CreditStart(before, m.listed, pktSize);
      LedgerFields(flows);
      hide *;
      for k := 0 to |flows|
        invariant Valid()
        invariant Ledger(flows) == Credited(before, m.listed, pktSize, k)
        invariant recognised <==> Recognised(before, m.listed, k)
      {
        CreditStep(before, m.listed, pktSize, k);
        if k in m.listed {
          Credit(k, pktSize);
          if !flows[k].preset {
            recognised := true;
          }
        }
      }
    }

    /** Appends one new flow for every matching pattern. */
    method Discover(patterns: nat, pktSize: nat)
      requires Valid()
      modifies this`flows
      ensures Valid() && Ledger(flows) == old(Ledger(flows)) + Discovered(patterns, pktSize, plotted)
      ensures Extends(old(flows), flows)
      ensures forall i :: |old(flows)| <= i < |flows| ==> fresh(flows[i])
    {
      hide Flow.Balanced;
      for k := 0 to patterns
        invariant Valid()
        invariant Ledger(flows) == old(Ledger(flows)) + Discovered(k, pktSize, plotted)
        invariant Extends(old(flows), flows)
        invariant forall i :: |old(flows)| <= i < |flows| ==> fresh(flows[i])
      {
        var flow := new Flow(false, plotted);
        flow.AddBytes(pktSize);
        NewFlowBalanced(flow, updateWindow, plotted);
        LedgerOfMore(flows, flow);
        DiscoverStep(k, pktSize, plotted);
        flows := flows + [flow];
      }
    }

    /** Adds the packet to the flows it matches, which may be new ones. */
    method Account(m: Match, pktSize: nat)
      requires Valid()
      modifies this`flows, flows
      ensures Valid() && Ledger(flows) == AfterEvent(old(Ledger(flows)), m, pktSize, plotted)
      ensures Extends(old(flows), flows)
      ensures forall i :: |old(flows)| <= i < |flows| ==> fresh(flows[i])
    {
      hide Flow.Balanced, Credited, Discovered, Recognised;
      var recognised := CreditListed(m, pktSize);
      if !recognised {
        Discover(m.patterns, pktSize);
      } else {
        NoneDiscovered(pktSize, plotted);
      }
    }

    lemma NoneDiscovered(bytes: nat, joined: nat)
      ensures Discovered(0, bytes, joined) == []
    {
    }

    /** Moves the window boundaries to the window that holds `theTime`. */
    method AdvanceWindow(theTime: real)
      requires Valid() && windowStart >= 0.0 && theTime > windowEnd
      modifies this`windowStart, this`windowEnd
      ensures Valid() && windowStart >= 0.0
      ensures windowEnd == old(windowEnd) + Span(Steps(old(windowEnd), theTime, updateWindow), updateWindow)
      ensures theTime <= windowEnd
    {
      hide AllBalanced, Distinct;
      ghost var passed := 0;
      while theTime > windowEnd
        invariant windowEnd == old(windowEnd) + Span(passed, updateWindow)
        invariant passed + Steps(windowEnd, theTime, updateWindow) == Steps(old(windowEnd), theTime, updateWindow)
        invariant windowEnd == old(windowEnd) || windowEnd - updateWindow >= old(windowEnd)
        decreases Steps(windowEnd, theTime, updateWindow)
      {
        windowEnd := windowEnd + updateWindow;
        passed := passed + 1;
      }
      windowStart := windowEnd - updateWindow;
    }

    ghost function View(): Accounts
      reads this, flows
    {
      Accounts(windowStart >= 0.0, windowEnd, plotted, Ledger(flows))
    }

    /** One event of the loop. Every flow stays balanced, so its bytes are plotted or pending, and the
        windows closed are exactly the windows the boundaries move by. */
    method TakeEvent(e: TraceEvent)
      requires Valid() && e.time >= 0.0
      modifies this`flows, this`windowStart, this`windowEnd, this`plotted, flows
      ensures Valid() && View() == Next(old(View()), e, updateWindow) && e.time <= windowEnd
      ensures Extends(old(flows), flows)
      ensures forall i :: 0 <= i < |flows| ==> flows[i] in old(flows) || fresh(flows[i])
    {
      ViewIs();
      hide *;
      ghost var before := View();
      StartWindow(e.time);
      var late := e.time > windowEnd;
      if late {
        CloseWindows(e.time);
      }
      Account(e.matched, e.size);
      if late {
        AdvanceWindow(e.time);
      }
      ViewIs();
      EventIs(before, e);
      ExtendsIs(old(flows), flows);
    }

    /** One event, flow by flow: the listed flows gain its bytes, and unless one of them was discovered
        earlier every matching pattern starts a flow with these bytes. */
    method OnEvent(e: TraceEvent)
      requires Valid() && e.time >= 0.0
      modifies this`flows, this`windowStart, this`windowEnd, this`plotted, flows
      ensures Valid() && View() == Next(old(View()), e, updateWindow) && e.time <= windowEnd
      ensures WindowMoved(old(View()), View(), e.time, updateWindow)
      ensures Extends(old(flows), flows)
      ensures forall i :: 0 <= i < |old(flows)| ==>
                && flows[i].allBytes == old(flows[i].allBytes) + (if i in e.matched.listed then e.size else 0)
                && flows[i].joined == old(flows[i].joined)
      ensures forall i :: |old(flows)| <= i < |flows| ==>
                flows[i].allBytes == e.size && flows[i].joined == plotted && !flows[i].preset
      ensures |flows| - |old(flows)| ==
              if forall i :: 0 <= i < |old(flows)| && i in e.matched.listed ==> flows[i].preset
              then e.matched.patterns else 0
    {
      ViewIs();
      LedgerFields(flows);
      assert updateWindow > 0.0;
      hide *;
      ghost var before, ledger := View(), Ledger(flows);
      TakeEvent(e);
      ViewIs();
      NextLaw(before, e, updateWindow);
      LedgerFields(flows);
    }

    lemma LedgerFields(flows: seq<Flow>)
      ensures |Ledger(flows)| == |flows|
      ensures forall i :: 0 <= i < |flows| ==>
                Ledger(flows)[i] == Entry(flows[i].allBytes, flows[i].joined, flows[i].preset)
    {
    }

    lemma ViewIs()
      ensures View() == Accounts(windowStart >= 0.0, windowEnd, plotted, Ledger(flows))
    {
    }

    /** The accounts after an event, and that one inside the window closes none. */
    lemma EventIs(a: Accounts, e: TraceEvent)
      requires updateWindow > 0.0
      ensures var end := if a.started then a.end else e.time + updateWindow;
              var n := Steps(end, e.time, updateWindow);
              && Next(a, e, updateWindow) ==
                 Accounts(true, end + Span(n, updateWindow), a.plotted + n,
                          AfterEvent(a.ledger, e.matched, e.size, a.plotted + n))
              && (e.time <= end ==> n == 0 && Span(0, updateWindow) == 0.0)
    {
    }

    /** The event loop over a whole trace. */
    method ProcessTrace(events: seq<TraceEvent>)
      requires Valid() && forall e :: e in events ==> e.time >= 0.0
      modifies this`flows, this`windowStart, this`windowEnd, this`plotted, flows
      ensures Valid() && View() == Run(old(View()), events, updateWindow)
      ensures TotalBytes(View().ledger) ==
              old(TotalBytes(View().ledger)) + HandedOutBy(old(View()), events, updateWindow)
      ensures events != [] ==> events[|events| - 1].time <= windowEnd
    {
      assert updateWindow > 0.0;
      hide *;
      ghost var before := View();
      RunNone(before, events, updateWindow);
      for k := 0 to |events|
        invariant Valid() && View() == Run(before, events[..k], updateWindow)
        invariant k > 0 ==> events[k - 1].time <= windowEnd
        invariant forall i :: 0 <= i < |flows| ==> flows[i] in old(flows) || fresh(flows[i])
      {
        RunMore(before, events, k, updateWindow);
        assert events[k] in events;
        TakeEvent(events[k]);
      }
      assert events[..|events|] == events;
      BytesConserved(before, events, updateWindow);
    }

    /** The end of the input: the last window is plotted, a tenth of a second past the last event. */
    method Finish(theTime: real)
      requires Valid() && windowStart >= 0.0
      modifies this`plotted, flows
      ensures Ledger(flows) == old(Ledger(flows))
      ensures plotted == old(plotted) + 1 + Steps(windowEnd + updateWindow, theTime + 0.1, updateWindow)
      ensures AllBalanced(flows, updateWindow, plotted)
      ensures forall i :: 0 <= i < |flows| ==> flows[i].byteCount == 0 && flows[i].joined < plotted
    {
      assert Distinct(flows) && windowEnd == windowStart + updateWindow;
      LedgerJoined(flows, updateWindow, plotted);
      hide *;
      ghost var before := plotted;
      UpdateWindowPlot(flows, theTime + 0.1, windowStart, windowEnd, plotted);
      assert windowEnd - windowStart == updateWindow;
      plotted := plotted + 1 + Steps(windowEnd + updateWindow, theTime + 0.1, updateWindow);
      JoinedEarlier(flows, before, plotted);
    }

    /** Every flow joined by the time `plotted` windows had passed. */
    static ghost predicate JoinedBy(ledger: seq<Entry>, plotted: nat) {
      forall i :: 0 <= i < |ledger| ==> ledger[i].joined <= plotted
    }

    lemma LedgerJoined(flows: seq<Flow>, window: real, plotted: nat)
      requires AllBalanced(flows, window, plotted)
      ensures JoinedBy(Ledger(flows), plotted)
    {
    }

    lemma JoinedEarlier(flows: seq<Flow>, before: nat, plotted: nat)
      requires JoinedBy(Ledger(flows), before) && before < plotted
      ensures forall i :: 0 <= i < |flows| ==> flows[i].joined < plotted
    {
      forall i | 0 <= i < |flows| ensures flows[i].joined < plotted {
        assert Ledger(flows)[i].joined <= before;
      }
    }

    /** The first event opens the first window. */
    method StartWindow(theTime: real)
      requires Valid() && theTime >= 0.0
      modifies this`windowStart, this`windowEnd
      ensures Valid() && windowStart >= 0.0
      ensures windowEnd == if old(windowStart) < 0.0 then theTime + updateWindow else old(windowEnd)
    {
      if windowStart < 0.0 {
        windowStart := theTime;
        windowEnd := windowStart + updateWindow;
      }
    }

    /** Plots the window that ended before `theTime`, and the empty ones since. */
    method CloseWindows(theTime: real)
      requires Valid() && windowStart >= 0.0 && theTime > windowEnd
      modifies this`plotted, flows
      ensures Valid() && Ledger(flows) == old(Ledger(flows))
      ensures plotted == old(plotted) + Steps(windowEnd, theTime, updateWindow)
    {
      hide AllBalanced, Distinct, Ledger;
      UpdateWindowPlot(flows, theTime, windowStart, windowEnd, plotted);
      plotted := plotted + Steps(windowEnd, theTime, updateWindow);
    }
  }

  /** Once everything is plotted, the average reported for a flow is all its bytes over all its time. */
  lemma AverageIsOverallRate(flow: Flow, window: real, plotted: nat)
    requires flow.Balanced(window, plotted) && flow.byteCount == 0 && plotted > flow.joined && window > 0.0
    ensures flow.sumWeight > 0.0
    ensures flow.sumTotal / flow.sumWeight * ((plotted - flow.joined) as real * window) == 0.008 * flow.allBytes as real
  {
    var n := (plotted - flow.joined) as real;
    assert flow.sumTotal / n * n == flow.sumTotal;
    assert flow.sumTotal / n * (n * window) == (flow.sumTotal / n * n) * window;
  }
}
