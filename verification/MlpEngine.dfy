/** The firmware's inference loop: it reads the weights by flat index straight from the blob,
    keeps the best class while it computes the scores, and reports a softmax confidence.

    Arithmetic is over the reals, and `val` says which real a weight word stands for. */
module MlpEngine {
  import opened Bytes
  import opened MlpNet
  import opened MlpBands
  import opened MlpBlob

  // The network that a valid blob holds.
  function NetIn(b: seq<byte>, val: Word -> real): (n: Net)
    requires Validate(b) == Valid
    ensures Shaped(n, b[8]) && |n.b1| == b[9] && |n.b2| == b[10]
  {
    NetOf(Weights(b, val), b[8], b[9], b[10])
  }

  // What is assumed of the exponential.
  ghost predicate IsExp(exp: real -> real) {
    && exp(0.0) == 1.0 && (forall a :: exp(a) > 0.0)
    && forall a, b :: a <= b ==> exp(a) <= exp(b)
  }

  lemma ValidHeader(b: seq<byte>)
    requires Validate(b) == Valid
    ensures |b| == HDR_LEN + 4 * WeightCount(b[8], b[9], b[10]) && b[8] >= 1 && b[9] >= 1 && b[10] >= 1
  {
    WeightsLenIs(b[8], b[9], b[10]);
  }

  // A product, known to be an area.
  function Times(a: nat, b: nat): (r: nat)
    ensures r == Area(a, b)
  {
    AreaIsProduct(a, b);
    a * b
  }

  // All weights of a blob, by flat index.
  function Weights(b: seq<byte>, val: Word -> real): (v: seq<real>)
    requires Validate(b) == Valid
    ensures |v| == WeightCount(b[8], b[9], b[10])
  {
    Values(WordsOf(b), val)
  }

  lemma SliceOfSlice(v: seq<real>, lo: nat, hi: nat, a: nat, b: nat)
    requires lo <= hi <= |v| && a <= b <= hi - lo
    ensures v[lo..hi][a..b] == v[lo + a..lo + b]
  {
    var l, r := v[lo..hi][a..b], v[lo + a..lo + b];
    assert forall k :: 0 <= k < b - a ==> l[k] == v[lo + a + k] == r[k];
  }

  // Where row i of each layer, and the biases, lie in the flat order.
  lemma FirstLayerRow(v: seq<real>, nIn: nat, nHid: nat, nOut: nat, i: nat)
    requires |v| == WeightCount(nIn, nHid, nOut) && i < nHid
    ensures var at := Area(i, nIn);
      at + nIn <= |v| && NetOf(v, nIn, nHid, nOut).w1[i] == v[at..at + nIn]
  {
    var o1, at := Area(nHid, nIn), Area(i, nIn);
    RowSlice(v[..o1], nHid, nIn, i);
    SliceOfSlice(v, 0, o1, at, at + nIn);
    assert v[0..o1] == v[..o1];
  }

  lemma SecondLayerRow(v: seq<real>, nIn: nat, nHid: nat, nOut: nat, i: nat)
    requires |v| == WeightCount(nIn, nHid, nOut) && i < nOut
    ensures var w2 := Area(nHid, nIn) + nHid; var at := w2 + Area(i, nHid);
      at + nHid <= |v| && NetOf(v, nIn, nHid, nOut).w2[i] == v[at..at + nHid]
  {
    var w2, at := Area(nHid, nIn) + nHid, Area(i, nHid);
    var b2 := w2 + Area(nOut, nHid);
    RowSlice(v[w2..b2], nOut, nHid, i);
    hide Area, Rows;
    SliceOfSlice(v, w2, b2, at, at + nHid);
  }

  lemma Biases(v: seq<real>, nIn: nat, nHid: nat, nOut: nat)
    requires |v| == WeightCount(nIn, nHid, nOut)
    ensures var n, b1 := NetOf(v, nIn, nHid, nOut), Area(nHid, nIn); var b2 := b1 + nHid + Area(nOut, nHid);
      && |v| == b2 + nOut
      && (forall i :: 0 <= i < nHid ==> n.b1[i] == v[b1 + i])
      && (forall i :: 0 <= i < nOut ==> n.b2[i] == v[b2 + i])
  {
  }

  // One output of a layer: the bias, then the products, in the order of the firmware.
  method Neuron(w: seq<real>, row: nat, bias: nat, x: seq<real>, n: nat) returns (a: real)
    requires n <= |x| && row + n <= |w| && bias < |w|
    ensures a == Dot(w[row..row + n], x, n) + w[bias]
  {
    a := w[bias];
    for j := 0 to n
      invariant a == Dot(w[row..row + n], x, j) + w[bias]
    {
      a := a + w[row + j] * x[j];
    }
  }

  lemma Reciprocal(d: real, n: real)
    requires 1.0 <= d <= n
    ensures 1.0 / n <= 1.0 / d <= 1.0 && (d > 1.0 ==> 1.0 / d < 1.0)
  {
  }

  // The first k terms of the softmax denominator, with m subtracted from every score.
  function ExpSum(o: seq<real>, m: real, exp: real -> real, k: nat): real
    requires k <= |o|
  {
    if k == 0 then 0.0 else ExpSum(o, m, exp, k - 1) + exp(o[k - 1] - m)
  }

  // One over the sum of exp(o[k] - o[best]) for every class k: the softmax of the winner.
  predicate IsSoftmax(score: real, o: seq<real>, best: nat, exp: real -> real)
    requires best < |o|
  {
    score * ExpSum(o, o[best], exp, |o|) == 1.0
  }

  /** Softmax of the winner: with every score at most the winner's, each term is in (0, 1] and
      the winner's own is 1. */
  method Confidence(o: seq<real>, best: nat, exp: real -> real) returns (score: real)
    requires IsExp(exp) && best < |o| && forall k :: 0 <= k < |o| ==> o[k] <= o[best]
    ensures IsSoftmax(score, o, best, exp)
    ensures 1.0 / |o| as real <= score <= 1.0
    ensures score == 1.0 <==> |o| == 1
  {
    var denom := 0.0;
    for i := 0 to |o|
      invariant denom == ExpSum(o, o[best], exp, i)
      invariant (if i > best then 1.0 else 0.0) <= denom <= i as real
      invariant i > 0 ==> denom > 0.0
      invariant i > best && i > 1 ==> denom > 1.0
    {
      assert exp(o[i] - o[best]) <= exp(0.0);
      assert i == best ==> o[i] - o[best] == 0.0;
      denom := denom + exp(o[i] - o[best]);
    }
    Reciprocal(denom, |o| as real);
    score := if denom > 0.0 then 1.0 / denom else 0.0;
  }

  // A network given by its dimensions and its flat weight list.
  datatype Dims = Dims(nIn: nat, nHid: nat, nOut: nat)

  predicate Fits(d: Dims, w: seq<real>, x: seq<real>) {
    |w| == WeightCount(d.nIn, d.nHid, d.nOut) && d.nIn <= |x| && d.nHid > 0 && d.nOut > 0
  }

  function HiddenOf(d: Dims, w: seq<real>, x: seq<real>): (h: seq<real>)
    requires Fits(d, w, x)
    ensures |h| == d.nHid
  {
    Hidden(NetOf(w, d.nIn, d.nHid, d.nOut), d.nIn, x)
  }

  function ScoresOf(d: Dims, w: seq<real>, x: seq<real>): (o: seq<real>)
    requires Fits(d, w, x)
    ensures |o| == d.nOut
  {
    Scores(NetOf(w, d.nIn, d.nHid, d.nOut), d.nIn, x)
  }

  // One row of the first layer, at the front of the weight section.
  method HiddenUnit(d: Dims, w: seq<real>, x: seq<real>, i: nat) returns (a: real)
    requires Fits(d, w, x) && i < d.nHid
    ensures Relu(a) == HiddenOf(d, w, x)[i]
  {
    hide NetOf, WeightCount, Dot, Area, Times, Relu;
    Biases(w, d.nIn, d.nHid, d.nOut);
    FirstLayerRow(w, d.nIn, d.nHid, d.nOut, i);
    a := Neuron(w, Times(i, d.nIn), Times(d.nHid, d.nIn) + i, x, d.nIn);
  }

  // One row of the second layer.
  method OutputUnit(d: Dims, w: seq<real>, ghost x: seq<real>, h: seq<real>, i: nat) returns (a: real)
    requires Fits(d, w, x) && h == HiddenOf(d, w, x) && i < d.nOut
    ensures a == ScoresOf(d, w, x)[i]
  {
    hide NetOf, WeightCount, Dot, Area, Times, Hidden;
    var w2 := Times(d.nHid, d.nIn) + d.nHid;
    Biases(w, d.nIn, d.nHid, d.nOut);
    SecondLayerRow(w, d.nIn, d.nHid, d.nOut, i);
    a := Neuron(w, w2 + Times(i, d.nHid), w2 + Times(d.nOut, d.nHid) + i, h, d.nHid);
  }

  method HiddenLayer(d: Dims, w: seq<real>, x: seq<real>) returns (h: seq<real>)
    requires Fits(d, w, x)
    ensures h == HiddenOf(d, w, x)
  {
    hide Fits, HiddenOf;
    ghost var target := HiddenOf(d, w, x);
    h := [];
    for i := 0 to d.nHid
      invariant h == target[..i]
    {
      var a := HiddenUnit(d, w, x, i);
      h := h + [if a > 0.0 then a else 0.0];
    }
    assert target[..d.nHid] == target;
  }

  // A later score replaces the best only if it is greater.
  lemma RunningBest(o: seq<real>, best: nat, a: real)
    requires if o == [] then best == 0 else IsFirstMax(o, best)
    ensures IsFirstMax(o + [a], if a > (o + [a])[best] then |o| else best)
  {
  }

  // The output layer, with the running best.
  method OutputLayer(d: Dims, w: seq<real>, ghost x: seq<real>, h: seq<real>) returns (o: seq<real>, best: nat)
    requires Fits(d, w, x) && h == HiddenOf(d, w, x)
    ensures o == ScoresOf(d, w, x) && IsFirstMax(o, best)
  {
    assert d.nOut > 0;
    hide Fits, HiddenOf, ScoresOf, IsFirstMax;
    ghost var target := ScoresOf(d, w, x);
    o, best := [], 0;
    for i := 0 to d.nOut
      invariant o == target[..i]
      invariant if i == 0 then best == 0 else best < i && IsFirstMax(o, best)
    {
      var a := OutputUnit(d, w, x, h, i);
      RunningBest(o, best, a);
      o := o + [a];
      if a > o[best] {
        best := i;
      }
    }
    assert target[..d.nOut] == target;
  }

  // A valid blob's dimensions and flat weights give the scores of the network it holds.
  lemma ScoresInBlob(b: seq<byte>, val: Word -> real, x: seq<real>)
    requires Validate(b) == Valid && b[8] <= |x|
    ensures |b| >= HDR_LEN
    ensures var d, w := Dims(b[8], b[9], b[10]), Weights(b, val);
      Fits(d, w, x) && ScoresOf(d, w, x) == Scores(NetIn(b, val), b[8], x)
  {
    ValidHeader(b);
    hide Validate, Weights, Scores, NetOf, WeightCount;
  }

  /** Inference on any valid blob, whose weight section is read as an array of floats: the class
      is the first maximum of the matrix form, and the confidence is its softmax, between
      1 / classes and 1. */
  method Infer(b: seq<byte>, val: Word -> real, x: seq<real>, exp: real -> real) returns (best: nat, score: real)
    requires Validate(b) == Valid && b[8] <= |x| && IsExp(exp)
    ensures IsFirstMax(Scores(NetIn(b, val), b[8], x), best)
    ensures IsSoftmax(score, Scores(NetIn(b, val), b[8], x), best, exp)
    ensures 1.0 / b[10] as int as real <= score <= 1.0
  {
    ScoresInBlob(b, val, x);
    hide Validate, NetIn, Weights, IsExp, Scores, ScoresOf, HiddenOf, NetOf, WeightCount, Fits, IsSoftmax;
    var d, w := Dims(b[8], b[9], b[10]), Weights(b, val);
    var h := HiddenLayer(d, w, x);
    var o;
    o, best := OutputLayer(d, w, x, h);
    score := Confidence(o, best, exp);
  }

  /** The engine on a packed model computes the model's own matrices. */
  lemma EngineMeetsModel(m: Model, val: Word -> real)
    requires Packable(m) && NIn(m) >= 1 && |m.b2| >= 1 && LabelsFit(m)
    ensures Validate(Pack(m)) == Valid && NetIn(Pack(m), val) == Meaning(m, val)
  {
    PackValidates(m);
    WordsReadBack(m);
    PackedNetIsMeaning(m, val);
  }

  /** End to end: whatever class the engine reports for a packed banded model is the one that the
      two cuts of the band prescribe, for every real input. */
  lemma BandedModelDecides(m: Model, val: Word -> real, feat: seq<real>, lo: real, hi: real, x: seq<real>, best: nat)
    requires Packable(m) && NIn(m) == 2 && |m.b2| == 3 && |feat| == 2 && |x| >= 2
    requires Meaning(m, val) == Banded(feat, lo, hi) && hi - lo > 0.0004995
    requires Validate(Pack(m)) == Valid && Pack(m)[8] == 2 && IsFirstMax(Scores(NetIn(Pack(m), val), 2, x), best)
    ensures best == Class(Projection(feat, x), lo, hi)
  {
    PackValidates(m);
    EngineMeetsModel(m, val);
    hide Validate, Pack, NetIn, Scores, BandScores, Class, IsFirstMax, Banded;
    BandedScores(feat, lo, hi, x);
    BandsAreExact(Projection(feat, x), lo, hi);
    FirstMaxIsUnique(Scores(NetIn(Pack(m), val), 2, x), best, Class(Projection(feat, x), lo, hi));
  }

  /** End to end, outside the guard of 0.005 around both thresholds: for every real input the engine
      reports the band that the input falls in, as long as the band is narrower than 9.9945. */
  lemma BandedModelOutsideGuard(m: Model, val: Word -> real, feat: seq<real>, lo: real, hi: real,
                                x: seq<real>, best: nat)
    requires Packable(m) && NIn(m) == 2 && |m.b2| == 3 && |feat| == 2 && |x| >= 2
    requires Meaning(m, val) == Banded(feat, lo, hi) && 0.0 < hi - lo < 9.9945 && !Guarded(Projection(feat, x), lo, hi)
    requires Validate(Pack(m)) == Valid && Pack(m)[8] == 2 && IsFirstMax(Scores(NetIn(Pack(m), val), 2, x), best)
    ensures best == Band(Projection(feat, x), lo, hi)
  {
    PackValidates(m);
    EngineMeetsModel(m, val);
    hide Validate, Pack, NetIn, Scores, BandScores, Band, IsFirstMax, Banded, Guarded;
    BandedScores(feat, lo, hi, x);
    OutsideGuard(Projection(feat, x), lo, hi);
    FirstMaxIsUnique(Scores(NetIn(Pack(m), val), 2, x), best, Band(Projection(feat, x), lo, hi));
  }
}
