/** The tiny classifier in matrix form, over the reals: x -> W2 * relu(W1 * x + b1) + b2, and
    the first class with the greatest score. */
module MlpNet {
  datatype Net = Net(w1: seq<seq<real>>, b1: seq<real>, w2: seq<seq<real>>, b2: seq<real>)

  predicate Shaped(n: Net, nIn: nat) {
    && |n.w1| == |n.b1| && |n.w2| == |n.b2|
    && (forall i :: 0 <= i < |n.w1| ==> |n.w1[i]| == nIn)
    && (forall i :: 0 <= i < |n.w2| ==> |n.w2[i]| == |n.b1|)
  }

  // The first k products.
  function Dot(r: seq<real>, x: seq<real>, k: nat): real
    requires k <= |r| && k <= |x|
  {
    if k == 0 then 0.0 else Dot(r, x, k - 1) + r[k - 1] * x[k - 1]
  }

  function Relu(a: real): real {
    if a > 0.0 then a else 0.0
  }

  function Hidden(n: Net, nIn: nat, x: seq<real>): (h: seq<real>)
    requires Shaped(n, nIn) && nIn <= |x|
    ensures |h| == |n.b1|
  {
    seq(|n.b1|, i requires 0 <= i < |n.b1| => Relu(Dot(n.w1[i], x, nIn) + n.b1[i]))
  }

  function Scores(n: Net, nIn: nat, x: seq<real>): (o: seq<real>)
    requires Shaped(n, nIn) && nIn <= |x|
    ensures |o| == |n.b2|
  {
    var h := Hidden(n, nIn, x);
    seq(|n.b2|, i requires 0 <= i < |n.b2| => Dot(n.w2[i], h, |n.b1|) + n.b2[i])
  }

  // `best` is the first index of the maximum.
  ghost predicate IsFirstMax(o: seq<real>, best: nat) {
    && best < |o|
    && (forall k :: 0 <= k < |o| ==> o[k] <= o[best])
    && (forall k :: 0 <= k < best ==> o[k] < o[best])
  }

  lemma FirstMaxIsUnique(o: seq<real>, a: nat, b: nat)
    requires IsFirstMax(o, a) && IsFirstMax(o, b)
    ensures a == b
  {
    assert o[a] <= o[b] && o[b] <= o[a];
  }
}

/** The banded three-class models: class 0 below `lo`, class 1 between, class 2 above `hi`, on
    one linear feature of the inputs. */
module MlpBands {
  import opened MlpNet

  const K := 1000.0
  const H := 1000000.0

  function Banded(feat: seq<real>, lo: real, hi: real): Net
    requires |feat| == 2
  {
    Net([feat, feat], [-lo, -hi],
        [[-K, 0.0], [K, -H], [0.0, H]], [0.5, 0.0, -0.5])
  }

  function Projection(feat: seq<real>, x: seq<real>): real
    requires |feat| == 2 && |x| >= 2
  {
    feat[0] * x[0] + feat[1] * x[1]
  }

  // The three scores as functions of the projection.
  function BandScores(p: real, lo: real, hi: real): seq<real> {
    var h1, h2 := Relu(p - lo), Relu(p - hi);
    [0.5 - K * h1, K * h1 - H * h2, H * h2 - 0.5]
  }

  lemma DotOfTwo(r: seq<real>, x: seq<real>)
    requires |r| >= 2 && |x| >= 2
    ensures Dot(r, x, 2) == r[0] * x[0] + r[1] * x[1]
  {
    assert Dot(r, x, 1) == Dot(r, x, 0) + r[0] * x[0];
  }

  lemma BandedScores(feat: seq<real>, lo: real, hi: real, x: seq<real>)
    requires |feat| == 2 && |x| >= 2
    ensures var n := Banded(feat, lo, hi);
      Shaped(n, 2) && Scores(n, 2, x) == BandScores(Projection(feat, x), lo, hi)
  {
    var n := Banded(feat, lo, hi);
    var h := Hidden(n, 2, x);
    DotOfTwo(feat, x);
    DotOfTwo(n.w2[0], h);
    DotOfTwo(n.w2[1], h);
    DotOfTwo(n.w2[2], h);
  }

  // Where class 0 hands over to class 1, and class 1 to class 2.
  function FirstCut(lo: real): real {
    lo + 1.0 / (4.0 * K)
  }

  function SecondCut(lo: real, hi: real): real {
    hi + (K * (hi - lo) + 0.5) / (2.0 * H - K)
  }

  function Class(p: real, lo: real, hi: real): nat {
    if p <= FirstCut(lo) then 0 else if p <= SecondCut(lo, hi) then 1 else 2
  }

  /** For every real input the model decides the three classes in order, cut at exactly these two
      points, whenever the band is wider than 0.0004995. */
  lemma BandsAreExact(p: real, lo: real, hi: real)
    requires hi - lo > 0.0004995
    ensures IsFirstMax(BandScores(p, lo, hi), Class(p, lo, hi))
  {
    var d := hi - lo;
    assert SecondCut(lo, hi) == hi + (1000.0 * d + 0.5) / 1999000.0;
    assert FirstCut(lo) == lo + 0.00025;
    var o := BandScores(p, lo, hi);
    if p <= lo {
      assert o == [0.5, 0.0, -0.5];
    } else if p <= hi {
      assert o == [0.5 - 1000.0 * (p - lo), 1000.0 * (p - lo), -0.5];
    } else {
      var e := p - hi;
      assert o == [0.5 - 1000.0 * (d + e), 1000.0 * (d + e) - 1000000.0 * e, 1000000.0 * e - 0.5];
    }
  }

  // The scores above the upper threshold, d wide and e above it.
  lemma ScoresAbove(lo: real, hi: real, e: real)
    requires lo < hi && e > 0.0
    ensures var d := hi - lo;
      BandScores(hi + e, lo, hi) == [0.5 - 1000.0 * (d + e), 1000.0 * (d + e) - 1000000.0 * e, 1000000.0 * e - 0.5]
  {
  }

  // In a band this narrow classes 0 and 2 meet where class 1 does not win.
  lemma NarrowBandFails(lo: real, hi: real)
    requires 0.0 < hi - lo <= 0.0004995 && hi - lo != 0.00024925
    ensures exists p :: !IsFirstMax(BandScores(p, lo, hi), Class(p, lo, hi))
  {
    var d := hi - lo;
    var e := (1.0 - 1000.0 * d) / 1001000.0;
    var p := if d + e > 0.00025 then hi + e else FirstCut(lo);
    ScoresAbove(lo, hi, p - hi);
    assert FirstCut(lo) == lo + 0.00025;
    var o := BandScores(p, lo, hi);
    if d + e > 0.00025 {
      assert Class(p, lo, hi) != 0 && o[0] == o[2] >= o[1];
    } else {
      assert d + e == 0.00025 ==> d == 0.00024925;
      assert Class(p, lo, hi) == 0 && o[2] > o[0];
    }
    assert !IsFirstMax(o, Class(p, lo, hi));
  }

  lemma CoincidentBand(p: real, lo: real, hi: real)
    requires hi - lo == 0.00024925
    ensures IsFirstMax(BandScores(p, lo, hi), Class(p, lo, hi))
  {
    assert SecondCut(lo, hi) == hi + (1000.0 * (hi - lo) + 0.5) / 1999000.0;
    assert FirstCut(lo) == lo + 0.00025;
    if p > hi {
      ScoresAbove(lo, hi, p - hi);
    }
  }

  /** The exact condition on the width: every real input is decided by the two cuts if and only
      if the band is wider than 0.0004995, or has the one width at which class 1 is empty and
      the cuts coincide with where class 2 takes over from class 0. */
  lemma BandsAreExactIff(lo: real, hi: real)
    requires lo < hi
    ensures (forall p :: IsFirstMax(BandScores(p, lo, hi), Class(p, lo, hi)))
            <==> hi - lo > 0.0004995 || hi - lo == 0.00024925
  {
    if hi - lo > 0.0004995 {
      forall p ensures IsFirstMax(BandScores(p, lo, hi), Class(p, lo, hi)) { BandsAreExact(p, lo, hi); }
    } else if hi - lo == 0.00024925 {
      forall p ensures IsFirstMax(BandScores(p, lo, hi), Class(p, lo, hi)) { CoincidentBand(p, lo, hi); }
    } else {
      NarrowBandFails(lo, hi);
    }
  }

  // The class that the band of p asks for.
  function Band(p: real, lo: real, hi: real): nat {
    if p < lo then 0 else if p < hi then 1 else 2
  }

  const GUARD := 0.005

  predicate Guarded(p: real, lo: real, hi: real) {
    -GUARD < p - lo < GUARD || -GUARD < p - hi < GUARD
  }

  /** The tool samples a grid and skips a guard of 0.005 around both thresholds.  Outside the
      guard every real input gets the class of its band if and only if the band is narrower
      than 9.9945. */
  lemma GuardIsExact(lo: real, hi: real)
    requires lo < hi
    ensures (forall p :: !Guarded(p, lo, hi) ==> IsFirstMax(BandScores(p, lo, hi), Band(p, lo, hi)))
            <==> hi - lo < 9.9945
  {
    if hi - lo < 9.9945 {
      forall p | !Guarded(p, lo, hi)
        ensures IsFirstMax(BandScores(p, lo, hi), Band(p, lo, hi))
      {
        OutsideGuard(p, lo, hi);
      }
    } else {
      var p := hi + GUARD;
      assert !Guarded(p, lo, hi) && Band(p, lo, hi) == 2;
      assert BandScores(p, lo, hi)[1] >= BandScores(p, lo, hi)[2];
      assert !IsFirstMax(BandScores(p, lo, hi), Band(p, lo, hi));
    }
  }

  lemma OutsideGuard(p: real, lo: real, hi: real)
    requires 0.0 < hi - lo < 9.9945 && !Guarded(p, lo, hi)
    ensures IsFirstMax(BandScores(p, lo, hi), Band(p, lo, hi))
  {
    var o := BandScores(p, lo, hi);
    if p < lo {
      assert o == [0.5, 0.0, -0.5];
    } else if p < hi {
      assert o == [0.5 - 1000.0 * (p - lo), 1000.0 * (p - lo), -0.5];
    } else {
      var d, e := hi - lo, p - hi;
      assert o == [0.5 - 1000.0 * (d + e), 1000.0 * (d + e) - 1000000.0 * e, 1000000.0 * e - 0.5];
    }
  }
}
