/** The vibration window: one-pass variance of the accelerometer samples and the majority vote
    of the per-sample classes.  Arithmetic is over the reals. */
module Vibration {

  const ST_COUNT := 4

  function Sum(s: seq<real>): real {
    if s == [] then 0.0 else Sum(s[..|s| - 1]) + s[|s| - 1]
  }

  function SumSq(s: seq<real>): real {
    if s == [] then 0.0 else SumSq(s[..|s| - 1]) + s[|s| - 1] * s[|s| - 1]
  }

  function Sq(d: real): real {
    d * d
  }

  // Squared deviations from m.
  function SumDev(s: seq<real>, m: real): real {
    if s == [] then 0.0 else SumDev(s[..|s| - 1], m) + Sq(s[|s| - 1] - m)
  }

  function Mean(s: seq<real>): real
    requires s != []
  {
    Sum(s) / |s| as real
  }

  // The two-pass definition.
  function MeanSquaredDeviation(s: seq<real>): real
    requires s != []
  {
    SumDev(s, Mean(s)) / |s| as real
  }

  // What the window loop computes from its running sums.
  function OnePassVariance(sum: real, sumsq: real, n: nat): real {
    if n == 0 then 0.0 else sumsq / n as real - (sum / n as real) * (sum / n as real)
  }

  // n squared deviations from m, multiplied out: a is the sum and b the sum of squares.
  function Expanded(a: real, b: real, n: real, m: real): real {
    b - 2.0 * m * a + n * (m * m)
  }

  lemma NoDeviation(m: real)
    ensures Expanded(0.0, 0.0, 0.0, m) == 0.0
  {
  }

  lemma OneMoreDeviation(a: real, b: real, n: real, m: real, x: real)
    ensures Expanded(a, b, n, m) + Sq(x - m) == Expanded(a + x, b + x * x, n + 1.0, m)
  {
    assert (x - m) * (x - m) == x * x - 2.0 * m * x + m * m;
    assert 2.0 * m * (a + x) == 2.0 * m * a + 2.0 * m * x;
    assert (n + 1.0) * (m * m) == n * (m * m) + m * m;
  }

  lemma {:induction false} DevExpands(s: seq<real>, m: real)
    ensures SumDev(s, m) == Expanded(Sum(s), SumSq(s), |s| as real, m)
  {
    hide Expanded, Sq;
    if s == [] {
      NoDeviation(m);
      assert |s| as real == 0.0;
      assert Sum(s) == 0.0 && SumSq(s) == 0.0 && SumDev(s, m) == 0.0;
    } else {
      var t, x := s[..|s| - 1], s[|s| - 1];
      DevExpands(t, m);
      OneMoreDeviation(Sum(t), SumSq(t), |t| as real, m, x);
      var a, b, n := Sum(t) + x, SumSq(t) + x * x, |t| as real + 1.0;
      assert Sum(s) == a && SumSq(s) == b && |s| as real == n;
      assert SumDev(s, m) == SumDev(t, m) + Sq(x - m) == Expanded(a, b, n, m);
    }
  }

  lemma VarianceAlgebra(sum: real, sq: real, n: real)
    requires n > 0.0
    ensures var m := sum / n; (sq - 2.0 * m * sum + n * (m * m)) / n == sq / n - m * m
  {
    var m := sum / n;
    assert m * n == sum;
    assert m * sum == (m * m) * n;
    var d := sq - 2.0 * m * sum + n * (m * m);
    assert d == sq - (m * m) * n;
    assert d / n == sq / n - (m * m) * n / n;
    assert (m * m) * n / n == m * m;
  }

  /** The one-pass formula is the mean squared deviation. */
  lemma OnePassIsTwoPass(s: seq<real>)
    requires s != []
    ensures OnePassVariance(Sum(s), SumSq(s), |s|) == MeanSquaredDeviation(s)
  {
    DevExpands(s, Mean(s));
    VarianceAlgebra(Sum(s), SumSq(s), |s| as real);
  }

  lemma PositiveSquare(d: real)
    requires d > 0.0
    ensures Sq(d) > 0.0
  {
    calc {
      Sq(d);
    ==
      d * d;
    >  { assert d * d > 0.0 * d; }
      0.0;
    }
  }

  lemma SquareSign(d: real)
    ensures d != 0.0 ==> Sq(d) > 0.0
    ensures d == 0.0 ==> Sq(d) == 0.0
  {
    if d > 0.0 {
      PositiveSquare(d);
    } else if d < 0.0 {
      PositiveSquare(-d);
      assert Sq(-d) == Sq(d);
    } else {
      assert Sq(0.0) == 0.0;
    }
    hide Sq;
  }

  predicate AllEqual(s: seq<real>, m: real) {
    forall i :: 0 <= i < |s| ==> s[i] == m
  }

  lemma {:induction false} DevSign(s: seq<real>, m: real)
    ensures SumDev(s, m) >= 0.0
    ensures SumDev(s, m) == 0.0 <==> AllEqual(s, m)
  {
    if s != [] {
      var t, x := s[..|s| - 1], s[|s| - 1];
      DevSign(t, m);
      SquareSign(x - m);
      hide Sq;
      assert AllEqual(s, m) <==> AllEqual(t, m) && x == m by {
        assert forall i :: 0 <= i < |t| ==> t[i] == s[i];
        assert x == s[|s| - 1];
      }
    }
  }

  lemma {:induction false} SumOfEqual(s: seq<real>, m: real)
    requires AllEqual(s, m)
    ensures Sum(s) == m * |s| as real
  {
    if s != [] {
      SumOfEqual(s[..|s| - 1], m);
      assert |s| as real == (|s| - 1) as real + 1.0;
    }
  }

  lemma QuotientSign(d: real, n: real)
    requires d >= 0.0 && n > 0.0
    ensures d / n >= 0.0 && (d / n == 0.0 <==> d == 0.0)
  {
    assert d / n * n == d;
  }

  lemma MeanOfEqual(s: seq<real>, m: real)
    requires s != [] && AllEqual(s, m)
    ensures Mean(s) == m
  {
    SumOfEqual(s, m);
    var n := |s| as real;
    assert m * n / n == m;
  }

  /** The variance is never negative, and is zero exactly when all samples agree. */
  lemma VarianceSign(s: seq<real>)
    requires s != []
    ensures OnePassVariance(Sum(s), SumSq(s), |s|) >= 0.0
    ensures OnePassVariance(Sum(s), SumSq(s), |s|) == 0.0 <==> AllEqual(s, s[0])
  {
    OnePassIsTwoPass(s);
    DevSign(s, Mean(s));
    QuotientSign(SumDev(s, Mean(s)), |s| as real);
    hide OnePassVariance, SumDev, Sum, SumSq, Mean;
    if AllEqual(s, s[0]) {
      MeanOfEqual(s, s[0]);
    }
    assert AllEqual(s, Mean(s)) ==> s[0] == Mean(s);
  }

  // ---------- the vote ----------

  function Count(cs: seq<nat>, c: nat): nat {
    if cs == [] then 0 else Count(cs[..|cs| - 1], c) + if cs[|cs| - 1] == c then 1 else 0
  }

  // The classifier's answer for one reading: it fails, or it gives a class and the probability of
  // each of the four states.
  datatype Probs = Probs(idle: real, balanced: real, unbalanced: real, both: real)
  datatype Answer = Failed | Class(c: int, prob: Probs)

  // The readings that vote for class c.
  function Voters(a: seq<Answer>, c: nat): set<nat> {
    set i: nat | i < |a| && a[i].Class? && a[i].c == c
  }

  /** The votes for a class are the readings that the classifier put in it. */
  lemma {:induction false} VotesAre(a: seq<Answer>, c: nat)
    requires c < 4
    ensures Count(Voted(a), c) == |Voters(a, c)|
  {
    if a != [] {
      var before, last := a[..|a| - 1], a[|a| - 1];
      VotesAre(before, c);
      var mine := last.Class? && last.c == c;
      assert Voters(a, c) == Voters(before, c) + if mine then {|a| - 1} else {};
      if last.Class? && 0 <= last.c < ST_COUNT {
        CountOneMore(Voted(before), last.c);
      }
    }
  }

  function Voted(a: seq<Answer>): (cs: seq<nat>)
    ensures forall i :: 0 <= i < |cs| ==> cs[i] < ST_COUNT
  {
    if a == [] then []
    else
      var before, last := Voted(a[..|a| - 1]), a[|a| - 1];
      if last.Class? && 0 <= last.c < ST_COUNT then before + [last.c] else before
  }

  // The least class with the most votes.
  ghost predicate IsMajority(cs: seq<nat>, m: nat) {
    && m < ST_COUNT
    && (forall c :: 0 <= c < ST_COUNT ==> Count(cs, c) <= Count(cs, m))
    && (forall c :: 0 <= c < m ==> Count(cs, c) < Count(cs, m))
  }

  lemma {:induction false} VotesAddUp(cs: seq<nat>)
    requires forall i :: 0 <= i < |cs| ==> cs[i] < ST_COUNT
    ensures Count(cs, 0) + Count(cs, 1) + Count(cs, 2) + Count(cs, 3) == |cs|
  {
    if cs != [] {
      VotesAddUp(cs[..|cs| - 1]);
    }
  }

  // The fault probabilities of the readings that count.
  function FaultSum(a: seq<Answer>): real {
    if a == [] then 0.0
    else
      var before, last := FaultSum(a[..|a| - 1]), a[|a| - 1];
      if last.Class? && 0 <= last.c < ST_COUNT then before + last.prob.unbalanced + last.prob.both else before
  }

  /** The sum of two stretches of readings, and what one reading adds: the probability of the two
      states in which the unbalanced motor runs, if the class is one of the four. */
  lemma {:induction false} FaultsAdd(a: seq<Answer>, b: seq<Answer>)
    ensures FaultSum(a + b) == FaultSum(a) + FaultSum(b)
  {
    if b == [] {
      assert a + b == a;
    } else {
      assert (a + b)[..|a + b| - 1] == a + b[..|b| - 1];
      FaultsAdd(a, b[..|b| - 1]);
    }
  }

  lemma FaultOfOne(c: int, p: Probs)
    ensures FaultSum([Class(c, p)]) == if 0 <= c <= 3 then p.unbalanced + p.both else 0.0
    ensures FaultSum([Failed]) == 0.0
  {
    assert [Class(c, p)][..0] == [] && [Failed][..0] == [];
  }

  ghost predicate AreProbabilities(a: seq<Answer>) {
    forall i :: 0 <= i < |a| && a[i].Class? ==> 0.0 <= a[i].prob.unbalanced + a[i].prob.both <= 1.0
  }

  /** With probabilities between 0 and 1 their mean over the readings classified is one too. */
  lemma {:induction false} FaultIsBounded(a: seq<Answer>)
    requires AreProbabilities(a)
    ensures 0.0 <= FaultSum(a) <= |Voted(a)| as real
  {
    if a != [] {
      FaultIsBounded(a[..|a| - 1]);
    }
  }

  lemma MeanIsBounded(sum: real, n: real)
    requires n > 0.0
    ensures 0.0 <= sum <= n ==> 0.0 <= sum / n <= 1.0
  {
    assert sum / n * n == sum;
  }

  lemma CountOneMore(cs: seq<nat>, last: nat)
    ensures forall c :: Count(cs + [last], c) == Count(cs, c) + if c == last then 1 else 0
  {
    assert (cs + [last])[..|cs|] == cs;
  }

  // The least index with the most votes.
  method Winner(votes: array<nat>) returns (best: nat)
    requires votes.Length == ST_COUNT
    ensures best < ST_COUNT
    ensures forall c :: 0 <= c < ST_COUNT ==> votes[c] <= votes[best]
    ensures forall c :: 0 <= c < best ==> votes[c] < votes[best]
  {
    best := 0;
    for i := 1 to ST_COUNT
      invariant best < i
      invariant forall c :: 0 <= c < i ==> votes[c] <= votes[best]
      invariant forall c :: 0 <= c < best ==> votes[c] < votes[best]
    {
      if votes[i] > votes[best] {
        best := i;
      }
    }
  }

  // ---------- the window ----------

  // One accelerometer reading, in g.
  datatype Sample = Sample(x: real, y: real, z: real) {
    function At(axis: nat): real
      requires axis < 3
    {
      if axis == 0 then x else if axis == 1 then y else z
    }
  }

  function Along(s: seq<Sample>, axis: nat): (r: seq<real>)
    requires axis < 3
    ensures |r| == |s| && forall i :: 0 <= i < |s| ==> r[i] == s[i].At(axis)
  {
    seq(|s|, i requires 0 <= i < |s| => s[i].At(axis))
  }

  lemma AlongOneMore(s: seq<Sample>, i: nat, axis: nat)
    requires i < |s| && axis < 3
    ensures Sum(Along(s[..i + 1], axis)) == Sum(Along(s[..i], axis)) + s[i].At(axis)
    ensures SumSq(Along(s[..i + 1], axis)) == SumSq(Along(s[..i], axis)) + s[i].At(axis) * s[i].At(axis)
  {
    assert Along(s[..i + 1], axis)[..i] == Along(s[..i], axis);
  }

  // The running sums of one axis.
  method AddSample(sum: array<real>, sumsq: array<real>, g: Sample)
    requires sum.Length == 3 && sumsq.Length == 3 && sum != sumsq
    modifies sum, sumsq
    ensures forall k :: 0 <= k < 3 ==> sum[k] == old(sum[k]) + g.At(k)
    ensures forall k :: 0 <= k < 3 ==> sumsq[k] == old(sumsq[k]) + g.At(k) * g.At(k)
  {
    for k := 0 to 3
      invariant forall j :: 0 <= j < k ==> sum[j] == old(sum[j]) + g.At(j)
      invariant forall j :: 0 <= j < k ==> sumsq[j] == old(sumsq[j]) + g.At(j) * g.At(j)
      invariant forall j :: k <= j < 3 ==> sum[j] == old(sum[j]) && sumsq[j] == old(sumsq[j])
    {
      sum[k] := sum[k] + g.At(k);
      sumsq[k] := sumsq[k] + g.At(k) * g.At(k);
    }
  }

  ghost predicate AreSums(sum: seq<real>, sumsq: seq<real>, s: seq<Sample>) {
    && |sum| == 3 && |sumsq| == 3
    && forall k :: 0 <= k < 3 ==> sum[k] == Sum(Along(s, k)) && sumsq[k] == SumSq(Along(s, k))
  }

  lemma AreSumsStep(sum: seq<real>, sumsq: seq<real>, sum': seq<real>, sumsq': seq<real>, s: seq<Sample>, i: nat)
    requires i < |s| && AreSums(sum, sumsq, s[..i])
    requires |sum'| == 3 && forall k :: 0 <= k < 3 ==> sum'[k] == sum[k] + s[i].At(k)
    requires |sumsq'| == 3 && forall k :: 0 <= k < 3 ==> sumsq'[k] == sumsq[k] + s[i].At(k) * s[i].At(k)
    ensures AreSums(sum', sumsq', s[..i + 1])
  {
    forall k | 0 <= k < 3
      ensures sum'[k] == Sum(Along(s[..i + 1], k)) && sumsq'[k] == SumSq(Along(s[..i + 1], k))
    {
      AlongOneMore(s, i, k);
      hide Sum, SumSq, Along;
    }
  }

  method Sums(samples: seq<Sample>) returns (sum: array<real>, sumsq: array<real>)
    ensures fresh(sum) && fresh(sumsq) && AreSums(sum[..], sumsq[..], samples)
  {
    sum := new real[3](_ => 0.0);
    sumsq := new real[3](_ => 0.0);
    assert AreSums(sum[..], sumsq[..], samples[..0]);
    hide *;
    for i := 0 to |samples|
      invariant AreSums(sum[..], sumsq[..], samples[..i])
    {
      ghost var was, wasSq := sum[..], sumsq[..];
      AddSample(sum, sumsq, samples[i]);
      AreSumsStep(was, wasSq, sum[..], sumsq[..], samples, i);
    }
    assert samples[..|samples|] == samples;
  }

  // The votes, sample by sample.
  method Tally(answers: seq<Answer>) returns (votes: array<nat>, classified: nat, faults: real)
    ensures faults == FaultSum(answers)
    ensures fresh(votes) && votes.Length == ST_COUNT && classified == |Voted(answers)|
    ensures forall c :: 0 <= c < ST_COUNT ==> votes[c] == Count(Voted(answers), c)
  {
    votes, classified, faults := new nat[ST_COUNT](_ => 0), 0, 0.0;
    for i := 0 to |answers|
      invariant classified == |Voted(answers[..i])| && faults == FaultSum(answers[..i])
      invariant forall c :: 0 <= c < ST_COUNT ==> votes[c] == Count(Voted(answers[..i]), c)
    {
      assert answers[..i + 1][..i] == answers[..i];
      if answers[i].Class? && 0 <= answers[i].c < ST_COUNT {
        CountOneMore(Voted(answers[..i]), answers[i].c);
        votes[answers[i].c] := votes[answers[i].c] + 1;
        faults := faults + answers[i].prob.unbalanced + answers[i].prob.both;
        classified := classified + 1;
      }
    }
    assert answers[..|answers|] == answers;
  }

  /** The spread of one axis; the source clamps a negative value to zero, which never happens
      over the reals. */
  function Spread(s: seq<real>): real {
    if s == [] then 0.0 else MeanSquaredDeviation(s)
  }

  // The variance of one axis from its running sums.
  method AxisVariance(sum: real, sumsq: real, ghost axis: seq<real>, n: nat) returns (v: real)
    requires sum == Sum(axis) && sumsq == SumSq(axis) && n == |axis|
    ensures v == Spread(axis) >= 0.0
  {
    var mean := if n > 0 then sum / n as real else 0.0;
    var variance := if n > 0 then sumsq / n as real - mean * mean else 0.0;
    if axis != [] {
      OnePassIsTwoPass(axis);
      VarianceSign(axis);
    }
    hide Sum, SumSq, MeanSquaredDeviation;
    v := if variance > 0.0 then variance else 0.0;
  }

  // The variances of the three axes, and their sum (the square of the overall magnitude).
  method Variances(samples: seq<Sample>) returns (v: array<real>, total: real)
    ensures fresh(v) && v.Length == 3
    ensures forall k :: 0 <= k < 3 ==> v[k] == Spread(Along(samples, k)) >= 0.0
    ensures total == Spread(Along(samples, 0)) + Spread(Along(samples, 1)) + Spread(Along(samples, 2))
  {
    hide Sum, SumSq, Along, Spread;
    var sum, sumsq := Sums(samples);
    var n := |samples|;
    v := new real[3](_ => 0.0);
    total := 0.0;
    for k := 0 to 3
      invariant AreSums(sum[..], sumsq[..], samples)
      invariant forall j :: 0 <= j < k ==> v[j] == Spread(Along(samples, j)) >= 0.0
      invariant total == (if k > 0 then v[0] else 0.0) + (if k > 1 then v[1] else 0.0) + (if k > 2 then v[2] else 0.0)
    {
      assert sum[..][k] == sum[k] && sumsq[..][k] == sumsq[k];
      var variance := AxisVariance(sum[k], sumsq[k], Along(samples, k), n);
      v[k] := variance;
      total := total + variance;
    }
  }

  /** The overall magnitude of a window is zero exactly when every reading is the same. */
  lemma StillMeansConstant(s: seq<Sample>)
    ensures Spread(Along(s, 0)) + Spread(Along(s, 1)) + Spread(Along(s, 2)) == 0.0
            <==> forall i, j :: 0 <= i < |s| && 0 <= j < |s| ==> s[i] == s[j]
  {
    if s != [] {
      forall k | 0 <= k < 3
        ensures Spread(Along(s, k)) >= 0.0
        ensures Spread(Along(s, k)) == 0.0 <==> forall i :: 0 <= i < |s| ==> s[i].At(k) == s[0].At(k)
      {
        OnePassIsTwoPass(Along(s, k));
        VarianceSign(Along(s, k));
        assert AllEqual(Along(s, k), Along(s, k)[0]) <==>
               forall i :: 0 <= i < |s| ==> s[i].At(k) == s[0].At(k);
      }
      hide Spread, Along;
      assert (forall i :: 0 <= i < |s| ==> s[i] == s[0]) <==>
             (forall i :: 0 <= i < |s| ==>
                s[i].At(0) == s[0].At(0) && s[i].At(1) == s[0].At(1) && s[i].At(2) == s[0].At(2));
    }
  }

  // What is assumed of the square root.
  ghost predicate IsSqrt(sqrt: real -> real) {
    forall v :: v >= 0.0 ==> sqrt(v) >= 0.0 && Sq(sqrt(v)) == v
  }

  datatype Result = Result(rms: seq<real>, overall: real, majority: int, faultProb: real,
                           votes: seq<nat>, classified: nat)

  // The axes' root mean squares and the overall magnitude, as squares of which they are roots.
  method Magnitudes(samples: seq<Sample>, sqrt: real -> real) returns (rms: seq<real>, overall: real)
    requires IsSqrt(sqrt)
    ensures |rms| == 3 && forall k :: 0 <= k < 3 ==> rms[k] >= 0.0 && Sq(rms[k]) == Spread(Along(samples, k))
    ensures overall >= 0.0 && Sq(overall) == Sq(rms[0]) + Sq(rms[1]) + Sq(rms[2])
  {
    hide Sq, Sum, SumSq, MeanSquaredDeviation, Along, Spread;
    var variance, total := Variances(samples);
    assert variance[0] >= 0.0 && variance[1] >= 0.0 && variance[2] >= 0.0;
    rms := [sqrt(variance[0]), sqrt(variance[1]), sqrt(variance[2])];
    overall := sqrt(total);
  }

  /** A whole window; `answers[i]` is what the classifier said about reading i.  -1 means that no
      reading was classified. */
  method Window(samples: seq<Sample>, answers: seq<Answer>, sqrt: real -> real) returns (r: Result)
    requires |samples| == |answers| && IsSqrt(sqrt)
    ensures |r.rms| == 3 && forall k :: 0 <= k < 3 ==> r.rms[k] >= 0.0 && Sq(r.rms[k]) == Spread(Along(samples, k))
    ensures r.overall >= 0.0 && Sq(r.overall) == Sq(r.rms[0]) + Sq(r.rms[1]) + Sq(r.rms[2])
    ensures |r.votes| == ST_COUNT && forall c :: 0 <= c < ST_COUNT ==> r.votes[c] == |Voters(answers, c)|
    ensures r.classified == |Voted(answers)| == r.votes[0] + r.votes[1] + r.votes[2] + r.votes[3]
    ensures r.classified == 0 <==> r.majority == -1
    ensures r.classified > 0 ==> 0 <= r.majority && IsMajority(Voted(answers), r.majority)
    ensures r.faultProb == (if r.classified > 0 then FaultSum(answers) / r.classified as real else 0.0)
    ensures AreProbabilities(answers) ==> 0.0 <= r.faultProb <= 1.0
  {
    if AreProbabilities(answers) {
      FaultIsBounded(answers);
    }
    VotesAddUp(Voted(answers));
    forall c | 0 <= c < ST_COUNT
      ensures Count(Voted(answers), c) == |Voters(answers, c)|
    {
      VotesAre(answers, c);
    }
    hide Count, Voted, Voters, FaultSum, AreProbabilities, IsMajority, IsSqrt, Sq, Spread, Along;
    var rms, overall := Magnitudes(samples, sqrt);
    r := Vote(answers, rms, overall);
  }

  // The majority and the mean fault probability.
  method Vote(answers: seq<Answer>, rms: seq<real>, overall: real) returns (r: Result)
    requires Count(Voted(answers), 0) + Count(Voted(answers), 1) + Count(Voted(answers), 2) + Count(Voted(answers), 3)
             == |Voted(answers)|
    ensures r.rms == rms && r.overall == overall
    ensures |r.votes| == ST_COUNT && forall c :: 0 <= c < ST_COUNT ==> r.votes[c] == Count(Voted(answers), c)
    ensures r.classified == |Voted(answers)| == r.votes[0] + r.votes[1] + r.votes[2] + r.votes[3]
    ensures r.classified == 0 <==> r.majority == -1
    ensures r.classified > 0 ==> 0 <= r.majority && IsMajority(Voted(answers), r.majority)
    ensures r.faultProb == (if r.classified > 0 then FaultSum(answers) / r.classified as real else 0.0)
    ensures 0.0 <= FaultSum(answers) <= |Voted(answers)| as real ==> 0.0 <= r.faultProb <= 1.0
  {
    hide Count, Voted, FaultSum;
    var votes, classified, faults := Tally(answers);
    var majority: int := -1;
    var faultProb := 0.0;
    if classified > 0 {
      majority := Winner(votes);
      MeanIsBounded(faults, classified as real);
      faultProb := faults / classified as real;
    }
    r := Result(rms, overall, majority, faultProb, votes[..], classified);
  }
}
