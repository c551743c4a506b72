/** The int8 quantization of the reference credit model, over the reals: clipping never binds, and the quantized
    decision is the real one wherever the logit clears an explicit margin, for any number of features. */
module Quant {
  function Abs(x: real): real { if x < 0.0 then -x else x }

  /** np.round and round: to the nearest integer, ties to even. */
  function Round(x: real): (n: int)
    ensures Abs(n as real - x) <= 0.5
  {
    var f := x.Floor;
    var d := x - f as real;
    if d < 0.5 then f else if d > 0.5 then f + 1 else if f % 2 == 0 then f else f + 1
  }

  /** The nearest integer, and of two that are as near the even one. */
  lemma RoundExactly(x: real, n: int)
    ensures Round(x) == n <==>
      Abs(n as real - x) < 0.5 || (Abs(n as real - x) == 0.5 && n % 2 == 0)
  {
    var f := x.Floor;
    assert Abs(n as real - x) <= 0.5 ==> n == f || n == f + 1;
  }

  /** np.max(np.abs(w)). */
  function MaxAbs(w: seq<real>): (m: real)
    ensures m >= 0.0 && forall j :: 0 <= j < |w| ==> Abs(w[j]) <= m
    ensures w != [] ==> exists j :: 0 <= j < |w| && Abs(w[j]) == m
  {
    if w == [] then 0.0 else
      var m := MaxAbs(w[1..]);
      MaxAbsStep(w, m);
      if Abs(w[0]) > m then Abs(w[0]) else m
  }

  lemma MaxAbsStep(w: seq<real>, m: real)
    requires w != [] && m >= 0.0 && forall j :: 0 <= j < |w[1..]| ==> Abs(w[1..][j]) <= m
    requires w[1..] != [] ==> exists j :: 0 <= j < |w[1..]| && Abs(w[1..][j]) == m
    requires w[1..] == [] ==> m == 0.0
    ensures forall j :: 0 < j < |w| ==> Abs(w[j]) <= m
    ensures |w| > 1 ==> exists j :: 0 <= j < |w| && Abs(w[j]) == m
  {
    forall j | 0 < j < |w| ensures Abs(w[j]) <= m { assert w[j] == w[1..][j - 1]; }
    if |w| > 1 {
      var j :| 0 <= j < |w[1..]| && Abs(w[1..][j]) == m;
      assert w[j + 1] == w[1..][j];
    }
  }

  function Scale(w: seq<real>): (s: real)
    ensures s > 0.0
  {
    if MaxAbs(w) > 0.0 then MaxAbs(w) / 127.0 else 1.0
  }

  function Clip(n: int): int { if n < -127 then -127 else if n > 127 then 127 else n }

  /** One int8 weight. */
  function Weight(x: real, scale: real): int
    requires scale > 0.0
  {
    Clip(Round(x / scale))
  }

  const SHIFT: real := 65536.0

  function Fixed(x: real): int { Round(x * SHIFT) }

  function Bias(b: real, scale: real): int
    requires scale > 0.0
  {
    Round(b / scale * SHIFT)
  }

  function QuantTerm(x: real, w: real, scale: real): int
    requires scale > 0.0
  {
    Fixed(x) * Weight(w, scale)
  }

  /** The integer dot product of the fixed-point inputs and the int8 weights. */
  function QuantDot(x: seq<real>, w: seq<real>, scale: real): int
    requires |x| == |w| && scale > 0.0
  {
    if x == [] then 0 else QuantTerm(x[0], w[0], scale) + QuantDot(x[1..], w[1..], scale)
  }

  function FloatTerm(x: real, w: real): real { x * w }

  function Dot(x: seq<real>, w: seq<real>): real
    requires |x| == |w|
  {
    if x == [] then 0.0 else FloatTerm(x[0], w[0]) + Dot(x[1..], w[1..])
  }

  predicate QuantizedInfer(x: seq<real>, w: seq<real>, b: real)
    requires |x| == |w|
  {
    QuantDot(x, w, Scale(w)) + Bias(b, Scale(w)) > 0
  }

  predicate FloatInfer(x: seq<real>, w: seq<real>, b: real)
    requires |x| == |w|
  {
    Dot(x, w) + b > 0.0
  }

  /** What rounding may move the accumulator by: half a weight step on every input, half an input step on every
      weight. */
  function Slack(x: seq<real>): (s: real)
    ensures s >= 0.0
  {
    if x == [] then 0.0 else 32768.0 * Abs(x[0]) + 63.5 + Slack(x[1..])
  }

  // ---------------------------------------------------------------------------------------------
  // Clipping

  lemma Product(a: real, b: real)
    requires a >= 0.0 && b >= 0.0
    ensures a * b >= 0.0
  {
  }

  lemma Minus(a: real, b: real, c: real)
    ensures a * (b - c) == a * b - a * c
  {
  }

  /** Dividing by a positive number keeps an order. */
  lemma Cancel(q: real, c: real, s: real)
    requires s > 0.0 && q * s <= c * s
    ensures q <= c
  {
    Minus(s, c, q);
  }

  predicate Bounded(w: seq<real>, scale: real)
    requires scale > 0.0
  {
    forall j :: 0 <= j < |w| ==> -127.0 <= w[j] / scale <= 127.0
  }

  lemma Quotient(x: real, m: real)
    requires m > 0.0 && Abs(x) <= m
    ensures -127.0 <= x / (m / 127.0) <= 127.0
    ensures x == m ==> x / (m / 127.0) == 127.0
    ensures x == -m ==> x / (m / 127.0) == -127.0
  {
    var s := m / 127.0;
    var q := x / s;
    assert q * s == x && 127.0 * s == m;
    Cancel(q, 127.0, s);
    Cancel(-127.0, q, s);
    if x == m { Cancel(127.0, q, s); }
    if x == -m { Cancel(q, -127.0, s); }
  }

  lemma WeightsBounded(w: seq<real>)
    ensures Bounded(w, Scale(w))
  {
    forall j | 0 <= j < |w| ensures -127.0 <= w[j] / Scale(w) <= 127.0 {
      if MaxAbs(w) > 0.0 { Quotient(w[j], MaxAbs(w)); }
    }
  }

  /** Clipping never binds, and some weight uses the whole range unless all are zero. */
  lemma ClipNeverBinds(w: seq<real>)
    ensures forall j :: 0 <= j < |w| ==> Weight(w[j], Scale(w)) == Round(w[j] / Scale(w))
    ensures MaxAbs(w) > 0.0 ==>
      exists j :: 0 <= j < |w| && (Weight(w[j], Scale(w)) == 127 || Weight(w[j], Scale(w)) == -127)
  {
    hide Round, Scale, MaxAbs;
    WeightsBounded(w);
    forall j | 0 <= j < |w| ensures Weight(w[j], Scale(w)) == Round(w[j] / Scale(w)) { RoundInRange(w[j] / Scale(w)); }
    if MaxAbs(w) > 0.0 { var j := Extreme(w); }
  }

  lemma RoundInRange(q: real)
    requires -127.0 <= q <= 127.0
    ensures -127 <= Round(q) <= 127
    ensures q == 127.0 ==> Round(q) == 127
    ensures q == -127.0 ==> Round(q) == -127
  {
  }

  lemma Extreme(w: seq<real>) returns (j: nat)
    requires MaxAbs(w) > 0.0
    ensures j < |w| && (Weight(w[j], Scale(w)) == 127 || Weight(w[j], Scale(w)) == -127)
  {
    hide Round;
    j :| 0 <= j < |w| && Abs(w[j]) == MaxAbs(w);
    Quotient(w[j], MaxAbs(w));
    RoundInRange(w[j] / Scale(w));
  }

  // ---------------------------------------------------------------------------------------------
  // The margin

  lemma Expand(p: real, v: real, q: real, w: real)
    ensures v * w - p * q == p * (w - q) + w * (v - p)
  {
    Minus(p, w, q);
    Minus(w, v, p);
  }

  lemma ProductError(p: real, v: real, q: real, w: real)
    requires Abs(v - p) <= 0.5 && Abs(w - q) <= 0.5 && Abs(w) <= 127.0
    ensures Abs(v * w - p * q) <= 0.5 * Abs(p) + 63.5
  {
    hide Abs;
    var dp, dq := v - p, w - q;
    Expand(p, v, q, w);
    ScaledBound(p, dq, 0.5);
    ScaledBound(w, dp, 0.5);
    SumBound(v * w - p * q, p * dq, w * dp, 0.5 * Abs(p), 0.5 * Abs(w));
  }

  lemma SumBound(e: real, u: real, v: real, s: real, t: real)
    requires e == u + v && Abs(u) <= s && Abs(v) <= t
    ensures Abs(e) <= s + t
  {
  }

  lemma ScaledBound(p: real, d: real, k: real)
    requires Abs(d) <= k
    ensures Abs(p * d) <= k * Abs(p)
  {
    var a := Abs(p);
    Product(a, k - d);
    Product(a, k + d);
    Minus(a, k, d);
    Minus(a, k, -d);
    assert a * -d == -(a * d);
    assert p * d == a * d || p * d == -(a * d);
  }

  /** What a term stands for, in accumulator units. */
  function Term(x: real, w: real, scale: real): real
    requires scale > 0.0
  {
    x * SHIFT * (w / scale)
  }

  lemma TermError(x: real, w: real, scale: real)
    requires scale > 0.0 && -127.0 <= w / scale <= 127.0
    ensures Abs(QuantTerm(x, w, scale) as real - Term(x, w, scale)) <= 32768.0 * Abs(x) + 63.5
  {
    hide Round;
    var p, q := x * SHIFT, w / scale;
    RoundTerm(p, q);
    assert Weight(w, scale) == Round(q) && 0.5 * Abs(p) == 32768.0 * Abs(x);
  }

  lemma RoundTerm(p: real, q: real)
    requires -127.0 <= q <= 127.0
    ensures -127 <= Round(q) <= 127
    ensures Abs((Round(p) * Round(q)) as real - p * q) <= 0.5 * Abs(p) + 63.5
  {
    hide Round;
    var m, n := Round(p), Round(q);
    RoundInRange(q);
    ProductError(p, m as real, q, n as real);
    RealProduct(m, n);
  }

  lemma RealProduct(m: int, n: int)
    ensures (m * n) as real == m as real * n as real
  {
  }

  /** The logit in accumulator units. */
  function Scaled(z: real, scale: real): real
    requires scale > 0.0
  {
    z * SHIFT / scale
  }

  lemma ScaledTerm(x: real, w: real, rest: real, scale: real)
    requires scale > 0.0
    ensures Scaled(FloatTerm(x, w) + rest, scale) == Term(x, w, scale) + Scaled(rest, scale)
  {
    var q, r := w / scale, Scaled(rest, scale);
    assert q * scale == w && r * scale == rest * SHIFT;
    assert (x * SHIFT * q + r) * scale == x * SHIFT * (q * scale) + r * scale == (x * w + rest) * SHIFT;
    Divide((x * w + rest) * SHIFT, x * SHIFT * q + r, scale);
  }

  lemma Divide(a: real, b: real, s: real)
    requires s > 0.0 && b * s == a
    ensures a / s == b
  {
  }

  lemma {:induction false} DotError(x: seq<real>, w: seq<real>, scale: real)
    requires |x| == |w| && scale > 0.0 && Bounded(w, scale)
    ensures Abs(QuantDot(x, w, scale) as real - Scaled(Dot(x, w), scale)) <= Slack(x)
  {
    hide QuantTerm, Scaled, Term;
    if x == [] {
      NoLogit(scale);
    } else {
      forall j | 0 <= j < |w[1..]| ensures -127.0 <= w[1..][j] / scale <= 127.0 { assert w[1..][j] == w[j + 1]; }
      DotError(x[1..], w[1..], scale);
      TermError(x[0], w[0], scale);
      LogitStep(x, w, scale);
      var term, rest := QuantTerm(x[0], w[0], scale), QuantDot(x[1..], w[1..], scale);
      var t, r := Term(x[0], w[0], scale), Scaled(Dot(x[1..], w[1..]), scale);
      SumBound((term + rest) as real - (t + r), term as real - t, rest as real - r,
               32768.0 * Abs(x[0]) + 63.5, Slack(x[1..]));
    }
  }

  lemma LogitStep(x: seq<real>, w: seq<real>, scale: real)
    requires |x| == |w| > 0 && scale > 0.0
    ensures Scaled(Dot(x, w), scale) == Term(x[0], w[0], scale) + Scaled(Dot(x[1..], w[1..]), scale)
  {
    hide Scaled, Term, FloatTerm;
    ScaledTerm(x[0], w[0], Dot(x[1..], w[1..]), scale);
  }

  lemma NoLogit(scale: real)
    requires scale > 0.0
    ensures Scaled(0.0, scale) == 0.0
  {
  }

  /** The accumulator is the scaled logit up to the slack and half a unit for the bias. */
  lemma AccumulatorError(x: seq<real>, w: seq<real>, b: real)
    requires |x| == |w|
    ensures var s := Scale(w);
      Abs((QuantDot(x, w, s) + Bias(b, s)) as real - Scaled(Dot(x, w) + b, s)) <= Slack(x) + 0.5
  {
    hide QuantDot, Dot, Scale;
    var s := Scale(w);
    WeightsBounded(w);
    DotError(x, w, s);
    ScaledSum(Dot(x, w), b, s);
  }

  lemma ScaledSum(z: real, b: real, s: real)
    requires s > 0.0
    ensures Scaled(z + b, s) == Scaled(z, s) + b / s * SHIFT
  {
    var q, r := b / s, Scaled(z, s);
    assert q * s == b && r * s == z * SHIFT;
    assert (r + q * SHIFT) * s == (z + b) * SHIFT;
    Divide((z + b) * SHIFT, r + q * SHIFT, s);
  }

  /** The margin: the scaled logit clears what rounding can move. */
  predicate Clear(x: seq<real>, w: seq<real>, b: real)
    requires |x| == |w|
  {
    Abs(Scaled(Dot(x, w) + b, Scale(w))) > Slack(x) + 0.5
  }

  /** Wherever the margin is clear the quantized decision is the real one. */
  lemma DecisionsAgree(x: seq<real>, w: seq<real>, b: real)
    requires |x| == |w| && Clear(x, w, b)
    ensures QuantizedInfer(x, w, b) == FloatInfer(x, w, b)
  {
    hide QuantDot, Dot, Scale, Slack;
    AccumulatorError(x, w, b);
    SignOfScaled(Dot(x, w) + b, Scale(w));
  }

  lemma SignOfScaled(z: real, s: real)
    requires s > 0.0
    ensures z > 0.0 <==> Scaled(z, s) > 0.0
  {
    assert Scaled(z, s) * s == z * SHIFT;
  }

  /** On the boundary itself neither decides for the row: without inputs and bias both refuse. */
  lemma {:induction false} BoundaryIsRefused(x: seq<real>, w: seq<real>)
    requires |x| == |w| && forall j :: 0 <= j < |x| ==> x[j] == 0.0
    ensures !QuantizedInfer(x, w, 0.0) && !FloatInfer(x, w, 0.0)
  {
    hide Scale, Weight;
    NothingAdded(x, w, Scale(w));
    RoundExactly(0.0 / Scale(w) * SHIFT, 0);
  }

  lemma {:induction false} NothingAdded(x: seq<real>, w: seq<real>, scale: real)
    requires |x| == |w| && scale > 0.0 && forall j :: 0 <= j < |x| ==> x[j] == 0.0
    ensures QuantDot(x, w, scale) == 0 && Dot(x, w) == 0.0
  {
    hide Round, Weight;
    if x != [] {
      NothingAdded(x[1..], w[1..], scale);
      RoundExactly(0.0, 0);
      NoFactor(Weight(w[0], scale), w[0]);
    }
  }

  lemma NoFactor(n: int, r: real)
    ensures 0 * n == 0 && 0.0 * r == 0.0
  {
  }

  /** The match counter over the test rows. */
  method CountMatches(rows: seq<seq<real>>, w: seq<real>, b: real) returns (matches: nat)
    requires forall i :: 0 <= i < |rows| ==> |rows[i]| == |w|
    ensures matches <= |rows|
    ensures matches == |rows| <==>
      forall i :: 0 <= i < |rows| ==> QuantizedInfer(rows[i], w, b) == FloatInfer(rows[i], w, b)
    ensures (forall i :: 0 <= i < |rows| ==> Clear(rows[i], w, b)) ==> matches == |rows|
  {
    hide QuantizedInfer, FloatInfer, Clear;
    matches := 0;
    for i := 0 to |rows|
      invariant matches <= i
      invariant matches == i <==>
        forall k :: 0 <= k < i ==> QuantizedInfer(rows[k], w, b) == FloatInfer(rows[k], w, b)
      invariant (forall k :: 0 <= k < i ==> Clear(rows[k], w, b)) ==> matches == i
    {
      if FloatInfer(rows[i], w, b) == QuantizedInfer(rows[i], w, b) { matches := matches + 1; }
      if Clear(rows[i], w, b) { DecisionsAgree(rows[i], w, b); }
    }
  }
}
