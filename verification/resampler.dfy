/**
 Fixed-ratio sample-rate conversion by 3: decimation by averaging
 non-overlapping triples, and interpolation that emits three linearly
 interpolated samples per input sample.  Samples are exact reals.
 */
module Resampler {

  import opened Numbers

  datatype Mode = DownBy3 | UpBy3

  /**
   The resampler's state: its mode and a continuity slot (the last input of
   the previous interpolation call) that is written but never consulted.
   */
  datatype Resampler = Resampler(mode: Mode, prevSample: real, hadPrev: bool)

  /** A fresh resampler in mode `m` with an empty continuity slot. */
  function New(m: Mode): (r: Resampler)
    ensures r.mode == m && !r.hadPrev && r.prevSample == 0.0
  {
    Resampler(m, 0.0, false)
  }

  /** Clears the continuity slot and keeps the mode. */
  function Reset(r: Resampler): (r': Resampler)
    ensures r' == New(r.mode)
  {
    r.(prevSample := 0.0, hadPrev := false)
  }

  /** Switches mode and clears the continuity slot. */
  function SetMode(r: Resampler, m: Mode): (r': Resampler)
    ensures r' == New(m)
  {
    Reset(r.(mode := m))
  }

  /**
   Decimation of at most `outMax` outputs: output `g` is the mean of inputs
   3g, 3g+1 and 3g+2; up to two trailing inputs are dropped.
   */
  function Down3(input: seq<real>, outMax: int): (out: seq<real>)
    ensures |out| == Max(0, Min(|input| / 3, outMax))
    ensures forall g :: 0 <= g < |out| ==>
              out[g] == (input[3 * g] + input[3 * g + 1] + input[3 * g + 2]) / 3.0
    decreases |input|
  {
    if |input| < 3 || outMax <= 0 then []
    else [(input[0] + input[1] + input[2]) * (1.0 / 3.0)] + Down3(input[3..], outMax - 1)
  }

  /** The sample interpolation heads towards: the successor, or the sample itself at the end. */
  function Next(input: seq<real>, i: int): real
    requires 0 <= i < |input|
  {
    if i + 1 < |input| then input[i + 1] else input[i]
  }

  /**
   Interpolation with an output budget of `budget` samples: each input sample
   yields three outputs at fractional offsets 0, 1/3 and 2/3 towards its
   successor, for as many whole triples as the budget allows.
   */
  function Up3(input: seq<real>, budget: int): (out: seq<real>)
    ensures |out| == 3 * Min(|input|, Max(budget, 0) / 3)
    ensures forall i :: 0 <= i < |out| / 3 ==> Interpolated(input, out, i)
    decreases |input|
  {
    if |input| == 0 || budget < 3 then []
    else
      var x0 := input[0];
      var d := (Next(input, 0) - x0) * (1.0 / 3.0);
      var rest := Up3(input[1..], budget - 3);
      var out := [x0, x0 + d, x0 + 2.0 * d] + rest;
      assert |rest| / 3 + 1 == |out| / 3;
      ShiftInterpolated(input, rest, out);
      out
  }

  /** A leading triple for input 0 followed by the triples of the tail interpolates the whole input. */
  lemma ShiftInterpolated(input: seq<real>, rest: seq<real>, out: seq<real>)
    requires |input| > 0 && |out| == 3 + |rest| && |rest| / 3 < |input| && |rest| / 3 + 1 == |out| / 3
    requires out[3..] == rest
    requires out[0] == input[0]
    requires out[1] == input[0] + (Next(input, 0) - input[0]) * (1.0 / 3.0)
    requires out[2] == input[0] + 2.0 * ((Next(input, 0) - input[0]) * (1.0 / 3.0))
    requires forall i :: 0 <= i < |rest| / 3 ==> Interpolated(input[1..], rest, i)
    ensures forall i :: 0 <= i < |out| / 3 ==> Interpolated(input, out, i)
  {
    assert Interpolated(input, out, 0);
    forall i | 1 <= i < |out| / 3
      ensures Interpolated(input, out, i)
    {
      assert Interpolated(input[1..], rest, i - 1);
      assert Next(input[1..], i - 1) == Next(input, i);
      assert out[3 * i] == rest[3 * (i - 1)];
      assert out[3 * i + 1] == rest[3 * (i - 1) + 1];
      assert out[3 * i + 2] == rest[3 * (i - 1) + 2];
    }
  }

  /**
   Output triple `i` interpolates linearly from input `i` towards its
   successor: weights 1:0, 2/3:1/3 and 1/3:2/3.
   */
  predicate Interpolated(input: seq<real>, out: seq<real>, i: int)
    requires 0 <= i < |input| && 3 * i + 2 < |out|
  {
    && out[3 * i] == input[i]
    && out[3 * i + 1] == (2.0 * input[i] + Next(input, i)) / 3.0
    && out[3 * i + 2] == (input[i] + 2.0 * Next(input, i)) / 3.0
  }

  datatype Processed = Processed(state: Resampler, count: int, out: seq<real>)

  /**
   One call in the current mode with an output capacity of `outMax` samples.
   Decimation leaves the state alone and reports `min(groups, outMax)`, which
   is negative for a negative capacity; interpolation reports the samples it
   wrote and, for a non-empty input, records its last sample in the
   continuity slot.
   */
  function Process(r: Resampler, input: seq<real>, outMax: int): (p: Processed)
    ensures |p.out| == Max(0, p.count) && p.count <= Max(outMax, 0)
    ensures r.mode == DownBy3 ==>
              && p.count == Min(|input| / 3, outMax)
              && p.out == Down3(input, outMax)
              && p.state == r
    ensures r.mode == UpBy3 ==>
              && p.count == 3 * Min(|input|, Max(outMax, 0) / 3)
              && p.count == |p.out| && p.count % 3 == 0 && p.count <= 3 * |input|
              && p.out == Up3(input, outMax)
    ensures r.mode == UpBy3 && |input| == 0 ==> p.count == 0 && p.state == r
    ensures r.mode == UpBy3 && |input| > 0 ==>
              p.state == r.(prevSample := input[|input| - 1], hadPrev := true)
  {
    match r.mode
    case DownBy3 =>
      Processed(r, Min(|input| / 3, outMax), Down3(input, outMax))
    case UpBy3 =>
      if |input| == 0 then Processed(r, 0, [])
      else
        var out := Up3(input, Min(3 * |input|, outMax));
        assert out == Up3(input, outMax) by { UpBudget(input, Min(3 * |input|, outMax), outMax); }
        Processed(r.(prevSample := input[|input| - 1], hadPrev := true), |out|, out)
  }

  /** The budget only matters up to three outputs per input sample. */
  lemma {:induction false} UpBudget(input: seq<real>, b1: int, b2: int)
    requires Min(|input|, Max(b1, 0) / 3) == Min(|input|, Max(b2, 0) / 3)
    ensures Up3(input, b1) == Up3(input, b2)
    decreases |input|
  {
    if |input| > 0 && b1 >= 3 && b2 >= 3 {
      UpBudget(input[1..], b1 - 3, b2 - 3);
    }
  }

  /** The continuity slot is never read: resetting it changes no output. */
  lemma ResetIsUnobservable(r: Resampler, input: seq<real>, outMax: int)
    ensures Process(Reset(r), input, outMax).out == Process(r, input, outMax).out
    ensures Process(Reset(r), input, outMax).count == Process(r, input, outMax).count
  {
  }

  /** A constant signal decimates to the same constant. */
  lemma Down3Constant(c: real, n: nat, outMax: int)
    ensures Down3(seq(n, _ => c), outMax) == seq(Max(0, Min(n / 3, outMax)), _ => c)
  {
  }

  /** A constant signal interpolates to the same constant. */
  lemma Up3Constant(c: real, n: nat, budget: int)
    ensures Up3(seq(n, _ => c), budget) == seq(3 * Min(n, Max(budget, 0) / 3), _ => c)
  {
    var x := seq(n, _ => c);
    var out := Up3(x, budget);
    var m := Min(n, Max(budget, 0) / 3);
    assert |out| / 3 == m;
    forall i | 0 <= i < m
      ensures Triple(out, i, c)
    {
      assert Interpolated(x, out, i);
      assert x[i] == c && Next(x, i) == c;
    }
    AllTriples(out, c, m);
  }

  /** Output triple `i` is three copies of `c`. */
  predicate Triple(out: seq<real>, i: nat, c: real)
    requires 3 * i + 2 < |out|
  {
    out[3 * i] == c && out[3 * i + 1] == c && out[3 * i + 2] == c
  }

  lemma AllTriples(out: seq<real>, c: real, m: nat)
    requires |out| == 3 * m
    requires forall i :: 0 <= i < m ==> Triple(out, i, c)
    ensures out == seq(|out|, _ => c)
  {
    forall j | 0 <= j < |out|
      ensures out[j] == c
    {
      TripleIndex(j);
      assert Triple(out, j / 3, c);
    }
  }

  lemma TripleIndex(j: nat)
    ensures j == 3 * (j / 3) || j == 3 * (j / 3) + 1 || j == 3 * (j / 3) + 2
  {
  }

  /**
   Interpolating and then decimating a block averages each sample with its
   successor at weights 2/3 and 1/3.
   */
  lemma DownAfterUp(x: seq<real>)
    ensures |Down3(Up3(x, 3 * |x|), |x|)| == |x|
    ensures forall i :: 0 <= i < |x| ==> Down3(Up3(x, 3 * |x|), |x|)[i] == (2.0 * x[i] + Next(x, i)) / 3.0
  {
    var up := Up3(x, 3 * |x|);
    assert Max(3 * |x|, 0) / 3 == |x|;
    assert |up| == 3 * |x|;
    var down := Down3(up, |x|);
    assert |up| / 3 == |x|;
    MeansOfTriples(x, up, down);
  }

  lemma MeansOfTriples(x: seq<real>, up: seq<real>, down: seq<real>)
    requires |up| == 3 * |x| && |down| == |x|
    requires forall i :: 0 <= i < |x| ==> Interpolated(x, up, i)
    requires forall g :: 0 <= g < |down| ==> down[g] == (up[3 * g] + up[3 * g + 1] + up[3 * g + 2]) / 3.0
    ensures forall i :: 0 <= i < |x| ==> down[i] == (2.0 * x[i] + Next(x, i)) / 3.0
  {
    forall i | 0 <= i < |x|
      ensures down[i] == (2.0 * x[i] + Next(x, i)) / 3.0
    {
      assert Interpolated(x, up, i);
      TripleMean(up[3 * i], up[3 * i + 1], up[3 * i + 2], x[i], Next(x, i));
    }
  }

  /** The mean of one interpolated triple. */
  lemma TripleMean(u0: real, u1: real, u2: real, a: real, n: real)
    requires u0 == a && u1 == (2.0 * a + n) / 3.0 && u2 == (a + 2.0 * n) / 3.0
    ensures (u0 + u1 + u2) / 3.0 == (2.0 * a + n) / 3.0
  {
  }

  lemma Examples()
    ensures Process(New(UpBy3), [9.0], 3).out == [9.0, 9.0, 9.0]
    ensures Process(New(UpBy3), [0.0, 3.0], 6).out == [0.0, 1.0, 2.0, 3.0, 3.0, 3.0]
    ensures Process(New(DownBy3), seq(9, _ => 5.0), 3).out == [5.0, 5.0, 5.0]
    ensures Process(New(DownBy3), seq(10, _ => 5.0), 4).out == [5.0, 5.0, 5.0]
  {
    var a := Up3([9.0], 3);
    assert Interpolated([9.0], a, 0);
    var b := Up3([0.0, 3.0], 6);
    assert Interpolated([0.0, 3.0], b, 0);
    assert Interpolated([0.0, 3.0], b, 1);
    Down3Constant(5.0, 9, 3);
    Down3Constant(5.0, 10, 4);
  }
}
