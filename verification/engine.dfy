/**
 The glue of the full-duplex engine: stereo (de)interleaving, the mono mix
 at 16 kHz, the shortfall accounting of every ring write, one pass of the
 STFT hop loop, and the playback-side pull that zero-fills and charges
 underflows.  Device streams, threads and the clock are parameters.
 */
module Engine {
  import Ring
  import Resampler
  import Stft
  import opened Numbers

  datatype Stereo = Stereo(left: seq<real>, right: seq<real>)

  /** Splits `frames` interleaved stereo frames into a left and a right channel. */
  function Deinterleave(inter: seq<real>, frames: nat): (lr: Stereo)
    requires 2 * frames <= |inter|
    ensures |lr.left| == frames && |lr.right| == frames
    ensures forall i :: 0 <= i < frames ==> lr.left[i] == inter[2 * i] && lr.right[i] == inter[2 * i + 1]
  {
    Stereo(seq(frames, i requires 0 <= i < frames => inter[2 * i]),
           seq(frames, i requires 0 <= i < frames => inter[2 * i + 1]))
  }

  /** Interleaves the first `frames` samples of two channels, left first. */
  function Interleave(left: seq<real>, right: seq<real>, frames: nat): (inter: seq<real>)
    requires frames <= |left| && frames <= |right|
    ensures |inter| == 2 * frames
    ensures forall i :: 0 <= i < frames ==> inter[2 * i] == left[i] && inter[2 * i + 1] == right[i]
  {
    if frames == 0 then []
    else Interleave(left, right, frames - 1) + [left[frames - 1], right[frames - 1]]
  }

  lemma EvenOdd(k: nat)
    ensures k == 2 * (k / 2) || k == 2 * (k / 2) + 1
  {
  }

  /** Interleaving the two halves of a deinterleaved buffer gives the buffer back. */
  lemma InterleaveDeinterleave(inter: seq<real>, frames: nat)
    requires 2 * frames <= |inter|
    ensures var lr := Deinterleave(inter, frames);
            Interleave(lr.left, lr.right, frames) == inter[..2 * frames]
  {
    var lr := Deinterleave(inter, frames);
    var back := Interleave(lr.left, lr.right, frames);
    forall k | 0 <= k < 2 * frames
      ensures back[k] == inter[k]
    {
      EvenOdd(k);
      var j := k / 2;
      if k == 2 * j {
        assert back[2 * j] == lr.left[j];
      } else {
        assert back[2 * j + 1] == lr.right[j];
      }
    }
  }

  /** Deinterleaving an interleaved pair of channels gives the channels back. */
  lemma DeinterleaveInterleave(left: seq<real>, right: seq<real>, frames: nat)
    requires frames <= |left| && frames <= |right|
    ensures Deinterleave(Interleave(left, right, frames), frames) == Stereo(left[..frames], right[..frames])
  {
  }

  /** Stereo frames for the ring, read off an interleaved buffer. */
  function StereoFrames(inter: seq<real>, frames: nat): (fs: seq<Ring.Frame>)
    requires 2 * frames <= |inter|
    ensures |fs| == frames
    ensures forall i :: 0 <= i < frames ==> fs[i] == [inter[2 * i], inter[2 * i + 1]]
  {
    seq(frames, i requires 0 <= i < frames => [inter[2 * i], inter[2 * i + 1]])
  }

  /**
   The 16 kHz mono mix: the mean of the two channels, over as many samples
   as both decimated channels produced.
   */
  function MonoMix(left: seq<real>, right: seq<real>): (mono: seq<real>)
    ensures |mono| == Min(|left|, |right|)
    ensures forall i :: 0 <= i < |mono| ==> mono[i] == (left[i] + right[i]) / 2.0
  {
    seq(Min(|left|, |right|), i requires 0 <= i < Min(|left|, |right|) => 0.5 * (left[i] + right[i]))
  }

  /** Mixing a signal with a copy of itself gives the signal back. */
  lemma MonoMixOfCopies(x: seq<real>)
    ensures MonoMix(x, x) == x
  {
  }

  /**
   Mixing commutes with decimation: mixing the two decimated channels is
   decimating the full-rate mix.
   */
  lemma MixCommutesWithDown3(left: seq<real>, right: seq<real>, outMax: int)
    requires |left| == |right|
    ensures MonoMix(Resampler.Down3(left, outMax), Resampler.Down3(right, outMax))
            == Resampler.Down3(MonoMix(left, right), outMax)
  {
    var a := MonoMix(Resampler.Down3(left, outMax), Resampler.Down3(right, outMax));
    var m := MonoMix(left, right);
    var b := Resampler.Down3(m, outMax);
    forall g | 0 <= g < |a|
      ensures a[g] == b[g]
    {
      assert m[3 * g] == (left[3 * g] + right[3 * g]) / 2.0;
      assert m[3 * g + 1] == (left[3 * g + 1] + right[3 * g + 1]) / 2.0;
      assert m[3 * g + 2] == (left[3 * g + 2] + right[3 * g + 2]) / 2.0;
    }
  }

  datatype Counted = Counted(ring: Ring.RingBuffer, wrote: int, overflows: int)

  /**
   A ring write with shortfall accounting: whatever the ring does not take
   is added to the overflow counter, so every offered frame is either
   queued or counted as lost.
   */
  function WriteCounting(rb: Ring.RingBuffer, src: seq<Ring.Frame>, n: int, overflows: int): (c: Counted)
    requires Ring.Valid(rb) && 0 <= n <= |src|
    ensures c.ring.capacity == rb.capacity && c.ring.channels == rb.channels
    ensures && c.wrote == Min(n, Ring.AvailableToWrite(rb))
            && Ring.Valid(c.ring)
            && Ring.Contents(c.ring) == Ring.Contents(rb) + src[..c.wrote]
    ensures c.wrote < n ==> c.overflows == overflows + (n - c.wrote)
    ensures c.wrote == n ==> c.overflows == overflows
    ensures c.wrote + (c.overflows - overflows) == n
  {
    Ring.Occupancy(rb);
    var w := Ring.Write(rb, src, n);
    Counted(w.ring, w.count, if w.count < n then overflows + (n - w.count) else overflows)
  }

  /**
   The playback pull: read from the output ring until it runs dry or the
   request is met, zero-fill the rest, charge the shortfall as underflow
   unless warming up, and report the full request as delivered.
   */
  method PullTo(rb: Ring.RingBuffer, channels: int, numFrames: int, warming: bool, underflows: int)
    returns (reported: int, out: seq<Ring.Frame>, rb': Ring.RingBuffer, underflows': int)
    requires Ring.Valid(rb)
    ensures reported == numFrames
    ensures Ring.Valid(rb') && rb'.capacity == rb.capacity && rb'.channels == rb.channels
    ensures |out| == Max(numFrames, 0)
    ensures var total := Max(0, Min(numFrames, Ring.AvailableToRead(rb)));
      && out[..total] == Ring.Contents(rb)[..total]
      && (forall k :: total <= k < |out| ==> out[k] == Ring.ZeroFrame(channels))
      && Ring.Contents(rb') == Ring.Contents(rb)[total..]
      && underflows' == underflows + (if !warming && total < numFrames then numFrames - total else 0)
  {
    var drained;
    out, rb' := Drain(rb, numFrames);
    drained := |out|;
    underflows' := underflows;
    if drained < numFrames {
      out := out + seq(numFrames - drained, _ => Ring.ZeroFrame(channels));
      if !warming {
        underflows' := underflows + (numFrames - drained);
      }
    }
    reported := numFrames;
  }

  /** Read from the ring until it runs dry or `numFrames` frames have come out. */
  method Drain(rb: Ring.RingBuffer, numFrames: int) returns (out: seq<Ring.Frame>, rb': Ring.RingBuffer)
    requires Ring.Valid(rb)
    ensures Ring.Valid(rb') && rb'.capacity == rb.capacity && rb'.channels == rb.channels
    ensures var total := Max(0, Min(numFrames, Ring.AvailableToRead(rb)));
      && out == Ring.Contents(rb)[..total]
      && Ring.Contents(rb') == Ring.Contents(rb)[total..]
  {
    Ring.Occupancy(rb);
    var q := Ring.Contents(rb);
    var total := 0;
    out := [];
    rb' := rb;
    while total < numFrames
      invariant 0 <= total <= |q|
      invariant numFrames >= 0 ==> total <= numFrames
      invariant numFrames < 0 ==> total == 0
      invariant Ring.Valid(rb') && rb'.capacity == rb.capacity && rb'.channels == rb.channels
      invariant out == q[..total] && Ring.Contents(rb') == q[total..]
      decreases numFrames - total
    {
      Ring.Occupancy(rb');
      var rd := Ring.Read(rb', numFrames - total);
      if rd.count <= 0 {
        assert |Ring.Contents(rb')| == 0;
        break;
      }
      out := out + rd.frames;
      total := total + rd.count;
      rb' := rd.ring;
    }
    assert total == Max(0, Min(numFrames, |q|));
  }

  /** The state one pass of the STFT hop loop touches. */
  datatype HopLoop = HopLoop(stft: Stft.Stft, up: Resampler.Resampler, outRing: Ring.RingBuffer, overflows: int)

  /**
   One pass of the hop loop: push a 96-sample hop into the processor, pop
   up to 96 samples back, and only when all 96 came back, interpolate them
   to 48 kHz within `upCapacity` samples, duplicate to both channels and
   queue the stereo frames on the output ring with shortfall accounting.
   The output ring holds two channels: the pass writes stereo frames.
   */
  function HopPass(h: HopLoop, hop: seq<real>, upCapacity: int): (h': HopLoop)
    requires Stft.Valid(h.stft) && Ring.Valid(h.outRing) && |hop| == Stft.Hop && upCapacity >= 0
    requires h.outRing.channels == 2
    requires h.stft.avail + Stft.Hop * ((|h.stft.pending| + |hop|) / Stft.Hop) + (Stft.Nfft - Stft.Hop) <= Stft.Cap
    ensures Stft.Valid(h'.stft) && Ring.Valid(h'.outRing) && h'.outRing.capacity == h.outRing.capacity
    ensures h'.stft.pushed == h.stft.pushed + Stft.Hop
    ensures h'.overflows >= h.overflows
    ensures |Ring.Contents(h.outRing)| <= |Ring.Contents(h'.outRing)|
    ensures Ring.Contents(h'.outRing)[..|Ring.Contents(h.outRing)|] == Ring.Contents(h.outRing)
  {
    var p := PushPop(h.stft, hop);
    if |p.out| == Stft.Hop then
      var pr := Resampler.Process(h.up, p.out, upCapacity);
      var c := QueueDuplicated(h.outRing, pr.out, h.overflows);
      HopLoop(p.state, pr.state, c.ring, c.overflows)
    else
      HopLoop(p.state, h.up, h.outRing, h.overflows)
  }

  /** Push one hop into the processor and pop up to one hop back. */
  function PushPop(s: Stft.Stft, hop: seq<real>): (p: Stft.Popped)
    requires Stft.Valid(s) && |hop| == Stft.Hop
    requires s.avail + Stft.Hop * ((|s.pending| + |hop|) / Stft.Hop) + (Stft.Nfft - Stft.Hop) <= Stft.Cap
    ensures Stft.Valid(p.state) && p.state.pushed == s.pushed + Stft.Hop && |p.out| <= Stft.Hop
  {
    Stft.Pop(Stft.Push(s, hop), Stft.Hop)
  }

  /**
   Duplicate a mono block to both channels, interleave it and queue the
   stereo frames on the output ring, counting what does not fit.
   */
  function QueueDuplicated(rb: Ring.RingBuffer, x: seq<real>, overflows: int): (c: Counted)
    requires Ring.Valid(rb)
    ensures Ring.Valid(c.ring) && c.ring.capacity == rb.capacity && c.ring.channels == rb.channels
    ensures c.wrote == Min(|x|, Ring.AvailableToWrite(rb))
    ensures Ring.Contents(c.ring) == Ring.Contents(rb) + StereoFrames(Interleave(x, x, |x|), |x|)[..c.wrote]
    ensures forall i :: 0 <= i < c.wrote ==> Ring.Contents(c.ring)[|Ring.Contents(rb)| + i] == [x[i], x[i]]
    ensures c.overflows == overflows + (|x| - c.wrote)
  {
    var frames := StereoFrames(Interleave(x, x, |x|), |x|);
    var c := WriteCounting(rb, frames, |x|, overflows);
    DuplicatedFrames(x);
    AppendedFrames(Ring.Contents(rb), frames, c.wrote, Ring.Contents(c.ring), x);
    c
  }

  /**
   In the engine's cadence the processor never falls short: with an empty
   accumulator and nothing available, one pass pops all 96 samples, returns
   to the same cadence, and offers the interpolated hop, duplicated to both
   channels, to the output ring; every offered frame is queued or counted
   as an overflow.
   */
  lemma HopPassInCadence(h: HopLoop, hop: seq<real>, upCapacity: int)
    requires Stft.Valid(h.stft) && Ring.Valid(h.outRing) && |hop| == Stft.Hop
    requires h.outRing.channels == 2
    requires h.stft.pending == [] && h.stft.avail == 0
    requires h.up.mode == Resampler.UpBy3 && upCapacity >= 0
    ensures Stft.Hop * ((|h.stft.pending| + |hop|) / Stft.Hop) + (Stft.Nfft - Stft.Hop) <= Stft.Cap
    ensures var h' := HopPass(h, hop, upCapacity);
      var popped := PushPop(h.stft, hop).out;
      var up := Resampler.Up3(popped, upCapacity);
      var wrote := Min(|up|, Ring.AvailableToWrite(h.outRing));
      && |popped| == Stft.Hop
      && h'.stft.pending == [] && h'.stft.avail == 0 && h'.stft.hops == h.stft.hops + 1
      && h'.stft.hist == h.stft.hist[Stft.Hop..] + hop
      && |up| == 3 * Min(Stft.Hop, Max(upCapacity, 0) / 3)
      && Ring.Contents(h'.outRing) == Ring.Contents(h.outRing) + StereoFrames(Interleave(up, up, |up|), |up|)[..wrote]
      && (forall i :: 0 <= i < wrote ==> Ring.Contents(h'.outRing)[|Ring.Contents(h.outRing)| + i] == [up[i], up[i]])
      && h'.overflows == h.overflows + (|up| - wrote)
  {
    Stft.CadenceState(h.stft, hop);
    var p := PushPop(h.stft, hop);
    var pr := Resampler.Process(h.up, p.out, upCapacity);
    assert pr.out == Resampler.Up3(p.out, upCapacity);
    var c := QueueDuplicated(h.outRing, pr.out, h.overflows);
    assert HopPass(h, hop, upCapacity) == HopLoop(p.state, pr.state, c.ring, c.overflows);
  }

  /** A mono signal duplicated to both channels gives frames `[x, x]`. */
  lemma DuplicatedFrames(x: seq<real>)
    ensures forall i :: 0 <= i < |x| ==> StereoFrames(Interleave(x, x, |x|), |x|)[i] == [x[i], x[i]]
  {
  }

  lemma AppendedFrames(a: seq<Ring.Frame>, fs: seq<Ring.Frame>, w: nat, c: seq<Ring.Frame>, x: seq<real>)
    requires w <= |fs| <= |x| && c == a + fs[..w]
    requires forall i :: 0 <= i < |fs| ==> fs[i] == [x[i], x[i]]
    ensures forall i :: 0 <= i < w ==> c[|a| + i] == [x[i], x[i]]
  {
    forall i | 0 <= i < w
      ensures c[|a| + i] == [x[i], x[i]]
    {
      assert c[|a| + i] == fs[i];
    }
  }
}
