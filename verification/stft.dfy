/**
 Bookkeeping of the streaming short-time spectral processor: the 96-sample
 hop accumulator, the 384-sample rolling history, the 512-sample analysis
 frame, the circular overlap-add (OLA) and normalisation rings, and the
 pushed/popped/hops counters.

 The forward and inverse FFT are modelled by their exact round trip, the
 identity on the windowed block, and the Hann window by an opaque sequence of
 512 reals supplied at construction.
 */
module Stft {
  import opened Numbers

  /** Transform length. */
  const Nfft: nat := 512
  /** New samples consumed and produced per analysis/synthesis cycle. */
  const Hop: nat := 96
  /** Overlap carried from earlier hops. */
  const HistLen: nat := 384
  /** Leading zeros of the analysis frame. */
  const Pad: nat := 32
  /** Analysis frame before padding: history plus hop. */
  const FrameLen: nat := 480
  /** Capacity of the OLA and normalisation rings: 2^15 cells. */
  const Cap: nat := 32768
  /** Normalisation values at or below this produce a zero output sample. */
  const Eps: real := 0.00000001

  /** The frame constants fit together and both rings have power-of-two sizes. */
  lemma ConstantsConsistent()
    ensures FrameLen == HistLen + Hop
    ensures Nfft == Pad + FrameLen
    ensures IsPow2(Nfft) && IsPow2(Cap)
    ensures Nfft - Hop + Hop * 8 <= Cap
  {
    assert IsPow2(2) && IsPow2(4) && IsPow2(8) && IsPow2(16) && IsPow2(32);
    assert IsPow2(64) && IsPow2(128) && IsPow2(256) && IsPow2(512) && IsPow2(1024);
    assert IsPow2(2048) && IsPow2(4096) && IsPow2(8192) && IsPow2(16384) && IsPow2(32768);
  }

  datatype Stft = Stft(
    win: seq<real>,
    pending: seq<real>,
    hist: seq<real>,
    ola: seq<real>,
    norm: seq<real>,
    olaWrite: nat,
    olaRead: nat,
    avail: nat,
    pushed: nat,
    popped: nat,
    hops: nat)

  /** Ring position `i` cells after position `p`: the remainder by `Cap` that the source computes by masking with `Cap - 1`. */
  function At(p: nat, i: nat): (q: nat)
    ensures q < Cap
  {
    (p + i) % Cap
  }

  /** How many cells forward position `to` lies from position `from`. */
  function Dist(from: nat, to: nat): (d: nat)
    requires from < Cap && to < Cap
    ensures d < Cap
  {
    if to >= from then to - from else to + Cap - from
  }

  lemma DistAt(p: nat, i: nat)
    requires p < Cap && i < Cap
    ensures Dist(p, At(p, i)) == i
  {
  }

  /** Moving the origin forward by `a` cells shortens every further distance by `a`. */
  lemma DistShift(p: nat, a: nat, j: nat)
    requires p < Cap && a < Cap && j < Cap && Dist(p, j) >= a
    ensures Dist(At(p, a), j) == Dist(p, j) - a
  {
  }

  /** Number of cells, counted from the read position, that may hold data. */
  function Live(s: Stft): nat
  {
    s.avail + (Nfft - Hop)
  }

  /**
   The OLA invariant: the write position is `avail` cells past the read
   position, the counters agree with it, normalisation energy is never
   negative, and every cell beyond the live region is clear.
   */
  predicate RingValid(s: Stft)
  {
    && |s.win| == Nfft
    && |s.ola| == Cap && |s.norm| == Cap
    && s.olaRead < Cap && s.olaWrite < Cap
    && s.olaWrite == At(s.olaRead, s.avail)
    && Live(s) <= Cap
    && s.popped + s.avail == Hop * s.hops
    && (forall j :: 0 <= j < Cap ==> s.norm[j] >= 0.0)
    && (forall j :: 0 <= j < Cap && Dist(s.olaRead, j) >= Live(s) ==> s.ola[j] == 0.0 && s.norm[j] == 0.0)
  }

  /** The full invariant: the accumulator holds less than one hop and every pushed sample is accounted for. */
  predicate Valid(s: Stft)
  {
    && RingValid(s)
    && |s.hist| == HistLen
    && |s.pending| < Hop
    && s.pushed == Hop * s.hops + |s.pending|
  }

  /** The freshly constructed processor: zero history, empty rings, zero counters. */
  function Init(win: seq<real>): (s: Stft)
    requires |win| == Nfft
    ensures Valid(s)
    ensures s.pushed == 0 && s.popped == 0 && s.hops == 0 && s.avail == 0
    ensures s.olaRead == 0 && s.olaWrite == 0 && s.pending == []
  {
    Stft(win, [], seq(HistLen, _ => 0.0), seq(Cap, _ => 0.0), seq(Cap, _ => 0.0), 0, 0, 0, 0, 0, 0)
  }

  /** The analysis frame: 32 zeros, then the history, then the new hop. */
  function AnalysisFrame(hist: seq<real>, hop: seq<real>): (f: seq<real>)
    requires |hist| == HistLen && |hop| == Hop
    ensures |f| == Nfft
    ensures forall i :: 0 <= i < Pad ==> f[i] == 0.0
    ensures forall i :: 0 <= i < HistLen ==> f[Pad + i] == hist[i]
    ensures forall i :: 0 <= i < Hop ==> f[Pad + HistLen + i] == hop[i]
  {
    seq(Pad, _ => 0.0) + hist + hop
  }

  /** Forward FFT, identity spectral edit, inverse FFT: exactly the identity. */
  function FftRoundTrip(x: seq<real>): seq<real>
  {
    x
  }

  /** The normalisation energy of window position `i`: the squared window value. */
  function Energy(win: seq<real>, i: nat): real
    requires i < |win|
  {
    win[i] * win[i]
  }

  lemma EnergyNonNegative(win: seq<real>, i: nat)
    requires i < |win|
    ensures Energy(win, i) >= 0.0
  {
    var x := win[i];
    if x < 0.0 {
      assert x * x == (-x) * (-x);
    }
  }

  /**
   The synthesis block of one frame: windowed, transformed there and back,
   windowed again, so that each sample is the frame sample times the window
   squared.
   */
  function SynthesisBlock(win: seq<real>, frame: seq<real>): (b: seq<real>)
    requires |win| == Nfft && |frame| == Nfft
    ensures |b| == Nfft
    ensures forall i :: 0 <= i < Nfft ==> b[i] == frame[i] * Energy(win, i)
  {
    var windowed := seq(Nfft, i requires 0 <= i < Nfft => frame[i] * win[i]);
    var y := FftRoundTrip(windowed);
    seq(Nfft, i requires 0 <= i < Nfft => y[i] * win[i])
  }

  /**
   Overlap-add of one 512-sample block at the write position: cell `w + i`
   gains `block[i]` and its normalisation cell gains `win[i]^2`; no other cell
   changes, and the write position advances by one hop.
   */
  function OlaAdd(s: Stft, block: seq<real>): (s': Stft)
    requires |s.win| == Nfft && |block| == Nfft
    requires |s.ola| == Cap && |s.norm| == Cap && s.olaWrite < Cap
    ensures |s'.ola| == Cap && |s'.norm| == Cap
    ensures forall i :: 0 <= i < Nfft ==>
              && s'.ola[At(s.olaWrite, i)] == s.ola[At(s.olaWrite, i)] + block[i]
              && s'.norm[At(s.olaWrite, i)] == s.norm[At(s.olaWrite, i)] + Energy(s.win, i)
    ensures forall j :: 0 <= j < Cap && Dist(s.olaWrite, j) >= Nfft ==>
              s'.ola[j] == s.ola[j] && s'.norm[j] == s.norm[j]
    ensures s'.olaWrite == At(s.olaWrite, Hop)
    ensures s' == s.(ola := s'.ola, norm := s'.norm, olaWrite := s'.olaWrite)
  {
    var w := s.olaWrite;
    var ola := seq(Cap, j requires 0 <= j < Cap =>
                 if Dist(w, j) < Nfft then s.ola[j] + block[Dist(w, j)] else s.ola[j]);
    var norm := seq(Cap, j requires 0 <= j < Cap =>
                  if Dist(w, j) < Nfft then s.norm[j] + Energy(s.win, Dist(w, j)) else s.norm[j]);
    assert forall i :: 0 <= i < Nfft ==> Dist(w, At(w, i)) == i;
    s.(ola := ola, norm := norm, olaWrite := At(w, Hop))
  }

  lemma AtDist(p: nat, j: nat)
    requires p < Cap && j < Cap
    ensures At(p, Dist(p, j)) == j
  {
  }

  /**
   One analysis/synthesis cycle on a full hop: overlap-adds the synthesis
   block of the frame built from the current (not yet rolled) history and the
   hop, then makes one more hop available to pop.
   */
  function ProcessOneHop(s: Stft, hop: seq<real>): (s': Stft)
    requires RingValid(s) && |s.hist| == HistLen && |hop| == Hop
    requires s.avail + Nfft <= Cap
    ensures RingValid(s')
    ensures s'.avail == s.avail + Hop && s'.hops == s.hops + 1
    ensures s'.olaWrite == At(s.olaWrite, Hop)
    ensures forall i :: 0 <= i < Nfft ==>
              && s'.ola[At(s.olaWrite, i)] == s.ola[At(s.olaWrite, i)] + SynthesisBlock(s.win, AnalysisFrame(s.hist, hop))[i]
              && s'.norm[At(s.olaWrite, i)] == s.norm[At(s.olaWrite, i)] + Energy(s.win, i)
    ensures forall j :: 0 <= j < Cap && Dist(s.olaWrite, j) >= Nfft ==>
              s'.ola[j] == s.ola[j] && s'.norm[j] == s.norm[j]
    ensures s' == s.(ola := s'.ola, norm := s'.norm, olaWrite := s'.olaWrite, avail := s'.avail, hops := s'.hops)
  {
    var frame := AnalysisFrame(s.hist, hop);
    var block := SynthesisBlock(s.win, frame);
    var s1 := OlaAdd(s, block);
    var s' := s1.(avail := s.avail + Hop, hops := s.hops + 1);
    HopKeepsRingValid(s, block);
    s'
  }

  /** Cell `j` after an overlap-add, seen from the write position. */
  lemma OlaCell(s: Stft, block: seq<real>, j: nat)
    requires |s.win| == Nfft && |block| == Nfft
    requires |s.ola| == Cap && |s.norm| == Cap && s.olaWrite < Cap && j < Cap
    ensures Dist(s.olaWrite, j) < Nfft ==>
              OlaAdd(s, block).norm[j] == s.norm[j] + Energy(s.win, Dist(s.olaWrite, j))
    ensures Dist(s.olaWrite, j) >= Nfft ==>
              OlaAdd(s, block).norm[j] == s.norm[j] && OlaAdd(s, block).ola[j] == s.ola[j]
  {
    AtDist(s.olaWrite, j);
  }

  /** Overlap-add only ever adds squared window values to the energies. */
  lemma OlaAddKeepsEnergy(s: Stft, block: seq<real>)
    requires |s.win| == Nfft && |block| == Nfft
    requires |s.ola| == Cap && |s.norm| == Cap && s.olaWrite < Cap
    requires forall j :: 0 <= j < Cap ==> s.norm[j] >= 0.0
    ensures forall j :: 0 <= j < Cap ==> OlaAdd(s, block).norm[j] >= 0.0
  {
    forall j | 0 <= j < Cap
      ensures OlaAdd(s, block).norm[j] >= 0.0
    {
      OlaCell(s, block, j);
      if Dist(s.olaWrite, j) < Nfft {
        EnergyNonNegative(s.win, Dist(s.olaWrite, j));
      }
    }
  }

  lemma HopKeepsRingValid(s: Stft, block: seq<real>)
    requires RingValid(s) && |block| == Nfft && s.avail + Nfft <= Cap
    ensures RingValid(OlaAdd(s, block).(avail := s.avail + Hop, hops := s.hops + 1))
  {
    var t := OlaAdd(s, block);
    var s' := t.(avail := s.avail + Hop, hops := s.hops + 1);
    OlaAddKeepsEnergy(s, block);
    forall j | 0 <= j < Cap && Dist(s.olaRead, j) >= s.avail + Nfft
      ensures t.ola[j] == 0.0 && t.norm[j] == 0.0
    {
      QuietCell(s, block, j);
    }
    HopInvariant(s, t.ola, t.norm, s');
  }

  /**
   The invariant after a hop, from what overlap-add guarantees: energies stay
   non-negative and every cell a frame or more past the old write position
   stays clear.
   */
  lemma HopInvariant(s: Stft, ola: seq<real>, norm: seq<real>, s': Stft)
    requires RingValid(s) && s.avail + Nfft <= Cap
    requires |ola| == Cap && |norm| == Cap
    requires forall j :: 0 <= j < Cap ==> norm[j] >= 0.0
    requires forall j :: 0 <= j < Cap && Dist(s.olaRead, j) >= s.avail + Nfft ==> ola[j] == 0.0 && norm[j] == 0.0
    requires s' == s.(ola := ola, norm := norm, olaWrite := At(s.olaWrite, Hop), avail := s.avail + Hop, hops := s.hops + 1)
    ensures RingValid(s')
  {
    WriteAdvances(s.olaRead, s.avail, s.olaWrite, s'.olaWrite);
  }

  /** Moving the write position by a hop keeps it `avail` cells past the read position. */
  lemma WriteAdvances(r: nat, a: nat, w: nat, w': nat)
    requires r < Cap && a + Hop < Cap && w == At(r, a) && w' == At(w, Hop)
    ensures w' == At(r, a + Hop)
  {
    AtAt(r, a, Hop);
  }

  /** A cell a whole frame or more past the write position stays clear through an overlap-add. */
  lemma QuietCell(s: Stft, block: seq<real>, j: nat)
    requires RingValid(s) && |block| == Nfft && s.avail + Nfft <= Cap
    requires j < Cap && Dist(s.olaRead, j) >= s.avail + Nfft
    ensures OlaAdd(s, block).ola[j] == 0.0 && OlaAdd(s, block).norm[j] == 0.0
  {
    DistShift(s.olaRead, s.avail, j);
    OlaCell(s, block, j);
    assert s.ola[j] == 0.0 && s.norm[j] == 0.0;
  }

  lemma AtAt(p: nat, a: nat, b: nat)
    requires p < Cap && a < Cap && b < Cap
    ensures At(At(p, a), b) == At(p, a + b)
  {
  }

  /**
   A completed hop: process it against the current history, then roll the
   history forward by dropping its oldest 96 samples and appending the hop.
   */
  function CompleteHop(s: Stft, hop: seq<real>): (s': Stft)
    requires RingValid(s) && |s.hist| == HistLen && |hop| == Hop
    requires s.avail + Nfft <= Cap
    ensures RingValid(s') && |s'.hist| == HistLen
    ensures s'.hist == s.hist[Hop..] + hop && s'.pending == []
    ensures s'.avail == s.avail + Hop && s'.hops == s.hops + 1
    ensures s'.popped == s.popped && s'.pushed == s.pushed && s'.olaRead == s.olaRead && s'.win == s.win
    ensures s'.ola == ProcessOneHop(s, hop).ola && s'.norm == ProcessOneHop(s, hop).norm
  {
    ProcessOneHop(s, hop).(pending := [], hist := s.hist[Hop..] + hop)
  }

  /** The samples of a run of blocks, in order. */
  function Concat(blocks: seq<seq<real>>): seq<real>
  {
    if |blocks| == 0 then [] else blocks[0] + Concat(blocks[1..])
  }

  /** Every block is one hop long. */
  predicate AllHops(blocks: seq<seq<real>>)
  {
    forall i :: 0 <= i < |blocks| ==> |blocks[i]| == Hop
  }

  lemma {:induction false} ConcatLength(blocks: seq<seq<real>>)
    requires AllHops(blocks)
    ensures |Concat(blocks)| == Hop * |blocks|
  {
    if |blocks| > 0 {
      ConcatLength(blocks[1..]);
    }
  }

  /** The whole hops a run of samples completes, and the partial hop left over. */
  datatype Split = Split(hops: seq<seq<real>>, rest: seq<real>)

  /**
   The hop-filling half of the push loop: the accumulator is topped up to
   96 samples, each full accumulator becomes a hop, and what is left stays
   in the accumulator.  The hops and the leftover partition the stream.
   */
  function SplitHops(pending: seq<real>, x: seq<real>): (sp: Split)
    requires |pending| < Hop
    ensures Hop * |sp.hops| + |sp.rest| == |pending| + |x| && |sp.rest| < Hop
    ensures AllHops(sp.hops)
    ensures Concat(sp.hops) + sp.rest == pending + x
    decreases |x|
  {
    if |pending| + |x| < Hop then Split([], pending + x)
    else
      var take := Hop - |pending|;
      var sp := SplitHops([], x[take..]);
      SplitStep(pending, x, take, sp.hops, sp.rest);
      Split([pending + x[..take]] + sp.hops, sp.rest)
  }

  lemma SplitStep(pending: seq<real>, x: seq<real>, take: nat, hops: seq<seq<real>>, rest: seq<real>)
    requires take <= |x| && |pending| + take == Hop && AllHops(hops)
    requires Concat(hops) + rest == x[take..]
    ensures AllHops([pending + x[..take]] + hops)
    ensures Concat([pending + x[..take]] + hops) + rest == pending + x
  {
    var all := [pending + x[..take]] + hops;
    assert all[1..] == hops;
    assert x == x[..take] + x[take..];
  }

  /** Quotient and remainder by the hop size are unique. */
  lemma HopCount(n: nat, q: nat, r: nat)
    requires n == Hop * q + r && r < Hop
    ensures q == n / Hop && r == n % Hop
  {
  }

  /**
   Completes a run of hops in order.  The history ends as the last 384
   samples of the old history followed by the hops.
   */
  function ApplyHops(s: Stft, hops: seq<seq<real>>): (s': Stft)
    requires RingValid(s) && |s.hist| == HistLen
    requires AllHops(hops)
    requires s.avail + Hop * |hops| + (Nfft - Hop) <= Cap
    ensures RingValid(s') && |s'.hist| == HistLen
    ensures s'.hops == s.hops + |hops| && s'.avail == s.avail + Hop * |hops|
    ensures s'.popped == s.popped && s'.pushed == s.pushed && s'.olaRead == s.olaRead && s'.win == s.win
    ensures |hops| > 0 ==> s'.pending == []
    ensures |hops| == 0 ==> s' == s
    ensures |hops| == 1 ==> s'.ola == ProcessOneHop(s, hops[0]).ola && s'.norm == ProcessOneHop(s, hops[0]).norm
    ensures |Concat(hops)| == Hop * |hops|
    ensures s'.hist == (s.hist + Concat(hops))[Hop * |hops|..]
    decreases |hops|
  {
    ConcatLength(hops);
    if |hops| == 0 then s
    else
      var s2 := CompleteHop(s, hops[0]);
      var s' := ApplyHops(s2, hops[1..]);
      HistAfterHop(s.hist, hops[0], Concat(hops[1..]), |hops| - 1);
      s'
  }

  /** Completing two runs of hops one after the other is completing their concatenation. */
  lemma {:induction false} ApplyHopsAppend(s: Stft, a: seq<seq<real>>, b: seq<seq<real>>)
    requires RingValid(s) && |s.hist| == HistLen
    requires AllHops(a) && AllHops(b)
    requires s.avail + Hop * (|a| + |b|) + (Nfft - Hop) <= Cap
    ensures AllHops(a + b)
    ensures ApplyHops(s, a + b) == ApplyHops(ApplyHops(s, a), b)
    decreases |a|
  {
    AllHopsAppend(a, b);
    if |a| == 0 {
      assert a + b == b;
    } else {
      var s2 := CompleteHop(s, a[0]);
      assert (a + b)[0] == a[0];
      assert (a + b)[1..] == a[1..] + b;
      FirstHop(s, a + b, a[0], a[1..] + b);
      ApplyHopsAppend(s2, a[1..], b);
      FirstHop(s, a, a[0], a[1..]);
    }
  }

  lemma AllHopsAppend(a: seq<seq<real>>, b: seq<seq<real>>)
    requires AllHops(a) && AllHops(b)
    ensures AllHops(a + b)
  {
  }

  /** A non-empty run of hops completes its first hop, then the others. */
  lemma FirstHop(s: Stft, hops: seq<seq<real>>, first: seq<real>, others: seq<seq<real>>)
    requires RingValid(s) && |s.hist| == HistLen
    requires |hops| > 0 && first == hops[0] && others == hops[1..]
    requires AllHops(hops) && s.avail + Hop * |hops| + (Nfft - Hop) <= Cap
    ensures ApplyHops(s, hops) == ApplyHops(CompleteHop(s, first), others)
  {
  }

  /**
   Completing hops does not look at the accumulator or the pushed counter:
   it keeps the counter and, once a hop completes, empties the accumulator.
   */
  lemma {:induction false} ApplyHopsIgnoresAccumulator(s: Stft, hops: seq<seq<real>>, pending: seq<real>, pushed: nat)
    requires RingValid(s) && |s.hist| == HistLen
    requires AllHops(hops) && |hops| > 0
    requires s.avail + Hop * |hops| + (Nfft - Hop) <= Cap
    ensures RingValid(s.(pending := pending, pushed := pushed))
    ensures ApplyHops(s.(pending := pending, pushed := pushed), hops) == ApplyHops(s, hops).(pushed := pushed)
    decreases |hops|
  {
    var t := s.(pending := pending, pushed := pushed);
    assert CompleteHop(t, hops[0]) == CompleteHop(s, hops[0]).(pushed := pushed);
    if |hops| > 1 {
      ApplyHopsIgnoresAccumulator(CompleteHop(s, hops[0]), hops[1..], [], pushed);
      assert CompleteHop(s, hops[0]).(pending := [], pushed := pushed) == CompleteHop(s, hops[0]).(pushed := pushed);
    }
  }

  /** The first `k` whole hops of a stream, cut at multiples of 96 samples. */
  function Chunks(stream: seq<real>, k: nat): (hops: seq<seq<real>>)
    requires Hop * k <= |stream|
    ensures |hops| == k && AllHops(hops)
  {
    seq(k, i requires 0 <= i < k => stream[Hop * i..Hop * i + Hop])
  }

  /** A run of hops followed by anything is cut back into the same hops. */
  lemma {:induction false} HopsAreChunks(hops: seq<seq<real>>, rest: seq<real>)
    requires AllHops(hops)
    ensures Hop * |hops| <= |Concat(hops) + rest|
    ensures Chunks(Concat(hops) + rest, |hops|) == hops
    decreases |hops|
  {
    ConcatLength(hops);
    if |hops| > 0 {
      var tail := hops[1..];
      var st, st' := Concat(hops) + rest, Concat(tail) + rest;
      HopsAreChunks(tail, rest);
      assert st == hops[0] + st';
      forall i | 0 <= i < |hops|
        ensures Chunks(st, |hops|)[i] == hops[i]
      {
        if i == 0 {
          assert st[..Hop] == hops[0];
        } else {
          assert st[Hop * i..Hop * i + Hop] == st'[Hop * (i - 1)..Hop * (i - 1) + Hop];
        }
      }
    }
  }

  /**
   The accumulator loop cuts the stream exactly where the reference cut
   does: its hops are the first whole hops of `pending + x` and what it
   leaves is the tail after them.
   */
  lemma SplitIsChunks(pending: seq<real>, x: seq<real>)
    requires |pending| < Hop
    ensures var k := (|pending| + |x|) / Hop;
      && Hop * k <= |pending + x|
      && SplitHops(pending, x).hops == Chunks(pending + x, k)
      && SplitHops(pending, x).rest == (pending + x)[Hop * k..]
  {
    var sp := SplitHops(pending, x);
    CutIsChunks(sp.hops, sp.rest, pending, x);
  }

  lemma CutIsChunks(hops: seq<seq<real>>, rest: seq<real>, pending: seq<real>, x: seq<real>)
    requires AllHops(hops) && Concat(hops) + rest == pending + x && |rest| < Hop
    ensures var k := (|pending| + |x|) / Hop;
      && Hop * k <= |pending + x|
      && hops == Chunks(pending + x, k)
      && rest == (pending + x)[Hop * k..]
  {
    var stream := pending + x;
    ConcatLength(hops);
    HopCount(|stream|, |hops|, |rest|);
    HopsAreChunks(hops, rest);
  }

  /** Cutting a stream, then cutting its tail with more samples appended, is cutting the longer stream. */
  lemma ChunksAppend(st: seq<real>, y: seq<real>, k1: nat, k2: nat)
    requires Hop * k1 <= |st| && Hop * k2 <= |st[Hop * k1..] + y|
    ensures Hop * (k1 + k2) <= |st + y|
    ensures Chunks(st, k1) + Chunks(st[Hop * k1..] + y, k2) == Chunks(st + y, k1 + k2)
    ensures (st[Hop * k1..] + y)[Hop * k2..] == (st + y)[Hop * (k1 + k2)..]
  {
    var tail := st[Hop * k1..] + y;
    assert tail == (st + y)[Hop * k1..];
    assert tail[Hop * k2..] == (st + y)[Hop * (k1 + k2)..];
    var lhs, rhs := Chunks(st, k1) + Chunks(tail, k2), Chunks(st + y, k1 + k2);
    forall i | 0 <= i < k1 + k2
      ensures lhs[i] == rhs[i]
    {
      if i < k1 {
        assert st[Hop * i..Hop * i + Hop] == (st + y)[Hop * i..Hop * i + Hop];
      } else {
        var j := i - k1;
        assert tail[Hop * j..Hop * j + Hop] == (st + y)[Hop * i..Hop * i + Hop];
      }
    }
  }

  lemma HistAfterHop(hist: seq<real>, hop: seq<real>, more: seq<real>, k: nat)
    requires |hist| == HistLen && |hop| == Hop && |more| == Hop * k
    ensures ((hist[Hop..] + hop) + more)[Hop * k..] == (hist + (hop + more))[Hop * (k + 1)..]
  {
    assert (hist[Hop..] + hop) + more == (hist + (hop + more))[Hop..];
  }

  lemma StreamTail(hist: seq<real>, hopped: seq<real>, rest: seq<real>, pending: seq<real>, x: seq<real>, k: nat)
    requires |hopped| == Hop * k && hopped + rest == pending + x && Hop * k <= |hist| + |pending| + |x|
    ensures (hist + hopped)[Hop * k..] + rest == (hist + pending + x)[Hop * k..]
  {
    assert (hist + hopped) + rest == hist + (hopped + rest);
    assert hist + (pending + x) == hist + pending + x;
  }

  /**
   Feeds samples: every sample is counted, each completed hop makes 96 more
   output samples available, and the history and accumulator end as the
   tail of the stream after the completed hops.
   */
  function Push(s: Stft, x: seq<real>): (s': Stft)
    requires Valid(s)
    requires s.avail + Hop * ((|s.pending| + |x|) / Hop) + (Nfft - Hop) <= Cap
    ensures Valid(s')
    ensures s'.pushed == s.pushed + |x| && s'.popped == s.popped
    ensures s'.hops == s.hops + (|s.pending| + |x|) / Hop
    ensures s'.avail == s.avail + Hop * ((|s.pending| + |x|) / Hop)
    ensures s'.olaRead == s.olaRead && s'.win == s.win
    ensures |s'.pending| == (|s.pending| + |x|) % Hop
    ensures Hop * ((|s.pending| + |x|) / Hop) <= |s.pending| + |x|
    ensures s'.hist + s'.pending == (s.hist + s.pending + x)[Hop * ((|s.pending| + |x|) / Hop)..]
  {
    var sp := SplitHops(s.pending, x);
    var k := |sp.hops|;
    HopCount(|s.pending| + |x|, k, |sp.rest|);
    var s1 := ApplyHops(s, sp.hops);
    var s' := s1.(pending := sp.rest, pushed := s.pushed + |x|);
    StreamTail(s.hist, Concat(sp.hops), sp.rest, s.pending, x, k);
    s'
  }

  /**
   Reference push: complete the first whole hops of the accumulator followed
   by the new samples, in order, keep the tail after them in the accumulator
   and count the new samples.
   */
  function ChunkedPush(s: Stft, x: seq<real>): (s': Stft)
    requires Valid(s)
    requires s.avail + Hop * ((|s.pending| + |x|) / Hop) + (Nfft - Hop) <= Cap
  {
    var st := s.pending + x;
    var k := |st| / Hop;
    ApplyHops(s, Chunks(st, k)).(pending := st[Hop * k..], pushed := s.pushed + |x|)
  }

  /** The accumulator loop of Push agrees with the reference push. */
  lemma PushIsChunked(s: Stft, x: seq<real>)
    requires Valid(s)
    requires s.avail + Hop * ((|s.pending| + |x|) / Hop) + (Nfft - Hop) <= Cap
    ensures Push(s, x) == ChunkedPush(s, x)
  {
    var st := s.pending + x;
    var k := |st| / Hop;
    var sp := SplitHops(s.pending, x);
    SplitIsChunks(s.pending, x);
    assert sp.hops == Chunks(st, k) && sp.rest == st[Hop * k..];
    PushBySplit(s, x);
    assert Push(s, x) == ApplyHops(s, sp.hops).(pending := sp.rest, pushed := s.pushed + |x|);
    assert ChunkedPush(s, x) == ApplyHops(s, Chunks(st, k)).(pending := st[Hop * k..], pushed := s.pushed + |x|);
  }

  lemma PushBySplit(s: Stft, x: seq<real>)
    requires Valid(s)
    requires s.avail + Hop * ((|s.pending| + |x|) / Hop) + (Nfft - Hop) <= Cap
    ensures var sp := SplitHops(s.pending, x);
      && s.avail + Hop * |sp.hops| + (Nfft - Hop) <= Cap
      && Push(s, x) == ApplyHops(s, sp.hops).(pending := sp.rest, pushed := s.pushed + |x|)
  {
    var sp := SplitHops(s.pending, x);
    HopCount(|s.pending| + |x|, |sp.hops|, |sp.rest|);
  }

  /**
   The reference push in pieces: completing the whole hops of `st`, keeping
   its tail, then completing the whole hops of that tail followed by `y`,
   ends in the state of completing the whole hops of `st + y` at once.
   */
  lemma ChunkedPushTwice(s: Stft, st: seq<real>, y: seq<real>, k1: nat, k2: nat)
    requires Valid(s) && Hop * k1 <= |st| && Hop * k2 <= |st[Hop * k1..] + y|
    requires s.avail + Hop * (k1 + k2) + (Nfft - Hop) <= Cap
    ensures var a1 := ApplyHops(s, Chunks(st, k1));
      var r1 := st[Hop * k1..];
      && Hop * (k1 + k2) <= |st + y|
      && a1.avail + Hop * k2 + (Nfft - Hop) <= Cap
      && ApplyHops(a1.(pending := r1, pushed := s.pushed + |st| - |s.pending|), Chunks(r1 + y, k2)).(pending := (r1 + y)[Hop * k2..])
         == ApplyHops(s, Chunks(st + y, k1 + k2)).(pending := (st + y)[Hop * (k1 + k2)..], pushed := s.pushed + |st| - |s.pending|)
  {
    var c1 := Chunks(st, k1);
    var a1 := ApplyHops(s, c1);
    var r1 := st[Hop * k1..];
    var c2 := Chunks(r1 + y, k2);
    var pushed := s.pushed + |st| - |s.pending|;
    ChunksAppend(st, y, k1, k2);
    ApplyHopsAppend(s, c1, c2);
    if k2 == 0 {
      assert c1 + c2 == c1;
    } else {
      ApplyHopsIgnoresAccumulator(a1, c2, r1, pushed);
    }
  }

  /**
   A push that completes exactly one hop overlap-adds the synthesis of that
   hop, the first 96 samples of the accumulator followed by the new samples.
   */
  lemma PushOneHop(s: Stft, x: seq<real>)
    requires Valid(s)
    requires (|s.pending| + |x|) / Hop == 1 && s.avail + Nfft <= Cap
    ensures Hop <= |s.pending + x|
    ensures Push(s, x).ola == ProcessOneHop(s, (s.pending + x)[..Hop]).ola
    ensures Push(s, x).norm == ProcessOneHop(s, (s.pending + x)[..Hop]).norm
  {
    PushIsChunked(s, x);
    var hops := Chunks(s.pending + x, 1);
    assert ChunkedPush(s, x) == ApplyHops(s, hops).(pending := (s.pending + x)[Hop..], pushed := s.pushed + |x|);
    assert hops[0] == (s.pending + x)[..Hop];
  }

  /** An output sample: the overlap-added value divided by its window energy, or zero where that energy is negligible. */
  function Normalised(v: real, n: real): (y: real)
    ensures n <= Eps ==> y == 0.0
  {
    if n > Eps then v / n else 0.0
  }

  /** Above the threshold normalising divides by the energy: multiplying back restores the overlap-added value. */
  lemma NormalisedInverts(v: real, n: real)
    requires n > Eps
    ensures Normalised(v, n) * n == v
  {
  }

  datatype Popped = Popped(state: Stft, out: seq<real>)

  /**
   Takes up to `maxFrames` normalised samples from the front of the OLA
   ring and clears the cells it read.
   */
  function Pop(s: Stft, maxFrames: nat): (p: Popped)
    requires Valid(s)
    ensures Valid(p.state)
    ensures |p.out| == Min(maxFrames, s.avail)
    ensures s.hops == 0 ==> |p.out| == 0
    ensures forall i :: 0 <= i < |p.out| ==>
              p.out[i] == Normalised(s.ola[At(s.olaRead, i)], s.norm[At(s.olaRead, i)])
    ensures forall j :: 0 <= j < Cap && Dist(s.olaRead, j) < |p.out| ==>
              p.state.ola[j] == 0.0 && p.state.norm[j] == 0.0
    ensures forall j :: 0 <= j < Cap && Dist(s.olaRead, j) >= |p.out| ==>
              p.state.ola[j] == s.ola[j] && p.state.norm[j] == s.norm[j]
    ensures p.state.olaRead == At(s.olaRead, |p.out|)
    ensures p.state.avail == s.avail - |p.out| && p.state.popped == s.popped + |p.out|
    ensures p.state == s.(ola := p.state.ola, norm := p.state.norm, olaRead := p.state.olaRead,
                          avail := p.state.avail, popped := p.state.popped)
  {
    var r := s.olaRead;
    var n := Min(maxFrames, s.avail);
    var out := seq(n, i requires 0 <= i < n => Normalised(s.ola[At(r, i)], s.norm[At(r, i)]));
    var ola := seq(Cap, j requires 0 <= j < Cap => if Dist(r, j) < n then 0.0 else s.ola[j]);
    var norm := seq(Cap, j requires 0 <= j < Cap => if Dist(r, j) < n then 0.0 else s.norm[j]);
    var s' := s.(ola := ola, norm := norm, olaRead := At(r, n), avail := s.avail - n, popped := s.popped + n);
    PopKeepsRingValid(s, s');
    Popped(s', out)
  }

  lemma PopKeepsRingValid(s: Stft, s': Stft)
    requires RingValid(s)
    requires s'.avail <= s.avail
    requires var n := s.avail - s'.avail;
      && s' == s.(ola := s'.ola, norm := s'.norm, olaRead := At(s.olaRead, n), avail := s'.avail, popped := s.popped + n)
      && |s'.ola| == Cap && |s'.norm| == Cap
      && (forall j :: 0 <= j < Cap ==> s'.ola[j] == (if Dist(s.olaRead, j) < n then 0.0 else s.ola[j]))
      && (forall j :: 0 <= j < Cap ==> s'.norm[j] == (if Dist(s.olaRead, j) < n then 0.0 else s.norm[j]))
    ensures RingValid(s')
  {
    var r, n := s.olaRead, s.avail - s'.avail;
    AtAt(r, n, s'.avail);
    forall j | 0 <= j < Cap && Dist(s'.olaRead, j) >= Live(s')
      ensures s'.ola[j] == 0.0 && s'.norm[j] == 0.0
    {
      if Dist(r, j) >= n {
        DistShift(r, n, j);
      }
    }
  }

  /** The counters agree: what is available is what the hops produced and nobody popped. */
  lemma CounterOrder(s: Stft)
    requires Valid(s)
    ensures s.avail == Hop * s.hops - s.popped
    ensures s.popped <= Hop * s.hops <= s.pushed
  {
  }

  /** The three counters only ever grow: pushing never lowers them, and neither does popping. */
  lemma CountersNeverDecrease(s: Stft, x: seq<real>, maxFrames: nat)
    requires Valid(s)
    requires s.avail + Hop * ((|s.pending| + |x|) / Hop) + (Nfft - Hop) <= Cap
    ensures var s' := Push(s, x);
      s'.pushed >= s.pushed && s'.popped == s.popped && s'.hops >= s.hops
    ensures var p := Pop(s, maxFrames);
      p.state.pushed == s.pushed && p.state.popped >= s.popped && p.state.hops == s.hops
  {
  }

  /**
   The engine's cadence: with an empty accumulator and nothing available,
   pushing one hop and popping 96 samples yields exactly 96 samples and
   returns to an empty accumulator with nothing available.  Sample `i` is
   the overlap-added cell `i` past the read position divided by its
   accumulated window energy, and that cell holds its previous value plus
   the new block's synthesis sample `i` (its energy: previous plus the
   window's energy at `i`).
   */
  lemma HopCadence(s: Stft, hop: seq<real>)
    requires Valid(s) && s.pending == [] && s.avail == 0 && |hop| == Hop
    ensures Hop * ((|s.pending| + |hop|) / Hop) + (Nfft - Hop) <= Cap
    ensures var p := Pop(Push(s, hop), Hop);
      && |p.out| == Hop
      && p.state.avail == 0 && p.state.pending == []
      && p.state.hist == s.hist[Hop..] + hop
      && p.state.hops == s.hops + 1
      && p.state.pushed == s.pushed + Hop && p.state.popped == s.popped + Hop
      && forall i :: 0 <= i < Hop ==>
           p.out[i] == Normalised(Push(s, hop).ola[At(s.olaRead, i)], Push(s, hop).norm[At(s.olaRead, i)])
    ensures forall i :: 0 <= i < Nfft ==>
      && Push(s, hop).ola[At(s.olaRead, i)] == s.ola[At(s.olaRead, i)] + SynthesisBlock(s.win, AnalysisFrame(s.hist, hop))[i]
      && Push(s, hop).norm[At(s.olaRead, i)] == s.norm[At(s.olaRead, i)] + Energy(s.win, i)
  {
    CadenceState(s, hop);
    PushedCells(s, hop);
  }

  /** The counting half of the cadence: the pop returns a whole hop and the state comes back to the cadence. */
  lemma CadenceState(s: Stft, hop: seq<real>)
    requires Valid(s) && s.pending == [] && s.avail == 0 && |hop| == Hop
    ensures Hop * ((|s.pending| + |hop|) / Hop) + (Nfft - Hop) <= Cap
    ensures var p := Pop(Push(s, hop), Hop);
      && |p.out| == Hop
      && p.state.avail == 0 && p.state.pending == []
      && p.state.hist == s.hist[Hop..] + hop
      && p.state.hops == s.hops + 1
      && p.state.pushed == s.pushed + Hop && p.state.popped == s.popped + Hop
  {
    HopCount(|hop|, 1, 0);
    assert |s.pending| + |hop| == Hop;
    var s1 := Push(s, hop);
    assert s1.avail == Hop && |s1.pending| == 0 && s1.hops == s.hops + 1;
    assert s1.hist + s1.pending == (s.hist + s.pending + hop)[Hop..];
    RollHistory(s.hist, s.pending, hop, s1.hist, s1.pending);
    var p := Pop(s1, Hop);
    assert |p.out| == Hop;
  }

  /** In the cadence the new block lands at the read position. */
  lemma PushedCells(s: Stft, hop: seq<real>)
    requires Valid(s) && s.pending == [] && s.avail == 0 && |hop| == Hop
    ensures Hop * ((|s.pending| + |hop|) / Hop) + (Nfft - Hop) <= Cap
    ensures Push(s, hop).olaRead == s.olaRead && Push(s, hop).avail == Hop
    ensures forall i :: 0 <= i < Nfft ==>
      && Push(s, hop).ola[At(s.olaRead, i)] == s.ola[At(s.olaRead, i)] + SynthesisBlock(s.win, AnalysisFrame(s.hist, hop))[i]
      && Push(s, hop).norm[At(s.olaRead, i)] == s.norm[At(s.olaRead, i)] + Energy(s.win, i)
  {
    HopCount(|hop|, 1, 0);
    PushOneHop(s, hop);
    assert (s.pending + hop)[..Hop] == hop;
    AtZero(s.olaRead);
  }

  lemma AtZero(p: nat)
    requires p < Cap
    ensures At(p, 0) == p
  {
  }

  lemma RollHistory(hist: seq<real>, pending: seq<real>, hop: seq<real>, hist': seq<real>, pending': seq<real>)
    requires |hist| == HistLen && pending == [] && |pending'| == 0
    requires hist' + pending' == (hist + pending + hop)[Hop..]
    ensures pending' == [] && hist' == hist[Hop..] + hop
  {
    assert hist' + pending' == hist';
    assert hist + pending + hop == hist + hop;
  }
}
