/**
 Fixed-capacity FIFO of interleaved multi-channel frames (the audio ring buffer).

 The ring is modelled sequentially: storage is a sequence of `capacity` frame
 slots, and the read and write cursors are frame counters that only grow.  A
 cursor addresses slot `cursor % capacity`; because the capacity is a power of
 two this is the slot the source reaches with `cursor & (capacity - 1)`.
 `Contents` is the abstract queue: the frames written and not yet read, oldest
 first.
 */
module Ring {
  import opened Numbers

  /** One frame: one sample per channel at a single instant. */
  type Frame = seq<real>

  /** The smallest power of two that is at least `v` and at least 2. */
  function NextPow2(v: int): (p: int)
    ensures IsPow2(p) && p >= 2 && p >= v
    ensures p == 2 || p / 2 < v
    decreases v
  {
    if v <= 2 then 2
    else
      var half := NextPow2((v + 1) / 2);
      DoubleIsPow2(half);
      2 * half
  }

  lemma DoubleIsPow2(n: int)
    requires IsPow2(n)
    ensures IsPow2(2 * n)
  {
    assert (2 * n) / 2 == n;
  }

  lemma NextPow2Examples()
    ensures NextPow2(100) == 128
    ensures NextPow2(1) == 2
    ensures NextPow2(128) == 128
  {
    assert NextPow2(4) == 4 && NextPow2(7) == 8 && NextPow2(13) == 16;
    assert NextPow2(25) == 32 && NextPow2(50) == 64;
    assert NextPow2(8) == 8 && NextPow2(16) == 16 && NextPow2(32) == 32 && NextPow2(64) == 64;
  }

  /** The bit smear of the source: every bit below the highest set bit becomes 1. */
  function Smear(x: bv32): bv32
  {
    var a := x | (x >> 1);
    var b := a | (a >> 2);
    var c := b | (b >> 4);
    var d := c | (c >> 8);
    d | (d >> 16)
  }

  /**
   nextPow2 as written, on the 32 bits of a positive signed value: decrement,
   smear, increment with two's-complement wrap-around, then raise anything
   below 2 (read as signed, so including every negative value) to 2.
   */
  function NextPow2AsWritten(v: bv32): (p: bv32)
    requires 1 <= v < 0x8000_0000
    ensures 2 <= p < 0x8000_0000
    ensures v <= 0x4000_0000 ==> p & (p - 1) == 0 && p >= v && (p == 2 || p / 2 < v)
  {
    var inc := Smear(v - 1) + 1;
    if inc >= 0x8000_0000 || inc < 2 then 2 else inc
  }

  /** For ordinary capacities the as-written version agrees with NextPow2. */
  lemma NextPow2AsWrittenExamples()
    ensures NextPow2AsWritten(100) == 128 && NextPow2(100) == 128
    ensures NextPow2AsWritten(1) == 2 && NextPow2(1) == 2
    ensures NextPow2AsWritten(9600) == 16384
  {
    NextPow2Examples();
  }

  /**
   Above 2^30 frames the increment overflows to the most negative 32-bit value
   and the guard turns it into 2: the ring gets capacity 2 instead of 2^31.
   */
  lemma NextPow2AsWrittenOverflows()
    ensures NextPow2AsWritten(0x4000_0001) == 2
    ensures NextPow2(0x4000_0001) >= 0x4000_0001
  {
  }

  /** Integer view of the least power-of-two rounding: any power of two that
      is at least the request, at least 2, and 2 or less than twice the
      request, is NextPow2 of the request. */
  lemma NextPow2Unique(v: int, p: int)
    requires IsPow2(p) && p >= 2 && p >= v && (p == 2 || p / 2 < v)
    ensures NextPow2(v) == p
    decreases v
  {
    if v > 2 {
      NextPow2Unique((v + 1) / 2, p / 2);
    }
  }

  /** A 32-bit value with a single bit set, below 2^31 and at least 2, is one of 2^1 .. 2^30. */
  lemma SingleBitValues(p: bv32)
    requires p & (p - 1) == 0 && 2 <= p < 0x8000_0000
    ensures p == 0x2 || p == 0x4 || p == 0x8 || p == 0x10 || p == 0x20
      || p == 0x40 || p == 0x80 || p == 0x100 || p == 0x200 || p == 0x400
      || p == 0x800 || p == 0x1000 || p == 0x2000 || p == 0x4000 || p == 0x8000
      || p == 0x1_0000 || p == 0x2_0000 || p == 0x4_0000 || p == 0x8_0000 || p == 0x10_0000
      || p == 0x20_0000 || p == 0x40_0000 || p == 0x80_0000 || p == 0x100_0000 || p == 0x200_0000
      || p == 0x400_0000 || p == 0x800_0000 || p == 0x1000_0000 || p == 0x2000_0000 || p == 0x4000_0000
  {
  }

  /** The powers of two 2^1 .. 2^30 as integers. */
  lemma PowerTable()
    ensures IsPow2(0x2) && IsPow2(0x4) && IsPow2(0x8) && IsPow2(0x10) && IsPow2(0x20)
      && IsPow2(0x40) && IsPow2(0x80) && IsPow2(0x100) && IsPow2(0x200) && IsPow2(0x400)
      && IsPow2(0x800) && IsPow2(0x1000) && IsPow2(0x2000) && IsPow2(0x4000) && IsPow2(0x8000)
      && IsPow2(0x1_0000) && IsPow2(0x2_0000) && IsPow2(0x4_0000) && IsPow2(0x8_0000) && IsPow2(0x10_0000)
      && IsPow2(0x20_0000) && IsPow2(0x40_0000) && IsPow2(0x80_0000) && IsPow2(0x100_0000) && IsPow2(0x200_0000)
      && IsPow2(0x400_0000) && IsPow2(0x800_0000) && IsPow2(0x1000_0000) && IsPow2(0x2000_0000) && IsPow2(0x4000_0000)
  {
  }

  /*
   The bands below are split into six lemmas of five powers each on purpose.
   Each case turns a 32-bit constant into an integer, and the solver handles
   only a few of these case splits per proof: one lemma over all thirty
   powers runs out of resource.
   */

  /** Bit-vector to integer facts for a rounded capacity in 2^1 .. 2^5. */
  lemma PowerBandsTo2To5(v: bv32, p: bv32)
    requires p == 0x2 || p == 0x4 || p == 0x8 || p == 0x10 || p == 0x20
    requires 1 <= v <= p && (p == 2 || p / 2 < v)
    ensures IsPow2(p as int) && p as int >= 2 && p as int >= v as int && (p as int == 2 || (p as int) / 2 < v as int)
  {
    if p == 0x2 {
      assert p as int == 0x2 && v as int <= 0x2;
      assert IsPow2(0x2) by { PowerTable(); }
    } else if p == 0x4 {
      assert p as int == 0x4 && 0x2 < v as int <= 0x4;
      assert IsPow2(0x4) by { PowerTable(); }
    } else if p == 0x8 {
      assert p as int == 0x8 && 0x4 < v as int <= 0x8;
      assert IsPow2(0x8) by { PowerTable(); }
    } else if p == 0x10 {
      assert p as int == 0x10 && 0x8 < v as int <= 0x10;
      assert IsPow2(0x10) by { PowerTable(); }
    } else if p == 0x20 {
      assert p as int == 0x20 && 0x10 < v as int <= 0x20;
      assert IsPow2(0x20) by { PowerTable(); }
    }
  }

  /** Bit-vector to integer facts for a rounded capacity in 2^6 .. 2^10. */
  lemma PowerBandsTo2To10(v: bv32, p: bv32)
    requires p == 0x40 || p == 0x80 || p == 0x100 || p == 0x200 || p == 0x400
    requires 1 <= v <= p && (p == 2 || p / 2 < v)
    ensures IsPow2(p as int) && p as int >= 2 && p as int >= v as int && (p as int == 2 || (p as int) / 2 < v as int)
  {
    if p == 0x40 {
      assert p as int == 0x40 && 0x20 < v as int <= 0x40;
      assert IsPow2(0x40) by { PowerTable(); }
    } else if p == 0x80 {
      assert p as int == 0x80 && 0x40 < v as int <= 0x80;
      assert IsPow2(0x80) by { PowerTable(); }
    } else if p == 0x100 {
      assert p as int == 0x100 && 0x80 < v as int <= 0x100;
      assert IsPow2(0x100) by { PowerTable(); }
    } else if p == 0x200 {
      assert p as int == 0x200 && 0x100 < v as int <= 0x200;
      assert IsPow2(0x200) by { PowerTable(); }
    } else if p == 0x400 {
      assert p as int == 0x400 && 0x200 < v as int <= 0x400;
      assert IsPow2(0x400) by { PowerTable(); }
    }
  }

  /** Bit-vector to integer facts for a rounded capacity in 2^11 .. 2^15. */
  lemma PowerBandsTo2To15(v: bv32, p: bv32)
    requires p == 0x800 || p == 0x1000 || p == 0x2000 || p == 0x4000 || p == 0x8000
    requires 1 <= v <= p && (p == 2 || p / 2 < v)
    ensures IsPow2(p as int) && p as int >= 2 && p as int >= v as int && (p as int == 2 || (p as int) / 2 < v as int)
  {
    if p == 0x800 {
      assert p as int == 0x800 && 0x400 < v as int <= 0x800;
      assert IsPow2(0x800) by { PowerTable(); }
    } else if p == 0x1000 {
      assert p as int == 0x1000 && 0x800 < v as int <= 0x1000;
      assert IsPow2(0x1000) by { PowerTable(); }
    } else if p == 0x2000 {
      assert p as int == 0x2000 && 0x1000 < v as int <= 0x2000;
      assert IsPow2(0x2000) by { PowerTable(); }
    } else if p == 0x4000 {
      assert p as int == 0x4000 && 0x2000 < v as int <= 0x4000;
      assert IsPow2(0x4000) by { PowerTable(); }
    } else if p == 0x8000 {
      assert p as int == 0x8000 && 0x4000 < v as int <= 0x8000;
      assert IsPow2(0x8000) by { PowerTable(); }
    }
  }

  /** Bit-vector to integer facts for a rounded capacity in 2^16 .. 2^20. */
  lemma PowerBandsTo2To20(v: bv32, p: bv32)
    requires p == 0x1_0000 || p == 0x2_0000 || p == 0x4_0000 || p == 0x8_0000 || p == 0x10_0000
    requires 1 <= v <= p && (p == 2 || p / 2 < v)
    ensures IsPow2(p as int) && p as int >= 2 && p as int >= v as int && (p as int == 2 || (p as int) / 2 < v as int)
  {
    if p == 0x1_0000 {
      assert p as int == 0x1_0000 && 0x8000 < v as int <= 0x1_0000;
      assert IsPow2(0x1_0000) by { PowerTable(); }
    } else if p == 0x2_0000 {
      assert p as int == 0x2_0000 && 0x1_0000 < v as int <= 0x2_0000;
      assert IsPow2(0x2_0000) by { PowerTable(); }
    } else if p == 0x4_0000 {
      assert p as int == 0x4_0000 && 0x2_0000 < v as int <= 0x4_0000;
      assert IsPow2(0x4_0000) by { PowerTable(); }
    } else if p == 0x8_0000 {
      assert p as int == 0x8_0000 && 0x4_0000 < v as int <= 0x8_0000;
      assert IsPow2(0x8_0000) by { PowerTable(); }
    } else if p == 0x10_0000 {
      assert p as int == 0x10_0000 && 0x8_0000 < v as int <= 0x10_0000;
      assert IsPow2(0x10_0000) by { PowerTable(); }
    }
  }

  /** Bit-vector to integer facts for a rounded capacity in 2^21 .. 2^25. */
  lemma PowerBandsTo2To25(v: bv32, p: bv32)
    requires p == 0x20_0000 || p == 0x40_0000 || p == 0x80_0000 || p == 0x100_0000 || p == 0x200_0000
    requires 1 <= v <= p && (p == 2 || p / 2 < v)
    ensures IsPow2(p as int) && p as int >= 2 && p as int >= v as int && (p as int == 2 || (p as int) / 2 < v as int)
  {
    if p == 0x20_0000 {
      assert p as int == 0x20_0000 && 0x10_0000 < v as int <= 0x20_0000;
      assert IsPow2(0x20_0000) by { PowerTable(); }
    } else if p == 0x40_0000 {
      assert p as int == 0x40_0000 && 0x20_0000 < v as int <= 0x40_0000;
      assert IsPow2(0x40_0000) by { PowerTable(); }
    } else if p == 0x80_0000 {
      assert p as int == 0x80_0000 && 0x40_0000 < v as int <= 0x80_0000;
      assert IsPow2(0x80_0000) by { PowerTable(); }
    } else if p == 0x100_0000 {
      assert p as int == 0x100_0000 && 0x80_0000 < v as int <= 0x100_0000;
      assert IsPow2(0x100_0000) by { PowerTable(); }
    } else if p == 0x200_0000 {
      assert p as int == 0x200_0000 && 0x100_0000 < v as int <= 0x200_0000;
      assert IsPow2(0x200_0000) by { PowerTable(); }
    }
  }

  /** Bit-vector to integer facts for a rounded capacity in 2^26 .. 2^30. */
  lemma PowerBandsTo2To30(v: bv32, p: bv32)
    requires p == 0x400_0000 || p == 0x800_0000 || p == 0x1000_0000 || p == 0x2000_0000 || p == 0x4000_0000
    requires 1 <= v <= p && (p == 2 || p / 2 < v)
    ensures IsPow2(p as int) && p as int >= 2 && p as int >= v as int && (p as int == 2 || (p as int) / 2 < v as int)
  {
    if p == 0x400_0000 {
      assert p as int == 0x400_0000 && 0x200_0000 < v as int <= 0x400_0000;
      assert IsPow2(0x400_0000) by { PowerTable(); }
    } else if p == 0x800_0000 {
      assert p as int == 0x800_0000 && 0x400_0000 < v as int <= 0x800_0000;
      assert IsPow2(0x800_0000) by { PowerTable(); }
    } else if p == 0x1000_0000 {
      assert p as int == 0x1000_0000 && 0x800_0000 < v as int <= 0x1000_0000;
      assert IsPow2(0x1000_0000) by { PowerTable(); }
    } else if p == 0x2000_0000 {
      assert p as int == 0x2000_0000 && 0x1000_0000 < v as int <= 0x2000_0000;
      assert IsPow2(0x2000_0000) by { PowerTable(); }
    } else if p == 0x4000_0000 {
      assert p as int == 0x4000_0000 && 0x2000_0000 < v as int <= 0x4000_0000;
      assert IsPow2(0x4000_0000) by { PowerTable(); }
    }
  }

  /** A single-bit rounding result, read as an integer, satisfies the premises of NextPow2Unique. */
  lemma SingleBitInInts(v: bv32, p: bv32)
    requires p & (p - 1) == 0 && 2 <= p < 0x8000_0000
    requires 1 <= v <= p && (p == 2 || p / 2 < v)
    ensures IsPow2(p as int) && p as int >= 2 && p as int >= v as int && (p as int == 2 || (p as int) / 2 < v as int)
  {
    SingleBitValues(p);
    if p <= 0x20 {
      PowerBandsTo2To5(v, p);
    } else if p <= 0x400 {
      PowerBandsTo2To10(v, p);
    } else if p <= 0x8000 {
      PowerBandsTo2To15(v, p);
    } else if p <= 0x10_0000 {
      PowerBandsTo2To20(v, p);
    } else if p <= 0x200_0000 {
      PowerBandsTo2To25(v, p);
    } else {
      PowerBandsTo2To30(v, p);
    }
  }

  /** A single-bit rounding result, read as an integer, is NextPow2 of the request. */
  lemma SingleBitIsNextPow2(v: bv32, p: bv32)
    requires p & (p - 1) == 0 && 2 <= p < 0x8000_0000
    requires 1 <= v <= p && (p == 2 || p / 2 < v)
    ensures p as int == NextPow2(v as int)
  {
    SingleBitInInts(v, p);
    NextPow2Unique(v as int, p as int);
  }

  /** Up to 2^30 frames the code as written computes exactly NextPow2. */
  lemma NextPow2AsWrittenAgrees(v: bv32)
    requires 1 <= v <= 0x4000_0000
    ensures NextPow2AsWritten(v) as int == NextPow2(v as int)
  {
    SingleBitIsNextPow2(v, NextPow2AsWritten(v));
  }

  datatype RingBuffer = RingBuffer(
    channels: int,
    capacity: nat,
    slots: seq<Frame>,
    read: nat,
    write: nat)

  /** A ring that was never initialised: one channel, no storage. */
  function Unset(): (rb: RingBuffer)
    ensures Valid(rb) && Contents(rb) == []
  {
    RingBuffer(1, 0, [], 0, 0)
  }

  /** The occupancy invariant: `0 <= write - read <= capacity`. */
  predicate Valid(rb: RingBuffer)
  {
    && rb.channels >= 1
    && |rb.slots| == rb.capacity
    && (rb.capacity == 0 || IsPow2(rb.capacity))
    && rb.read <= rb.write <= rb.read + rb.capacity
  }

  /**
   The slot that holds the frame with absolute index `a`: the remainder of `a`
   by the capacity (see WrapIsMod), which for a power-of-two capacity is what
   masking with `capacity - 1` yields.
   */
  function Wrap(cap: nat, a: nat): (s: nat)
    requires cap > 0
    ensures s < cap
    decreases a
  {
    if a < cap then a else Wrap(cap, a - cap)
  }

  /** The slot `t` frames after slot `off`. */
  function Advance(cap: nat, off: nat, t: nat): nat
  {
    if off + t < cap then off + t else off + t - cap
  }

  /** How many frames forward slot `to` lies from slot `from`. */
  function Dist(cap: nat, from: nat, to: nat): nat
    requires from < cap && to < cap
  {
    if to >= from then to - from else to + cap - from
  }

  lemma MulMono(d: int, cap: int)
    requires cap > 0 && d >= 1
    ensures d * cap >= cap
  {
  }

  /** Euclidean division has a unique quotient and remainder. */
  lemma ModUnique(a: int, cap: int, q: int, r: int)
    requires cap > 0 && 0 <= r < cap && a == q * cap + r
    ensures a % cap == r
  {
    var q0, r0 := a / cap, a % cap;
    assert a == q0 * cap + r0;
    if q0 > q { MulMono(q0 - q, cap); }
    if q > q0 { MulMono(q - q0, cap); }
  }

  lemma {:induction false} WrapIsMod(cap: nat, a: nat)
    requires cap > 0
    ensures Wrap(cap, a) == a % cap
    decreases a
  {
    if a < cap {
      ModUnique(a, cap, 0, a);
    } else {
      WrapIsMod(cap, a - cap);
      var q := (a - cap) / cap;
      assert a - cap == q * cap + (a - cap) % cap;
      ModUnique(a, cap, q + 1, (a - cap) % cap);
    }
  }

  /** Advancing a cursor by less than a capacity advances its slot likewise. */
  lemma {:induction false} WrapAdd(cap: nat, c: nat, t: nat)
    requires cap > 0 && t < cap
    ensures Wrap(cap, c + t) == Advance(cap, Wrap(cap, c), t)
    decreases c
  {
    if c >= cap {
      WrapAdd(cap, c - cap, t);
    } else if c + t >= cap {
      assert Wrap(cap, c + t) == Wrap(cap, c + t - cap);
    }
  }

  /** Cursors less than one capacity apart lie that many slots apart. */
  lemma WrapDist(cap: nat, a: nat, b: nat)
    requires cap > 0 && a <= b < a + cap
    ensures Dist(cap, Wrap(cap, a), Wrap(cap, b)) == b - a
  {
    WrapAdd(cap, a, b - a);
  }

  /** The queued frames, oldest first. */
  function Contents(rb: RingBuffer): (q: seq<Frame>)
    requires Valid(rb)
    ensures |q| == rb.write - rb.read
  {
    seq(rb.write - rb.read, k requires 0 <= k < rb.write - rb.read => rb.slots[Wrap(rb.capacity, rb.read + k)])
  }

  function AvailableToRead(rb: RingBuffer): int
  {
    rb.write - rb.read
  }

  function AvailableToWrite(rb: RingBuffer): int
  {
    rb.capacity - AvailableToRead(rb)
  }

  /** Both snapshots lie in [0, capacity] and always add up to the capacity. */
  lemma Occupancy(rb: RingBuffer)
    requires Valid(rb)
    ensures 0 <= AvailableToRead(rb) <= rb.capacity
    ensures 0 <= AvailableToWrite(rb) <= rb.capacity
    ensures AvailableToRead(rb) + AvailableToWrite(rb) == rb.capacity
    ensures AvailableToRead(rb) == |Contents(rb)|
  {
  }

  function ZeroFrame(channels: int): (f: Frame)
    ensures |f| == Max(channels, 0)
    ensures forall c :: 0 <= c < |f| ==> f[c] == 0.0
  {
    seq(Max(channels, 0), _ => 0.0)
  }

  datatype InitResult = InitResult(ok: bool, ring: RingBuffer)

  /**
   Initialisation: refuses non-positive sizes and leaves the ring as it was;
   otherwise rounds the capacity up to a power of two and empties the ring.
   */
  function Init(rb: RingBuffer, capacityFrames: int, channels: int): (r: InitResult)
    ensures r.ok <==> capacityFrames > 0 && channels > 0
    ensures !r.ok ==> r.ring == rb
    ensures r.ok ==>
      && Valid(r.ring)
      && r.ring.channels == channels
      && r.ring.capacity == NextPow2(capacityFrames)
      && r.ring.read == 0 && r.ring.write == 0
      && Contents(r.ring) == []
      && AvailableToRead(r.ring) == 0
      && AvailableToWrite(r.ring) == r.ring.capacity >= capacityFrames
  {
    if capacityFrames <= 0 || channels <= 0 then InitResult(false, rb)
    else
      var cap := NextPow2(capacityFrames);
      InitResult(true, RingBuffer(channels, cap, seq(cap, _ => ZeroFrame(channels)), 0, 0))
  }

  /** `dst` with the frames of `src` stored from slot `at` on. */
  function CopySpan(dst: seq<Frame>, at: nat, src: seq<Frame>): (r: seq<Frame>)
    requires at + |src| <= |dst|
    ensures |r| == |dst|
    ensures forall i :: 0 <= i < |dst| ==> r[i] == if at <= i < at + |src| then src[i - at] else dst[i]
  {
    dst[..at] + src + dst[at + |src|..]
  }

  /**
   Store `src` into the slots from `off` on in at most two spans: up to the end
   of storage, then from slot 0.  Frame `t` lands `t` slots after `off`; every
   slot further than `|src|` slots ahead of `off` keeps its frame.
   */
  function StoreSpans(slots: seq<Frame>, off: nat, src: seq<Frame>): (r: seq<Frame>)
    requires off < |slots| && |src| <= |slots|
    ensures |r| == |slots|
    ensures forall t :: 0 <= t < |src| ==> r[Advance(|slots|, off, t)] == src[t]
    ensures forall s :: 0 <= s < |slots| && Dist(|slots|, off, s) >= |src| ==> r[s] == slots[s]
  {
    var cap, n := |slots|, |src|;
    if n <= cap - off then
      CopySpan(slots, off, src)
    else
      var slots1 := CopySpan(slots, off, src[..cap - off]);
      var r := CopySpan(slots1, 0, src[cap - off..]);
      WrappedStore(slots, off, src, slots1, r);
      r
  }

  /** The two-span case of StoreSpans: up to the end of storage, then from slot 0. */
  lemma WrappedStore(slots: seq<Frame>, off: nat, src: seq<Frame>, slots1: seq<Frame>, r: seq<Frame>)
    requires off < |slots| && |slots| - off < |src| <= |slots|
    requires slots1 == CopySpan(slots, off, src[..|slots| - off])
    requires r == CopySpan(slots1, 0, src[|slots| - off..])
    ensures forall t :: 0 <= t < |src| ==> r[Advance(|slots|, off, t)] == src[t]
    ensures forall s :: 0 <= s < |slots| && Dist(|slots|, off, s) >= |src| ==> r[s] == slots[s]
  {
    var cap, first := |slots|, |slots| - off;
    forall t | 0 <= t < |src|
      ensures r[Advance(cap, off, t)] == src[t]
    {
      if t < first {
        assert r[off + t] == slots1[off + t] == src[..first][t];
      } else {
        assert r[t - first] == src[first..][t - first];
      }
    }
    forall s | 0 <= s < cap && Dist(cap, off, s) >= |src|
      ensures r[s] == slots[s]
    {
      assert r[s] == slots1[s] == slots[s];
    }
  }

  /** Load `n` frames from the slots from `off` on, in at most two spans. */
  function LoadSpans(slots: seq<Frame>, off: nat, n: nat): (r: seq<Frame>)
    requires off < |slots| && n <= |slots|
    ensures |r| == n
    ensures forall t :: 0 <= t < n ==> r[t] == slots[Advance(|slots|, off, t)]
  {
    var first := Min(n, |slots| - off);
    slots[off..off + first] + (if n - first > 0 then slots[..n - first] else [])
  }

  datatype Written = Written(ring: RingBuffer, count: int)

  /**
   Write up to `frames` frames from `src`: clamps to the free space, stores in
   at most two spans, and advances only the write cursor.
   */
  function Write(rb: RingBuffer, src: seq<Frame>, frames: int): (r: Written)
    requires Valid(rb)
    requires frames <= |src|
    ensures r.ring.channels == rb.channels && r.ring.capacity == rb.capacity
    ensures r.ring.read == rb.read && r.ring.write == rb.write + r.count
    ensures && r.count == Max(0, Min(frames, AvailableToWrite(rb)))
            && Valid(r.ring)
            && Contents(r.ring) == Contents(rb) + src[..r.count]
  {
    var n := Max(0, Min(frames, AvailableToWrite(rb)));
    if n == 0 then Written(rb, 0)
    else
      var slots' := StoreSpans(rb.slots, Wrap(rb.capacity, rb.write), src[..n]);
      var rb' := rb.(slots := slots', write := rb.write + n);
      WriteContents(rb, src[..n], rb');
      Written(rb', n)
  }

  lemma WriteContents(rb: RingBuffer, src: seq<Frame>, rb': RingBuffer)
    requires Valid(rb) && 0 < |src| <= AvailableToWrite(rb)
    requires rb' == rb.(slots := rb'.slots, write := rb.write + |src|) && |rb'.slots| == rb.capacity
    requires forall t :: 0 <= t < |src| ==>
               rb'.slots[Advance(rb.capacity, Wrap(rb.capacity, rb.write), t)] == src[t]
    requires forall s :: 0 <= s < rb.capacity && Dist(rb.capacity, Wrap(rb.capacity, rb.write), s) >= |src| ==>
               rb'.slots[s] == rb.slots[s]
    ensures Valid(rb')
    ensures Contents(rb') == Contents(rb) + src
  {
    forall k | 0 <= k < |Contents(rb')|
      ensures Contents(rb')[k] == (Contents(rb) + src)[k]
    {
      WrittenFrame(rb, src, rb', k);
    }
  }

  /** Frame `k` of the queue after a write: an old frame kept in place, or a new one. */
  lemma WrittenFrame(rb: RingBuffer, src: seq<Frame>, rb': RingBuffer, k: nat)
    requires Valid(rb) && 0 < |src| <= AvailableToWrite(rb)
    requires rb' == rb.(slots := rb'.slots, write := rb.write + |src|) && |rb'.slots| == rb.capacity
    requires forall t :: 0 <= t < |src| ==>
               rb'.slots[Advance(rb.capacity, Wrap(rb.capacity, rb.write), t)] == src[t]
    requires forall s :: 0 <= s < rb.capacity && Dist(rb.capacity, Wrap(rb.capacity, rb.write), s) >= |src| ==>
               rb'.slots[s] == rb.slots[s]
    requires k < rb.write + |src| - rb.read
    ensures Valid(rb')
    ensures Contents(rb')[k] == (Contents(rb) + src)[k]
  {
    var cap, count := rb.capacity, rb.write - rb.read;
    assert Contents(rb')[k] == rb'.slots[Wrap(cap, rb.read + k)];
    if k < count {
      assert (Contents(rb) + src)[k] == rb.slots[Wrap(cap, rb.read + k)];
      KeptSlot(cap, rb.slots, rb'.slots, rb.write, rb.read + k, |src|);
    } else {
      assert (Contents(rb) + src)[k] == src[k - count];
      assert rb.read + k == rb.write + (k - count);
      NewSlot(cap, rb'.slots, rb.write, src, k - count);
    }
  }

  /** A frame older than the write cursor keeps its slot while fewer than the free slots are written. */
  lemma KeptSlot(cap: nat, slots: seq<Frame>, slots': seq<Frame>, w: nat, a: nat, n: nat)
    requires cap > 0 && |slots| == cap && |slots'| == cap
    requires a < w && 0 < n && w - a + n <= cap
    requires forall s :: 0 <= s < cap && Dist(cap, Wrap(cap, w), s) >= n ==> slots'[s] == slots[s]
    ensures slots'[Wrap(cap, a)] == slots[Wrap(cap, a)]
  {
    WrapDist(cap, a, w);
    assert Dist(cap, Wrap(cap, w), Wrap(cap, a)) == cap - (w - a);
  }

  /** Frame `t` of a write lands in the slot of cursor `w + t`. */
  lemma NewSlot(cap: nat, slots': seq<Frame>, w: nat, src: seq<Frame>, t: nat)
    requires cap > 0 && |slots'| == cap && t < |src| <= cap
    requires forall t :: 0 <= t < |src| ==> slots'[Advance(cap, Wrap(cap, w), t)] == src[t]
    ensures slots'[Wrap(cap, w + t)] == src[t]
  {
    WrapAdd(cap, w, t);
  }

  datatype ReadOut = ReadOut(ring: RingBuffer, count: int, frames: seq<Frame>)

  /**
   Read up to `frames` frames: clamps to the queued data, copies out in at most
   two spans, and advances only the read cursor.
   */
  function Read(rb: RingBuffer, frames: int): (r: ReadOut)
    requires Valid(rb)
    ensures r.ring.channels == rb.channels && r.ring.capacity == rb.capacity
    ensures r.ring.write == rb.write && r.ring.read == rb.read + r.count
    ensures && r.count == Max(0, Min(frames, AvailableToRead(rb)))
            && Valid(r.ring)
            && r.frames == Contents(rb)[..r.count]
            && Contents(r.ring) == Contents(rb)[r.count..]
  {
    var n := Max(0, Min(frames, AvailableToRead(rb)));
    if n == 0 then ReadOut(rb, 0, [])
    else
      var out := LoadSpans(rb.slots, Wrap(rb.capacity, rb.read), n);
      ReadContents(rb, n, out);
      ReadOut(rb.(read := rb.read + n), n, out)
  }

  lemma ReadContents(rb: RingBuffer, n: nat, out: seq<Frame>)
    requires Valid(rb) && 0 < n <= AvailableToRead(rb)
    requires out == LoadSpans(rb.slots, Wrap(rb.capacity, rb.read), n)
    ensures out == Contents(rb)[..n]
  {
    forall t | 0 <= t < n
      ensures out[t] == Contents(rb)[t]
    {
      WrapAdd(rb.capacity, rb.read, t);
    }
  }
}

/** Sequences of single-producer writes and single-consumer reads on one ring. */
module RingTrace {
  import opened Numbers
  import opened Ring

  datatype Op = WriteOp(src: seq<Frame>, frames: int) | ReadOp(frames: int)

  /** Every write names no more frames than its source buffer holds. */
  predicate WellFormed(ops: seq<Op>)
    decreases |ops|
  {
    ops == [] || ((ops[0].WriteOp? ==> ops[0].frames <= |ops[0].src|) && WellFormed(ops[1..]))
  }

  /** The ring after `ops`, the frames the writes accepted and the frames the reads delivered. */
  datatype Outcome = Outcome(ring: RingBuffer, accepted: seq<Frame>, delivered: seq<Frame>)

  function Run(rb: RingBuffer, ops: seq<Op>): Outcome
    requires Valid(rb) && WellFormed(ops)
    decreases |ops|
  {
    if ops == [] then Outcome(rb, [], [])
    else
      match ops[0]
      case WriteOp(src, frames) =>
        var w := Write(rb, src, frames);
        var rest := Run(w.ring, ops[1..]);
        Outcome(rest.ring, src[..w.count] + rest.accepted, rest.delivered)
      case ReadOp(frames) =>
        var r := Read(rb, frames);
        var rest := Run(r.ring, ops[1..]);
        Outcome(rest.ring, rest.accepted, r.frames + rest.delivered)
  }

  lemma QueueAfterWrite<T>(q0: seq<T>, x: seq<T>, q1: seq<T>, acc: seq<T>, del: seq<T>, q2: seq<T>)
    requires q0 + x == q1 && q1 + acc == del + q2
    ensures q0 + (x + acc) == del + q2
  {
    assert q0 + (x + acc) == (q0 + x) + acc;
  }

  lemma QueueAfterRead<T>(q0: seq<T>, k: nat, y: seq<T>, q1: seq<T>, acc: seq<T>, del: seq<T>, q2: seq<T>)
    requires k <= |q0| && y == q0[..k] && q1 == q0[k..] && q1 + acc == del + q2
    ensures q0 + acc == (y + del) + q2
  {
    assert q0 == y + q1;
    assert (y + q1) + acc == y + (q1 + acc);
  }

  /** The FIFO equation of a trace, with the ring's invariant and capacity kept. */
  predicate FifoHolds(rb: RingBuffer, ops: seq<Op>)
    requires Valid(rb) && WellFormed(ops)
  {
    var out := Run(rb, ops);
    && Valid(out.ring)
    && out.ring.capacity == rb.capacity
    && Contents(rb) + out.accepted == out.delivered + Contents(out.ring)
  }

  /**
   FIFO order across any trace: what was queued plus everything the writes
   accepted equals everything the reads delivered, in order, followed by what
   is still queued; the occupancy invariant holds at the end.
   */
  lemma {:induction false} RunIsFifo(rb: RingBuffer, ops: seq<Op>)
    requires Valid(rb) && WellFormed(ops)
    ensures Valid(Run(rb, ops).ring)
    ensures Run(rb, ops).ring.capacity == rb.capacity
    ensures Contents(rb) + Run(rb, ops).accepted == Run(rb, ops).delivered + Contents(Run(rb, ops).ring)
    decreases |ops|
  {
    if ops == [] {
      assert Run(rb, ops) == Outcome(rb, [], []);
    } else {
      match ops[0]
      case WriteOp(src, frames) =>
        var w := Write(rb, src, frames);
        RunIsFifo(w.ring, ops[1..]);
        WriteStep(rb, ops, w);
      case ReadOp(frames) =>
        var r := Read(rb, frames);
        RunIsFifo(r.ring, ops[1..]);
        ReadStep(rb, ops, r);
    }
    assert FifoHolds(rb, ops);
  }

  lemma WriteStep(rb: RingBuffer, ops: seq<Op>, w: Written)
    requires Valid(rb) && WellFormed(ops) && ops != [] && ops[0].WriteOp?
    requires w == Write(rb, ops[0].src, ops[0].frames)
    requires FifoHolds(w.ring, ops[1..])
    ensures FifoHolds(rb, ops)
  {
    var rest := Run(w.ring, ops[1..]);
    assert Run(rb, ops) == Outcome(rest.ring, ops[0].src[..w.count] + rest.accepted, rest.delivered);
    QueueAfterWrite(Contents(rb), ops[0].src[..w.count], Contents(w.ring), rest.accepted, rest.delivered, Contents(rest.ring));
  }

  lemma ReadStep(rb: RingBuffer, ops: seq<Op>, r: ReadOut)
    requires Valid(rb) && WellFormed(ops) && ops != [] && ops[0].ReadOp?
    requires r == Read(rb, ops[0].frames)
    requires FifoHolds(r.ring, ops[1..])
    ensures FifoHolds(rb, ops)
  {
    var rest := Run(r.ring, ops[1..]);
    assert Run(rb, ops) == Outcome(rest.ring, rest.accepted, r.frames + rest.delivered);
    QueueAfterRead(Contents(rb), r.count, r.frames, Contents(r.ring), rest.accepted, rest.delivered, Contents(rest.ring));
  }
}
