/**
 * The receive pipeline as functions on values: the byte fifo, the flat
 * fifo of sample values and the previous payload. The class Unicorn in
 * module Session is proved to follow these functions step by step.
 */
module Sync {
  import opened Protocol
  import opened Payload

  /** The state ReadData works on: `_byteFifo`, `_floatFifo`, `_prevPayload`. */
  datatype Pipeline = Pipeline(bytes: seq<Byte>, samples: seq<int>, prev: seq<int>)

  /** A flat sample queue that holds whole samples only, each with a
      validation indicator of 0 (interpolated) or 1 (received). */
  ghost predicate Aligned(s: seq<int>)
  {
    |s| % NumberOfAcquiredChannels == 0 &&
    forall j :: 0 <= j < |s| && j % NumberOfAcquiredChannels == ValidityIndex ==> s[j] == 0 || s[j] == 1
  }

  ghost predicate WellFormed(p: Pipeline)
  {
    |p.prev| == NumberOfAcquiredChannels && Aligned(p.samples)
  }

  /** `a` is what is left of `b` after removing some bytes from its front. */
  ghost predicate IsSuffix<T>(a: seq<T>, b: seq<T>)
  {
    |a| <= |b| && a == b[|b| - |a|..]
  }

  /** Shifting a position by whole samples keeps its channel. */
  lemma ShiftByWholeSamples(x: nat, n: nat)
    requires n % NumberOfAcquiredChannels == 0
    ensures (x + n) % NumberOfAcquiredChannels == x % NumberOfAcquiredChannels
  {
    var m := n / NumberOfAcquiredChannels;
    assert n == NumberOfAcquiredChannels * m;
  }

  lemma AlignedAppend(a: seq<int>, b: seq<int>)
    requires Aligned(a) && Aligned(b)
    ensures Aligned(a + b)
  {
    forall j | |a| <= j < |a| + |b| && j % NumberOfAcquiredChannels == ValidityIndex
      ensures (a + b)[j] == 0 || (a + b)[j] == 1
    {
      ShiftByWholeSamples(j - |a|, |a|);
      assert (a + b)[j] == b[j - |a|];
    }
  }

  lemma AlignedDropSample(s: seq<int>)
    requires Aligned(s) && |s| >= NumberOfAcquiredChannels
    ensures Aligned(s[NumberOfAcquiredChannels..])
  {
    var t := s[NumberOfAcquiredChannels..];
    forall j | 0 <= j < |t| && j % NumberOfAcquiredChannels == ValidityIndex
      ensures t[j] == 0 || t[j] == 1
    {
      ShiftByWholeSamples(j, NumberOfAcquiredChannels);
    }
  }

  // ---- Header scan (the `for` loop over the shrinking fifo) ----

  datatype ScanResult = ScanResult(found: bool, dropped: nat)

  /** The scan after `i` bytes were dropped: it goes on while `i` is below
      the current fifo size `|s| - i`. */
  function ScanFrom(s: seq<Byte>, i: nat): (r: ScanResult)
    ensures i <= r.dropped
    ensures i <= |s| ==> r.dropped <= |s|
    decreases |s| - i
  {
    if i >= |s| - i then ScanResult(false, i)
    else if s[i] == HeaderStartSequence[0] then ScanResult(true, i)
    else ScanFrom(s, i + 1)
  }

  /** One scan searches only the first half of the fifo (rounded up): it
      stops at the first header byte there, or drops that whole half. */
  function Scan(s: seq<Byte>): (r: ScanResult)
    ensures r.dropped <= (|s| + 1) / 2 && r.dropped <= |s|
    ensures forall j :: 0 <= j < r.dropped ==> s[j] != 0xC0
    ensures r.found <==> r.dropped < (|s| + 1) / 2
    ensures r.found ==> s[r.dropped] == 0xC0
  {
    ScanFromSearches(s, 0);
    ScanFrom(s, 0)
  }

  lemma {:induction false} ScanFromSearches(s: seq<Byte>, i: nat)
    requires i <= (|s| + 1) / 2
    ensures var r := ScanFrom(s, i);
      i <= r.dropped <= (|s| + 1) / 2 &&
      (forall j :: i <= j < r.dropped ==> s[j] != 0xC0) &&
      (r.found <==> r.dropped < (|s| + 1) / 2) &&
      (r.found ==> s[r.dropped] == 0xC0)
    decreases |s| - i
  {
    if i >= |s| - i {
    } else if s[i] == HeaderStartSequence[0] {
    } else {
      ScanFromSearches(s, i + 1);
    }
  }

  // ---- Gap interpolation ----

  /** Java's `(int)` cast of an integral value: it saturates at the int range. */
  function JavaIntCast(x: int): (r: int)
    ensures -0x8000_0000 <= r < 0x8000_0000
    ensures -0x8000_0000 <= x < 0x8000_0000 ==> r == x
    ensures r > 0 <==> x > 0
    ensures r < 0 <==> x < 0
    ensures x >= 0x8000_0000 ==> r == 0x7FFF_FFFF
    ensures x < -0x8000_0000 ==> r == -0x8000_0000
  {
    if x > 0x7FFF_FFFF then 0x7FFF_FFFF else if x < -0x8000_0000 then -0x8000_0000 else x
  }

  /** Samples lost between the previous payload and `payload`. */
  function SamplesLost(prev: seq<int>, payload: seq<int>): (r: int)
    requires |prev| == NumberOfAcquiredChannels && |payload| == NumberOfAcquiredChannels
    ensures -0x8000_0000 <= r < 0x8000_0000
    ensures r > 0 <==> payload[CounterIndex] > prev[CounterIndex] + 1
    ensures payload[CounterIndex] - prev[CounterIndex] < 0x8000_0001 ==>
      r == if payload[CounterIndex] - prev[CounterIndex] - 1 < -0x8000_0000 then -0x8000_0000
           else payload[CounterIndex] - prev[CounterIndex] - 1
  {
    JavaIntCast(payload[CounterIndex] - prev[CounterIndex] - 1)
  }

  /** The `k`-th filler sample: the previous payload with counter advanced by `k`
      and marked interpolated. */
  function Filler(prev: seq<int>, k: int): (r: seq<int>)
    requires |prev| == NumberOfAcquiredChannels
    ensures |r| == NumberOfAcquiredChannels
    ensures r[CounterIndex] == prev[CounterIndex] + k && r[ValidityIndex] == 0
    ensures forall c :: 0 <= c < CounterIndex ==> r[c] == prev[c]
  {
    prev[CounterIndex := prev[CounterIndex] + k][ValidityIndex := 0]
  }

  /** The first `n` filler samples, in increasing counter order. */
  function Fillers(prev: seq<int>, n: nat): (r: seq<int>)
    requires |prev| == NumberOfAcquiredChannels
    ensures |r| == NumberOfAcquiredChannels * n
  {
    if n == 0 then [] else Fillers(prev, n - 1) + Filler(prev, n)
  }

  /** Value `c` of filler block `k`. */
  lemma {:induction false} FillersAt(prev: seq<int>, n: nat, k: nat, c: nat)
    requires |prev| == NumberOfAcquiredChannels && k < n && c < NumberOfAcquiredChannels
    ensures Fillers(prev, n)[NumberOfAcquiredChannels * k + c] == Filler(prev, k + 1)[c]
  {
    var a := Fillers(prev, n - 1);
    assert Fillers(prev, n) == a + Filler(prev, n);
    if k < n - 1 {
      FillersAt(prev, n - 1, k, c);
    } else {
      assert NumberOfAcquiredChannels * k + c - |a| == c;
    }
  }

  /** Block `k` of the fillers is a copy of the previous payload, counter
      `prev + k + 1`, validation indicator 0. */
  lemma FillersBlock(prev: seq<int>, n: nat, k: nat)
    requires |prev| == NumberOfAcquiredChannels && k < n
    ensures Fillers(prev, n)[NumberOfAcquiredChannels * k..NumberOfAcquiredChannels * (k + 1)] ==
            prev[CounterIndex := prev[CounterIndex] + k + 1][ValidityIndex := 0]
  {
    var f := Fillers(prev, n);
    var block := f[NumberOfAcquiredChannels * k..NumberOfAcquiredChannels * (k + 1)];
    forall c | 0 <= c < NumberOfAcquiredChannels
      ensures block[c] == Filler(prev, k + 1)[c]
    {
      FillersAt(prev, n, k, c);
    }
  }

  lemma {:induction false} FillersAligned(prev: seq<int>, n: nat)
    requires |prev| == NumberOfAcquiredChannels
    ensures Aligned(Fillers(prev, n))
  {
    if n > 0 {
      FillersAligned(prev, n - 1);
      var b := Filler(prev, n);
      assert Aligned(b) by {
        forall j | 0 <= j < |b| && j % NumberOfAcquiredChannels == ValidityIndex
          ensures b[j] == 0
        {
          assert j == ValidityIndex;
        }
      }
      AlignedAppend(Fillers(prev, n - 1), b);
    }
  }

  /** What one accepted payload pushes: the fillers for the lost samples,
      then the payload itself marked as received. */
  function Emitted(prev: seq<int>, payload: seq<int>): (r: seq<int>)
    requires |prev| == NumberOfAcquiredChannels && |payload| == NumberOfAcquiredChannels
    ensures var lost := SamplesLost(prev, payload);
      |r| == NumberOfAcquiredChannels * (if lost > 0 then lost + 1 else 1) &&
      r[|r| - NumberOfAcquiredChannels..] == payload[ValidityIndex := 1] &&
      (lost <= 0 ==> r == payload[ValidityIndex := 1])
  {
    var lost := SamplesLost(prev, payload);
    (if lost > 0 then Fillers(prev, lost) else []) + payload[ValidityIndex := 1]
  }

  lemma EmittedAligned(prev: seq<int>, payload: seq<int>)
    requires |prev| == NumberOfAcquiredChannels && |payload| == NumberOfAcquiredChannels
    ensures Aligned(Emitted(prev, payload))
  {
    var lost := SamplesLost(prev, payload);
    var last := payload[ValidityIndex := 1];
    assert Aligned(last) by {
      forall j | 0 <= j < |last| && j % NumberOfAcquiredChannels == ValidityIndex
        ensures last[j] == 1
      {
        assert j == ValidityIndex;
      }
    }
    if lost > 0 {
      FillersAligned(prev, lost);
      AlignedAppend(Fillers(prev, lost), last);
    } else {
      assert Emitted(prev, payload) == last;
    }
  }

  /** A frame that passed the check: its sample and fillers are queued and
      it becomes the previous payload. */
  function Accept(p: Pipeline, frame: seq<Byte>): (r: Pipeline)
    requires |p.prev| == NumberOfAcquiredChannels && |frame| == TotalPayloadLength
    ensures r.bytes == p.bytes && |r.prev| == NumberOfAcquiredChannels
    ensures r.samples == p.samples + Emitted(p.prev, Decode(frame))
    ensures r.prev == Decode(frame)[ValidityIndex := 1]
    ensures WellFormed(p) ==> WellFormed(r)
  {
    var payload := Decode(frame);
    EmittedAligned(p.prev, payload);
    var r := Pipeline(p.bytes, p.samples + Emitted(p.prev, payload), payload[ValidityIndex := 1]);
    assert WellFormed(p) ==> WellFormed(r) by {
      if WellFormed(p) { AlignedAppend(p.samples, Emitted(p.prev, payload)); }
    }
    r
  }

  // ---- One pass of the do-while loop and the whole drain ----

  /** One pass: scan for a header byte, then, when more than one frame
      length remains, pop 45 bytes and accept them if they are a valid frame. */
  function Pass(p: Pipeline): (r: Pipeline)
    requires |p.prev| == NumberOfAcquiredChannels
    ensures |r.prev| == NumberOfAcquiredChannels
    ensures IsSuffix(r.bytes, p.bytes)
    ensures |p.bytes| > TotalPayloadLength ==> |r.bytes| < |p.bytes|
    ensures |r.samples| >= |p.samples| && r.samples[..|p.samples|] == p.samples
    ensures WellFormed(p) ==> WellFormed(r)
  {
    var sc := Scan(p.bytes);
    var rest := p.bytes[sc.dropped..];
    if sc.found && |rest| > TotalPayloadLength then
      var candidate := rest[..TotalPayloadLength];
      var q := Pipeline(rest[TotalPayloadLength..], p.samples, p.prev);
      assert p.bytes[|p.bytes| - |q.bytes|..] == q.bytes;
      if IsValidFrame(candidate) then Accept(q, candidate) else q
    else
      assert p.bytes[|p.bytes| - |rest|..] == rest;
      Pipeline(rest, p.samples, p.prev)
  }

  /** Repeat passes while the fifo holds more than one frame length. */
  function Drain(p: Pipeline): (r: Pipeline)
    requires |p.prev| == NumberOfAcquiredChannels
    ensures |r.prev| == NumberOfAcquiredChannels
    ensures |r.bytes| <= TotalPayloadLength || r == p
    ensures |p.bytes| > TotalPayloadLength ==> |r.bytes| <= TotalPayloadLength
    ensures |p.bytes| <= TotalPayloadLength ==> r == p
    ensures IsSuffix(r.bytes, p.bytes)
    ensures |r.samples| >= |p.samples| && r.samples[..|p.samples|] == p.samples
    ensures WellFormed(p) ==> WellFormed(r)
    decreases |p.bytes|
  {
    if |p.bytes| > TotalPayloadLength then
      var q := Pass(p);
      var r := Drain(q);
      assert IsSuffix(r.bytes, p.bytes) by {
        assert q.bytes == p.bytes[|p.bytes| - |q.bytes|..];
        assert r.bytes == q.bytes[|q.bytes| - |r.bytes|..];
      }
      assert r.samples[..|p.samples|] == p.samples by {
        assert r.samples[..|q.samples|] == q.samples;
        assert r.samples[..|p.samples|] == r.samples[..|q.samples|][..|p.samples|];
      }
      r
    else
      p
  }

  /** ReadData: append what the stream delivered, then drain. */
  function Receive(p: Pipeline, incoming: seq<Byte>): (r: Pipeline)
    requires |p.prev| == NumberOfAcquiredChannels
    ensures |r.prev| == NumberOfAcquiredChannels
    ensures IsSuffix(r.bytes, p.bytes + incoming)
    ensures |p.bytes + incoming| > TotalPayloadLength ==> |r.bytes| <= TotalPayloadLength
    ensures |p.bytes + incoming| <= TotalPayloadLength ==> r == Pipeline(p.bytes + incoming, p.samples, p.prev)
    ensures |r.samples| >= |p.samples| && r.samples[..|p.samples|] == p.samples
    ensures WellFormed(p) ==> WellFormed(r)
  {
    Drain(Pipeline(p.bytes + incoming, p.samples, p.prev))
  }

  /** GetData's wait loop: one ReadData per element of `chunks` until a
      whole sample is queued or the chunks (the time budget) run out. */
  function Pump(p: Pipeline, chunks: seq<seq<Byte>>): (r: Pipeline)
    requires |p.prev| == NumberOfAcquiredChannels
    ensures |r.prev| == NumberOfAcquiredChannels
    ensures |r.samples| >= |p.samples| && r.samples[..|p.samples|] == p.samples
    ensures |p.samples| >= NumberOfAcquiredChannels ==> r == p
    ensures WellFormed(p) ==> WellFormed(r)
    decreases |chunks|
  {
    if |p.samples| >= NumberOfAcquiredChannels || |chunks| == 0 then p
    else
      var q := Receive(p, chunks[0]);
      var r := Pump(q, chunks[1..]);
      assert r.samples[..|p.samples|] == p.samples by {
        assert r.samples[..|p.samples|] == r.samples[..|q.samples|][..|p.samples|];
      }
      r
  }

  // ---- One step of each loop, for the driver's methods ----

  /** The cases of one pass, with the names the driver's code uses. */
  lemma PassCases(p: Pipeline)
    requires |p.prev| == NumberOfAcquiredChannels
    ensures var sc := Scan(p.bytes);
      var rest := p.bytes[sc.dropped..];
      if sc.found && |rest| > TotalPayloadLength then
        var q := Pipeline(rest[TotalPayloadLength..], p.samples, p.prev);
        Pass(p) == if IsValidFrame(rest[..TotalPayloadLength]) then Accept(q, rest[..TotalPayloadLength]) else q
      else
        Pass(p) == Pipeline(rest, p.samples, p.prev)
  {
  }

  /** While more than one frame length is queued, draining is one pass
      followed by draining. */
  lemma DrainStep(p: Pipeline)
    requires |p.prev| == NumberOfAcquiredChannels && |p.bytes| > TotalPayloadLength
    ensures Drain(p) == Drain(Pass(p))
  {
  }

  /** While no whole sample is queued and chunks remain, the wait loop reads
      the first chunk and continues with the rest. */
  lemma PumpStep(p: Pipeline, chunks: seq<seq<Byte>>)
    requires |p.prev| == NumberOfAcquiredChannels
    requires |p.samples| < NumberOfAcquiredChannels && |chunks| > 0
    ensures Pump(p, chunks) == Pump(Receive(p, chunks[0]), chunks[1..])
  {
  }

  // ---- Properties of the synchronizer ----

  /** `d` is where one pass finds its header byte: no header byte before it,
      within the first half of the fifo. */
  ghost predicate HeaderAt(bytes: seq<Byte>, d: nat)
  {
    d < (|bytes| + 1) / 2 && bytes[d] == 0xC0 &&
    forall j :: 0 <= j < d ==> bytes[j] != 0xC0
  }

  /** A pass that finds its header byte at `d` with more than 45 bytes from
      there pops exactly those 45 bytes: a valid frame is accepted, any other
      candidate is dropped whole and leaves samples and previous payload alone. */
  lemma PassAtHeader(p: Pipeline, d: nat)
    requires |p.prev| == NumberOfAcquiredChannels
    requires HeaderAt(p.bytes, d) && d + TotalPayloadLength < |p.bytes|
    ensures var candidate := p.bytes[d..d + TotalPayloadLength];
      var q := Pipeline(p.bytes[d + TotalPayloadLength..], p.samples, p.prev);
      Pass(p) == if IsValidFrame(candidate) then Accept(q, candidate) else q
  {
    var sc := Scan(p.bytes);
    assert sc.dropped == d && sc.found;
    var rest := p.bytes[d..];
    assert rest[..TotalPayloadLength] == p.bytes[d..d + TotalPayloadLength];
    assert rest[TotalPayloadLength..] == p.bytes[d + TotalPayloadLength..];
  }

  /** A pass that does not pop a candidate leaves the samples and the
      previous payload alone; samples change only through a valid frame. */
  lemma PassEmitsOnlyValidFrames(p: Pipeline)
    requires |p.prev| == NumberOfAcquiredChannels
    ensures (Pass(p).samples == p.samples && Pass(p).prev == p.prev) ||
      exists d: nat :: HeaderAt(p.bytes, d) && d + TotalPayloadLength < |p.bytes| &&
        IsValidFrame(p.bytes[d..d + TotalPayloadLength]) &&
        Pass(p) == Accept(Pipeline(p.bytes[d + TotalPayloadLength..], p.samples, p.prev), p.bytes[d..d + TotalPayloadLength])
  {
    var sc := Scan(p.bytes);
    if sc.found && |p.bytes[sc.dropped..]| > TotalPayloadLength {
      PassAtHeader(p, sc.dropped);
      var d := sc.dropped;
      if IsValidFrame(p.bytes[d..d + TotalPayloadLength]) {
        assert HeaderAt(p.bytes, d) && d + TotalPayloadLength < |p.bytes|;
      }
    }
  }

  /** A frame that starts in the first half of the fifo is accepted by
      the next pass, whatever header-free bytes precede it. */
  lemma FrameInFirstHalf(garbage: seq<Byte>, frame: seq<Byte>, tail: seq<Byte>, samples: seq<int>, prev: seq<int>)
    requires |prev| == NumberOfAcquiredChannels
    requires forall j :: 0 <= j < |garbage| ==> garbage[j] != 0xC0
    requires IsValidFrame(frame) && |tail| >= 1
    requires |garbage| < (|garbage + frame + tail| + 1) / 2
    ensures Pass(Pipeline(garbage + frame + tail, samples, prev)) == Accept(Pipeline(tail, samples, prev), frame)
  {
    var bytes := garbage + frame + tail;
    assert bytes[|garbage|] == frame[0] == 0xC0;
    assert HeaderAt(bytes, |garbage|);
    PassAtHeader(Pipeline(bytes, samples, prev), |garbage|);
    assert bytes[|garbage|..|garbage| + TotalPayloadLength] == frame;
    assert bytes[|garbage| + TotalPayloadLength..] == tail;
  }

  /** When the header-free bytes fill the first half of the fifo, a pass
      drops exactly that half. */
  lemma GarbageHalfDropped(garbage: seq<Byte>, frame: seq<Byte>, tail: seq<Byte>, samples: seq<int>, prev: seq<int>)
    requires |prev| == NumberOfAcquiredChannels
    requires forall j :: 0 <= j < |garbage| ==> garbage[j] != 0xC0
    requires IsValidFrame(frame)
    requires (|garbage + frame + tail| + 1) / 2 <= |garbage|
    ensures var half := (|garbage + frame + tail| + 1) / 2;
      Pass(Pipeline(garbage + frame + tail, samples, prev)) == Pipeline(garbage[half..] + frame + tail, samples, prev)
  {
    var bytes := garbage + frame + tail;
    var half := (|bytes| + 1) / 2;
    assert forall j :: 0 <= j < half ==> bytes[j] == garbage[j];
    assert !Scan(bytes).found && Scan(bytes).dropped == half;
    assert bytes[half..] == garbage[half..] + frame + tail;
  }

  /** Bytes in front of a frame that hold no header byte are skipped, over
      as many passes as it takes, and then the frame is accepted, provided
      at least one byte follows it. */
  lemma {:induction false} ResyncAfterGarbage(garbage: seq<Byte>, frame: seq<Byte>, tail: seq<Byte>, samples: seq<int>, prev: seq<int>)
    requires |prev| == NumberOfAcquiredChannels
    requires forall j :: 0 <= j < |garbage| ==> garbage[j] != 0xC0
    requires IsValidFrame(frame) && |tail| >= 1
    ensures Drain(Pipeline(garbage + frame + tail, samples, prev)) ==
            Drain(Accept(Pipeline(tail, samples, prev), frame))
    decreases |garbage|
  {
    var p := Pipeline(garbage + frame + tail, samples, prev);
    var half := (|garbage + frame + tail| + 1) / 2;
    DrainStep(p);
    if |garbage| < half {
      FrameInFirstHalf(garbage, frame, tail, samples, prev);
    } else {
      GarbageHalfDropped(garbage, frame, tail, samples, prev);
      ResyncAfterGarbage(garbage[half..], frame, tail, samples, prev);
    }
  }

  /** The thresholds are strict: one complete frame alone is left in the
      fifo, however it arrived ... */
  lemma LoneFrameWaits(frame: seq<Byte>, samples: seq<int>, prev: seq<int>)
    requires |prev| == NumberOfAcquiredChannels && IsValidFrame(frame)
    ensures Receive(Pipeline([], samples, prev), frame) == Pipeline(frame, samples, prev)
  {
    assert [] + frame == frame;
  }

  /** ... and it is consumed as soon as one more byte arrives. */
  lemma FrameConsumedByNextByte(frame: seq<Byte>, next: Byte, samples: seq<int>, prev: seq<int>)
    requires |prev| == NumberOfAcquiredChannels && IsValidFrame(frame)
    ensures Receive(Pipeline(frame, samples, prev), [next]) ==
            Accept(Pipeline([next], samples, prev), frame)
  {
    var q := Accept(Pipeline([next], samples, prev), frame);
    assert Drain(q) == q by {
      assert |q.bytes| == 1;
    }
    assert Receive(Pipeline(frame, samples, prev), [next]) == Drain(Pipeline([] + frame + [next], samples, prev)) by {
      assert [] + frame + [next] == frame + [next];
    }
    ResyncAfterGarbage([], frame, [next], samples, prev);
  }

  /** Gap interpolation on the counters of two consecutive payloads. */
  lemma GapExamples(prev: seq<int>, payload: seq<int>)
    requires |prev| == NumberOfAcquiredChannels && |payload| == NumberOfAcquiredChannels
    requires prev[CounterIndex] == 5
    ensures payload[CounterIndex] == 9 ==>
      var e := Emitted(prev, payload);
      |e| == 4 * NumberOfAcquiredChannels &&
      e[CounterIndex] == 6 && e[17 + CounterIndex] == 7 && e[34 + CounterIndex] == 8 && e[51 + CounterIndex] == 9 &&
      e[ValidityIndex] == 0 && e[17 + ValidityIndex] == 0 && e[34 + ValidityIndex] == 0 && e[51 + ValidityIndex] == 1
    ensures payload[CounterIndex] == 6 || payload[CounterIndex] == 4 ==>
      Emitted(prev, payload) == payload[ValidityIndex := 1]
  {
    if payload[CounterIndex] == 9 {
      var e := Emitted(prev, payload);
      assert e == Fillers(prev, 3) + payload[ValidityIndex := 1];
      FillersAt(prev, 3, 0, CounterIndex);
      FillersAt(prev, 3, 1, CounterIndex);
      FillersAt(prev, 3, 2, CounterIndex);
      FillersAt(prev, 3, 0, ValidityIndex);
      FillersAt(prev, 3, 1, ValidityIndex);
      FillersAt(prev, 3, 2, ValidityIndex);
    }
  }

  /** Interpolation in general: for `lost > 0` exactly `lost` copies of the
      previous payload come first, counters `prev + 1 .. prev + lost`, marked
      interpolated; then the received payload, marked valid. */
  lemma EmittedBlocks(prev: seq<int>, payload: seq<int>, k: nat)
    requires |prev| == NumberOfAcquiredChannels && |payload| == NumberOfAcquiredChannels
    requires var lost := SamplesLost(prev, payload); k < lost
    ensures var e := Emitted(prev, payload);
      e[NumberOfAcquiredChannels * k..NumberOfAcquiredChannels * (k + 1)] ==
        prev[CounterIndex := prev[CounterIndex] + k + 1][ValidityIndex := 0]
  {
    var lost := SamplesLost(prev, payload);
    var e := Emitted(prev, payload);
    FillersBlock(prev, lost, k);
    assert e == Fillers(prev, lost) + payload[ValidityIndex := 1];
    assert e[NumberOfAcquiredChannels * k..NumberOfAcquiredChannels * (k + 1)] ==
      Fillers(prev, lost)[NumberOfAcquiredChannels * k..NumberOfAcquiredChannels * (k + 1)];
  }
}
