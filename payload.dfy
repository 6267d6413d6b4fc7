/**
 * Decoding of one 45-byte frame into the 17 raw channel values of a
 * sample: 8 EEG, 3 accelerometer, 3 gyroscope, battery, counter, and a
 * validation indicator left at 0 (the synchronizer sets it).
 *
 * Values are the raw integers the driver computes before it multiplies
 * them by its floating-point scale factors.
 */
module Payload {
  import opened Protocol

  /** Big-endian 24-bit two's complement, sign-extended from bit 23. */
  function Eeg24(b0: Byte, b1: Byte, b2: Byte): (v: int)
    ensures -0x80_0000 <= v < 0x80_0000
    ensures v < 0 <==> b0 >= 0x80
  {
    var u := b0 as int * 0x1_0000 + b1 as int * 0x100 + b2 as int;
    if u >= 0x80_0000 then u - 0x100_0000 else u
  }

  /** Little-endian signed 16-bit value. */
  function Int16Le(lo: Byte, hi: Byte): (v: int)
    ensures -0x8000 <= v < 0x8000
    ensures v < 0 <==> hi >= 0x80
  {
    var u := lo as int + hi as int * 0x100;
    if u >= 0x8000 then u - 0x1_0000 else u
  }

  /** Little-endian 32-bit value taken as a signed Java int. */
  function Int32Le(b0: Byte, b1: Byte, b2: Byte, b3: Byte): (v: int)
    ensures -0x8000_0000 <= v < 0x8000_0000
    ensures v < 0 <==> b3 >= 0x80
  {
    var u := b0 as int + b1 as int * 0x100 + b2 as int * 0x1_0000 + b3 as int * 0x100_0000;
    if u >= 0x8000_0000 then u - 0x1_0000_0000 else u
  }

  /** The battery level nibble: only the low four bits of its byte count. */
  function Battery(b: Byte): (v: int)
    ensures 0 <= v < 16
  {
    b % 16
  }

  /** Channel `k` of the sample decoded from `raw`. */
  function Channel(raw: seq<Byte>, k: nat): (v: int)
    requires |raw| == TotalPayloadLength && k < NumberOfAcquiredChannels
    ensures k < 8 ==> -0x80_0000 <= v < 0x80_0000
    ensures 8 <= k < 14 ==> -0x8000 <= v < 0x8000
    ensures k == BatteryIndex ==> 0 <= v < 16
    ensures k == CounterIndex ==> -0x8000_0000 <= v < 0x8000_0000
    ensures k == ValidityIndex ==> v == 0
  {
    if k < 8 then
      Eeg24(raw[EegOffset + 3 * k], raw[EegOffset + 3 * k + 1], raw[EegOffset + 3 * k + 2])
    else if k < 11 then
      Int16Le(raw[AccOffset + 2 * (k - 8)], raw[AccOffset + 2 * (k - 8) + 1])
    else if k < 14 then
      Int16Le(raw[GyrOffset + 2 * (k - 11)], raw[GyrOffset + 2 * (k - 11) + 1])
    else if k == BatteryIndex then
      Battery(raw[BatteryLevelOffset])
    else if k == CounterIndex then
      Int32Le(raw[CntOffset], raw[CntOffset + 1], raw[CntOffset + 2], raw[CntOffset + 3])
    else
      0
  }

  /** The 17 values of the frame `raw`, in sample order. */
  function Decode(raw: seq<Byte>): (r: seq<int>)
    requires |raw| == TotalPayloadLength
    ensures |r| == NumberOfAcquiredChannels
    ensures r[ValidityIndex] == 0
  {
    seq(NumberOfAcquiredChannels, k requires 0 <= k < NumberOfAcquiredChannels => Channel(raw, k))
  }

  /** The fixed offsets of every field of the frame. */
  lemma DecodeLayout(raw: seq<Byte>)
    requires |raw| == TotalPayloadLength
    ensures forall i :: 0 <= i < 8 ==> Decode(raw)[i] == Eeg24(raw[3 + 3 * i], raw[4 + 3 * i], raw[5 + 3 * i])
    ensures forall i :: 0 <= i < 3 ==> Decode(raw)[8 + i] == Int16Le(raw[27 + 2 * i], raw[28 + 2 * i])
    ensures forall i :: 0 <= i < 3 ==> Decode(raw)[11 + i] == Int16Le(raw[33 + 2 * i], raw[34 + 2 * i])
    ensures Decode(raw)[14] == raw[2] % 16
    ensures Decode(raw)[15] == Int32Le(raw[39], raw[40], raw[41], raw[42])
  {
  }

  /** A frame the synchronizer accepts: header `C0 00` and footer `0D 0A`. */
  predicate IsValidFrame(f: seq<Byte>)
    ensures IsValidFrame(f) <==>
      (|f| == TotalPayloadLength &&
       f[HeaderOffset..HeaderOffset + HeaderLength] == HeaderStartSequence &&
       f[FooterOffset..FooterOffset + FooterLength] == FooterStopSequence)
  {
    assert |f| == TotalPayloadLength ==>
      f[HeaderOffset..HeaderOffset + HeaderLength] == [f[0], f[1]] &&
      f[FooterOffset..FooterOffset + FooterLength] == [f[43], f[44]];
    |f| == TotalPayloadLength &&
    f[0] == HeaderStartSequence[0] && f[1] == HeaderStartSequence[1] &&
    f[|f| - 2] == FooterStopSequence[0] && f[|f| - 1] == FooterStopSequence[1]
  }

  // ---- The device side: integer channel values to frame bytes ----

  /** Big-endian two's complement bytes of a 24-bit value. */
  function EncodeEeg24(v: int): (r: seq<Byte>)
    requires -0x80_0000 <= v < 0x80_0000
    ensures |r| == 3
  {
    var u := v % 0x100_0000;
    var r := u / 0x100;
    [r / 0x100, r % 0x100, u % 0x100]
  }

  /** Little-endian two's complement bytes of a 16-bit value. */
  function EncodeInt16Le(v: int): (r: seq<Byte>)
    requires -0x8000 <= v < 0x8000
    ensures |r| == 2
  {
    var u := v % 0x1_0000;
    [u % 0x100, u / 0x100]
  }

  /** Little-endian two's complement bytes of a 32-bit value. */
  function EncodeInt32Le(v: int): (r: seq<Byte>)
    requires -0x8000_0000 <= v < 0x8000_0000
    ensures |r| == 4
  {
    var u := v % 0x1_0000_0000;
    var r1 := u / 0x100;
    var r2 := r1 / 0x100;
    [u % 0x100, r1 % 0x100, r2 % 0x100, r2 / 0x100]
  }

  /** Decoding and encoding of an EEG value are inverse bijections. */
  lemma Eeg24RoundTrip(v: int, b0: Byte, b1: Byte, b2: Byte)
    requires -0x80_0000 <= v < 0x80_0000
    ensures var e := EncodeEeg24(v); Eeg24(e[0], e[1], e[2]) == v
    ensures EncodeEeg24(Eeg24(b0, b1, b2)) == [b0, b1, b2]
  {
    var u := v % 0x100_0000;
    Split256(u, u / 0x100, u % 0x100);
    Split256(u / 0x100, u / 0x100 / 0x100, u / 0x100 % 0x100);
    var w := b0 * 0x1_0000 + b1 * 0x100 + b2;
    assert Eeg24(b0, b1, b2) % 0x100_0000 == w;
    Split256(w, b0 * 0x100 + b1, b2);
    Split256(b0 * 0x100 + b1, b0, b1);
  }

  /** Decoding and encoding of a 16-bit value are inverse bijections. */
  lemma Int16LeRoundTrip(v: int, lo: Byte, hi: Byte)
    requires -0x8000 <= v < 0x8000
    ensures var e := EncodeInt16Le(v); Int16Le(e[0], e[1]) == v
    ensures EncodeInt16Le(Int16Le(lo, hi)) == [lo, hi]
  {
    var u := v % 0x1_0000;
    Split256(u, u / 0x100, u % 0x100);
    var w := lo + hi * 0x100;
    assert Int16Le(lo, hi) % 0x1_0000 == w;
    Split256(w, hi, lo);
  }

  /** Decoding and encoding of a counter are inverse bijections. */
  lemma Int32LeRoundTrip(v: int, b0: Byte, b1: Byte, b2: Byte, b3: Byte)
    requires -0x8000_0000 <= v < 0x8000_0000
    ensures var e := EncodeInt32Le(v); Int32Le(e[0], e[1], e[2], e[3]) == v
    ensures EncodeInt32Le(Int32Le(b0, b1, b2, b3)) == [b0, b1, b2, b3]
  {
    var u := v % 0x1_0000_0000;
    var r1 := u / 0x100;
    var r2 := r1 / 0x100;
    Split256(u, r1, u % 0x100);
    Split256(r1, r2, r1 % 0x100);
    Split256(r2, r2 / 0x100, r2 % 0x100);
    var w := b0 + b1 * 0x100 + b2 * 0x1_0000 + b3 * 0x100_0000;
    assert Int32Le(b0, b1, b2, b3) % 0x1_0000_0000 == w;
    Split256(w, b1 + b2 * 0x100 + b3 * 0x1_0000, b0);
    Split256(b1 + b2 * 0x100 + b3 * 0x1_0000, b2 + b3 * 0x100, b1);
    Split256(b2 + b3 * 0x100, b3, b2);
  }

  /** Division by 256 of a number written as `q * 256 + r`. */
  lemma Split256(x: int, q: int, r: int)
    requires x == q * 0x100 + r && 0 <= r < 0x100
    ensures x / 0x100 == q && x % 0x100 == r
  {
  }

  /** Integer channel values of one sample as the device sends them. */
  datatype RawSample = RawSample(eeg: seq<int>, acc: seq<int>, gyr: seq<int>, battery: int, counter: int)

  predicate InRange(s: RawSample)
  {
    |s.eeg| == 8 && |s.acc| == 3 && |s.gyr| == 3 &&
    (forall i :: 0 <= i < 8 ==> -0x80_0000 <= s.eeg[i] < 0x80_0000) &&
    (forall i :: 0 <= i < 3 ==> -0x8000 <= s.acc[i] < 0x8000) &&
    (forall i :: 0 <= i < 3 ==> -0x8000 <= s.gyr[i] < 0x8000) &&
    0 <= s.battery < 16 &&
    -0x8000_0000 <= s.counter < 0x8000_0000
  }

  /** The 17 values a frame of `s` should decode to. */
  function Channels(s: RawSample): (r: seq<int>)
    requires InRange(s)
    ensures |r| == NumberOfAcquiredChannels
  {
    seq(NumberOfAcquiredChannels, k requires 0 <= k < NumberOfAcquiredChannels =>
      if k < 8 then s.eeg[k]
      else if k < 11 then s.acc[k - 8]
      else if k < 14 then s.gyr[k - 11]
      else if k == BatteryIndex then s.battery
      else if k == CounterIndex then s.counter
      else 0)
  }

  /** Byte `pos` of the frame carrying `s`. */
  function FrameByte(s: RawSample, pos: nat): Byte
    requires InRange(s) && pos < TotalPayloadLength
  {
    if pos < 2 then HeaderStartSequence[pos]
    else if pos == 2 then s.battery
    else if pos < 27 then EncodeEeg24(s.eeg[(pos - 3) / 3])[(pos - 3) % 3]
    else if pos < 33 then EncodeInt16Le(s.acc[(pos - 27) / 2])[(pos - 27) % 2]
    else if pos < 39 then EncodeInt16Le(s.gyr[(pos - 33) / 2])[(pos - 33) % 2]
    else if pos < 43 then EncodeInt32Le(s.counter)[pos - 39]
    else FooterStopSequence[pos - 43]
  }

  /** The frame the device sends for `s`. */
  function EncodeFrame(s: RawSample): (f: seq<Byte>)
    requires InRange(s)
    ensures |f| == TotalPayloadLength
  {
    seq(TotalPayloadLength, pos requires 0 <= pos < TotalPayloadLength => FrameByte(s, pos))
  }

  /** Every frame built from in-range channel values passes the
      header/footer check and decodes to exactly those values. */
  lemma DecodeEncodeFrame(s: RawSample)
    requires InRange(s)
    ensures IsValidFrame(EncodeFrame(s))
    ensures Decode(EncodeFrame(s)) == Channels(s)
  {
    FrameIsValid(s);
    var d := Decode(EncodeFrame(s));
    var c := Channels(s);
    forall j | 0 <= j < NumberOfAcquiredChannels
      ensures d[j] == c[j]
    {
      if j < 8 {
        EegOfFrame(s, j);
      } else if j < 11 {
        AccOfFrame(s, j - 8);
      } else if j < 14 {
        GyrOfFrame(s, j - 11);
      } else if j == BatteryIndex {
        BatteryOfFrame(s);
      } else if j == CounterIndex {
        CounterOfFrame(s);
      }
    }
  }

  lemma FrameIsValid(s: RawSample)
    requires InRange(s)
    ensures IsValidFrame(EncodeFrame(s))
  {
    var f := EncodeFrame(s);
    assert f[0] == FrameByte(s, 0) && f[1] == FrameByte(s, 1);
    assert f[43] == FrameByte(s, 43) && f[44] == FrameByte(s, 44);
  }

  /** Byte `c` of EEG channel `i` sits at `3 + 3 * i + c`. */
  lemma EegByte(s: RawSample, i: nat, c: nat)
    requires InRange(s) && i < 8 && c < 3
    ensures EncodeFrame(s)[EegOffset + 3 * i + c] == EncodeEeg24(s.eeg[i])[c]
  {
    assert (3 * i + c) / 3 == i && (3 * i + c) % 3 == c;
    assert EncodeFrame(s)[EegOffset + 3 * i + c] == FrameByte(s, EegOffset + 3 * i + c);
  }

  /** Byte `c` of 16-bit channel `i` of a region sits at `offset + 2 * i + c`. */
  lemma Int16Byte(s: RawSample, i: nat, c: nat)
    requires InRange(s) && i < 3 && c < 2
    ensures EncodeFrame(s)[AccOffset + 2 * i + c] == EncodeInt16Le(s.acc[i])[c]
    ensures EncodeFrame(s)[GyrOffset + 2 * i + c] == EncodeInt16Le(s.gyr[i])[c]
  {
    assert (2 * i + c) / 2 == i && (2 * i + c) % 2 == c;
    assert EncodeFrame(s)[AccOffset + 2 * i + c] == FrameByte(s, AccOffset + 2 * i + c);
    assert EncodeFrame(s)[GyrOffset + 2 * i + c] == FrameByte(s, GyrOffset + 2 * i + c);
  }

  /** A frame whose bytes at EEG channel `i` encode `v` decodes to `v` there. */
  lemma DecodeEegAt(raw: seq<Byte>, i: nat, v: int)
    requires |raw| == TotalPayloadLength && i < 8 && -0x80_0000 <= v < 0x80_0000
    requires raw[EegOffset + 3 * i .. EegOffset + 3 * i + 3] == EncodeEeg24(v)
    ensures Decode(raw)[i] == v
  {
    var e := EncodeEeg24(v);
    assert raw[EegOffset + 3 * i] == e[0] && raw[EegOffset + 3 * i + 1] == e[1] && raw[EegOffset + 3 * i + 2] == e[2];
    Eeg24RoundTrip(v, 0, 0, 0);
  }

  /** A frame whose bytes at 16-bit channel `j` (at `offset + 2 * i`) encode `v`
      decodes to `v` there. */
  lemma DecodeInt16At(raw: seq<Byte>, offset: nat, i: nat, j: nat, v: int)
    requires |raw| == TotalPayloadLength && i < 3 && -0x8000 <= v < 0x8000
    requires (offset == AccOffset && j == 8 + i) || (offset == GyrOffset && j == 11 + i)
    requires raw[offset + 2 * i .. offset + 2 * i + 2] == EncodeInt16Le(v)
    ensures Decode(raw)[j] == v
  {
    var e := EncodeInt16Le(v);
    assert raw[offset + 2 * i] == e[0] && raw[offset + 2 * i + 1] == e[1];
    Int16LeRoundTrip(v, 0, 0);
  }

  lemma EegOfFrame(s: RawSample, i: nat)
    requires InRange(s) && i < 8
    ensures Decode(EncodeFrame(s))[i] == Channels(s)[i]
  {
    var f := EncodeFrame(s);
    EegByte(s, i, 0);
    EegByte(s, i, 1);
    EegByte(s, i, 2);
    assert f[EegOffset + 3 * i .. EegOffset + 3 * i + 3] == EncodeEeg24(s.eeg[i]);
    DecodeEegAt(f, i, s.eeg[i]);
  }

  lemma AccOfFrame(s: RawSample, i: nat)
    requires InRange(s) && i < 3
    ensures Decode(EncodeFrame(s))[8 + i] == Channels(s)[8 + i]
  {
    var f := EncodeFrame(s);
    Int16Byte(s, i, 0);
    Int16Byte(s, i, 1);
    assert f[AccOffset + 2 * i .. AccOffset + 2 * i + 2] == EncodeInt16Le(s.acc[i]);
    DecodeInt16At(f, AccOffset, i, 8 + i, s.acc[i]);
  }

  lemma GyrOfFrame(s: RawSample, i: nat)
    requires InRange(s) && i < 3
    ensures Decode(EncodeFrame(s))[11 + i] == Channels(s)[11 + i]
  {
    var f := EncodeFrame(s);
    Int16Byte(s, i, 0);
    Int16Byte(s, i, 1);
    assert f[GyrOffset + 2 * i .. GyrOffset + 2 * i + 2] == EncodeInt16Le(s.gyr[i]);
    DecodeInt16At(f, GyrOffset, i, 11 + i, s.gyr[i]);
  }

  lemma BatteryOfFrame(s: RawSample)
    requires InRange(s)
    ensures Decode(EncodeFrame(s))[BatteryIndex] == Channels(s)[BatteryIndex]
  {
    assert EncodeFrame(s)[BatteryLevelOffset] == s.battery;
  }

  lemma CounterOfFrame(s: RawSample)
    requires InRange(s)
    ensures Decode(EncodeFrame(s))[CounterIndex] == Channels(s)[CounterIndex]
  {
    var f := EncodeFrame(s);
    var e := EncodeInt32Le(s.counter);
    assert f[39] == e[0] && f[40] == e[1] && f[41] == e[2] && f[42] == e[3] by {
      assert f[39] == FrameByte(s, 39) && f[40] == FrameByte(s, 40);
      assert f[41] == FrameByte(s, 41) && f[42] == FrameByte(s, 42);
    }
    Int32LeRoundTrip(s.counter, 0, 0, 0, 0);
  }

  /** The decoder of the driver: fills a fresh 17-value array field by field. */
  method ConvertRawPayload(rawPayload: seq<Byte>) returns (payload: array<int>)
    requires |rawPayload| == TotalPayloadLength
    ensures fresh(payload) && payload[..] == Decode(rawPayload)
  {
    ghost var d := Decode(rawPayload);
    payload := new int[NumberOfAcquiredChannels](_ => 0);

    // eeg
    for i := 0 to NumberOfEegChannels
      invariant forall j :: 0 <= j < NumberOfAcquiredChannels ==> payload[j] == if j < i then d[j] else 0
    {
      var eegTemp := (rawPayload[EegOffset + i * BytesPerEegChannel] as int) * 0x1_0000 +
                     (rawPayload[EegOffset + i * BytesPerEegChannel + 1] as int) * 0x100 +
                     (rawPayload[EegOffset + i * BytesPerEegChannel + 2] as int);
      // bit 23 set: the 32-bit value is negative by 2^24
      if eegTemp >= 0x80_0000 {
        eegTemp := eegTemp - 0x100_0000;
      }
      payload[i] := eegTemp;
    }

    // accelerometer
    for i := 0 to NumberOfAccChannels
      invariant forall j :: 0 <= j < NumberOfAcquiredChannels ==> payload[j] == if j < 8 + i then d[j] else 0
    {
      var accTemp := (rawPayload[AccOffset + i * BytesPerAccChannel] as int) +
                     (rawPayload[AccOffset + i * BytesPerAccChannel + 1] as int) * 0x100;
      if accTemp >= 0x8000 {
        accTemp := accTemp - 0x1_0000;
      }
      payload[i + NumberOfEegChannels] := accTemp;
    }

    // gyroscope
    for i := 0 to NumberOfGyrChannels
      invariant forall j :: 0 <= j < NumberOfAcquiredChannels ==> payload[j] == if j < 11 + i then d[j] else 0
    {
      var gyrTemp := (rawPayload[GyrOffset + i * BytesPerGyrChannel] as int) +
                     (rawPayload[GyrOffset + i * BytesPerGyrChannel + 1] as int) * 0x100;
      if gyrTemp >= 0x8000 {
        gyrTemp := gyrTemp - 0x1_0000;
      }
      payload[i + NumberOfEegChannels + NumberOfAccChannels] := gyrTemp;
    }

    // battery level
    payload[BatteryIndex] := rawPayload[BatteryLevelOffset] % 16;

    // counter
    var cnt := (rawPayload[CntOffset] as int) + (rawPayload[CntOffset + 1] as int) * 0x100 +
               (rawPayload[CntOffset + 2] as int) * 0x1_0000 + (rawPayload[CntOffset + 3] as int) * 0x100_0000;
    if cnt >= 0x8000_0000 {
      cnt := cnt - 0x1_0000_0000;
    }
    payload[CounterIndex] := cnt;
  }
}
