/**
 * One connected headset: the driver object with its byte fifo, its flat
 * fifo of sample values, the previous payload used for gap detection, the
 * acquisition flag and the time of the last keep-alive write.
 *
 * The transport is given as data: each operation receives the bytes the
 * input stream delivers to it, and every byte written to the output stream
 * is appended to `written`.
 */
module Session {
  import opened Protocol
  import opened Crc
  import opened Payload
  import opened Sync

  /** The stop acknowledgement ends at position `k` of `s`: the three bytes
      before `k` are the acknowledgement `{0, 0, 0}`. */
  ghost predicate AckEndsAt(s: seq<Byte>, k: int)
  {
    3 <= k <= |s| && s[k - 3] == 0 && s[k - 2] == 0 && s[k - 1] == 0
  }

  class Unicorn {
    var byteFifo: seq<Byte>
    var floatFifo: seq<int>
    var prevPayload: array<int>
    var acquisitionRunning: bool
    var prevWriteTimestamp: int
    var written: seq<bv8>

    /** The receive pipeline's part of the state. */
    ghost function State(): Pipeline
      reads this, prevPayload
    {
      Pipeline(byteFifo, floatFifo, prevPayload[..])
    }

    ghost predicate Valid()
      reads this, prevPayload
    {
      prevPayload.Length == NumberOfAcquiredChannels && WellFormed(State())
    }

    /** The state right after the transport is opened. */
    constructor ()
      ensures Valid() && fresh(prevPayload)
      ensures byteFifo == [] && floatFifo == []
      ensures prevPayload[..] == seq(NumberOfAcquiredChannels, _ => 0)
      ensures !acquisitionRunning && prevWriteTimestamp == 0 && written == []
    {
      byteFifo := [];
      floatFifo := [];
      prevPayload := new int[NumberOfAcquiredChannels](_ => 0);
      acquisitionRunning := false;
      prevWriteTimestamp := 0;
      written := [];
    }

    /** Sends the start command and checks the single 3-byte read that
        follows; `response` is what that read delivered (at most 3 bytes). */
    method StartAcquisition(response: seq<Byte>) returns (r: Outcome)
      requires |response| <= CmdStartAcquisitionAckLength
      modifies this
      ensures written == old(written) + [0x61, 0x7C, 0x87]
      ensures |response| != CmdStartAcquisitionAckLength ==> r == Fail(IncompleteRead)
      ensures |response| == CmdStartAcquisitionAckLength && response != CmdStartAcquisitionAck ==> r == Fail(AckMismatch)
      ensures r == Done <==> response == CmdStartAcquisitionAck
      ensures acquisitionRunning == (r == Done || old(acquisitionRunning))
      ensures byteFifo == old(byteFifo) && floatFifo == old(floatFifo) && prevPayload == old(prevPayload)
      ensures prevWriteTimestamp == old(prevWriteTimestamp)
    {
      var message := FormMessage(CmdStartAcquisition);
      CommandFrameVectors();
      written := written + message;

      if |response| != CmdStartAcquisitionAckLength {
        return Fail(IncompleteRead);
      }
      if response != CmdStartAcquisitionAck {
        return Fail(AckMismatch);
      }
      acquisitionRunning := true;
      r := Done;
    }

    /** Sends the stop command, then reads single bytes with a cursor into
        the acknowledgement until three zero bytes arrive in a row.
        `consumed` is the number of bytes read from `stream`. */
    method StopAcquisition(stream: seq<Byte>) returns (r: Outcome, consumed: nat)
      modifies this
      ensures written == old(written) + [0x63, 0x5C, 0xC5]
      ensures r == Done <==> exists k :: AckEndsAt(stream, k)
      ensures r == Done ==>
        AckEndsAt(stream, consumed) && (forall k :: 0 <= k < consumed ==> !AckEndsAt(stream, k)) &&
        !acquisitionRunning
      ensures r != Done ==>
        r == Fail(AckNotReceived) && consumed == |stream| && acquisitionRunning == old(acquisitionRunning)
      ensures byteFifo == old(byteFifo) && floatFifo == old(floatFifo) && prevPayload == old(prevPayload)
      ensures prevWriteTimestamp == old(prevWriteTimestamp)
    {
      var message := FormMessage(CmdStopAcquisition);
      CommandFrameVectors();
      written := written + message;

      var ackReceived := false;
      var ackReceiveCnt := 0;
      var i := 0;
      while !ackReceived
        invariant 0 <= ackReceiveCnt <= i <= |stream| && ackReceiveCnt <= 3
        invariant forall j :: i - ackReceiveCnt <= j < i ==> stream[j] == 0
        invariant ackReceiveCnt < i && ackReceiveCnt < 3 ==> stream[i - ackReceiveCnt - 1] != 0
        invariant ackReceived <==> ackReceiveCnt == 3
        invariant forall k :: 0 <= k < i ==> !AckEndsAt(stream, k)
        invariant ackReceived <==> AckEndsAt(stream, i)
        decreases |stream| - i, if ackReceived then 0 else 1
      {
        if i == |stream| {
          // the driver would block here, waiting for the next byte
          return Fail(AckNotReceived), i;
        }
        var data := stream[i];
        i := i + 1;
        if data == CmdStopAcquisitionAck[ackReceiveCnt] {
          ackReceiveCnt := ackReceiveCnt + 1;
        } else {
          ackReceiveCnt := 0;
        }
        if ackReceiveCnt == |CmdStopAcquisitionAck| {
          ackReceived := true;
        }
      }
      // the check after the loop can never fail
      assert ackReceiveCnt == |CmdStopAcquisitionAck|;
      acquisitionRunning := false;
      r, consumed := Done, i;
    }

    /** The header scan: drop bytes from the front until a header start byte
        is at the front, comparing the index with the shrinking fifo size. */
    method ScanForHeader() returns (headerFound: bool)
      modifies this
      ensures var sc := Scan(old(byteFifo));
        headerFound == sc.found && byteFifo == old(byteFifo)[sc.dropped..]
      ensures floatFifo == old(floatFifo) && prevPayload == old(prevPayload)
      ensures acquisitionRunning == old(acquisitionRunning)
      ensures prevWriteTimestamp == old(prevWriteTimestamp) && written == old(written)
    {
      headerFound := false;
      var i := 0;
      while i < |byteFifo|
        invariant i <= |old(byteFifo)| && byteFifo == old(byteFifo)[i..]
        invariant Scan(old(byteFifo)) == ScanFrom(old(byteFifo), i)
        invariant !headerFound
        invariant floatFifo == old(floatFifo) && prevPayload == old(prevPayload)
        invariant acquisitionRunning == old(acquisitionRunning)
        invariant prevWriteTimestamp == old(prevWriteTimestamp) && written == old(written)
        decreases |byteFifo| - i
      {
        if byteFifo[0] == HeaderStartSequence[0] {
          headerFound := true;
          break;
        }
        byteFifo := byteFifo[1..];
        if i == |byteFifo| - 1 {
          headerFound := false;
        }
        i := i + 1;
      }
    }

    /** Queues the values of `a` in order (`for (float val : a)`). */
    method PushValues(a: array<int>)
      modifies this
      ensures floatFifo == old(floatFifo) + a[..]
      ensures byteFifo == old(byteFifo) && prevPayload == old(prevPayload)
      ensures acquisitionRunning == old(acquisitionRunning)
      ensures prevWriteTimestamp == old(prevWriteTimestamp) && written == old(written)
    {
      for j := 0 to a.Length
        invariant floatFifo == old(floatFifo) + a[..j]
        invariant byteFifo == old(byteFifo) && prevPayload == old(prevPayload)
        invariant acquisitionRunning == old(acquisitionRunning)
        invariant prevWriteTimestamp == old(prevWriteTimestamp) && written == old(written)
      {
        floatFifo := floatFifo + [a[j]];
      }
      assert a[..a.Length] == a[..];
    }

    /** The interpolation loop: `numberOfSamplesLost` copies of the previous
        payload with the counter counting up and the indicator cleared. */
    method InterpolateLost(numberOfSamplesLost: nat)
      requires prevPayload.Length == NumberOfAcquiredChannels
      modifies this, prevPayload
      ensures prevPayload == old(prevPayload)
      ensures floatFifo == old(floatFifo) + Fillers(old(prevPayload[..]), numberOfSamplesLost)
      ensures prevPayload[..] == if numberOfSamplesLost == 0 then old(prevPayload[..])
                                 else Filler(old(prevPayload[..]), numberOfSamplesLost)
      ensures byteFifo == old(byteFifo) && acquisitionRunning == old(acquisitionRunning)
      ensures prevWriteTimestamp == old(prevWriteTimestamp) && written == old(written)
    {
      ghost var prev0 := prevPayload[..];
      var cntTmp := prevPayload[CounterIndex];
      for i := 0 to numberOfSamplesLost
        invariant prevPayload == old(prevPayload)
        invariant floatFifo == old(floatFifo) + Fillers(prev0, i)
        invariant prevPayload[..] == if i == 0 then prev0 else Filler(prev0, i)
        invariant byteFifo == old(byteFifo) && acquisitionRunning == old(acquisitionRunning)
        invariant prevWriteTimestamp == old(prevWriteTimestamp) && written == old(written)
      {
        // counter
        prevPayload[CounterIndex] := cntTmp + i + 1;
        // validation indicator
        prevPayload[ValidityIndex] := 0;
        assert prevPayload[..] == Filler(prev0, i + 1);
        PushValues(prevPayload);
      }
    }

    /** Interpolates the samples lost before `payload`, queues them and the
        payload (marked valid), and stores the payload as the previous one. */
    method PushPayload(payload: array<int>)
      requires prevPayload.Length == NumberOfAcquiredChannels
      requires payload.Length == NumberOfAcquiredChannels && payload != prevPayload
      modifies this, prevPayload, payload
      ensures prevPayload == old(prevPayload)
      ensures floatFifo == old(floatFifo) + Emitted(old(prevPayload[..]), old(payload[..]))
      ensures prevPayload[..] == old(payload[..])[ValidityIndex := 1]
      ensures byteFifo == old(byteFifo) && acquisitionRunning == old(acquisitionRunning)
      ensures prevWriteTimestamp == old(prevWriteTimestamp) && written == old(written)
    {
      ghost var prev0 := prevPayload[..];
      ghost var payload0 := payload[..];
      ghost var fifo0 := floatFifo;

      var numberOfSamplesLost := JavaIntCast(payload[CounterIndex] - prevPayload[CounterIndex] - 1);
      assert numberOfSamplesLost == SamplesLost(prev0, payload0);

      ghost var fillers := if numberOfSamplesLost > 0 then Fillers(prev0, numberOfSamplesLost) else [];
      assert Emitted(prev0, payload0) == fillers + payload0[ValidityIndex := 1];

      // interpolate lost payloads
      if numberOfSamplesLost > 0 {
        InterpolateLost(numberOfSamplesLost);
      }
      assert floatFifo == fifo0 + fillers;

      // validation indicator
      payload[ValidityIndex] := 1;
      assert payload[..] == payload0[ValidityIndex := 1];

      // fifo in
      PushValues(payload);
      assert floatFifo == fifo0 + (fillers + payload0[ValidityIndex := 1]);

      // store last payload
      StorePayload(payload);
    }

    /** `System.arraycopy` of a whole payload into the previous payload. */
    method StorePayload(payload: array<int>)
      requires payload.Length == prevPayload.Length && payload != prevPayload
      modifies prevPayload
      ensures prevPayload[..] == payload[..]
    {
      for j := 0 to payload.Length
        invariant prevPayload[..j] == payload[..j]
      {
        prevPayload[j] := payload[j];
      }
      assert prevPayload[..] == prevPayload[..payload.Length];
    }

    /** Takes one frame length of bytes from the front of the byte fifo. */
    method PollFrame() returns (rawDataTmp: array<Byte>)
      requires |byteFifo| >= TotalPayloadLength
      modifies this
      ensures fresh(rawDataTmp)
      ensures rawDataTmp[..] == old(byteFifo)[..TotalPayloadLength]
      ensures byteFifo == old(byteFifo)[TotalPayloadLength..]
      ensures floatFifo == old(floatFifo) && prevPayload == old(prevPayload)
      ensures acquisitionRunning == old(acquisitionRunning)
      ensures prevWriteTimestamp == old(prevWriteTimestamp) && written == old(written)
    {
      rawDataTmp := new Byte[TotalPayloadLength](_ => 0);
      for i := 0 to TotalPayloadLength
        invariant byteFifo == old(byteFifo)[i..]
        invariant rawDataTmp[..i] == old(byteFifo)[..i]
        invariant floatFifo == old(floatFifo) && prevPayload == old(prevPayload)
        invariant acquisitionRunning == old(acquisitionRunning)
        invariant prevWriteTimestamp == old(prevWriteTimestamp) && written == old(written)
      {
        rawDataTmp[i] := byteFifo[0];
        byteFifo := byteFifo[1..];
      }
      assert rawDataTmp[..] == rawDataTmp[..TotalPayloadLength];
    }

    /** One pass of the do-while loop of ReadData. */
    method DrainOnce()
      requires Valid()
      modifies this, prevPayload
      ensures Valid() && prevPayload == old(prevPayload)
      ensures State() == Pass(old(State()))
      ensures acquisitionRunning == old(acquisitionRunning)
      ensures prevWriteTimestamp == old(prevWriteTimestamp) && written == old(written)
    {
      ghost var p0 := State();
      PassCases(p0);
      var headerFound := ScanForHeader();
      ghost var rest := byteFifo;
      if headerFound && |byteFifo| > TotalPayloadLength {
        var rawDataTmp := PollFrame();
        ghost var q := Pipeline(rest[TotalPayloadLength..], p0.samples, p0.prev);
        assert State() == q;

        //if valid payload was detected
        if rawDataTmp[0] == HeaderStartSequence[0] && rawDataTmp[1] == HeaderStartSequence[1] &&
           rawDataTmp[rawDataTmp.Length - 2] == FooterStopSequence[0] &&
           rawDataTmp[rawDataTmp.Length - 1] == FooterStopSequence[1]
        {
          assert IsValidFrame(rest[..TotalPayloadLength]);
          var payload := ConvertRawPayload(rawDataTmp[..]);
          PushPayload(payload);
          assert State() == Accept(q, rest[..TotalPayloadLength]);
        } else {
          assert !IsValidFrame(rest[..TotalPayloadLength]);
        }
      }
    }

    /** Appends the bytes the stream delivered to the byte fifo, then takes
        frames from its front while it holds more than one frame length. */
    method ReadData(incoming: seq<Byte>)
      requires Valid()
      modifies this, prevPayload
      ensures Valid() && prevPayload == old(prevPayload)
      ensures State() == Receive(old(State()), incoming)
      ensures acquisitionRunning == old(acquisitionRunning)
      ensures prevWriteTimestamp == old(prevWriteTimestamp) && written == old(written)
    {
      ghost var p0 := State();
      // enqueue in byte fifo
      for i := 0 to |incoming|
        modifies this
        invariant byteFifo == old(byteFifo) + incoming[..i]
        invariant floatFifo == old(floatFifo) && prevPayload == old(prevPayload)
        invariant acquisitionRunning == old(acquisitionRunning)
        invariant prevWriteTimestamp == old(prevWriteTimestamp) && written == old(written)
      {
        byteFifo := byteFifo + [incoming[i]];
      }
      assert incoming[..|incoming|] == incoming;
      ghost var start := State();
      assert start == Pipeline(p0.bytes + incoming, p0.samples, p0.prev);

      // if at least one payload might be available
      if |byteFifo| > TotalPayloadLength {
        var more := true;
        while more
          invariant Valid() && prevPayload == old(prevPayload)
          invariant more ==> |byteFifo| > TotalPayloadLength
          invariant !more ==> |byteFifo| <= TotalPayloadLength
          invariant Drain(State()) == Drain(start)
          invariant acquisitionRunning == old(acquisitionRunning)
          invariant prevWriteTimestamp == old(prevWriteTimestamp) && written == old(written)
          decreases |byteFifo| + if more then 1 else 0
        {
          DrainStep(State());
          DrainOnce();
          more := |byteFifo| > TotalPayloadLength;
        }
      }
      assert Drain(State()) == State();
    }

    /** Removes the 17 oldest values: one sample. */
    method PollSample() returns (dataOut: seq<int>)
      requires Valid() && |floatFifo| >= NumberOfAcquiredChannels
      modifies this
      ensures Valid()
      ensures dataOut == old(floatFifo)[..NumberOfAcquiredChannels]
      ensures floatFifo == old(floatFifo)[NumberOfAcquiredChannels..]
      ensures dataOut[ValidityIndex] == 0 || dataOut[ValidityIndex] == 1
      ensures byteFifo == old(byteFifo) && prevPayload == old(prevPayload)
      ensures acquisitionRunning == old(acquisitionRunning)
      ensures prevWriteTimestamp == old(prevWriteTimestamp) && written == old(written)
    {
      AlignedDropSample(floatFifo);
      assert ValidityIndex % NumberOfAcquiredChannels == ValidityIndex;
      dataOut := [];
      for i := 0 to NumberOfAcquiredChannels
        invariant dataOut == old(floatFifo)[..i]
        invariant floatFifo == old(floatFifo)[i..]
        invariant byteFifo == old(byteFifo) && prevPayload == old(prevPayload)
        invariant acquisitionRunning == old(acquisitionRunning)
        invariant prevWriteTimestamp == old(prevWriteTimestamp) && written == old(written)
      {
        dataOut := dataOut + [floatFifo[0]];
        floatFifo := floatFifo[1..];
      }
    }

    /** Returns the next sample. `now` is the clock reading used for the
        keep-alive decision; `chunks` are the successive reads the wait loop
        gets before its one-second budget runs out. */
    method GetData(now: int, chunks: seq<seq<Byte>>) returns (r: Result<seq<int>>)
      requires Valid()
      modifies this, prevPayload
      ensures Valid() && prevPayload == old(prevPayload)
      ensures acquisitionRunning == old(acquisitionRunning)
      ensures !old(acquisitionRunning) ==>
        r == Failure(AcquisitionNotStarted) && State() == old(State()) &&
        written == old(written) && prevWriteTimestamp == old(prevWriteTimestamp)
      ensures old(acquisitionRunning) ==>
        var keepAlive := now - old(prevWriteTimestamp) > WriteTimeoutMs;
        written == old(written) + (if keepAlive then [0] else []) &&
        prevWriteTimestamp == (if keepAlive then now else old(prevWriteTimestamp))
      ensures old(acquisitionRunning) ==>
        var p := Pump(old(State()), chunks);
        if |p.samples| >= NumberOfAcquiredChannels then
          r == Success(p.samples[..NumberOfAcquiredChannels]) &&
          State() == Pipeline(p.bytes, p.samples[NumberOfAcquiredChannels..], p.prev)
        else
          r == Failure(AcquisitionTimeout) && State() == p
    {
      if !acquisitionRunning {
        return Failure(AcquisitionNotStarted);
      }

      // keep-alive: at most one dummy byte per second
      if now - prevWriteTimestamp > WriteTimeoutMs {
        prevWriteTimestamp := now;
        written := written + [0];
      }
      ghost var written1, timestamp1 := written, prevWriteTimestamp;

      // try to acquire data
      var k := 0;
      while |floatFifo| < NumberOfAcquiredChannels && k < |chunks|
        invariant Valid() && prevPayload == old(prevPayload)
        invariant k <= |chunks|
        invariant Pump(State(), chunks[k..]) == Pump(old(State()), chunks)
        invariant acquisitionRunning == old(acquisitionRunning)
        invariant written == written1 && prevWriteTimestamp == timestamp1
      {
        assert chunks[k..][1..] == chunks[k + 1..];
        PumpStep(State(), chunks[k..]);
        ReadData(chunks[k]);
        k := k + 1;
      }
      assert k == |chunks| ==> chunks[k..] == [];

      // check if acquisition timed out
      if |floatFifo| < NumberOfAcquiredChannels {
        return Failure(AcquisitionTimeout);
      }

      var dataOut := PollSample();
      r := Success(dataOut);
    }
  }
}
