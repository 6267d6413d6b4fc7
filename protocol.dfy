/**
 * Wire constants of the Unicorn headset protocol and the error outcomes
 * of the driver's operations.
 */
module Protocol {

  /** One octet of the transport stream, as its unsigned value. */
  type Byte = b: int | 0 <= b < 0x100

  /** Channels of one sample: 8 EEG, 3 accelerometer, 3 gyroscope,
      battery level, counter and validation indicator. */
  const NumberOfAcquiredChannels: nat := 17
  const NumberOfEegChannels: nat := 8
  const NumberOfAccChannels: nat := 3
  const NumberOfGyrChannels: nat := 3
  const NumberOfCntChannels: nat := 1
  const NumberOfBatteryLevelChannels: nat := 1
  const NumberOfValidationIndicatorChannels: nat := 1

  /** The acknowledgement both commands expect (the command bytes and
      their checksum are in module Crc). */
  const CmdStartAcquisitionAckLength: nat := 3
  const CmdStartAcquisitionAck: seq<Byte> := [0, 0, 0]
  const CmdStopAcquisitionAck: seq<Byte> := [0, 0, 0]

  /** Frame layout; LayoutIsContiguous shows that every length is the
      channel count times the bytes per channel and that every offset is the
      sum of the lengths before it, as the driver computes them. */
  const TotalPayloadLength: nat := 45
  const HeaderStartSequence: seq<Byte> := [0xC0, 0x00]
  const FooterStopSequence: seq<Byte> := [0x0D, 0x0A]
  const HeaderLength: nat := 2
  const HeaderOffset: nat := 0
  const BytesPerBatteryLevelChannel: nat := 1
  const BatteryLevelLength: nat := 1
  const BatteryLevelOffset: nat := 2
  const BytesPerEegChannel: nat := 3
  const EegLength: nat := 24
  const EegOffset: nat := 3
  const BytesPerAccChannel: nat := 2
  const AccLength: nat := 6
  const AccOffset: nat := 27
  const BytesPerGyrChannel: nat := 2
  const GyrLength: nat := 6
  const GyrOffset: nat := 33
  const BytesPerCntChannel: nat := 4
  const CntLength: nat := 4
  const CntOffset: nat := 39
  const NumberOfFooterChannels: nat := 1
  const BytesPerFooterChannel: nat := 2
  const FooterLength: nat := 2
  const FooterOffset: nat := 43

  /** Minimum time between two keep-alive writes, in milliseconds. */
  const WriteTimeoutMs: int := 1000

  /** Positions of the derived channels inside a 17-value sample. */
  const BatteryIndex: nat := 14
  const CounterIndex: nat := 15
  const ValidityIndex: nat := 16

  /** The layout tiles the frame: header, battery, EEG, accelerometer,
      gyroscope, counter and footer are adjacent and end at byte 45, and
      the sample indices follow the channel counts. */
  lemma LayoutIsContiguous()
    ensures BatteryLevelLength == NumberOfBatteryLevelChannels * BytesPerBatteryLevelChannel
    ensures EegLength == NumberOfEegChannels * BytesPerEegChannel
    ensures AccLength == NumberOfAccChannels * BytesPerAccChannel
    ensures GyrLength == NumberOfGyrChannels * BytesPerGyrChannel
    ensures CntLength == NumberOfCntChannels * BytesPerCntChannel
    ensures FooterLength == NumberOfFooterChannels * BytesPerFooterChannel
    ensures HeaderOffset + HeaderLength == BatteryLevelOffset
    ensures BatteryLevelOffset + BatteryLevelLength == EegOffset
    ensures EegOffset + EegLength == AccOffset
    ensures AccOffset + AccLength == GyrOffset
    ensures GyrOffset + GyrLength == CntOffset
    ensures CntOffset + CntLength == FooterOffset
    ensures FooterOffset + FooterLength == TotalPayloadLength
    ensures BatteryIndex == NumberOfEegChannels + NumberOfAccChannels + NumberOfGyrChannels
    ensures CounterIndex == BatteryIndex + NumberOfBatteryLevelChannels
    ensures ValidityIndex == CounterIndex + NumberOfCntChannels
    ensures ValidityIndex + NumberOfValidationIndicatorChannels == NumberOfAcquiredChannels
  {
  }

  /** The failures the driver reports (each is an exception in the driver). */
  datatype Error =
    | IncompleteRead          // fewer bytes than the protocol step needs
    | AckMismatch             // acknowledgement bytes present but wrong
    | AckNotReceived          // the stream ended before the stop acknowledgement
    | AcquisitionNotStarted   // GetData outside a running acquisition
    | AcquisitionTimeout      // no full sample before the read budget ran out

  datatype Outcome = Done | Fail(error: Error)

  datatype Result<T> = Success(value: T) | Failure(error: Error)
}
