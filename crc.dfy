/**
 * Command framing: a command byte followed by the two bytes of the
 * driver's own 16-bit checksum. The checksum is the driver's variant of
 * CRC-16/CCITT, reproduced bit for bit on a 16-bit accumulator.
 */
module Crc {

  /** Command bytes the driver sends. */
  const CmdStartAcquisition: bv8 := 0x61
  const CmdStopAcquisition: bv8 := 0x63

  /** Exchange the high and low byte of the accumulator. */
  function SwapBytes(acc: bv16): (r: bv16)
    ensures r >> 8 == acc & 0xFF && r & 0xFF == acc >> 8
  {
    (acc >> 8) | (acc << 8)
  }

  /** One step of the textbook long division by the CRC-CCITT generator
      polynomial x^16 + x^12 + x^5 + 1 (0x1021): shift one bit out and
      subtract the generator when that bit was set. */
  function PolyStep(c: bv16): bv16
  {
    if c & 0x8000 == 0 then c << 1 else (c << 1) ^ 0x1021
  }

  /** The long division of one whole byte, eight bit steps. */
  function PolyDivideByte(c: bv16): bv16
  {
    PolyStep(PolyStep(PolyStep(PolyStep(PolyStep(PolyStep(PolyStep(PolyStep(c))))))))
  }

  /** One round of the checksum for one input byte (taken unsigned). */
  function CrcRound(acc: bv16, b: bv8): bv16
  {
    var a0 := SwapBytes(acc);
    var a1 := a0 ^ (b as bv16);
    var a2 := a1 ^ ((a1 & 0xFF) >> 4);
    var a3 := a2 ^ (a2 << 12);
    a3 ^ ((a3 & 0xFF) << 5)
  }

  /** The byte table the round computes without a lookup, for the byte `h`
      that is added into the high half of the accumulator. */
  function Table(h: bv8): bv16
  {
    var y := (h as bv16) ^ ((h as bv16) >> 4);
    y ^ (y << 12) ^ (y << 5)
  }

  /** From a zero accumulator, a round gives the table entry of its byte. */
  lemma RoundFromZero(b: bv8)
    ensures CrcRound(0, b) == Table(b)
  {
  }

  /** Dividing a byte placed in the high half gives its table entry. */
  lemma DivideHighByte(h: bv8)
    ensures PolyDivideByte((h as bv16) << 8) == Table(h)
  {
  }

  /** The xor-and-shift steps agree with the bit by bit division by the
      CRC-CCITT polynomial on every one-byte message: the checksum of a
      command byte is the CRC-16/CCITT remainder of that byte (initial
      value 0, no final xor). */
  lemma RoundIsDivision(b: bv8)
    ensures CrcRound(0, b) == PolyDivideByte((b as bv16) << 8)
  {
    RoundFromZero(b);
    DivideHighByte(b);
  }

  /** The accumulator after feeding `data`, left to right, starting from `acc`. */
  function CrcOver(acc: bv16, data: seq<bv8>): (r: bv16)
    ensures |data| == 0 ==> r == acc
    decreases |data|
  {
    if |data| == 0 then acc else CrcOver(CrcRound(acc, data[0]), data[1..])
  }

  /** The checksum of `data`: the accumulator starts at zero. */
  function Crc16(data: seq<bv8>): bv16
  {
    CrcOver(0, data)
  }

  /** The two checksum bytes: bits 15..8, then bits 7..0. */
  function CrcBytes(acc: bv16): (r: seq<bv8>)
    ensures |r| == 2
    ensures ((r[0] as bv16) << 8) | (r[1] as bv16) == acc
  {
    [(acc >> 8) as bv8, (acc & 0xFF) as bv8]
  }

  /** Feeding `a ++ b` is feeding `a`, then `b`. */
  lemma {:induction false} CrcOverAppend(acc: bv16, a: seq<bv8>, b: seq<bv8>)
    ensures CrcOver(acc, a + b) == CrcOver(CrcOver(acc, a), b)
    decreases |a|
  {
    if |a| == 0 {
      assert a + b == b;
    } else {
      assert (a + b)[0] == a[0];
      assert (a + b)[1..] == a[1..] + b;
      CrcOverAppend(CrcRound(acc, a[0]), a[1..], b);
    }
  }

  /** Appending one byte adds one round. */
  lemma OneMoreRound(a: seq<bv8>, x: bv8)
    ensures Crc16(a + [x]) == CrcRound(Crc16(a), x)
  {
    CrcOverAppend(0, a, [x]);
    SingleRound(Crc16(a), x);
  }

  /** Feeding one byte is one round. */
  lemma SingleRound(acc: bv16, x: bv8)
    ensures CrcOver(acc, [x]) == CrcRound(acc, x)
  {
    assert [x][1..] == [];
  }

  /** The loop of the driver: one round per byte of `data[offset..offset+size]`. */
  method GetCrc16Ccitt(data: seq<bv8>, offset: nat, size: nat) returns (crc: seq<bv8>)
    requires offset + size <= |data|
    ensures crc == CrcBytes(Crc16(data[offset..offset + size]))
  {
    var crcValue: bv16 := 0;
    var i := offset;
    while i < offset + size
      invariant offset <= i <= offset + size
      invariant crcValue == Crc16(data[offset..i])
    {
      OneMoreRound(data[offset..i], data[i]);
      crcValue := CrcRound(crcValue, data[i]);
      assert data[offset..i + 1] == data[offset..i] + [data[i]];
      i := i + 1;
    }
    crc := [(crcValue >> 8) as bv8, (crcValue & 0xFF) as bv8];
  }

  /** The three-byte frame sent for a command. */
  function CommandFrame(cmd: bv8): (r: seq<bv8>)
    ensures |r| == 3 && r[0] == cmd
    ensures r[1..] == CrcBytes(PolyDivideByte((cmd as bv16) << 8))
  {
    SingleRound(0, cmd);
    RoundIsDivision(cmd);
    [cmd] + CrcBytes(Crc16([cmd]))
  }

  /** Builds the frame `[cmd, crcHigh, crcLow]` as the driver does. */
  method FormMessage(cmd: bv8) returns (message: seq<bv8>)
    ensures |message| == 3 && message[0] == cmd
    ensures message[1..] == CrcBytes(CrcRound(0, cmd))
    ensures message == CommandFrame(cmd)
  {
    var data := [cmd];
    var crc := GetCrc16Ccitt(data, 0, |data|);
    assert data[0..|data|] == [cmd];
    SingleRound(0, cmd);
    message := data + [crc[0], crc[1]];
  }

  /** The receiving side of a command frame: the command it carries when
      the checksum matches, and None otherwise. */
  function CommandOf(frame: seq<bv8>): (r: Option)
  {
    if |frame| == 3 && frame[1..] == CrcBytes(CrcRound(0, frame[0])) then Some(frame[0]) else None
  }

  datatype Option = None | Some(value: bv8)

  /** Framing and checking are inverse: every frame the driver builds is
      accepted with its command, and every accepted frame is the one the
      driver builds for that command. */
  lemma CommandOfInvertsFrame(cmd: bv8, frame: seq<bv8>)
    ensures CommandOf(CommandFrame(cmd)) == Some(cmd)
    ensures CommandOf(frame) == Some(cmd) <==> frame == CommandFrame(cmd)
  {
    SingleRound(0, cmd);
    if CommandOf(frame) == Some(cmd) {
      assert frame == [frame[0]] + frame[1..];
    }
  }

  /** Different command bytes never share a checksum: a one-round
      accumulator from zero determines its input byte. */
  lemma ChecksumSeparatesCommands(c1: bv8, c2: bv8)
    requires c1 != c2
    ensures Crc16([c1]) != Crc16([c2])
    ensures CommandOf([c2] + CrcBytes(Crc16([c1]))) == None
  {
    SingleRound(0, c1);
    SingleRound(0, c2);
  }

  /** The frames of the two commands the driver sends. */
  lemma CommandFrameVectors()
    ensures CommandFrame(CmdStartAcquisition) == [0x61, 0x7C, 0x87]
    ensures CommandFrame(CmdStopAcquisition) == [0x63, 0x5C, 0xC5]
  {
    SingleRound(0, 0x61);
    SingleRound(0, 0x63);
  }
}
