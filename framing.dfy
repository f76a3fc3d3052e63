/** What the driver writes on the bus and how it reads a 16-bit register back:
    big-endian byte splitting, command frames with and without a checksummed
    argument, and the collapse of a failed register read to 0. */
module Framing {
  import opened Checksum

  /** Most significant byte of a 16-bit word (`x >> 8`). */
  function Hi(x: bv16): bv8 {
    (x >> 8) as bv8
  }

  /** Least significant byte of a 16-bit word (`x & 0xFF`). */
  function Lo(x: bv16): bv8 {
    (x & 0xFF) as bv8
  }

  /** Two bytes combined most significant first (`(msb << 8) | lsb`). */
  function Join16(msb: bv8, lsb: bv8): (w: bv16)
    ensures w == msb as bv16 * 0x100 + lsb as bv16
  {
    ((msb as bv16) << 8) | (lsb as bv16)
  }

  lemma JoinSplit(x: bv16)
    ensures Join16(Hi(x), Lo(x)) == x
  {
  }

  lemma SplitJoin(msb: bv8, lsb: bv8)
    ensures Hi(Join16(msb, lsb)) == msb && Lo(Join16(msb, lsb)) == lsb
  {
  }

  /** The two bytes of a command without argument. */
  function CommandFrame(cmd: bv16): (f: seq<bv8>)
    ensures |f| == 2 && Join16(f[0], f[1]) == cmd
  {
    JoinSplit(cmd);
    [Hi(cmd), Lo(cmd)]
  }

  /** The five bytes of a command with argument: the command, the argument most
      significant byte first, and the checksum over the two argument bytes. A
      receiver recovers both words and its checksum over the last three bytes is 0. */
  function ArgumentFrame(cmd: bv16, arg: bv16): (f: seq<bv8>)
    ensures |f| == 5 && f[..2] == CommandFrame(cmd)
    ensures Join16(f[2], f[3]) == arg
    ensures f[4] == Crc8([f[2], f[3]])
    ensures Crc8(f[2..]) == 0
  {
    var data := [Hi(arg), Lo(arg)];
    JoinSplit(arg);
    Crc8OfChecked(data);
    assert CommandFrame(cmd) + data + [Crc8(data)] == CommandFrame(cmd) + (data + [Crc8(data)]);
    CommandFrame(cmd) + data + [Crc8(data)]
  }

  /** How the device answers one addressed write and the read that may follow it:
      whether it acknowledged the write, and the bytes it then makes available. */
  datatype Response = Response(ack: bool, bytes: seq<bv8>)

  /** Byte `i` as the driver reads it: a read past the received bytes yields -1,
      which the driver stores in a byte as 0xFF. */
  function ReadByte(bytes: seq<bv8>, i: nat): (b: bv8)
    ensures i < |bytes| ==> b == bytes[i]
    ensures i >= |bytes| ==> b == 0xFF
  {
    if i < |bytes| then bytes[i] else 0xFF
  }

  /** The value of a 2-byte register read: 0 when the address write is not
      acknowledged or nothing arrives, otherwise the two bytes read, MSB first. */
  function RegisterValue(r: Response): (v: bv16)
  {
    if !r.ack || |r.bytes| == 0 then 0 else Join16(r.bytes[0], ReadByte(r.bytes, 1))
  }

  /** A register value the device sends as its two bytes, MSB first, is read back
      exactly; anything it sends after them (its checksum) does not matter. */
  lemma {:induction false} RegisterValueRoundTrip(v: bv16, rest: seq<bv8>)
    ensures RegisterValue(Response(true, [Hi(v), Lo(v)] + rest)) == v
  {
    JoinSplit(v);
  }

  /** The failure cases collapse to 0, and a successful read is MSB * 256 + LSB of
      the two bytes read (the LSB is 0xFF when only one byte arrived). */
  lemma RegisterValueCases(r: Response)
    ensures !r.ack ==> RegisterValue(r) == 0
    ensures |r.bytes| == 0 ==> RegisterValue(r) == 0
    ensures r.ack && |r.bytes| > 0 ==>
      RegisterValue(r) == r.bytes[0] as bv16 * 0x100 + ReadByte(r.bytes, 1) as bv16
  {
  }

  /** A register reads as 1 exactly when the write was acknowledged and the two
      bytes read are 0x00 and 0x01. */
  lemma {:induction false} RegisterIsOne(r: Response)
    ensures RegisterValue(r) == 1 <==>
      r.ack && |r.bytes| > 0 && r.bytes[0] == 0 && ReadByte(r.bytes, 1) == 1
  {
    if r.ack && |r.bytes| > 0 {
      SplitJoin(r.bytes[0], ReadByte(r.bytes, 1));
    }
  }

  /** A configuration value written with a command and stored by the device as
      the argument's two bytes reads back, from the same op-code's register, as the
      value written. */
  lemma {:induction false} SetThenGet(cmd: bv16, arg: bv16, rest: seq<bv8>)
    ensures RegisterValue(Response(true, ArgumentFrame(cmd, arg)[2..4] + rest)) == arg
  {
    var f := ArgumentFrame(cmd, arg);
    assert (f[2..4] + rest)[0] == f[2] && (f[2..4] + rest)[1] == f[3];
  }

  /** Forced recalibration accepts a reference between 400 and 2000 ppm. */
  predicate ValidRecalibrationReference(ppm: bv16) {
    400 <= ppm <= 2000
  }

  /** The ambient-pressure argument actually sent: the value itself between 700 and
      1200 mBar, otherwise 0, which switches pressure compensation off. */
  function AmbientPressureArgument(mbar: bv16): (a: bv16)
    ensures 700 <= mbar <= 1200 ==> a == mbar
    ensures !(700 <= mbar <= 1200) ==> a == 0
    ensures a == 0 || 700 <= a <= 1200
  {
    if mbar < 700 || mbar > 1200 then 0 else mbar
  }

  /** The firmware version as (major, minor): the two bytes of the register value. */
  function FirmwareVersion(v: bv16): (fw: (bv8, bv8))
    ensures Join16(fw.0, fw.1) == v
  {
    JoinSplit(v);
    (Hi(v), Lo(v))
  }
}
