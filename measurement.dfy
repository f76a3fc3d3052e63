/** The 18-byte measurement frame. The sensor sends three 32-bit words (CO2,
    temperature, humidity), each as two big-endian 16-bit halves followed by the
    checksum of that half. The driver keeps the raw bits of each word. */
module MeasurementFrame {
  import opened Checksum
  import opened Framing

  const FrameLength: nat := 18

  /** Raw 32-bit words of one measurement (IEEE-754 bit patterns on the sensor). */
  datatype Measurement = Measurement(co2: bv32, temperature: bv32, humidity: bv32)

  const Zero := Measurement(0, 0, 0)

  datatype Field = Co2 | Temperature | Humidity

  datatype Option<T> = None | Some(value: T)

  /** The driver's positional switch: which word byte `b` of the frame belongs to,
      or None for a checksum byte (and for anything past the frame). */
  function SlotOf(b: nat): Option<Field> {
    if b == 0 || b == 1 || b == 3 || b == 4 then Some(Co2)
    else if b == 6 || b == 7 || b == 9 || b == 10 then Some(Temperature)
    else if b == 12 || b == 13 || b == 15 || b == 16 then Some(Humidity)
    else None
  }

  /** The word in the layout order: field k occupies bytes 6k..6k+5, and within
      it bytes 2 and 5 are checksums. */
  function FieldAt(k: nat): Field {
    if k == 0 then Co2 else if k == 1 then Temperature else Humidity
  }

  /** The switch agrees with the frame layout: inside the frame, a byte is skipped
      exactly when it is a checksum position (2, 5, 8, 11, 14, 17), and every other
      byte goes to the word of its 6-byte group. */
  lemma SlotOfMatchesLayout(b: nat)
    requires b < FrameLength
    ensures SlotOf(b) == None <==> b % 3 == 2
    ensures b % 3 != 2 ==> SlotOf(b) == Some(FieldAt(b / 6))
  {
  }

  /** Four bytes combined most significant first. */
  function Word(b3: bv8, b2: bv8, b1: bv8, b0: bv8): bv32 {
    ((b3 as bv32) << 24) | ((b2 as bv32) << 16) | ((b1 as bv32) << 8) | (b0 as bv32)
  }

  /** The word is b3 * 2^24 + b2 * 2^16 + b1 * 2^8 + b0. */
  lemma WordValue(b3: bv8, b2: bv8, b1: bv8, b0: bv8)
    ensures Word(b3, b2, b1, b0)
      == b3 as bv32 * 0x100_0000 + b2 as bv32 * 0x1_0000 + b1 as bv32 * 0x100 + b0 as bv32
  {
  }

  /** The three words by their fixed byte positions in the frame. */
  function Decode(frame: seq<bv8>): Measurement
    requires |frame| == FrameLength
  {
    Measurement(
      Word(frame[0], frame[1], frame[3], frame[4]),
      Word(frame[6], frame[7], frame[9], frame[10]),
      Word(frame[12], frame[13], frame[15], frame[16]))
  }

  /** The checksum bytes never influence the decoded words. */
  lemma DecodeIgnoresChecksums(f: seq<bv8>, g: seq<bv8>)
    requires |f| == FrameLength && |g| == FrameLength
    requires forall i :: 0 <= i < FrameLength && i % 3 != 2 ==> f[i] == g[i]
    ensures Decode(f) == Decode(g)
  {
    assert f[0] == g[0] && f[1] == g[1] && f[3] == g[3] && f[4] == g[4];
    assert f[6] == g[6] && f[7] == g[7] && f[9] == g[9] && f[10] == g[10];
    assert f[12] == g[12] && f[13] == g[13] && f[15] == g[15] && f[16] == g[16];
  }

  /** One byte shifted into a word from the right (`w <<= 8; w |= b`). */
  function ShiftIn(w: bv32, b: bv8): bv32 {
    (w << 8) | (b as bv32)
  }

  /** The word the driver's loop has accumulated for `field` after the first `n`
      bytes: each byte of that field is shifted in from the right. */
  function Accumulate(frame: seq<bv8>, field: Field, n: nat): bv32
    requires n <= |frame|
  {
    if n == 0 then 0
    else
      var acc := Accumulate(frame, field, n - 1);
      if SlotOf(n - 1) == Some(field) then ShiftIn(acc, frame[n - 1]) else acc
  }

  /** Bytes outside `field` leave its word alone. */
  lemma {:induction false} AccumulateSkips(frame: seq<bv8>, field: Field, n: nat, m: nat)
    requires n <= m <= |frame|
    requires forall b :: n <= b < m ==> SlotOf(b) != Some(field)
    ensures Accumulate(frame, field, m) == Accumulate(frame, field, n)
  {
    if n < m {
      AccumulateSkips(frame, field, n, m - 1);
    }
  }

  lemma ShiftInWord(a: bv8, b: bv8, c: bv8, d: bv8)
    ensures ShiftIn(ShiftIn(ShiftIn(ShiftIn(0, a), b), c), d) == Word(a, b, c, d)
  {
  }

  /** The positional loop stores, for each field, exactly the word of its four data
      bytes: over a whole frame, the accumulation equals `Decode`. */
  lemma {:induction false} AccumulateDecodes(frame: seq<bv8>)
    requires |frame| == FrameLength
    ensures Accumulate(frame, Co2, FrameLength) == Decode(frame).co2
    ensures Accumulate(frame, Temperature, FrameLength) == Decode(frame).temperature
    ensures Accumulate(frame, Humidity, FrameLength) == Decode(frame).humidity
  {
    FieldDecodes(frame, Co2, 0);
    FieldDecodes(frame, Temperature, 6);
    FieldDecodes(frame, Humidity, 12);
  }

  lemma {:induction false} FieldDecodes(frame: seq<bv8>, field: Field, s: nat)
    requires |frame| == FrameLength
    requires s == 0 || s == 6 || s == 12
    requires field == FieldAt(s / 6)
    ensures Accumulate(frame, field, FrameLength)
      == Word(frame[s], frame[s + 1], frame[s + 3], frame[s + 4])
  {
    AccumulateSkips(frame, field, 0, s);
    assert SlotOf(s) == Some(field) && SlotOf(s + 1) == Some(field);
    assert SlotOf(s + 2) == None;
    assert SlotOf(s + 3) == Some(field) && SlotOf(s + 4) == Some(field);
    FiveBytes(frame, field, s);
    AccumulateSkips(frame, field, s + 5, FrameLength);
  }

  /** One byte of the loop: shifted into `field`'s word when the switch selects it. */
  lemma AccumulateStep(frame: seq<bv8>, field: Field, n: nat)
    requires n < |frame|
    ensures SlotOf(n) == Some(field) ==>
      Accumulate(frame, field, n + 1) == ShiftIn(Accumulate(frame, field, n), frame[n])
    ensures SlotOf(n) != Some(field) ==>
      Accumulate(frame, field, n + 1) == Accumulate(frame, field, n)
  {
  }

  /** Shifting in a group "data, data, checksum, data, data" from a zero word. */
  lemma FiveBytes(frame: seq<bv8>, field: Field, s: nat)
    requires s + 5 <= |frame|
    requires Accumulate(frame, field, s) == 0
    requires SlotOf(s) == Some(field) && SlotOf(s + 1) == Some(field)
    requires SlotOf(s + 2) != Some(field)
    requires SlotOf(s + 3) == Some(field) && SlotOf(s + 4) == Some(field)
    ensures Accumulate(frame, field, s + 5)
      == Word(frame[s], frame[s + 1], frame[s + 3], frame[s + 4])
  {
    AccumulateStep(frame, field, s);
    AccumulateStep(frame, field, s + 1);
    AccumulateStep(frame, field, s + 2);
    AccumulateStep(frame, field, s + 3);
    AccumulateStep(frame, field, s + 4);
    ShiftInWord(frame[s], frame[s + 1], frame[s + 3], frame[s + 4]);
  }

  /** The 18 bytes the driver reads after requesting a frame: the received bytes,
      and 0xFF for every read past them. */
  function Received(bytes: seq<bv8>): (frame: seq<bv8>)
    ensures |frame| == FrameLength
    ensures forall i :: 0 <= i < FrameLength ==> frame[i] == ReadByte(bytes, i)
  {
    seq(FrameLength, i requires 0 <= i < FrameLength => ReadByte(bytes, i))
  }

  /** The measurement the driver stores after an acknowledged read-measurement
      command: all-zero words when no byte arrived (the accumulators start at 0 and
      are copied regardless), otherwise the decoded frame. */
  function MeasurementOf(bytes: seq<bv8>): Measurement {
    if |bytes| == 0 then Zero else Decode(Received(bytes))
  }

  /** The driver's receive loop: when any byte arrived, it reads 18 bytes and
      shifts each one into the word the positional switch names; the three words
      start at 0 and are returned whether or not anything arrived. */
  method ShiftInFrame(bytes: seq<bv8>) returns (m: Measurement)
    ensures m == MeasurementOf(bytes)
  {
    var tempCo2: bv32 := 0;
    var tempHumidity: bv32 := 0;
    var tempTemperature: bv32 := 0;
    ghost var frame := Received(bytes);
    if |bytes| > 0 {
      for b := 0 to FrameLength
        invariant tempCo2 == Accumulate(frame, Co2, b)
        invariant tempTemperature == Accumulate(frame, Temperature, b)
        invariant tempHumidity == Accumulate(frame, Humidity, b)
      {
        var incoming := ReadByte(bytes, b);
        assert frame[b] == incoming;
        AccumulateStep(frame, Co2, b);
        AccumulateStep(frame, Temperature, b);
        AccumulateStep(frame, Humidity, b);
        if b == 0 || b == 1 || b == 3 || b == 4 {
          tempCo2 := ShiftIn(tempCo2, incoming);
        } else if b == 6 || b == 7 || b == 9 || b == 10 {
          tempTemperature := ShiftIn(tempTemperature, incoming);
        } else if b == 12 || b == 13 || b == 15 || b == 16 {
          tempHumidity := ShiftIn(tempHumidity, incoming);
        }
      }
      AccumulateDecodes(frame);
    }
    m := Measurement(tempCo2, tempTemperature, tempHumidity);
  }

  /** A 16-bit half as the sensor sends it: its two bytes, MSB first, and their
      checksum; a receiver's checksum over the three bytes is 0. */
  function Checked(h: bv16): (s: seq<bv8>)
    ensures |s| == 3 && s[0] == Hi(h) && s[1] == Lo(h)
    ensures Crc8(s) == 0
  {
    Crc8OfChecked([Hi(h), Lo(h)]);
    [Hi(h), Lo(h)] + [Crc8([Hi(h), Lo(h)])]
  }

  /** One word as the sensor sends it: the upper half, then the lower half. */
  function WordBytes(w: bv32): (s: seq<bv8>)
    ensures |s| == 6
  {
    Checked((w >> 16) as bv16) + Checked((w & 0xFFFF) as bv16)
  }

  /** The frame the sensor sends for a measurement. */
  function EncodeFrame(m: Measurement): (frame: seq<bv8>)
    ensures |frame| == FrameLength
  {
    WordBytes(m.co2) + WordBytes(m.temperature) + WordBytes(m.humidity)
  }

  lemma WordBytesRoundTrip(w: bv32)
    ensures Word(WordBytes(w)[0], WordBytes(w)[1], WordBytes(w)[3], WordBytes(w)[4]) == w
  {
    var u, l := (w >> 16) as bv16, (w & 0xFFFF) as bv16;
    assert WordBytes(w)[..3] == Checked(u) && WordBytes(w)[3..] == Checked(l);
    WordOfHalves(w);
  }

  lemma WordOfHalves(w: bv32)
    ensures Word(Hi((w >> 16) as bv16), Lo((w >> 16) as bv16), Hi((w & 0xFFFF) as bv16), Lo((w & 0xFFFF) as bv16)) == w
  {
  }

  /** Decoding a frame sent by the sensor yields the words it encodes. */
  lemma {:induction false} DecodeEncode(m: Measurement)
    ensures Decode(EncodeFrame(m)) == m
  {
    var f := EncodeFrame(m);
    WordBytesRoundTrip(m.co2);
    WordBytesRoundTrip(m.temperature);
    WordBytesRoundTrip(m.humidity);
    assert f[..6] == WordBytes(m.co2);
    assert f[6..12] == WordBytes(m.temperature);
    assert f[12..] == WordBytes(m.humidity);
  }

  /** Both halves of a sent word carry a valid checksum. */
  lemma WordBytesChecksums(w: bv32)
    ensures Crc8(WordBytes(w)[..3]) == 0 && Crc8(WordBytes(w)[3..]) == 0
  {
    assert WordBytes(w)[..3] == Checked((w >> 16) as bv16);
    assert WordBytes(w)[3..] == Checked((w & 0xFFFF) as bv16);
  }

  /** Each 16-bit half of a sent frame carries a valid checksum: the checksum over
      each of the six 3-byte groups is 0. */
  lemma {:induction false} EncodeFrameChecksums(m: Measurement, k: nat)
    requires k < 6
    ensures Crc8(EncodeFrame(m)[3 * k .. 3 * k + 3]) == 0
  {
    var f := EncodeFrame(m);
    var w := if k < 2 then m.co2 else if k < 4 then m.temperature else m.humidity;
    var b := if k < 2 then 0 else if k < 4 then 6 else 12;
    assert f[b .. b + 6] == WordBytes(w);
    WordBytesChecksums(w);
    GroupOfWord(f, b, 3 * k, WordBytes(w));
  }

  lemma GroupOfWord(f: seq<bv8>, b: nat, g: nat, ws: seq<bv8>)
    requires b + 6 <= |f| && f[b .. b + 6] == ws
    requires g == b || g == b + 3
    ensures g == b ==> f[g .. g + 3] == ws[..3]
    ensures g == b + 3 ==> f[g .. g + 3] == ws[3..]
  {
  }

  /** A full reply from the sensor is stored as exactly the measurement it encodes. */
  lemma {:induction false} MeasurementOfSent(m: Measurement)
    ensures MeasurementOf(EncodeFrame(m)) == m
  {
    var f := EncodeFrame(m);
    assert Received(f) == f;
    DecodeEncode(m);
  }

  /** An acknowledged read that delivers no byte zeroes all three words. */
  lemma MeasurementOfNothing()
    ensures MeasurementOf([]) == Zero
  {
  }
}
