/** The SCD30 driver object: a cache of the last measurement read, and the
    commands of the Sensirion SCD30 Interface Description as bus transactions.

    The bus is abstract. Every operation is given, for each transaction it
    starts, how the device answers (a `Response`: acknowledge flag and the bytes
    then available), and the object records in the ghost `trace` every write and
    every read request it puts on the bus, in order. */
module Driver {
  import Defs = Scd30Defs
  import opened Checksum
  import opened Framing
  import opened MeasurementFrame

  /** One bus transaction: an addressed write of some bytes, or an addressed
      request to read `count` bytes. */
  datatype Transaction = Write(address: bv8, bytes: seq<bv8>) | Request(address: bv8, count: nat)

  /** What the driver ever puts on the bus: transactions to the sensor's address,
      writes of a bare 2-byte command or of a 5-byte command whose argument passes
      the checksum, and requests of 2 or 18 bytes. */
  predicate WellFormed(t: Transaction) {
    match t
    case Write(a, bytes) =>
      a == Defs.I2cAddress && (|bytes| == 2 || (|bytes| == 5 && Crc8(bytes[2..]) == 0))
    case Request(a, n) => a == Defs.I2cAddress && (n == 2 || n == FrameLength)
  }

  /** The transactions of a 2-byte register read: the address write, then, when
      acknowledged, a 2-byte request. */
  function RegisterTransactions(register: bv16, r: Response): (ts: seq<Transaction>)
    ensures forall i :: 0 <= i < |ts| ==> WellFormed(ts[i])
  {
    [Write(Defs.I2cAddress, CommandFrame(register))] + if r.ack then [Request(Defs.I2cAddress, 2)] else []
  }

  /** The transactions of a measurement read: the command write, then, when
      acknowledged, an 18-byte request. */
  function MeasurementTransactions(r: Response): (ts: seq<Transaction>)
    ensures forall i :: 0 <= i < |ts| ==> WellFormed(ts[i])
  {
    [Write(Defs.I2cAddress, CommandFrame(Defs.ReadMeasurement))] + if r.ack then [Request(Defs.I2cAddress, FrameLength)] else []
  }

  /** A lazy accessor's poll: the ready-status read and, only when it reads 1,
      a measurement read. */
  function PollTransactions(status: Response, reply: Response): (ts: seq<Transaction>)
    ensures forall i :: 0 <= i < |ts| ==> WellFormed(ts[i])
  {
    RegisterTransactions(Defs.GetReadyStatus, status)
      + if RegisterValue(status) == 1 then MeasurementTransactions(reply) else []
  }

  /** The cache after a poll: refreshed only when the ready status reads 1 and the
      read-measurement command is acknowledged. */
  function AfterPoll(cache: Measurement, status: Response, reply: Response): Measurement {
    if RegisterValue(status) == 1 && reply.ack then MeasurementOf(reply.bytes) else cache
  }

  /** When the sensor reports no new data, the poll issues no read-measurement
      command and the cache keeps its value. */
  lemma {:induction false} NotReadyKeepsCache(cache: Measurement, status: Response, reply: Response)
    requires RegisterValue(status) != 1
    ensures AfterPoll(cache, status, reply) == cache
    ensures forall i :: 0 <= i < |PollTransactions(status, reply)| ==>
      PollTransactions(status, reply)[i] != Write(Defs.I2cAddress, CommandFrame(Defs.ReadMeasurement))
  {
    var ts := PollTransactions(status, reply);
    assert ts == RegisterTransactions(Defs.GetReadyStatus, status);
    assert CommandFrame(Defs.GetReadyStatus) != CommandFrame(Defs.ReadMeasurement) by {
      assert CommandFrame(Defs.GetReadyStatus)[0] != CommandFrame(Defs.ReadMeasurement)[0];
    }
  }

  /** When the sensor reports new data and answers with a full frame, the cache
      holds exactly the measurement the frame encodes. */
  lemma {:induction false} ReadyRefreshesCache(cache: Measurement, status: Response, m: Measurement)
    requires RegisterValue(status) == 1
    ensures AfterPoll(cache, status, Response(true, EncodeFrame(m))) == m
  {
    MeasurementOfSent(m);
  }

  class Scd30 {
    /** Raw bits of the last CO2, temperature and humidity values read. */
    var co2: bv32
    var temperature: bv32
    var humidity: bv32

    /** Every transaction put on the bus so far, oldest first. */
    ghost var trace: seq<Transaction>

    ghost predicate Valid()
      reads this
    {
      forall i :: 0 <= i < |trace| ==> WellFormed(trace[i])
    }

    function Reading(): Measurement
      reads this
    {
      Measurement(co2, temperature, humidity)
    }

    /** A new driver holds zero for all three values and has used the bus not at all. */
    constructor ()
      ensures Valid() && Reading() == Zero && trace == []
    {
      co2, temperature, humidity := 0, 0, 0;
      trace := [];
    }

    /** Sends a command without argument; true exactly when the device acknowledged. */
    method SendCommand(cmd: bv16, ack: bool) returns (ok: bool)
      requires Valid()
      modifies this`trace
      ensures Valid() && ok == ack
      ensures trace == old(trace) + [Write(Defs.I2cAddress, CommandFrame(cmd))]
    {
      var frame := [Hi(cmd), Lo(cmd)];
      trace := trace + [Write(Defs.I2cAddress, frame)];
      ok := ack;
    }

    /** Sends a command with a 16-bit argument and its checksum; true exactly when
        the device acknowledged. */
    method SendCommandWithArgument(cmd: bv16, arg: bv16, ack: bool) returns (ok: bool)
      requires Valid()
      modifies this`trace
      ensures Valid() && ok == ack
      ensures trace == old(trace) + [Write(Defs.I2cAddress, ArgumentFrame(cmd, arg))]
    {
      var data := [Hi(arg), Lo(arg)];
      var crc := ComputeCrc8(data);
      var frame := [Hi(cmd), Lo(cmd), Hi(arg), Lo(arg), crc];
      assert frame == ArgumentFrame(cmd, arg);
      trace := trace + [Write(Defs.I2cAddress, frame)];
      ok := ack;
    }

    /** Reads a 2-byte register: 0 on a missing acknowledge or when nothing arrives,
        otherwise the two bytes read, MSB first. */
    method ReadRegister(register: bv16, r: Response) returns (v: bv16)
      requires Valid()
      modifies this`trace
      ensures Valid() && v == RegisterValue(r)
      ensures trace == old(trace) + RegisterTransactions(register, r)
    {
      var frame := [Hi(register), Lo(register)];
      trace := trace + [Write(Defs.I2cAddress, frame)];
      if !r.ack {
        return 0;
      }
      trace := trace + [Request(Defs.I2cAddress, 2)];
      if |r.bytes| > 0 {
        var msb := ReadByte(r.bytes, 0);
        var lsb := ReadByte(r.bytes, 1);
        v := (msb as bv16) << 8;
        v := v | (lsb as bv16);
      } else {
        v := 0;
      }
    }

    /** True exactly when the ready-status register reads 1. */
    method DataAvailable(status: Response) returns (ready: bool)
      requires Valid()
      modifies this`trace
      ensures Valid() && ready == (RegisterValue(status) == 1)
      ensures trace == old(trace) + RegisterTransactions(Defs.GetReadyStatus, status)
    {
      var response := ReadRegister(Defs.GetReadyStatus, status);
      ready := response == 1;
    }

    /** Reads the 18-byte measurement frame. Without an acknowledge it returns
        false and the cache is unchanged; otherwise it returns true and the cache
        holds the words of the frame, or zeros if no byte arrived. */
    method ReadMeasurement(r: Response) returns (ok: bool)
      requires Valid()
      modifies this
      ensures Valid() && ok == r.ack
      ensures trace == old(trace) + MeasurementTransactions(r)
      ensures Reading() == if r.ack then MeasurementOf(r.bytes) else old(Reading())
    {
      var cmd := [Hi(Defs.ReadMeasurement), Lo(Defs.ReadMeasurement)];
      assert cmd == CommandFrame(Defs.ReadMeasurement);
      trace := trace + [Write(Defs.I2cAddress, cmd)];
      if !r.ack {
        return false;
      }
      trace := trace + [Request(Defs.I2cAddress, FrameLength)];
      var m := ShiftInFrame(r.bytes);
      co2, temperature, humidity := m.co2, m.temperature, m.humidity;
      ok := true;
    }

    /** The lazy accessors share this poll: the cache is refreshed only when new
        data is ready. */
    method Poll(status: Response, reply: Response)
      requires Valid()
      modifies this
      ensures Valid()
      ensures trace == old(trace) + PollTransactions(status, reply)
      ensures Reading() == AfterPoll(old(Reading()), status, reply)
    {
      var ready := DataAvailable(status);
      if ready {
        var _ := ReadMeasurement(reply);
      }
    }

    /** The latest CO2 word, after refreshing the cache if new data is ready. */
    method GetCo2(status: Response, reply: Response) returns (value: bv32)
      requires Valid()
      modifies this
      ensures Valid()
      ensures trace == old(trace) + PollTransactions(status, reply)
      ensures Reading() == AfterPoll(old(Reading()), status, reply)
      ensures value == Reading().co2
    {
      Poll(status, reply);
      value := co2;
    }

    /** The latest temperature word (degrees Celsius on the sensor). */
    method GetTemperatureC(status: Response, reply: Response) returns (value: bv32)
      requires Valid()
      modifies this
      ensures Valid()
      ensures trace == old(trace) + PollTransactions(status, reply)
      ensures Reading() == AfterPoll(old(Reading()), status, reply)
      ensures value == Reading().temperature
    {
      Poll(status, reply);
      value := temperature;
    }

    /** The latest relative-humidity word. */
    method GetHumidity(status: Response, reply: Response) returns (value: bv32)
      requires Valid()
      modifies this
      ensures Valid()
      ensures trace == old(trace) + PollTransactions(status, reply)
      ensures Reading() == AfterPoll(old(Reading()), status, reply)
      ensures value == Reading().humidity
    {
      Poll(status, reply);
      value := humidity;
    }

    /** Starts continuous measurement with an ambient-pressure argument (0 switches
        pressure compensation off). */
    method BeginMeasuringWithPressure(pressure: bv16, ack: bool) returns (ok: bool)
      requires Valid()
      modifies this`trace
      ensures Valid() && ok == ack
      ensures trace == old(trace) + [Write(Defs.I2cAddress, ArgumentFrame(Defs.StartContinuousMeasurement, pressure))]
    {
      ok := SendCommandWithArgument(Defs.StartContinuousMeasurement, pressure, ack);
    }

    /** Starts continuous measurement without pressure compensation. */
    method BeginMeasuring(ack: bool) returns (ok: bool)
      requires Valid()
      modifies this`trace
      ensures Valid() && ok == ack
      ensures trace == old(trace) + [Write(Defs.I2cAddress, ArgumentFrame(Defs.StartContinuousMeasurement, 0))]
    {
      ok := BeginMeasuringWithPressure(0, ack);
    }

    /** Starts measuring and, only if the start was acknowledged, sets the default
        2-second interval; the result is the start command's. */
    method Begin(startAck: bool, intervalAck: bool) returns (ok: bool)
      requires Valid()
      modifies this`trace
      ensures Valid() && ok == startAck
      ensures trace == old(trace) + [Write(Defs.I2cAddress, ArgumentFrame(Defs.StartContinuousMeasurement, 0))]
        + if startAck then [Write(Defs.I2cAddress, ArgumentFrame(Defs.SetMeasurementInterval, 2))] else []
    {
      var started := BeginMeasuring(startAck);
      if started {
        SetMeasurementInterval(2, intervalAck);
        return true;
      }
      return false;
    }

    method StopMeasuring(ack: bool) returns (ok: bool)
      requires Valid()
      modifies this`trace
      ensures Valid() && ok == ack
      ensures trace == old(trace) + [Write(Defs.I2cAddress, CommandFrame(Defs.StopContinuousMeasurement))]
    {
      ok := SendCommand(Defs.StopContinuousMeasurement, ack);
    }

    method EnableAutomaticSelfCalibration(ack: bool)
      requires Valid()
      modifies this`trace
      ensures Valid()
      ensures trace == old(trace) + [Write(Defs.I2cAddress, ArgumentFrame(Defs.SetAutomaticSelfCalibration, 1))]
    {
      var _ := SendCommandWithArgument(Defs.SetAutomaticSelfCalibration, 1, ack);
    }

    method DisableAutomaticSelfCalibration(ack: bool)
      requires Valid()
      modifies this`trace
      ensures Valid()
      ensures trace == old(trace) + [Write(Defs.I2cAddress, ArgumentFrame(Defs.SetAutomaticSelfCalibration, 0))]
    {
      var _ := SendCommandWithArgument(Defs.SetAutomaticSelfCalibration, 0, ack);
    }

    /** Sends a forced-recalibration reference; a value outside 400..2000 ppm is
        dropped without any bus traffic. */
    method SetForcedRecalibrationValue(ppm: bv16, ack: bool)
      requires Valid()
      modifies this`trace
      ensures Valid()
      ensures trace == old(trace)
        + if ValidRecalibrationReference(ppm) then [Write(Defs.I2cAddress, ArgumentFrame(Defs.SetForcedRecalibration, ppm))] else []
    {
      if ppm < 400 || ppm > 2000 {
        return;
      }
      var _ := SendCommandWithArgument(Defs.SetForcedRecalibration, ppm, ack);
    }

    /** Sets the measurement interval, in seconds, unchecked. */
    method SetMeasurementInterval(seconds: bv16, ack: bool)
      requires Valid()
      modifies this`trace
      ensures Valid()
      ensures trace == old(trace) + [Write(Defs.I2cAddress, ArgumentFrame(Defs.SetMeasurementInterval, seconds))]
    {
      var _ := SendCommandWithArgument(Defs.SetMeasurementInterval, seconds, ack);
    }

    /** Sets the temperature offset, given in ticks of 0.01 degrees Celsius. */
    method SetTemperatureOffset(ticks: bv16, ack: bool)
      requires Valid()
      modifies this`trace
      ensures Valid()
      ensures trace == old(trace) + [Write(Defs.I2cAddress, ArgumentFrame(Defs.SetTemperatureOffset, ticks))]
    {
      var _ := SendCommandWithArgument(Defs.SetTemperatureOffset, ticks, ack);
    }

    /** Sets ambient pressure by restarting measurement with it: a value outside
        700..1200 mBar is sent as 0. */
    method SetAmbientPressure(mbar: bv16, ack: bool)
      requires Valid()
      modifies this`trace
      ensures Valid()
      ensures trace == old(trace)
        + [Write(Defs.I2cAddress, ArgumentFrame(Defs.StartContinuousMeasurement, AmbientPressureArgument(mbar)))]
    {
      var pressure := mbar;
      if pressure < 700 || pressure > 1200 {
        pressure := 0;
      }
      var _ := SendCommandWithArgument(Defs.StartContinuousMeasurement, pressure, ack);
    }

    /** Sets altitude compensation, in meters, unchecked. */
    method SetAltitudeCompensation(meters: bv16, ack: bool)
      requires Valid()
      modifies this`trace
      ensures Valid()
      ensures trace == old(trace) + [Write(Defs.I2cAddress, ArgumentFrame(Defs.SetAltitudeCompensation, meters))]
    {
      var _ := SendCommandWithArgument(Defs.SetAltitudeCompensation, meters, ack);
    }

    /** Reads the interval from the register its setter writes. */
    method GetMeasurementInterval(r: Response) returns (seconds: bv16)
      requires Valid()
      modifies this`trace
      ensures Valid() && seconds == RegisterValue(r)
      ensures trace == old(trace) + RegisterTransactions(Defs.SetMeasurementInterval, r)
    {
      seconds := ReadRegister(Defs.SetMeasurementInterval, r);
    }

    /** True exactly when the self-calibration register reads 1. */
    method GetAutomaticSelfCalibration(r: Response) returns (enabled: bool)
      requires Valid()
      modifies this`trace
      ensures Valid() && enabled == (RegisterValue(r) == 1)
      ensures trace == old(trace) + RegisterTransactions(Defs.SetAutomaticSelfCalibration, r)
    {
      var asc := ReadRegister(Defs.SetAutomaticSelfCalibration, r);
      enabled := asc == 1;
    }

    method GetForcedRecalibrationValue(r: Response) returns (ppm: bv16)
      requires Valid()
      modifies this`trace
      ensures Valid() && ppm == RegisterValue(r)
      ensures trace == old(trace) + RegisterTransactions(Defs.SetForcedRecalibration, r)
    {
      ppm := ReadRegister(Defs.SetForcedRecalibration, r);
    }

    method GetTemperatureOffset(r: Response) returns (ticks: bv16)
      requires Valid()
      modifies this`trace
      ensures Valid() && ticks == RegisterValue(r)
      ensures trace == old(trace) + RegisterTransactions(Defs.SetTemperatureOffset, r)
    {
      ticks := ReadRegister(Defs.SetTemperatureOffset, r);
    }

    method GetAltitudeCompensation(r: Response) returns (meters: bv16)
      requires Valid()
      modifies this`trace
      ensures Valid() && meters == RegisterValue(r)
      ensures trace == old(trace) + RegisterTransactions(Defs.SetAltitudeCompensation, r)
    {
      meters := ReadRegister(Defs.SetAltitudeCompensation, r);
    }

    /** The firmware version as (major, minor), split from its register. */
    method GetFirmwareVersion(r: Response) returns (major: bv8, minor: bv8)
      requires Valid()
      modifies this`trace
      ensures Valid() && (major, minor) == FirmwareVersion(RegisterValue(r))
      ensures Join16(major, minor) == RegisterValue(r)
      ensures trace == old(trace) + RegisterTransactions(Defs.ReadFirmwareVersion, r)
    {
      var versionData := ReadRegister(Defs.ReadFirmwareVersion, r);
      major := Hi(versionData);
      minor := Lo(versionData);
    }

    method SoftReset(ack: bool) returns (ok: bool)
      requires Valid()
      modifies this`trace
      ensures Valid() && ok == ack
      ensures trace == old(trace) + [Write(Defs.I2cAddress, CommandFrame(Defs.SoftReset))]
    {
      ok := SendCommand(Defs.SoftReset, ack);
    }
  }
}
