/** Bus address and command op-codes of the Sensirion SCD30 over I2C, as the
    driver header defines them (sections 1.4.1 to 1.4.9 of the Sensirion SCD30
    Interface Description). */
module Scd30Defs {

  /** Default 7-bit I2C address of the sensor. */
  const I2cAddress: bv8 := 0x61

  const StartContinuousMeasurement: bv16 := 0x0010
  const StopContinuousMeasurement: bv16 := 0x0104
  const SetMeasurementInterval: bv16 := 0x4600
  const GetReadyStatus: bv16 := 0x0202
  const ReadMeasurement: bv16 := 0x0300
  const SetAutomaticSelfCalibration: bv16 := 0x5306
  const SetForcedRecalibration: bv16 := 0x5204
  const SetTemperatureOffset: bv16 := 0x5403
  const SetAltitudeCompensation: bv16 := 0x5102
  const ReadFirmwareVersion: bv16 := 0xD100
  const SoftReset: bv16 := 0xD304

  /** The command set, in the order the header lists it. */
  const Commands: seq<bv16> := [
    StartContinuousMeasurement, StopContinuousMeasurement, SetMeasurementInterval,
    GetReadyStatus, ReadMeasurement, SetAutomaticSelfCalibration, SetForcedRecalibration,
    SetTemperatureOffset, SetAltitudeCompensation, ReadFirmwareVersion, SoftReset
  ]

  /** No two commands share an op-code, so the sensor can tell every command apart. */
  lemma CommandsDistinct()
    ensures |Commands| == 11
    ensures forall i, j :: 0 <= i < j < |Commands| ==> Commands[i] != Commands[j]
  {
  }

  /** The address fits the 7 address bits of an I2C address byte. */
  lemma AddressIsSevenBit()
    ensures I2cAddress < 0x80
  {
  }
}
