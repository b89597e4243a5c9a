/** Register map and bit-field encodings of the MCP9600 thermocouple-to-digital
    converter, as the driver's header declares them. Every constant is one byte. */
module Registers {

  /** 7-bit I2C address of the converter. */
  const DeviceAddr: bv8 := 0x67

  const RegHotJunction: bv8 := 0x00
  const RegTempDelta: bv8 := 0x01
  const RegColdJunction: bv8 := 0x02
  const RegRawAdc: bv8 := 0x03
  const RegStatus: bv8 := 0x04
  const RegSensorConfig: bv8 := 0x05
  const RegDeviceConfig: bv8 := 0x06
  const RegAlert1Config: bv8 := 0x08
  const RegAlert2Config: bv8 := 0x09
  const RegAlert3Config: bv8 := 0x0A
  const RegAlert4Config: bv8 := 0x0B
  const RegAlert1Hyst: bv8 := 0x0C
  const RegAlert2Hyst: bv8 := 0x0D
  const RegAlert3Hyst: bv8 := 0x0E
  const RegAlert4Hyst: bv8 := 0x0F
  const RegTAlert1: bv8 := 0x10
  const RegTAlert2: bv8 := 0x11
  const RegTAlert3: bv8 := 0x12
  const RegTAlert4: bv8 := 0x13
  const RegDeviceId: bv8 := 0x20

  /** Every register address the header names, in declaration order. */
  const RegisterMap: seq<bv8> := [
    RegHotJunction, RegTempDelta, RegColdJunction, RegRawAdc, RegStatus,
    RegSensorConfig, RegDeviceConfig,
    RegAlert1Config, RegAlert2Config, RegAlert3Config, RegAlert4Config,
    RegAlert1Hyst, RegAlert2Hyst, RegAlert3Hyst, RegAlert4Hyst,
    RegTAlert1, RegTAlert2, RegTAlert3, RegTAlert4,
    RegDeviceId
  ]

  /** The twenty register addresses are pairwise distinct and the device
      address fits in seven bits. */
  lemma RegisterMapDistinct()
    ensures |RegisterMap| == 20
    ensures forall i, j :: 0 <= i < j < |RegisterMap| ==> RegisterMap[i] != RegisterMap[j]
    ensures DeviceAddr < 0x80
  {
  }

  /** The two configuration registers the driver rewrites are different
      addresses, so a write to one is never a write to the other. */
  lemma ConfigRegistersDistinct()
    ensures RegSensorConfig != RegDeviceConfig
    ensures RegSensorConfig != RegHotJunction && RegDeviceConfig != RegHotJunction
  {
  }

  /** Thermocouple type, stored in bits 6-4 of the sensor-config register. */
  datatype ThermocoupleType = K | J | T | N | S | E | B | R {

    /** The type's number k: the field value before it is shifted into place. */
    function Index(): (k: nat)
      ensures k < 8
    {
      match this
      case K => 0
      case J => 1
      case T => 2
      case N => 3
      case S => 4
      case E => 5
      case B => 6
      case R => 7
    }

    /** The register byte for this type: k << 4, which sets no bit outside
        the type field 6-4. */
    function Encoding(): (e: bv8)
      ensures e & 0x8F == 0
    {
      (Index() as bv8) << 4
    }
  }

  /** Each type encoding is k * 16 for its k in 0..7: its low nibble is zero,
      it lies inside the type mask 0x70, and it fits the field exactly. */
  lemma TypeEncodingShape(t: ThermocoupleType)
    ensures t.Encoding() as int == t.Index() * 16
    ensures t.Encoding() & 0x0F == 0
    ensures t.Encoding() & 0x70 == t.Encoding()
  {
  }

  /** Distinct types have distinct encodings. */
  lemma TypeEncodingInjective(t1: ThermocoupleType, t2: ThermocoupleType)
    ensures t1.Encoding() == t2.Encoding() <==> t1 == t2
  {
    TypeEncodingShape(t1);
    TypeEncodingShape(t2);
  }

  /** Every byte with bits only in the type field is the encoding of some
      type, so with injectivity the eight types cover the field exactly. */
  lemma TypeFieldCovered(v: bv8)
    requires v & 0x8F == 0
    ensures exists t: ThermocoupleType :: t.Encoding() == v
  {
    if v == 0x00 { assert K.Encoding() == v; }
    else if v == 0x10 { assert J.Encoding() == v; }
    else if v == 0x20 { assert T.Encoding() == v; }
    else if v == 0x30 { assert N.Encoding() == v; }
    else if v == 0x40 { assert S.Encoding() == v; }
    else if v == 0x50 { assert E.Encoding() == v; }
    else if v == 0x60 { assert B.Encoding() == v; }
    else { assert R.Encoding() == v; }
  }

  /** ADC resolution, stored in bits 6-5 of the device-config register. */
  datatype AdcResolution = Res18 | Res16 | Res14 | Res12 {

    /** The resolution's number r: the field value before it is shifted into place. */
    function Index(): (r: nat)
      ensures r < 4
    {
      match this
      case Res18 => 0
      case Res16 => 1
      case Res14 => 2
      case Res12 => 3
    }

    /** The register bits for this resolution: r << 5, which sets no bit
        outside the resolution field 6-5. */
    function Encoding(): (e: bv8)
      ensures e & 0x9F == 0
    {
      (Index() as bv8) << 5
    }
  }

  /** Each resolution encoding is r * 32 for its r in 0..3, so masking it with
      0x60 leaves it unchanged; 18-bit resolution is encoded as 0. */
  lemma AdcEncodingShape(res: AdcResolution)
    ensures res.Encoding() as int == res.Index() * 32
    ensures res.Encoding() & 0x60 == res.Encoding()
    ensures res.Encoding() & 0x9F == 0
    ensures res.Encoding() == 0 <==> res == Res18
  {
  }

  /** Distinct resolutions have distinct encodings. */
  lemma AdcEncodingInjective(r1: AdcResolution, r2: AdcResolution)
    ensures r1.Encoding() == r2.Encoding() <==> r1 == r2
  {
    AdcEncodingShape(r1);
    AdcEncodingShape(r2);
  }

  /** Every byte with bits only in the resolution field is the encoding of
      some resolution, so the four resolutions cover the field exactly. */
  lemma AdcFieldCovered(v: bv8)
    requires v & 0x9F == 0
    ensures exists r: AdcResolution :: r.Encoding() == v
  {
    if v == 0x00 { assert Res18.Encoding() == v; }
    else if v == 0x20 { assert Res16.Encoding() == v; }
    else if v == 0x40 { assert Res14.Encoding() == v; }
    else { assert Res12.Encoding() == v; }
  }
}
