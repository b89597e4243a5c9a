/** The register-protocol layer of the MCP9600 driver: transfer-size checks,
    the byte layout of register reads and writes, the read-modify-write of the
    two configuration registers, and the temperature scaling. */
module Driver {
  import opened Registers
  import opened I2c

  /** A 16-bit register value from its two wire bytes, high byte first. */
  function Assemble16(hi: bv8, lo: bv8): (w: bv16)
    ensures (w >> 8) as bv8 == hi && (w & 0xFF) as bv8 == lo
  {
    (hi as bv16 << 8) | lo as bv16
  }

  /** A 16-bit value is its high byte times 256 plus its low byte. */
  lemma SplitValue(w: bv16)
    ensures w as int == ((w >> 8) as int) * 256 + (w & 0xFF) as int
  {
  }

  /** Narrowing a 16-bit value below 256 to a byte keeps its value. */
  lemma NarrowValue(x: bv16)
    requires x < 256
    ensures (x as bv8) as int == x as int
  {
  }

  /** As a number, the assembled value is hi * 256 + lo, so it lies in
      0..65535 and the first byte on the wire is the high byte. */
  lemma Assemble16Value(hi: bv8, lo: bv8)
    ensures Assemble16(hi, lo) as int == hi as int * 256 + lo as int
  {
    var w := Assemble16(hi, lo);
    SplitValue(w);
    NarrowValue(w >> 8);
    NarrowValue(w & 0xFF);
  }

  /** Splitting a 16-bit value into its high and low byte and assembling them
      again gives the value back, so every value in 0..65535 is reachable and
      the two bytes are determined by the result. */
  lemma Assemble16RoundTrip(w: bv16)
    ensures Assemble16((w >> 8) as bv8, (w & 0xFF) as bv8) == w
    ensures forall hi: bv8, lo: bv8 :: Assemble16(hi, lo) == w ==>
              hi == (w >> 8) as bv8 && lo == (w & 0xFF) as bv8
  {
  }

  /** Sensor-config byte written when setting the filter bits: the upper
      nibble of the previous value, OR'ed with `bits` without a range check. */
  function FilterBitsConfig(previous: bv8, bits: bv8): (r: bv8)
    ensures r & 0x0F == bits & 0x0F
    ensures r & 0xF0 == (previous | bits) & 0xF0
    ensures bits <= 0x0F ==> r & 0xF0 == previous & 0xF0 && r & 0x0F == bits
  {
    (previous & 0xF0) | bits
  }

  /** Out-of-range filter bits reach the thermocouple-type field: with
      `bits` = 0x10 a K-type setting (0x00) comes back as J-type (0x10). */
  lemma FilterBitsOverflowChangesType()
    ensures FilterBitsConfig(K.Encoding(), 0x10) & 0x70 == J.Encoding()
  {
  }

  /** When the preceding register read failed, the previous value is 0xFF,
      so the byte written sets bit 7 and selects type R whatever was stored. */
  lemma FilterBitsAfterFailedRead(bits: bv8)
    ensures FilterBitsConfig(0xFF, bits) & 0xF0 == 0xF0
    ensures FilterBitsConfig(0xFF, bits) & 0x70 == R.Encoding()
  {
  }

  /** Setting the type and then, after a successful read, an in-range filter
      setting leaves a sensor-config byte holding both: the type field is the
      type's encoding and the low nibble is the filter setting. In the other
      order the type write clears the filter bits. */
  lemma TypeThenFilter(t: ThermocoupleType, bits: bv8)
    requires bits <= 0x0F
    ensures FilterBitsConfig(t.Encoding(), bits) & 0x70 == t.Encoding()
    ensures FilterBitsConfig(t.Encoding(), bits) & 0x0F == bits
    ensures FilterBitsConfig(t.Encoding(), bits) & 0x80 == 0
  {
    TypeEncodingShape(t);
  }

  /** Device-config byte written when setting the ADC resolution: the previous
      value OR'ed with the resolution bits, which are never cleared. */
  function AdcResolutionConfig(previous: bv8, res: AdcResolution): (r: bv8)
    ensures r & previous == previous
    ensures r & 0x9F == previous & 0x9F
    ensures r & 0x60 == (previous & 0x60) | res.Encoding()
    ensures res == Res18 ==> r == previous
  {
    AdcEncodingShape(res);
    previous | (res.Encoding() & 0x60)
  }

  /** Setting the same resolution twice writes the same byte as setting it once. */
  lemma AdcResolutionIdempotent(previous: bv8, res: AdcResolution)
    ensures AdcResolutionConfig(AdcResolutionConfig(previous, res), res)
            == AdcResolutionConfig(previous, res)
  {
  }

  /** Once 12-bit resolution (both field bits) is stored, no call selects any
      other resolution: the field reads 12-bit afterwards. */
  lemma AdcResolutionSticky(previous: bv8, res: AdcResolution)
    requires previous & 0x60 == Res12.Encoding()
    ensures AdcResolutionConfig(previous, res) & 0x60 == Res12.Encoding()
  {
  }

  /** Degrees Celsius for a raw hot-junction value at 1/16 degree per count,
      the raw value read as unsigned. */
  function TemperatureFromRaw(raw: bv16): (celsius: real)
    ensures celsius * 16.0 == (raw as int) as real
    ensures 0.0 <= celsius <= 4095.9375
  {
    (raw as int) as real * 0.0625
  }

  /** The two's-complement reading of the same register, which the converter
      uses for temperatures below zero. */
  function SignedCelsius(raw: bv16): (celsius: real)
    ensures -2048.0 <= celsius < 2048.0
  {
    var n := raw as int;
    (if n >= 0x8000 then n - 0x10000 else n) as real / 16.0
  }

  /** The unsigned scaling agrees with the signed reading for raw values up
      to 0x7FFF and is 4096 degrees too high for every raw value from 0x8000. */
  lemma TemperatureVersusSigned(raw: bv16)
    ensures TemperatureFromRaw(raw) ==
            SignedCelsius(raw) + (if raw >= 0x8000 then 4096.0 else 0.0)
  {
  }

  /** Worked values: 0x0190 is 25 degrees and 0x0000 is 0 degrees; 0xFF38,
      -12.5 degrees as a signed value, scales to 4083.5 degrees. */
  lemma TemperatureExamples()
    ensures TemperatureFromRaw(0x0190) == 25.0
    ensures TemperatureFromRaw(0x0000) == 0.0
    ensures TemperatureFromRaw(0xFF38) == 4083.5 && SignedCelsius(0xFF38) == -12.5
  {
  }

  /** The value read8 returns: the device's reply when the transfer check
      for one pointer byte plus one data byte passes, the buffer's initial
      0xFF otherwise (the failure is only logged). */
  function Read8Result(file: seq<bv8>, reg: bv8, reported: int): (r: bv8)
    requires |file| == 256
    ensures Mcp9600.CheckTransferSize(1 + 1, reported) ==> r == Fetch(file, reg as int, 1)[0]
    ensures !Mcp9600.CheckTransferSize(1 + 1, reported) ==> r == 0xFF
  {
    if reported == 2 then file[reg as int] else 0xFF
  }

  /** On the modelled device, a successful register write followed by a
      successful read of the same register gives back the byte written, and
      leaves every other register as it was. */
  lemma WriteThenReadBack(file: seq<bv8>, reg: bv8, value: bv8, other: bv8)
    requires |file| == 256 && other != reg
    ensures Read8Result(Store(file, reg as int, [value]), reg, 2) == value
    ensures Store(file, reg as int, [value])[other as int] == file[other as int]
  {
    var r, o := reg as int, other as int;
    assert r != o;
    FetchAfterStore(file, r, [value]);
    StoreOutside(file, r, [value], o);
  }

  /** On the modelled device, a write to the sensor-config register leaves the
      device-config register unchanged, and the other way round. */
  lemma ConfigWritesIndependent(file: seq<bv8>, value: bv8)
    requires |file| == 256
    ensures Store(file, RegSensorConfig as int, [value])[RegDeviceConfig as int]
            == file[RegDeviceConfig as int]
    ensures Store(file, RegDeviceConfig as int, [value])[RegSensorConfig as int]
            == file[RegSensorConfig as int]
  {
    WriteThenReadBack(file, RegSensorConfig, value, RegDeviceConfig);
    WriteThenReadBack(file, RegDeviceConfig, value, RegSensorConfig);
  }

  /** One MCP9600 converter on an I2C interface. */
  class Mcp9600 {
    const id: int
    const address: nat
    const fd: Bus

    ghost predicate Valid()
      reads fd
    {
      fd.Valid()
    }

    /** Binds the driver to an interface and device address; `session` stands
        for the bus session that opening the interface yields. */
    constructor(id: int, address: nat, session: Bus)
      requires session.Valid()
      ensures Valid()
      ensures this.id == id && this.address == address && fd == session
    {
      this.id := id;
      this.address := address;
      fd := session;
    }

    /** Whether a transfer moved the expected number of bytes; a negative
        count is the platform's error return. */
    static function CheckTransferSize(expectedBytes: nat, actualBytes: int): (ok: bool)
      ensures ok <==> 0 <= actualBytes && actualBytes == expectedBytes
      ensures actualBytes < 0 ==> !ok
    {
      if actualBytes < 0 then false
      else if actualBytes != expectedBytes then false
      else true
    }

    /** Writes `value` to register `reg` with one two-byte bus write. */
    static method Write8(fd: Bus, address: nat, reg: bv8, value: bv8, reported: int)
      returns (ok: bool)
      requires fd.Valid()
      modifies fd
      ensures fd.Valid()
      ensures ok <==> reported == 2
      ensures fd.log == old(fd.log) + [Transfer.Write(address, [reg, value])]
      ensures fd.regs == if ok then old(fd.regs)[reg as int := value] else old(fd.regs)
    {
      var valueToWrite := new bv8[2];
      valueToWrite[0] := reg;
      valueToWrite[1] := value;
      assert valueToWrite[..] == [reg, value];
      var transferredBytes := fd.Write(address, valueToWrite[..], reported);
      if !CheckTransferSize(valueToWrite.Length, transferredBytes) {
        return false;
      }
      assert [reg, value][1..] == [value];
      return true;
    }

    /** Reads register `reg` with a write-then-read of one pointer byte and
        one data byte. A failed transfer is not reported: the result is then
        the buffer's initial 0xFF. */
    static method Read8(fd: Bus, address: nat, reg: bv8, reported: int) returns (value: bv8)
      requires fd.Valid()
      modifies fd`log
      ensures fd.Valid()
      ensures fd.log == old(fd.log) + [Transfer.WriteThenRead(address, [reg], 1)]
      ensures value == Read8Result(fd.regs, reg, reported)
    {
      var buffer := new bv8[1];
      buffer[0] := 0xFF;
      var transferredBytes := fd.WriteThenRead(address, [reg], buffer, reported);
      if !CheckTransferSize(1 + buffer.Length, transferredBytes) {
        // only logged; the caller receives whatever the buffer holds
      }
      value := buffer[0];
    }

    /** Reads the 16-bit register `reg` with a write-then-read of one pointer
        byte and two data bytes, assembled high byte first. `stale0` and
        `stale1` are the uninitialised contents of the receive buffer, which a
        failed transfer leaves in place and which are then returned. */
    static method Read16(fd: Bus, address: nat, reg: bv8, reported: int, stale0: bv8, stale1: bv8)
      returns (result: bv16)
      requires fd.Valid()
      modifies fd`log
      ensures fd.Valid()
      ensures fd.log == old(fd.log) + [Transfer.WriteThenRead(address, [reg], 2)]
      ensures reported == 3 ==>
                result == Assemble16(fd.regs[reg as int], fd.regs[Next(reg as int)])
      ensures reported != 3 ==> result == Assemble16(stale0, stale1)
    {
      var value := new bv8[2];
      value[0], value[1] := stale0, stale1;
      assert Fetch(fd.regs, reg as int, 2) == [fd.regs[reg as int], fd.regs[Next(reg as int)]];
      var transferredBytes := fd.WriteThenRead(address, [reg], value, reported);
      if !CheckTransferSize(1 + value.Length, transferredBytes) {
        // only logged; no sentinel replaces the buffer's contents
      }
      result := Assemble16(value[0], value[1]);
    }

    /** Writes the type's encoding as the whole sensor-config byte, with no
        read first and no masking, so the filter bits become 0. */
    method SetThermocoupleType(t: ThermocoupleType, reported: int) returns (ok: bool)
      requires Valid()
      modifies fd
      ensures Valid()
      ensures ok <==> reported == 2
      ensures fd.log == old(fd.log) + [Transfer.Write(address, [RegSensorConfig, t.Encoding()])]
      ensures fd.regs == if ok then old(fd.regs)[RegSensorConfig as int := t.Encoding()]
                         else old(fd.regs)
      ensures ok ==> (fd.regs[RegSensorConfig as int] & 0x70 == t.Encoding()
                      && fd.regs[RegSensorConfig as int] & 0x07 == 0)
    {
      TypeEncodingShape(t);
      var dataToWrite := t.Encoding();
      ok := Write8(fd, address, RegSensorConfig, dataToWrite, reported);
    }

    /** Stub: reports type K without reading the device (the function reads
        no state at all). */
    function GetThermocoupleType(): (t: ThermocoupleType)
      ensures t == K && t.Encoding() == 0
    {
      K
    }

    /** Read-modify-write of the sensor-config register: keep its upper
        nibble and OR in `bits`. The result of the write is returned; a failed
        read is not noticed and makes the previous value 0xFF. */
    method SetFilterBits(bits: bv8, readReported: int, writeReported: int) returns (ok: bool)
      requires Valid()
      modifies fd
      ensures Valid()
      ensures ok <==> writeReported == 2
      ensures var previous := Read8Result(old(fd.regs), RegSensorConfig, readReported);
              fd.log == old(fd.log) + [Transfer.WriteThenRead(address, [RegSensorConfig], 1),
                                       Transfer.Write(address, [RegSensorConfig, FilterBitsConfig(previous, bits)])]
              && fd.regs == if ok then old(fd.regs)[RegSensorConfig as int := FilterBitsConfig(previous, bits)]
                            else old(fd.regs)
    {
      var previousData := Read8(fd, address, RegSensorConfig, readReported);
      var dataToWrite := FilterBitsConfig(previousData, bits);
      ok := Write8(fd, address, RegSensorConfig, dataToWrite, writeReported);
    }

    /** Stub: reports filter setting 4 without reading the device. */
    function GetFilterBits(): (bits: bv8)
      ensures bits == 4
    {
      0x4
    }

    /** Read-modify-write of the device-config register: OR the resolution
        bits into the previous value. The result of the write is returned; a
        failed read is not noticed and makes the previous value 0xFF. */
    method SetAdcResolution(res: AdcResolution, readReported: int, writeReported: int)
      returns (ok: bool)
      requires Valid()
      modifies fd
      ensures Valid()
      ensures ok <==> writeReported == 2
      ensures var previous := Read8Result(old(fd.regs), RegDeviceConfig, readReported);
              fd.log == old(fd.log) + [Transfer.WriteThenRead(address, [RegDeviceConfig], 1),
                                       Transfer.Write(address, [RegDeviceConfig, AdcResolutionConfig(previous, res)])]
              && fd.regs == if ok then old(fd.regs)[RegDeviceConfig as int := AdcResolutionConfig(previous, res)]
                            else old(fd.regs)
    {
      var reg := RegDeviceConfig;
      var previousData := Read8(fd, address, reg, readReported);
      var dataToWrite := AdcResolutionConfig(previousData, res);
      ok := Write8(fd, address, reg, dataToWrite, writeReported);
    }

    /** Stub: reports 18-bit resolution without reading the device. */
    function GetAdcResolution(): (res: AdcResolution)
      ensures res == Res18 && res.Encoding() == 0
    {
      Res18
    }

    /** Reads the hot-junction register and scales it to degrees Celsius. */
    method GetTemperature(reported: int, stale0: bv8, stale1: bv8) returns (celsius: real)
      requires Valid()
      modifies fd`log
      ensures Valid()
      ensures fd.log == old(fd.log) + [Transfer.WriteThenRead(address, [RegHotJunction], 2)]
      ensures celsius == TemperatureFromRaw(
                if reported == 3 then Assemble16(fd.regs[RegHotJunction as int], fd.regs[1])
                else Assemble16(stale0, stale1))
      ensures 0.0 <= celsius <= 4095.9375
    {
      var reg := RegHotJunction;
      var tempBits := Read16(fd, address, reg, reported, stale0, stale1);
      celsius := TemperatureFromRaw(tempBits);
    }
  }

  /** The three getters ignore the device: a type, filter setting or
      resolution written through the matching setter is reported back only
      when it happens to be the stub's constant. */
  lemma StubGettersRoundTrip(d: Mcp9600, t: ThermocoupleType, bits: bv8, res: AdcResolution)
    ensures d.GetThermocoupleType() == t <==> t.Encoding() == 0
    ensures d.GetFilterBits() == bits <==> bits == 4
    ensures d.GetAdcResolution() == res <==> res.Encoding() == 0
  {
    TypeEncodingInjective(t, K);
    AdcEncodingInjective(res, Res18);
  }
}
