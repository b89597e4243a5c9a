# MCP9600 thermocouple driver: register-protocol model

A Dafny model of the register-protocol layer of the Azure Sphere driver for the
MCP9600 thermocouple-to-digital converter: class `CMcp9600` in `mcp9600.cpp` and
its constants in `mcp9600.h`. It covers

- the transfer-size check applied after every bus transfer;
- the byte layout of register writes (`[reg, value]`) and of register reads
  (a one-byte pointer write followed by a one- or two-byte read, the 16-bit
  value assembled high byte first);
- the read-modify-write of the sensor-config register (thermocouple type,
  filter bits) and of the device-config register (ADC resolution);
- the scaling of the hot-junction register to degrees Celsius;
- the register map and the bit-field encodings of the header.

Files:

- `registers.dfy`, module `Registers`: the header's register addresses, device
  address and the `MCP9600_TYPE` / `MCP9600_ADC_RES` encodings as datatypes
  with their `k << 4` and `r << 5` encodings, and lemmas about them.
- `i2c.dfy`, module `I2c`: the bus session the driver's `_fd` names, with the
  converter behind it. The platform calls `I2CMaster_Write` and
  `I2CMaster_WriteThenRead` become methods of class `Bus` that take the byte
  count the platform reports (negative for an error) as a parameter. Each call
  appends the transfer to a ghost transcript (`log`), kept only so that
  contracts can say what went on the wire. The device owns a 256-byte
  register file (`regs`), and it acts only when the reported count covers the
  whole transfer. A write stores its data bytes from the register pointer on,
  and a read returns bytes from the pointer on; the pointer wraps at 256. On
  any other count the register file and the receive buffer are left as they were.
- `driver.dfy`, module `Driver`: class `Mcp9600` (the source's `CMcp9600`).
  It has the static `CheckTransferSize`, `Write8`, `Read8` and `Read16`, and
  the setters, stub getters and `GetTemperature`. The pure parts are functions:
  the big-endian assembly, the masks of the setters and the temperature scaling.

Bytes are `bv8`, the 16-bit register value is `bv16`. The temperature is the
exact real `raw / 16`. A 16-bit integer times 0.0625 is exactly representable
in single precision, so the source's `float` arithmetic computes that value
too.

The setters take one reported count per bus transfer they issue, so every
combination of success and failure is covered. `Read16` takes the two
uninitialised bytes of its receive buffer as parameters (`stale0`, `stale1`).
A failed read returns them.

### Behaviour of the code worth knowing

The model follows the code in each case:

- `getTemperature` reads the raw hot-junction value as unsigned: it converts
  the `uint16_t` to `float`. The MCP9600 datasheet cited at mcp9600.h:18-19
  gives that register in two's complement. So raw `0xFF38` gives 4083.5 °C,
  not −12.5 °C. `TemperatureVersusSigned` states the offset exactly.
- `read16` does not initialise its receive buffer, so after a failed transfer
  it returns whatever that buffer held. `read8` returns its initial `0xFF`.
- `setThermocoupleType` writes the encoding as the whole byte, with no read
  and no mask, so it clears the filter bits.
- `setFilterBits` ORs the whole argument in without truncating it to three
  bits, so bits 4-7 of the argument reach the upper nibble: bits 4-6 change
  the type field and bit 7 sets register bit 7.
- `setAdcResolution` only ORs bits in, so a resolution field can never be
  lowered.
- The three getters are stubs that return constants. Set/get round trips hold
  only for those constants (`StubGettersRoundTrip`).

## Model

| member | source | states |
|---|---|---|
| `Registers.RegisterMapDistinct` | mcp9600.h:23-43 | the twenty register addresses are pairwise distinct bytes and the device address 0x67 fits in 7 bits |
| `Registers.ConfigRegistersDistinct` | mcp9600.h:24-30 | sensor-config (0x05), device-config (0x06) and hot-junction (0x00) are different addresses |
| `Registers.ThermocoupleType.Index` | mcp9600.h:45-54 | each of the eight `MCP9600_TYPE` enumerators K, J, T, N, S, E, B, R has its number k, in 0..7 |
| `Registers.ThermocoupleType.Encoding` | mcp9600.h:45-54 | the enumerator's value `k << 4` sets no bit outside the type field 6-4 |
| `Registers.TypeEncodingShape` | mcp9600.h:45-54 | each thermocouple-type encoding is k*16 for its k in 0..7: low nibble zero, inside mask 0x70 |
| `Registers.TypeEncodingInjective` | mcp9600.h:45-54 | two types have the same encoding iff they are the same type |
| `Registers.TypeFieldCovered` | mcp9600.h:45-54 | every byte with bits only in field 6-4 is the value of some type enumerator, so the eight enumerators cover the field exactly |
| `Registers.AdcResolution.Index` | mcp9600.h:56-61 | each of the four `MCP9600_ADC_RES` enumerators 18, 16, 14, 12 has its number r, in 0..3 |
| `Registers.AdcResolution.Encoding` | mcp9600.h:56-61 | the enumerator's value `r << 5` sets no bit outside the resolution field 6-5 |
| `Registers.AdcEncodingShape` | mcp9600.h:56-61 | each resolution encoding is r*32 for its r in 0..3, so `& 0x60` is the identity on it and only 18-bit encodes as 0 |
| `Registers.AdcEncodingInjective` | mcp9600.h:56-61 | two resolutions have the same encoding iff they are the same resolution |
| `Registers.AdcFieldCovered` | mcp9600.h:56-61 | every byte with bits only in field 6-5 is the value of some resolution enumerator |
| `Driver.Mcp9600.constructor` | mcp9600.cpp:7-12 | stores the interface id and device address; the bus session is supplied here instead of by `mcp9600_begin` |
| `Driver.Mcp9600.CheckTransferSize` | mcp9600.cpp:67-78 | true exactly when the count is non-negative and equals the expected count; every negative count fails |
| `Driver.Mcp9600.Write8` | mcp9600.cpp:17-30 | issues exactly one write whose buffer is `[reg, value]`; succeeds iff the reported count is 2; on success only register `reg` changes, to `value`; on failure no register changes |
| `Driver.Mcp9600.Read8` | mcp9600.cpp:35-44 | issues one write-then-read of pointer `[reg]` and one byte; returns the register's byte when the reported count is 2, else the initial 0xFF; the failure is not reported; no register changes |
| `Driver.Read8Result` | mcp9600.cpp:37-43 | read8's result is the device's reply when the transfer check for 1 + 1 bytes passes, and the buffer's initial 0xFF when it fails |
| `Driver.Mcp9600.Read16` | mcp9600.cpp:50-62 | issues one write-then-read of pointer `[reg]` and two bytes; with a reported count of 3 returns the two bytes from the pointer on, high byte first; otherwise returns the uninitialised buffer's bytes assembled the same way |
| `Driver.Assemble16` | mcp9600.cpp:58-61 | the high byte of the result is the first byte read and the low byte the second |
| `Driver.Assemble16Value` | mcp9600.cpp:58-61 | as a number the result is `value[0]*256 + value[1]` |
| `Driver.Assemble16RoundTrip` | mcp9600.cpp:58-61 | splitting any 16-bit value into bytes and assembling them gives it back, and the bytes are determined by the value |
| `Driver.Mcp9600.SetThermocoupleType` | mcp9600.cpp:120-128 | no read; writes the type's encoding itself to register 0x05; returns exactly the write's result; on success the type field holds the encoding and the filter bits are 0; no other register changes |
| `Driver.Mcp9600.GetThermocoupleType` | mcp9600.cpp:130-133 | returns type K without touching the device |
| `Driver.Mcp9600.SetFilterBits` | mcp9600.cpp:138-146 | reads register 0x05 (0xFF if that read fails, unnoticed), writes `FilterBitsConfig` of it to 0x05, returns only the write's result; no other register changes |
| `Driver.FilterBitsConfig` | mcp9600.cpp:140 | low nibble of the result is that of `bits`, upper nibble is that of `previous OR bits`; for `bits <= 0x0F` bits 7-4 are preserved and the low nibble equals `bits` |
| `Driver.FilterBitsOverflowChangesType` | mcp9600.cpp:140 | with no range check, `bits = 0x10` turns a stored type K into type J |
| `Driver.FilterBitsAfterFailedRead` | mcp9600.cpp:139-140 | after a failed read, when `read8` returns its initial 0xFF (mcp9600.cpp:37), the byte written has bits 7-4 set, so the type field reads R whatever was stored |
| `Driver.TypeThenFilter` | mcp9600.cpp:122 | setting a type and then an in-range filter value (with a successful read) leaves both fields as set and bit 7 clear |
| `Driver.Mcp9600.GetFilterBits` | mcp9600.cpp:148-150 | returns 4 without touching the device |
| `Driver.Mcp9600.SetAdcResolution` | mcp9600.cpp:155-165 | reads register 0x06 (0xFF if that read fails, unnoticed), writes `AdcResolutionConfig` of it to 0x06, returns only the write's result; no other register changes |
| `Driver.AdcResolutionConfig` | mcp9600.cpp:159 | every bit set before stays set, bits outside 6-5 are unchanged, the field becomes the old field OR the encoding, and 18-bit leaves the byte unchanged |
| `Driver.AdcResolutionIdempotent` | mcp9600.cpp:159 | a repeated call with the same resolution writes the same byte as one call |
| `Driver.AdcResolutionSticky` | mcp9600.cpp:159 | once the field holds 12-bit, every later call leaves it at 12-bit |
| `Driver.Mcp9600.GetAdcResolution` | mcp9600.cpp:167-170 | returns 18-bit without touching the device |
| `Driver.StubGettersRoundTrip` | mcp9600.cpp:130-170 | a value written by a setter is reported back by its getter exactly when it equals the stub's constant (K, 4, 18-bit) |
| `Driver.Mcp9600.GetTemperature` | mcp9600.cpp:176-184 | reads register 0x00 through `Read16` (three bytes expected) and returns the raw value read as unsigned divided by 16, in [0, 4095.9375] |
| `Driver.TemperatureFromRaw` | mcp9600.cpp:180-182 | the result times 16 is the raw value read as unsigned, so it lies in [0, 4095.9375] |
| `Driver.TemperatureVersusSigned` | mcp9600.cpp:180-182 | the unsigned reading equals the two's-complement reading below 0x8000 and is 4096 °C higher from 0x8000 on |
| `Driver.TemperatureExamples` | mcp9600.cpp:180-182 | 0x0190 gives 25 °C, 0x0000 gives 0 °C, 0xFF38 gives 4083.5 °C (−12.5 °C as signed) |
| `Driver.WriteThenReadBack` | mcp9600.cpp:17-44 | a fact of the assumed device, not a promise of the driver: on the flat register file, the byte `write8` stores at `reg` is what a successful `read8` of `reg` returns, and no other cell changes |
| `Driver.ConfigWritesIndependent` | mcp9600.cpp:123 | a fact of the assumed device: a `write8` to cell 0x05 leaves cell 0x06 unchanged, and the other way round |
| `I2c.Bus.Write` | mcp9600.cpp:23 | the platform write as assumed here: logs the transfer, stores the data bytes from the pointer on only when the reported count equals the buffer length |
| `I2c.Bus.WriteThenRead` | mcp9600.cpp:38 | the platform write-then-read as assumed here: logs the transfer, fills the buffer from the pointer on only when the reported count covers both phases, never changes registers |

The device model also carries two lemmas of its own, about writes of any
length through `I2c.Bus.Write`. `I2c.StoreOutside` says a write leaves every
register its pointer does not reach unchanged. `I2c.FetchAfterStore` says that
reading back up to 256 bytes just written from the same pointer returns them.
They cover multi-byte writes, which this driver never issues: `write8` stores
one byte, for which `Driver.WriteThenReadBack` holds without them.

## Left out

- `mcp9600_begin` (mcp9600.cpp:96-114): opening the interface, setting the bus speed and the 100 ms timeout are platform I/O. The constructor receives the open session instead.
- The destructor's `close(_fd)` (mcp9600.cpp:187-190): releasing a platform handle.
- `Log_Debug`, `errno` and `strerror` diagnostics: logging with no effect on state or results.
- `float` arithmetic in `getTemperature`: modelled as the exact real raw/16, which single precision represents exactly for 16-bit inputs.
- The commented-out former `read16` (mcp9600.cpp:80-91): dead code.
- examples/thermometer/main.cpp: an application loop with `nanosleep`, a float Fahrenheit conversion and a `__cxa_pure_virtual` stub.
- The header declares `setFilterCoefficients`/`getFilterCoefficients` and `const` getters (mcp9600.h:68-73). The definitions in mcp9600.cpp are `setFilterBits`/`getFilterBits` without `const`, and the model follows the definitions.
- `I2c.Bus`: the chip's real register layout is not modelled. The device is a flat file of 256 one-byte cells whose pointer advances after each byte. The real chip has 16-bit registers (hot junction, delta, cold junction, alert limits), read-only registers (temperatures, status, device ID), and its own rule for what a read past the end of a register returns. In the model, the second byte of the hot-junction read is cell 0x01, and writes to read-only registers take effect.
- `Registers.ThermocoupleType`, `Registers.AdcResolution`: only the enumerator values are modelled. `MCP9600_TYPE` has underlying type `uint8_t` (mcp9600.h:45), so C++ callers could pass any byte to `setThermocoupleType`, which would write it unmasked. For `MCP9600_ADC_RES` the `& 0x60` at mcp9600.cpp:159 matters only for a value that is not an enumerator.
- Device addressing: the modelled device answers whatever address a transfer carries. The address is only recorded in the transcript.
- Partial transfers: when the platform reports a short count, the model assumes the device did not act on the transfer. What a real device does with a partly transferred write is not modelled.
- `I2C_InterfaceId` and `I2C_DeviceAddress` are modelled as unbounded integers. The driver only passes them through.
