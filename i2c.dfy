/** The I2C bus session the driver talks through, and the converter behind it.
    The platform's transfer calls are external to the driver: here a call takes
    the byte count the platform reports (negative for an error) as a parameter,
    records what went on the wire, and lets the device act only when the whole
    transfer went through. */
module I2c {

  /** One bus transaction as it appears on the wire. */
  datatype Transfer =
    | Write(address: nat, bytes: seq<bv8>)
    | WriteThenRead(address: nat, written: seq<bv8>, readLength: nat)

  /** A position of the device's register pointer. */
  type Pointer = p: int | 0 <= p < 256

  /** The pointer after one byte has been transferred: it advances and wraps
      around the 256 register addresses. */
  function Next(p: Pointer): Pointer
  {
    if p == 255 then 0 else p + 1
  }

  /** How many bytes a transfer starting at `p` passes before it reaches `i`. */
  function Distance(p: Pointer, i: Pointer): (d: nat)
    ensures d < 256 && (d == 0 <==> p == i)
  {
    if p <= i then i - p else i - p + 256
  }

  /** Register file after the device receives `data` with its register
      pointer at `p`: each byte goes to the pointer, which then advances. */
  function Store(file: seq<bv8>, p: Pointer, data: seq<bv8>): (r: seq<bv8>)
    requires |file| == 256
    ensures |r| == 256
    decreases |data|
  {
    if data == [] then file
    else Store(file[p := data[0]], Next(p), data[1..])
  }

  /** The `n` bytes the device sends back when read with its pointer at `p`. */
  function Fetch(file: seq<bv8>, p: Pointer, n: nat): (r: seq<bv8>)
    requires |file| == 256
    ensures |r| == n
    ensures n > 0 ==> r[0] == file[p]
    decreases n
  {
    if n == 0 then [] else [file[p]] + Fetch(file, Next(p), n - 1)
  }

  /** A write starting at `p` leaves every register the pointer does not
      reach unchanged. */
  lemma {:induction false} StoreOutside(file: seq<bv8>, p: Pointer, data: seq<bv8>, i: Pointer)
    requires |file| == 256 && |data| <= Distance(p, i)
    ensures Store(file, p, data)[i] == file[i]
    decreases |data|
  {
    if data != [] {
      StoreOutside(file[p := data[0]], Next(p), data[1..], i);
    }
  }

  /** Reading back, from the same pointer, at most 256 bytes just written
      returns exactly those bytes. */
  lemma {:induction false} FetchAfterStore(file: seq<bv8>, p: Pointer, data: seq<bv8>)
    requires |file| == 256 && |data| <= 256
    ensures Fetch(Store(file, p, data), p, |data|) == data
    decreases |data|
  {
    if data != [] {
      var file' := file[p := data[0]];
      FetchAfterStore(file', Next(p), data[1..]);
      StoreOutside(file', Next(p), data[1..], p);
    }
  }

  /** An open bus session (the driver's file descriptor) together with the
      register file of the device on the other end and a transcript of every
      transfer issued through it. */
  class Bus {
    var regs: seq<bv8>
    ghost var log: seq<Transfer>

    ghost predicate Valid()
      reads this
    {
      |regs| == 256
    }

    constructor(initial: seq<bv8>)
      requires |initial| == 256
      ensures Valid() && regs == initial && log == []
    {
      regs := initial;
      log := [];
    }

    /** A plain write of `bytes`: the first byte sets the device's register
        pointer, the rest are stored from there on. */
    method Write(address: nat, bytes: seq<bv8>, reported: int) returns (transferred: int)
      requires Valid()
      modifies this
      ensures Valid() && transferred == reported
      ensures log == old(log) + [Transfer.Write(address, bytes)]
      ensures regs == if reported == |bytes| && |bytes| >= 1
                      then Store(old(regs), bytes[0] as int, bytes[1..])
                      else old(regs)
    {
      log := log + [Transfer.Write(address, bytes)];
      if reported == |bytes| && |bytes| >= 1 {
        regs := Store(regs, bytes[0] as int, bytes[1..]);
      }
      transferred := reported;
    }

    /** A combined transfer: write the one-byte register pointer, then read
        `buf.Length` bytes into `buf` without releasing the bus. The buffer is
        filled only when the reported count covers both phases. */
    method WriteThenRead(address: nat, written: seq<bv8>, buf: array<bv8>, reported: int)
      returns (transferred: int)
      requires Valid() && |written| == 1
      modifies this`log, buf
      ensures Valid() && transferred == reported
      ensures log == old(log) + [Transfer.WriteThenRead(address, written, buf.Length)]
      ensures buf[..] == if reported == |written| + buf.Length
                         then Fetch(regs, written[0] as int, buf.Length)
                         else old(buf[..])
    {
      log := log + [Transfer.WriteThenRead(address, written, buf.Length)];
      if reported == |written| + buf.Length {
        var reply := Fetch(regs, written[0] as int, buf.Length);
        forall k | 0 <= k < buf.Length {
          buf[k] := reply[k];
        }
      }
      transferred := reported;
    }
  }
}
