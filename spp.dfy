/**
 The user-space interface of the periodic SPI sampler: the control request
 structure `spp_conf` and the three ioctl command numbers, built with the
 Linux asm-generic `_IOC` encoding (nr in bits 0-7, type in bits 8-15, size in
 bits 16-29, direction in bits 30-31).
 */
module Spp {

  type u32 = bv32

  /** Signed and unsigned 64-bit integers (`__s64`, `__u64`). */
  type s64 = x: int | -0x8000_0000_0000_0000 <= x < 0x8000_0000_0000_0000
  type u64 = x: int | 0 <= x < 0x1_0000_0000_0000_0000

  // Field widths and positions of an ioctl command number.
  const IOC_NRBITS: u32 := 8
  const IOC_TYPEBITS: u32 := 8
  const IOC_SIZEBITS: u32 := 14
  const IOC_DIRBITS: u32 := 2

  const IOC_NRSHIFT: u32 := 0
  const IOC_TYPESHIFT: u32 := IOC_NRSHIFT + IOC_NRBITS
  const IOC_SIZESHIFT: u32 := IOC_TYPESHIFT + IOC_TYPEBITS
  const IOC_DIRSHIFT: u32 := IOC_SIZESHIFT + IOC_SIZEBITS

  const IOC_NRMASK: u32 := 0xFF
  const IOC_TYPEMASK: u32 := 0xFF
  const IOC_SIZEMASK: u32 := 0x3FFF
  const IOC_DIRMASK: u32 := 0x3

  // Transfer directions.
  const IOC_NONE: u32 := 0
  const IOC_WRITE: u32 := 1
  const IOC_READ: u32 := 2

  /** Whether each field fits in its slot of the command number. */
  predicate FieldsFit(dir: u32, typ: u32, nr: u32, size: u32) {
    dir <= IOC_DIRMASK && typ <= IOC_TYPEMASK && nr <= IOC_NRMASK && size <= IOC_SIZEMASK
  }

  function IocDir(cmd: u32): (d: u32)
    ensures d <= IOC_DIRMASK
  {
    (cmd >> IOC_DIRSHIFT) & IOC_DIRMASK
  }

  function IocType(cmd: u32): (t: u32)
    ensures t <= IOC_TYPEMASK
  {
    (cmd >> IOC_TYPESHIFT) & IOC_TYPEMASK
  }

  function IocNr(cmd: u32): (n: u32)
    ensures n <= IOC_NRMASK
  {
    (cmd >> IOC_NRSHIFT) & IOC_NRMASK
  }

  function IocSize(cmd: u32): (s: u32)
    ensures s <= IOC_SIZEMASK
  {
    (cmd >> IOC_SIZESHIFT) & IOC_SIZEMASK
  }

  /**
   `_IOC(dir, type, nr, size)`: packs the four fields into one command number.
   When every field fits its slot, the four decoders recover them, and the
   command number is determined by its fields.
   */
  function Ioc(dir: u32, typ: u32, nr: u32, size: u32): (cmd: u32)
    ensures FieldsFit(dir, typ, nr, size) ==>
      IocDir(cmd) == dir && IocType(cmd) == typ && IocNr(cmd) == nr && IocSize(cmd) == size
  {
    (dir << IOC_DIRSHIFT) | (typ << IOC_TYPESHIFT) | (nr << IOC_NRSHIFT) | (size << IOC_SIZESHIFT)
  }

  /** Every command number is the encoding of its own decoded fields. */
  lemma IocOfDecoded(cmd: u32)
    ensures Ioc(IocDir(cmd), IocType(cmd), IocNr(cmd), IocSize(cmd)) == cmd
  {
  }

  /** Two command numbers with the same four fields are the same number. */
  lemma IocInjective(d1: u32, t1: u32, n1: u32, s1: u32, d2: u32, t2: u32, n2: u32, s2: u32)
    requires FieldsFit(d1, t1, n1, s1) && FieldsFit(d2, t2, n2, s2)
    ensures Ioc(d1, t1, n1, s1) == Ioc(d2, t2, n2, s2) <==> (d1, t1, n1, s1) == (d2, t2, n2, s2)
  {
  }

  /** `_IO(type, nr)`: a command without an argument. */
  function Io(typ: u32, nr: u32): (cmd: u32)
    ensures typ <= IOC_TYPEMASK && nr <= IOC_NRMASK ==>
      IocDir(cmd) == IOC_NONE && IocType(cmd) == typ && IocNr(cmd) == nr && IocSize(cmd) == 0
  {
    Ioc(IOC_NONE, typ, nr, 0)
  }

  /** `_IOW(type, nr, T)`: a command that passes a `T` of `size` bytes to the driver. */
  function Iow(typ: u32, nr: u32, size: u32): (cmd: u32)
    ensures FieldsFit(IOC_WRITE, typ, nr, size) ==>
      IocDir(cmd) == IOC_WRITE && IocType(cmd) == typ && IocNr(cmd) == nr && IocSize(cmd) == size
  {
    Ioc(IOC_WRITE, typ, nr, size)
  }

  /** The C scalar types of the request structure. */
  datatype Scalar = S64 | U64

  function ScalarSize(t: Scalar): nat {
    match t
    case S64 => 8
    case U64 => 8
  }

  /**
   Size of a structure made of the given fields, laid out one after another.
   Every field is eight bytes wide and eight-byte aligned, so no padding is
   inserted and the size is eight bytes per field.
   */
  function StructSize(fields: seq<Scalar>): (n: nat)
    ensures n == 8 * |fields|
  {
    if fields == [] then 0 else StructSize(fields[..|fields| - 1]) + ScalarSize(fields[|fields| - 1])
  }

  /** Byte offset of field `i`: the size of the fields before it. */
  function Offset(fields: seq<Scalar>, i: nat): (off: nat)
    requires i < |fields|
    ensures off % 8 == 0 && off + ScalarSize(fields[i]) <= StructSize(fields)
  {
    StructSize(fields[..i])
  }

  /** `struct spp_conf { __s64 secs; __u64 nsecs; }`: the period requested by `SPPIOC_SPARAMS`. */
  datatype SppConf = SppConf(secs: s64, nsecs: u64)

  const SPP_CONF_FIELDS: seq<Scalar> := [S64, U64]

  /** `spp_conf` is 16 bytes: `secs` at offset 0 and `nsecs` at offset 8. */
  lemma SppConfLayout()
    ensures StructSize(SPP_CONF_FIELDS) == 16
    ensures Offset(SPP_CONF_FIELDS, 0) == 0 && Offset(SPP_CONF_FIELDS, 1) == 8
  {
    assert SPP_CONF_FIELDS[..0] == [];
    assert SPP_CONF_FIELDS[..1] == [S64];
  }

  /** `SPP_MAGIC`, the character `'\\'`. */
  const SPP_MAGIC: u32 := ('\\' as int) as u32

  const SPP_CONF_SIZE: u32 := StructSize(SPP_CONF_FIELDS) as u32

  const SPPIOC_START: u32 := Io(SPP_MAGIC, 1)
  const SPPIOC_STOP: u32 := Io(SPP_MAGIC, 2)
  const SPPIOC_SPARAMS: u32 := Iow(SPP_MAGIC, 3, SPP_CONF_SIZE)

  /** The magic type is byte 0x5c. */
  lemma MagicValue()
    ensures SPP_MAGIC == 0x5c
  {
  }

  /** The three commands are the numbers the user tool hard-codes. */
  lemma CommandNumbers()
    ensures SPPIOC_START == 0x5c01
    ensures SPPIOC_STOP == 0x5c02
    ensures SPPIOC_SPARAMS == 0x40105c03
  {
    SppConfLayout();
    MagicValue();
  }

  /** Decoding each command recovers its magic type, its number and its direction and size. */
  lemma CommandFields()
    ensures IocType(SPPIOC_START) == SPP_MAGIC && IocNr(SPPIOC_START) == 1
    ensures IocDir(SPPIOC_START) == IOC_NONE && IocSize(SPPIOC_START) == 0
    ensures IocType(SPPIOC_STOP) == SPP_MAGIC && IocNr(SPPIOC_STOP) == 2
    ensures IocDir(SPPIOC_STOP) == IOC_NONE && IocSize(SPPIOC_STOP) == 0
    ensures IocType(SPPIOC_SPARAMS) == SPP_MAGIC && IocNr(SPPIOC_SPARAMS) == 3
    ensures IocDir(SPPIOC_SPARAMS) == IOC_WRITE && IocSize(SPPIOC_SPARAMS) == 16
  {
    SppConfLayout();
    MagicValue();
  }

  /** The commands are pairwise distinct, so a switch on them selects at most one case. */
  lemma CommandsDistinct()
    ensures SPPIOC_START != SPPIOC_STOP
    ensures SPPIOC_START != SPPIOC_SPARAMS
    ensures SPPIOC_STOP != SPPIOC_SPARAMS
  {
    CommandFields();
  }
}
