/**
 * The pure part of idt.c: the byte layout of a gate descriptor, the
 * per-mode reconstruction of its stub address, the DPL and gate-type
 * switches, get_segment, the decoding of the IDTR image that SIDT stores
 * (get_addr_idt, get_size_idt) and the address patch of the restore path.
 */
module Descriptors {
  import opened Global
  import LE = LittleEndian

  /* ---------------------------------------------------------------- */
  /* Byte layout of the packed record                                 */
  /* ---------------------------------------------------------------- */

  function U16Bytes(v: uint16): (s: seq<uint8>)
    ensures |s| == 2 && LE.Decode(s) == v
  {
    LE.Pow256Values();
    LE.DecodeEncode(v, 2);
    LE.Encode(v, 2)
  }

  function U32Bytes(v: uint32): (s: seq<uint8>)
    ensures |s| == 4 && LE.Decode(s) == v
  {
    LE.Pow256Values();
    LE.DecodeEncode(v, 4);
    LE.Encode(v, 4)
  }

  function U64Bytes(v: uint64): (s: seq<uint8>)
    ensures |s| == 8 && LE.Decode(s) == v
  {
    LE.Pow256Values();
    LE.DecodeEncode(v, 8);
    LE.Encode(v, 8)
  }

  /**
   * The 16 bytes of struct descriptor_idt as it lies in memory or in an
   * archive file: offset_low [0,2), seg_selector [2,4), reserved [4],
   * flag [5], offset_middle [6,8), offset_high [8,12), reserved2 [12,16).
   */
  function EncodeDescriptor(d: Descriptor): (b: seq<uint8>)
    ensures |b| == DESCRIPTOR_SIZE
  {
    U16Bytes(d.offsetLow) + U16Bytes(d.segSelector) + [d.reserved, d.flag]
      + U16Bytes(d.offsetMiddle) + U32Bytes(d.offsetHigh) + U32Bytes(d.reserved2)
  }

  /** Where each field lies in the encoded record. */
  lemma EncodeLayout(d: Descriptor)
    ensures var b := EncodeDescriptor(d);
      && |b| == DESCRIPTOR_SIZE && b[0..2] == U16Bytes(d.offsetLow) && b[2..4] == U16Bytes(d.segSelector)
      && b[4] == d.reserved && b[5] == d.flag
      && b[6..8] == U16Bytes(d.offsetMiddle) && b[8..12] == U32Bytes(d.offsetHigh)
      && b[12..16] == U32Bytes(d.reserved2)
  {
    var p1, p2, p3 := U16Bytes(d.offsetLow), U16Bytes(d.segSelector), [d.reserved, d.flag];
    var p4, p5, p6 := U16Bytes(d.offsetMiddle), U32Bytes(d.offsetHigh), U32Bytes(d.reserved2);
    var q := p1 + p2 + p3 + p4 + p5;
    var b := q + p6;
    assert b == EncodeDescriptor(d);
    assert b[12..16] == p6;
    assert b[..12] == q;
    var r := p1 + p2 + p3 + p4;
    assert q == r + p5;
    assert q[8..12] == p5 && q[..8] == r;
    assert r == (p1 + p2 + p3) + p4;
    assert r[6..8] == p4 && r[..6] == p1 + p2 + p3;
    assert (p1 + p2 + p3)[..4] == p1 + p2;
    assert (p1 + p2)[0..2] == p1 && (p1 + p2)[2..4] == p2;
  }

  /** A buffer of exactly one record's bytes, as a `struct descriptor_idt` occupies them. */
  type Image = b: seq<uint8> | |b| == DESCRIPTOR_SIZE witness [0, 0, 0, 0, 0, 0, 0, 0, 0, 0, 0, 0, 0, 0, 0, 0]

  /** A zero-filled buffer. */
  const ZERO_IMAGE: Image := [0, 0, 0, 0, 0, 0, 0, 0, 0, 0, 0, 0, 0, 0, 0, 0]

  /** Reading a 16-byte buffer through struct descriptor_idt. */
  function DecodeDescriptor(b: seq<uint8>): Descriptor
    requires |b| == DESCRIPTOR_SIZE
  {
    LE.Pow256Values();
    Descriptor(LE.UIntAt(b, 0, 2), LE.UIntAt(b, 2, 2), b[4], b[5], LE.UIntAt(b, 6, 2), LE.UIntAt(b, 8, 4), LE.UIntAt(b, 12, 4))
  }

  /** record -> bytes -> record is the identity. */
  lemma DecodeEncodeDescriptor(d: Descriptor)
    ensures DecodeDescriptor(EncodeDescriptor(d)) == d
  {
    EncodeLayout(d);
  }

  /** The zero-filled buffer holds the all-zero record. */
  lemma ZeroImageDecodes()
    ensures DecodeDescriptor(ZERO_IMAGE) == ZERO_DESCRIPTOR
    ensures EncodeDescriptor(ZERO_DESCRIPTOR) == ZERO_IMAGE
  {
    LE.Pow256Values();
    LE.EncodeZero(2);
    LE.EncodeZero(4);
    assert EncodeDescriptor(ZERO_DESCRIPTOR) ==
      LE.Encode(0, 2) + LE.Encode(0, 2) + [0, 0] + LE.Encode(0, 2) + LE.Encode(0, 4) + LE.Encode(0, 4);
    assert EncodeDescriptor(ZERO_DESCRIPTOR) == ZERO_IMAGE;
    DecodeEncodeDescriptor(ZERO_DESCRIPTOR);
  }

  /** bytes -> record -> bytes is the identity: the record covers all 16 bytes, with no padding. */
  lemma EncodeDecodeDescriptor(b: seq<uint8>)
    requires |b| == DESCRIPTOR_SIZE
    ensures EncodeDescriptor(DecodeDescriptor(b)) == b
  {
    LE.Pow256Values();
    var d := DecodeDescriptor(b);
    forall k | k in {0, 2, 6} ensures LE.Encode(LE.UIntAt(b, k, 2), 2) == b[k..k + 2] {
      LE.EncodeDecode(b[k..k + 2]);
    }
    forall k | k in {8, 12} ensures LE.Encode(LE.UIntAt(b, k, 4), 4) == b[k..k + 4] {
      LE.EncodeDecode(b[k..k + 4]);
    }
    assert b == b[0..2] + b[2..4] + [b[4], b[5]] + b[6..8] + b[8..12] + b[12..16];
  }

  /* ---------------------------------------------------------------- */
  /* Stub address reconstruction                                      */
  /* ---------------------------------------------------------------- */

  /** The value of an int computation on a 32-bit two's-complement machine. */
  function WrapInt32(v: int): int32
  {
    (v + 0x8000_0000) % TWO_32 - 0x8000_0000
  }

  /** WrapInt32 is congruent to its argument modulo 2^32, and the identity on the int range. */
  lemma WrapInt32Spec(v: int)
    ensures (WrapInt32(v) - v) % TWO_32 == 0
    ensures -0x8000_0000 <= v < 0x8000_0000 ==> WrapInt32(v) == v
  {
  }

  /**
   * `(unsigned long)(m << 16)` with m a uint16_t: m is promoted to int, the
   * shift wraps into the sign bit when m >= 0x8000 and the conversion to
   * 64 bits sign-extends, setting bits 32-63. PromotedShiftIsIntShift ties
   * this to the 32-bit int result.
   */
  function PromotedShift16(m: uint16): uint64
  {
    if m < 0x8000 then m * TWO_16 else m * TWO_16 + (TWO_64 - TWO_32)
  }

  /** The low 32 bits are m << 16; the high ones are set exactly when bit 15 of m is. */
  lemma PromotedShift16Spec(m: uint16)
    ensures PromotedShift16(m) % TWO_32 == m * TWO_16
    ensures PromotedShift16(m) < TWO_32 <==> m < 0x8000
  {
  }

  /** PromotedShift16 is the int value of the shift, taken modulo 2^64 by the conversion. */
  lemma PromotedShiftIsIntShift(m: uint16)
    ensures PromotedShift16(m) == WrapInt32(m * TWO_16) % TWO_64
  {
  }

  /** A sum of unsigned long operands below 2^65, reduced modulo 2^64. */
  function Wrap64(v: nat): uint64
    requires v < 2 * TWO_64
  {
    if v < TWO_64 then v else v - TWO_64
  }

  /**
   * The stub address as compare_idt and read_idt_archive compute it.
   * X86: `(unsigned long)(offset_middle << 16) + offset_low`, whose sum
   * stays below 2^64, as its type checks.
   * X64: `((unsigned long)offset_high << 32) + ((unsigned int)offset_middle << 16) + offset_low`;
   * that the sum needs no reduction modulo 2^64 is checked by its type.
   * Any other kernel type leaves the variable at its initial 0.
   */
  function StubAddress(d: Descriptor, kernelType: int): uint64
  {
    if kernelType == X86 then
      PromotedShift16(d.offsetMiddle) + d.offsetLow
    else if kernelType == X64 then
      Join64(d.offsetHigh, d.offsetMiddle, d.offsetLow)
    else
      0
  }

  /** What each kernel type's address is made of: its three 16/16/32-bit fields, or 0. */
  lemma StubAddressSpec(d: Descriptor, kernelType: int)
    ensures var r := StubAddress(d, kernelType); kernelType == X64 ==>
      r % TWO_16 == d.offsetLow && (r / TWO_16) % TWO_16 == d.offsetMiddle && r / TWO_32 == d.offsetHigh
    ensures var r := StubAddress(d, kernelType); kernelType == X86 ==>
      r % TWO_32 == d.offsetMiddle * TWO_16 + d.offsetLow && (r < TWO_32 <==> d.offsetMiddle < 0x8000)
    ensures kernelType != X86 && kernelType != X64 ==> StubAddress(d, kernelType) == 0
  {
    if kernelType == X64 {
      Join64Spec(d.offsetHigh, d.offsetMiddle, d.offsetLow);
    } else if kernelType == X86 {
      PromotedShift16Spec(d.offsetMiddle);
    }
  }

  /** high:middle:low as one 64-bit value. */
  function Join64(high: uint32, middle: uint16, low: uint16): uint64
  {
    high * TWO_32 + middle * TWO_16 + low
  }

  /** The bits 0-15, 16-31 and 32-63 of the joined value are low, middle and high. */
  lemma Join64Spec(high: uint32, middle: uint16, low: uint16)
    ensures var r := Join64(high, middle, low);
      r % TWO_16 == low && (r / TWO_16) % TWO_16 == middle && r / TWO_32 == high
  {
    var q := high * TWO_16 + middle;
    DivModUnique(q, low);
    DivModUnique(high, middle);
    assert q * TWO_16 == high * TWO_32 + middle * TWO_16;
    NestedDivision(q * TWO_16 + low);
  }

  lemma DivModUnique(q: int, r: int)
    requires 0 <= r < TWO_16
    ensures (q * TWO_16 + r) / TWO_16 == q && (q * TWO_16 + r) % TWO_16 == r
  {
  }

  lemma NestedDivision(x: nat)
    ensures x / TWO_32 == (x / TWO_16) / TWO_16
  {
  }

  /**
   * The stub address as show_idt_info computes it. In the X64 case the
   * middle term is `offset_middle << 16` without the unsigned cast, so it
   * is sign-extended like the X86 one.
   */
  function ShowStubAddress(d: Descriptor, kernelType: int): (r: uint64)
  {
    if kernelType == X86 then
      PromotedShift16(d.offsetMiddle) + d.offsetLow
    else if kernelType == X64 then
      Wrap64(d.offsetHigh * TWO_32 + PromotedShift16(d.offsetMiddle) + d.offsetLow)
    else
      0
  }

  /** In 32-bit mode offset_high takes no part in the address. */
  lemma X86IgnoresOffsetHigh(d: Descriptor, high: uint32)
    ensures StubAddress(d.(offsetHigh := high), X86) == StubAddress(d, X86)
    ensures ShowStubAddress(d.(offsetHigh := high), X86) == ShowStubAddress(d, X86)
  {
  }

  /** With offset_middle below 0x8000 the 32-bit address is exactly middle:low. */
  lemma X86StubBelow4G(d: Descriptor)
    requires d.offsetMiddle < 0x8000
    ensures StubAddress(d, X86) == d.offsetMiddle * TWO_16 + d.offsetLow
  {
  }

  /**
   * show_idt_info and the other walks agree on a 64-bit descriptor exactly
   * when offset_middle < 0x8000; otherwise the row shows an address 2^32 too low.
   */
  lemma ShowStubAgreement(d: Descriptor)
    ensures ShowStubAddress(d, X64) == StubAddress(d, X64) <==> d.offsetMiddle < 0x8000
    ensures d.offsetMiddle >= 0x8000 ==>
      ShowStubAddress(d, X64) == (StubAddress(d, X64) - TWO_32) % TWO_64
    ensures ShowStubAddress(d, X86) == StubAddress(d, X86)
  {
    var s := d.offsetHigh * TWO_32 + d.offsetMiddle * TWO_16 + d.offsetLow;
    if d.offsetMiddle >= 0x8000 {
      assert ShowStubAddress(d, X64) == Wrap64(s + TWO_64 - TWO_32);
    }
  }

  /** The address fields of a descriptor that give a 64-bit stub address. */
  function AddressFields(stub: uint64, d: Descriptor): (r: Descriptor)
  {
    d.(offsetLow := stub % TWO_16, offsetMiddle := (stub / TWO_16) % TWO_16, offsetHigh := stub / TWO_32)
  }

  /** The 64-bit decode is a bijection between the three offset fields and the address. */
  lemma X64StubRoundTrip(stub: uint64, d: Descriptor)
    ensures StubAddress(AddressFields(stub, d), X64) == stub
    ensures AddressFields(StubAddress(d, X64), d) == d
  {
    var e := AddressFields(stub, d);
    assert stub == (stub / TWO_32) * TWO_32 + ((stub / TWO_16) % TWO_16) * TWO_16 + stub % TWO_16;
    Join64Spec(d.offsetHigh, d.offsetMiddle, d.offsetLow);
  }

  /* ---------------------------------------------------------------- */
  /* Flag byte, selector                                             */
  /* ---------------------------------------------------------------- */

  datatype GateType = TaskGate | InterruptGate | TrapGate | UnknownGate {
    /** The text show_idt_info copies into its type column. */
    function Name(): string {
      match this
      case TaskGate => "Task gate"
      case InterruptGate => "Interrupt gate"
      case TrapGate => "Trap gate"
      case UnknownGate => "Unknown"
    }
  }

  /** The gate type named by the low nibble of the flag byte (`flag & 0xF`). */
  function GateTypeOf(flag: uint8): GateType
  {
    var nibble := flag % 16;  // flag & 0xF
    if nibble == 0x5 then TaskGate
    else if nibble == 0xE then InterruptGate
    else if nibble == 0xF then TrapGate
    else UnknownGate
  }

  /** Each named gate type comes from exactly one nibble. */
  lemma GateTypeOfSpec(flag: uint8)
    ensures GateTypeOf(flag) == TaskGate <==> flag % 16 == 0x5
    ensures GateTypeOf(flag) == InterruptGate <==> flag % 16 == 0xE
    ensures GateTypeOf(flag) == TrapGate <==> flag % 16 == 0xF
  {
  }

  /** The nibbles that name no gate type. */
  const UNKNOWN_NIBBLES: set<int> := {0x0, 0x1, 0x2, 0x3, 0x4, 0x6, 0x7, 0x8, 0x9, 0xA, 0xB, 0xC, 0xD}

  /** Total over the 16 nibbles: three are named, the other thirteen are Unknown; only the nibble matters. */
  lemma GateTypeTotal()
    ensures forall n: uint8 :: n < 16 ==> (GateTypeOf(n) == UnknownGate <==> n in UNKNOWN_NIBBLES)
    ensures forall f: uint8 :: GateTypeOf(f) == GateTypeOf(f % 16)
  {
    UnknownNibbles();
    OnlyNibbleMatters();
  }

  lemma UnknownNibbles()
    ensures forall n: uint8 :: n < 16 ==> (GateTypeOf(n) == UnknownGate <==> n in UNKNOWN_NIBBLES)
  {
  }

  lemma OnlyNibbleMatters()
    ensures forall f: uint8 :: GateTypeOf(f) == GateTypeOf(f % 16)
  {
    forall f: uint8
      ensures GateTypeOf(f) == GateTypeOf(f % 16)
    {
      assert (f % 16) % 16 == f % 16;
    }
  }

  /** The privilege level show_idt_info prints: 3 if either DPL bit (`flag & 0x60`) is set, else 0. */
  function Dpl(flag: uint8): int
  {
    if (flag / 0x20) % 4 != 0 then 3 else 0  // flag & 0x60
  }

  /** The printed level is 0 or 3, and 0 exactly when bits 5 and 6 of the flag are clear. */
  lemma DplSpec(flag: uint8)
    ensures Dpl(flag) == 0 || Dpl(flag) == 3
    ensures Dpl(flag) == 0 <==> flag % 0x80 < 0x20
  {
  }

  /** get_segment: the name of one of the three kernel code/data selectors, else "UNKNOWN". */
  function SegmentName(selector: uint16): string
  {
    if selector == KERNEL32_CS then "KERNEL32_CS"
    else if selector == KERNEL_DS then "KERNEL_DS"
    else if selector == KERNEL64_CS then "KERNEL64_CS"
    else "UNKNOWN"
  }

  /** Each of the four names is printed for exactly its selectors. */
  lemma SegmentNameSpec(selector: uint16)
    ensures SegmentName(selector) == "KERNEL32_CS" <==> selector == KERNEL32_CS
    ensures SegmentName(selector) == "KERNEL_DS" <==> selector == KERNEL_DS
    ensures SegmentName(selector) == "KERNEL64_CS" <==> selector == KERNEL64_CS
    ensures SegmentName(selector) == "UNKNOWN" <==> selector !in {KERNEL32_CS, KERNEL_DS, KERNEL64_CS}
  {
  }

  /* ---------------------------------------------------------------- */
  /* The IDTR image                                                   */
  /* ---------------------------------------------------------------- */

  const IDTR_SIZE: nat := 10

  /** get_size_idt: the 16-bit limit in bytes 0-1 of the image SIDT stores. */
  function IdtrLimit(idtr: seq<uint8>): (limit: uint16)
    requires |idtr| == IDTR_SIZE
  {
    LE.Pow256Values();
    LE.UIntAt(idtr, 0, 2)
  }

  /** get_addr_idt: the base in bytes 2-5 for X86, 2-9 for X64, and 0 for any other kernel type. */
  function IdtrBase(idtr: seq<uint8>, kernelType: int): (base: uint64)
    requires |idtr| == IDTR_SIZE
    ensures kernelType == X86 ==> base < TWO_32
    ensures kernelType != X86 && kernelType != X64 ==> base == 0
  {
    LE.Pow256Values();
    if kernelType == X86 then LE.UIntAt(idtr, 2, 4)
    else if kernelType == X64 then LE.UIntAt(idtr, 2, 8)
    else 0
  }

  /** What SIDT stores in 64-bit mode: the limit, then the 8-byte base (Intel SDM Vol. 2B, SIDT). */
  function IdtrImage(limit: uint16, base: uint64): (idtr: seq<uint8>)
    ensures |idtr| == IDTR_SIZE
  {
    U16Bytes(limit) + U64Bytes(base)
  }

  /** Decoding an IDTR image gives back its limit and base; 32-bit mode keeps the low half of the base. */
  lemma IdtrRoundTrip(limit: uint16, base: uint64)
    ensures |IdtrImage(limit, base)| == IDTR_SIZE
    ensures IdtrLimit(IdtrImage(limit, base)) == limit
    ensures IdtrBase(IdtrImage(limit, base), X64) == base
    ensures IdtrBase(IdtrImage(limit, base), X86) == base % TWO_32
  {
    LE.Pow256Values();
    var image := IdtrImage(limit, base);
    assert image[0..2] == U16Bytes(limit);
    assert image[2..10] == U64Bytes(base);
    var low, high := LE.Encode(base % TWO_32, 4), LE.Encode(base / TWO_32, 4);
    LE.DecodeEncode(base % TWO_32, 4);
    LE.DecodeEncode(base / TWO_32, 4);
    LE.DecodeAppend(low, high);
    LE.EncodeDecode(low + high);
    assert LE.Decode(low + high) == base;
    LE.DecodeEncode(base, 8);
    assert U64Bytes(base) == low + high;
    assert image[2..6] == low;
  }

  /* ---------------------------------------------------------------- */
  /* The restore patch                                                */
  /* ---------------------------------------------------------------- */

  /**
   * What compare_idt writes back on a mismatch in restore mode:
   * `offset_high = (unsigned short)(saved >> 16)` and
   * `offset_low = (unsigned short)(saved & 0xFFFF)`; offset_middle is not touched.
   */
  function RestorePatch(live: Descriptor, saved: uint64): Descriptor
  {
    live.(offsetHigh := (saved / TWO_16) % TWO_16, offsetLow := saved % TWO_16)
  }

  /**
   * In bytes, the patch rewrites offset_low (bytes 0-1) and offset_high
   * (bytes 8-11, whose upper two become 0); bytes 2-7 and 12-15 are unchanged.
   */
  lemma RestorePatchBytes(live: Descriptor, saved: uint64)
    ensures var before, after := EncodeDescriptor(live), EncodeDescriptor(RestorePatch(live, saved));
      && after[2..8] == before[2..8]
      && after[12..16] == before[12..16]
      && LE.UIntAt(after, 0, 2) == saved % TWO_16
      && LE.UIntAt(after, 8, 4) == (saved / TWO_16) % TWO_16
      && after[10] == 0 && after[11] == 0
  {
    LE.Pow256Values();
    var before, after := EncodeDescriptor(live), EncodeDescriptor(RestorePatch(live, saved));
    var p := RestorePatch(live, saved);
    EncodeLayout(live);
    EncodeLayout(p);
    assert after[8..12] == LE.Encode(p.offsetHigh, 4);
    assert LE.Encode(p.offsetHigh, 4)[2..] == LE.Encode(p.offsetHigh / TWO_16, 2);
    assert after[10] == LE.Encode(0, 2)[0] && after[11] == LE.Encode(0, 2)[1];
    assert after[2..8] == U16Bytes(live.segSelector) + [live.reserved, live.flag] + U16Bytes(live.offsetMiddle);
    assert before[2..8] == U16Bytes(live.segSelector) + [live.reserved, live.flag] + U16Bytes(live.offsetMiddle);
  }

  /** Patching twice with the same saved address is patching once. */
  lemma RestorePatchIdempotent(live: Descriptor, saved: uint64)
    ensures RestorePatch(RestorePatch(live, saved), saved) == RestorePatch(live, saved)
  {
  }

  /**
   * On a 64-bit kernel the patched record decodes to the saved address only when
   * bits 16-31 of the saved address equal both its bits 32-63 and the live offset_middle.
   */
  lemma RestoreReinstatesIff(live: Descriptor, saved: uint64)
    ensures StubAddress(RestorePatch(live, saved), X64) == saved
      <==> saved / TWO_32 == (saved / TWO_16) % TWO_16 && live.offsetMiddle == (saved / TWO_16) % TWO_16
  {
    var p := RestorePatch(live, saved);
    var r := StubAddress(p, X64);
    assert r / TWO_32 == p.offsetHigh && (r / TWO_16) % TWO_16 == live.offsetMiddle;
    if r == saved {
      assert saved / TWO_32 == (saved / TWO_16) % TWO_16;
    } else {
      X64StubRoundTrip(saved, p);
    }
  }

  /** A kernel-text address: the patch does not bring it back. */
  lemma RestoreMissesKernelAddress(live: Descriptor)
    ensures StubAddress(RestorePatch(live, 0xffff_ff80_0011_2233), X64) != 0xffff_ff80_0011_2233
  {
    RestoreReinstatesIff(live, 0xffff_ff80_0011_2233);
  }
}
