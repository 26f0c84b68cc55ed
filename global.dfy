/**
 * Shared data model of CheckIDT: fixed-width integers, the architecture
 * tags, the segment selector constants, the 16-byte gate descriptor, the
 * symbol entry and the run configuration.
 */
module Global {

  /* Fixed-width integers of <stdint.h>, as subsets of the unbounded int. */
  const TWO_8: int := 0x100
  const TWO_16: int := 0x1_0000
  const TWO_32: int := 0x1_0000_0000
  const TWO_64: int := 0x1_0000_0000_0000_0000

  type uint8 = x: int | 0 <= x < 0x100
  type uint16 = x: int | 0 <= x < 0x1_0000
  type uint32 = x: int | 0 <= x < 0x1_0000_0000
  type uint64 = x: int | 0 <= x < 0x1_0000_0000_0000_0000
  type int32 = x: int | -0x8000_0000 <= x < 0x8000_0000

  datatype Option<T> = None | Some(value: T)

  /* Kernel architecture tags; get_kernel_type answers -1 for anything else. */
  const X86: int32 := 0
  const X64: int32 := 1

  /* Kernel segment selectors of the 64-bit flat address space (osfmk/i386/seg.h). */
  const KERNEL64_CS: uint16 := 0x08
  const SYSENTER_CS: uint16 := 0x0b
  const KERNEL64_SS: uint16 := 0x10
  const USER_CS: uint16 := 0x1b
  const USER_DS: uint16 := 0x23
  const USER64_CS: uint16 := 0x2b
  const USER64_DS: uint16 := USER_DS
  const KERNEL_LDT: uint16 := 0x30
  const KERNEL_TSS: uint16 := 0x40
  const KERNEL32_CS: uint16 := 0x50
  const USER_LDT: uint16 := 0x58
  const KERNEL_DS: uint16 := 0x68
  const SYSENTER_TF_CS: int := ((USER_CS as bv32) | 0x10000) as int
  const SYSENTER_DS: uint16 := KERNEL64_SS

  /** The relations the selector table states in its comments. */
  lemma SelectorRelations()
    ensures KERNEL64_SS == KERNEL64_CS + 8
    ensures USER_DS == USER_CS + 8
    ensures USER64_CS == USER_CS + 16
    ensures USER64_DS == USER_DS
    ensures SYSENTER_DS == KERNEL64_SS
    ensures SYSENTER_TF_CS == USER_CS + 0x10000
  {
  }

  /** The three selectors that get_segment names are distinct, and so are the architecture tags. */
  lemma TagsDistinct()
    ensures KERNEL64_CS != KERNEL32_CS && KERNEL64_CS != KERNEL_DS && KERNEL32_CS != KERNEL_DS
    ensures X86 != X64
  {
  }

  /**
   * One packed 16-byte IDT gate descriptor. The same record is used for
   * 32- and 64-bit kernels, since the CPU runs in IA-32e mode (the 64-bit
   * IDT gate of Intel SDM Vol. 3A, section 6.14.1).
   */
  datatype Descriptor = Descriptor(
    offsetLow: uint16,
    segSelector: uint16,
    reserved: uint8,
    flag: uint8,
    offsetMiddle: uint16,
    offsetHigh: uint32,
    reserved2: uint32)

  const DESCRIPTOR_SIZE: nat := 16

  /** The all-zero record that every descriptor buffer starts as. */
  const ZERO_DESCRIPTOR: Descriptor := Descriptor(0, 0, 0, 0, 0, 0, 0)

  /** A kernel symbol: its link-time (unslid) address and its name. */
  datatype SymbolEntry = SymbolEntry(address: uint64, name: string)

  /** MAXPATHLEN of <sys/param.h>. */
  const MAXPATHLEN: nat := 1024

  /**
   * struct config: the options of the command line and the facts probed
   * at start-up. The /dev/kmem descriptor is the KernelMemory.Device object
   * handed to each walk; kernelPort stays 0 because nothing ever sets it.
   */
  datatype Config = Config(
    inFilename: string,
    outFilename: string,
    interrupt: int32,
    readFileArchive: bool,
    createFileArchive: bool,
    compareIdt: bool,
    restoreIdt: bool,
    showAllDescriptors: bool,
    resolve: bool,
    kernelType: int32,
    kaslrSlide: uint64,
    idtAddr: uint64,
    idtSize: uint16,
    idtEntries: uint32,
    symbols: seq<SymbolEntry>,
    kernelPort: nat)

  /** `struct config cfg = {0}`. */
  const ZERO_CONFIG: Config :=
    Config("", "", 0, false, false, false, false, false, false, 0, 0, 0, 0, 0, [], 0)
}
