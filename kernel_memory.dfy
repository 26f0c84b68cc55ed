/**
 * readkmem and writekmem: reading and writing byte ranges of kernel memory
 * through /dev/kmem (and, for reads, through a Mach task port). The
 * device is a byte array placed at a base address; a range it does not
 * cover stands for the lseek that lands elsewhere or the short read or
 * write, which end the process.
 */
module KernelMemory {
  import opened Global

  /** What the device shows: bytes[i] is the byte at kernel address base + i. */
  datatype View = View(base: int, bytes: seq<uint8>)

  /** The device can seek to addr and transfer len bytes from there. */
  predicate Serves(m: View, addr: int, len: nat)
  {
    m.base <= addr && addr + len <= m.base + |m.bytes|
  }

  function ReadAt(m: View, addr: int, len: nat): (b: seq<uint8>)
    requires Serves(m, addr, len)
    ensures |b| == len
  {
    m.bytes[addr - m.base..addr - m.base + len]
  }

  function WriteAt(m: View, addr: int, data: seq<uint8>): (r: View)
    requires Serves(m, addr, |data|)
    ensures r.base == m.base && |r.bytes| == |m.bytes|
    ensures ReadAt(r, addr, |data|) == data
    ensures forall i :: 0 <= i < |m.bytes| && !(addr - m.base <= i < addr - m.base + |data|) ==>
      r.bytes[i] == m.bytes[i]
  {
    var o := addr - m.base;
    View(m.base, m.bytes[..o] + data + m.bytes[o + |data|..])
  }

  /** A write leaves every range that does not overlap it as it was. */
  lemma WriteAtFrame(m: View, addr: int, data: seq<uint8>, other: int, len: nat)
    requires Serves(m, addr, |data|) && Serves(m, other, len)
    requires other + len <= addr || addr + |data| <= other
    ensures ReadAt(WriteAt(m, addr, data), other, len) == ReadAt(m, other, len)
  {
  }

  /** r shows the same device as m, with the same bytes at every address outside [lo, hi). */
  predicate SameOutside(m: View, r: View, lo: int, hi: int)
  {
    && r.base == m.base && |r.bytes| == |m.bytes|
    && forall i :: 0 <= i < |m.bytes| && !(lo <= m.base + i < hi) ==> r.bytes[i] == m.bytes[i]
  }

  /** A write changes nothing outside the range it covers. */
  lemma WriteAtSameOutside(m: View, addr: int, data: seq<uint8>)
    requires Serves(m, addr, |data|)
    ensures SameOutside(m, WriteAt(m, addr, data), addr, addr + |data|)
  {
  }

  /** Two rounds of changes, each confined to a part of [lo, hi), leave everything outside [lo, hi) alone. */
  lemma SameOutsideTrans(m: View, r: View, s: View, lo: int, hi: int, lo1: int, hi1: int, lo2: int, hi2: int)
    requires SameOutside(m, r, lo1, hi1) && SameOutside(r, s, lo2, hi2)
    requires lo <= lo1 && hi1 <= hi && lo <= lo2 && hi2 <= hi
    ensures SameOutside(m, s, lo, hi)
  {
  }

  /** A range that does not overlap [lo, hi) reads the same in both views. */
  lemma ReadOutside(m: View, r: View, lo: int, hi: int, addr: int, len: nat)
    requires SameOutside(m, r, lo, hi) && Serves(m, addr, len)
    requires addr + len <= lo || hi <= addr
    ensures Serves(r, addr, len) && ReadAt(r, addr, len) == ReadAt(m, addr, len)
  {
    var a, b := ReadAt(r, addr, len), ReadAt(m, addr, len);
    forall k | 0 <= k < len
      ensures a[k] == b[k]
    {
      assert a[k] == r.bytes[addr - m.base + k];
    }
  }

  /** Outcome of readkmem: kern_return_t, or the exit(-1) of the /dev/kmem path. */
  datatype ReadStatus = KernSuccess | KernFailure | Aborted

  class Device {
    const base: int
    const data: array<uint8>

    function Snapshot(): View
      reads data
    {
      View(base, data[..])
    }

    constructor (base: int, contents: seq<uint8>)
      ensures Snapshot() == View(base, contents) && fresh(data)
    {
      this.base := base;
      data := new uint8[|contents|] (i requires 0 <= i < |contents| => contents[i]);
    }

    /**
     * readkmem. With a task port (kernelPort != 0) a failed read returns
     * KERN_FAILURE and the process goes on; through /dev/kmem a failed seek
     * or short read aborts. On KERN_SUCCESS the buffer holds the bytes read.
     */
    method ReadKmem(kernelPort: nat, targetAddr: uint64, readSize: nat) returns (status: ReadStatus, buffer: seq<uint8>)
      ensures status == KernSuccess <==> Serves(Snapshot(), targetAddr, readSize)
      ensures status == KernFailure <==> kernelPort != 0 && !Serves(Snapshot(), targetAddr, readSize)
      ensures status == KernSuccess ==> buffer == ReadAt(Snapshot(), targetAddr, readSize)
    {
      if !Serves(Snapshot(), targetAddr, readSize) {
        status := if kernelPort != 0 then KernFailure else Aborted;
        buffer := [];
        return;
      }
      var o := targetAddr - base;
      status, buffer := KernSuccess, data[o..o + readSize];
    }

    /** writekmem: a failed seek or short write aborts; otherwise the bytes land at offset. */
    method WriteKmem(offset: uint64, buffer: seq<uint8>) returns (aborted: bool)
      modifies data
      ensures aborted <==> !Serves(old(Snapshot()), offset, |buffer|)
      ensures Snapshot() == if aborted then old(Snapshot()) else WriteAt(old(Snapshot()), offset, buffer)
    {
      if !Serves(Snapshot(), offset, |buffer|) {
        return true;
      }
      var o := offset - base;
      forall i | 0 <= i < |buffer| {
        data[o + i] := buffer[i];
      }
      assert data[..] == old(data[..])[..o] + buffer + old(data[..])[o + |buffer|..];
      aborted := false;
    }
  }
}
