/**
 * get_kernel_type and get_kernel_version of kernel.c: the mapping from
 * the strings that sysctl returns (hw.machine, kern.osrelease) to the
 * kernel type and the Darwin major version. The sysctl calls themselves
 * are not modelled; the strings are inputs, without their NUL.
 */
module KernelProbe {
  import opened Global

  /** get_kernel_type: "i386" is X86, "x86_64" is X64, anything else -1. */
  function KernelType(machine: string): (t: int32)
    ensures t == X86 <==> machine == "i386"
    ensures t == X64 <==> machine == "x86_64"
    ensures t == -1 <==> machine != "i386" && machine != "x86_64"
  {
    if machine == "i386" then X86
    else if machine == "x86_64" then X64
    else -1
  }

  predicate HasPrefix(s: string, prefix: string)
  {
    |prefix| <= |s| && s[..|prefix|] == prefix
  }

  /** The osrelease prefix of Darwin major version v, for 10 <= v <= 13: "1" then the last digit then ".". */
  function ReleasePrefix(v: int): (p: string)
    requires 10 <= v <= 13
    ensures |p| == 3
  {
    ['1', ['0', '1', '2', '3'][v - 10], '.']
  }

  /**
   * get_kernel_version: `strncmp(osrelease, "1N.", 3) == 0` selects 10
   * (Snow Leopard), 11 (Lion), 12 (Mountain Lion), 13 (Mavericks), tried
   * in that order; -1 otherwise.
   */
  function KernelVersion(osrelease: string): (v: int32)
    ensures v == -1 || 10 <= v <= 13
    ensures v != -1 ==> HasPrefix(osrelease, ReleasePrefix(v))
    ensures v == -1 <==> forall n :: 10 <= n <= 13 ==> !HasPrefix(osrelease, ReleasePrefix(n))
  {
    if HasPrefix(osrelease, "10.") then 10
    else if HasPrefix(osrelease, "11.") then 11
    else if HasPrefix(osrelease, "12.") then 12
    else if HasPrefix(osrelease, "13.") then 13
    else -1
  }
}
