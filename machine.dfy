/** CPU identification from `<mach/machine.h>`: the cpu type and subtype
    constants, the capability-bit mask of a subtype, and the classification of
    a (cpu type, cpu subtype) pair into the architectures the reader knows. */
module Machines {
  import opened Bytes

  /** The bit that marks a 64-bit ABI in a cpu type. */
  const CPU_ARCH_ABI64: bv32 := 0x0100_0000

  const CPU_TYPE_X86: bv32 := 7
  const CPU_TYPE_X86_64: bv32 := CPU_TYPE_X86 | CPU_ARCH_ABI64

  const CPU_TYPE_ARM: bv32 := 12
  const CPU_TYPE_ARM64: bv32 := CPU_TYPE_ARM | CPU_ARCH_ABI64

  const CPU_SUBTYPE_X86_ALL: bv32 := 3
  const CPU_SUBTYPE_X86_64_ALL: bv32 := 3
  const CPU_SUBTYPE_X86_ARCH1: bv32 := 4
  const CPU_SUBTYPE_X86_64_H: bv32 := 8

  const CPU_SUBTYPE_ARM64_ALL: bv32 := 0
  const CPU_SUBTYPE_ARM64_V8: bv32 := 1
  const CPU_SUBTYPE_ARM64E: bv32 := 2

  /** The capability bits of a cpu subtype (feature flags such as LIB64). */
  const CPU_SUBTYPE_MASK: bv32 := 0xff00_0000

  /** The 64-bit cpu types are their 32-bit base with only the ABI64 bit added. */
  lemma SixtyFourBitTypes()
    ensures CPU_TYPE_X86_64 == 0x0100_0007 && CPU_TYPE_ARM64 == 0x0100_000c
    ensures CPU_TYPE_X86_64 ^ CPU_TYPE_X86 == CPU_ARCH_ABI64
    ensures CPU_TYPE_ARM64 ^ CPU_TYPE_ARM == CPU_ARCH_ABI64
    ensures CPU_TYPE_X86 & CPU_ARCH_ABI64 == 0 && CPU_TYPE_ARM & CPU_ARCH_ABI64 == 0
  {
  }

  /** The capability bits of `s`. */
  function FeatureBits(s: bv32): (r: bv32)
    ensures r & !CPU_SUBTYPE_MASK == 0
  {
    s & CPU_SUBTYPE_MASK
  }

  /** `s` with its capability bits cleared: the base subtype identifier. */
  function Masked(s: bv32): (r: bv32)
    ensures r & CPU_SUBTYPE_MASK == 0
    ensures r | FeatureBits(s) == s
  {
    s & !CPU_SUBTYPE_MASK
  }

  /** Clearing the capability bits twice is clearing them once. */
  lemma MaskedIdempotent(s: bv32)
    ensures Masked(Masked(s)) == Masked(s)
  {
  }

  /** A subtype splits into disjoint base and capability parts, and the base
      part does not see the capability bits at all. */
  lemma MaskedIgnoresFeatures(s: bv32, f: bv32)
    requires f & !CPU_SUBTYPE_MASK == 0
    ensures Masked(s | f) == Masked(s)
    ensures Masked(s) & FeatureBits(s) == 0
  {
  }

  datatype SubtypeX86_64 = X86_64 | X86_64H

  datatype SubtypeArm64 = Arm64 | Arm64E

  /** The architectures the reader names; anything else stays raw numbers. */
  datatype Cpu = CpuX86_64(x86: SubtypeX86_64) | CpuArm64(arm: SubtypeArm64)

  /** Classification of an x86_64 subtype by its base identifier. */
  function NewSubtypeX86_64(s: bv32): (r: Option<SubtypeX86_64>)
    ensures r == Some(X86_64) <==> Masked(s) == CPU_SUBTYPE_X86_64_ALL
    ensures r == Some(X86_64H) <==> Masked(s) == CPU_SUBTYPE_X86_64_H
  {
    var m := Masked(s);
    if m == CPU_SUBTYPE_X86_64_ALL then Some(X86_64)
    else if m == CPU_SUBTYPE_X86_64_H then Some(X86_64H)
    else None
  }

  /** Classification of an arm64 subtype by its base identifier. */
  function NewSubtypeArm64(s: bv32): (r: Option<SubtypeArm64>)
    ensures r == Some(Arm64) <==> Masked(s) == CPU_SUBTYPE_ARM64_ALL
    ensures r == Some(Arm64E) <==> Masked(s) == CPU_SUBTYPE_ARM64E
  {
    var m := Masked(s);
    if m == CPU_SUBTYPE_ARM64_ALL then Some(Arm64)
    else if m == CPU_SUBTYPE_ARM64E then Some(Arm64E)
    else None
  }

  /** The named architecture of a (cpu type, cpu subtype) pair, if any. */
  function NewCpu(cpuType: bv32, cpuSubtype: bv32): (r: Option<Cpu>)
    ensures r.Some? ==> cpuType == CPU_TYPE_X86_64 || cpuType == CPU_TYPE_ARM64
    ensures r.Some? && r.value.CpuX86_64? ==> cpuType == CPU_TYPE_X86_64
    ensures cpuType == CPU_TYPE_X86_64 ==>
      (r.Some? <==> NewSubtypeX86_64(cpuSubtype).Some?) &&
      (r.Some? ==> r.value == CpuX86_64(NewSubtypeX86_64(cpuSubtype).value))
    ensures cpuType == CPU_TYPE_ARM64 ==>
      (r.Some? <==> NewSubtypeArm64(cpuSubtype).Some?) &&
      (r.Some? ==> r.value == CpuArm64(NewSubtypeArm64(cpuSubtype).value))
  {
    if cpuType == CPU_TYPE_X86_64 then
      match NewSubtypeX86_64(cpuSubtype)
      case Some(s) => Some(CpuX86_64(s))
      case None => None
    else if cpuType == CPU_TYPE_ARM64 then
      match NewSubtypeArm64(cpuSubtype)
      case Some(s) => Some(CpuArm64(s))
      case None => None
    else None
  }

  /** A raw (cpu type, cpu subtype) pair as stored in a header. */
  datatype Machine = Machine(cpuType: bv32, cpuSubtype: bv32) {
    /** The named architecture, or None when only the raw values describe
        it: the four named (type, base subtype) pairs and nothing else. */
    function Cpu(): (r: Option<Cpu>)
      ensures r == Some(CpuX86_64(X86_64)) <==>
        cpuType == CPU_TYPE_X86_64 && Masked(cpuSubtype) == CPU_SUBTYPE_X86_64_ALL
      ensures r == Some(CpuX86_64(X86_64H)) <==>
        cpuType == CPU_TYPE_X86_64 && Masked(cpuSubtype) == CPU_SUBTYPE_X86_64_H
      ensures r == Some(CpuArm64(Arm64)) <==>
        cpuType == CPU_TYPE_ARM64 && Masked(cpuSubtype) == CPU_SUBTYPE_ARM64_ALL
      ensures r == Some(CpuArm64(Arm64E)) <==>
        cpuType == CPU_TYPE_ARM64 && Masked(cpuSubtype) == CPU_SUBTYPE_ARM64E
    {
      NewCpu(cpuType, cpuSubtype)
    }
  }

  /** The 32-bit x86 and arm cpu types are never classified. */
  lemma ThirtyTwoBitTypesUnnamed(s: bv32)
    ensures NewCpu(CPU_TYPE_X86, s) == None && NewCpu(CPU_TYPE_ARM, s) == None
  {
  }

  /** Every subtype classifies to one of the two named x86_64 subtypes or to
      None, and the remaining arm64 base identifiers (such as ARM64_V8) give
      None. */
  lemma UnnamedSubtypes(s: bv32)
    ensures Masked(s) != CPU_SUBTYPE_X86_64_ALL && Masked(s) != CPU_SUBTYPE_X86_64_H
            ==> NewSubtypeX86_64(s) == None
    ensures Masked(s) != CPU_SUBTYPE_ARM64_ALL && Masked(s) != CPU_SUBTYPE_ARM64E
            ==> NewSubtypeArm64(s) == None
    ensures NewSubtypeArm64(CPU_SUBTYPE_ARM64_V8) == None
    ensures NewSubtypeX86_64(CPU_SUBTYPE_X86_ARCH1) == None
  {
  }

  /** Classification looks only at the base identifier: subtypes that differ
      in capability bits alone classify alike, for either architecture. */
  lemma {:induction false} ClassificationIgnoresFeatures(a: bv32, b: bv32, t: bv32)
    requires Masked(a) == Masked(b)
    ensures NewSubtypeX86_64(a) == NewSubtypeX86_64(b)
    ensures NewSubtypeArm64(a) == NewSubtypeArm64(b)
    ensures NewCpu(t, a) == NewCpu(t, b)
  {
  }

  /** arm64e binaries carry capability bits (the PAC ABI
      version) in the high byte; they still classify as arm64e. */
  lemma Arm64EWithCapabilities(f: bv32)
    requires f & !CPU_SUBTYPE_MASK == 0
    ensures NewCpu(CPU_TYPE_ARM64, CPU_SUBTYPE_ARM64E | f) == Some(CpuArm64(Arm64E))
  {
    MaskedIgnoresFeatures(CPU_SUBTYPE_ARM64E, f);
  }
}
