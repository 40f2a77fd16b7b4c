/** The mapping from PE machine types to Mach-O CPU types and subtypes. */
module Machines {
  import opened Bytes

  const CPU_ARCH_ABI64: dword := 0x0100_0000

  const CPU_TYPE_X86: dword := 7
  const CPU_TYPE_MIPS: dword := 8
  const CPU_TYPE_ARM: dword := 12
  const CPU_TYPE_SPARC: dword := 14
  const CPU_TYPE_ALPHA: dword := 16
  const CPU_TYPE_POWERPC: dword := 18

  const CPU_SUBTYPE_I386_ALL: dword := 3
  const CPU_SUBTYPE_ARM_V7: dword := 9

  datatype Cpu = Unsupported | Cpu(cputype: dword, cpusubtype: dword)

  /** The machine-type switch; its default rejects the file. */
  function CpuOf(machine: word): Cpu {
    match machine
    case 0x01c0 => Cpu(CPU_TYPE_ARM, 0)
    case 0x01c2 => Cpu(CPU_TYPE_ARM, CPU_SUBTYPE_ARM_V7)
    case 0x01c4 => Cpu(CPU_TYPE_ARM, CPU_SUBTYPE_ARM_V7)
    case 0x01c6 => Cpu(CPU_TYPE_ARM + CPU_ARCH_ABI64, 0)
    case 0x01f0 => Cpu(CPU_TYPE_POWERPC, 0)
    case 0x01f1 => Cpu(CPU_TYPE_POWERPC, 0)
    case 0x014c => Cpu(CPU_TYPE_X86, CPU_SUBTYPE_I386_ALL)
    case 0x8664 => Cpu(CPU_TYPE_X86 + CPU_ARCH_ABI64, CPU_SUBTYPE_I386_ALL)
    case 0x0162 => Cpu(CPU_TYPE_MIPS, 0)
    case 0x0166 => Cpu(CPU_TYPE_MIPS, 0)
    case 0x0266 => Cpu(CPU_TYPE_MIPS, 0)
    case 0x0366 => Cpu(CPU_TYPE_MIPS, 0)
    case 0x0466 => Cpu(CPU_TYPE_MIPS, 0)
    case 0x0168 => Cpu(CPU_TYPE_MIPS + CPU_ARCH_ABI64, 0)
    case 0x0169 => Cpu(CPU_TYPE_MIPS + CPU_ARCH_ABI64, 0)
    case 0x0184 => Cpu(CPU_TYPE_ALPHA, 0)
    case 0x0284 => Cpu(CPU_TYPE_ALPHA + CPU_ARCH_ABI64, 0)
    case 0x2000 => Cpu(CPU_TYPE_SPARC, 0)
    case _ => Unsupported
  }

  /** Every machine the tool can pack an image for. */
  const SUPPORTED_MACHINES: set<word> := {
    0x014c, 0x0162, 0x0166, 0x0168, 0x0169, 0x0184, 0x01c0, 0x01c2, 0x01c4, 0x01c6, 0x01f0, 0x01f1,
    0x0266, 0x0284, 0x0366, 0x0466, 0x2000, 0x8664
  }

  /** Over all machine words: the supported ones have a CPU and no others do. */
  lemma SupportedMachines(m: word)
    ensures CpuOf(m).Cpu? <==> m in SUPPORTED_MACHINES
  {
  }

  /** The 64-bit flag is carried by the wide machines and no others. */
  lemma WideMachines(m: word)
    requires CpuOf(m).Cpu?
    ensures CpuOf(m).cputype >= 0x0100_0000 <==> m in {0x01c6, 0x8664, 0x0168, 0x0169, 0x0284}
  {
  }

  /** Below the flag, a CPU type stands for one family of machines. */
  lemma FamilyOfMachine(m: word)
    requires CpuOf(m).Cpu?
    ensures CpuOf(m).cputype % 0x0100_0000 == 7 <==> m in {0x014c, 0x8664}
    ensures CpuOf(m).cputype % 0x0100_0000 == 8 <==> m in {0x0162, 0x0166, 0x0168, 0x0169, 0x0266, 0x0366, 0x0466}
    ensures CpuOf(m).cputype % 0x0100_0000 == 12 <==> m in {0x01c0, 0x01c2, 0x01c4, 0x01c6}
    ensures CpuOf(m).cputype % 0x0100_0000 == 14 <==> m == 0x2000
    ensures CpuOf(m).cputype % 0x0100_0000 == 16 <==> m in {0x0184, 0x0284}
    ensures CpuOf(m).cputype % 0x0100_0000 == 18 <==> m in {0x01f0, 0x01f1}
    ensures CpuOf(m).cputype < 0x0200_0000
  {
  }

  /** Only the x86 machines and the ARMv7 ones have a subtype. */
  lemma SubtypeOfMachine(m: word)
    requires CpuOf(m).Cpu?
    ensures CpuOf(m).cpusubtype == 3 <==> m in {0x014c, 0x8664}
    ensures CpuOf(m).cpusubtype == 9 <==> m in {0x01c2, 0x01c4}
    ensures CpuOf(m).cpusubtype in {0, 3, 9}
  {
  }
}
