/**
 Preparing one input file: tell MZ from TE images, rewrite the two checksum fields of an MZ image in place, and look up
 its CPU.
 */
module Images {
  import opened Bytes
  import opened Checksums
  import opened Machines

  const DOS_SIGNATURE: word := 0x5A4D
  const TE_SIGNATURE: word := 0x5A56
  const NT_SIGNATURE: dword := 0x4550
  const OPTIONAL_HDR32_MAGIC: word := 0x10b
  const OPTIONAL_HDR64_MAGIC: word := 0x20b

  // Offsets of the fields used, from the start of the image or of the PE signature.
  const E_CSUM: nat := 18
  const E_LFANEW: nat := 60
  const TE_MACHINE: nat := 2
  const PE_MACHINE: nat := 4
  const PE_OPTIONAL_MAGIC: nat := 24
  const PE_CHECKSUM: nat := 88

  /** One file ready to be packed. */
  datatype Member = Member(cputype: dword, cpusubtype: dword, image: seq<byte>)

  datatype Outcome = Rejected(code: int) | Ready(member: Member)

  function Lfanew(b: seq<byte>): dword
    requires 64 <= |b|
  {
    Dword(b, E_LFANEW)
  }

  /** The image with its stub checksum field cleared, then filled. */
  function PatchStub(b: seq<byte>): (r: seq<byte>)
    requires 64 <= |b| && Lfanew(b) <= |b|
    ensures |r| == |b|
  {
    var cleared := Put16(b, E_CSUM, 0);
    Put16(cleared, E_CSUM, StubChecksum(cleared, Lfanew(b)))
  }

  /** The image with its PE checksum field cleared, then filled. */
  function PatchPe(src: WordSource, b: seq<byte>, peheader: nat): (r: seq<byte>)
    requires peheader + 92 <= |b| <= INT_MAX
    ensures |r| == |b|
  {
    var cleared := Put32(b, peheader + PE_CHECKSUM, 0);
    Put32(cleared, peheader + PE_CHECKSUM, PeChecksum(src, cleared, peheader))
  }

  predicate HasOptionalHeader(b: seq<byte>, peheader: nat)
    requires peheader + 26 <= |b|
  {
    var magic := Word(b, peheader + PE_OPTIONAL_MAGIC);
    magic == OPTIONAL_HDR32_MAGIC || magic == OPTIONAL_HDR64_MAGIC
  }

  /** Every access the tool makes to the file's buffer stays inside it; the tool itself never checks this. */
  predicate InBounds(b: seq<byte>) {
    && 2 <= |b| <= INT_MAX
    && (Word(b, 0) == TE_SIGNATURE ==> 4 <= |b|)
    && (Word(b, 0) == DOS_SIGNATURE ==>
          && 64 <= |b|
          && Lfanew(b) + 4 <= |b|
          && (Dword(PatchStub(b), Lfanew(b)) == NT_SIGNATURE ==>
                && Lfanew(b) + 26 <= |b|
                && (HasOptionalHeader(PatchStub(b), Lfanew(b)) ==> Lfanew(b) + 92 <= |b|)))
  }

  function Classify(machine: word, image: seq<byte>): Outcome {
    match CpuOf(machine)
    case Unsupported => Rejected(-5)
    case Cpu(cputype, cpusubtype) => Ready(Member(cputype, cpusubtype, image))
  }

  /** What becomes of one file, as a function of its bytes. */
  function Prepare(src: WordSource, b: seq<byte>): Outcome
    requires InBounds(b)
  {
    if Word(b, 0) == TE_SIGNATURE then
      Classify(Word(b, TE_MACHINE), b)
    else if Word(b, 0) != DOS_SIGNATURE then
      Rejected(-3)
    else
      var p, s := Lfanew(b), PatchStub(b);
      if Dword(s, p) != NT_SIGNATURE then
        Rejected(-4)
      else
        Classify(Word(s, p + PE_MACHINE), if HasOptionalHeader(s, p) then PatchPe(src, s, p) else s)
  }

  // ----- the code: the same thing done in place

  method StoreWord(a: array<byte>, i: nat, v: word)
    requires i + 2 <= a.Length
    modifies a
    ensures a[..] == Put16(old(a[..]), i, v)
  {
    var s := Le16(v);
    a[i], a[i + 1] := s[0], s[1];
  }

  method StoreDword(a: array<byte>, i: nat, v: dword)
    requires i + 4 <= a.Length
    modifies a
    ensures a[..] == Put32(old(a[..]), i, v)
  {
    var s := Le32(v);
    a[i], a[i + 1], a[i + 2], a[i + 3] := s[0], s[1], s[2], s[3];
  }

  method UpdateStub(a: array<byte>)
    requires 64 <= a.Length && Lfanew(a[..]) <= a.Length
    modifies a
    ensures a[..] == PatchStub(old(a[..]))
  {
    hide StubChecksum;
    StoreWord(a, E_CSUM, 0);
    DwordKept(old(a[..]), a[..], E_LFANEW);
    var csum := CreateMsDosStubChecksum(a, Lfanew(a[..]));
    StoreWord(a, E_CSUM, csum);
  }

  method UpdatePe(src: WordSource, a: array<byte>, peheader: nat)
    requires peheader + 92 <= a.Length <= INT_MAX
    modifies a
    ensures a[..] == PatchPe(src, old(a[..]), peheader)
  {
    hide PeChecksum, Put32;
    StoreDword(a, peheader + PE_CHECKSUM, 0);
    var sum := CalcPeChecksum(src, a, peheader);
    StoreDword(a, peheader + PE_CHECKSUM, sum);
  }

  /** The checksum field lies clear of every field read after it is written. */
  lemma PatchPeKeepsHeaders(src: WordSource, b: seq<byte>, peheader: nat)
    requires peheader + 92 <= |b| <= INT_MAX
    ensures Word(PatchPe(src, b, peheader), peheader + PE_OPTIONAL_MAGIC) == Word(b, peheader + PE_OPTIONAL_MAGIC)
    ensures Word(PatchPe(src, b, peheader), peheader + PE_MACHINE) == Word(b, peheader + PE_MACHINE)
  {
  }

  /** Patching the PE checksum touches its four bytes only. */
  lemma PatchPeFrame(src: WordSource, b: seq<byte>, peheader: nat)
    requires peheader + 92 <= |b| <= INT_MAX
    ensures forall j :: 0 <= j < |b| && !(peheader + 88 <= j < peheader + 92) ==> PatchPe(src, b, peheader)[j] == b[j]
  {
  }

  lemma PatchStubKeeps(b: seq<byte>)
    requires 64 <= |b| && Lfanew(b) <= |b|
    ensures Word(PatchStub(b), 0) == Word(b, 0)
    ensures Lfanew(PatchStub(b)) == Lfanew(b)
  {
    hide StubChecksum;
    DwordKept(b, PatchStub(b), E_LFANEW);
  }

  /** The two optional-header branches, in the order of the code; the first cannot enable the second. */
  method UpdateOptionalHeader(src: WordSource, a: array<byte>, peheader: nat)
    requires peheader + 26 <= a.Length <= INT_MAX
    requires HasOptionalHeader(a[..], peheader) ==> peheader + 92 <= a.Length
    modifies a
    ensures a[..] == if old(HasOptionalHeader(a[..], peheader)) then PatchPe(src, old(a[..]), peheader) else old(a[..])
  {
    if Word(a[..], peheader + PE_OPTIONAL_MAGIC) == OPTIONAL_HDR32_MAGIC {
      PatchPeKeepsHeaders(src, a[..], peheader);
      UpdatePe(src, a, peheader);
    }
    if Word(a[..], peheader + PE_OPTIONAL_MAGIC) == OPTIONAL_HDR64_MAGIC {
      UpdatePe(src, a, peheader);
    }
  }

  /** One turn of the read loop on a loaded buffer: `code` is 0, or the exit code of the check that failed. */
  method PrepareInPlace(src: WordSource, a: array<byte>) returns (code: int, cputype: dword, cpusubtype: dword)
    requires InBounds(a[..])
    modifies a
    ensures match Prepare(src, old(a[..]))
            case Rejected(c) => code == c && code != 0
            case Ready(m) => code == 0 && m == Member(cputype, cpusubtype, a[..])
  {
    hide PatchStub, PatchPe;
    cputype, cpusubtype := 0, 0;
    var filemachine: word;
    if Word(a[..], 0) != DOS_SIGNATURE {
      if Word(a[..], 0) != TE_SIGNATURE {
        return -3, 0, 0;
      }
      filemachine := Word(a[..], TE_MACHINE);
    } else {
      PatchStubKeeps(a[..]);
      UpdateStub(a);
      var p := Lfanew(a[..]);
      if Dword(a[..], p) != NT_SIGNATURE {
        return -4, 0, 0;
      }
      filemachine := Word(a[..], p + PE_MACHINE);
      UpdateOptionalHeader(src, a, p);
    }
    match CpuOf(filemachine) {
      case Unsupported => code := -5;
      case Cpu(t, s) => code, cputype, cpusubtype := 0, t, s;
    }
  }
}
