/** Which files the tool accepts, as which CPU, and with which code it rejects the others, read off their bytes. */
module Verdicts {
  import opened Bytes
  import opened WordSums
  import opened Checksums
  import opened Images
  import opened Machines
  import opened Patching

  /** The file starts with "MZ". */
  predicate IsMz(b: seq<byte>) {
    2 <= |b| && b[0] == 0x4D && b[1] == 0x5A
  }

  /** The file starts with "VZ". */
  predicate IsTe(b: seq<byte>) {
    2 <= |b| && b[0] == 0x56 && b[1] == 0x5A
  }

  /** Its `e_lfanew` leads to "PE" and two zero bytes, once the stub checksum is in place. */
  predicate LeadsToPe(b: seq<byte>)
    requires InBounds(b) && IsMz(b)
  {
    var p, s := Lfanew(b), PatchStub(b);
    s[p] == 0x50 && s[p + 1] == 0x45 && s[p + 2] == 0 && s[p + 3] == 0
  }

  /** The file passes its signature checks. */
  predicate Recognised(b: seq<byte>)
    requires InBounds(b)
  {
    IsTe(b) || (IsMz(b) && LeadsToPe(b))
  }

  lemma Signatures(b: seq<byte>)
    requires 2 <= |b|
    ensures Word(b, 0) == DOS_SIGNATURE <==> IsMz(b)
    ensures Word(b, 0) == TE_SIGNATURE <==> IsTe(b)
  {
  }

  lemma PeSignature(s: seq<byte>, p: nat)
    requires p + 4 <= |s|
    ensures Dword(s, p) == NT_SIGNATURE <==> s[p] == 0x50 && s[p + 1] == 0x45 && s[p + 2] == 0 && s[p + 3] == 0
  {
    hide Dword;
    DwordJoined(s, p);
  }

  /** The header offset is the 32-bit number in bytes 60-63. */
  lemma HeaderOffsetBytes(b: seq<byte>)
    requires 64 <= |b|
    ensures Lfanew(b) == b[60] as int + 0x100 * b[61] as int + 0x1_0000 * b[62] as int + 0x100_0000 * b[63] as int
  {
    hide Dword;
    DwordJoined(b, 60);
  }

  /** The length checks the code leaves to its caller, and no more: how far each kind of file is read. */
  lemma BoundsExactly(b: seq<byte>)
    ensures InBounds(b) <==>
              && 2 <= |b| <= 0x7FFF_FFFF
              && (IsTe(b) ==> 4 <= |b|)
              && (IsMz(b) ==>
                    && 64 <= |b| && Lfanew(b) + 4 <= |b|
                    && var p, s := Lfanew(b), PatchStub(b);
                       s[p] == 0x50 && s[p + 1] == 0x45 && s[p + 2] == 0 && s[p + 3] == 0 ==>
                         && p + 26 <= |b|
                         && (s[p + 24] == 0x0B && (s[p + 25] == 0x01 || s[p + 25] == 0x02) ==> p + 92 <= |b|))
  {
    hide PatchStub, Dword, Word, HasOptionalHeader;
    if 2 <= |b| {
      Signatures(b);
      if IsMz(b) && 64 <= |b| && Lfanew(b) + 4 <= |b| {
        PeSignature(PatchStub(b), Lfanew(b));
        if Lfanew(b) + 26 <= |b| {
          OptionalHeaderMagics(PatchStub(b), Lfanew(b));
        }
      }
    }
  }

  /** Within bounds the machine field of a recognised file can be read. */
  lemma MachineInBounds(b: seq<byte>)
    requires InBounds(b) && Recognised(b)
    ensures IsTe(b) ==> 4 <= |b|
    ensures IsMz(b) ==> Lfanew(b) + 26 <= |b|
  {
    hide PatchStub, Dword, Word;
    Signatures(b);
    if IsMz(b) {
      PeSignature(PatchStub(b), Lfanew(b));
    }
  }

  /** The machine the file says it is for: bytes 2-3 of a TE file, the two bytes behind the PE signature otherwise. */
  function MachineOf(b: seq<byte>): word
    requires InBounds(b) && Recognised(b)
  {
    MachineInBounds(b);
    if IsTe(b) then Join(b[2], b[3])
    else
      var p, s := Lfanew(b), PatchStub(b);
      Join(s[p + 4], s[p + 5])
  }

  /** Every verdict from the bytes of the file: the code of the first check that fails, or the CPU of its machine. */
  lemma VerdictOf(src: WordSource, b: seq<byte>)
    requires InBounds(b)
    ensures Prepare(src, b) == Rejected(-3) <==> !IsMz(b) && !IsTe(b)
    ensures Prepare(src, b) == Rejected(-4) <==> IsMz(b) && !LeadsToPe(b)
    ensures Prepare(src, b) == Rejected(-5) <==> Recognised(b) && MachineOf(b) !in SUPPORTED_MACHINES
    ensures Prepare(src, b).Ready? <==> Recognised(b) && MachineOf(b) in SUPPORTED_MACHINES
    ensures Prepare(src, b).Ready? ==>
              CpuOf(MachineOf(b)) == Cpu(Prepare(src, b).member.cputype, Prepare(src, b).member.cpusubtype)
  {
    hide PatchStub, PatchPe, Dword, CpuOf, HasOptionalHeader;
    Signatures(b);
    if IsMz(b) {
      PeSignature(PatchStub(b), Lfanew(b));
    }
    if Recognised(b) {
      SupportedMachines(MachineOf(b));
    }
  }

  // ----- the optional header

  /** The two optional-header magics, PE32 and PE32+. */
  lemma OptionalHeaderMagics(b: seq<byte>, p: nat)
    requires p + 26 <= |b|
    ensures HasOptionalHeader(b, p) <==> b[p + 24] == 0x0B && (b[p + 25] == 0x01 || b[p + 25] == 0x02)
  {
  }

  /** An accepted MZ file with either magic ends up with the folded sum plus the size in its CheckSum field; one with
      neither has only its stub checksum filled in. */
  lemma StoredChecksum(src: WordSource, b: seq<byte>)
    requires InBounds(b) && IsMz(b) && Prepare(src, b).Ready?
    ensures 64 <= |b| && Lfanew(b) + 26 <= |b| == |Prepared(src, b)|
    ensures var p := Lfanew(b);
            if b[p + 24] == 0x0B && (b[p + 25] == 0x01 || b[p + 25] == 0x02) then
              && p + 92 <= |b|
              && Dword(Prepared(src, b), p + 88) ==
                 Fold(PeSum(src, Put32(PatchStub(b), p + 88, 0), p)) + |b|
            else
              Prepared(src, b) == PatchStub(b)
  {
    hide PatchStub, Dword, Put32, PeSum, PeChecksum, Fold, Prepare, Word;
    Signatures(b);
    PreparedIs(src, b);
    OptionalHeaderMagics(b, Lfanew(b));
    if HasOptionalHeader(b, Lfanew(b)) {
      var cleared := Put32(PatchStub(b), Lfanew(b) + 88, 0);
      PeChecksumDoesNotWrap(src, cleared, Lfanew(b));
      DwordOfPut32(cleared, Lfanew(b) + 88, PeChecksum(src, cleared, Lfanew(b)));
    }
  }
}
