/** What preparing a file does to its bytes, for every file the tool can safely read. */
module Patching {
  import opened Bytes
  import opened WordSums
  import opened Checksums
  import opened Images
  import opened Machines
  import opened Seals
  import opened WrittenSums

  /** The image an accepted file ends up with. */
  function Prepared(src: WordSource, b: seq<byte>): seq<byte>
    requires InBounds(b) && Prepare(src, b).Ready?
  {
    Prepare(src, b).member.image
  }

  /** The parts an accepted MZ image is built from. */
  lemma PreparedIs(src: WordSource, b: seq<byte>)
    requires InBounds(b) && Prepare(src, b).Ready? && Word(b, 0) == DOS_SIGNATURE
    ensures 64 <= |b| && Lfanew(b) + 26 <= |b| && Dword(PatchStub(b), Lfanew(b)) == NT_SIGNATURE
    ensures HasOptionalHeader(b, Lfanew(b)) == HasOptionalHeader(PatchStub(b), Lfanew(b))
    ensures HasOptionalHeader(b, Lfanew(b)) ==> Lfanew(b) + 92 <= |b|
    ensures Prepared(src, b) ==
            if HasOptionalHeader(b, Lfanew(b)) then PatchPe(src, PatchStub(b), Lfanew(b)) else PatchStub(b)
  {
    hide PatchStub, PatchPe, CpuOf;
    PatchStubFrame(b);
  }

  lemma PatchStubFrame(b: seq<byte>)
    requires 64 <= |b| && Lfanew(b) <= |b|
    ensures forall j :: 0 <= j < |b| && !(18 <= j < 20) ==> PatchStub(b)[j] == b[j]
  {
  }

  lemma StubFirstByte(b: seq<byte>)
    requires 64 <= |b| && Lfanew(b) <= |b| && Word(b, 0) == DOS_SIGNATURE
    ensures PatchStub(b)[0] == 0x4D
  {
    hide PatchStub;
    PatchStubFrame(b);
  }

  /** An MZ image changes at most in its two checksum fields, a TE image nowhere. */
  lemma PrepareFrame(src: WordSource, b: seq<byte>, j: nat)
    requires InBounds(b) && Prepare(src, b).Ready? && j < |b|
    ensures |Prepared(src, b)| == |b|
    ensures Prepared(src, b)[j] != b[j] ==>
              && Word(b, 0) == DOS_SIGNATURE
              && (18 <= j < 20 || (HasOptionalHeader(b, Lfanew(b)) && Lfanew(b) + 88 <= j < Lfanew(b) + 92))
  {
    hide PatchStub, PatchPe, CpuOf;
    if Word(b, 0) == DOS_SIGNATURE {
      PreparedIs(src, b);
      PatchStubFrame(b);
      if HasOptionalHeader(b, Lfanew(b)) {
        PatchPeFrame(src, PatchStub(b), Lfanew(b));
      }
    }
  }

  /** Patching the stub again finds nothing to change, even if bytes beyond the stub and header have changed since. */
  lemma StubStable(b: seq<byte>, c: seq<byte>)
    requires 64 <= |b| == |c| && Lfanew(b) <= |b|
    requires forall j :: 0 <= j < |b| && (j < Lfanew(b) || j < 64) ==> c[j] == PatchStub(b)[j]
    ensures Lfanew(c) == Lfanew(b)
    ensures PatchStub(c) == c
  {
    hide StubChecksum;
    var p := Lfanew(b);
    PatchStubFrame(b);
    DwordKept(b, c, E_LFANEW);
    var bz, cz := Put16(b, E_CSUM, 0), Put16(c, E_CSUM, 0);
    assert bz[..p] == cz[..p];
    SameStubChecksum(bz, cz, p);
    var s := Le16(StubChecksum(bz, p));
    assert c[18] == s[0] && c[19] == s[1];
  }

  lemma SameStubChecksum(b: seq<byte>, c: seq<byte>, len: nat)
    requires len <= |b| == |c| && b[..len] == c[..len]
    ensures StubChecksum(b, len) == StubChecksum(c, len)
  {
    StubSumLocal(b, c, len);
  }

  /** A PE checksum filled in before is cleared again: only the last word source counts. */
  lemma PeOverwritten(src: WordSource, other: WordSource, b: seq<byte>, peheader: nat)
    requires peheader + 92 <= |b| <= INT_MAX
    ensures PatchPe(other, PatchPe(src, b, peheader), peheader) == PatchPe(other, b, peheader)
  {
    hide PeChecksum, Le32;
    var field := peheader + PE_CHECKSUM;
    var cleared := Put32(b, field, 0);
    SpliceOverwrites(cleared, field, Le32(PeChecksum(src, cleared, peheader)), Le32(0));
    SpliceOverwrites(b, field, Le32(0), Le32(0));
  }

  lemma HeadersAgree(b: seq<byte>, c: seq<byte>, peheader: nat)
    requires peheader + 26 <= |b| == |c|
    requires forall j :: 0 <= j < |b| && !(peheader + 88 <= j < peheader + 92) ==> c[j] == b[j]
    ensures Word(c, 0) == Word(b, 0)
    ensures Dword(c, peheader) == Dword(b, peheader)
    ensures Word(c, peheader + PE_MACHINE) == Word(b, peheader + PE_MACHINE)
    ensures HasOptionalHeader(c, peheader) == HasOptionalHeader(b, peheader)
  {
    DwordKept(b, c, peheader);
  }

  /** A prepared MZ image keeps every header field and its stub checksum; its PE checksum gives way to another. */
  lemma PreparedStable(src: WordSource, other: WordSource, b: seq<byte>)
    requires InBounds(b) && Prepare(src, b).Ready? && Word(b, 0) == DOS_SIGNATURE
    ensures 64 <= |b| && Lfanew(b) + 26 <= |b|
    ensures var c, s, p := Prepared(src, b), PatchStub(b), Lfanew(b);
            && |c| == |b| && Lfanew(c) == p && PatchStub(c) == c
            && Word(c, 0) == Word(b, 0) && Dword(c, p) == Dword(s, p)
            && Word(c, p + PE_MACHINE) == Word(s, p + PE_MACHINE)
            && HasOptionalHeader(c, p) == HasOptionalHeader(s, p)
            && (HasOptionalHeader(s, p) ==> p + 92 <= |b| && PatchPe(other, c, p) == PatchPe(other, s, p))
  {
    hide Prepare, PatchStub, PatchPe, Word, Dword, CpuOf, Prepared;
    PreparedIs(src, b);
    var c, s, p := Prepared(src, b), PatchStub(b), Lfanew(b);
    PatchStubFrame(b);
    PatchStubKeeps(b);
    if HasOptionalHeader(b, p) {
      PatchPeFrame(src, s, p);
      PeOverwritten(src, other, s, p);
    }
    StubStable(b, c);
    HeadersAgree(s, c, p);
  }

  /** Preparing a prepared image again, with the same or another word source, is preparing the original with the later
      source: it is in bounds, accepted, and given the same CPU. */
  lemma PrepareAgain(src: WordSource, other: WordSource, b: seq<byte>)
    requires InBounds(b) && Prepare(src, b).Ready?
    ensures InBounds(Prepared(src, b))
    ensures Prepare(other, Prepared(src, b)) == Prepare(other, b)
  {
    hide PatchStub, PatchPe, Word, Dword, Lfanew, HasOptionalHeader, CpuOf;
    if Word(b, 0) == DOS_SIGNATURE {
      PreparedStable(src, other, b);
    }
  }

  /** Two word sources fill in the same PE checksum, or there is none to fill in. */
  predicate SameChecksum(src: WordSource, other: WordSource, b: seq<byte>)
    requires InBounds(b)
  {
    Word(b, 0) == DOS_SIGNATURE && Dword(PatchStub(b), Lfanew(b)) == NT_SIGNATURE &&
    HasOptionalHeader(PatchStub(b), Lfanew(b)) ==>
      var cleared := Put32(PatchStub(b), Lfanew(b) + PE_CHECKSUM, 0);
      Fold(PeSum(src, cleared, Lfanew(b))) == Fold(PeSum(other, cleared, Lfanew(b)))
  }

  /** Preparing again leaves every byte as it is exactly when the two word sources fill in the same checksum; so always
      with the same source twice. */
  lemma PrepareIdempotent(src: WordSource, other: WordSource, b: seq<byte>)
    requires InBounds(b) && Prepare(src, b).Ready?
    ensures InBounds(Prepared(src, b))
    ensures Prepare(other, Prepared(src, b)) == Prepare(src, b) <==> SameChecksum(src, other, b)
  {
    hide InBounds, Prepare, SameChecksum;
    PrepareAgain(src, other, b);
    SourceAffectsChecksumOnly(src, other, b);
  }

  /** Both checksums of a finished MZ image: when each holds on the bytes that go into the container. */
  lemma PrepareSeals(src: WordSource, b: seq<byte>)
    requires InBounds(b) && Prepare(src, b).Ready? && Word(b, 0) == DOS_SIGNATURE
    ensures 64 <= |b| && Lfanew(b) + 26 <= |b| == |Prepared(src, b)|
    ensures StubSealed(Prepared(src, b), Lfanew(b)) <==> Lfanew(b) >= 20 || StubSealed(b, Lfanew(b))
    ensures HasOptionalHeader(b, Lfanew(b)) ==>
              && Lfanew(b) + 92 <= |b|
              && (PeSealed(Prepared(src, b), Lfanew(b)) <==> PeSealCondition(src, PatchStub(b), Lfanew(b)))
  {
    hide PatchPe, StubSealed, PeSealed, PeSealCondition, CpuOf;
    var p, s := Lfanew(b), PatchStub(b);
    PreparedIs(src, b);
    PatchedStubSealed(b);
    if HasOptionalHeader(b, p) {
      StubFirstByte(b);
      PatchedPeSealed(src, s, p);
      PatchPeFrame(src, s, p);
      assert PatchPe(src, s, p)[..p] == s[..p];
      SameStubSeal(PatchPe(src, s, p), s, p);
    }
  }

  lemma SameStubSeal(b: seq<byte>, c: seq<byte>, len: nat)
    requires len <= |b| == |c| && b[..len] == c[..len]
    ensures StubSealed(b, len) == StubSealed(c, len)
  {
    StubSumLocal(b, c, len);
  }

  /** With the meant words, the PE checksum of an image holds at every even header offset, and at an odd one exactly when
      the value stored is a multiple of 65535. */
  lemma MeantImagesSealed(b: seq<byte>)
    requires InBounds(b) && Prepare(AsMeant, b).Ready? && Word(b, 0) == DOS_SIGNATURE
    ensures 64 <= |b| && Lfanew(b) + 26 <= |b| == |Prepared(AsMeant, b)|
    ensures HasOptionalHeader(b, Lfanew(b)) ==>
              && Lfanew(b) + 92 <= |b|
              && (PeSealed(Prepared(AsMeant, b), Lfanew(b)) <==>
                    || Lfanew(b) % 2 == 0
                    || (PeSum(AsMeant, Put32(PatchStub(b), Lfanew(b) + PE_CHECKSUM, 0), Lfanew(b)) + |b|) % 0xFFFF == 0)
  {
    hide PatchStub, PatchPe, StubSealed, PeSealed, PeSealCondition, PeSum, CpuOf, Put32, Prepare, Word, Dword;
    PrepareSeals(AsMeant, b);
    PreparedIs(AsMeant, b);
    if HasOptionalHeader(b, Lfanew(b)) {
      StubFirstByte(b);
      MeantPeSealed(PatchStub(b), Lfanew(b));
    }
  }

  /** With the meant words and an even header offset of 20 or more, both checksums hold of the bytes written. */
  lemma BothChecksumsHold(b: seq<byte>)
    requires InBounds(b) && Prepare(AsMeant, b).Ready? && Word(b, 0) == DOS_SIGNATURE
    requires Lfanew(b) + 92 <= |b| && HasOptionalHeader(b, Lfanew(b))
    requires 20 <= Lfanew(b) && Lfanew(b) % 2 == 0
    ensures |Prepared(AsMeant, b)| == |b|
    ensures StubSealed(Prepared(AsMeant, b), Lfanew(b)) && PeSealed(Prepared(AsMeant, b), Lfanew(b))
  {
    hide PatchStub, StubSealed, PeSealed, PeSealCondition, PeSum, Put32, Prepare, InBounds, Word, Dword, HasOptionalHeader;
    PrepareSeals(AsMeant, b);
    MeantImagesSealed(b);
  }

  // ----- what the choice of words can affect

  lemma PatchPeSources(src: WordSource, other: WordSource, b: seq<byte>, peheader: nat)
    requires peheader + 92 <= |b| <= INT_MAX
    ensures var cleared := Put32(b, peheader + PE_CHECKSUM, 0);
            PatchPe(src, b, peheader) == PatchPe(other, b, peheader) <==>
              Fold(PeSum(src, cleared, peheader)) == Fold(PeSum(other, cleared, peheader))
  {
    hide PeChecksum, PeSum, Fold, Put32, Dword;
    var field := peheader + PE_CHECKSUM;
    var cleared := Put32(b, field, 0);
    PeChecksumDoesNotWrap(src, cleared, peheader);
    PeChecksumDoesNotWrap(other, cleared, peheader);
    DwordOfPut32(cleared, field, PeChecksum(src, cleared, peheader));
    DwordOfPut32(cleared, field, PeChecksum(other, cleared, peheader));
  }

  /** Whether a file is accepted, and as which CPU, does not depend on the words summed; two sources give the same
      image exactly when they fill in the same checksum. */
  lemma SourceAffectsChecksumOnly(src: WordSource, other: WordSource, b: seq<byte>)
    requires InBounds(b)
    ensures Prepare(src, b).Rejected? ==> Prepare(other, b) == Prepare(src, b)
    ensures Prepare(src, b).Ready? ==>
              && Prepare(other, b).Ready?
              && Prepare(other, b).member == Prepare(src, b).member.(image := Prepared(other, b))
    ensures Prepare(src, b).Ready? ==> (Prepare(other, b) == Prepare(src, b) <==> SameChecksum(src, other, b))
  {
    hide PatchStub, PatchPe, PeSum, Fold, CpuOf, Put32, Word, Dword;
    if Word(b, 0) == DOS_SIGNATURE && Prepare(src, b).Ready? {
      PreparedIs(src, b);
      PreparedIs(other, b);
      if HasOptionalHeader(b, Lfanew(b)) {
        PatchPeSources(src, other, PatchStub(b), Lfanew(b));
      }
    }
  }

  lemma WrittenFoldsEqual(first: nat, second: nat, b: seq<byte>, peheader: nat)
    requires peheader + 92 <= |b| <= INT_MAX
    ensures Fold(PeSum(AsWritten(first), b, peheader)) == Fold(PeSum(AsWritten(second), b, peheader)) <==>
              (WrittenSum(first, |b|, peheader) - WrittenSum(second, |b|, peheader)) % 0xFFFF == 0
  {
    hide PeSum, Fold, WrittenSum;
    WrittenSumIs(first, b, peheader);
    WrittenSumIs(second, b, peheader);
    WrittenSumPositive(first, b, peheader);
    WrittenSumPositive(second, b, peheader);
    FoldEqual(PeSum(AsWritten(first), b, peheader), PeSum(AsWritten(second), b, peheader));
  }

  /** As written, preparing an image again from a buffer at another address changes nothing exactly when there is no PE
      checksum to fill in, or the two sums, which address, size and header offset fix, agree modulo 65535. */
  lemma WrittenIdempotent(first: nat, second: nat, b: seq<byte>)
    requires InBounds(b) && Prepare(AsWritten(first), b).Ready? && Word(b, 0) == DOS_SIGNATURE
    ensures InBounds(Prepared(AsWritten(first), b)) && Lfanew(b) + 26 <= |b|
    ensures Prepare(AsWritten(second), Prepared(AsWritten(first), b)) == Prepare(AsWritten(first), b) <==>
              HasOptionalHeader(b, Lfanew(b)) ==>
                (WrittenSum(first, |b|, Lfanew(b)) - WrittenSum(second, |b|, Lfanew(b))) % 0xFFFF == 0
  {
    hide PatchStub, Prepare, PeSum, Fold, Put32, Word, Dword, WrittenSum, HasOptionalHeader;
    PrepareIdempotent(AsWritten(first), AsWritten(second), b);
    PreparedIs(AsWritten(first), b);
    if HasOptionalHeader(b, Lfanew(b)) {
      WrittenFoldsEqual(first, second, Put32(PatchStub(b), Lfanew(b) + PE_CHECKSUM, 0), Lfanew(b));
    }
  }
}
