/** The header and table come out byte for byte the same from a little-endian and from a big-endian build. */
module Endianness {
  import opened Bytes
  import opened Containers

  /** The host a build runs on: which macro branch is compiled and how a field is stored. */
  datatype Build = LittleEndian | BigEndian

  function Reversed4(s: seq<byte>): (r: seq<byte>)
    requires |s| == 4
    ensures |r| == 4
  {
    [s[3], s[2], s[1], s[0]]
  }

  /** `OSSwapInt32`: the value of the bytes in reverse. */
  function Swap32(v: dword): dword {
    Dword(Reversed4(Le32(v)), 0)
  }

  /** `ARCHSWAP`: the identity except on PowerPC. */
  function ArchSwap(build: Build, v: dword): dword {
    match build
    case LittleEndian => v
    case BigEndian => Swap32(v)
  }

  /** `FAT_EFI_MAGIC` as defined for each build. */
  function Magic(build: Build): dword {
    match build
    case LittleEndian => 0x0EF1_FAB9
    case BigEndian => 0xB9FA_F10E
  }

  /** The bytes `fwrite` emits for a 32-bit field in memory. */
  function Stored(build: Build, v: dword): (s: seq<byte>)
    ensures |s| == 4
  {
    match build
    case LittleEndian => Le32(v)
    case BigEndian => Reversed4(Le32(v))
  }

  function StoredHeader(build: Build, narch: dword): seq<byte> {
    Stored(build, Magic(build)) + Stored(build, ArchSwap(build, narch))
  }

  /** A table entry as the tool fills it in; the alignment is assigned a plain 0, which is its own swap. */
  function StoredArch(build: Build, a: FatArch): (s: seq<byte>)
    ensures |s| == ARCH_SIZE
  {
    Stored(build, ArchSwap(build, a.cputype)) + Stored(build, ArchSwap(build, a.cpusubtype)) +
    Stored(build, ArchSwap(build, a.offset)) + Stored(build, ArchSwap(build, a.size)) + Stored(build, a.align)
  }

  function StoredTable(build: Build, t: seq<FatArch>): seq<byte> {
    if t == [] then [] else StoredTable(build, t[..|t| - 1]) + StoredArch(build, t[|t| - 1])
  }

  lemma StoredSwap(build: Build, v: dword)
    ensures Stored(build, ArchSwap(build, v)) == Le32(v)
  {
    hide Le32, Dword;
    if build == BigEndian {
      var s := Le32(v);
      assert s == [s[0], s[1], s[2], s[3]];
      var r := Reversed4(s);
      assert r[0..4] == r;
      Le32OfDword(r, 0);
    }
  }

  lemma StoredMagic(build: Build)
    ensures Stored(build, Magic(build)) == Le32(FAT_EFI_MAGIC)
  {
    hide Le32, Dword;
    var little, big := [0xB9, 0xFA, 0xF1, 0x0E], [0x0E, 0xF1, 0xFA, 0xB9];
    DwordJoined(little, 0);
    DwordJoined(big, 0);
    Le32OfDword(little, 0);
    Le32OfDword(big, 0);
    assert little[0..4] == little && big[0..4] == big;
  }

  /** For every field value and table length, both builds write the little-endian header and table. */
  lemma {:induction false} BuildsAgree(build: Build, narch: dword, t: seq<FatArch>)
    requires forall i :: 0 <= i < |t| ==> t[i].align == 0
    ensures StoredHeader(build, narch) == HeaderBytes(narch)
    ensures StoredTable(build, t) == TableBytes(t)
  {
    hide Stored, ArchSwap, Le32;
    StoredMagic(build);
    StoredSwap(build, narch);
    if t != [] {
      var a := t[|t| - 1];
      StoredSwap(build, a.cputype);
      StoredSwap(build, a.cpusubtype);
      StoredSwap(build, a.offset);
      StoredSwap(build, a.size);
      StoredZero(build);
      BuildsAgree(build, narch, t[..|t| - 1]);
    }
  }

  lemma StoredZero(build: Build)
    ensures Stored(build, 0) == Le32(0)
  {
    Le32OfZero();
  }
}
