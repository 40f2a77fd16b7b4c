/**
 The fat container: its header and architecture table, the layout the read loop plans, the bytes the write loops emit,
 and a reader that follows the description of the format.
 */
module Containers {
  import opened Bytes
  import opened Images

  const FAT_EFI_MAGIC: dword := 0x0EF1_FAB9
  const HEADER_SIZE: nat := 8
  const ARCH_SIZE: nat := 20

  datatype FatArch = FatArch(cputype: dword, cpusubtype: dword, offset: dword, size: dword, align: dword)

  // ----- printing and parsing one header or table entry

  function HeaderBytes(narch: dword): (s: seq<byte>)
    ensures |s| == HEADER_SIZE
  {
    Le32(FAT_EFI_MAGIC) + Le32(narch)
  }

  function ArchBytes(a: FatArch): (s: seq<byte>)
    ensures |s| == ARCH_SIZE
  {
    Le32(a.cputype) + Le32(a.cpusubtype) + Le32(a.offset) + Le32(a.size) + Le32(a.align)
  }

  function ParseArch(s: seq<byte>): FatArch
    requires |s| == ARCH_SIZE
  {
    FatArch(Dword(s, 0), Dword(s, 4), Dword(s, 8), Dword(s, 12), Dword(s, 16))
  }

  lemma ParseOfArchBytes(a: FatArch)
    ensures ParseArch(ArchBytes(a)) == a
  {
    hide Le32, Dword;
    var s := ArchBytes(a);
    assert s[0..4] == Le32(a.cputype);
    assert s[4..8] == Le32(a.cpusubtype);
    assert s[8..12] == Le32(a.offset);
    assert s[12..16] == Le32(a.size);
    assert s[16..20] == Le32(a.align);
    DwordInside(s, 0, a.cputype);
    DwordInside(s, 4, a.cpusubtype);
    DwordInside(s, 8, a.offset);
    DwordInside(s, 12, a.size);
    DwordInside(s, 16, a.align);
  }

  lemma ArchBytesOfParse(s: seq<byte>)
    requires |s| == ARCH_SIZE
    ensures ArchBytes(ParseArch(s)) == s
  {
    hide Le32, Dword;
    Le32OfDword(s, 0);
    Le32OfDword(s, 4);
    Le32OfDword(s, 8);
    Le32OfDword(s, 12);
    Le32OfDword(s, 16);
    assert s == s[0..4] + s[4..8] + s[8..12] + s[12..16] + s[16..20];
  }

  // ----- the table

  function TableBytes(t: seq<FatArch>): (s: seq<byte>)
    ensures |s| == ARCH_SIZE * |t|
  {
    if t == [] then [] else TableBytes(t[..|t| - 1]) + ArchBytes(t[|t| - 1])
  }

  lemma {:induction false} TableEntry(t: seq<FatArch>, i: nat)
    requires i < |t|
    ensures TableBytes(t)[ARCH_SIZE * i..ARCH_SIZE * (i + 1)] == ArchBytes(t[i])
  {
    hide ArchBytes;
    var n := |t| - 1;
    if i < n {
      TableEntry(t[..n], i);
    }
  }

  // ----- the layout

  /** The bytes taken by a run of bodies. */
  function BodySize(ms: seq<Member>): nat {
    if ms == [] then 0 else BodySize(ms[..|ms| - 1]) + |ms[|ms| - 1].image|
  }

  /** Where the body after `before` starts, in a container of `n` members. */
  function Start(n: nat, before: seq<Member>): nat {
    HEADER_SIZE + ARCH_SIZE * n + BodySize(before)
  }

  /** Where body `i` starts; for `i == |ms|`, where the file ends. */
  function Position(ms: seq<Member>, i: nat): nat
    requires i <= |ms|
  {
    Start(|ms|, ms[..i])
  }

  /** Every image is a file whose size a C `int` holds. */
  predicate Sized(ms: seq<Member>) {
    |ms| < 0x1_0000_0000 && forall i :: 0 <= i < |ms| ==> |ms[i].image| <= INT_MAX
  }

  /** The table entry of a member that starts at `start`; offsets are kept in 32 bits. */
  function Entry(m: Member, start: nat): FatArch
    requires |m.image| <= INT_MAX
  {
    FatArch(m.cputype, m.cpusubtype, Wrap32(start), |m.image|, 0)
  }

  /** The table the read loop fills in. */
  function Plan(ms: seq<Member>): (t: seq<FatArch>)
    requires Sized(ms)
    ensures |t| == |ms|
  {
    seq(|ms|, i requires 0 <= i < |ms| => Entry(ms[i], Position(ms, i)))
  }

  function Bodies(ms: seq<Member>): seq<byte> {
    if ms == [] then [] else Bodies(ms[..|ms| - 1]) + ms[|ms| - 1].image
  }

  /** The whole output file. */
  function Container(ms: seq<Member>): seq<byte>
    requires Sized(ms)
  {
    HeaderBytes(|ms|) + TableBytes(Plan(ms)) + Bodies(ms)
  }

  lemma BodiesLength(ms: seq<Member>)
    ensures |Bodies(ms)| == BodySize(ms)
  {
  }

  lemma PositionNext(ms: seq<Member>, i: nat)
    requires i < |ms|
    ensures Position(ms, i + 1) == Position(ms, i) + |ms[i].image|
  {
    assert ms[..i + 1][..i] == ms[..i];
  }

  lemma {:induction false} PositionMonotone(ms: seq<Member>, i: nat, j: nat)
    requires i <= j <= |ms|
    ensures Position(ms, i) <= Position(ms, j)
    decreases j - i
  {
    if i < j {
      PositionNext(ms, i);
      PositionMonotone(ms, i + 1, j);
    }
  }

  /** The slices follow the table and each other without gap or overlap, and fill the file to its end. */
  lemma LayoutIsTight(ms: seq<Member>)
    requires Sized(ms)
    ensures Position(ms, 0) == HEADER_SIZE + ARCH_SIZE * |ms|
    ensures forall i :: 0 <= i < |ms| ==> Position(ms, i + 1) == Position(ms, i) + |ms[i].image|
    ensures Position(ms, |ms|) == |Container(ms)|
  {
    forall i | 0 <= i < |ms|
      ensures Position(ms, i + 1) == Position(ms, i) + |ms[i].image|
    {
      PositionNext(ms, i);
    }
    assert ms[..|ms|] == ms;
    BodiesLength(ms);
  }

  /** Every byte after the table belongs to exactly one slice. */
  lemma {:induction false} SlicesPartition(ms: seq<Member>, k: nat, n: nat) returns (i: nat)
    requires n <= |ms| && Position(ms, 0) <= k < Position(ms, n)
    ensures i < n && Position(ms, i) <= k < Position(ms, i + 1)
    ensures forall j :: 0 <= j < |ms| && Position(ms, j) <= k < Position(ms, j + 1) ==> j == i
  {
    hide Position;
    if Position(ms, n - 1) <= k {
      i := n - 1;
    } else {
      i := SlicesPartition(ms, k, n - 1);
    }
    forall j | 0 <= j < |ms| && Position(ms, j) <= k < Position(ms, j + 1)
      ensures j == i
    {
      if j < i {
        PositionMonotone(ms, j + 1, i);
      } else if i < j {
        PositionMonotone(ms, i + 1, j);
      }
    }
  }

  /** What has been written before body `i`. */
  function Before(ms: seq<Member>, i: nat): seq<byte>
    requires Sized(ms) && i <= |ms|
  {
    HeaderBytes(|ms|) + TableBytes(Plan(ms)) + Bodies(ms[..i])
  }

  /** The planned offset is the position reached by the writer exactly when that position fits 32 bits. */
  lemma PlannedOffsetReached(ms: seq<Member>, i: nat)
    requires Sized(ms) && i < |ms|
    ensures |Before(ms, i)| == Position(ms, i)
    ensures Plan(ms)[i].offset == |Before(ms, i)| <==> Position(ms, i) < 0x1_0000_0000
  {
    hide HeaderBytes, TableBytes, Bodies, BodySize;
    BodiesLength(ms[..i]);
  }

  /** If the file is small enough for a C `int`, no addition to the running offset ever leaves that range. */
  lemma NoOffsetOverflow(ms: seq<Member>, i: nat)
    requires Sized(ms) && |Container(ms)| <= INT_MAX && i < |ms|
    ensures Position(ms, i) + |ms[i].image| <= INT_MAX
    ensures Plan(ms)[i].offset == Position(ms, i)
  {
    hide Container, Wrap32;
    LayoutIsTight(ms);
    PositionMonotone(ms, i + 1, |ms|);
    Wrap32Small(Position(ms, i));
  }

  /** One more member: earlier entries keep everything but their offset, which grows by one table entry. */
  lemma PlanExtends(ms: seq<Member>, m: Member, i: nat)
    requires Sized(ms + [m]) && Sized(ms) && i < |ms|
    ensures Position(ms + [m], i) == Position(ms, i) + ARCH_SIZE
    ensures Plan(ms + [m])[i] == Plan(ms)[i].(offset := Wrap32(Position(ms, i) + ARCH_SIZE))
  {
    assert (ms + [m])[..i] == ms[..i];
    assert (ms + [m])[i] == ms[i];
  }

  // ----- reading a container back

  datatype Reading = Malformed | Contents(members: seq<Member>)

  /** A count of entries that the file is long enough for, behind the right magic. */
  predicate HasTable(c: seq<byte>) {
    |c| >= HEADER_SIZE && Dword(c, 0) == FAT_EFI_MAGIC && HEADER_SIZE + ARCH_SIZE * Dword(c, 4) <= |c|
  }

  function ReadArch(c: seq<byte>, i: nat): FatArch
    requires HasTable(c) && i < Dword(c, 4)
  {
    ParseArch(c[HEADER_SIZE + ARCH_SIZE * i..HEADER_SIZE + ARCH_SIZE * (i + 1)])
  }

  predicate HasSlice(c: seq<byte>, a: FatArch) {
    a.offset + a.size <= |c|
  }

  function Slice(c: seq<byte>, a: FatArch): Member
    requires HasSlice(c, a)
  {
    Member(a.cputype, a.cpusubtype, c[a.offset..a.offset + a.size])
  }

  function ReadContainer(c: seq<byte>): Reading {
    if !HasTable(c) then Malformed
    else if exists i :: 0 <= i < Dword(c, 4) && !HasSlice(c, ReadArch(c, i)) then Malformed
    else Contents(seq(Dword(c, 4), i requires 0 <= i < Dword(c, 4) => Slice(c, ReadArch(c, i))))
  }

  /** Every body starts below 4 GiB, so that its offset can be recorded. */
  predicate Addressable(ms: seq<Member>) {
    forall i :: 0 <= i < |ms| ==> Position(ms, i) < 0x1_0000_0000
  }

  lemma ContainerHasTable(ms: seq<Member>)
    requires Sized(ms)
    ensures HasTable(Container(ms)) && Dword(Container(ms), 4) == |ms|
  {
    hide Le32, Dword, TableBytes, Bodies, Plan;
    var c := Container(ms);
    assert c[0..4] == Le32(FAT_EFI_MAGIC);
    assert c[4..8] == Le32(|ms|);
    DwordInside(c, 0, FAT_EFI_MAGIC);
    DwordInside(c, 4, |ms|);
  }

  lemma ContainerEntry(ms: seq<Member>, i: nat)
    requires Sized(ms) && i < |ms| && HasTable(Container(ms)) && Dword(Container(ms), 4) == |ms|
    ensures ReadArch(Container(ms), i) == Plan(ms)[i]
  {
    hide Le32, Dword, HeaderBytes, TableBytes, ArchBytes, ParseArch, Bodies, Plan;
    var c, t := Container(ms), TableBytes(Plan(ms));
    TableEntry(Plan(ms), i);
    var lo, hi := ARCH_SIZE * i, ARCH_SIZE * (i + 1);
    assert c[HEADER_SIZE + lo..HEADER_SIZE + hi] == t[lo..hi];
    ParseOfArchBytes(Plan(ms)[i]);
  }

  lemma {:induction false} BodyInside(ms: seq<Member>, i: nat)
    requires i < |ms|
    ensures BodySize(ms[..i]) + |ms[i].image| <= |Bodies(ms)|
    ensures Bodies(ms)[BodySize(ms[..i])..BodySize(ms[..i]) + |ms[i].image|] == ms[i].image
  {
    var n := |ms| - 1;
    BodiesLength(ms[..n]);
    if i < n {
      assert ms[..n][..i] == ms[..i];
      BodyInside(ms[..n], i);
    }
  }

  lemma ContainerBody(ms: seq<Member>, i: nat)
    requires Sized(ms) && i < |ms|
    ensures Position(ms, i) + |ms[i].image| <= |Container(ms)|
    ensures Container(ms)[Position(ms, i)..Position(ms, i) + |ms[i].image|] == ms[i].image
  {
    hide HeaderBytes, TableBytes, Bodies, BodySize, Plan;
    BodyInside(ms, i);
    var c, body, at, size := Container(ms), Bodies(ms), BodySize(ms[..i]), |ms[i].image|;
    assert c[Position(ms, i)..Position(ms, i) + size] == body[at..at + size];
  }

  /** What a reader finds for member `i`: the bytes at its start as far as 32 bits record it. */
  function Recorded(ms: seq<Member>, i: nat): Member
    requires Sized(ms) && i < |ms|
    requires Wrap32(Position(ms, i)) + |ms[i].image| <= |Container(ms)|
  {
    var start := Wrap32(Position(ms, i));
    ms[i].(image := Container(ms)[start..start + |ms[i].image|])
  }

  lemma RecordedInside(ms: seq<Member>, i: nat)
    requires Sized(ms) && i < |ms|
    ensures Wrap32(Position(ms, i)) + |ms[i].image| <= |Container(ms)|
    ensures HasSlice(Container(ms), Plan(ms)[i])
    ensures Slice(Container(ms), Plan(ms)[i]) == Recorded(ms, i)
  {
    hide Container, Position;
    ContainerBody(ms, i);
    Wrap32AtMost(Position(ms, i));
  }

  /** Reading a written container of any size returns, in order and with their CPUs, the bytes found at the recorded
      starts. */
  lemma ReadsRecorded(ms: seq<Member>)
    requires Sized(ms)
    ensures forall i :: 0 <= i < |ms| ==> Wrap32(Position(ms, i)) + |ms[i].image| <= |Container(ms)|
    ensures ReadContainer(Container(ms)) == Contents(seq(|ms|, i requires 0 <= i < |ms| => Recorded(ms, i)))
  {
    hide Container, Position, Plan, HasTable, ReadArch, HasSlice, Slice, Recorded, Wrap32;
    ContainerHasTable(ms);
    forall i | 0 <= i < |ms|
      ensures Wrap32(Position(ms, i)) + |ms[i].image| <= |Container(ms)|
      ensures ReadArch(Container(ms), i) == Plan(ms)[i]
      ensures HasSlice(Container(ms), Plan(ms)[i]) && Slice(Container(ms), Plan(ms)[i]) == Recorded(ms, i)
    {
      ContainerEntry(ms, i);
      RecordedInside(ms, i);
    }
  }

  /** The bytes at the start recorded for member `i` are its own: it starts below 4 GiB, or they happen to recur. */
  predicate Echoed(ms: seq<Member>, i: nat)
    requires Sized(ms) && i < |ms|
  {
    Wrap32(Position(ms, i)) + |ms[i].image| <= |Container(ms)| && Recorded(ms, i) == ms[i]
  }

  /** Reading a written container returns exactly its members if and only if every body starts below 4 GiB or is echoed
      at the start recorded for it. */
  lemma RoundTripExactly(ms: seq<Member>)
    requires Sized(ms)
    ensures ReadContainer(Container(ms)) == Contents(ms) <==>
              forall i :: 0 <= i < |ms| ==> Position(ms, i) < 0x1_0000_0000 || Echoed(ms, i)
  {
    hide Container, Position, ReadContainer;
    ReadsRecorded(ms);
    forall i | 0 <= i < |ms|
      ensures Recorded(ms, i) == ms[i] <==> Position(ms, i) < 0x1_0000_0000 || Echoed(ms, i)
    {
      ContainerBody(ms, i);
    }
    var r := seq(|ms|, i requires 0 <= i < |ms| => Recorded(ms, i));
    assert r == ms <==> forall i :: 0 <= i < |ms| ==> r[i] == ms[i];
  }

  /** Reading a written container returns exactly the members, in order, with their CPUs. */
  lemma RoundTrip(ms: seq<Member>)
    requires Sized(ms) && Addressable(ms)
    ensures ReadContainer(Container(ms)) == Contents(ms)
  {
    hide Container, Position, ReadContainer;
    RoundTripExactly(ms);
  }
}
