/** Where the compiler puts the fields of the header structures, and so why the tool's offsets are what they are. */
module Structs {
  import opened Images
  import opened Containers

  /** Consecutive members of one scalar width. */
  datatype Fields = Fields(width: nat, count: nat)

  // The members of each structure, up to but not including the one named.
  const STUB_TO_CSUM: seq<Fields> := [Fields(2, 9)]
  const STUB_TO_LFANEW: seq<Fields> := [Fields(2, 30)]
  const TEHDR_TO_MACHINE: seq<Fields> := [Fields(2, 1)]
  const FILEHDR: seq<Fields> := [Fields(2, 2), Fields(4, 3), Fields(2, 2)]
  const AOUTHDR_TO_CHECKSUM: seq<Fields> := [Fields(2, 2), Fields(4, 6), Fields(4, 3), Fields(2, 6), Fields(4, 3)]
  const AOUTHDR_64_TO_CHECKSUM: seq<Fields> :=
    [Fields(2, 2), Fields(4, 5), Fields(8, 1), Fields(4, 2), Fields(2, 6), Fields(4, 3)]
  const FAT_HEADER: seq<Fields> := [Fields(4, 2)]
  const FAT_ARCH: seq<Fields> := [Fields(4, 5)]

  /** Natural alignment: the first multiple of a scalar's width at or after `x`. */
  function AlignUp(x: nat, width: nat): nat {
    match width
    case 2 => (x + 1) / 2 * 2
    case 4 => (x + 3) / 4 * 4
    case 8 => (x + 7) / 8 * 8
    case _ => x
  }

  /** The offset reached after placing `fields` from offset `at` on. */
  function Place(at: nat, fields: seq<Fields>): nat
    decreases fields
  {
    if fields == [] then at
    else
      var f := fields[0];
      Place(AlignUp(at, f.width) + f.width * f.count, fields[1..])
  }

  lemma PlaceNext(at: nat, width: nat, count: nat, rest: seq<Fields>)
    ensures Place(at, [Fields(width, count)] + rest) == Place(AlignUp(at, width) + width * count, rest)
  {
    assert ([Fields(width, count)] + rest)[1..] == rest;
  }

  lemma CheckSumOffset32()
    ensures Place(0, AOUTHDR_TO_CHECKSUM) == 64
  {
    hide Place;
    var tail := [Fields(4, 3), Fields(2, 6), Fields(4, 3)];
    assert AOUTHDR_TO_CHECKSUM == [Fields(2, 2)] + ([Fields(4, 6)] + tail);
    PlaceNext(0, 2, 2, [Fields(4, 6)] + tail);
    PlaceNext(4, 4, 6, tail);
    assert tail == [Fields(4, 3)] + ([Fields(2, 6)] + ([Fields(4, 3)] + []));
    PlaceNext(28, 4, 3, [Fields(2, 6)] + ([Fields(4, 3)] + []));
    PlaceNext(40, 2, 6, [Fields(4, 3)] + []);
    PlaceNext(52, 4, 3, []);
    PlaceNothing(64);
  }

  lemma PlaceNothing(at: nat)
    ensures Place(at, []) == at
  {
  }

  lemma CheckSumOffset64()
    ensures Place(0, AOUTHDR_64_TO_CHECKSUM) == 64
  {
    hide Place;
    var tail := [Fields(4, 2), Fields(2, 6), Fields(4, 3)];
    assert AOUTHDR_64_TO_CHECKSUM == [Fields(2, 2)] + ([Fields(4, 5)] + ([Fields(8, 1)] + tail));
    PlaceNext(0, 2, 2, [Fields(4, 5)] + ([Fields(8, 1)] + tail));
    PlaceNext(4, 4, 5, [Fields(8, 1)] + tail);
    PlaceNext(24, 8, 1, tail);
    assert tail == [Fields(4, 2)] + ([Fields(2, 6)] + ([Fields(4, 3)] + []));
    PlaceNext(32, 4, 2, [Fields(2, 6)] + ([Fields(4, 3)] + []));
    PlaceNext(40, 2, 6, [Fields(4, 3)] + []);
    PlaceNext(52, 4, 3, []);
    PlaceNothing(64);
  }

  /** Both optional headers put CheckSum at 64, so both branches of the tool write the field the PE sum skips. */
  lemma CheckSumOffset()
    ensures Place(0, AOUTHDR_TO_CHECKSUM) == Place(0, AOUTHDR_64_TO_CHECKSUM)
    ensures PE_CHECKSUM == 4 + Place(0, FILEHDR) + Place(0, AOUTHDR_TO_CHECKSUM)
    ensures PE_OPTIONAL_MAGIC == 4 + Place(0, FILEHDR)
  {
    CheckSumOffset32();
    CheckSumOffset64();
    hide Place;
    assert FILEHDR == [Fields(2, 2)] + ([Fields(4, 3)] + ([Fields(2, 2)] + []));
    PlaceNext(0, 2, 2, [Fields(4, 3)] + ([Fields(2, 2)] + []));
    PlaceNext(4, 4, 3, [Fields(2, 2)] + []);
    PlaceNext(16, 2, 2, []);
    PlaceNothing(20);
  }

  lemma PlaceOne(width: nat, count: nat)
    ensures Place(0, [Fields(width, count)]) == width * count
  {
    PlaceNext(0, width, count, []);
    assert [Fields(width, count)] + [] == [Fields(width, count)];
  }

  /** The remaining offsets and sizes the tool relies on. */
  lemma OtherOffsets()
    ensures Place(0, STUB_TO_CSUM) == E_CSUM && Place(0, STUB_TO_LFANEW) == E_LFANEW
    ensures Place(0, TEHDR_TO_MACHINE) == TE_MACHINE
    ensures Place(0, FAT_HEADER) == HEADER_SIZE && Place(0, FAT_ARCH) == ARCH_SIZE
  {
    hide Place;
    PlaceOne(2, 9);
    PlaceOne(2, 30);
    PlaceOne(2, 1);
    PlaceOne(4, 2);
    PlaceOne(4, 5);
  }
}
