/**
 The two checksums the tool computes: the MS-DOS stub checksum and the PE checksum.

 The PE loop forms each word from the buffer's address, not from the bytes stored there. `WordSource` keeps both
 readings: `AsWritten` is the code, `AsMeant` the little-endian word at the cursor.
 */
module Checksums {
  import opened Bytes
  import opened WordSums

  // ----- the MS-DOS stub checksum

  /** The unbounded sum of the `len / 2` words the stub checksum visits. */
  function StubSum(b: seq<byte>, len: nat): nat
    requires len <= |b|
  {
    Sum(Words(b)[..len / 2])
  }

  lemma ComplementWraps(s: nat)
    ensures (s + Wrap16(0x1_0000 - Wrap16(s))) % 0x1_0000 == 0
  {
    var q, r := s / 0x1_0000, s % 0x1_0000;
    if r == 0 {
      Wrap16Is(0x1_0000 - r, 1, 0);
    } else {
      Wrap16Is(0x1_0000 - r, 0, 0x1_0000 - r);
      assert s + (0x1_0000 - r) == 0x1_0000 * (q + 1);
    }
  }

  /** The two's complement of the stub sum. */
  function StubChecksum(b: seq<byte>, len: nat): (r: word)
    requires len <= |b|
    ensures (StubSum(b, len) + r) % 0x1_0000 == 0
  {
    ComplementWraps(StubSum(b, len));
    Wrap16(0x1_0000 - Wrap16(StubSum(b, len)))
  }

  method CreateMsDosStubChecksum(buffer: array<byte>, len: nat) returns (r: word)
    requires len <= buffer.Length
    ensures r == StubChecksum(buffer[..], len)
  {
    hide Sum, Wrap16, Join;
    var checksum: word := 0;
    var donecnt := 0;
    ghost var ws := Words(buffer[..]);
    SumOfNothing(ws);
    Wrap16Is(0, 0, 0);
    while donecnt < len / 2
      invariant 0 <= donecnt <= len / 2
      invariant checksum == Wrap16(Sum(ws[..donecnt]))
    {
      var w := Join(buffer[2 * donecnt], buffer[2 * donecnt + 1]);
      assert w == ws[donecnt];
      WrappedSumNext(ws, donecnt);
      checksum := Wrap16(checksum + w);
      donecnt := donecnt + 1;
    }
    r := Wrap16(0x1_0000 - checksum);
  }

  // ----- the PE checksum

  datatype WordSource = AsMeant | AsWritten(address: nat)

  /** The word the loop adds at byte position `cur`, before the checksum field is skipped. */
  function SourceWord(src: WordSource, b: seq<byte>, cur: nat): word {
    match src
    case AsMeant => Join(ByteAt(b, cur), ByteAt(b, cur + 1))
    case AsWritten(address) => Wrap16(Wrap16(address) + cur)
  }

  /** The cursor positions at which the loop adds nothing; the additions are 32-bit. */
  predicate Skipped(peheader: dword, cur: nat) {
    cur == Wrap32(peheader + 88) || cur == Wrap32(peheader + 90)
  }

  function PeWords(src: WordSource, b: seq<byte>, peheader: dword): (ws: seq<word>)
    ensures |ws| == (|b| + 1) / 2
  {
    seq((|b| + 1) / 2, k requires 0 <= k => if Skipped(peheader, 2 * k) then 0 else SourceWord(src, b, 2 * k))
  }

  /** The unbounded sum behind the PE checksum. */
  function PeSum(src: WordSource, b: seq<byte>, peheader: dword): nat {
    Sum(PeWords(src, b, peheader))
  }

  /** The PE checksum: the folded sum plus the file size, in 32 bits. */
  function PeChecksum(src: WordSource, b: seq<byte>, peheader: dword): dword {
    Wrap32(Fold(PeSum(src, b, peheader)) + |b|)
  }

  /** The body of the PE loop up to the addition: form the word, blank it in the checksum field. */
  method NextWord(src: WordSource, buf: array<byte>, peheader: dword, cur: dword, ghost k: nat) returns (val: word)
    requires cur == 2 * k && cur < buf.Length
    ensures val == PeWords(src, buf[..], peheader)[k]
  {
    match src {
      case AsMeant =>
        var hi := if cur + 1 < buf.Length then buf[cur + 1] else 0;
        val := Join(buf[cur], hi);
      case AsWritten(address) =>
        val := Wrap16(Wrap16(address) + cur);
    }
    if cur == Wrap32(peheader + 88) || cur == Wrap32(peheader + 90) {
      val := 0;
    }
  }

  /** The 32-bit step of the cursor, below the point where it would wrap. */
  method Advance(cur: dword) returns (next: dword)
    requires cur < 0xFFFF_FFFE
    ensures next == cur + 2
  {
    next := Wrap32(cur + 2);
  }

  /** The loop, folding after every word, computes the fold of the unbounded sum. */
  method FoldedSum(src: WordSource, buf: array<byte>, peheader: dword) returns (checkSum: dword)
    requires buf.Length <= 0xFFFF_FFFE
    ensures checkSum == Fold(PeSum(src, buf[..], peheader))
  {
    hide Sum, Fold, PeWords;
    var size: dword := buf.Length;
    var cur: dword := 0;
    checkSum := 0;
    ghost var ws := PeWords(src, buf[..], peheader);
    SumOfNothing(ws);
    FoldPositive(0);
    ghost var k := 0;
    assert size <= 2 * |ws| <= size + 1;
    while cur < size
      invariant cur == 2 * k && k <= |ws|
      invariant checkSum == Fold(Sum(ws[..k]))
      decreases size - cur
    {
      var val := NextWord(src, buf, peheader, cur, k);
      checkSum := AddWithCarry(checkSum, val, Sum(ws[..k]));
      cur := Advance(cur);
      SumNext(ws, k);
      k := k + 1;
    }
    assert ws[..k] == ws;
  }

  /** The whole checksum; the masking after the loop finds nothing left to fold. */
  method CalcPeChecksum(src: WordSource, buf: array<byte>, peheader: dword) returns (checkSum: dword)
    requires buf.Length <= 0xFFFF_FFFE
    ensures checkSum == PeChecksum(src, buf[..], peheader)
  {
    checkSum := FoldedSum(src, buf, peheader);
    CarryFolds(checkSum);
    checkSum := Carry(checkSum);
    checkSum := Wrap32(checkSum + buf.Length);
  }

  /** For every size a C `int` can hold, the size can be subtracted again without wrap-around. */
  lemma PeChecksumDoesNotWrap(src: WordSource, b: seq<byte>, peheader: dword)
    requires |b| <= INT_MAX
    ensures PeChecksum(src, b, peheader) == Fold(PeSum(src, b, peheader)) + |b|
  {
  }

  /** The cursor after `k` turns of the PE loop. */
  function CursorAfter(k: nat): dword {
    if k == 0 then 0 else Wrap32(CursorAfter(k - 1) + 2)
  }

  lemma {:induction false} CursorAfterIs(k: nat)
    ensures CursorAfter(k) % 2 == 0
    ensures 2 * k <= 0xFFFF_FFFE ==> CursorAfter(k) == 2 * k
  {
    hide Wrap32;
    if k > 0 {
      CursorAfterIs(k - 1);
      Wrap32Step(CursorAfter(k - 1));
    }
  }

  /** Under 32-bit wrap-around the loop guard fails at some turn for every size but the largest. */
  lemma PeLoopTerminates(size: dword)
    ensures (exists k :: !(CursorAfter(k) < size)) <==> size != 0xFFFF_FFFF
  {
    if size != 0xFFFF_FFFF {
      var k := (size + 1) / 2;
      CursorAfterIs(k);
      assert !(CursorAfter(k) < size);
    } else {
      forall k: nat ensures CursorAfter(k) < size {
        CursorAfterIs(k);
      }
    }
  }

  // ----- the meant sum in terms of the image

  /** The bytes the meant sum really covers: the checksum field is blanked only at an even header offset. */
  function Covered(b: seq<byte>, peheader: nat): (r: seq<byte>)
    requires peheader + 92 <= |b|
    ensures |r| == |b|
  {
    if peheader % 2 == 0 then Put32(b, peheader + 88, 0) else b
  }

  lemma CoveredByte(b: seq<byte>, peheader: nat, j: nat)
    requires peheader + 92 <= |b|
    ensures ByteAt(Covered(b, peheader), j) ==
            if peheader % 2 == 0 && peheader + 88 <= j < peheader + 92 then 0 else ByteAt(b, j)
  {
    Le32OfZero();
  }

  lemma MeantWord(b: seq<byte>, peheader: nat, k: nat)
    requires peheader + 92 <= |b| <= INT_MAX && k < (|b| + 1) / 2
    ensures PeWords(AsMeant, b, peheader)[k] == Words(Covered(b, peheader))[k]
  {
    hide Covered, Words;
    Wrap32Small(peheader + 88);
    Wrap32Small(peheader + 90);
    hide Wrap32;
    CoveredByte(b, peheader, 2 * k);
    CoveredByte(b, peheader, 2 * k + 1);
    WordsAt(Covered(b, peheader), k);
  }

  lemma MeantWords(b: seq<byte>, peheader: nat)
    requires peheader + 92 <= |b| <= INT_MAX
    ensures PeWords(AsMeant, b, peheader) == Words(Covered(b, peheader))
    ensures PeSum(AsMeant, b, peheader) == Sum(Words(Covered(b, peheader)))
  {
    hide Sum, Words, PeWords, Covered;
    forall k | 0 <= k < (|b| + 1) / 2
      ensures PeWords(AsMeant, b, peheader)[k] == Words(Covered(b, peheader))[k]
    {
      MeantWord(b, peheader, k);
    }
  }

  lemma CoveredUpdate(b: seq<byte>, peheader: nat, i: nat, x: byte)
    requires peheader + 92 <= |b| && i < |b|
    requires peheader % 2 == 0 ==> !(peheader + 88 <= i < peheader + 92)
    ensures Covered(b[i := x], peheader) == Covered(b, peheader)[i := x]
    ensures Covered(b, peheader)[i] == b[i]
  {
  }

  /** Changing one byte the meant sum covers always changes the meant checksum. */
  lemma CoveredByteNoticed(b: seq<byte>, peheader: nat, i: nat, x: byte)
    requires peheader + 92 <= |b| <= INT_MAX
    requires i < |b| && x != b[i]
    requires peheader % 2 == 0 ==> !(peheader + 88 <= i < peheader + 92)
    ensures PeSum(AsMeant, b[i := x], peheader) == PeSum(AsMeant, b, peheader) + Weighed(x - b[i], i)
    ensures PeChecksum(AsMeant, b[i := x], peheader) != PeChecksum(AsMeant, b, peheader)
  {
    var c := Covered(b, peheader);
    CoveredUpdate(b, peheader, i, x);
    MeantWords(b, peheader);
    MeantWords(b[i := x], peheader);
    SumOfUpdate(c, i, x);
    ByteDifferenceNoticed(Sum(Words(c)), Sum(Words(c[i := x])), x - b[i], i);
    PeChecksumDoesNotWrap(AsMeant, b, peheader);
    PeChecksumDoesNotWrap(AsMeant, b[i := x], peheader);
  }

  /** The code as written looks at no byte of the image: same size, same address, same checksum. */
  lemma WrittenIgnoresContents(address: nat, b: seq<byte>, c: seq<byte>, peheader: dword)
    requires |b| == |c|
    ensures PeChecksum(AsWritten(address), b, peheader) == PeChecksum(AsWritten(address), c, peheader)
  {
    assert PeWords(AsWritten(address), b, peheader) == PeWords(AsWritten(address), c, peheader);
  }

  /** Images whose covered words are a rearrangement of each other have the same checksum, whatever the source. */
  lemma WordOrderIrrelevant(src: WordSource, b: seq<byte>, c: seq<byte>, peheader: dword)
    requires |b| == |c|
    requires multiset(PeWords(src, b, peheader)) == multiset(PeWords(src, c, peheader))
    ensures PeChecksum(src, b, peheader) == PeChecksum(src, c, peheader)
  {
    SumPermutation(PeWords(src, b, peheader), PeWords(src, c, peheader));
  }
}
