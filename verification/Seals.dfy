/**
 What the two checksums guarantee about a finished image: when they hold of the bytes that were written, and that every
 later change of one byte breaks them.
 */
module Seals {
  import opened Bytes
  import opened WordSums
  import opened Checksums
  import opened Images

  /** The stub words, checksum included, add up to zero in 16 bits. */
  predicate StubSealed(b: seq<byte>, peheader: nat)
    requires peheader <= |b|
  {
    StubSum(b, peheader) % 0x1_0000 == 0
  }

  /** The stored PE checksum is the meant checksum of the image it is stored in. */
  predicate PeSealed(b: seq<byte>, peheader: nat)
    requires peheader + 92 <= |b| <= INT_MAX
  {
    Dword(b, peheader + PE_CHECKSUM) == PeChecksum(AsMeant, b, peheader)
  }

  // ----- the stub checksum

  /** The stub sum looks at the bytes below its length only. */
  lemma StubSumLocal(b: seq<byte>, c: seq<byte>, len: nat)
    requires len <= |b| == |c| && b[..len] == c[..len]
    ensures StubSum(b, len) == StubSum(c, len)
  {
    forall k | 0 <= k < len / 2
      ensures Words(b)[k] == Words(c)[k]
    {
      assert b[2 * k] == b[..len][2 * k] && b[2 * k + 1] == b[..len][2 * k + 1];
      assert c[2 * k] == c[..len][2 * k] && c[2 * k + 1] == c[..len][2 * k + 1];
    }
    assert Words(b)[..len / 2] == Words(c)[..len / 2];
  }

  /** Writing an aligned 16-bit field replaces one word. */
  lemma WordsOfPut16(b: seq<byte>, k: nat, v: word)
    requires 2 * k + 2 <= |b|
    ensures Words(b)[k] == Word(b, 2 * k)
    ensures Words(Put16(b, 2 * k, v)) == Words(b)[k := v]
  {
    hide Words, Le16, Word, Join;
    var c := Put16(b, 2 * k, v);
    WordOfPut16(b, 2 * k, v);
    WordsAt(b, k);
    forall j | 0 <= j < |Words(b)|
      ensures Words(c)[j] == Words(b)[k := v][j]
    {
      WordsAt(b, j);
      WordsAt(c, j);
    }
  }

  /** Filling the field moves the stub sum only if the stub reaches past the field. */
  lemma StubSumOfCsum(b: seq<byte>, len: nat, v: word)
    requires 20 <= |b| && len <= |b|
    ensures StubSum(Put16(b, E_CSUM, v), len) == StubSum(b, len) + if len < 20 then 0 else v - Word(b, E_CSUM)
  {
    WordsOfPut16(b, 9, v);
    var ws := Words(b);
    if len < 20 {
      assert ws[9 := v][..len / 2] == ws[..len / 2];
    } else {
      assert ws[9 := v][..len / 2] == ws[..len / 2][9 := v];
      SumUpdate(ws[..len / 2], 9, v);
    }
  }

  lemma StubSumOfFilled(b: seq<byte>, len: nat, v: word)
    requires 20 <= len <= |b|
    ensures StubSum(Put16(b, E_CSUM, v), len) == StubSum(Put16(b, E_CSUM, 0), len) + v
  {
    var cleared := Put16(b, E_CSUM, 0);
    SpliceOverwrites(b, E_CSUM, Le16(0), Le16(v));
    WordOfPut16(b, E_CSUM, 0);
    StubSumOfCsum(cleared, len, v);
  }

  /** The stored value is the only one that makes the stub sum zero. */
  lemma StubChecksumUnique(b: seq<byte>, len: nat, v: word)
    requires 20 <= len <= |b|
    ensures StubSealed(Put16(b, E_CSUM, v), len) <==> v == StubChecksum(Put16(b, E_CSUM, 0), len)
  {
    hide Sum, StubSum, StubChecksum, Put16;
    StubSumOfFilled(b, len, v);
    var cleared := Put16(b, E_CSUM, 0);
    ComplementUnique(StubSum(cleared, len), StubChecksum(cleared, len), v);
  }

  lemma ComplementUnique(s: nat, c: word, v: word)
    requires (s + c) % 0x1_0000 == 0
    ensures (s + v) % 0x1_0000 == 0 <==> v == c
  {
  }

  /** The stub seal holds of a patched image exactly when the stub covers its own field, or needed no correction. */
  lemma PatchedStubSealed(b: seq<byte>)
    requires 64 <= |b| && Lfanew(b) <= |b|
    ensures StubSealed(PatchStub(b), Lfanew(b)) <==> Lfanew(b) >= 20 || StubSealed(b, Lfanew(b))
  {
    var p := Lfanew(b);
    var cleared := Put16(b, E_CSUM, 0);
    if p >= 20 {
      SpliceOverwrites(b, E_CSUM, Le16(0), Le16(StubChecksum(cleared, p)));
      StubChecksumUnique(b, p, StubChecksum(cleared, p));
    } else {
      StubSumOfCsum(b, p, 0);
      StubSumOfCsum(cleared, p, StubChecksum(cleared, p));
    }
  }

  /** Any single-byte change inside the summed stub breaks the stub seal. */
  lemma StubTamperEvident(b: seq<byte>, len: nat, i: nat, x: byte)
    requires len <= |b| && StubSealed(b, len)
    requires i < len / 2 * 2 && x != b[i]
    ensures !StubSealed(b[i := x], len)
  {
    WordsOfUpdate(b, i, x);
    var ws := Words(b);
    var w := ws[i / 2] + Weighed(x - b[i], i);
    assert ws[i / 2 := w][..len / 2] == ws[..len / 2][i / 2 := w];
    SumUpdate(ws[..len / 2], i / 2, w);
    ByteDifferenceWraps(StubSum(b, len), StubSum(b[i := x], len), x - b[i], i);
  }

  lemma ByteDifferenceWraps(s: nat, t: nat, d: int, i: nat)
    requires t == s + Weighed(d, i) && d != 0 && -0x100 < d < 0x100
    requires s % 0x1_0000 == 0
    ensures t % 0x1_0000 != 0
  {
  }

  // ----- the PE checksum

  lemma SumOfOddPair(z: seq<byte>, i: nat, x: byte, y: byte)
    requires i + 2 <= |z| && i % 2 == 1 && z[i] == z[i + 1] == 0
    ensures Sum(Words(z[i := x][i + 1 := y])) == Sum(Words(z)) + Join(y, x)
  {
    hide Sum, Words;
    SumOfUpdate(z, i, x);
    assert (i + 1) % 2 == 0 && z[i := x][i + 1] == 0;
    SumOfUpdate(z[i := x], i + 1, y);
  }

  lemma SumOfOddFieldBytes(z: seq<byte>, field: nat, s: seq<byte>)
    requires |s| == 4 && field + 4 <= |z| && field % 2 == 1
    requires z[field] == z[field + 1] == z[field + 2] == z[field + 3] == 0
    ensures Sum(Words(Splice(z, field, s))) == Sum(Words(z)) + Join(s[1], s[0]) + Join(s[3], s[2])
  {
    hide Sum, Words;
    var half: seq<byte> := z[field := s[0]][field + 1 := s[1]];
    SumOfOddPair(z, field, s[0], s[1]);
    SumOfOddPair(half, field + 2, s[2], s[3]);
    var full: seq<byte> := half[field + 2 := s[2]];
    full := full[field + 3 := s[3]];
    assert Splice(z, field, s) == full;
  }

  /** Filling a cleared field at an odd offset adds 256 times its value, modulo 65535. */
  lemma SumOfOddField(z: seq<byte>, field: nat, c: dword) returns (m: int)
    requires field + 4 <= |z| && field % 2 == 1
    requires z[field] == z[field + 1] == z[field + 2] == z[field + 3] == 0
    ensures Sum(Words(Put32(z, field, c))) == Sum(Words(z)) + 0x100 * c - 0xFFFF * m
  {
    var s := Le32(c);
    SumOfOddFieldBytes(z, field, s);
    m := OddFieldResidue(c, s[0], s[1], s[2], s[3]);
    Le32Value(c);
  }

  lemma OddFieldResidue(c: int, s0: int, s1: int, s2: int, s3: int) returns (m: int)
    ensures c == Join(s0, Join(s1, Join(s2, s3))) ==> Join(s1, s0) + Join(s3, s2) == 0x100 * c - 0xFFFF * m
  {
    m := s1 + 0x100 * s2 + 0x1_0001 * s3;
  }

  /** Modulo 65535 a multiple of 65535 can be added at will. */
  lemma SameResidue(x: int, y: int, t: int)
    requires x == y + 0xFFFF * t
    ensures x % 0xFFFF == 0 <==> y % 0xFFFF == 0
  {
    var q, r := x / 0xFFFF, y / 0xFFFF;
    assert x == 0xFFFF * q + x % 0xFFFF && y == 0xFFFF * r + y % 0xFFFF;
  }

  lemma MultipleResidue(q: int)
    ensures (0xFFFF * q) % 0xFFFF == 0
  {
  }

  lemma ScaledMultiple(x: int, k: int)
    requires x % 0xFFFF == 0
    ensures (k * x) % 0xFFFF == 0
  {
    var q := x / 0xFFFF;
    assert x == 0xFFFF * q;
    assert k * x == 0xFFFF * (k * q);
    MultipleResidue(k * q);
  }

  /** 256 has an inverse modulo 65535, and so has its negation. */
  lemma NegatedScale(x: int)
    ensures (0 - 0x100 * x) % 0xFFFF == 0 <==> x % 0xFFFF == 0
  {
    var y := 0 - 0x100 * x;
    if x % 0xFFFF == 0 {
      ScaledMultiple(x, -0x100);
    }
    if y % 0xFFFF == 0 {
      ScaledMultiple(y, -0x100);
      SameResidue(-0x100 * y, x, x);
    }
  }

  /** The field is read back as written, and the seal becomes a comparison of two folds. */
  lemma SealComparesFolds(src: WordSource, b: seq<byte>, peheader: nat)
    requires peheader + 92 <= |b| <= INT_MAX
    ensures var cleared := Put32(b, peheader + PE_CHECKSUM, 0);
            PeSealed(PatchPe(src, b, peheader), peheader) <==>
              Fold(PeSum(src, cleared, peheader)) == Fold(PeSum(AsMeant, PatchPe(src, b, peheader), peheader))
  {
    var cleared := Put32(b, peheader + PE_CHECKSUM, 0);
    DwordOfPut32(cleared, peheader + PE_CHECKSUM, PeChecksum(src, cleared, peheader));
    PeChecksumDoesNotWrap(src, cleared, peheader);
    PeChecksumDoesNotWrap(AsMeant, PatchPe(src, b, peheader), peheader);
  }

  lemma ClearedField(b: seq<byte>, field: nat)
    requires field + 4 <= |b|
    ensures forall k :: field <= k < field + 4 ==> Put32(b, field, 0)[k] == 0
  {
    Le32OfZero();
  }

  /** The meant sum of the finished image, from the meant sum of the cleared one and the value stored. */
  lemma MeantSumAfterPatch(src: WordSource, b: seq<byte>, peheader: nat) returns (k: int)
    requires peheader + 92 <= |b| <= INT_MAX
    ensures var cleared := Put32(b, peheader + PE_CHECKSUM, 0);
            PeSum(AsMeant, PatchPe(src, b, peheader), peheader) == PeSum(AsMeant, cleared, peheader) +
              if peheader % 2 == 0 then 0 else 0x100 * PeChecksum(src, cleared, peheader) - 0xFFFF * k
  {
    hide Sum, Words, PeSum, PeWords, PeChecksum;
    var field := peheader + PE_CHECKSUM;
    var cleared := Put32(b, field, 0);
    var c := PeChecksum(src, cleared, peheader);
    MeantWords(cleared, peheader);
    MeantWords(PatchPe(src, b, peheader), peheader);
    if peheader % 2 == 0 {
      k := 0;
      SpliceOverwrites(cleared, field, Le32(c), Le32(0));
      SpliceOverwrites(b, field, Le32(0), Le32(0));
    } else {
      ClearedField(b, field);
      k := SumOfOddField(cleared, field, c);
    }
  }

  /** An image that does not start with a zero byte has a positive meant sum. */
  lemma MeantSumPositive(b: seq<byte>, peheader: nat)
    requires peheader + 92 <= |b| <= INT_MAX && b[0] != 0
    ensures PeSum(AsMeant, b, peheader) > 0
  {
    hide Sum, Words, PeSum, PeWords;
    MeantWords(b, peheader);
    var c := Covered(b, peheader);
    assert c[0] == b[0];
    WordsAt(c, 0);
    SumAtLeast(Words(c), 0);
  }

  /** What the caller can compute beforehand to know whether the stored PE checksum will hold. */
  predicate PeSealCondition(src: WordSource, b: seq<byte>, peheader: nat)
    requires peheader + 92 <= |b| <= INT_MAX
  {
    var cleared := Put32(b, peheader + PE_CHECKSUM, 0);
    var s, m := PeSum(src, cleared, peheader), PeSum(AsMeant, cleared, peheader);
    && s > 0
    && (s - m - if peheader % 2 == 0 then 0 else 0x100 * (s + |b|)) % 0xFFFF == 0
  }

  /** The stored PE checksum, from whatever words it was computed, is the meant checksum of the finished image exactly
      under that condition. */
  lemma PatchedPeSealed(src: WordSource, b: seq<byte>, peheader: nat)
    requires peheader + 92 <= |b| <= INT_MAX && b[0] != 0
    ensures PeSealed(PatchPe(src, b, peheader), peheader) <==> PeSealCondition(src, b, peheader)
  {
    hide Sum, PeSum, PeChecksum, PatchPe, PeSealed, Fold, Put32, Splice;
    var cleared := Put32(b, peheader + PE_CHECKSUM, 0);
    var image := PatchPe(src, b, peheader);
    var s, m, after := PeSum(src, cleared, peheader), PeSum(AsMeant, cleared, peheader), PeSum(AsMeant, image, peheader);
    SealComparesFolds(src, b, peheader);
    PatchPeFrame(src, b, peheader);
    MeantSumPositive(image, peheader);
    FoldEqual(s, after);
    var k := MeantSumAfterPatch(src, b, peheader);
    PeChecksumDoesNotWrap(src, cleared, peheader);
    var q := FoldResidue(s);
    SealArithmetic(s, m, after, |b|, Fold(s), q, k, peheader % 2 == 0);
  }

  lemma SealArithmetic(s: int, m: int, after: int, size: int, f: int, q: int, k: int, even: bool)
    requires s == f + 0xFFFF * q
    requires after == m + if even then 0 else 0x100 * (f + size) - 0xFFFF * k
    ensures (s - after) % 0xFFFF == 0 <==> (s - m - if even then 0 else 0x100 * (s + size)) % 0xFFFF == 0
  {
    if !even {
      SameResidue(s - after, s - m - 0x100 * (s + size), k + 0x100 * q);
    }
  }

  lemma MeantCondition(s: int, size: int)
    ensures (s - s - 0x100 * (s + size)) % 0xFFFF == 0 <==> (s + size) % 0xFFFF == 0
    ensures (s - s - 0) % 0xFFFF == 0
  {
    NegatedScale(s + size);
  }

  /** With the meant words the PE checksum always holds at an even header offset; at an odd one it holds exactly when
      the value stored is a multiple of 65535. */
  lemma MeantPeSealed(b: seq<byte>, peheader: nat)
    requires peheader + 92 <= |b| <= INT_MAX && b[0] != 0
    ensures PeSealed(PatchPe(AsMeant, b, peheader), peheader) <==>
              peheader % 2 == 0 ||
              (PeSum(AsMeant, Put32(b, peheader + PE_CHECKSUM, 0), peheader) + |b|) % 0xFFFF == 0
  {
    hide Sum, PeSum, PeChecksum, PatchPe, PeSealed;
    PatchedPeSealed(AsMeant, b, peheader);
    var cleared := Put32(b, peheader + PE_CHECKSUM, 0);
    MeantSumPositive(cleared, peheader);
    MeantCondition(PeSum(AsMeant, cleared, peheader), |b|);
  }

  // ----- every byte of a sealed image is protected

  /** What a change of `d` in byte `k` of a 32-bit field does to its value. */
  function PlaceValue(d: int, k: nat): int {
    match k
    case 0 => d
    case 1 => 0x100 * d
    case 2 => 0x1_0000 * d
    case _ => 0x100_0000 * d
  }

  lemma DwordOfUpdate(b: seq<byte>, field: nat, k: nat, x: byte)
    requires field + 4 <= |b| && k < 4
    ensures Dword(b[field + k := x], field) == Dword(b, field) + PlaceValue(x - b[field + k], k)
  {
    hide Dword;
    DwordJoined(b, field);
    DwordJoined(b[field + k := x], field);
  }

  lemma ResidueOutrun(f: int, m: int, d: int, k: nat)
    requires k < 4 && d != 0 && -0x100 < d < 0x100
    requires f == (if k % 2 == 0 then 0x100 * d else d) - 0xFFFF * m && -0xFFFF <= f <= 0xFFFF
    ensures f != PlaceValue(d, k)
  {
    match k
    case 0 => assert 0xFF * d != 0xFFFF * m;
    case 1 => assert 0xFF * d != 0xFFFF * -m;
    case _ =>
  }

  /** At an odd header offset a change inside the field moves the sum too, but never by as much as the stored value. */
  lemma OddFieldOutrunsSum(s: nat, t: nat, d: int, k: nat)
    requires k < 4 && d != 0 && -0x100 < d < 0x100
    requires t == s + if k % 2 == 0 then 0x100 * d else d
    ensures Fold(t) - Fold(s) != PlaceValue(d, k)
  {
    hide Fold, PlaceValue;
    var q: int := FoldResidue(s);
    var r: int := FoldResidue(t);
    ResidueOutrun(Fold(t) - Fold(s), r - q, d, k);
  }

  lemma TamperedOutsideField(b: seq<byte>, peheader: nat, i: nat, x: byte)
    requires peheader + 92 <= |b| <= INT_MAX && PeSealed(b, peheader)
    requires i < |b| && x != b[i] && !(peheader + 88 <= i < peheader + 92)
    ensures !PeSealed(b[i := x], peheader)
  {
    hide PeChecksum;
    CoveredByteNoticed(b, peheader, i, x);
  }

  lemma TamperedEvenField(b: seq<byte>, peheader: nat, i: nat, x: byte)
    requires peheader + 92 <= |b| <= INT_MAX && PeSealed(b, peheader) && peheader % 2 == 0
    requires peheader + 88 <= i < peheader + 92 && x != b[i]
    ensures !PeSealed(b[i := x], peheader)
  {
    hide PeChecksum, PeSum, Sum, Words, PeWords, Fold, Dword;
    var field := peheader + PE_CHECKSUM;
    DwordOfUpdate(b, field, i - field, x);
    assert field + (i - field) == i;
    assert Covered(b[i := x], peheader) == Covered(b, peheader);
    MeantWords(b, peheader);
    MeantWords(b[i := x], peheader);
    PeChecksumDoesNotWrap(AsMeant, b, peheader);
    PeChecksumDoesNotWrap(AsMeant, b[i := x], peheader);
  }

  lemma OddOffset(peheader: nat, k: nat)
    requires peheader % 2 == 1
    ensures (peheader + 88 + k) % 2 == 1 <==> k % 2 == 0
  {
  }

  lemma TamperedOddField(b: seq<byte>, peheader: nat, i: nat, x: byte)
    requires peheader + 92 <= |b| <= INT_MAX && PeSealed(b, peheader) && peheader % 2 == 1
    requires peheader + 88 <= i < peheader + 92 && x != b[i]
    ensures !PeSealed(b[i := x], peheader)
  {
    hide PeChecksum, PeSum, Fold, Dword, PlaceValue;
    var field := peheader + PE_CHECKSUM;
    var k := i - field;
    DwordOfUpdate(b, field, k, x);
    assert field + k == i;
    CoveredByteNoticed(b, peheader, i, x);
    PeChecksumDoesNotWrap(AsMeant, b, peheader);
    PeChecksumDoesNotWrap(AsMeant, b[i := x], peheader);
    OddOffset(peheader, k);
    OddFieldOutrunsSum(PeSum(AsMeant, b, peheader), PeSum(AsMeant, b[i := x], peheader), x - b[i], k);
  }

  /** Any single-byte change anywhere in the image, its checksum field included, breaks the PE seal. */
  lemma PeTamperEvident(b: seq<byte>, peheader: nat, i: nat, x: byte)
    requires peheader + 92 <= |b| <= INT_MAX && PeSealed(b, peheader)
    requires i < |b| && x != b[i]
    ensures !PeSealed(b[i := x], peheader)
  {
    hide PeSealed;
    if !(peheader + 88 <= i < peheader + 92) {
      TamperedOutsideField(b, peheader, i, x);
    } else if peheader % 2 == 0 {
      TamperedEvenField(b, peheader, i, x);
    } else {
      TamperedOddField(b, peheader, i, x);
    }
  }

  // ----- reading a changed image at another header offset

  /** What the meant sum skips: the words of the checksum field, and nothing at an odd header offset. */
  function FieldWords(b: seq<byte>, peheader: nat): nat
    requires peheader + 92 <= |b|
  {
    if peheader % 2 == 0 then Word(b, peheader + 88) + Word(b, peheader + 90) else 0
  }

  lemma WordsOfCovered(b: seq<byte>, peheader: nat)
    requires peheader + 92 <= |b| && peheader % 2 == 0
    ensures var ws, i := Words(b), (peheader + 88) / 2;
            && i + 1 < |ws| && ws[i] == Word(b, peheader + 88) && ws[i + 1] == Word(b, peheader + 90)
            && Words(Covered(b, peheader)) == ws[i := 0][i + 1 := 0]
  {
    ClearedField(b, peheader + 88);
    hide Put32;
  }

  lemma CoveredOdd(b: seq<byte>, peheader: nat)
    requires peheader + 92 <= |b| && peheader % 2 == 1
    ensures Covered(b, peheader) == b
  {
  }

  lemma MeantSumSplits(b: seq<byte>, peheader: nat)
    requires peheader + 92 <= |b| <= INT_MAX
    ensures PeSum(AsMeant, b, peheader) + FieldWords(b, peheader) == Sum(Words(b))
  {
    hide Sum, Words, PeSum, PeWords, Covered, Word;
    MeantWords(b, peheader);
    if peheader % 2 == 0 {
      WordsOfCovered(b, peheader);
      SumWithoutPair(Words(b), (peheader + 88) / 2);
    } else {
      CoveredOdd(b, peheader);
    }
  }

  /** The image with the aligned words of index `i` and `j` exchanged. */
  function Exchanged(b: seq<byte>, i: nat, j: nat): (r: seq<byte>)
    requires 2 * i + 2 <= |b| && 2 * j + 2 <= |b|
    ensures |r| == |b|
  {
    Put16(Put16(b, 2 * i, Word(b, 2 * j)), 2 * j, Word(b, 2 * i))
  }

  /** Word `k` is not one the meant sum skips. */
  predicate ClearOfField(peheader: nat, k: nat) {
    peheader % 2 == 0 ==> 2 * k != peheader + 88 && 2 * k != peheader + 90
  }

  lemma SumOfExchanged(b: seq<byte>, i: nat, j: nat)
    requires 2 * i + 2 <= |b| && 2 * j + 2 <= |b| && i != j
    ensures Sum(Words(Exchanged(b, i, j))) == Sum(Words(b))
  {
    hide Sum, Words, Put16, Word;
    var ws, v, w := Words(b), Word(b, 2 * i), Word(b, 2 * j);
    WordsOfPut16(b, i, w);
    WordsOfPut16(b, j, v);
    WordsOfPut16(Put16(b, 2 * i, w), j, v);
    SumUpdate(ws, i, w);
    SumUpdate(ws[i := w], j, v);
  }

  lemma ExchangedByte(b: seq<byte>, i: nat, j: nat, n: nat)
    requires 2 * i + 2 <= |b| && 2 * j + 2 <= |b| && n < |b| && n / 2 != i && n / 2 != j
    ensures Exchanged(b, i, j)[n] == b[n]
  {
    hide Le16, Word;
  }

  lemma FieldOfExchanged(b: seq<byte>, i: nat, j: nat, peheader: nat)
    requires 2 * i + 2 <= |b| && 2 * j + 2 <= |b| && peheader + 92 <= |b|
    requires ClearOfField(peheader, i) && ClearOfField(peheader, j)
    ensures FieldWords(Exchanged(b, i, j), peheader) == FieldWords(b, peheader)
  {
    hide Exchanged, Join;
    if peheader % 2 == 0 {
      ExchangedByte(b, i, j, peheader + 88);
      ExchangedByte(b, i, j, peheader + 89);
      ExchangedByte(b, i, j, peheader + 90);
      ExchangedByte(b, i, j, peheader + 91);
    }
  }

  /** Exchanging two aligned words clear of the checksum field keeps the meant checksum. */
  lemma ExchangeUnnoticed(b: seq<byte>, i: nat, j: nat, peheader: nat)
    requires 2 * i + 2 <= |b| && 2 * j + 2 <= |b| && i != j && peheader + 92 <= |b| <= INT_MAX
    requires ClearOfField(peheader, i) && ClearOfField(peheader, j)
    ensures PeChecksum(AsMeant, Exchanged(b, i, j), peheader) == PeChecksum(AsMeant, b, peheader)
  {
    hide Sum, Words, PeSum, Exchanged, FieldWords, Fold;
    SumOfExchanged(b, i, j);
    FieldOfExchanged(b, i, j, peheader);
    MeantSumSplits(b, peheader);
    MeantSumSplits(Exchanged(b, i, j), peheader);
  }

  /** Whether the image with byte `j` replaced by `x` is sealed for a header at `peheader`, from the image as it was. */
  predicate ChangedSealCondition(b: seq<byte>, j: nat, x: byte, peheader: nat)
    requires peheader + 92 <= |b| && j < |b|
  {
    var stored := Dword(b, peheader + PE_CHECKSUM);
    && |b| < stored <= |b| + 0xFFFF
    && (stored - |b| - (Sum(Words(b)) + Weighed(x - b[j], j) - FieldWords(b, peheader))) % 0xFFFF == 0
  }

  lemma FoldIs(s: nat, f: int)
    requires s > 0
    ensures Fold(s) == f <==> 0 < f <= 0xFFFF && (f - s) % 0xFFFF == 0
  {
    FoldPositive(s);
    if 0 < f <= 0xFFFF {
      assert Fold(f) == f;
      FoldEqual(f, s);
    }
  }

  /** A change outside the field at `peheader` leaves a seal there exactly under that condition. */
  lemma ChangedSealed(b: seq<byte>, j: nat, x: byte, peheader: nat)
    requires peheader + 92 <= |b| <= INT_MAX && b[0] != 0
    requires 0 < j < |b| && !(peheader + 88 <= j < peheader + 92)
    ensures PeSealed(b[j := x], peheader) <==> ChangedSealCondition(b, j, x, peheader)
  {
    hide Sum, Words, PeSum, PeChecksum, Fold;
    var c := b[j := x];
    assert FieldWords(c, peheader) == FieldWords(b, peheader);
    DwordKept(b, c, peheader + PE_CHECKSUM);
    SumOfUpdate(b, j, x);
    MeantSumSplits(c, peheader);
    MeantSumPositive(c, peheader);
    PeChecksumDoesNotWrap(AsMeant, c, peheader);
    FoldIs(PeSum(AsMeant, c, peheader), Dword(b, peheader + PE_CHECKSUM) - |b|);
  }

  // ----- the code as written

  lemma WrittenPatchCommutes(address: nat, b: seq<byte>, peheader: nat, i: nat, x: byte)
    requires peheader + 92 <= |b| <= INT_MAX
    requires i < |b| && !(peheader + 88 <= i < peheader + 92)
    ensures PatchPe(AsWritten(address), b[i := x], peheader) == PatchPe(AsWritten(address), b, peheader)[i := x]
  {
    hide PeChecksum, Le32;
    var field := peheader + PE_CHECKSUM;
    WrittenIgnoresContents(address, Put32(b, field, 0), Put32(b[i := x], field, 0), peheader);
  }

  /** The code as written stores the same checksum in two images that differ in one byte, so it is right about at most
      one of them, wherever the buffer lies. */
  lemma WrittenSealsAtMostOne(address: nat, b: seq<byte>, peheader: nat, i: nat, x: byte)
    requires peheader + 92 <= |b| <= INT_MAX
    requires i < |b| && x != b[i] && !(peheader + 88 <= i < peheader + 92)
    ensures !(PeSealed(PatchPe(AsWritten(address), b, peheader), peheader) &&
              PeSealed(PatchPe(AsWritten(address), b[i := x], peheader), peheader))
  {
    hide PatchPe, PeSealed;
    var src := AsWritten(address);
    WrittenPatchCommutes(address, b, peheader, i, x);
    PatchPeFrame(src, b, peheader);
    if PeSealed(PatchPe(src, b, peheader), peheader) {
      PeTamperEvident(PatchPe(src, b, peheader), peheader, i, x);
    }
  }
}
