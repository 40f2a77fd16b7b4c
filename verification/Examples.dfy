/** Concrete inputs: on some the code misses what it is meant to do, and one run delivers it. */
module Examples {
  import opened Bytes
  import opened WordSums
  import opened Checksums
  import opened Images
  import opened Seals
  import opened WrittenSums
  import opened Patching
  import opened Containers
  import opened Lipo
  import opened Guarantees

  function Zeros(n: nat): (b: seq<byte>)
    ensures |b| == n
    ensures forall i :: 0 <= i < n ==> b[i] == 0
  {
    seq(n, i => 0)
  }

  /** A bare i386 PE header at `p`: signature, machine and PE32 magic. */
  function WithHeader(b: seq<byte>, p: nat): (r: seq<byte>)
    requires p + 92 <= |b|
    ensures |r| == |b|
  {
    Put16(Put16(Put16(b, p, 0x4550), p + 4, 0x014C), p + 24, 0x010B)
  }

  /** The first `n` bytes of an MZ image with nothing in its stub but the signature and `e_lfanew`. */
  function Stub(n: nat, p: byte): (b: seq<byte>)
    requires 64 <= n
    ensures |b| == n
  {
    Put16(Put16(Zeros(n), 0, DOS_SIGNATURE), E_LFANEW, p)
  }

  /** A minimal image with its header at `p`. */
  function Sample(p: byte): (b: seq<byte>)
    ensures |b| == p + 92
  {
    WithHeader(Stub(p + 92, p), p)
  }

  // ----- sums of sparse images

  /** What a 16-bit value at byte offset `i` adds to the sum: its bytes trade places at an odd offset. */
  function Share(v: word, i: nat): nat {
    if i % 2 == 0 then v else Join(v / 0x100, v % 0x100)
  }

  /** Writing a word where there were zeros adds its share. */
  lemma SumOfPut16(b: seq<byte>, i: nat, v: word)
    requires i + 2 <= |b| && b[i] == b[i + 1] == 0
    ensures Sum(Words(Put16(b, i, v))) == Sum(Words(b)) + Share(v, i)
  {
    hide Sum, Words;
    var s := Le16(v);
    SumOfUpdate(b, i, s[0]);
    assert b[i := s[0]][i + 1] == 0;
    SumOfUpdate(b[i := s[0]], i + 1, s[1]);
    assert Put16(b, i, v) == b[i := s[0]][i + 1 := s[1]];
    assert v == Join(s[0], s[1]);
  }

  lemma {:induction false} SumOfZeros(n: nat)
    ensures Sum(Words(Zeros(n))) == 0
  {
    hide Sum;
    if n == 0 {
      NoWords();
    } else {
      SumOfZeros(n - 1);
      assert Zeros(n) == Zeros(n - 1) + [0];
      SumOfPadded(Zeros(n - 1));
    }
  }

  lemma SumOfHeader(b: seq<byte>, p: nat)
    requires p + 92 <= |b| && forall i :: p <= i < p + 26 ==> b[i] == 0
    ensures Sum(Words(WithHeader(b, p))) == Sum(Words(b)) + Share(0x4550, p) + Share(0x014C, p) + Share(0x010B, p)
  {
    hide Sum, Words, Le16;
    var b1 := Put16(b, p, 0x4550);
    var b2 := Put16(b1, p + 4, 0x014C);
    SumOfPut16(b, p, 0x4550);
    SumOfPut16(b1, p + 4, 0x014C);
    SumOfPut16(b2, p + 24, 0x010B);
  }

  lemma SumOfStub(n: nat, p: byte)
    requires 64 <= n
    ensures Sum(Words(Stub(n, p))) == 0x5A4D + p
  {
    hide Sum, Words, Le16;
    SumOfZeros(n);
    SumOfPut16(Zeros(n), 0, DOS_SIGNATURE);
    SumOfPut16(Put16(Zeros(n), 0, DOS_SIGNATURE), E_LFANEW, p);
  }

  /** An even stretch of the stub is summed as if it were the whole. */
  lemma StubSumOfPrefix(b: seq<byte>, len: nat)
    requires len <= |b|
    ensures StubSum(b, len) == Sum(Words(b[..len / 2 * 2]))
  {
    hide Sum, Words, Word, Join;
    var c := b[..len / 2 * 2];
    forall k | 0 <= k < len / 2
      ensures Words(b)[k] == Words(c)[k]
    {
      WordsAt(b, k);
      WordsAt(c, k);
    }
    assert Words(b)[..len / 2] == Words(c);
  }

  lemma BareChecksum(b: seq<byte>, p: byte)
    requires 64 <= p && p + 92 <= |b| && b[..p / 2 * 2] == Stub(p / 2 * 2, p)
    ensures StubChecksum(b, p) == 0x1_0000 - 0x5A4D - p
  {
    hide Sum, Words, Stub, StubSum;
    StubSumOfPrefix(b, p);
    SumOfStub(p / 2 * 2, p);
    Wrap16Is(0x5A4D + p, 0, 0x5A4D + p);
    Wrap16Is(0x1_0000 - (0x5A4D + p), 0, 0x1_0000 - 0x5A4D - p);
    hide Wrap16;
  }

  /** The stub checksum of an image whose stub is bare. */
  lemma BareStub(b: seq<byte>, p: byte)
    requires 64 <= p && p + 92 <= |b|
    requires b[..p / 2 * 2] == Stub(p / 2 * 2, p) && Lfanew(b) == p
    ensures PatchStub(b) == Put16(b, E_CSUM, 0x1_0000 - 0x5A4D - p)
  {
    hide StubChecksum, Stub;
    BareChecksum(b, p);
    BareCsum(b, p);
    assert Le16(0) == [0, 0];
    assert Put16(b, E_CSUM, 0) == b;
  }

  lemma BareCsum(b: seq<byte>, p: byte)
    requires 64 <= p && p + 92 <= |b| && b[..p / 2 * 2] == Stub(p / 2 * 2, p)
    ensures b[18] == 0 && b[19] == 0
  {
    assert b[18] == b[..p / 2 * 2][18] && b[19] == b[..p / 2 * 2][19];
  }

  // ----- acceptance

  /** What makes the tool accept an i386 image, for a header that keeps clear of the stub checksum field. */
  predicate Acceptable(b: seq<byte>, p: nat) {
    && 64 <= |b| <= INT_MAX && p + 92 <= |b| && (p == 4 || p >= 64)
    && Word(b, 0) == DOS_SIGNATURE && Lfanew(b) == p
    && Dword(b, p) == NT_SIGNATURE && Word(b, p + 4) == 0x014C && Word(b, p + 24) == OPTIONAL_HDR32_MAGIC
  }

  lemma Accepted(b: seq<byte>, p: nat, src: WordSource)
    requires Acceptable(b, p)
    ensures InBounds(b) && Prepare(src, b).Ready?
    ensures p + 92 <= |b| && Word(b, 0) == DOS_SIGNATURE && Lfanew(b) == p && HasOptionalHeader(b, p)
  {
    hide PatchStub, PatchPe, Word, Dword;
    PatchStubFrame(b);
    HeaderKept(b, PatchStub(b), p);
  }

  lemma AcceptableKept(b: seq<byte>, p: nat, i: nat, x: byte)
    requires Acceptable(b, p) && 64 <= i < |b| && p + 26 <= i
    ensures Acceptable(b[i := x], p)
  {
    hide Join;
    DwordKept(b, b[i := x], E_LFANEW);
    DwordKept(b, b[i := x], p);
  }

  lemma HeaderKept(b: seq<byte>, s: seq<byte>, p: nat)
    requires Acceptable(b, p) && |s| == |b|
    requires forall j :: 0 <= j < |b| && !(18 <= j < 20) ==> s[j] == b[j]
    ensures Dword(s, p) == Dword(b, p) && Word(s, p + 4) == Word(b, p + 4) && Word(s, p + 24) == Word(b, p + 24)
  {
    DwordKept(b, s, p);
  }

  lemma AcceptableBytes(b: seq<byte>, p: byte)
    requires 64 <= |b| <= INT_MAX && p + 92 <= |b| && (p == 4 || p >= 64)
    requires b[0] == 0x4D && b[1] == 0x5A
    requires b[60] == p && b[61] == b[62] == b[63] == 0
    requires b[p] == 0x50 && b[p + 1] == 0x45 && b[p + 2] == b[p + 3] == 0
    requires b[p + 4] == 0x4C && b[p + 5] == 0x01 && b[p + 24] == 0x0B && b[p + 25] == 0x01
    ensures Acceptable(b, p)
  {
    hide Dword;
    DwordJoined(b, E_LFANEW);
    DwordJoined(b, p);
  }

  lemma HeaderBytesOf(b: seq<byte>, p: nat)
    requires p + 92 <= |b|
    ensures var r := WithHeader(b, p);
            && r[p] == 0x50 && r[p + 1] == 0x45 && r[p + 4] == 0x4C && r[p + 5] == 0x01
            && r[p + 24] == 0x0B && r[p + 25] == 0x01
            && forall i :: 0 <= i < |b| && !(p <= i < p + 2 || p + 4 <= i < p + 6 || p + 24 <= i < p + 26) ==> r[i] == b[i]
  {
    assert Le16(0x4550) == [0x50, 0x45] && Le16(0x014C) == [0x4C, 0x01] && Le16(0x010B) == [0x0B, 0x01];
  }

  lemma StubBytesOf(n: nat, p: byte)
    requires 64 <= n
    ensures var r := Stub(n, p);
            && r[0] == 0x4D && r[1] == 0x5A && r[60] == p
            && forall i :: 0 <= i < n && i != 0 && i != 1 && i != 60 ==> r[i] == 0
  {
    assert Le16(DOS_SIGNATURE) == [0x4D, 0x5A] && Le16(p) == [p, 0];
  }

  lemma SampleAcceptable(p: byte)
    requires p == 4 || p >= 64
    ensures Acceptable(Sample(p), p)
  {
    hide Stub, WithHeader, Acceptable;
    StubBytesOf(p + 92, p);
    HeaderBytesOf(Stub(p + 92, p), p);
    AcceptableBytes(Sample(p), p);
  }

  // ----- the code as written

  /** Two images of the same size that differ in one byte of the optional header, both accepted. */
  lemma TwoImages()
    ensures Acceptable(Sample(64), 64) && Acceptable(Sample(64)[94 := 1], 64)
    ensures Sample(64)[94] == 0
  {
    hide Sample, Acceptable;
    SampleAcceptable(64);
    AcceptableKept(Sample(64), 64, 94, 1);
    SampleByte();
  }

  lemma SampleByte()
    ensures Sample(64)[94] == 0
  {
    hide Stub, WithHeader;
    StubBytesOf(156, 64);
    HeaderBytesOf(Stub(156, 64), 64);
  }

  lemma StubIgnoresByte(b: seq<byte>, i: nat, x: byte)
    requires 64 <= |b| && Lfanew(b) <= i < |b| && 64 <= i
    ensures Lfanew(b[i := x]) == Lfanew(b)
    ensures PatchStub(b[i := x]) == PatchStub(b)[i := x]
  {
    hide StubChecksum;
    DwordKept(b, b[i := x], E_LFANEW);
    var p := Lfanew(b);
    var bz, cz := Put16(b, E_CSUM, 0), Put16(b[i := x], E_CSUM, 0);
    assert bz[..p] == cz[..p];
    SameStubChecksum(bz, cz, p);
  }

  /** Wherever the buffer lies, the code as written gives at least one of the two images a wrong PE checksum. */
  lemma WrittenChecksumWrong(address: nat)
    ensures var b, c := Sample(64), Sample(64)[94 := 1];
            && InBounds(b) && InBounds(c)
            && Prepare(AsWritten(address), b).Ready? && Prepare(AsWritten(address), c).Ready?
            && |Prepared(AsWritten(address), b)| == |Prepared(AsWritten(address), c)| == 156
            && !(PeSealed(Prepared(AsWritten(address), b), 64) && PeSealed(Prepared(AsWritten(address), c), 64))
  {
    hide Sample, Acceptable, Prepare, InBounds, PatchStub, PatchPe, PeSealed, Word, Dword, HasOptionalHeader;
    var src, b := AsWritten(address), Sample(64);
    var c := b[94 := 1];
    TwoImages();
    Accepted(b, 64, src);
    Accepted(c, 64, src);
    PreparedIs(src, b);
    PreparedIs(src, c);
    StubIgnoresByte(b, 94, 1);
    PatchStubFrame(b);
    WrittenSealsAtMostOne(address, PatchStub(b), 64, 94, 1);
  }

  /** Buffers 16 bytes apart give the same image different checksums. */
  lemma WrittenSourcesDiffer()
    ensures InBounds(Sample(64)) && Prepare(AsWritten(0x1_0000), Sample(64)).Ready?
    ensures !SameChecksum(AsWritten(0x1_0000), AsWritten(0x1_0010), Sample(64))
  {
    hide Sample, Acceptable, Prepare, InBounds, Put32, PatchStub, PeSum, Word, Dword, Fold, WrittenSum;
    var b, first, second := Sample(64), AsWritten(0x1_0000), AsWritten(0x1_0010);
    SampleAcceptable(64);
    Accepted(b, 64, first);
    PreparedIs(first, b);
    var cleared := Put32(PatchStub(b), 64 + PE_CHECKSUM, 0);
    WrittenSumIs(0x1_0000, cleared, 64);
    WrittenSumIs(0x1_0010, cleared, 64);
    SampleWrittenSums();
    FoldEqual(PeSum(first, cleared, 64), PeSum(second, cleared, 64));
  }

  /** Preparing an image again from a buffer 16 bytes further on changes it. */
  lemma WrittenNotIdempotent()
    ensures var b := Sample(64);
            && InBounds(b) && Prepare(AsWritten(0x1_0000), b).Ready?
            && InBounds(Prepared(AsWritten(0x1_0000), b))
            && Prepare(AsWritten(0x1_0010), Prepared(AsWritten(0x1_0000), b)) != Prepare(AsWritten(0x1_0000), b)
  {
    hide Sample, Prepare, InBounds, SameChecksum;
    WrittenSourcesDiffer();
    PrepareIdempotent(AsWritten(0x1_0000), AsWritten(0x1_0010), Sample(64));
  }

  /** A run on one accepted input delivers. */
  lemma SingleDelivered(input: Input)
    requires Passes(input)
    ensures Succeeded([input]) && Delivered([input]) && |Members([input])| == 1
  {
    hide Check;
    assert [input][..0] == [];
    assert SafeRun([]) && Scan([]) == Passed([]);
    assert SafeRun([input]);
    var m := Check(input).member;
    assert Scan([input]) == Passed([] + [m]);
    assert [] + [m] == [m];
    assert Position([m], 0) == 28;
  }

  /** As written, unpacking an output and packing its member again from another buffer gives another file. */
  lemma WrittenNotReproduced()
    ensures var input, sources := Input(AsWritten(0x1_0000), Loaded(Sample(64))), [AsWritten(0x1_0010)];
            && Succeeded([input]) && |Members([input])| == 1
            && SafeRun(Unpacked(Members([input]), sources))
            && Run(Unpacked(Members([input]), sources), true) != Run([input], true)
  {
    hide Sample, Prepare, InBounds, SameChecksum, Succeeded, SafeRun, Run, Unpacked;
    var input, sources := Input(AsWritten(0x1_0000), Loaded(Sample(64))), [AsWritten(0x1_0010)];
    WrittenSourcesDiffer();
    SingleDelivered(input);
    RepackReproduces([input], sources);
    assert !Repeats([input][0], sources[0]);
  }

  lemma SampleWrittenSums()
    ensures WrittenSum(0x1_0000, 156, 64) == 5700 && WrittenSum(0x1_0010, 156, 64) == 6916
  {
    hide AddressSum;
    Wrap16Is(0x1_0000, 1, 0);
    Wrap16Is(0x1_0010, 1, 16);
    AddressSumBelowWrap(0x1_0000, 78);
    AddressSumBelowWrap(0x1_0010, 78);
  }

  // ----- odd headers and short stubs

  lemma SampleStub(p: byte)
    requires p >= 64
    ensures Sample(p)[..p / 2 * 2] == Stub(p / 2 * 2, p)
  {
    hide Le16;
  }

  lemma SumOfSample(p: byte)
    requires p >= 64
    ensures Sum(Words(Sample(p))) == 0x5A4D + p + Share(0x4550, p) + Share(0x014C, p) + Share(0x010B, p)
  {
    hide Sum, Words, Le16;
    SumOfStub(p + 92, p);
    SumOfHeader(Stub(p + 92, p), p);
  }

  lemma PatchedSample(p: byte)
    requires p >= 64
    ensures Lfanew(Sample(p)) == p
    ensures PatchStub(Sample(p)) == Put16(Sample(p), E_CSUM, 0x1_0000 - 0x5A4D - p)
    ensures Sample(p)[18] == Sample(p)[19] == 0
  {
    hide Sample, Stub, PatchStub, Put16;
    SampleAcceptable(p);
    SampleStub(p);
    BareStub(Sample(p), p);
    BareCsum(Sample(p), p);
  }

  /** A checksum field that is clear already adds nothing and needs no clearing. */
  lemma ClearField(s: seq<byte>, p: nat)
    requires p + 92 <= |s| && s[p + 88] == s[p + 89] == s[p + 90] == s[p + 91] == 0
    ensures Put32(s, p + PE_CHECKSUM, 0) == s && FieldWords(s, p) == 0
  {
    Le32OfZero();
  }

  /** The sum over the image as it is when its PE checksum is computed. */
  lemma MeantSumOfSample(p: byte)
    requires p >= 64
    ensures Lfanew(Sample(p)) == p
    ensures PeSum(AsMeant, Put32(PatchStub(Sample(p)), p + PE_CHECKSUM, 0), p) ==
            0x1_0000 + Share(0x4550, p) + Share(0x014C, p) + Share(0x010B, p)
  {
    hide Sum, Words, PeSum, Le16, FieldWords, Sample, PatchStub, Share;
    var b := Sample(p);
    SumOfSample(p);
    PatchedSample(p);
    assert Share(0x1_0000 - 0x5A4D - p, E_CSUM) == 0x1_0000 - 0x5A4D - p by { EvenShare(0x1_0000 - 0x5A4D - p, E_CSUM); }
    var s := Put16(b, E_CSUM, 0x1_0000 - 0x5A4D - p);
    SumOfPut16(b, E_CSUM, 0x1_0000 - 0x5A4D - p);
    SampleFieldClear(s, p);
    ClearField(s, p);
    MeantSumSplits(s, p);
  }

  lemma EvenShare(v: word, i: nat)
    requires i % 2 == 0
    ensures Share(v, i) == v
  {
  }

  lemma SampleFieldClear(s: seq<byte>, p: byte)
    requires p >= 64 && s == Put16(Sample(p), E_CSUM, 0x1_0000 - 0x5A4D - p)
    ensures s[p + 88] == s[p + 89] == s[p + 90] == s[p + 91] == 0
  {
    hide Le16, Stub, WithHeader;
    StubBytesOf(p + 92, p);
    HeaderBytesOf(Stub(p + 92, p), p);
  }

  /** At an odd header offset even the meant words give a checksum that does not hold of the finished image. */
  lemma OddHeaderChecksumWrong()
    ensures InBounds(Sample(65)) && Prepare(AsMeant, Sample(65)).Ready?
    ensures |Prepared(AsMeant, Sample(65))| == 157
    ensures !PeSealed(Prepared(AsMeant, Sample(65)), 65)
  {
    hide Sample, Acceptable, Prepare, InBounds, PatchStub, PeSealed, PeSum, Put32, Word, Dword, HasOptionalHeader, StubSealed;
    SampleAcceptable(65);
    Accepted(Sample(65), 65, AsMeant);
    MeantSumOfSample(65);
    assert Share(0x4550, 65) == 0x5045 && Share(0x014C, 65) == 0x4C01 && Share(0x010B, 65) == 0x0B01;
    MeantImagesSealed(Sample(65));
  }

  /** A stub too short to reach its own checksum field is left with a sum that is not zero. */
  lemma ShortStubChecksumWrong(src: WordSource)
    ensures InBounds(Sample(4)) && Prepare(src, Sample(4)).Ready?
    ensures |Prepared(src, Sample(4))| == 96
    ensures !StubSealed(Prepared(src, Sample(4)), 4)
  {
    hide Sample, Acceptable, Prepare, InBounds, PatchStub, PeSealed, PeSealCondition, StubSum, Word, Dword;
    SampleAcceptable(4);
    Accepted(Sample(4), 4, src);
    ShortStubSum();
    PrepareSeals(src, Sample(4));
  }

  lemma ShortStubSum()
    ensures StubSum(Sample(4), 4) == 0x5A4D
  {
    hide Sample, Sum, Words;
    var b := Sample(4);
    ShortStubWords();
    SumOfNothing(Words(b));
    SumNext(Words(b), 0);
    SumNext(Words(b), 1);
  }

  lemma ShortStubWords()
    ensures Words(Sample(4))[0] == 0x5A4D && Words(Sample(4))[1] == 0
  {
    hide Stub, WithHeader, Words;
    StubBytesOf(96, 4);
    HeaderBytesOf(Stub(96, 4), 4);
    WordsAt(Sample(4), 0);
    WordsAt(Sample(4), 1);
  }

  // ----- a header moved onto another

  /** An image with headers at 0x80 and 0x180, a value stored where the second would keep its checksum, and a filler. */
  function Twin(): (b: seq<byte>)
    ensures |b| == 512
  {
    Put16(Put16(WithHeader(WithHeader(Stub(512, 0x80), 0x80), 0x180), 0x1D8, 812), 0x1F0, 0x6E30)
  }

  lemma TwinBytes()
    ensures var b := Twin();
            && b[0] == 0x4D && b[1] == 0x5A && b[60] == 0x80
            && (forall i :: 2 <= i < 0x80 && i != 60 ==> b[i] == 0)
            && b[0x80] == 0x50 && b[0x81] == 0x45 && b[0x82] == b[0x83] == 0
            && b[0x84] == 0x4C && b[0x85] == 0x01 && b[0x98] == 0x0B && b[0x99] == 0x01
            && (forall i :: 0xD8 <= i < 0xDC ==> b[i] == 0)
            && b[0x180] == 0x50 && b[0x181] == 0x45 && b[0x182] == b[0x183] == 0
            && b[0x198] == 0x0B && b[0x199] == 0x01
            && b[0x1D8] == 0x2C && b[0x1D9] == 0x03 && b[0x1DA] == b[0x1DB] == 0
  {
    hide Stub, WithHeader;
    StubBytesOf(512, 0x80);
    var b1 := WithHeader(Stub(512, 0x80), 0x80);
    HeaderBytesOf(Stub(512, 0x80), 0x80);
    HeaderBytesOf(b1, 0x180);
    assert Le16(812) == [0x2C, 0x03];
  }

  lemma SumOfTwin()
    ensures Sum(Words(Twin())) == 88951
  {
    hide Sum, Words, Stub, WithHeader, Le16, Share;
    var b0 := Stub(512, 0x80);
    SumOfStub(512, 0x80);
    StubBytesOf(512, 0x80);
    var b1 := WithHeader(b0, 0x80);
    SumOfHeader(b0, 0x80);
    HeaderBytesOf(b0, 0x80);
    var b2 := WithHeader(b1, 0x180);
    SumOfHeader(b1, 0x180);
    HeaderBytesOf(b1, 0x180);
    SumOfPut16(b2, 0x1D8, 812);
    SumOfPut16(Put16(b2, 0x1D8, 812), 0x1F0, 0x6E30);
    EvenShare(0x4550, 0x80);
    EvenShare(0x014C, 0x80);
    EvenShare(0x010B, 0x80);
    EvenShare(0x4550, 0x180);
    EvenShare(0x014C, 0x180);
    EvenShare(0x010B, 0x180);
    EvenShare(812, 0x1D8);
    EvenShare(0x6E30, 0x1F0);
  }

  /** Its stub checksum is 0xA533. */
  lemma TwinStub()
    ensures Lfanew(Twin()) == 0x80
    ensures PatchStub(Twin()) == Put16(Twin(), E_CSUM, 0xA533)
  {
    hide Twin, Stub, PatchStub, Put16;
    TwinBytes();
    StubBytesOf(0x80, 0x80);
    assert Twin()[..0x80] == Stub(0x80, 0x80);
    BareStub(Twin(), 0x80);
  }

  lemma TwinAcceptable()
    ensures Acceptable(Twin(), 0x80)
  {
    hide Twin, Acceptable;
    TwinBytes();
    AcceptableBytes(Twin(), 0x80);
  }

  /** The stub checksum field is clear before and the PE checksum field after the stub is patched. */
  lemma TwinPatchedBytes()
    ensures Lfanew(Twin()) == 0x80 && Twin()[18] == Twin()[19] == 0
    ensures var s := PatchStub(Twin());
            s[0xD8] == s[0xD9] == s[0xDA] == s[0xDB] == 0
  {
    hide Twin, PatchStub;
    TwinBytes();
    TwinStub();
    PatchStubFrame(Twin());
  }

  /** The sum over the image when its PE checksum is computed. */
  lemma TwinSum()
    ensures Lfanew(Twin()) == 0x80
    ensures Sum(Words(PatchStub(Twin()))) == 131242
    ensures PeSum(AsMeant, PatchStub(Twin()), 0x80) == 131242
  {
    hide Twin, Sum, Words, PeSum, PatchStub, Put16, Put32, Share, FieldWords;
    TwinPatchedBytes();
    TwinStub();
    SumOfTwin();
    SumOfPut16(Twin(), E_CSUM, 0xA533);
    EvenShare(0xA533, E_CSUM);
    ClearField(PatchStub(Twin()), 0x80);
    MeantSumSplits(PatchStub(Twin()), 0x80);
  }

  /** Filling in a clear field with a value that fits 16 bits. */
  lemma FilledSmall(s: seq<byte>, p: nat, v: word)
    requires p + 92 <= |s| <= INT_MAX && s[p + 88] == s[p + 89] == s[p + 90] == s[p + 91] == 0
    requires Fold(PeSum(AsMeant, s, p)) + |s| == v
    ensures PatchPe(AsMeant, s, p) == Put16(s, p + PE_CHECKSUM, v)
  {
    hide PeSum, PeChecksum, Fold, Put16, Put32;
    ClearField(s, p);
    PeChecksumDoesNotWrap(AsMeant, s, p);
    SmallField(s, p + PE_CHECKSUM, v);
  }

  /** The finished image stores 684, and its words add up to 131926. */
  lemma TwinPrepared()
    ensures InBounds(Twin()) && Prepare(AsMeant, Twin()).Ready?
    ensures Lfanew(Twin()) == 0x80
    ensures Prepared(AsMeant, Twin()) == Put16(PatchStub(Twin()), 0xD8, 684)
    ensures Sum(Words(Prepared(AsMeant, Twin()))) == 131926
  {
    hide Twin, Acceptable, Sum, Words, PeSum, Fold, PatchStub, PatchPe, Prepare, InBounds, Put16, Share, Word, Dword;
    TwinAcceptable();
    Accepted(Twin(), 0x80, AsMeant);
    PreparedIs(AsMeant, Twin());
    TwinPatchedBytes();
    TwinSum();
    TwinFold();
    var s := PatchStub(Twin());
    FilledSmall(s, 0x80, 684);
    SumOfPut16(s, 0xD8, 684);
    EvenShare(684, 0xD8);
  }

  lemma TwinFold()
    ensures Fold(131242) == 172
  {
    FoldClosedForm(131242);
  }

  lemma SmallFieldReads(s: seq<byte>, i: nat, v: word)
    requires i + 4 <= |s| && s[i + 2] == s[i + 3] == 0
    ensures Dword(Put16(s, i, v), i) == v
  {
    hide Dword;
    DwordJoined(Put16(s, i, v), i);
    WordOfPut16(s, i, v);
  }

  lemma SmallField(s: seq<byte>, i: nat, v: word)
    requires i + 4 <= |s| && s[i + 2] == s[i + 3] == 0
    ensures Put32(s, i, v) == Put16(s, i, v)
  {
    hide Dword, Le32, Le16;
    var t := Put16(s, i, v);
    SmallFieldReads(s, i, v);
    Le32OfDword(t, i);
  }

  /** With the meant words an accepted image with an even header offset ends up intact. */
  lemma MeantIntact(b: seq<byte>, p: nat)
    requires Acceptable(b, p) && p % 2 == 0
    ensures InBounds(b) && Prepare(AsMeant, b).Ready?
    ensures SealedInput(Input(AsMeant, Loaded(b))) && Intact(Prepared(AsMeant, b))
  {
    hide Acceptable, PeSealed, PeSum, PeSealCondition, StubSealed, PatchStub, Prepare, InBounds, Put32, Word, Dword, Intact;
    Accepted(b, p, AsMeant);
    PrepareSeals(AsMeant, b);
    MeantImagesSealed(b);
    SealedInputIntact(Input(AsMeant, Loaded(b)));
  }

  lemma TwinFields()
    ensures InBounds(Twin()) && Prepare(AsMeant, Twin()).Ready?
    ensures var c := Prepared(AsMeant, Twin());
            && |c| == 512 && c[61] == 0
            && Lfanew(c[61 := 1]) == 0x180
            && Dword(c[61 := 1], 0x180) == NT_SIGNATURE && HasOptionalHeader(c[61 := 1], 0x180)
            && Dword(c, 0x1D8) == FieldWords(c, 0x180) == 812
  {
    hide Twin, PatchStub, Prepare, InBounds, Le16, Words, Sum;
    TwinBytes();
    TwinStub();
    PatchStubFrame(Twin());
    TwinPrepared();
    var c := Prepared(AsMeant, Twin());
    assert forall i :: 0 <= i < 512 && !(18 <= i < 20 || 0xD8 <= i < 0xDA) ==> c[i] == Twin()[i];
    TwinMoved(c);
  }

  lemma TwinMoved(c: seq<byte>)
    requires |c| == 512 && c[60] == 0x80 && c[61] == c[62] == c[63] == 0
    requires c[0x180] == 0x50 && c[0x181] == 0x45 && c[0x182] == c[0x183] == 0 && c[0x198] == 0x0B && c[0x199] == 0x01
    requires c[0x1D8] == 0x2C && c[0x1D9] == 0x03 && c[0x1DA] == c[0x1DB] == 0
    ensures Lfanew(c[61 := 1]) == 0x180
    ensures Dword(c[61 := 1], 0x180) == NT_SIGNATURE && HasOptionalHeader(c[61 := 1], 0x180)
    ensures Dword(c, 0x1D8) == FieldWords(c, 0x180) == 812
  {
    hide Dword;
    DwordJoined(c[61 := 1], E_LFANEW);
    DwordJoined(c[61 := 1], 0x180);
    DwordJoined(c, 0x1D8);
  }

  /** Changing byte 61 of a finished image moves its header onto another one that happens to check: the image is still
      intact. */
  lemma MovedHeaderUnnoticed()
    ensures InBounds(Twin()) && Prepare(AsMeant, Twin()).Ready?
    ensures var c := Prepared(AsMeant, Twin());
            |c| == 512 && c[61] != 1 && Intact(c) && Intact(c[61 := 1])
  {
    hide Twin, Acceptable, PatchStub, Prepare, InBounds, Words, Sum, Intact, Put16, Word, Dword, Lfanew, HasOptionalHeader;
    TwinAcceptable();
    MeantIntact(Twin(), 0x80);
    TwinFields();
    TwinPrepared();
    TamperedIntact(Prepared(AsMeant, Twin()), 61, 1);
  }

  // ----- a body beyond 4 GiB

  /** An i386 TE image of `n` bytes with nothing behind its signature and machine. */
  function Te(n: nat): (b: seq<byte>)
    requires 4 <= n
    ensures |b| == n
    ensures b[0] == 0x56 && b[1] == 0x5A && b[2] == 0x4C && b[3] == 0x01
    ensures forall i :: 4 <= i < n ==> b[i] == 0
  {
    [0x56, 0x5A, 0x4C, 0x01] + Zeros(n - 4)
  }

  lemma TeReady(n: nat, src: WordSource)
    requires 4 <= n <= INT_MAX
    ensures InBounds(Te(n)) && Prepare(src, Te(n)) == Ready(Member(7, 3, Te(n)))
  {
    hide PatchStub, PatchPe, Lfanew;
    assert Word(Te(n), 0) == TE_SIGNATURE && Word(Te(n), 2) == 0x014C;
  }

  /** Three images of the largest size and a fourth behind them. */
  function FarInputs(src: WordSource): (r: seq<Input>)
    ensures |r| == 4
  {
    var large := Input(src, Loaded(Te(INT_MAX)));
    [large, large, large, Input(src, Loaded(Te(4)))]
  }

  lemma FarPasses(src: WordSource)
    ensures Succeeded(FarInputs(src)) && |Members(FarInputs(src))| == 4
    ensures forall i :: 0 <= i < 4 ==> Members(FarInputs(src))[i] == Member(7, 3, FarInputs(src)[i].file.bytes)
  {
    hide Te, Prepare, InBounds, Scan, SafeRun;
    TeReady(INT_MAX, src);
    TeReady(4, src);
    var inputs := FarInputs(src);
    AllPass(inputs);
    ScanPasses(inputs);
  }

  lemma FarPositions(ms: seq<Member>)
    requires |ms| == 4 && |ms[0].image| == |ms[1].image| == |ms[2].image| == INT_MAX
    ensures Position(ms, 0) == 88 && Position(ms, 3) == 88 + 3 * INT_MAX
  {
    assert ms[..0] == [];
    PositionNext(ms, 0);
    PositionNext(ms, 1);
    PositionNext(ms, 2);
  }

  /** The start recorded for the fourth body lies near the end of the first. */
  lemma FarEcho(ms: seq<Member>)
    requires Sized(ms) && |ms| == 4 && ms[0].image == ms[1].image == ms[2].image == Te(INT_MAX) && ms[3].image == Te(4)
    ensures Position(ms, 3) >= 0x1_0000_0000 && !Echoed(ms, 3)
  {
    hide Container, Position, Te;
    FarPositions(ms);
    ContainerBody(ms, 0);
    var c, start := Container(ms), Wrap32(Position(ms, 3));
    assert start == 0x8000_0055;
    assert c[start] == c[88..88 + INT_MAX][start - 88] == 0;
    assert start + 4 <= |c| ==> c[start..start + 4][0] == 0;
  }

  /** A run on four accepted images whose output does not read back: the fourth body's start is recorded modulo 2^32, and a
      reader finds other bytes there. */
  lemma FarBodyLost(src: WordSource)
    ensures Succeeded(FarInputs(src)) && Run(FarInputs(src), true).output.Output?
    ensures ReadContainer(Run(FarInputs(src), true).output.bytes) != Contents(Members(FarInputs(src)))
  {
    hide Scan, SafeRun, Run, Members, Container, Position, ReadContainer, Te, Echoed;
    FarPasses(src);
    OutputReadsBackExactly(FarInputs(src));
    FarEcho(Members(FarInputs(src)));
  }

  // ----- one input too many

  /** Fourteen copies of an accepted image. */
  function Fourteen(src: WordSource): (r: seq<Input>)
    ensures |r| == 14
  {
    seq(14, i => Input(src, Loaded(Sample(64))))
  }

  /** They all pass, and the read loop runs past its arrays. */
  lemma FourteenOverrun(src: WordSource)
    ensures SafeRun(Fourteen(src)) && Scan(Fourteen(src)).Passed?
    ensures Overruns(Fourteen(src)) && !Fits(Fourteen(src))
  {
    hide Sample, Acceptable, Prepare, InBounds, Scan, SafeRun, Overruns, Fits;
    SampleAcceptable(64);
    Accepted(Sample(64), 64, src);
    AllPass(Fourteen(src));
    NoneFails(src);
    FitsExactly(Fourteen(src));
  }

  lemma NoneFails(src: WordSource)
    requires InBounds(Sample(64)) && Prepare(src, Sample(64)).Ready?
    ensures !Fits(Fourteen(src))
  {
    hide Sample, Prepare, InBounds;
  }

  // ----- a run that delivers what it should

  /** With the meant words, packing the first image alone succeeds and its PE checksum holds in the output. */
  lemma SampleRun()
    ensures var input := Input(AsMeant, Loaded(Sample(64)));
            SealedInput(input) && Delivered([input])
  {
    hide Sample, Acceptable, Prepare, InBounds, SealedInput, Intact, Delivered;
    SampleAcceptable(64);
    MeantIntact(Sample(64), 64);
    SingleDelivered(Input(AsMeant, Loaded(Sample(64))));
  }
}
