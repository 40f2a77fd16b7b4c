/** What a finished run promises about the file it wrote. */
module Guarantees {
  import opened Bytes
  import opened Checksums
  import opened Images
  import opened Seals
  import opened Patching
  import opened Containers
  import opened ContainerLaws
  import opened Lipo

  /** The members of a run that wrote its output. */
  function Members(inputs: seq<Input>): (ms: seq<Member>)
    requires SafeRun(inputs) && Scan(inputs).Passed?
  {
    Scan(inputs).members
  }

  /** A run that wrote its output. */
  predicate Succeeded(inputs: seq<Input>) {
    SafeRun(inputs) && 0 < |inputs| < 0x1_0000_0000 && Scan(inputs).Passed?
  }

  /** A run that wrote its output with every body starting below 4 GiB. */
  predicate Delivered(inputs: seq<Input>) {
    Succeeded(inputs) && Addressable(Members(inputs))
  }

  /** Reading an output of any size back gives exactly the patched image and CPU of every input, in order, if and only if
      every body starts below 4 GiB or is echoed at the start recorded for it. */
  lemma OutputReadsBackExactly(inputs: seq<Input>)
    requires Succeeded(inputs)
    ensures Run(inputs, true).output.Output?
    ensures |Members(inputs)| == |inputs| && Sized(Members(inputs))
    ensures forall i :: 0 <= i < |inputs| ==> Passes(inputs[i]) && Check(inputs[i]) == Ready(Members(inputs)[i])
    ensures ReadContainer(Run(inputs, true).output.bytes) == Contents(Members(inputs)) <==>
              forall i :: 0 <= i < |inputs| ==>
                Position(Members(inputs), i) < 0x1_0000_0000 || Echoed(Members(inputs), i)
  {
    hide Scan, SafeRun, Check, Container, Position, ReadContainer, Echoed;
    ScanPasses(inputs);
    ScanSized(inputs);
    RoundTripExactly(Members(inputs));
  }

  /** Reading the output back gives, in order, the patched image and CPU of every input. */
  lemma OutputReadsBack(inputs: seq<Input>)
    requires Delivered(inputs)
    ensures Run(inputs, true).output.Output?
    ensures ReadContainer(Run(inputs, true).output.bytes) == Contents(Members(inputs))
    ensures |Members(inputs)| == |inputs|
    ensures forall i :: 0 <= i < |inputs| ==> Passes(inputs[i]) && Check(inputs[i]) == Ready(Members(inputs)[i])
  {
    hide Scan, SafeRun, Check, Container, Position, ReadContainer, Echoed;
    OutputReadsBackExactly(inputs);
  }

  // ----- packing the members of an output again

  /** The members of a container offered to the tool again, each with the word source the second run has for it. */
  function Unpacked(ms: seq<Member>, sources: seq<WordSource>): (r: seq<Input>)
    requires |ms| == |sources|
    ensures |r| == |ms|
  {
    seq(|ms|, i requires 0 <= i < |ms| => Input(sources[i], Loaded(ms[i].image)))
  }

  /** The inputs of the first run with the word sources of the second. */
  function Resourced(inputs: seq<Input>, sources: seq<WordSource>): (r: seq<Input>)
    requires |inputs| == |sources|
    ensures |r| == |inputs|
  {
    seq(|inputs|, i requires 0 <= i < |inputs| => inputs[i].(src := sources[i]))
  }

  /** Checking a member again is checking the original input with the later word source. */
  lemma CheckAgain(input: Input, source: WordSource)
    requires Passes(input)
    ensures var again, other := Input(source, Loaded(Check(input).member.image)), input.(src := source);
            Passes(again) && Passes(other) && Check(again) == Check(other)
  {
    hide InBounds, Prepare;
    PrepareAgain(input.src, source, input.file.bytes);
    SourceAffectsChecksumOnly(input.src, source, input.file.bytes);
  }

  lemma {:induction false} AllPass(inputs: seq<Input>)
    requires forall i :: 0 <= i < |inputs| ==> Passes(inputs[i])
    ensures SafeRun(inputs) && Scan(inputs).Passed?
  {
    hide Check;
    if inputs != [] {
      AllPass(inputs[..|inputs| - 1]);
    }
  }

  lemma {:induction false} ScanEqual(xs: seq<Input>, ys: seq<Input>)
    requires SafeRun(xs) && SafeRun(ys) && |xs| == |ys|
    requires forall i :: 0 <= i < |xs| ==> Passes(xs[i]) && Passes(ys[i]) && Check(xs[i]) == Check(ys[i])
    ensures Scan(xs) == Scan(ys)
  {
    hide Check;
    if xs != [] {
      var n := |xs| - 1;
      ScanEqual(xs[..n], ys[..n]);
    }
  }

  /** Packing the members of an output again, whatever words are summed the second time, is packing the original inputs
      with those words. */
  lemma RepackRuns(inputs: seq<Input>, sources: seq<WordSource>)
    requires Succeeded(inputs) && |sources| == |inputs|
    ensures |Members(inputs)| == |inputs|
    ensures var again, other := Unpacked(Members(inputs), sources), Resourced(inputs, sources);
            && SafeRun(again) && Scan(again).Passed?
            && SafeRun(other) && Scan(other).Passed?
            && Run(again, true) == Run(other, true)
  {
    hide Scan, SafeRun, Check, Container, Position;
    ScanPasses(inputs);
    var again, other := Unpacked(Members(inputs), sources), Resourced(inputs, sources);
    forall i | 0 <= i < |inputs|
      ensures Passes(again[i]) && Passes(other[i]) && Check(again[i]) == Check(other[i])
    {
      CheckAgain(inputs[i], sources[i]);
    }
    AllPass(again);
    AllPass(other);
    ScanEqual(again, other);
  }

  /** The second word source of an input fills in the same PE checksum as the first, or there is none. */
  predicate Repeats(input: Input, source: WordSource)
    requires Passes(input)
  {
    SameChecksum(input.src, source, input.file.bytes)
  }

  lemma RepeatsExactly(input: Input, source: WordSource)
    requires Passes(input)
    ensures Passes(input.(src := source))
    ensures |Check(input.(src := source)).member.image| == |Check(input).member.image|
    ensures Check(input.(src := source)) == Check(input) <==> Repeats(input, source)
  {
    hide InBounds, Prepare, SameChecksum;
    SourceAffectsChecksumOnly(input.src, source, input.file.bytes);
    CheckSized(input);
    CheckSized(input.(src := source));
  }

  /** Unpacking an output and packing its members again reproduces it byte for byte exactly when, for every input, the
      second run's words give the checksum that the first run's gave. */
  lemma RepackReproduces(inputs: seq<Input>, sources: seq<WordSource>)
    requires Succeeded(inputs) && |sources| == |inputs|
    ensures |Members(inputs)| == |inputs|
    ensures forall i :: 0 <= i < |inputs| ==> Passes(inputs[i])
    ensures SafeRun(Unpacked(Members(inputs), sources))
    ensures Run(Unpacked(Members(inputs), sources), true) == Run(inputs, true) <==>
              forall i :: 0 <= i < |inputs| ==> Repeats(inputs[i], sources[i])
  {
    hide Scan, SafeRun, Check, Container, Position, Repeats;
    RepackRuns(inputs, sources);
    var other := Resourced(inputs, sources);
    ScanPasses(inputs);
    ScanPasses(other);
    ScanSized(inputs);
    ScanSized(other);
    var ms, ns := Members(inputs), Scan(other).members;
    forall i | 0 <= i < |inputs|
      ensures |ns[i].image| == |ms[i].image| && (ns[i] == ms[i] <==> Repeats(inputs[i], sources[i]))
    {
      RepeatsExactly(inputs[i], sources[i]);
    }
    SameSizesInjective(ms, ns);
  }

  /** The same words twice, and in particular the meant ones, always reproduce the file. */
  lemma RepackSameSources(inputs: seq<Input>, sources: seq<WordSource>)
    requires Succeeded(inputs) && |sources| == |inputs|
    requires forall i :: 0 <= i < |inputs| ==> sources[i] == inputs[i].src
    ensures |Members(inputs)| == |inputs|
    ensures SafeRun(Unpacked(Members(inputs), sources))
    ensures Run(Unpacked(Members(inputs), sources), true) == Run(inputs, true)
  {
    hide Scan, SafeRun, Check, Container, Position, InBounds;
    RepackReproduces(inputs, sources);
  }

  // ----- adding an input

  /** One more accepted input leaves every earlier member as it was and moves its body by one table entry. */
  lemma AppendingInput(inputs: seq<Input>, input: Input, i: nat)
    requires SafeRun(inputs) && |inputs| + 1 < 0x1_0000_0000 && i < |inputs|
    requires Scan(inputs).Passed? && Passes(input)
    ensures SafeRun(inputs + [input])
    ensures Scan(inputs + [input]) == Passed(Members(inputs) + [Check(input).member])
    ensures Sized(Members(inputs)) && Sized(Members(inputs + [input]))
    ensures |Members(inputs)| == |inputs|
    ensures Position(Members(inputs + [input]), i) == Position(Members(inputs), i) + ARCH_SIZE
    ensures Plan(Members(inputs + [input]))[i] ==
            Plan(Members(inputs))[i].(offset := Wrap32(Position(Members(inputs), i) + ARCH_SIZE))
  {
    hide Check, Position, Plan, Wrap32;
    assert (inputs + [input])[..|inputs|] == inputs;
    ScanPasses(inputs);
    ScanSized(inputs);
    ScanSized(inputs + [input]);
    PlanExtends(Members(inputs), Check(input).member, i);
  }

  // ----- tampering with the output

  /** What someone who finds the image in a container can check: its own header leads to a PE checksum that holds. */
  predicate Intact(image: seq<byte>) {
    && 64 <= |image| <= INT_MAX
    && Word(image, 0) == DOS_SIGNATURE
    && Lfanew(image) + 92 <= |image|
    && Dword(image, Lfanew(image)) == NT_SIGNATURE
    && HasOptionalHeader(image, Lfanew(image))
    && PeSealed(image, Lfanew(image))
  }

  /** An accepted MZ image with a PE checksum that will hold once the tool has filled it in. */
  predicate SealedInput(input: Input) {
    && input.file.Loaded?
    && var b := input.file.bytes;
       && InBounds(b) && Prepare(input.src, b).Ready?
       && Word(b, 0) == DOS_SIGNATURE
       && Lfanew(b) + 92 <= |b| && HasOptionalHeader(b, Lfanew(b))
       && PeSealCondition(input.src, PatchStub(b), Lfanew(b))
  }

  lemma SealedInputIntact(input: Input)
    requires SealedInput(input)
    ensures Passes(input) && Intact(Check(input).member.image)
  {
    hide PeSealed, PeSealCondition, StubSealed, PatchStub, PatchPe, Prepare, Word, Dword, HasOptionalHeader;
    PrepareSeals(input.src, input.file.bytes);
    PreparedIs(input.src, input.file.bytes);
    PreparedStable(input.src, input.src, input.file.bytes);
  }

  /** The header offset read from the image once byte `j` is `x` leads to a PE header whose stored checksum meets the
      condition for a change of that byte. */
  predicate MovedHeaderSealed(image: seq<byte>, j: nat, x: byte)
    requires 64 <= |image| && j < |image|
  {
    var moved := image[j := x];
    var p := Lfanew(moved);
    && p + 92 <= |image|
    && Dword(moved, p) == NT_SIGNATURE
    && HasOptionalHeader(moved, p)
    && ChangedSealCondition(image, j, x, p)
  }

  lemma SameLfanew(image: seq<byte>, j: nat, x: byte)
    requires 64 <= |image| && j < |image| && !(60 <= j < 64)
    ensures Lfanew(image[j := x]) == Lfanew(image)
  {
    DwordKept(image, image[j := x], E_LFANEW);
  }

  /** After a change of any one byte an intact image is intact exactly when the byte is one of the four of `e_lfanew` and
      the header it now leads to meets the condition. */
  lemma TamperedIntact(image: seq<byte>, j: nat, x: byte)
    requires Intact(image) && j < |image| && x != image[j]
    ensures Intact(image[j := x]) <==> 60 <= j < 64 && MovedHeaderSealed(image, j, x)
  {
    hide PeSealed, ChangedSealCondition, Dword;
    if 60 <= j < 64 {
      var p := Lfanew(image[j := x]);
      if p + 92 <= |image| {
        ChangedSealed(image, j, x, p);
      }
    } else {
      SameLfanew(image, j, x);
      PeTamperEvident(image, Lfanew(image), j, x);
    }
  }

  /** In the output of a run, replacing any one byte of a sealed image's slice shows on reading back: that image is no
      longer intact, unless `e_lfanew` was moved to another header that happens to check, and no other member is
      affected. */
  lemma OutputTamperEvident(inputs: seq<Input>, ms: seq<Member>, c: seq<byte>, i: nat, j: nat, x: byte)
    requires Delivered(inputs) && ms == Members(inputs) && |ms| == |inputs|
    requires Run(inputs, true) == Result(0, Output(c))
    requires i < |inputs| && SealedInput(inputs[i]) && j < |ms[i].image| && x != ms[i].image[j]
    ensures Position(ms, i) + j < |c|
    ensures ReadContainer(c) == Contents(ms)
    ensures ReadContainer(c[Position(ms, i) + j := x]) == Contents(Tampered(ms, i, j, x))
    ensures Intact(ms[i].image)
    ensures Intact(Tampered(ms, i, j, x)[i].image) <==> 60 <= j < 64 && MovedHeaderSealed(ms[i].image, j, x)
  {
    hide Scan, SafeRun, Check, Container, Position, ReadContainer, SealedInput, MovedHeaderSealed;
    OutputReadsBack(inputs);
    ScanSized(inputs);
    TamperingIsLocal(ms, i, j, x);
    SealedInputIntact(inputs[i]);
    hide Intact;
    TamperedIntact(ms[i].image, j, x);
  }
}
