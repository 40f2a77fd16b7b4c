/** A whole run of the tool: check and patch every input, plan the container, then write it. */
module Lipo {
  import opened Bytes
  import opened Checksums
  import opened Images
  import opened Machines
  import opened Verdicts
  import opened Containers

  /** What opening and reading one input gives. */
  datatype File = Unopenable | ShortRead | Loaded(bytes: seq<byte>)

  /** What a run leaves behind: its exit code, and the output file if it came to be opened. */
  datatype Result = Result(code: int, output: Output)
  datatype Output = NoOutput | Output(bytes: seq<byte>)

  /** The inputs of a run: each file with the source of the words for its PE checksum. */
  datatype Input = Input(src: WordSource, file: File)

  /** Checking this input makes no access outside its buffer. */
  predicate Safe(input: Input) {
    input.file.Loaded? ==> InBounds(input.file.bytes)
  }

  /** The checks on one input, in the order of the code. */
  function Check(input: Input): Outcome
    requires Safe(input)
  {
    match input.file
    case Unopenable => Rejected(-1)
    case ShortRead => Rejected(-2)
    case Loaded(b) => Prepare(input.src, b)
  }

  predicate Passes(input: Input) {
    Safe(input) && Check(input).Ready?
  }

  predicate Fails(input: Input) {
    Safe(input) && Check(input).Rejected?
  }

  datatype Scanned = Stopped(code: int) | Passed(members: seq<Member>)

  /** Every input the read loop gets to is safe to check; those behind a failing input are never touched. */
  predicate SafeRun(inputs: seq<Input>)
    decreases inputs, 0
  {
    inputs == [] ||
    (var n := |inputs| - 1; SafeRun(inputs[..n]) && (Scan(inputs[..n]).Passed? ==> Safe(inputs[n])))
  }

  /** The read loop: members up to the first input that fails a check. */
  function Scan(inputs: seq<Input>): Scanned
    requires SafeRun(inputs)
    decreases inputs, 1
  {
    if inputs == [] then Passed([])
    else
      var n := |inputs| - 1;
      match Scan(inputs[..n])
      case Stopped(code) => Stopped(code)
      case Passed(ms) =>
        match Check(inputs[n])
        case Rejected(code) => Stopped(code)
        case Ready(m) => Passed(ms + [m])
  }

  lemma CheckSized(input: Input)
    requires Passes(input)
    ensures input.file.Loaded?
    ensures |Check(input).member.image| == |input.file.bytes| <= INT_MAX
  {
  }

  /** The loop passes exactly when every input does, and then yields their members in order. */
  lemma {:induction false} ScanPasses(inputs: seq<Input>)
    requires SafeRun(inputs)
    ensures Scan(inputs).Passed? <==> forall i :: 0 <= i < |inputs| ==> Passes(inputs[i])
    ensures Scan(inputs).Passed? ==>
              && |Scan(inputs).members| == |inputs|
              && forall i :: 0 <= i < |inputs| ==> Scan(inputs).members[i] == Check(inputs[i]).member
  {
    hide Check;
    if inputs != [] {
      var n := |inputs| - 1;
      ScanPasses(inputs[..n]);
      assert forall i :: 0 <= i < n ==> inputs[..n][i] == inputs[i];
      assert inputs[n] == inputs[|inputs| - 1];
    }
  }

  /** The loop stops with the code of the first input that fails. */
  lemma {:induction false} ScanStops(inputs: seq<Input>, k: nat)
    requires SafeRun(inputs) && k < |inputs|
    requires forall i :: 0 <= i < k ==> Passes(inputs[i])
    requires Fails(inputs[k])
    ensures Scan(inputs) == Stopped(Check(inputs[k]).code)
  {
    hide Check;
    var n := |inputs| - 1;
    if k < n {
      ScanStops(inputs[..n], k);
    } else {
      ScanPasses(inputs[..n]);
    }
  }

  /** What precedes any input of a safe run is a safe run. */
  lemma {:induction false} SafePrefix(inputs: seq<Input>, k: nat)
    requires SafeRun(inputs) && k <= |inputs|
    ensures SafeRun(inputs[..k])
    decreases |inputs|
  {
    hide Safe;
    var n := |inputs| - 1;
    if k <= n {
      SafePrefix(inputs[..n], k);
      assert inputs[..n][..k] == inputs[..k];
    } else {
      assert inputs[..k] == inputs;
    }
  }

  lemma ScanSized(inputs: seq<Input>)
    requires SafeRun(inputs) && |inputs| < 0x1_0000_0000 && Scan(inputs).Passed?
    ensures Sized(Scan(inputs).members)
  {
    hide Check, Scan;
    ScanPasses(inputs);
    forall i | 0 <= i < |inputs|
      ensures |Scan(inputs).members[i].image| <= INT_MAX
    {
      CheckSized(inputs[i]);
    }
  }

  /** A run as a function of its inputs and of whether the output file can be opened. */
  function Run(inputs: seq<Input>, writable: bool): Result
    requires SafeRun(inputs) && |inputs| < 0x1_0000_0000
  {
    if inputs == [] then Result(1, NoOutput)
    else
      match Scan(inputs)
      case Stopped(code) => Result(code, NoOutput)
      case Passed(ms) =>
        ScanSized(inputs);
        if writable then Result(0, Output(Container(ms))) else Result(-6, NoOutput)
  }

  // ----- the code

  /** The output file. `starts` records at which position each write began. */
  class OutFile {
    var isOpen: bool
    var bytes: seq<byte>
    ghost var starts: seq<nat>

    constructor ()
      ensures !isOpen && bytes == [] && starts == []
    {
      isOpen, bytes, starts := false, [], [];
    }

    method Open()
      modifies this
      ensures isOpen && bytes == [] && starts == []
    {
      isOpen, bytes, starts := true, [], [];
    }

    method Write(s: seq<byte>)
      requires isOpen
      modifies this
      ensures isOpen && bytes == old(bytes) + s && starts == old(starts) + [|old(bytes)|]
    {
      starts := starts + [|bytes|];
      bytes := bytes + s;
    }
  }

  /** Opens, reads, checks and patches one input in a fresh buffer. */
  method LoadAndPrepare(input: Input) returns (code: int, buf: array<byte>, cputype: dword, cpusubtype: dword)
    requires Safe(input)
    ensures fresh(buf)
    ensures match Check(input)
            case Rejected(c) => code == c && code != 0
            case Ready(m) => code == 0 && m == Member(cputype, cpusubtype, buf[..])
  {
    match input.file {
      case Unopenable =>
        code, buf, cputype, cpusubtype := -1, new byte[0], 0, 0;
      case ShortRead =>
        code, buf, cputype, cpusubtype := -2, new byte[0], 0, 0;
      case Loaded(b) =>
        buf := new byte[|b|](i requires 0 <= i < |b| => b[i]);
        assert buf[..] == b;
        code, cputype, cpusubtype := PrepareInPlace(input.src, buf);
    }
  }

  /** What one accepted input adds to the state of the read loop. */
  lemma ScanNext(inputs: seq<Input>, k: nat, ms: seq<Member>, m: Member)
    requires k < |inputs| && SafeRun(inputs[..k]) && Safe(inputs[k])
    requires Scan(inputs[..k]) == Passed(ms) && Check(inputs[k]) == Ready(m)
    ensures SafeRun(inputs[..k + 1])
    ensures Scan(inputs[..k + 1]) == Passed(ms + [m])
    ensures |m.image| <= INT_MAX
  {
    CheckSized(inputs[k]);
    assert inputs[..k + 1][..k] == inputs[..k];
  }

  /** What a rejected input decides. */
  lemma ScanStopsHere(inputs: seq<Input>, k: nat, ms: seq<Member>)
    requires SafeRun(inputs) && k < |inputs| && SafeRun(inputs[..k]) && Fails(inputs[k])
    requires Scan(inputs[..k]) == Passed(ms)
    ensures Scan(inputs) == Stopped(Check(inputs[k]).code)
  {
    hide Check, Scan;
    ScanPasses(inputs[..k]);
    forall i | 0 <= i < k
      ensures Passes(inputs[i])
    {
      assert inputs[..k][i] == inputs[i];
    }
    ScanStops(inputs, k);
  }

  lemma StartNext(n: nat, ms: seq<Member>, m: Member)
    ensures Start(n, ms + [m]) == Start(n, ms) + |m.image|
    ensures Wrap32(Wrap32(Start(n, ms)) + |m.image|) == Wrap32(Start(n, ms + [m]))
  {
    hide Wrap32;
    assert (ms + [m])[..|ms|] == ms;
    Wrap32Add(Start(n, ms), |m.image|);
  }

  /** Entry `j` of the table of `n` members of which `ms` are the first is filled in. */
  ghost predicate Filled(fatarch: seq<FatArch>, n: nat, ms: seq<Member>, j: nat)
    requires j < |ms|
  {
    j < |fatarch| && |ms[j].image| <= INT_MAX && fatarch[j] == Entry(ms[j], Start(n, ms[..j]))
  }

  lemma FilledNext(table: seq<FatArch>, next: seq<FatArch>, n: nat, ms: seq<Member>, m: Member)
    requires |ms| < |table| && |m.image| <= INT_MAX
    requires forall j :: 0 <= j < |ms| ==> Filled(table, n, ms, j)
    requires next == table[|ms| := Entry(m, Start(n, ms))]
    ensures forall j :: 0 <= j < |ms + [m]| ==> Filled(next, n, ms + [m], j)
  {
    hide Entry, Start;
    forall j | 0 <= j < |ms + [m]|
      ensures Filled(next, n, ms + [m], j)
    {
      assert (ms + [m])[..j] == ms[..j];
      assert ms[..|ms|] == ms;
      assert j < |ms| ==> Filled(table, n, ms, j);
    }
  }

  /** At most 13 inputs, as many as the tool's arrays hold, or one among the first 13 that stops the run. */
  predicate Fits(inputs: seq<Input>) {
    |inputs| <= 13 || exists k :: 0 <= k < 13 && Fails(inputs[k])
  }

  /** While the loop goes on, its index stays inside the arrays. */
  lemma IndexFits(inputs: seq<Input>, k: nat)
    requires Fits(inputs) && k < |inputs| && SafeRun(inputs[..k]) && Scan(inputs[..k]).Passed?
    ensures k < 13
  {
    hide Check, Scan, SafeRun;
    ScanPasses(inputs[..k]);
    assert forall f :: 0 <= f < k ==> inputs[..k][f] == inputs[f];
  }

  /** The read loop comes to a turn with index 13, which its guard allows and its arrays do not have. */
  predicate Overruns(inputs: seq<Input>) {
    13 < |inputs| && SafeRun(inputs[..13]) && Scan(inputs[..13]).Passed?
  }

  lemma {:induction false} FirstPass(inputs: seq<Input>, k: nat)
    requires SafeRun(inputs) && k <= |inputs| && forall j :: 0 <= j < k ==> !Fails(inputs[j])
    ensures SafeRun(inputs[..k]) && Scan(inputs[..k]).Passed?
  {
    hide Check;
    if k > 0 {
      FirstPass(inputs, k - 1);
      SafeNext(inputs, k - 1);
      assert inputs[..k][..k - 1] == inputs[..k - 1];
    }
  }

  /** A safe run stays inside the arrays exactly when it has at most 13 inputs or fails on one of the first 13. */
  lemma FitsExactly(inputs: seq<Input>)
    requires SafeRun(inputs)
    ensures Fits(inputs) <==> !Overruns(inputs)
  {
    hide Check, Scan, SafeRun;
    if 13 < |inputs| {
      if Fits(inputs) {
        SafePrefix(inputs, 13);
        ScanPasses(inputs[..13]);
        assert forall j :: 0 <= j < 13 ==> inputs[..13][j] == inputs[j];
      } else {
        FirstPass(inputs, 13);
      }
    }
  }

  /** The read loop. On success the table and the buffers describe the members; otherwise `code` says why. */
  method ReadInputs(inputs: seq<Input>)
    returns (code: int, fatarch: array<FatArch>, outbuffer: seq<array<byte>>, ghost ms: seq<Member>)
    requires SafeRun(inputs) && Fits(inputs)
    ensures fresh(fatarch) && fatarch.Length == 13
    ensures code != 0 ==> Scan(inputs) == Stopped(code)
    ensures code == 0 ==> Scan(inputs) == Passed(ms) && |ms| == |inputs| == |outbuffer| <= 13
    ensures code == 0 ==>
              forall j :: 0 <= j < |ms| ==> Filled(fatarch[..], |ms|, ms, j) && outbuffer[j][..] == ms[j].image
  {
    hide Check, Scan, SafeRun, Filled, Wrap32, Start, Fits;
    var n := |inputs|;
    fatarch := new FatArch[13];
    outbuffer, code, ms := [], 0, [];
    var curoffset: dword := Wrap32(HEADER_SIZE + n * ARCH_SIZE);
    var curfile := 0;
    FirstStart(n);
    while curfile < n && curfile <= 13
      invariant 0 <= curfile <= n && curfile <= 13 && code == 0
      invariant SafeRun(inputs[..curfile])
      invariant Scan(inputs[..curfile]) == Passed(ms)
      invariant |ms| == curfile == |outbuffer|
      invariant forall j :: 0 <= j < curfile ==> Filled(fatarch[..], n, ms, j)
      invariant forall j :: 0 <= j < curfile ==> outbuffer[j][..] == ms[j].image
      invariant curoffset == Wrap32(Start(n, ms))
    {
      SafeNext(inputs, curfile);
      IndexFits(inputs, curfile);
      var buf, cputype, cpusubtype;
      code, buf, cputype, cpusubtype := LoadAndPrepare(inputs[curfile]);
      if code != 0 {
        ScanStopsHere(inputs, curfile, ms);
        return;
      }
      ghost var m := Member(cputype, cpusubtype, buf[..]);
      ScanNext(inputs, curfile, ms, m);
      StartNext(n, ms, m);
      ghost var table := fatarch[..];
      fatarch[curfile] := FatArch(cputype, cpusubtype, curoffset, buf.Length, 0);
      FilledNext(table, fatarch[..], n, ms, m);
      curoffset := Wrap32(curoffset + buf.Length);
      outbuffer := outbuffer + [buf];
      ms := ms + [m];
      curfile := curfile + 1;
    }
    AllRead(inputs, curfile, ms);
  }

  /** When the loop ends without failure it has read every input. */
  lemma AllRead(inputs: seq<Input>, k: nat, ms: seq<Member>)
    requires SafeRun(inputs) && Fits(inputs) && k <= |inputs| && !(k < |inputs| && k <= 13) && k <= 13
    requires SafeRun(inputs[..k]) && Scan(inputs[..k]) == Passed(ms)
    ensures k == |inputs| && Scan(inputs) == Passed(ms)
  {
    assert inputs[..|inputs|] == inputs;
  }

  /** As long as the inputs before it pass, the next one is safe to check. */
  lemma SafeNext(inputs: seq<Input>, k: nat)
    requires SafeRun(inputs) && k < |inputs|
    ensures SafeRun(inputs[..k]) && (Scan(inputs[..k]).Passed? ==> Safe(inputs[k]))
  {
    hide Check, Safe;
    SafePrefix(inputs, k);
    SafePrefix(inputs, k + 1);
    assert inputs[..k + 1][..k] == inputs[..k];
  }

  lemma FirstStart(n: nat)
    ensures SafeRun([]) && Scan([]) == Passed([]) && Start(n, []) == HEADER_SIZE + n * ARCH_SIZE
  {
  }

  /** A fully filled table is the plan. */
  lemma FilledIsPlan(table: seq<FatArch>, ms: seq<Member>)
    requires Sized(ms) && |ms| <= |table|
    requires forall j :: 0 <= j < |ms| ==> Filled(table, |ms|, ms, j)
    ensures table[..|ms|] == Plan(ms)
  {
    forall j | 0 <= j < |ms|
      ensures table[j] == Plan(ms)[j]
    {
      assert Filled(table, |ms|, ms, j);
    }
  }

  /** The first write loop: the table after the header. */
  method WriteTable(fatarch: array<FatArch>, n: nat, out: OutFile)
    requires n <= fatarch.Length && out.isOpen
    modifies out
    ensures out.isOpen && out.bytes == old(out.bytes) + TableBytes(fatarch[..n])
    ensures |out.starts| == |old(out.starts)| + n
  {
    hide ArchBytes;
    var curfile := 0;
    ghost var t := fatarch[..n];
    while curfile < n
      invariant 0 <= curfile <= n && fatarch[..n] == t
      invariant out.isOpen && out.bytes == old(out.bytes) + TableBytes(t[..curfile])
      invariant |out.starts| == |old(out.starts)| + curfile
    {
      assert t[..curfile + 1][..curfile] == t[..curfile];
      out.Write(ArchBytes(fatarch[curfile]));
      curfile := curfile + 1;
    }
    assert t[..n] == t;
  }

  /** The second write loop: the bodies, each starting at its planned position. */
  method WriteBodies(outbuffer: seq<array<byte>>, out: OutFile, ghost ms: seq<Member>)
    requires Sized(ms) && |ms| == |outbuffer|
    requires forall j :: 0 <= j < |ms| ==> outbuffer[j][..] == ms[j].image
    requires out.isOpen && out.bytes == Before(ms, 0)
    modifies out
    ensures out.isOpen && out.bytes == Before(ms, |ms|)
    ensures |out.starts| == |old(out.starts)| + |ms|
    ensures forall j :: 0 <= j < |ms| ==> out.starts[|old(out.starts)| + j] == Position(ms, j)
  {
    hide Position, Before, Bodies, BodySize;
    var n := |outbuffer|;
    var curfile := 0;
    while curfile < n
      invariant 0 <= curfile <= n
      invariant out.isOpen && out.bytes == Before(ms, curfile)
      invariant |out.starts| == |old(out.starts)| + curfile
      invariant forall j :: 0 <= j < curfile ==> out.starts[|old(out.starts)| + j] == Position(ms, j)
      invariant forall j :: 0 <= j < n ==> outbuffer[j][..] == ms[j].image
    {
      BeforeNext(ms, curfile);
      PlannedOffsetReached(ms, curfile);
      out.Write(outbuffer[curfile][..]);
      curfile := curfile + 1;
    }
  }

  lemma BeforeNext(ms: seq<Member>, i: nat)
    requires Sized(ms) && i < |ms|
    ensures Before(ms, i + 1) == Before(ms, i) + ms[i].image
  {
    hide HeaderBytes, TableBytes, Plan;
    assert ms[..i + 1][..i] == ms[..i];
  }

  /** Everything after the output file is open: header, table, then bodies, each body where the table says it is. */
  method WriteContainer(fatarch: array<FatArch>, outbuffer: seq<array<byte>>, out: OutFile, ghost ms: seq<Member>)
    requires Sized(ms) && |ms| == |outbuffer| <= fatarch.Length
    requires fatarch[..|ms|] == Plan(ms)
    requires forall j :: 0 <= j < |ms| ==> outbuffer[j][..] == ms[j].image
    requires out.isOpen && out.bytes == [] && out.starts == []
    modifies out
    ensures out.isOpen && out.bytes == Container(ms)
    ensures |out.starts| == 1 + 2 * |ms|
    ensures forall j :: 0 <= j < |ms| ==> out.starts[1 + |ms| + j] == Position(ms, j)
  {
    hide Plan, Position, Container, HeaderBytes, TableBytes, BodySize;
    BeforeEnd(ms);
    out.Write(HeaderBytes(|outbuffer|));
    WriteTable(fatarch, |outbuffer|, out);
    assert out.bytes == Before(ms, 0);
    WriteBodies(outbuffer, out, ms);
  }

  lemma BeforeEnd(ms: seq<Member>)
    requires Sized(ms)
    ensures Before(ms, |ms|) == Container(ms)
  {
    assert ms[..|ms|] == ms;
  }

  /** The program: the exit code and the output file are those of `Run`, and each body was written at the position its
      table entry records, modulo 2^32. */
  method Pack(inputs: seq<Input>, writable: bool, out: OutFile) returns (code: int)
    requires SafeRun(inputs) && |inputs| <= INT_MAX && Fits(inputs)
    requires !out.isOpen
    modifies out
    ensures Result(code, if out.isOpen then Output(out.bytes) else NoOutput) == Run(inputs, writable)
    ensures code == 0 ==>
              && Scan(inputs).Passed? && |out.starts| == 1 + 2 * |inputs| && |Scan(inputs).members| == |inputs|
              && forall j :: 0 <= j < |inputs| ==> out.starts[1 + |inputs| + j] == Position(Scan(inputs).members, j)
  {
    hide Check, Scan, SafeRun, Fits, Filled, Position, Container, BodySize, Plan;
    if inputs == [] {
      return 1;
    }
    var fatarch, outbuffer;
    ghost var ms;
    code, fatarch, outbuffer, ms := ReadInputs(inputs);
    if code != 0 {
      return;
    }
    ScanSized(inputs);
    if !writable {
      return -6;
    }
    out.Open();
    FilledIsPlan(fatarch[..], ms);
    assert fatarch[..][..|ms|] == fatarch[..|ms|];
    WriteContainer(fatarch, outbuffer, out, ms);
  }

  // ----- what a run guarantees

  /** All or nothing: the output exists exactly when every input passes every check and the file can be opened. */
  lemma AllOrNothing(inputs: seq<Input>, writable: bool)
    requires SafeRun(inputs) && |inputs| < 0x1_0000_0000
    ensures Run(inputs, writable).output.Output? <==>
              inputs != [] && writable && forall i :: 0 <= i < |inputs| ==> Passes(inputs[i])
    ensures Run(inputs, writable).output.Output? <==> Run(inputs, writable).code == 0
  {
    hide Check, Scan, Container;
    ScanPasses(inputs);
    if Scan(inputs).Stopped? {
      StoppedCode(inputs);
    }
  }

  lemma {:induction false} StoppedCode(inputs: seq<Input>)
    requires SafeRun(inputs) && Scan(inputs).Stopped?
    ensures -5 <= Scan(inputs).code <= -1
  {
    hide Check;
    var n := |inputs| - 1;
    if Scan(inputs[..n]).Stopped? {
      StoppedCode(inputs[..n]);
    } else {
      CodeRange(inputs[n]);
    }
  }

  /** Every exit code of a run and what it stands for: usage, success, an unwritable output, or a failing input. */
  lemma ExitCodes(inputs: seq<Input>, writable: bool)
    requires SafeRun(inputs) && |inputs| < 0x1_0000_0000
    ensures var code, allPass := Run(inputs, writable).code, forall i :: 0 <= i < |inputs| ==> Passes(inputs[i]);
            && (code == 1 <==> inputs == [])
            && (code == 0 <==> inputs != [] && allPass && writable)
            && (code == -6 <==> inputs != [] && allPass && !writable)
            && (-5 <= code <= -1 <==> !allPass)
  {
    hide Check, Scan, SafeRun, Container;
    ScanPasses(inputs);
    if Scan(inputs).Stopped? {
      StoppedCode(inputs);
    }
  }

  /** Why an input fails, and the code that says so: it cannot be opened, is read short, has neither signature, leads to
      no PE header, or is for a machine without a CPU type. */
  predicate FailsFor(input: Input, code: int)
    requires Safe(input)
  {
    match input.file
    case Unopenable => code == -1
    case ShortRead => code == -2
    case Loaded(b) =>
      || (code == -3 && !IsMz(b) && !IsTe(b))
      || (code == -4 && IsMz(b) && !LeadsToPe(b))
      || (code == -5 && Recognised(b) && MachineOf(b) !in SUPPORTED_MACHINES)
  }

  /** The checks reject an input with a code exactly for the cause that code stands for. */
  lemma CauseOfFailure(input: Input, code: int)
    requires Safe(input)
    ensures Check(input) == Rejected(code) <==> FailsFor(input, code)
  {
    hide Prepare, InBounds, IsMz, IsTe, LeadsToPe, Recognised, MachineOf, SUPPORTED_MACHINES;
    if input.file.Loaded? {
      VerdictOf(input.src, input.file.bytes);
      if Check(input).Rejected? {
        RejectionCodes(input.src, input.file.bytes);
      }
    }
  }

  lemma RejectionCodes(src: WordSource, b: seq<byte>)
    requires InBounds(b) && Prepare(src, b).Rejected?
    ensures Prepare(src, b).code in {-3, -4, -5}
  {
    hide PatchStub, PatchPe, Word, Dword;
  }

  /** The first failing input decides the run: its cause of failure gives the exit code, and nothing is written. */
  lemma FirstFailureDecides(inputs: seq<Input>, writable: bool, k: nat)
    requires SafeRun(inputs) && |inputs| < 0x1_0000_0000 && k < |inputs|
    requires forall i :: 0 <= i < k ==> Passes(inputs[i])
    requires Fails(inputs[k])
    ensures Run(inputs, writable).output == NoOutput
    ensures FailsFor(inputs[k], Run(inputs, writable).code)
    ensures forall code :: FailsFor(inputs[k], code) ==> code == Run(inputs, writable).code
  {
    hide Check, Scan, SafeRun, FailsFor;
    ScanStops(inputs, k);
    forall code
      ensures Check(inputs[k]) == Rejected(code) <==> FailsFor(inputs[k], code)
    {
      CauseOfFailure(inputs[k], code);
    }
  }

  lemma CodeRange(input: Input)
    requires Fails(input)
    ensures -5 <= Check(input).code <= -1
  {
  }
}
