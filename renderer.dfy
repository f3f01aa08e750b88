/**
 * What both scripts share: one OpenSCAD invocation per part, its fixed argv
 * shape and output file name, the progress line printed before it, and the
 * sequential, stop-at-first-failure execution of a list of invocations
 * against an oracle of renderer exit codes.
 */
module Renderer {

  import opened Wrappers
  import Decimal

  const EXECUTABLE := "openscad"
  const AUTO_FLAG := "-DAUTO=true"
  const PART_FLAG := "-Dmake_part="
  const OUTPUT_FLAG := "-o"
  const PROGRESS := "Generating "

  /** One renderer invocation: the part selector, the -o file and the model file. */
  datatype Call = Call(part: nat, output: string, model: string)

  /** The make_part selector of each call, in order. */
  function Selectors(calls: seq<Call>): seq<nat> {
    seq(|calls|, k requires 0 <= k < |calls| => calls[k].part)
  }

  /** The command line of a call, in the order the renderer receives it. */
  function Argv(c: Call): seq<string> {
    [EXECUTABLE, AUTO_FLAG, PART_FLAG + Decimal.FromNat(c.part), OUTPUT_FLAG, c.output, c.model]
  }

  /** Reads a command line of the fixed shape back into the call it stands for. */
  function ParseArgv(argv: seq<string>): Option<Call> {
    if |argv| == 6 && argv[0] == EXECUTABLE && argv[1] == AUTO_FLAG && argv[3] == OUTPUT_FLAG
       && |PART_FLAG| <= |argv[2]| && argv[2][..|PART_FLAG|] == PART_FLAG
    then
      match Decimal.Parse(argv[2][|PART_FLAG|..])
      case Some(n) => Some(Call(n, argv[4], argv[5]))
      case None => None
    else None
  }

  /** The command line names which part, which output file and which model: nothing is lost. */
  lemma ParseArgvRoundTrip(c: Call)
    ensures ParseArgv(Argv(c)) == Some(c)
  {
    var argv := Argv(c);
    assert argv[2][..|PART_FLAG|] == PART_FLAG;
    assert argv[2][|PART_FLAG|..] == Decimal.FromNat(c.part);
    Decimal.ParseFromNat(c.part);
  }

  /** Different calls have different command lines. */
  lemma ArgvInjective(c: Call, d: Call)
    ensures Argv(c) == Argv(d) <==> c == d
  {
    ParseArgvRoundTrip(c);
    ParseArgvRoundTrip(d);
  }

  /** The output file of a part: "{prefix}-{name}.stl". */
  function OutputName(prefix: string, name: string): string {
    prefix + "-" + name + ".stl"
  }

  /** Under one prefix, distinct part names give distinct output files. */
  lemma OutputNameInjective(prefix: string, a: string, b: string)
    ensures OutputName(prefix, a) == OutputName(prefix, b) <==> a == b
  {
    if OutputName(prefix, a) == OutputName(prefix, b) {
      var n := |prefix| + 1;
      assert |a| == |b|;
      assert a == OutputName(prefix, a)[n..n + |a|];
      assert b == OutputName(prefix, b)[n..n + |b|];
    }
  }

  function ProgressLine(output: string): string {
    PROGRESS + output
  }

  /** What a run does that can be observed: a progress line printed, or a renderer started. */
  datatype Event = Progress(line: string) | Invoke(argv: seq<string>)

  /** The usage errors the option parser reports before any work is done. */
  datatype UsageError = InvalidPartName(name: string) | MissingModel

  /**
   * How a run ends: every call succeeded; a call exited with the non-zero
   * status carried here (check_call raised); or the options were refused.
   */
  datatype Outcome = Completed | RenderFailed(status: int) | Rejected(error: UsageError)

  datatype Execution = Execution(trace: seq<Event>, outcome: Outcome)

  /** The two events of one call: its progress line, then the invocation. */
  function Step(c: Call): seq<Event> {
    [Progress(ProgressLine(c.output)), Invoke(Argv(c))]
  }

  /** The events of issuing every call in order, none of them failing. */
  function Steps(calls: seq<Call>): (t: seq<Event>)
    ensures |t| == 2 * |calls|
  {
    if calls == [] then [] else Steps(calls[..|calls| - 1]) + Step(calls[|calls| - 1])
  }

  /** Position 2k of the trace announces call k, position 2k+1 starts it. */
  lemma {:induction false} StepsAt(calls: seq<Call>, k: nat)
    requires k < |calls|
    ensures Steps(calls)[2 * k] == Progress(ProgressLine(calls[k].output))
    ensures Steps(calls)[2 * k + 1] == Invoke(Argv(calls[k]))
  {
    var n := |calls|;
    if k < n - 1 {
      StepsAt(calls[..n - 1], k);
    }
  }

  /** The index of the first non-zero exit code, or |codes| when all are zero. */
  function FirstNonZero(codes: seq<int>): (k: nat)
    ensures k <= |codes|
    ensures forall j :: 0 <= j < k ==> codes[j] == 0
    ensures k < |codes| ==> codes[k] != 0
  {
    if codes == [] then 0
    else if codes[0] != 0 then 0
    else 1 + FirstNonZero(codes[1..])
  }

  /** How many of the calls are issued: through the first failing one, or all of them. */
  function Issued(calls: seq<Call>, codes: seq<int>): (n: nat)
    requires |codes| >= |calls|
    ensures n <= |calls|
    ensures forall j :: 0 <= j < n - 1 ==> codes[j] == 0
    ensures n < |calls| ==> n > 0 && codes[n - 1] != 0
  {
    var k := FirstNonZero(codes[..|calls|]);
    if k < |calls| then k + 1 else |calls|
  }

  /**
   * Issues the calls one at a time: call k prints its progress line, starts
   * the renderer and receives codes[k]; a non-zero code ends the run there.
   */
  function Execute(calls: seq<Call>, codes: seq<int>): Execution
    requires |codes| >= |calls|
  {
    var k := FirstNonZero(codes[..|calls|]);
    if k == |calls| then Execution(Steps(calls), Completed)
    else Execution(Steps(calls[..k + 1]), RenderFailed(codes[k]))
  }

  /**
   * A run completes exactly when every code is zero, and fails with the
   * status of its last issued call otherwise; its trace holds the steps of
   * the issued calls and nothing else.
   */
  lemma ExecuteOutcome(calls: seq<Call>, codes: seq<int>)
    requires |codes| >= |calls|
    ensures var r := Execute(calls, codes);
      && (r.outcome == Completed <==> forall j :: 0 <= j < |calls| ==> codes[j] == 0)
      && (r.outcome.RenderFailed? <==> exists j :: 0 <= j < |calls| && codes[j] != 0)
      && (r.outcome.RenderFailed? ==> r.outcome.status == codes[Issued(calls, codes) - 1] != 0)
      && r.trace == Steps(calls[..Issued(calls, codes)])
  {
    var k := FirstNonZero(codes[..|calls|]);
    if k == |calls| {
      assert calls[..|calls|] == calls;
    } else {
      assert codes[..|calls|][k] == codes[k];
    }
  }

  /** Issuing one more call adds its two steps at the end of the trace. */
  lemma StepsSnoc(calls: seq<Call>, i: nat)
    requires 0 < i <= |calls|
    ensures Steps(calls[..i]) == Steps(calls[..i - 1]) + Step(calls[i - 1])
  {
    assert calls[..i][..i - 1] == calls[..i - 1];
  }

  /** The first n exit codes are all zero. */
  predicate AllZero(codes: seq<int>, n: nat)
    requires n <= |codes|
  {
    forall j :: 0 <= j < n ==> codes[j] == 0
  }

  lemma AllZeroExtend(codes: seq<int>, n: nat)
    requires n < |codes| && AllZero(codes, n) && codes[n] == 0
    ensures AllZero(codes, n + 1)
  {
  }

  /** When call k is the first to fail, the run ends right after starting it. */
  lemma ExecuteFailsAt(calls: seq<Call>, codes: seq<int>, k: nat)
    requires |codes| >= |calls|
    requires k < |calls| && codes[k] != 0
    requires AllZero(codes, k)
    ensures Execute(calls, codes) == Execution(Steps(calls[..k + 1]), RenderFailed(codes[k]))
  {
    var prefix := codes[..|calls|];
    assert forall j :: 0 <= j < k ==> prefix[j] == 0;
    assert prefix[k] != 0;
    assert FirstNonZero(prefix) == k;
  }

  /** When no call fails, the run issues every call and completes. */
  lemma ExecuteCompletes(calls: seq<Call>, codes: seq<int>)
    requires |codes| >= |calls|
    requires AllZero(codes, |calls|)
    ensures Execute(calls, codes) == Execution(Steps(calls), Completed)
  {
    var prefix := codes[..|calls|];
    assert forall j :: 0 <= j < |prefix| ==> prefix[j] == 0;
    assert FirstNonZero(prefix) == |calls|;
  }

  /** The call that trace position q starts: call k, announced at position q - 1. */
  lemma InvokedCall(calls: seq<Call>, codes: seq<int>, q: nat) returns (k: nat)
    requires |codes| >= |calls|
    requires q < |Execute(calls, codes).trace|
    requires Execute(calls, codes).trace[q].Invoke?
    ensures k < Issued(calls, codes) && q == 2 * k + 1
    ensures Execute(calls, codes).trace[q] == Invoke(Argv(calls[k]))
    ensures Execute(calls, codes).trace[q - 1] == Progress(ProgressLine(calls[k].output))
  {
    ExecuteOutcome(calls, codes);
    var issued := calls[..Issued(calls, codes)];
    k := q / 2;
    StepsAt(issued, k);
    if q == 2 * k {
      assert false;
    }
  }

  /** The command lines a trace starts, in order. */
  function Invocations(t: seq<Event>): seq<seq<string>> {
    if t == [] then []
    else Invocations(t[..|t| - 1]) + (match t[|t| - 1] case Invoke(argv) => [argv] case Progress(_) => [])
  }

  function ArgvList(calls: seq<Call>): seq<seq<string>> {
    seq(|calls|, k requires 0 <= k < |calls| => Argv(calls[k]))
  }

  lemma {:induction false} InvocationsAppend(s: seq<Event>, t: seq<Event>)
    ensures Invocations(s + t) == Invocations(s) + Invocations(t)
    decreases |t|
  {
    if t == [] {
      assert s + t == s;
    } else {
      var n := |t|;
      assert (s + t)[..|s + t| - 1] == s + t[..n - 1];
      assert (s + t)[|s + t| - 1] == t[n - 1];
      InvocationsAppend(s, t[..n - 1]);
    }
  }

  /** Issuing calls without failure starts exactly their command lines, in order. */
  lemma {:induction false} InvocationsOfSteps(calls: seq<Call>)
    ensures Invocations(Steps(calls)) == ArgvList(calls)
  {
    if calls != [] {
      var n := |calls|;
      InvocationsOfSteps(calls[..n - 1]);
      InvocationsAppend(Steps(calls[..n - 1]), Step(calls[n - 1]));
      var last := Step(calls[n - 1]);
      assert last[..1] == [last[0]];
      assert [last[0]][..0] == [];
      assert Invocations([last[0]]) == [];
      assert Invocations(last) == [Argv(calls[n - 1])];
    }
  }

  /** Every invocation in a run is immediately preceded by a line naming its -o file. */
  lemma ProgressPrecedesInvoke(calls: seq<Call>, codes: seq<int>, q: nat)
    requires |codes| >= |calls|
    requires q < |Execute(calls, codes).trace|
    requires Execute(calls, codes).trace[q].Invoke?
    ensures var t := Execute(calls, codes).trace;
      q > 0 && |t[q].argv| == 6 && t[q].argv[3] == OUTPUT_FLAG
      && t[q - 1] == Progress(PROGRESS + t[q].argv[4])
  {
    var k := InvokedCall(calls, codes, q);
  }

  /**
   * The calls that are started are exactly the first Issued(calls, codes) ones,
   * in order: when call k fails, no call after k is ever started.
   */
  lemma ExecuteInvocations(calls: seq<Call>, codes: seq<int>)
    requires |codes| >= |calls|
    ensures Invocations(Execute(calls, codes).trace) == ArgvList(calls[..Issued(calls, codes)])
  {
    ExecuteOutcome(calls, codes);
    InvocationsOfSteps(calls[..Issued(calls, codes)]);
  }

  /** A failure at call k leaves every later call unstarted, when the calls are all different. */
  lemma NothingAfterFailure(calls: seq<Call>, codes: seq<int>, k: nat, j: nat)
    requires |codes| >= |calls|
    requires k < j < |calls|
    requires codes[k] != 0
    requires forall a, b :: 0 <= a < b < |calls| ==> calls[a] != calls[b]
    ensures Argv(calls[j]) !in Invocations(Execute(calls, codes).trace)
  {
    var n := Issued(calls, codes);
    assert n <= k + 1;
    ExecuteInvocations(calls, codes);
    if Argv(calls[j]) in ArgvList(calls[..n]) {
      var i :| 0 <= i < n && ArgvList(calls[..n])[i] == Argv(calls[j]);
      ArgvInjective(calls[i], calls[j]);
    }
  }
}
