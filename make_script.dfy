/**
 * make.py: the older script. It always renders catalog entries 1 .. 7 of the
 * fixed model tenor/bosl-tenor.scad, naming the files with --prefix, which
 * defaults to "tenor-parts". Its catalog has no "nut".
 */
module MakeScript {

  import opened Wrappers
  import opened Renderer
  import Decimal

  const PARTS: seq<string> :=
    ["all", "neck_head", "neck_heel", "body_neck", "body_tail", "fb_head", "fb_heel", "bridge"]

  const DEFAULT_PREFIX := "tenor-parts"
  const MODEL_PATH := "tenor/bosl-tenor.scad"

  /** The loop runs over range(1, LOOP_END). */
  const LOOP_END := 8

  /** The one option the script takes: --prefix, possibly absent. */
  datatype Options = Options(prefix: Option<string>)

  /** --prefix as given, or the parser's default. */
  function Prefix(opts: Options): string {
    match opts.prefix
    case Some(p) => p
    case None => DEFAULT_PREFIX
  }

  /** The calls of the loop, for i = 1 .. LOOP_END - 1. */
  function Plan(opts: Options): seq<Call> {
    seq(LOOP_END - 1, k requires 0 <= k < LOOP_END - 1 =>
      Call(k + 1, OutputName(Prefix(opts), PARTS[k + 1]), MODEL_PATH))
  }

  /** A whole run of the script against the renderer's exit codes, one per call. */
  function Behaviour(opts: Options, codes: seq<int>): Execution
    requires |codes| >= LOOP_END - 1
  {
    Execute(Plan(opts), codes)
  }

  /**
   * main(): for i in range(1, 8), print the progress line, then invoke the
   * renderer, which exits with codes[i - 1]; a non-zero code ends the run.
   */
  method Run(opts: Options, codes: seq<int>) returns (outcome: Outcome, trace: seq<Event>)
    requires |codes| >= LOOP_END - 1
    ensures Execution(trace, outcome) == Behaviour(opts, codes)
  {
    var prefix := Prefix(opts);
    ghost var calls := Plan(opts);
    trace := [];
    var i := 1;
    while i < LOOP_END
      invariant 1 <= i <= LOOP_END
      invariant trace == Steps(calls[..i - 1])
      invariant AllZero(codes, i - 1)
    {
      ghost var before := trace;
      var output := OutputName(prefix, PARTS[i]);
      trace := trace + [Progress(ProgressLine(output))];
      trace := trace + [Invoke(Argv(Call(i, output, MODEL_PATH)))];
      assert trace == Steps(calls[..i]) by {
        assert calls[i - 1] == Call(i, output, MODEL_PATH);
        assert trace == before + Step(calls[i - 1]);
        StepsSnoc(calls, i);
      }
      if codes[i - 1] != 0 {
        ExecuteFailsAt(calls, codes, i - 1);
        return RenderFailed(codes[i - 1]), trace;
      }
      AllZeroExtend(codes, i - 1);
      i := i + 1;
    }
    assert calls[..i - 1] == calls;
    ExecuteCompletes(calls, codes);
    outcome := Completed;
  }

  /** The catalog: eight distinct names, "all" first, and no "nut". */
  lemma CatalogShape()
    ensures |PARTS| == 8 && PARTS[0] == "all" && "nut" !in PARTS
    ensures forall i, j :: 0 <= i < j < |PARTS| ==> PARTS[i] != PARTS[j]
  {
  }

  /**
   * Every run plans seven invocations with selectors 1 .. 7 in ascending
   * order, every catalog position but that of "all", all on the fixed model.
   */
  lemma PlanShape(opts: Options)
    ensures var calls := Plan(opts);
      |calls| == 7
      && (forall k :: 0 <= k < 7 ==>
            calls[k] == Call(k + 1, OutputName(Prefix(opts), PARTS[k + 1]), "tenor/bosl-tenor.scad"))
      && Selectors(calls) == [1, 2, 3, 4, 5, 6, 7]
      && forall i :: i in Selectors(calls) <==> 0 < i < |PARTS|
  {
    assert Selectors(Plan(opts)) == [1, 2, 3, 4, 5, 6, 7];
  }

  /** Without --prefix the files are named tenor-parts-{part}.stl. */
  lemma DefaultPrefixUsed()
    ensures forall k :: 0 <= k < |Plan(Options(None))| ==>
      Plan(Options(None))[k].output == "tenor-parts-" + PARTS[k + 1] + ".stl"
  {
  }

  /** The seven files are all different, so no output overwrites another. */
  lemma OutputsDistinct(opts: Options)
    ensures var calls := Plan(opts);
      forall a, b :: 0 <= a < b < |calls| ==> calls[a].output != calls[b].output
  {
    CatalogShape();
    var calls := Plan(opts);
    forall a, b | 0 <= a < b < |calls|
      ensures calls[a].output != calls[b].output
    {
      OutputNameInjective(Prefix(opts), PARTS[a + 1], PARTS[b + 1]);
    }
  }

  /**
   * Each invocation's command line is the fixed shape on the fixed model,
   * and the progress line just before it names its -o file.
   */
  lemma InvocationShape(opts: Options, codes: seq<int>, q: nat)
    requires |codes| >= LOOP_END - 1
    requires q < |Behaviour(opts, codes).trace| && Behaviour(opts, codes).trace[q].Invoke?
    ensures var t := Behaviour(opts, codes).trace; var argv := t[q].argv;
      |argv| == 6 && argv[0] == "openscad" && argv[1] == "-DAUTO=true" && argv[3] == "-o"
      && argv[5] == "tenor/bosl-tenor.scad"
      && (exists i :: 0 < i < |PARTS| && argv[2] == "-Dmake_part=" + Decimal.FromNat(i)
                                     && argv[4] == OutputName(Prefix(opts), PARTS[i]))
      && q > 0 && t[q - 1] == Progress("Generating " + argv[4])
  {
    var calls := Plan(opts);
    var k := InvokedCall(calls, codes, q);
    assert calls[k] == Call(k + 1, OutputName(Prefix(opts), PARTS[k + 1]), MODEL_PATH);
  }

  /**
   * The run stops at the first failure: when invocation k exits non-zero,
   * invocations 0 .. k were started and none after.
   */
  lemma StopsAtFailure(opts: Options, codes: seq<int>, k: nat)
    requires |codes| >= LOOP_END - 1
    requires k < LOOP_END - 1 && codes[k] != 0
    requires forall j :: 0 <= j < k ==> codes[j] == 0
    ensures var calls := Plan(opts); var run := Behaviour(opts, codes);
      run.outcome == RenderFailed(codes[k])
      && Invocations(run.trace) == ArgvList(calls[..k + 1])
      && forall j :: k < j < |calls| ==> Argv(calls[j]) !in Invocations(run.trace)
  {
    var calls := Plan(opts);
    assert FirstNonZero(codes[..|calls|]) == k;
    ExecuteInvocations(calls, codes);
    forall j | k < j < |calls|
      ensures Argv(calls[j]) !in Invocations(Behaviour(opts, codes).trace)
    {
      forall a, b | 0 <= a < b < |calls|
        ensures calls[a] != calls[b]
      {
        assert calls[a].part == a + 1;
      }
      NothingAfterFailure(calls, codes, k, j);
    }
  }

  /** When the third of the seven invocations fails, exactly three are started. */
  lemma ThirdFailureExample(opts: Options, status: int)
    requires status != 0
    ensures var run := Behaviour(opts, [0, 0, status, 0, 0, 0, 0]);
      run.outcome == RenderFailed(status) && |Invocations(run.trace)| == 3
  {
    StopsAtFailure(opts, [0, 0, status, 0, 0, 0, 0], 2);
  }

  /** When every invocation succeeds, all seven are started, in catalog order. */
  lemma Completes(opts: Options, codes: seq<int>)
    requires |codes| >= LOOP_END - 1
    requires forall j :: 0 <= j < LOOP_END - 1 ==> codes[j] == 0
    ensures var run := Behaviour(opts, codes);
      run.outcome == Completed && Invocations(run.trace) == ArgvList(Plan(opts))
  {
    var calls := Plan(opts);
    ExecuteInvocations(calls, codes);
    assert calls[..Issued(calls, codes)] == calls;
  }
}
