/**
 * tenor/make-tenor-parts.py: renders one named part of a model, or every
 * part but the "all" pseudo-part, by invoking OpenSCAD once per part.
 */
module TenorParts {

  import opened Wrappers
  import opened Renderer
  import PosixPath
  import Decimal

  /** The part catalog; a name's position is the make_part selector passed to the renderer. */
  const PARTS: seq<string> :=
    ["all", "neck_head", "neck_heel", "body_neck", "body_tail", "fb_head", "fb_heel", "bridge", "nut"]

  /** The all-parts loop runs over range(1, ALL_PARTS_END). */
  const ALL_PARTS_END := 9

  /** The options as the parser leaves them: --prefix, --model and --part, each possibly absent. */
  datatype Options = Options(prefix: Option<string>, model: Option<string>, part: Option<string>)

  /** Python's list.index for a value that is present: its first position. */
  function IndexOf(s: seq<string>, x: string): (i: nat)
    requires x in s
    ensures i < |s| && s[i] == x
    ensures forall j :: 0 <= j < i ==> s[j] != x
  {
    if s[0] == x then 0 else 1 + IndexOf(s[1..], x)
  }

  /**
   * The output prefix: --prefix as given, or else the model's basename
   * without its final extension.
   */
  function DerivePrefix(prefix: Option<string>, model: string): string {
    match prefix
    case Some(p) => p
    case None => PosixPath.Splitext(PosixPath.Basename(model)).0
  }

  /** The call that renders catalog entry idx. */
  function PartCall(prefix: string, model: string, idx: nat): Call
    requires idx < |PARTS|
  {
    Call(idx, OutputName(prefix, PARTS[idx]), model)
  }

  /** The calls of the all-parts loop, for i = 1 .. ALL_PARTS_END - 1. */
  function AllPartsCalls(prefix: string, model: string): seq<Call> {
    seq(ALL_PARTS_END - 1, k requires 0 <= k < ALL_PARTS_END - 1 => PartCall(prefix, model, k + 1))
  }

  /**
   * The calls a command line asks for, or the usage error that stops it first:
   * a --part outside the catalog, then a missing --model.
   */
  function Plan(opts: Options): (r: Result<seq<Call>, UsageError>)
    ensures r == Err(MissingModel) <==> opts.model.None? && (opts.part.None? || opts.part.value in PARTS)
    ensures r.Err? && r.error.InvalidPartName? <==> opts.part.Some? && opts.part.value !in PARTS
    ensures r.Err? ==> r.error == MissingModel || r.error == InvalidPartName(opts.part.value)
    ensures r.Ok? ==> |r.value| == if opts.part.Some? then 1 else |PARTS| - 1
  {
    if opts.part.Some? && opts.part.value !in PARTS then Err(InvalidPartName(opts.part.value))
    else if opts.model.None? then Err(MissingModel)
    else
      var prefix := DerivePrefix(opts.prefix, opts.model.value);
      match opts.part
      case Some(name) => Ok([PartCall(prefix, opts.model.value, IndexOf(PARTS, name))])
      case None => Ok(AllPartsCalls(prefix, opts.model.value))
  }

  /** A whole run of the script against the renderer's exit codes, one per call. */
  function Behaviour(opts: Options, codes: seq<int>): Execution
    requires |codes| >= ALL_PARTS_END - 1
  {
    match Plan(opts)
    case Err(e) => Execution([], Rejected(e))
    case Ok(calls) => Execute(calls, codes)
  }

  /**
   * main(): the k-th renderer invocation exits with codes[k]; the first
   * non-zero code ends the run.
   */
  method Run(opts: Options, codes: seq<int>) returns (outcome: Outcome, trace: seq<Event>)
    requires |codes| >= ALL_PARTS_END - 1
    ensures Execution(trace, outcome) == Behaviour(opts, codes)
  {
    if opts.part.Some? && opts.part.value !in PARTS {
      return Rejected(InvalidPartName(opts.part.value)), [];
    }
    if opts.model.None? {
      return Rejected(MissingModel), [];
    }
    var model := opts.model.value;
    var prefix := DerivePrefix(opts.prefix, model);
    if opts.part.Some? {
      var idx := IndexOf(PARTS, opts.part.value);
      outcome, trace := RenderOne(prefix, model, idx, codes);
    } else {
      outcome, trace := RenderAll(prefix, model, codes);
    }
  }

  /** The single-part branch: print, then one invocation for catalog entry idx. */
  method RenderOne(prefix: string, model: string, idx: nat, codes: seq<int>)
    returns (outcome: Outcome, trace: seq<Event>)
    requires idx < |PARTS| && |codes| >= 1
    ensures Execution(trace, outcome) == Execute([PartCall(prefix, model, idx)], codes)
  {
    var output := OutputName(prefix, PARTS[idx]);
    trace := [Progress(ProgressLine(output))];
    trace := trace + [Invoke(Argv(Call(idx, output, model)))];
    ghost var calls := [PartCall(prefix, model, idx)];
    StepsSnoc(calls, 1);
    assert calls[..1] == calls;
    if codes[0] != 0 {
      ExecuteFailsAt(calls, codes, 0);
      return RenderFailed(codes[0]), trace;
    }
    ExecuteCompletes(calls, codes);
    outcome := Completed;
  }

  /** The all-parts branch: for i in range(1, 9), print, then invoke for entry i. */
  method RenderAll(prefix: string, model: string, codes: seq<int>)
    returns (outcome: Outcome, trace: seq<Event>)
    requires |codes| >= ALL_PARTS_END - 1
    ensures Execution(trace, outcome) == Execute(AllPartsCalls(prefix, model), codes)
  {
    ghost var calls := AllPartsCalls(prefix, model);
    trace := [];
    var i := 1;
    while i < ALL_PARTS_END
      invariant 1 <= i <= ALL_PARTS_END
      invariant trace == Steps(calls[..i - 1])
      invariant AllZero(codes, i - 1)
    {
      ghost var before := trace;
      var output := OutputName(prefix, PARTS[i]);
      trace := trace + [Progress(ProgressLine(output))];
      trace := trace + [Invoke(Argv(Call(i, output, model)))];
      assert trace == Steps(calls[..i]) by {
        assert calls[i - 1] == Call(i, output, model);
        assert trace == before + Step(calls[i - 1]);
        StepsSnoc(calls, i);
      }
      if codes[i - 1] != 0 {
        ExecuteFailsAt(calls, codes, i - 1);
        return RenderFailed(codes[i - 1]), trace;
      }
      AllZeroExtend(codes, i - 1);
      i := i + 1;
    }
    assert calls[..i - 1] == calls;
    ExecuteCompletes(calls, codes);
    outcome := Completed;
  }

  /** The catalog: nine distinct names, "all" first and "nut" last. */
  lemma CatalogShape()
    ensures |PARTS| == 9 && PARTS[0] == "all" && PARTS[8] == "nut"
    ensures forall i, j :: 0 <= i < j < |PARTS| ==> PARTS[i] != PARTS[j]
  {
  }

  /** Looking up a catalog name gives back its own position, and its position names it. */
  lemma IndexOfCatalog(i: nat, p: string)
    requires i < |PARTS| && p in PARTS
    ensures IndexOf(PARTS, PARTS[i]) == i
    ensures PARTS[IndexOf(PARTS, p)] == p
  {
    CatalogShape();
  }

  /** A --part outside the catalog is refused and nothing is printed or rendered. */
  lemma UnknownPartRejected(opts: Options, codes: seq<int>)
    requires |codes| >= ALL_PARTS_END - 1
    requires opts.part.Some? && opts.part.value !in PARTS
    ensures Behaviour(opts, codes) == Execution([], Rejected(InvalidPartName(opts.part.value)))
  {
  }

  /** Without --model nothing is printed or rendered, unless --part was already refused. */
  lemma MissingModelRejected(opts: Options, codes: seq<int>)
    requires |codes| >= ALL_PARTS_END - 1
    requires opts.model.None?
    ensures Behaviour(opts, codes).trace == []
    ensures Behaviour(opts, codes).outcome.Rejected?
  {
  }

  /**
   * Single-part mode: one invocation, whose make_part is the position of the
   * named part and whose output is "{prefix}-{name}.stl".
   */
  lemma SinglePartPlan(opts: Options)
    requires opts.model.Some? && opts.part.Some? && opts.part.value in PARTS
    ensures var r := Plan(opts); var prefix := DerivePrefix(opts.prefix, opts.model.value);
      r.Ok? && |r.value| == 1
      && r.value[0].part < |PARTS| && PARTS[r.value[0].part] == opts.part.value
      && r.value[0].output == OutputName(prefix, opts.part.value)
      && r.value[0].model == opts.model.value
  {
  }

  /**
   * With a catalog --part the run starts exactly one renderer invocation, for
   * that part, and ends with its status.
   */
  lemma SinglePartRunsOnce(opts: Options, codes: seq<int>)
    requires |codes| >= ALL_PARTS_END - 1
    requires opts.model.Some? && opts.part.Some? && opts.part.value in PARTS
    ensures var prefix := DerivePrefix(opts.prefix, opts.model.value);
      var run := Behaviour(opts, codes);
      && Invocations(run.trace)
         == [Argv(Call(IndexOf(PARTS, opts.part.value), OutputName(prefix, opts.part.value), opts.model.value))]
      && (run.outcome == Completed <==> codes[0] == 0)
      && (codes[0] != 0 ==> run.outcome == RenderFailed(codes[0]))
  {
    var calls := Plan(opts).value;
    ExecuteInvocations(calls, codes);
    ExecuteOutcome(calls, codes);
    assert Issued(calls, codes) == 1;
    assert calls[..1] == calls;
  }

  /** "all" is itself an accepted part name, and it selects index 0. */
  lemma AllIsPartZero(prefix: Option<string>, model: string)
    ensures Plan(Options(prefix, Some(model), Some("all")))
      == Ok([Call(0, OutputName(DerivePrefix(prefix, model), "all"), model)])
  {
  }

  /**
   * All-parts mode: eight invocations with selectors 1 .. 8 in ascending order,
   * which are every catalog position except that of "all".
   */
  lemma AllPartsPlan(opts: Options)
    requires opts.model.Some? && opts.part.None?
    ensures var r := Plan(opts); var prefix := DerivePrefix(opts.prefix, opts.model.value);
      r.Ok? && |r.value| == 8
      && (forall k :: 0 <= k < 8 ==> r.value[k] == Call(k + 1, OutputName(prefix, PARTS[k + 1]), opts.model.value))
      && (forall k :: 0 <= k < 8 ==> r.value[k].part != 0)
      && Selectors(r.value) == [1, 2, 3, 4, 5, 6, 7, 8]
      && forall i :: i in Selectors(r.value) <==> 0 < i < |PARTS|
  {
    var calls := Plan(opts).value;
    assert Selectors(calls) == [1, 2, 3, 4, 5, 6, 7, 8];
  }

  /** All-parts mode writes eight different files, so no output overwrites another. */
  lemma AllPartsOutputsDistinct(opts: Options)
    requires opts.model.Some? && opts.part.None?
    ensures var calls := Plan(opts).value;
      forall a, b :: 0 <= a < b < |calls| ==> calls[a].output != calls[b].output
  {
    CatalogShape();
    var calls := Plan(opts).value;
    var prefix := DerivePrefix(opts.prefix, opts.model.value);
    forall a, b | 0 <= a < b < |calls|
      ensures calls[a].output != calls[b].output
    {
      OutputNameInjective(prefix, PARTS[a + 1], PARTS[b + 1]);
    }
  }

  /** Without --prefix the prefix is a leading part of the model's basename and holds no '/'. */
  lemma DefaultPrefixShape(model: string)
    ensures var prefix := DerivePrefix(None, model); var base := PosixPath.Basename(model);
      |prefix| <= |base| && base[..|prefix|] == prefix
      && forall j :: 0 <= j < |prefix| ==> prefix[j] != PosixPath.SEP
  {
    var base := PosixPath.Basename(model);
    var split := PosixPath.Splitext(base);
    PosixPath.BasenameIsFinalComponent(model);
    PosixPath.SplitextJoin(base);
    assert base == split.0 + split.1;
    assert base[..|split.0|] == split.0;
    forall j | 0 <= j < |split.0|
      ensures split.0[j] != PosixPath.SEP
    {
      assert split.0[j] == base[j];
    }
  }

  /**
   * --model <dir>/<stem><ext> without --prefix gives the prefix <stem> when the
   * stem holds no '/' and does not start with '.', and the extension is a '.'
   * followed by neither '.' nor '/' (foo/bar.scad gives bar).
   */
  lemma DefaultPrefixOfPath(dir: string, stem: string, ext: string)
    requires |stem| > 0 && stem[0] != PosixPath.EXT_SEP
    requires forall j :: 0 <= j < |stem| ==> stem[j] != PosixPath.SEP
    requires |ext| > 0 && ext[0] == PosixPath.EXT_SEP
    requires forall j :: 1 <= j < |ext| ==> ext[j] != PosixPath.EXT_SEP && ext[j] != PosixPath.SEP
    ensures DerivePrefix(None, dir + "/" + stem + ext) == stem
  {
    assert dir + "/" + stem + ext == dir + "/" + (stem + ext);
    forall j | 0 <= j < |stem + ext|
      ensures (stem + ext)[j] != PosixPath.SEP
    {
      if j >= |stem| {
        assert (stem + ext)[j] == ext[j - |stem|];
      }
    }
    PosixPath.BasenameOfJoin(dir, stem + ext);
    PosixPath.SplitextOfJoin(stem, ext);
  }

  /** --model foo/bar.scad without --prefix gives the prefix bar. */
  lemma DefaultPrefixExample()
    ensures DerivePrefix(None, "foo/bar.scad") == "bar"
  {
    assert "foo/bar.scad" == "foo" + "/" + "bar" + ".scad";
    DefaultPrefixOfPath("foo", "bar", ".scad");
  }

  /** An explicit --prefix is used verbatim: the model path does not affect the output names. */
  lemma ExplicitPrefixUsed(prefix: string, model: string, part: Option<string>)
    ensures var r := Plan(Options(Some(prefix), Some(model), part));
      r.Ok? ==> forall k :: 0 <= k < |r.value| ==>
        r.value[k].output == OutputName(prefix, PARTS[r.value[k].part])
  {
  }

  /** With --prefix custom and --model foo/bar.scad the files are named custom-{part}.stl. */
  lemma ExplicitPrefixExample()
    ensures Plan(Options(Some("custom"), Some("foo/bar.scad"), Some("bridge")))
      == Ok([Call(7, "custom-bridge.stl", "foo/bar.scad")])
  {
    assert PARTS[7] == "bridge";
    assert IndexOf(PARTS, "bridge") == 7 by {
      IndexOfCatalog(7, "bridge");
    }
    assert OutputName("custom", "bridge") == "custom-bridge.stl";
  }

  /**
   * Each invocation's command line is the fixed shape with the model path
   * unchanged, and the progress line just before it names its -o file.
   */
  lemma InvocationShape(opts: Options, codes: seq<int>, q: nat)
    requires |codes| >= ALL_PARTS_END - 1
    requires q < |Behaviour(opts, codes).trace| && Behaviour(opts, codes).trace[q].Invoke?
    ensures var t := Behaviour(opts, codes).trace; var argv := t[q].argv;
      opts.model.Some?
      && |argv| == 6 && argv[0] == "openscad" && argv[1] == "-DAUTO=true" && argv[3] == "-o"
      && argv[5] == opts.model.value
      && (exists i :: 0 <= i < |PARTS| && argv[2] == "-Dmake_part=" + Decimal.FromNat(i)
                                      && argv[4] == OutputName(DerivePrefix(opts.prefix, opts.model.value), PARTS[i]))
      && q > 0 && t[q - 1] == Progress("Generating " + argv[4])
  {
    var calls := Plan(opts).value;
    var k := InvokedCall(calls, codes, q);
    var prefix := DerivePrefix(opts.prefix, opts.model.value);
    var c := calls[k];
    assert c == PartCall(prefix, opts.model.value, c.part) && c.part < |PARTS|;
  }

  /**
   * All-parts mode stops at the first failure: when invocation k exits
   * non-zero, invocations 0 .. k were started and none after.
   */
  lemma AllPartsStopsAtFailure(opts: Options, codes: seq<int>, k: nat)
    requires |codes| >= ALL_PARTS_END - 1
    requires opts.model.Some? && opts.part.None?
    requires k < ALL_PARTS_END - 1 && codes[k] != 0
    requires forall j :: 0 <= j < k ==> codes[j] == 0
    ensures var calls := Plan(opts).value; var run := Behaviour(opts, codes);
      run.outcome == RenderFailed(codes[k])
      && Invocations(run.trace) == ArgvList(calls[..k + 1])
      && forall j :: k < j < |calls| ==> Argv(calls[j]) !in Invocations(run.trace)
  {
    var calls := Plan(opts).value;
    assert FirstNonZero(codes[..|calls|]) == k;
    ExecuteInvocations(calls, codes);
    forall j | k < j < |calls|
      ensures Argv(calls[j]) !in Invocations(Behaviour(opts, codes).trace)
    {
      forall a, b | 0 <= a < b < |calls|
        ensures calls[a] != calls[b]
      {
        assert calls[a].part == a + 1;
      }
      NothingAfterFailure(calls, codes, k, j);
    }
  }

  /** When every invocation succeeds, all-parts mode starts all eight, in catalog order. */
  lemma AllPartsCompleted(opts: Options, codes: seq<int>)
    requires |codes| >= ALL_PARTS_END - 1
    requires opts.model.Some? && opts.part.None?
    requires forall j :: 0 <= j < ALL_PARTS_END - 1 ==> codes[j] == 0
    ensures var run := Behaviour(opts, codes);
      run.outcome == Completed && Invocations(run.trace) == ArgvList(Plan(opts).value)
  {
    var calls := Plan(opts).value;
    ExecuteInvocations(calls, codes);
    assert calls[..Issued(calls, codes)] == calls;
  }
}
