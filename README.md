# OpenSCAD part renderer, modelled in Dafny

Two small Python scripts render the parts of a parametric instrument model to
STL files. They run the external OpenSCAD renderer once per part and pass the
part's position in a fixed catalog as the `make_part` selector. The geometry is
computed inside OpenSCAD. What is left on the Python side is planning: choosing
which renderer calls to make, in what order, with which command lines and
output files, and stopping at the first call that fails.

The model has six modules:

- `Wrappers`: `Option` and `Result`.
- `Decimal`: the decimal text Python writes for an `int` in `f"-Dmake_part={i}"`, with a round trip back to the number.
- `PosixPath`: `os.path.basename` and `os.path.splitext`, for `/` as the only separator. `splitext` follows CPython's last-dot rule: a dot only starts an extension if some character before it in the final component is not a dot.
- `Renderer`: the parts both scripts share.
  - `Call`: one renderer call.
  - `Argv`: the call's fixed command line, `openscad -DAUTO=true -Dmake_part=<i> -o <out> <model>`.
  - `OutputName`: `{prefix}-{name}.stl`.
  - The progress line `Generating <out>`.
  - `Execute`: issues a list of calls against an oracle of exit codes. Each call is printed, then started, and a non-zero code ends the run there. Its result is a trace of events plus an outcome.
- `TenorParts`: `tenor/make-tenor-parts.py`, with 9 catalog entries including `nut`.
  - It takes `--model`, `--prefix` and `--part`.
  - `--part` must be a catalog name.
  - Without `--prefix`, the prefix is the model's basename with its extension removed.
  - With `--part`, there is one call. Without it, there is a loop over `range(1, 9)`.
- `MakeScript`: `make.py`, with 8 catalog entries and no `nut`.
  - The model path is fixed: `tenor/bosl-tenor.scad`.
  - The prefix defaults to `tenor-parts`.
  - There is a loop over `range(1, 8)`.

The two scripts are modelled separately, each as written.

Each script's `main` is a method, `TenorParts.Run` or `MakeScript.Run`. Its loop appends the progress line and then the invocation to a trace, and it stops at the first non-zero exit code. Each method is proved equal to a pure specification, `Behaviour`. That specification is `Execute` applied to the script's plan, or a rejection with an empty trace. The lemmas state what the scripts promise about the plan and the run.

The renderer is an oracle: `codes[k]` is the exit status of the k-th call that is started. `Run` and `Behaviour` require enough codes for the longest plan: 8 for the tenor script, 7 for `make.py`.

A failed render does not pass the renderer's status on to the shell. `check_call`'s `CalledProcessError` is never caught, so Python exits with status 1 whatever the renderer returned. The outcome `RenderFailed(status)` carries the renderer's status, as the exception does. The process exit status itself is not modelled (see below).

## Model

| member | source | states |
|---|---|---|
| TenorParts.CatalogShape | tenor/make-tenor-parts.py:6-16 | the catalog has 9 pairwise distinct names, with `all` at index 0 and `nut` at index 8 |
| TenorParts.IndexOf | tenor/make-tenor-parts.py:38 | `list.index` on a present value: the result is a position holding the value, and no earlier position holds it |
| TenorParts.IndexOfCatalog | tenor/make-tenor-parts.py:38 | for every catalog position i, looking up `PARTS[i]` gives i back; for every catalog name p, `PARTS[index(p)] == p` |
| TenorParts.Plan | tenor/make-tenor-parts.py:21-62 | the options are refused with InvalidPartName exactly when `--part` is outside the catalog; otherwise they are refused with MissingModel exactly when `--model` is absent; an accepted plan has 1 call with `--part` and 8 without |
| TenorParts.UnknownPartRejected | tenor/make-tenor-parts.py:27-31 | a `--part` outside the catalog ends the run as Rejected(InvalidPartName), with an empty trace (nothing printed, no renderer started) |
| TenorParts.MissingModelRejected | tenor/make-tenor-parts.py:24-26 | without `--model` the run is rejected, with an empty trace |
| TenorParts.PartCall | tenor/make-tenor-parts.py:38-48 | the call for catalog entry idx: selector idx, output `{prefix}-{parts[idx]}.stl`, the model unchanged; characterised by SinglePartPlan and AllIsPartZero |
| TenorParts.AllIsPartZero | tenor/make-tenor-parts.py:28-49 | `--part all` is accepted and plans a single call with selector 0 and output `{prefix}-all.stl` |
| TenorParts.SinglePartPlan | tenor/make-tenor-parts.py:37-49 | with a catalog `--part` the plan is exactly one call; its selector is a position naming that part; its output is `{prefix}-{part}.stl`; its model is `--model` unchanged |
| TenorParts.SinglePartRunsOnce | tenor/make-tenor-parts.py:37-49 | with a catalog `--part`, the run starts exactly one invocation, that part's argv; it completes exactly when its code is 0 and otherwise fails with that code |
| TenorParts.AllPartsCalls | tenor/make-tenor-parts.py:51-61 | the calls of `for i in range(1, 9)`; characterised by AllPartsPlan and AllPartsOutputsDistinct |
| TenorParts.AllPartsPlan | tenor/make-tenor-parts.py:51-62 | without `--part` the plan is 8 calls, where call k has selector k+1, output `{prefix}-{PARTS[k+1]}.stl` and the given model; the selectors are exactly 1..8 in ascending order, never 0, and they cover every catalog index except that of `all` |
| TenorParts.AllPartsOutputsDistinct | tenor/make-tenor-parts.py:51-62 | the 8 all-parts calls write 8 different files |
| TenorParts.DerivePrefix | tenor/make-tenor-parts.py:32-35 | `--prefix` verbatim, else `splitext(basename(model))[0]`; characterised by DefaultPrefixShape, DefaultPrefixOfPath and ExplicitPrefixUsed |
| TenorParts.DefaultPrefixShape | tenor/make-tenor-parts.py:32-33 | without `--prefix`, the prefix is a leading part of the model's basename and contains no `/` |
| TenorParts.DefaultPrefixOfPath | tenor/make-tenor-parts.py:32-33 | without `--prefix`, a model `<dir>/<stem><ext>` (stem not starting with `.`, no `/` in stem or extension, extension a single `.` suffix) gives the prefix `<stem>`; e.g. `foo/bar.scad` gives `bar` |
| TenorParts.DefaultPrefixExample | tenor/make-tenor-parts.py:32-33 | `--model foo/bar.scad` without `--prefix` gives the prefix `bar` |
| TenorParts.ExplicitPrefixUsed | tenor/make-tenor-parts.py:34-35 | with `--prefix x`, every planned output is `x-{name}.stl`, whatever the model path |
| TenorParts.ExplicitPrefixExample | tenor/make-tenor-parts.py:34-49 | `--prefix custom --model foo/bar.scad --part bridge` plans exactly the call (7, `custom-bridge.stl`, `foo/bar.scad`) |
| TenorParts.InvocationShape | tenor/make-tenor-parts.py:39-61 | every command line started in a run is `openscad -DAUTO=true -Dmake_part=<i> -o {prefix}-{PARTS[i]}.stl <model>`, for a catalog index i and the model path unchanged; the event just before it is `Generating` followed by its `-o` file |
| TenorParts.AllPartsStopsAtFailure | tenor/make-tenor-parts.py:51-62 | when all-parts call k is the first to exit non-zero: the run fails with that status; exactly calls 0..k were started, in order; no later call is started |
| TenorParts.AllPartsCompleted | tenor/make-tenor-parts.py:51-62 | when every code is zero, the run completes after starting all 8 calls, in catalog order |
| TenorParts.Behaviour | tenor/make-tenor-parts.py:19-62 | the whole run: a usage error leaves an empty trace, otherwise the plan is executed; characterised by UnknownPartRejected, MissingModelRejected, SinglePartRunsOnce, AllPartsStopsAtFailure and AllPartsCompleted, and Run is proved equal to it |
| TenorParts.Run | tenor/make-tenor-parts.py:19-62 | `main` as a method: its trace and outcome are exactly `Behaviour(opts, codes)` |
| TenorParts.RenderOne | tenor/make-tenor-parts.py:37-49 | the single-part branch prints, starts one call, and ends as `Execute` of that one call |
| TenorParts.RenderAll | tenor/make-tenor-parts.py:51-62 | the loop over range(1, 9) prints and starts call by call, stops at the first non-zero code, and ends as `Execute` of the 8 all-parts calls |
| MakeScript.CatalogShape | make.py:5-6 | the catalog has 8 pairwise distinct names, `all` is at index 0, and `nut` is absent |
| MakeScript.Prefix | make.py:11 | `--prefix`, defaulting to `tenor-parts`; see DefaultPrefixUsed |
| MakeScript.Plan | make.py:15-17 | the calls of `for i in range(1, 8)` against `tenor/bosl-tenor.scad`; characterised by PlanShape and OutputsDistinct |
| MakeScript.PlanShape | make.py:15-17 | every run plans 7 calls; call k has selector k+1, output `{prefix}-{PARTS[k+1]}.stl` and model `tenor/bosl-tenor.scad`; the selectors are 1..7 in ascending order and cover every catalog index but 0 |
| MakeScript.DefaultPrefixUsed | make.py:11 | without `--prefix` the outputs are `tenor-parts-{name}.stl` |
| MakeScript.OutputsDistinct | make.py:16-17 | the 7 calls write 7 different files |
| MakeScript.InvocationShape | make.py:16-17 | every started command line has the fixed shape, with the constant model path and a selector i in 1..7 whose output is `{prefix}-{PARTS[i]}.stl`; it is immediately preceded by the `Generating` line for its `-o` file |
| MakeScript.StopsAtFailure | make.py:15-17 | when call k is the first to exit non-zero: the run fails with that status; exactly calls 0..k were started; calls k+1..6 never are |
| MakeScript.ThirdFailureExample | make.py:15-17 | when the third of the seven calls fails, exactly three renderer invocations are started |
| MakeScript.Completes | make.py:15-17 | when every code is zero, all 7 calls are started, in order, and the run completes |
| MakeScript.Behaviour | make.py:9-17 | the whole run: the plan executed against the exit codes; characterised by InvocationShape, StopsAtFailure, ThirdFailureExample and Completes, and Run is proved equal to it |
| MakeScript.Run | make.py:9-17 | `main` as a method: its trace and outcome are exactly `Behaviour(opts, codes)` |
| Renderer.Argv | tenor/make-tenor-parts.py:41-48 | the fixed command line `openscad -DAUTO=true -Dmake_part=<i> -o <out> <model>` (also lines 54-61 and make.py:17); see ParseArgvRoundTrip and ArgvInjective |
| Renderer.ParseArgvRoundTrip | tenor/make-tenor-parts.py:41-48 | reading a call's command line back gives the call: the selector, output and model are all recoverable |
| Renderer.ArgvInjective | tenor/make-tenor-parts.py:41-48 | two calls have equal command lines exactly when they are the same call |
| Renderer.OutputName | tenor/make-tenor-parts.py:46 | the f-string `{prefix}-{name}.stl` (also line 59 and make.py:17); see OutputNameInjective |
| Renderer.OutputNameInjective | tenor/make-tenor-parts.py:46 | under one prefix, `{prefix}-{a}.stl` and `{prefix}-{b}.stl` are equal exactly when a and b are |
| Renderer.ProgressLine | tenor/make-tenor-parts.py:39 | the line `Generating <out>` (also line 52 and make.py:16); see ProgressPrecedesInvoke and StepsAt |
| Renderer.Steps | tenor/make-tenor-parts.py:51-62 | issuing n calls without failure yields 2n events |
| Renderer.StepsAt | tenor/make-tenor-parts.py:52-61 | event 2k of the trace prints call k's progress line; event 2k+1 starts call k's command line |
| Renderer.FirstNonZero | tenor/make-tenor-parts.py:51-62 | the position of the first non-zero exit code (or the length when there is none): every code before it is zero |
| Renderer.Issued | tenor/make-tenor-parts.py:51-62 | how many calls are started: all of them, or only those through the first failing one, which is then the last started |
| Renderer.Execute | tenor/make-tenor-parts.py:51-62 | the `check_call` sequence: print, start, stop at the first non-zero code; characterised by ExecuteOutcome, ExecuteInvocations and NothingAfterFailure |
| Renderer.ExecuteOutcome | tenor/make-tenor-parts.py:51-62 | a run completes exactly when every code is zero and fails exactly when some code is non-zero; it fails with the last started call's non-zero status; its trace is the steps of the started calls |
| Renderer.InvokedCall | tenor/make-tenor-parts.py:52-61 | every invocation event at position q starts call (q-1)/2, which was started, and the event before it prints that call's progress line |
| Renderer.ProgressPrecedesInvoke | tenor/make-tenor-parts.py:52-61 | every invocation in a run is preceded by `Generating <f>`, where f is its `-o` argument |
| Renderer.InvocationsOfSteps | tenor/make-tenor-parts.py:52-61 | the command lines started by issuing calls without failure are exactly theirs, in order |
| Renderer.ExecuteInvocations | tenor/make-tenor-parts.py:51-62 | the command lines started in a run are exactly those of the first Issued calls, in order |
| Renderer.NothingAfterFailure | tenor/make-tenor-parts.py:51-62 | when call k fails and the calls are pairwise different, no call after k is ever started |
| Decimal.FromNat | tenor/make-tenor-parts.py:44 | the text of a selector is non-empty, all digits, and has no leading zero unless it is `0` |
| Decimal.ParseFromNat | tenor/make-tenor-parts.py:44 | reading the text of n back gives n |
| Decimal.FromNatInjective | tenor/make-tenor-parts.py:44 | distinct selectors have distinct texts |
| PosixPath.RFind | tenor/make-tenor-parts.py:33 | the last index holding the character, or -1 when it does not occur |
| PosixPath.Basename | tenor/make-tenor-parts.py:33 | `os.path.basename`, the text after the last `/`; see BasenameIsFinalComponent and BasenameOfJoin |
| PosixPath.BasenameIsFinalComponent | tenor/make-tenor-parts.py:33 | the basename is a suffix of the path, holds no `/`, and is either the whole path or preceded by a `/` |
| PosixPath.ExtensionStart | tenor/make-tenor-parts.py:33 | the split point is the end of the path, or a `.` that lies after the last `/` with no `.` after it |
| PosixPath.Splitext | tenor/make-tenor-parts.py:33 | `os.path.splitext`; see SplitextJoin, SplitextHasExtension and SplitextOfJoin |
| PosixPath.SplitextJoin | tenor/make-tenor-parts.py:33 | root plus extension is the path; the extension is empty, or a `.` followed by characters that are neither `.` nor `/` |
| PosixPath.BasenameOfJoin | tenor/make-tenor-parts.py:33 | the basename of `<dir>/<name>` is `<name>` whenever `<name>` holds no `/` |
| PosixPath.ExtensionStartOfJoin | tenor/make-tenor-parts.py:33 | in `<stem><ext>` with a stem not starting with `.` and an extension that is one `.` followed by neither `.` nor `/`, the extension starts right after the stem |
| PosixPath.SplitextOfJoin | tenor/make-tenor-parts.py:33 | under the same conditions, `splitext` returns exactly `(<stem>, <ext>)` |
| PosixPath.SplitextHasExtension | tenor/make-tenor-parts.py:33 | an extension is split off exactly when the final component has a `.` somewhere after a character that is not a `.` (so `.bashrc` and `..` keep their names) |

## Left out

- Running OpenSCAD and anything about STL contents. The renderer is an exit-code oracle: a sequence of integers, one per started call.
- `Run` and `Behaviour` (both scripts): they require the oracle to supply a code for every call the longest plan could start (8 for the tenor script, 7 for `make.py`). The scripts place no such demand; it only makes the environment total.
- The argparse parser itself: usage and help text, error formatting, and the exit status 2 it uses on a bad choice or a missing `--model`. Also left out: turning raw argument strings into options (repeated flags, abbreviations, the `--opt=value` form). The model starts from the parsed options, each possibly absent, and a refusal is "rejected, with an empty trace". Of the two refusals, the bad `--part` choice is modelled as reported first, because argparse checks choices while consuming an option but checks for missing required options only after all options are consumed.
- The process exit status: 0 after a complete run; 1 from Python's uncaught `CalledProcessError` after a failed render. The model ends with `Completed` or `RenderFailed(status)` instead.
- Real standard output: progress lines are `Progress` events in the trace.
- Windows path rules (`\` separators, drive letters): `basename` is the text after the last `/`; `splitext` uses `/` and `.` only.
- `make.py`'s option parser also refuses unknown arguments. That refusal is part of the argparse behaviour left out above.
