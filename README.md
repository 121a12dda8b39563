# fix_kdoc: repairing KDoc blocks that lost their delimiters

`fix_kdoc.py` repairs Kotlin source files whose KDoc comments lost their
`/**` and `*/` lines. Its function `fix_kdoc_in_file` reads a file as a list
of lines. A line is "bare body" when it starts with five spaces, an asterisk
and a space (`"     * "`). The function wraps every maximal run of bare-body
lines between an opening line `"    /**\n"` and a closing line `"     */\n"`,
copies every other line through unchanged, writes the result back, and
returns how many input lines passed its guard.

This project models that repair pass in `fix_kdoc.dfy` (module `FixKdoc`):

- A file is a `seq<string>`. Each line keeps its terminator, as Python's
  `readlines` returns it. `StartsWith` is Python's `str.startswith`, a plain
  prefix test. `IsBroken` is the guard at line 25 and line 50.
- `FixKdocInFile` is the imperative pass with the file I/O removed. It has
  the outer `while i < len(lines)` loop and the inner `while j < …` loop, and
  it appends to `fixedLines` and `commentLines` as the source does. It is
  proved equal to `Repair`, a recursive specification function.
  `RunEnd` specifies where the inner loop stops. `RunsFrom`/`Runs` give the
  runs the scan detects, as `Run(start, end)` values with `end` exclusive.
  `CountBroken` is the count comprehension at line 50.
- The lemmas state the scan's properties:
  - every detected run is maximal, and every maximal run is detected once,
    in order;
  - the output has two more lines per run;
  - the count is the number of lines inside runs;
  - a file without bare-body lines is unchanged;
  - dropping the inserted markers gives back the input (`Unwrap`);
  - every bare-body line of the output sits in a wrapped block;
  - a second pass wraps every run again.

Two behaviours of the code are worth stating, because a reader might expect
otherwise:

- The repair is not idempotent. The repaired run lines still start with
  `"     * "`, and the closer is not bare-body. So a second pass wraps each
  run once more. `RepairTwice` proves that the second pass finds the same
  runs and adds two more marker lines per run, so the two passes together
  add four per run. It also proves that two passes equal one only when
  there are no runs. `NotIdempotent` gives a one-line example. The model
  follows the code here.
- The module docstring (fix_kdoc.py:5-6) speaks of lines "not inside a
  proper KDoc block". The code never checks that. Its second test,
  `not line.startswith('    /**')`, can never fail on a bare-body line
  (`BareBodyIsNeverOpened`). So the body lines of a block that already has
  both delimiters are wrapped again (`ProperBlockIsWrappedAgain`). The model
  follows the code here too.

## Model

| member | source | states |
|---|---|---|
| `FixKdoc.StartsWith` | fix_kdoc.py:25 | defines Python's `str.startswith` as a prefix test; `StartsWithIsPrefix` states that it holds exactly when the line is the prefix followed by some rest |
| `FixKdoc.StartsWithIsPrefix` | fix_kdoc.py:25 | `StartsWith(s, prefix)` holds if and only if `s == prefix + rest` for some `rest` |
| `FixKdoc.IsBareBody` | fix_kdoc.py:29 | defines the inner loop's test `startswith('     * ')`; `BareBodyCharacters` spells it out character by character, `MarkersAreNotBareBody` shows the inserted lines fail it |
| `FixKdoc.BareBodyCharacters` | fix_kdoc.py:25 | a line is bare-body exactly when it has at least seven characters: five spaces, `*` and a space |
| `FixKdoc.IsOpened` | fix_kdoc.py:25 | defines the test `startswith('    /**')`; `OpenedCharacters` spells it out character by character |
| `FixKdoc.OpenedCharacters` | fix_kdoc.py:25 | a line is opened exactly when it has at least seven characters: four spaces, `/`, `*` and `*` |
| `FixKdoc.IsBroken` | fix_kdoc.py:25 | defines the guard of line 25 (and of the count at line 50); `BareBodyIsNeverOpened` shows it is equivalent to `IsBareBody` |
| `FixKdoc.RunsFrom` | fix_kdoc.py:21-44 | defines the runs `(i, j)` the outer loop detects from index `i` on; `RunsFromSound` and `RunsFromComplete` show they are exactly the maximal runs at or after `i` |
| `FixKdoc.Runs` | fix_kdoc.py:21-44 | the runs detected in the whole file are maximal runs, strictly ordered and separated; `RunsAreMaximalRuns` adds that every maximal run is among them |
| `FixKdoc.RepairFrom` | fix_kdoc.py:21-44 | defines the lines the outer loop appends to `fixed_lines` from index `i` on; its properties are in `RepairFromLength`, `RepairFromStartsNonBare`, `UnwrapRepairFrom` and `RepairFromAllWrapped` |
| `FixKdoc.Repair` | fix_kdoc.py:19-44 | the repaired file has the input's length plus 2 × the number of maximal runs (one opener and one closer each); `UnwrapRepair` and `RepairAllWrapped` state its other properties |
| `FixKdoc.Unwrap` | fix_kdoc.py:34-43 | defines the reading back of an output: an opener, a block of bare-body lines and a closer give the block's lines, every other line is kept; `UnwrapRepair` shows it inverts `Repair` |
| `FixKdoc.FixKdocInFile` | fix_kdoc.py:19-50 | the two-index loop (outer `i`, inner `j`, appending to `fixed_lines` and `comment_lines`) terminates and returns exactly `Repair(lines)`, together with the count of line 50 |
| `FixKdoc.RunEnd` | fix_kdoc.py:28-31 | the inner loop stops at the first index at or after `i` that is past the end or not bare-body; every line it passes over is bare-body |
| `FixKdoc.CountBroken` | fix_kdoc.py:50 | the returned count is at most the number of lines, and it is 0 exactly when no line passes the guard |
| `FixKdoc.BareBodyIsNeverOpened` | fix_kdoc.py:25 | no line starts with both `"     * "` and `"    /**"`, so the guard `not line.startswith('    /**')` is vacuous |
| `FixKdoc.MarkersAreNotBareBody` | fix_kdoc.py:34-38 | neither inserted line `"    /**\n"` nor `"     */\n"` is a bare-body line |
| `FixKdoc.RunsFromSound` | fix_kdoc.py:21-44 | from a point that is not inside a run, each run the scan reports is non-empty, all bare-body, cannot be extended left or right, and the runs are strictly ordered and separated |
| `FixKdoc.RunsFromComplete` | fix_kdoc.py:21-44 | every maximal run at or after `i` is reported by the scan started at `i` |
| `FixKdoc.RunsAreMaximalRuns` | fix_kdoc.py:21-44 | the detected runs are exactly the maximal runs of bare-body lines (both directions), each once, in order of position |
| `FixKdoc.RepairFromLength` | fix_kdoc.py:33-43 | from any start index, the emitted lines number the remaining input lines plus two per detected run |
| `FixKdoc.CountBrokenSkip` | fix_kdoc.py:50 | skipping a stretch of broken lines lowers the count of the rest by the stretch's length |
| `FixKdoc.CountBrokenFrom` | fix_kdoc.py:50 | from any start index, the count of broken lines equals the total length of the runs detected from there |
| `FixKdoc.CountIsLinesInRuns` | fix_kdoc.py:50 | the returned count equals the total number of lines inside detected runs, not the number of runs |
| `FixKdoc.NoBareBodyFrom` | fix_kdoc.py:42-44 | with no bare-body line, the pass copies every line from any start index and detects no run |
| `FixKdoc.NoBareBodyUnchanged` | fix_kdoc.py:42-50 | a file with no bare-body line comes back identical, with no runs and count 0 |
| `FixKdoc.RepairFromStartsNonBare` | fix_kdoc.py:25-43 | the first line the pass emits from any point is never a bare-body line (it is the opener or a copied line that failed the guard) |
| `FixKdoc.UnwrapWrappedRun` | fix_kdoc.py:34-38 | an opener, a non-empty block of bare-body lines and a closer read back as that block |
| `FixKdoc.UnwrapCopiedLine` | fix_kdoc.py:43 | a copied line followed by a line that is not bare-body reads back as itself |
| `FixKdoc.UnwrapRepairFrom` | fix_kdoc.py:21-44 | reading back the output emitted from index `i` gives the input from `i` on |
| `FixKdoc.UnwrapRepair` | fix_kdoc.py:36-43 | removing the inserted marker lines from the output gives back exactly the input, in order |
| `FixKdoc.RepairFromAllWrapped` | fix_kdoc.py:33-38 | in the output from any index, every bare-body line has the opener or a bare-body line right before it, and the closer or a bare-body line right after it |
| `FixKdoc.RepairAllWrapped` | fix_kdoc.py:33-38 | every block of bare-body lines in the output is immediately preceded by `"    /**\n"` and immediately followed by `"     */\n"` |
| `FixKdoc.RunEndShift` | fix_kdoc.py:29-31 | where the inner loop stops does not depend on the lines before its start |
| `FixKdoc.RunsFromShift` | fix_kdoc.py:21-44 | the number of runs found from a point does not depend on the lines before it |
| `FixKdoc.RunsOfWrappedRun` | fix_kdoc.py:34-38 | a wrapped run, scanned again, is detected as exactly one run |
| `FixKdoc.RunsOfCopiedLine` | fix_kdoc.py:42-44 | a copied line that is not bare-body adds no run when scanned again |
| `FixKdoc.RunsOfRepairFrom` | fix_kdoc.py:21-44 | the output from index `i` has as many runs as the input from `i` |
| `FixKdoc.RepairTwice` | fix_kdoc.py:25-38 | a second pass finds the same number of runs and wraps each one again (output length = input length + 4 × runs); two passes equal one exactly when there are no runs |
| `FixKdoc.NoRunsFromUnchanged` | fix_kdoc.py:42-44 | when the scan finds no run from `i` on, it copies every line from `i` on |
| `FixKdoc.NoRunsIdempotent` | fix_kdoc.py:42-44 | a file without runs is returned unchanged, so a second pass is a no-op |
| `FixKdoc.ThreeLineRun` | fix_kdoc.py:19-50 | three bare-body lines come back wrapped once by the opener and the closer, with count 3 |
| `FixKdoc.ProperBlockIsWrappedAgain` | fix_kdoc.py:25-38 | a block that already has `"    /**\n"` and `"     */\n"` around its body gets a second opener and closer: the guard never looks at the line before |
| `FixKdoc.NotIdempotent` | fix_kdoc.py:25-38 | repairing the one-line file `"     * a\n"` twice differs from repairing it once |

## Left out

- File reading and writing, with UTF-8 decoding and encoding (fix_kdoc.py:16-17, 47-48): this is I/O. The model takes the lines as read and returns the lines to write and the count. Errors from opening, decoding or writing a file are therefore not modelled.
- `main` (fix_kdoc.py:53-79): the fixed directory, the existence check, the `*.kt` glob, sorting, console messages, the running total and `sys.exit`. This is filesystem and process plumbing around the pass.
- The unused `re` import (fix_kdoc.py:9).
- Python strings are sequences of code points; the model uses Dafny's `string`, a sequence of `char`. Only fixed ASCII prefixes are compared, so the difference does not show.
