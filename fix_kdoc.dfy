/** A model of the KDoc repair pass of fix_kdoc.py.
    A file is a sequence of lines, each line keeping its terminator as
    `readlines` returns it. A "bare body" line starts with five spaces, an
    asterisk and a space. The pass wraps every maximal run of bare-body lines
    between an opening line `    /**` and a closing line `     */`, copies every
    other line through, and reports how many input lines it found broken.
 */
module FixKdoc {

  // ---------------------------------------------------------------------------
  // Lines and the two prefix tests of the repair pass
  // ---------------------------------------------------------------------------

  /** The prefix of a comment body line left without its delimiters. */
  const BareBodyPrefix: string := "     * "
  /** The prefix of a line that already opens a KDoc block. */
  const OpenedPrefix: string := "    /**"
  /** The line inserted before each run. */
  const OpenLine: string := "    /**\n"
  /** The line inserted after each run. */
  const CloseLine: string := "     */\n"

  /** Python's `str.startswith`. */
  predicate StartsWith(s: string, prefix: string) {
    |prefix| <= |s| && s[..|prefix|] == prefix
  }

  /** The inner loop's test: five spaces, an asterisk and a space. */
  predicate IsBareBody(line: string) {
    StartsWith(line, BareBodyPrefix)
  }

  /** Four spaces, a slash and two asterisks. */
  predicate IsOpened(line: string) {
    StartsWith(line, OpenedPrefix)
  }

  /** The guard of the repair pass and of the final count. Its second half
      never decides anything (see BareBodyIsNeverOpened). */
  predicate IsBroken(line: string) {
    IsBareBody(line) && !IsOpened(line)
  }

  /** `StartsWith` holds exactly when `s` is `prefix` followed by some rest. */
  lemma StartsWithIsPrefix(s: string, prefix: string)
    ensures StartsWith(s, prefix) <==> exists rest :: s == prefix + rest
  {
    if StartsWith(s, prefix) {
      assert s == prefix + s[|prefix|..];
    }
  }

  /** A bare-body line, character by character: five spaces, `*`, a space. */
  lemma BareBodyCharacters(line: string)
    ensures IsBareBody(line) <==>
      7 <= |line| && (forall k :: 0 <= k < 5 ==> line[k] == ' ') &&
      line[5] == '*' && line[6] == ' '
  {
    if 7 <= |line| && (forall k :: 0 <= k < 5 ==> line[k] == ' ') && line[5] == '*' && line[6] == ' ' {
      assert line[..7] == BareBodyPrefix;
    }
  }

  /** An opened line, character by character: four spaces, `/`, `*`, `*`. */
  lemma OpenedCharacters(line: string)
    ensures IsOpened(line) <==>
      7 <= |line| && (forall k :: 0 <= k < 4 ==> line[k] == ' ') &&
      line[4] == '/' && line[5] == '*' && line[6] == '*'
  {
    if 7 <= |line| && (forall k :: 0 <= k < 4 ==> line[k] == ' ') &&
       line[4] == '/' && line[5] == '*' && line[6] == '*' {
      assert line[..7] == OpenedPrefix;
    }
  }

  /** No line is both bare-body and opened (the fifth character is a space in
      one prefix and a slash in the other), so the second half of the guard
      never decides anything. */
  lemma BareBodyIsNeverOpened(line: string)
    ensures IsBareBody(line) ==> !IsOpened(line)
  {
  }

  /** Neither inserted marker line is a bare-body line. */
  lemma MarkersAreNotBareBody()
    ensures !IsBareBody(OpenLine) && !IsBareBody(CloseLine)
  {
    assert OpenLine[..|BareBodyPrefix|][4] != BareBodyPrefix[4];
    assert CloseLine[..|BareBodyPrefix|][6] != BareBodyPrefix[6];
  }

  // ---------------------------------------------------------------------------
  // Specification of the scan
  // ---------------------------------------------------------------------------

  /** Where the inner loop stops when it starts at `i`: the first index at or
      after `i` that is past the end or holds a line that is not bare-body. */
  function RunEnd(lines: seq<string>, i: nat): (r: nat)
    requires i <= |lines|
    ensures i <= r <= |lines|
    ensures forall k :: i <= k < r ==> IsBareBody(lines[k])
    ensures r == |lines| || !IsBareBody(lines[r])
    decreases |lines| - i
  {
    if i == |lines| || !IsBareBody(lines[i]) then i else RunEnd(lines, i + 1)
  }

  /** A run of lines, from `start` up to but not including `end`. */
  datatype Run = Run(start: nat, end: nat)

  /** A maximal run of bare-body lines: non-empty, every line bare-body, and it
      cannot be extended on either side. */
  predicate IsMaximalRun(lines: seq<string>, r: Run) {
    r.start < r.end <= |lines| &&
    (forall k :: r.start <= k < r.end ==> IsBareBody(lines[k])) &&
    (r.start == 0 || !IsBareBody(lines[r.start - 1])) &&
    (r.end == |lines| || !IsBareBody(lines[r.end]))
  }

  /** The runs the outer loop detects when it starts at index `i`. */
  function RunsFrom(lines: seq<string>, i: nat): seq<Run>
    requires i <= |lines|
    decreases |lines| - i
  {
    if i == |lines| then []
    else if IsBroken(lines[i]) then
      var j := RunEnd(lines, i);
      [Run(i, j)] + RunsFrom(lines, j)
    else RunsFrom(lines, i + 1)
  }

  /** The runs of the whole file: maximal runs, in order of position. */
  function Runs(lines: seq<string>): (rs: seq<Run>)
    ensures forall r :: r in rs ==> IsMaximalRun(lines, r)
    ensures forall a, b :: 0 <= a < b < |rs| ==> rs[a].end < rs[b].start
  {
    RunsFromSound(lines, 0);
    RunsFrom(lines, 0)
  }

  /** The lines the outer loop appends to `fixed_lines` from index `i` on. */
  function RepairFrom(lines: seq<string>, i: nat): seq<string>
    requires i <= |lines|
    decreases |lines| - i
  {
    if i == |lines| then []
    else if IsBroken(lines[i]) then
      var j := RunEnd(lines, i);
      [OpenLine] + lines[i..j] + [CloseLine] + RepairFrom(lines, j)
    else [lines[i]] + RepairFrom(lines, i + 1)
  }

  /** The repaired file: two more lines than the input per maximal run. */
  function Repair(lines: seq<string>): (r: seq<string>)
    ensures |r| == |lines| + 2 * |Runs(lines)|
  {
    RepairFromLength(lines, 0);
    RepairFrom(lines, 0)
  }

  /** The count returned at the end: the number of input lines the guard
      calls broken. */
  function CountBroken(lines: seq<string>): (r: nat)
    ensures r <= |lines|
    ensures r == 0 <==> forall k :: 0 <= k < |lines| ==> !IsBroken(lines[k])
  {
    if lines == [] then 0
    else (if IsBroken(lines[0]) then 1 else 0) + CountBroken(lines[1..])
  }

  // ---------------------------------------------------------------------------
  // The repair pass
  // ---------------------------------------------------------------------------

  /** Regrouping a concatenation of five sequences. */
  lemma Regroup<T>(d: seq<T>, x: seq<T>, y: seq<T>, z: seq<T>, rest: seq<T>)
    ensures d + x + y + z + rest == d + (x + y + z + rest)
  {
  }

  /** `fix_kdoc_in_file` without the file I/O: takes the lines read from the
      file, returns the lines to write back and the count. */
  method FixKdocInFile(lines: seq<string>) returns (fixedLines: seq<string>, count: nat)
    ensures fixedLines == Repair(lines)
    ensures count == CountBroken(lines)
  {
    fixedLines := [];
    var i := 0;
    while i < |lines|
      invariant i <= |lines|
      invariant fixedLines + RepairFrom(lines, i) == RepairFrom(lines, 0)
      decreases |lines| - i
    {
      var line := lines[i];
      if StartsWith(line, BareBodyPrefix) && !StartsWith(line, OpenedPrefix) {
        var commentLines := [];
        var j := i;
        while j < |lines| && StartsWith(lines[j], BareBodyPrefix)
          invariant i <= j <= |lines|
          invariant commentLines == lines[i..j]
          invariant RunEnd(lines, j) == RunEnd(lines, i)
          decreases |lines| - j
        {
          commentLines := commentLines + [lines[j]];
          j := j + 1;
        }
        assert j == RunEnd(lines, i);
        ghost var done := fixedLines;
        fixedLines := fixedLines + [OpenLine];
        fixedLines := fixedLines + commentLines;
        fixedLines := fixedLines + [CloseLine];
        assert RepairFrom(lines, i) == [OpenLine] + commentLines + [CloseLine] + RepairFrom(lines, j);
        Regroup(done, [OpenLine], commentLines, [CloseLine], RepairFrom(lines, j));
        i := j;
      } else {
        assert RepairFrom(lines, i) == [line] + RepairFrom(lines, i + 1);
        fixedLines := fixedLines + [line];
        i := i + 1;
      }
    }
    assert fixedLines == RepairFrom(lines, 0);
    count := CountBroken(lines);
  }

  // ---------------------------------------------------------------------------
  // Properties of the repair
  // ---------------------------------------------------------------------------

  /** Index `i` does not fall strictly inside a run of bare-body lines. */
  predicate AtBoundary(lines: seq<string>, i: nat)
    requires i <= |lines|
  {
    i == 0 || i == |lines| || !IsBareBody(lines[i - 1]) || !IsBareBody(lines[i])
  }

  /** Every run the scan reports is a maximal run, the runs come in order and
      are separated by at least one line that is not bare-body. */
  lemma {:induction false} RunsFromSound(lines: seq<string>, i: nat)
    requires i <= |lines| && AtBoundary(lines, i)
    ensures forall r :: r in RunsFrom(lines, i) ==> IsMaximalRun(lines, r) && i <= r.start
    ensures forall a, b :: 0 <= a < b < |RunsFrom(lines, i)| ==>
              RunsFrom(lines, i)[a].end < RunsFrom(lines, i)[b].start
    decreases |lines| - i
  {
    if i < |lines| {
      BareBodyIsNeverOpened(lines[i]);
      if IsBroken(lines[i]) {
        var j := RunEnd(lines, i);
        RunsFromSound(lines, j);
        var rs := RunsFrom(lines, i);
        assert rs == [Run(i, j)] + RunsFrom(lines, j);
        assert IsMaximalRun(lines, Run(i, j));
        forall a, b | 0 <= a < b < |rs| ensures rs[a].end < rs[b].start {
          if a == 0 {
            assert rs[b] in RunsFrom(lines, j);
            assert IsBareBody(lines[rs[b].start]);
          } else {
            assert rs[a] == RunsFrom(lines, j)[a - 1];
            assert rs[b] == RunsFrom(lines, j)[b - 1];
          }
        }
      } else {
        RunsFromSound(lines, i + 1);
      }
    }
  }

  /** Every maximal run at or after `i` is reported by the scan started at `i`. */
  lemma {:induction false} RunsFromComplete(lines: seq<string>, i: nat, r: Run)
    requires i <= |lines| && IsMaximalRun(lines, r) && i <= r.start
    ensures r in RunsFrom(lines, i)
    decreases |lines| - i
  {
    BareBodyIsNeverOpened(lines[i]);
    if i == r.start {
      assert IsBroken(lines[i]);
      assert RunEnd(lines, i) == r.end;
    } else if IsBroken(lines[i]) {
      var j := RunEnd(lines, i);
      assert j <= r.start - 1;
      RunsFromComplete(lines, j, r);
    } else {
      RunsFromComplete(lines, i + 1, r);
    }
  }

  /** The runs of the scan are exactly the maximal runs of bare-body lines,
      each reported once, in order of position. */
  lemma RunsAreMaximalRuns(lines: seq<string>)
    ensures forall r :: r in Runs(lines) <==> IsMaximalRun(lines, r)
    ensures forall a, b :: 0 <= a < b < |Runs(lines)| ==> Runs(lines)[a].end < Runs(lines)[b].start
  {
    RunsFromSound(lines, 0);
    forall r | IsMaximalRun(lines, r) ensures r in Runs(lines) {
      RunsFromComplete(lines, 0, r);
    }
  }

  /** Each run adds exactly two lines: the opener and the closer. */
  lemma {:induction false} RepairFromLength(lines: seq<string>, i: nat)
    requires i <= |lines|
    ensures |RepairFrom(lines, i)| == |lines| - i + 2 * |RunsFrom(lines, i)|
    decreases |lines| - i
  {
    if i < |lines| {
      if IsBroken(lines[i]) {
        RepairFromLength(lines, RunEnd(lines, i));
      } else {
        RepairFromLength(lines, i + 1);
      }
    }
  }

  /** The total number of lines inside the runs. */
  function TotalLength(rs: seq<Run>): int {
    if rs == [] then 0 else rs[0].end - rs[0].start + TotalLength(rs[1..])
  }

  /** Skipping over `n` broken lines skips `n` from the count. */
  lemma {:induction false} CountBrokenSkip(lines: seq<string>, i: nat, j: nat)
    requires i <= j <= |lines|
    requires forall k :: i <= k < j ==> IsBroken(lines[k])
    ensures CountBroken(lines[i..]) == j - i + CountBroken(lines[j..])
    decreases j - i
  {
    if i < j {
      assert lines[i..][0] == lines[i];
      assert lines[i..][1..] == lines[i + 1..];
      CountBrokenSkip(lines, i + 1, j);
    }
  }

  lemma {:induction false} CountBrokenFrom(lines: seq<string>, i: nat)
    requires i <= |lines|
    ensures CountBroken(lines[i..]) == TotalLength(RunsFrom(lines, i))
    decreases |lines| - i
  {
    if i < |lines| {
      if IsBroken(lines[i]) {
        var j := RunEnd(lines, i);
        forall k | i <= k < j ensures IsBroken(lines[k]) {
          BareBodyIsNeverOpened(lines[k]);
        }
        CountBrokenSkip(lines, i, j);
        CountBrokenFrom(lines, j);
        assert RunsFrom(lines, i)[1..] == RunsFrom(lines, j);
      } else {
        assert lines[i..][0] == lines[i];
        assert lines[i..][1..] == lines[i + 1..];
        CountBrokenFrom(lines, i + 1);
      }
    }
  }

  /** The returned count is the number of lines inside runs, not the number
      of runs. */
  lemma CountIsLinesInRuns(lines: seq<string>)
    ensures CountBroken(lines) == TotalLength(Runs(lines))
  {
    CountBrokenFrom(lines, 0);
    assert lines[0..] == lines;
  }

  /** A file without bare-body lines comes back unchanged, with count 0. */
  lemma {:induction false} NoBareBodyFrom(lines: seq<string>, i: nat)
    requires i <= |lines|
    requires forall k :: 0 <= k < |lines| ==> !IsBareBody(lines[k])
    ensures RepairFrom(lines, i) == lines[i..]
    ensures RunsFrom(lines, i) == []
    decreases |lines| - i
  {
    if i < |lines| {
      NoBareBodyFrom(lines, i + 1);
      assert lines[i..] == [lines[i]] + lines[i + 1..];
    }
  }

  lemma NoBareBodyUnchanged(lines: seq<string>)
    requires forall k :: 0 <= k < |lines| ==> !IsBareBody(lines[k])
    ensures Repair(lines) == lines
    ensures Runs(lines) == []
    ensures CountBroken(lines) == 0
  {
    NoBareBodyFrom(lines, 0);
  }

  /** The first line the pass emits from any point is never bare-body: it is
      the opener or a line that failed the guard. */
  lemma RepairFromStartsNonBare(lines: seq<string>, i: nat)
    requires i <= |lines|
    ensures RepairFrom(lines, i) != [] ==> !IsBareBody(RepairFrom(lines, i)[0])
  {
    MarkersAreNotBareBody();
    if i < |lines| {
      BareBodyIsNeverOpened(lines[i]);
    }
  }

  // ---------------------------------------------------------------------------
  // Round trip: dropping the inserted markers gives back the input
  // ---------------------------------------------------------------------------

  /** Reads a repaired file back: an opener, a block of bare-body lines and a
      closer form a wrapped run, whose lines are kept and whose opener and
      closer are dropped; every other line is kept. */
  function Unwrap(out: seq<string>): seq<string>
    decreases |out|
  {
    if out == [] then []
    else if out[0] == OpenLine && 2 <= |out| && IsBareBody(out[1]) &&
            RunEnd(out, 1) < |out| && out[RunEnd(out, 1)] == CloseLine then
      var e := RunEnd(out, 1);
      out[1..e] + Unwrap(out[e + 1..])
    else [out[0]] + Unwrap(out[1..])
  }

  /** A wrapped run reads back as its lines. */
  lemma UnwrapWrappedRun(run: seq<string>, rest: seq<string>)
    requires run != [] && forall k :: 0 <= k < |run| ==> IsBareBody(run[k])
    ensures Unwrap([OpenLine] + run + [CloseLine] + rest) == run + Unwrap(rest)
  {
    MarkersAreNotBareBody();
    var out := [OpenLine] + run + [CloseLine] + rest;
    var n := |run|;
    assert out[1] == run[0];
    assert forall k :: 1 <= k < 1 + n ==> out[k] == run[k - 1];
    assert out[1 + n] == CloseLine;
    assert RunEnd(out, 1) == 1 + n;
    assert out[1..1 + n] == run;
    assert out[2 + n..] == rest;
  }

  /** A copied line reads back as itself when the next line is not bare-body. */
  lemma UnwrapCopiedLine(line: string, rest: seq<string>)
    requires rest == [] || !IsBareBody(rest[0])
    ensures Unwrap([line] + rest) == [line] + Unwrap(rest)
  {
    assert ([line] + rest)[1..] == rest;
  }

  lemma {:induction false} UnwrapRepairFrom(lines: seq<string>, i: nat)
    requires i <= |lines|
    ensures Unwrap(RepairFrom(lines, i)) == lines[i..]
    decreases |lines| - i
  {
    if i < |lines| {
      if IsBroken(lines[i]) {
        var j := RunEnd(lines, i);
        var rest := RepairFrom(lines, j);
        assert RepairFrom(lines, i) == [OpenLine] + lines[i..j] + [CloseLine] + rest;
        UnwrapWrappedRun(lines[i..j], rest);
        UnwrapRepairFrom(lines, j);
        assert lines[i..] == lines[i..j] + lines[j..];
      } else {
        var rest := RepairFrom(lines, i + 1);
        assert RepairFrom(lines, i) == [lines[i]] + rest;
        UnwrapCopiedLine(lines[i], rest);
        UnwrapRepairFrom(lines, i + 1);
        assert lines[i..] == [lines[i]] + lines[i + 1..];
      }
    }
  }

  /** Removing the inserted marker lines gives back the input, in order. */
  lemma UnwrapRepair(lines: seq<string>)
    ensures Unwrap(Repair(lines)) == lines
  {
    UnwrapRepairFrom(lines, 0);
    assert lines[0..] == lines;
  }

  // ---------------------------------------------------------------------------
  // Every bare-body line of the output is wrapped
  // ---------------------------------------------------------------------------

  /** Each bare-body line has a bare-body line or the opener right before it,
      and a bare-body line or the closer right after it; so every block of
      bare-body lines is preceded by `    /**` and followed by `     */`. */
  predicate AllWrapped(out: seq<string>) {
    forall p :: 0 <= p < |out| && IsBareBody(out[p]) ==>
      0 < p < |out| - 1 &&
      (out[p - 1] == OpenLine || IsBareBody(out[p - 1])) &&
      (out[p + 1] == CloseLine || IsBareBody(out[p + 1]))
  }

  lemma {:induction false} RepairFromAllWrapped(lines: seq<string>, i: nat)
    requires i <= |lines|
    ensures AllWrapped(RepairFrom(lines, i))
    decreases |lines| - i
  {
    MarkersAreNotBareBody();
    if i < |lines| {
      var out := RepairFrom(lines, i);
      BareBodyIsNeverOpened(lines[i]);
      if IsBroken(lines[i]) {
        var j := RunEnd(lines, i);
        var rest := RepairFrom(lines, j);
        RepairFromAllWrapped(lines, j);
        var n := j - i;
        assert out == [OpenLine] + lines[i..j] + [CloseLine] + rest;
        forall p | 0 <= p < |out| && IsBareBody(out[p])
          ensures 0 < p < |out| - 1
          ensures out[p - 1] == OpenLine || IsBareBody(out[p - 1])
          ensures out[p + 1] == CloseLine || IsBareBody(out[p + 1])
        {
          if p <= n + 1 {
            assert 1 <= p <= n;
            assert p + 1 <= n ==> out[p + 1] == lines[i + p];
          } else {
            assert out[p] == rest[p - n - 2];
            assert p - n - 2 > 0;
          }
        }
      } else {
        var rest := RepairFrom(lines, i + 1);
        RepairFromAllWrapped(lines, i + 1);
        assert out == [lines[i]] + rest;
        forall p | 0 <= p < |out| && IsBareBody(out[p])
          ensures 0 < p < |out| - 1
          ensures out[p - 1] == OpenLine || IsBareBody(out[p - 1])
          ensures out[p + 1] == CloseLine || IsBareBody(out[p + 1])
        {
          assert out[p] == rest[p - 1];
        }
      }
    }
  }

  lemma RepairAllWrapped(lines: seq<string>)
    ensures AllWrapped(Repair(lines))
  {
    RepairFromAllWrapped(lines, 0);
  }

  // ---------------------------------------------------------------------------
  // A second pass
  // ---------------------------------------------------------------------------

  /** The inner loop's stopping point does not depend on lines before `i`. */
  lemma {:induction false} RunEndShift(prefix: seq<string>, lines: seq<string>, k: nat)
    requires k <= |lines|
    ensures RunEnd(prefix + lines, |prefix| + k) == |prefix| + RunEnd(lines, k)
    decreases |lines| - k
  {
    if k < |lines| {
      assert (prefix + lines)[|prefix| + k] == lines[k];
      RunEndShift(prefix, lines, k + 1);
    }
  }

  /** Nor does the number of runs the scan finds from `i` on. */
  lemma {:induction false} RunsFromShift(prefix: seq<string>, lines: seq<string>, k: nat)
    requires k <= |lines|
    ensures |RunsFrom(prefix + lines, |prefix| + k)| == |RunsFrom(lines, k)|
    decreases |lines| - k
  {
    if k < |lines| {
      assert (prefix + lines)[|prefix| + k] == lines[k];
      if IsBroken(lines[k]) {
        RunEndShift(prefix, lines, k);
        RunsFromShift(prefix, lines, RunEnd(lines, k));
      } else {
        RunsFromShift(prefix, lines, k + 1);
      }
    }
  }

  /** A wrapped run is found again as exactly one run. */
  lemma RunsOfWrappedRun(run: seq<string>, rest: seq<string>)
    requires run != [] && forall k :: 0 <= k < |run| ==> IsBareBody(run[k])
    ensures |Runs([OpenLine] + run + [CloseLine] + rest)| == 1 + |Runs(rest)|
  {
    MarkersAreNotBareBody();
    BareBodyIsNeverOpened(run[0]);
    var head := [OpenLine] + run + [CloseLine];
    var out := head + rest;
    var n := |run|;
    assert out == [OpenLine] + run + [CloseLine] + rest;
    assert forall k :: 1 <= k < 1 + n ==> out[k] == run[k - 1];
    assert out[1 + n] == CloseLine;
    assert RunEnd(out, 1) == 1 + n;
    assert RunsFrom(out, 0) == RunsFrom(out, 1);
    assert RunsFrom(out, 1) == [Run(1, 1 + n)] + RunsFrom(out, 1 + n);
    assert RunsFrom(out, 1 + n) == RunsFrom(out, |head|);
    RunsFromShift(head, rest, 0);
  }

  /** A copied line that is not bare-body adds no run. */
  lemma RunsOfCopiedLine(line: string, rest: seq<string>)
    requires !IsBareBody(line)
    ensures |Runs([line] + rest)| == |Runs(rest)|
  {
    assert RunsFrom([line] + rest, 0) == RunsFrom([line] + rest, 1);
    RunsFromShift([line], rest, 0);
  }

  lemma {:induction false} RunsOfRepairFrom(lines: seq<string>, i: nat)
    requires i <= |lines|
    ensures |Runs(RepairFrom(lines, i))| == |RunsFrom(lines, i)|
    decreases |lines| - i
  {
    if i < |lines| {
      BareBodyIsNeverOpened(lines[i]);
      if IsBroken(lines[i]) {
        var j := RunEnd(lines, i);
        RunsOfWrappedRun(lines[i..j], RepairFrom(lines, j));
        RunsOfRepairFrom(lines, j);
      } else {
        RunsOfCopiedLine(lines[i], RepairFrom(lines, i + 1));
        RunsOfRepairFrom(lines, i + 1);
      }
    }
  }

  /** Repairing a repaired file wraps every run a second time: it adds two
      more marker lines per run, so the pass is idempotent only on files
      without bare-body lines. */
  lemma RepairTwice(lines: seq<string>)
    ensures |Runs(Repair(lines))| == |Runs(lines)|
    ensures |Repair(Repair(lines))| == |lines| + 4 * |Runs(lines)|
    ensures Repair(Repair(lines)) == Repair(lines) <==> Runs(lines) == []
  {
    RunsOfRepairFrom(lines, 0);
    if Runs(lines) == [] {
      NoRunsIdempotent(lines);
    }
  }

  /** When the scan finds no run from `i` on, it copies every line from `i` on. */
  lemma {:induction false} NoRunsFromUnchanged(lines: seq<string>, i: nat)
    requires i <= |lines| && RunsFrom(lines, i) == []
    ensures RepairFrom(lines, i) == lines[i..]
    decreases |lines| - i
  {
    if i < |lines| && !IsBroken(lines[i]) {
      NoRunsFromUnchanged(lines, i + 1);
      assert lines[i..] == [lines[i]] + lines[i + 1..];
    }
  }

  /** Without runs, the repair is the identity, so a second pass changes nothing. */
  lemma NoRunsIdempotent(lines: seq<string>)
    requires Runs(lines) == []
    ensures Repair(lines) == lines
    ensures Repair(Repair(lines)) == Repair(lines)
  {
    NoRunsFromUnchanged(lines, 0);
    assert lines[0..] == lines;
  }

  // ---------------------------------------------------------------------------
  // Concrete cases
  // ---------------------------------------------------------------------------

  /** Three bare-body lines are wrapped once; the count is three. */
  lemma ThreeLineRun()
    ensures Repair(["     * a\n", "     * b\n", "     * c\n"])
         == ["    /**\n", "     * a\n", "     * b\n", "     * c\n", "     */\n"]
    ensures CountBroken(["     * a\n", "     * b\n", "     * c\n"]) == 3
  {
    var lines := ["     * a\n", "     * b\n", "     * c\n"];
    assert IsBareBody(lines[0]) && IsBareBody(lines[1]) && IsBareBody(lines[2]);
    BareBodyIsNeverOpened(lines[0]);
    BareBodyIsNeverOpened(lines[1]);
    BareBodyIsNeverOpened(lines[2]);
    assert RunEnd(lines, 0) == 3;
    assert lines[0..3] == lines;
  }

  /** A block that already has both delimiters is wrapped once more: the
      guard looks only at the line itself, never at the line before it. */
  lemma ProperBlockIsWrappedAgain()
    ensures Repair(["    /**\n", "     * a\n", "     */\n"])
         == ["    /**\n", "    /**\n", "     * a\n", "     */\n", "     */\n"]
  {
    var lines := ["    /**\n", "     * a\n", "     */\n"];
    MarkersAreNotBareBody();
    assert IsBareBody(lines[1]);
    BareBodyIsNeverOpened(lines[1]);
    assert RunEnd(lines, 1) == 2;
  }

  /** A second pass wraps the run again: the pass is not idempotent. */
  lemma NotIdempotent()
    ensures Repair(Repair(["     * a\n"])) != Repair(["     * a\n"])
  {
    var lines := ["     * a\n"];
    RunsAreMaximalRuns(lines);
    var once := Repair(lines);
    assert IsMaximalRun(lines, Run(0, 1));
    assert |once| == 3;
    assert once[1] == "     * a\n";
    RunsAreMaximalRuns(once);
    MarkersAreNotBareBody();
    assert IsMaximalRun(once, Run(1, 2));
  }
}
