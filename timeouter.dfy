/** timeouter: runs a single-string command template once per argument value, splits
    each command on whitespace runs, and records each task's result in a per-argument
    output file. */
module Timeouter {
  import opened Options
  import opened Text
  import opened Numerals
  import opened Execution

  // ---------------------------------------------------------------------------
  // Tokenising: re.split(r"\s+", call)
  // ---------------------------------------------------------------------------

  /** The characters `\s` matches in a Python `str` pattern. */
  predicate IsSpace(c: char) {
    ('\t' <= c <= '\r') || ('\U{1c}' <= c <= ' ') || c == '\U{85}' || c == '\U{a0}' ||
    c == '\U{1680}' || ('\U{2000}' <= c <= '\U{200a}') || c == '\U{2028}' || c == '\U{2029}' ||
    c == '\U{202f}' || c == '\U{205f}' || c == '\U{3000}'
  }

  predicate NoSpace(s: string) {
    forall i :: 0 <= i < |s| ==> !IsSpace(s[i])
  }

  /** Length of the longest prefix without whitespace. */
  function WordLen(s: string): (n: nat)
    ensures n <= |s|
    ensures forall i :: 0 <= i < n ==> !IsSpace(s[i])
    ensures n < |s| ==> IsSpace(s[n])
    decreases |s|
  {
    if s == [] || IsSpace(s[0]) then 0 else 1 + WordLen(s[1..])
  }

  /** Length of the longest prefix of whitespace. */
  function RunLen(s: string): (n: nat)
    ensures n <= |s|
    ensures forall i :: 0 <= i < n ==> IsSpace(s[i])
    ensures n < |s| ==> !IsSpace(s[n])
    decreases |s|
  {
    if s != [] && IsSpace(s[0]) then 1 + RunLen(s[1..]) else 0
  }

  /** `re.split(r"\s+", s)`: the pieces between maximal whitespace runs, scanning left
      to right. There is at least one piece, and the first is the leading word (empty
      when `s` starts with whitespace). */
  function Split(s: string): (pieces: seq<string>)
    ensures |pieces| >= 1
    ensures pieces[0] == s[..WordLen(s)]
    decreases |s|
  {
    var w := WordLen(s);
    if w == |s| then [s]
    else
      var rest := s[w..];
      [s[..w]] + Split(rest[RunLen(rest)..])
  }

  /** One step of the scan: the leading word, then the pieces of what follows its run. */
  lemma SplitStep(s: string)
    requires WordLen(s) < |s|
    ensures Split(s) == [s[..WordLen(s)]] + Split(s[WordLen(s)..][RunLen(s[WordLen(s)..])..])
  {
  }

  /** Every piece is free of whitespace, and only the first and the last can be empty. */
  lemma {:induction false} SplitPieces(s: string)
    ensures forall i :: 0 <= i < |Split(s)| ==> NoSpace(Split(s)[i])
    ensures forall i :: 0 < i < |Split(s)| - 1 ==> Split(s)[i] != []
    decreases |s|
  {
    var w := WordLen(s);
    if w < |s| {
      var rest := s[w..];
      var t := rest[RunLen(rest)..];
      SplitPieces(t);
      var pieces, after := Split(s), Split(t);
      assert pieces == [s[..w]] + after;
      assert forall i :: 0 < i < |pieces| ==> pieces[i] == after[i - 1];
      if t != [] {
        assert after[0] != [] by {
          assert !IsSpace(t[0]);
        }
      }
    }
  }

  /** Number of maximal whitespace runs in `s`, counting a run where a whitespace
      character follows a non-whitespace one (or starts the text). */
  function Runs(s: string, afterSpace: bool): nat
    decreases |s|
  {
    if s == [] then 0
    else (if IsSpace(s[0]) && !afterSpace then 1 else 0) + Runs(s[1..], IsSpace(s[0]))
  }

  lemma {:induction false} RunsOverWord(s: string, w: nat, afterSpace: bool)
    requires 0 < w <= |s| && forall i :: 0 <= i < w ==> !IsSpace(s[i])
    ensures Runs(s, afterSpace) == Runs(s[w..], false)
    decreases w
  {
    if w > 1 {
      RunsOverWord(s[1..], w - 1, false);
      assert s[1..][w - 1..] == s[w..];
    }
  }

  lemma {:induction false} RunsOverRun(s: string, r: nat)
    requires 0 < r <= |s| && forall i :: 0 <= i < r ==> IsSpace(s[i])
    ensures Runs(s, true) == Runs(s[r..], true)
    decreases r
  {
    if r > 1 {
      RunsOverRun(s[1..], r - 1);
      assert s[1..][r - 1..] == s[r..];
    }
  }

  lemma RunsAtWordStart(t: string)
    requires t == [] || !IsSpace(t[0])
    ensures Runs(t, true) == Runs(t, false)
  {
  }

  /** There is one more piece than there are maximal whitespace runs. */
  lemma {:induction false} SplitCountsRuns(s: string)
    ensures |Split(s)| == Runs(s, false) + 1
    decreases |s|
  {
    var w := WordLen(s);
    if w == |s| {
      if w > 0 {
        RunsOverWord(s, w, false);
      }
    } else {
      var rest := s[w..];
      var r := RunLen(rest);
      var t := rest[r..];
      SplitCountsRuns(t);
      if w > 0 {
        RunsOverWord(s, w, false);
      }
      assert Runs(rest, false) == 1 + Runs(rest[1..], true);
      if r > 1 {
        RunsOverRun(rest[1..], r - 1);
        assert rest[1..][r - 1..] == t;
      }
      RunsAtWordStart(t);
    }
  }

  /** Text ending in whitespace splits with an empty last piece, just as text starting
      with whitespace has an empty first piece (`Split`'s second postcondition). */
  lemma {:induction false} TrailingEmpty(s: string)
    requires |s| > 0 && IsSpace(s[|s| - 1])
    ensures Split(s)[|Split(s)| - 1] == []
    decreases |s|
  {
    var w := WordLen(s);
    var rest := s[w..];
    var r := RunLen(rest);
    var t := rest[r..];
    assert w < |s|;
    assert r >= 1 by {
      assert rest[0] == s[w];
    }
    SplitLastStep(s, w, t);
    if t != [] {
      SliceSliceLast(s, w, r);
      TrailingEmpty(t);
    } else {
      SplitEmpty();
    }
  }

  /** The last element of a non-empty sequence. */
  function Last<T>(p: seq<T>): T
    requires |p| > 0
  {
    p[|p| - 1]
  }

  /** Past the leading word, the last piece is the last piece of what follows its run. */
  lemma SplitLastStep(s: string, w: nat, t: string)
    requires w == WordLen(s) && w < |s| && t == s[w..][RunLen(s[w..])..]
    ensures Last(Split(s)) == Last(Split(t))
  {
    SplitStep(s);
    LastOfCons(s[..w], Split(t));
  }

  lemma SplitEmpty()
    ensures Split([]) == [[]]
  {
  }

  lemma SliceSliceLast<T>(s: seq<T>, i: nat, j: nat)
    requires i <= |s| && j < |s| - i
    ensures |s[i..][j..]| > 0 && s[i..][j..][|s[i..][j..]| - 1] == s[|s| - 1]
  {
  }

  lemma LastOfCons<T>(a: T, b: seq<T>)
    requires |b| >= 1
    ensures Last([a] + b) == Last(b)
  {
  }

  /** `s` with every maximal whitespace run replaced by a single ' '. */
  function Collapse(s: string): string
    decreases |s|
  {
    if s == [] then []
    else if IsSpace(s[0]) then " " + Collapse(s[RunLen(s)..])
    else [s[0]] + Collapse(s[1..])
  }

  /** A whitespace-free prefix is kept as it is. */
  lemma {:induction false} CollapseAfterWord(a: string, b: string)
    requires NoSpace(a)
    ensures Collapse(a + b) == a + Collapse(b)
    decreases |a|
  {
    if a != [] {
      var tail := a[1..];
      assert NoSpace(tail) by {
        forall i | 0 <= i < |tail| ensures !IsSpace(tail[i]) {
          assert tail[i] == a[i + 1];
        }
      }
      CollapseAfterWord(tail, b);
      var ab := a + b;
      assert ab[0] == a[0] && !IsSpace(ab[0]);
      assert ab[1..] == tail + b;
      assert Collapse(ab) == [a[0]] + Collapse(tail + b);
      assert a == [a[0]] + tail;
      assert [a[0]] + (tail + Collapse(b)) == a + Collapse(b);
    } else {
      assert a + b == b;
    }
  }

  lemma CollapseAtRun(s: string)
    requires s != [] && IsSpace(s[0])
    ensures Collapse(s) == " " + Collapse(s[RunLen(s)..])
  {
  }

  /** Joining the pieces with single spaces gives the text with each whitespace run
      collapsed to one space: with the pieces free of whitespace, this fixes what each
      piece holds for any text, tabs and repeated spaces included. */
  lemma {:induction false} JoinSplitCollapses(s: string)
    ensures Join(Split(s), " ") == Collapse(s)
    decreases |s|
  {
    var w := WordLen(s);
    if w == |s| {
      CollapseAfterWord(s, []);
      assert s + [] == s;
    } else {
      var rest := s[w..];
      var t := rest[RunLen(rest)..];
      JoinSplitStep(s);
      CollapseStep(s);
      JoinSplitCollapses(t);
    }
  }

  /** One step of joining the pieces: the leading word, a space, then the rest joined. */
  lemma JoinSplitStep(s: string)
    requires WordLen(s) < |s|
    ensures var w := WordLen(s); var t := s[w..][RunLen(s[w..])..];
      Join(Split(s), " ") == s[..w] + " " + Join(Split(t), " ")
  {
    var w := WordLen(s);
    var t := s[w..][RunLen(s[w..])..];
    SplitStep(s);
    JoinCons(s[..w], Split(t), " ");
  }

  /** One step of collapsing: the leading word, one space for its run, then the rest. */
  lemma CollapseStep(s: string)
    requires WordLen(s) < |s|
    ensures var w := WordLen(s); var t := s[w..][RunLen(s[w..])..];
      Collapse(s) == s[..w] + " " + Collapse(t)
  {
    var w := WordLen(s);
    var word, rest := s[..w], s[w..];
    assert NoSpace(word) by {
      forall i | 0 <= i < |word| ensures !IsSpace(word[i]) {
        assert word[i] == s[i];
      }
    }
    assert rest != [] && IsSpace(rest[0]) by {
      assert rest[0] == s[w];
    }
    CollapseWordThenRun(word, rest);
    Rejoin(s, w);
  }

  lemma Rejoin<T>(s: seq<T>, k: nat)
    requires k <= |s|
    ensures s[..k] + s[k..] == s
  {
  }

  lemma CollapseWordThenRun(word: string, rest: string)
    requires NoSpace(word) && rest != [] && IsSpace(rest[0])
    ensures Collapse(word + rest) == word + " " + Collapse(rest[RunLen(rest)..])
  {
    CollapseAfterWord(word, rest);
    CollapseAtRun(rest);
    assert word + (" " + Collapse(rest[RunLen(rest)..])) == word + " " + Collapse(rest[RunLen(rest)..]);
  }

  lemma {:induction false} JoinStartsWith(parts: seq<string>, sep: string)
    requires |parts| >= 1
    ensures |parts[0]| <= |Join(parts, sep)| && Join(parts, sep)[..|parts[0]|] == parts[0]
  {
  }

  /** Joining whitespace-free words with single spaces and splitting again gives the
      words back, provided no interior word is empty (an empty interior word would merge
      two spaces into one run). */
  lemma {:induction false} SplitJoin(words: seq<string>)
    requires |words| >= 1
    requires forall i :: 0 <= i < |words| ==> NoSpace(words[i])
    requires forall i :: 0 < i < |words| - 1 ==> words[i] != []
    ensures Split(Join(words, " ")) == words
    decreases |words|
  {
    if |words| == 1 {
      assert WordLen(words[0]) == |words[0]|;
    } else {
      var tail := words[1..];
      var j := Join(tail, " ");
      assert Join(words, " ") == words[0] + " " + j;
      JoinedHead(tail);
      SplitAfterWord(words[0], j);
      SplitJoin(tail);
      assert words == [words[0]] + tail;
    }
  }

  /** Joined words whose first word is non-empty when more follow start with a
      character that is not whitespace, or are empty. */
  lemma JoinedHead(words: seq<string>)
    requires |words| >= 1
    requires forall i :: 0 <= i < |words| ==> NoSpace(words[i])
    requires |words| >= 2 ==> words[0] != []
    ensures Join(words, " ") == [] || !IsSpace(Join(words, " ")[0])
  {
    var j := Join(words, " ");
    if j != [] {
      JoinStartsWith(words, " ");
      if |words| >= 2 {
        assert j[0] == words[0][0];
      } else {
        assert j == words[0];
      }
    }
  }

  /** A word, one space, then text that does not start with whitespace. */
  lemma SplitAfterWord(w: string, j: string)
    requires NoSpace(w)
    requires j == [] || !IsSpace(j[0])
    ensures Split(w + " " + j) == [w] + Split(j)
  {
    var s := w + " " + j;
    assert WordLen(s) == |w| by {
      assert s[|w|] == ' ';
      assert forall i :: 0 <= i < |w| ==> s[i] == w[i];
    }
    var rest := s[|w|..];
    assert rest == " " + j;
    assert RunLen(rest) == 1;
    assert rest[1..] == j;
    assert s[..|w|] == w;
    SplitStep(s);
  }

  /** Whitespace in `s` is single ' ' characters only. */
  predicate SingleSpaced(s: string) {
    forall i :: 0 <= i < |s| && IsSpace(s[i]) ==> s[i] == ' ' && (i + 1 < |s| ==> !IsSpace(s[i + 1]))
  }

  /** Splitting text whose whitespace is single spaces and joining with spaces gives the
      text back. */
  lemma {:induction false} JoinSplit(s: string)
    requires SingleSpaced(s)
    ensures Join(Split(s), " ") == s
    decreases |s|
  {
    var w := WordLen(s);
    if w < |s| {
      var t := s[w + 1..];
      SingleSpacedStep(s);
      JoinSplit(t);
      SplitStep(s);
      JoinCons(s[..w], Split(t), " ");
    }
  }

  /** Past the leading word, single-spaced text has a run of one space, and the text
      after it is single-spaced again. */
  lemma SingleSpacedStep(s: string)
    requires SingleSpaced(s) && WordLen(s) < |s|
    ensures var w := WordLen(s);
      RunLen(s[w..]) == 1 && s[w..][1..] == s[w + 1..] && SingleSpaced(s[w + 1..]) &&
      s == s[..w] + " " + s[w + 1..]
  {
    var w := WordLen(s);
    var rest := s[w..];
    assert rest != [] && IsSpace(rest[0]) && (|rest| > 1 ==> !IsSpace(rest[1])) by {
      assert rest[0] == s[w];
      assert |rest| > 1 ==> rest[1] == s[w + 1];
    }
    RunOfOne(rest);
    SliceOfSlice(s, w, 1);
    SingleSpacedSuffix(s, w + 1);
    RejoinAround(s, w);
  }

  lemma RunOfOne(r: string)
    requires r != [] && IsSpace(r[0]) && (|r| > 1 ==> !IsSpace(r[1]))
    ensures RunLen(r) == 1
  {
    assert |r| > 1 ==> r[1..][0] == r[1];
  }

  lemma SliceOfSlice<T>(s: seq<T>, i: nat, j: nat)
    requires i + j <= |s|
    ensures s[i..][j..] == s[i + j..]
  {
  }

  lemma RejoinAround<T>(s: seq<T>, k: nat)
    requires k < |s|
    ensures s == s[..k] + [s[k]] + s[k + 1..]
  {
  }

  lemma SingleSpacedSuffix(s: string, k: nat)
    requires SingleSpaced(s) && k <= |s|
    ensures SingleSpaced(s[k..])
  {
    var t := s[k..];
    forall i | 0 <= i < |t| && IsSpace(t[i])
      ensures t[i] == ' ' && (i + 1 < |t| ==> !IsSpace(t[i + 1]))
    {
      assert t[i] == s[k + i];
      assert i + 1 < |t| ==> t[i + 1] == s[k + i + 1];
    }
  }

  // ---------------------------------------------------------------------------
  // The command and the output file of one argument
  // ---------------------------------------------------------------------------

  /** `cmd_final` for one argument: every marker occurrence replaced when the template
      has one, else the template, one space and the argument. (`re.sub` would interpret
      backslash escapes in `arg`; the model covers the marker branch for arguments
      without a backslash.) With a marker and an argument free of '%', no marker is
      left in the result. */
  function FinalCommand(cmd: string, arg: string): (r: string)
    requires Contains(cmd, Marker) ==> '\\' !in arg
    ensures Contains(cmd, Marker) && '%' !in arg ==> !Contains(r, Marker)
    ensures !Contains(cmd, Marker) ==>
      |r| == |cmd| + 1 + |arg| && r[..|cmd|] == cmd && r[|cmd|] == ' ' && r[|cmd| + 1..] == arg
  {
    if Contains(cmd, Marker) then
      if '%' !in arg then ReplaceAllLeavesNoMarker(cmd, arg); ReplaceAll(cmd, Marker, arg)
      else ReplaceAll(cmd, Marker, arg)
    else
      var r := cmd + " " + arg;
      assert r[..|cmd|] == cmd && r[|cmd| + 1..] == arg;
      r
  }

  const StatsDir: string := "../stats/"
  const StatsExtension: string := ".stats"

  /** The per-argument output file, built from the argument, the strategy and the
      sample size (each rendered by `str`, so an absent option reads "None"). It lies
      in the stats directory and gives back the argument it was built from. */
  function OutputPath(arg: string, strategy: Option<int>, sampleSize: Option<int>): (path: string)
    ensures |StatsDir| <= |path| && path[..|StatsDir|] == StatsDir
    ensures ArgOfOutputPath(path, strategy, sampleSize) == Some(arg)
  {
    Around(StatsDir, arg, Suffix(strategy, sampleSize));
    StatsDir + arg + Suffix(strategy, sampleSize)
  }

  /** What follows the argument in its output path. */
  function Suffix(strategy: Option<int>, sampleSize: Option<int>): string {
    "-baital_strategy" + OptionalIntToString(strategy) + "-" + OptionalIntToString(sampleSize) + StatsExtension
  }

  /** The argument an output path was built from, if it has the shape OutputPath gives. */
  function ArgOfOutputPath(path: string, strategy: Option<int>, sampleSize: Option<int>): Option<string> {
    var suffix := Suffix(strategy, sampleSize);
    if |StatsDir| + |suffix| <= |path| && path[..|StatsDir|] == StatsDir &&
       path[|path| - |suffix|..] == suffix
    then Some(path[|StatsDir|..|path| - |suffix|])
    else None
  }

  lemma Around(pre: string, mid: string, suf: string)
    ensures (pre + mid + suf)[..|pre|] == pre
    ensures (pre + mid + suf)[|pre + mid + suf| - |suf|..] == suf
    ensures (pre + mid + suf)[|pre|..|pre + mid + suf| - |suf|] == mid
  {
  }

  /** Every path that reads back as an argument is that argument's output path. */
  lemma OutputPathOfArg(path: string, arg: string, strategy: Option<int>, sampleSize: Option<int>)
    requires ArgOfOutputPath(path, strategy, sampleSize) == Some(arg)
    ensures OutputPath(arg, strategy, sampleSize) == path
  {
    Reassemble(path, |StatsDir|, |path| - |Suffix(strategy, sampleSize)|);
  }

  lemma Reassemble(s: string, i: nat, j: nat)
    requires i <= j <= |s|
    ensures s == s[..i] + s[i..j] + s[j..]
  {
  }

  /** For fixed strategy and sample size, two different arguments never get the same
      path string (paths that differ as text may still name one file on disk). */
  lemma OutputPathInjective(a1: string, a2: string, strategy: Option<int>, sampleSize: Option<int>)
    requires OutputPath(a1, strategy, sampleSize) == OutputPath(a2, strategy, sampleSize)
    ensures a1 == a2
  {
  }

  // ---------------------------------------------------------------------------
  // Scheduling
  // ---------------------------------------------------------------------------

  /** One entry of `futures` besides the future itself: the command and its output file. */
  datatype Submission = Submission(call: string, outputFile: string)

  /** The scheduling loop. `output_file` is bound only in the marker branch, so a
      template without a marker stops the script with an `UnboundLocalError` at the
      first argument; no argument at all schedules nothing. The error is raised after
      `pool.submit` (timeouter.py:67), so the first argument's command has already been
      handed to the pool, which still runs it on leaving its `with` block; `Err` means
      that no entry of `futures` is built and no output file is written, not that
      nothing ran. */
  method Schedule(cmd: string, args: seq<string>, strategy: Option<int>, sampleSize: Option<int>)
    returns (r: Result<seq<Submission>, Crash>)
    requires Contains(cmd, Marker) ==> forall k :: 0 <= k < |args| ==> '\\' !in args[k]
    ensures args == [] ==> r == Ok([])
    ensures args != [] && !Contains(cmd, Marker) ==> r == Err(UnboundLocal("output_file"))
    ensures Contains(cmd, Marker) ==> r.Ok? && |r.value| == |args|
    ensures Contains(cmd, Marker) ==> forall k :: 0 <= k < |args| ==>
      r.value[k] == Submission(FinalCommand(cmd, args[k]), OutputPath(args[k], strategy, sampleSize))
  {
    var futures: seq<Submission> := [];
    var outputFile: Option<string> := None;
    for k := 0 to |args|
      invariant |futures| == k
      invariant !Contains(cmd, Marker) ==> k == 0 && outputFile == None
      invariant forall j :: 0 <= j < k ==>
        futures[j] == Submission(FinalCommand(cmd, args[j]), OutputPath(args[j], strategy, sampleSize))
    {
      var arg := args[k];
      var cmdFinal := FinalCommand(cmd, arg);
      if Contains(cmd, Marker) {
        outputFile := Some(OutputPath(arg, strategy, sampleSize));
      }
      if outputFile == None {
        return Err(UnboundLocal("output_file"));
      }
      ghost var before := futures;
      futures := futures + [Submission(cmdFinal, outputFile.value)];
      assert forall j :: 0 <= j < k ==> futures[j] == before[j];
    }
    return Ok(futures);
  }

  // ---------------------------------------------------------------------------
  // Output files
  // ---------------------------------------------------------------------------

  /** A task that leaves no output file: one that failed, or completed without stdout. */
  predicate WritesNothing(outcome: Outcome) {
    outcome.Failed? || (outcome.Completed? && outcome.stdout == "")
  }

  /** What a task leaves in its output file: for a completed task with output, "error"
      when it wrote to stderr and its stdout plus a newline otherwise; "timeout" for a
      timed-out task; nothing for a completed task without output or a failed one. */
  function FileContent(outcome: Outcome): (content: Option<string>)
    ensures content.None? <==> WritesNothing(outcome)
    ensures outcome.TimedOut? ==> content == Some("timeout")
    ensures outcome.Completed? && content.Some? ==>
      (content.value == "error" <==> outcome.stderr != "") &&
      (outcome.stderr == "" ==> content.value == outcome.stdout + "\n")
  {
    match outcome
    case Completed(_, out, err) =>
      if out == "" then None
      else if err != "" then Some("error")
      else
        var line := out + "\n";
        assert line[|line| - 1] != "error"[4];
        Some(line)
    case TimedOut => Some("timeout")
    case Failed(_) => None
  }

  /** The file system after one task: a file opened with "w+" is truncated first, so
      the written content replaces what was there. */
  function Effect(files: map<string, string>, path: string, outcome: Outcome): map<string, string> {
    if path != "" && FileContent(outcome).Some? then files[path := FileContent(outcome).value] else files
  }

  /** The file system after the result loop: tasks in `futures` order until the first
      failed one, whose exception is not caught and ends the script. */
  function Outputs(files: map<string, string>, futures: seq<Submission>, outcomes: seq<Outcome>): (r: map<string, string>)
    requires |futures| == |outcomes|
    ensures files.Keys <= r.Keys
    ensures forall p :: p in r && p !in files ==> exists k :: 0 <= k < |futures| && futures[k].outputFile == p
    decreases |futures|
  {
    if futures == [] || outcomes[0].Failed? then files
    else Outputs(Effect(files, futures[0].outputFile, outcomes[0]), futures[1..], outcomes[1..])
  }

  /** The files on disk, by path. */
  class FileSystem {
    var files: map<string, string>

    constructor (initial: map<string, string>)
      ensures files == initial
    {
      files := initial;
    }

    /** `open(path, "w+")`: creates or truncates. */
    method Open(path: string)
      modifies this
      ensures files == old(files)[path := ""]
    {
      files := files[path := ""];
    }

    method Write(path: string, s: string)
      requires path in files
      modifies this
      ensures files == old(files)[path := old(files)[path] + s]
    {
      files := files[path := files[path] + s];
    }
  }

  /** The body of the result loop for a task whose outcome is not an exception other
      than a timeout. */
  method WriteTask(fs: FileSystem, future: Submission, outcome: Outcome)
    requires !outcome.Failed?
    modifies fs
    ensures fs.files == Effect(old(fs.files), future.outputFile, outcome)
  {
    var outputFile := future.outputFile;
    match outcome
    case Completed(_, out, err) =>
      if out != "" {
        if outputFile != "" {
          fs.Open(outputFile);
          if err != "" {
            fs.Write(outputFile, "error");
            assert "" + "error" == "error";
          } else {
            fs.Write(outputFile, out);
            fs.Write(outputFile, "\n");
            assert "" + out + "\n" == out + "\n";
          }
        }
      }
    case TimedOut =>
      if outputFile != "" {
        fs.Open(outputFile);
        fs.Write(outputFile, "timeout");
        assert "" + "timeout" == "timeout";
      }
  }

  /** The result loop over `futures`: a failed task's exception escapes and stops the
      loop, leaving the files written so far. */
  method WriteOutputs(fs: FileSystem, futures: seq<Submission>, outcomes: seq<Outcome>)
    returns (crash: Option<Crash>)
    requires |outcomes| == |futures|
    modifies fs
    ensures fs.files == Outputs(old(fs.files), futures, outcomes)
    ensures crash == match FirstFailure(outcomes)
      case None => None
      case Some(k) => Some(UncaughtException(outcomes[k].description))
  {
    for k := 0 to |futures|
      invariant Outputs(fs.files, futures[k..], outcomes[k..]) == Outputs(old(fs.files), futures, outcomes)
      invariant forall j :: 0 <= j < k ==> !outcomes[j].Failed?
    {
      if outcomes[k].Failed? {
        return Some(UncaughtException(outcomes[k].description));
      }
      assert futures[k..][1..] == futures[k + 1..];
      assert outcomes[k..][1..] == outcomes[k + 1..];
      WriteTask(fs, futures[k], outcomes[k]);
    }
    return None;
  }

  // ---------------------------------------------------------------------------
  // Properties of the output files
  // ---------------------------------------------------------------------------

  /** A path that no task writes keeps its old state: it exists afterwards exactly when
      it existed before, with the same content. */
  lemma {:induction false} OutputsUntouched(files: map<string, string>, futures: seq<Submission>,
                                            outcomes: seq<Outcome>, path: string)
    requires |futures| == |outcomes|
    requires forall k :: 0 <= k < |futures| && futures[k].outputFile == path ==> WritesNothing(outcomes[k])
    ensures path in Outputs(files, futures, outcomes) <==> path in files
    ensures path in files ==> Outputs(files, futures, outcomes)[path] == files[path]
    decreases |futures|
  {
    if futures != [] && !outcomes[0].Failed? {
      var next := Effect(files, futures[0].outputFile, outcomes[0]);
      assert path in next <==> path in files;
      assert path in files ==> next[path] == files[path];
      OutputsUntouched(next, futures[1..], outcomes[1..], path);
    }
  }

  /** The content of an output file after the loop comes from the last task before any
      failure that wrote it: "timeout" for a timed-out task; for a completed task with
      stdout, "error" if it wrote to stderr and its stdout plus a newline otherwise. */
  lemma {:induction false} OutputsLastWriter(files: map<string, string>, futures: seq<Submission>,
                                             outcomes: seq<Outcome>, k: nat)
    requires |futures| == |outcomes| && k < |futures|
    requires futures[k].outputFile != ""
    requires outcomes[k].TimedOut? || (outcomes[k].Completed? && outcomes[k].stdout != "")
    requires forall j :: 0 <= j < k ==> !outcomes[j].Failed?
    requires forall j :: k < j < |futures| && futures[j].outputFile == futures[k].outputFile ==>
      WritesNothing(outcomes[j])
    ensures futures[k].outputFile in Outputs(files, futures, outcomes)
    ensures outcomes[k].TimedOut? ==> Outputs(files, futures, outcomes)[futures[k].outputFile] == "timeout"
    ensures outcomes[k].Completed? && outcomes[k].stderr != "" ==>
      Outputs(files, futures, outcomes)[futures[k].outputFile] == "error"
    ensures outcomes[k].Completed? && outcomes[k].stderr == "" ==>
      Outputs(files, futures, outcomes)[futures[k].outputFile] == outcomes[k].stdout + "\n"
    decreases |futures|
  {
    var next := Effect(files, futures[0].outputFile, outcomes[0]);
    if k == 0 {
      var path := futures[0].outputFile;
      forall j | 0 <= j < |futures[1..]| && futures[1..][j].outputFile == path
        ensures WritesNothing(outcomes[1..][j])
      {
        assert futures[1..][j] == futures[j + 1];
      }
      OutputsUntouched(next, futures[1..], outcomes[1..], path);
    } else {
      forall j | k - 1 < j < |futures[1..]| && futures[1..][j].outputFile == futures[1..][k - 1].outputFile
        ensures WritesNothing(outcomes[1..][j])
      {
        assert futures[1..][j] == futures[j + 1];
      }
      OutputsLastWriter(next, futures[1..], outcomes[1..], k - 1);
    }
  }

  /** Tasks after the first failed one never reach their output files. */
  lemma {:induction false} OutputsStopAtFailure(files: map<string, string>, futures: seq<Submission>,
                                                outcomes: seq<Outcome>, k: nat)
    requires |futures| == |outcomes| && k < |futures| && outcomes[k].Failed?
    ensures Outputs(files, futures, outcomes) == Outputs(files, futures[..k], outcomes[..k])
    decreases k
  {
    if k > 0 && !outcomes[0].Failed? {
      var next := Effect(files, futures[0].outputFile, outcomes[0]);
      OutputsStopAtFailure(next, futures[1..], outcomes[1..], k - 1);
      assert futures[1..][..k - 1] == futures[..k][1..];
      assert outcomes[1..][..k - 1] == outcomes[..k][1..];
    }
  }
}
