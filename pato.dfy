/** pato: runs a token-list command template once per argument value and records, per
    task, a row in a stats file and entries in an stdout log and an stderr log. */
module Pato {
  import opened Options
  import opened Text
  import opened Numerals
  import opened Execution

  /** A concrete command line: the list of tokens handed to `subprocess.run`. */
  type Invocation = seq<string>

  // ---------------------------------------------------------------------------
  // Invocation builder
  // ---------------------------------------------------------------------------

  /** Some template token carries the placeholder marker. */
  predicate HasMarker(template: seq<string>) {
    exists i :: 0 <= i < |template| && Contains(template[i], Marker)
  }

  /** Every token with each marker occurrence replaced by `arg`, token by token. */
  function SubstituteEach(template: seq<string>, arg: string): (r: seq<string>)
    ensures |r| == |template|
    ensures forall i :: 0 <= i < |template| ==> r[i] == ReplaceAll(template[i], Marker, arg)
    decreases |template|
  {
    if template == [] then []
    else [ReplaceAll(template[0], Marker, arg)] + SubstituteEach(template[1..], arg)
  }

  /** The invocation built for one argument value. With the marker in some token it has
      the template's length and token i is template[i] with every marker replaced;
      without one it is the template followed by the value as one more token. Either
      way, tokens without a marker are copied unchanged. */
  function Expand(template: seq<string>, arg: string): (r: Invocation)
    ensures |r| == if HasMarker(template) then |template| else |template| + 1
    ensures HasMarker(template) ==>
      forall i :: 0 <= i < |template| ==> r[i] == ReplaceAll(template[i], Marker, arg)
    ensures forall i :: 0 <= i < |template| && !Contains(template[i], Marker) ==> r[i] == template[i]
    ensures !HasMarker(template) ==> r[|template|] == arg
  {
    if HasMarker(template) then SubstituteEach(template, arg) else template + [arg]
  }

  /** For an argument without '%', no token of the invocation still carries a marker:
      either all occurrences were replaced, or none existed and the appended value
      cannot form one. */
  lemma ExpandLeavesNoMarker(template: seq<string>, arg: string)
    requires '%' !in arg
    ensures forall i :: 0 <= i < |Expand(template, arg)| ==> !Contains(Expand(template, arg)[i], Marker)
  {
    var inv := Expand(template, arg);
    if HasMarker(template) {
      forall i | 0 <= i < |inv| ensures !Contains(inv[i], Marker) {
        ReplaceAllLeavesNoMarker(template[i], arg);
      }
    } else {
      forall i | 0 <= i < |inv| ensures !Contains(inv[i], Marker) {
        if i == |template| {
          ShortHasNoMarker([]);
          NoMarkerAfterPrefix(arg, []);
          assert arg + [] == arg;
        }
      }
    }
  }

  /** The loop that builds `cmd_final` for one argument: each token with a marker is
      replaced token by token and raises `substituted`; if nothing was substituted the
      argument is appended. (`re.sub` would interpret backslash escapes in `arg`; the
      model covers arguments without a backslash.) */
  method BuildInvocation(template: seq<string>, arg: string) returns (cmdFinal: Invocation)
    requires HasMarker(template) ==> '\\' !in arg
    ensures cmdFinal == Expand(template, arg)
    ensures HasMarker(template) ==> |cmdFinal| == |template|
    ensures HasMarker(template) ==>
      forall i :: 0 <= i < |template| ==> cmdFinal[i] == ReplaceAll(template[i], Marker, arg)
    ensures !HasMarker(template) ==> cmdFinal == template + [arg]
  {
    cmdFinal := [];
    var substituted := false;
    for i := 0 to |template|
      invariant |cmdFinal| == i
      invariant forall j :: 0 <= j < i ==> cmdFinal[j] == ReplaceAll(template[j], Marker, arg)
      invariant substituted <==> exists j :: 0 <= j < i && Contains(template[j], Marker)
    {
      var part := template[i];
      if Contains(part, Marker) {
        part := ReplaceAll(part, Marker, arg);
        substituted := true;
      }
      cmdFinal := cmdFinal + [part];
    }
    if !substituted {
      cmdFinal := cmdFinal + [arg];
      assert cmdFinal[..|template|] == template;
    }
  }

  /** The scheduling loop: one invocation per argument value, in argument order (the
      order of `futures`). Without argument values the script reaches
      `print("Scheduling:", cmd_final)` with `cmd_final` never assigned and stops with
      an `UnboundLocalError`. */
  method Schedule(template: seq<string>, args: seq<string>) returns (r: Result<seq<Invocation>, Crash>)
    requires HasMarker(template) ==> forall k :: 0 <= k < |args| ==> '\\' !in args[k]
    ensures args == [] ==> r == Err(UnboundLocal("cmd_final"))
    ensures args != [] ==> r.Ok? && |r.value| == |args|
    ensures args != [] ==> forall k :: 0 <= k < |args| ==> r.value[k] == Expand(template, args[k])
  {
    if args == [] {
      return Err(UnboundLocal("cmd_final"));
    }
    var futures: seq<Invocation> := [];
    for k := 0 to |args|
      invariant |futures| == k
      invariant forall j :: 0 <= j < k ==> futures[j] == Expand(template, args[j])
    {
      var cmdFinal := BuildInvocation(template, args[k]);
      futures := futures + [cmdFinal];
    }
    return Ok(futures);
  }

  // ---------------------------------------------------------------------------
  // Result rendering
  // ---------------------------------------------------------------------------

  const Header: string := "cmd;time;error"

  /** The invocation as it appears in every record: its tokens joined by spaces, in
      double quotes. */
  function Quote(cmd: Invocation): string {
    "\"" + Join(cmd, " ") + "\""
  }

  /** The stats row of one task: duration to two decimals for a completed task, an
      empty duration otherwise; the error flag is `True` only for a failed task. */
  function StatsLine(cmd: Invocation, outcome: Outcome, sep: string): string {
    match outcome
    case Completed(centis, _, _) => Quote(cmd) + ";" + FormatCentis(centis) + ";False" + sep
    case TimedOut => Quote(cmd) + ";;False" + sep
    case Failed(_) => Quote(cmd) + ";;True" + sep
  }

  /** What one task writes to the stdout log. */
  function OutEntries(cmd: Invocation, outcome: Outcome, sep: string): seq<string> {
    match outcome
    case Completed(_, out, _) => [Quote(cmd) + sep, out]
    case TimedOut => []
    case Failed(_) => []
  }

  /** What one task writes to the stderr log (stderr even when it is empty). */
  function ErrEntries(cmd: Invocation, outcome: Outcome, sep: string): seq<string> {
    match outcome
    case Completed(_, _, err) => [Quote(cmd) + sep, err]
    case TimedOut => []
    case Failed(description) => [Quote(cmd) + sep, description]
  }

  /** Stats rows of all tasks so far, in `futures` order. */
  function StatsRows(cmds: seq<Invocation>, outcomes: seq<Outcome>, sep: string): seq<string>
    requires |cmds| == |outcomes|
    decreases |cmds|
  {
    if cmds == [] then [] else
    var n := |cmds| - 1;
    StatsRows(cmds[..n], outcomes[..n], sep) + [StatsLine(cmds[n], outcomes[n], sep)]
  }

  /** The whole stats file: the header, then the rows. */
  function StatsFile(cmds: seq<Invocation>, outcomes: seq<Outcome>, sep: string): seq<string>
    requires |cmds| == |outcomes|
  {
    [Header + sep] + StatsRows(cmds, outcomes, sep)
  }

  function OutLog(cmds: seq<Invocation>, outcomes: seq<Outcome>, sep: string): seq<string>
    requires |cmds| == |outcomes|
    decreases |cmds|
  {
    if cmds == [] then [] else
    var n := |cmds| - 1;
    OutLog(cmds[..n], outcomes[..n], sep) + OutEntries(cmds[n], outcomes[n], sep)
  }

  function ErrLog(cmds: seq<Invocation>, outcomes: seq<Outcome>, sep: string): seq<string>
    requires |cmds| == |outcomes|
    decreases |cmds|
  {
    if cmds == [] then [] else
    var n := |cmds| - 1;
    ErrLog(cmds[..n], outcomes[..n], sep) + ErrEntries(cmds[n], outcomes[n], sep)
  }

  /** A text file opened with mode "w+": the sequence of strings written to it. */
  class LogFile {
    var writes: seq<string>

    constructor ()
      ensures writes == []
    {
      writes := [];
    }

    method Write(s: string)
      modifies this
      ensures writes == old(writes) + [s]
    {
      writes := writes + [s];
    }
  }

  /** One more task extends each record by that task's entries. */
  lemma RecordsStep(cmds: seq<Invocation>, outcomes: seq<Outcome>, sep: string, k: nat)
    requires |cmds| == |outcomes| && k < |cmds|
    ensures StatsRows(cmds[..k + 1], outcomes[..k + 1], sep)
      == StatsRows(cmds[..k], outcomes[..k], sep) + [StatsLine(cmds[k], outcomes[k], sep)]
    ensures OutLog(cmds[..k + 1], outcomes[..k + 1], sep)
      == OutLog(cmds[..k], outcomes[..k], sep) + OutEntries(cmds[k], outcomes[k], sep)
    ensures ErrLog(cmds[..k + 1], outcomes[..k + 1], sep)
      == ErrLog(cmds[..k], outcomes[..k], sep) + ErrEntries(cmds[k], outcomes[k], sep)
    ensures StatsFile(cmds[..k + 1], outcomes[..k + 1], sep)
      == StatsFile(cmds[..k], outcomes[..k], sep) + [StatsLine(cmds[k], outcomes[k], sep)]
  {
    assert cmds[..k + 1][..k] == cmds[..k];
    assert outcomes[..k + 1][..k] == outcomes[..k];
  }

  /** The body of the rendering loop for one future. */
  method RenderTask(invocation: Invocation, outcome: Outcome, sep: string, lfo: LogFile, lfe: LogFile, sf: LogFile)
    requires lfo != lfe && lfe != sf && lfo != sf
    modifies lfo, lfe, sf
    ensures sf.writes == old(sf.writes) + [StatsLine(invocation, outcome, sep)]
    ensures lfo.writes == old(lfo.writes) + OutEntries(invocation, outcome, sep)
    ensures lfe.writes == old(lfe.writes) + ErrEntries(invocation, outcome, sep)
  {
    var cmd := Quote(invocation);
    match outcome
    case Completed(centis, out, err) =>
      lfo.Write(cmd + sep);
      lfo.Write(out);
      lfe.Write(cmd + sep);
      lfe.Write(err);
      sf.Write(cmd + ";" + FormatCentis(centis) + ";False" + sep);
    case TimedOut =>
      sf.Write(cmd + ";;False" + sep);
    case Failed(description) =>
      lfe.Write(cmd + sep);
      lfe.Write(description);
      sf.Write(cmd + ";;True" + sep);
  }

  /** After the first k futures: each file holds what it held before, followed by the
      records of those k tasks (the stats file starting with its header). */
  ghost predicate RenderedUpTo(futures: seq<Invocation>, outcomes: seq<Outcome>, sep: string, k: nat,
                               stats0: seq<string>, out0: seq<string>, err0: seq<string>,
                               stats: seq<string>, out: seq<string>, err: seq<string>)
    requires |futures| == |outcomes| && k <= |futures|
  {
    && stats == stats0 + StatsFile(futures[..k], outcomes[..k], sep)
    && out == out0 + OutLog(futures[..k], outcomes[..k], sep)
    && err == err0 + ErrLog(futures[..k], outcomes[..k], sep)
  }

  lemma RenderedStep(futures: seq<Invocation>, outcomes: seq<Outcome>, sep: string, k: nat,
                     stats0: seq<string>, out0: seq<string>, err0: seq<string>,
                     stats: seq<string>, out: seq<string>, err: seq<string>)
    requires |futures| == |outcomes| && k < |futures|
    requires RenderedUpTo(futures, outcomes, sep, k, stats0, out0, err0, stats, out, err)
    ensures RenderedUpTo(futures, outcomes, sep, k + 1, stats0, out0, err0,
                         stats + [StatsLine(futures[k], outcomes[k], sep)],
                         out + OutEntries(futures[k], outcomes[k], sep),
                         err + ErrEntries(futures[k], outcomes[k], sep))
  {
    RecordsStep(futures, outcomes, sep, k);
    var f, o := futures[k], outcomes[k];
    assert stats + [StatsLine(f, o, sep)] == stats0 + (StatsFile(futures[..k], outcomes[..k], sep) + [StatsLine(f, o, sep)]);
    assert out + OutEntries(f, o, sep) == out0 + (OutLog(futures[..k], outcomes[..k], sep) + OutEntries(f, o, sep));
    assert err + ErrEntries(f, o, sep) == err0 + (ErrLog(futures[..k], outcomes[..k], sep) + ErrEntries(f, o, sep));
  }

  lemma RenderedAll(futures: seq<Invocation>, outcomes: seq<Outcome>, sep: string,
                    stats0: seq<string>, out0: seq<string>, err0: seq<string>,
                    stats: seq<string>, out: seq<string>, err: seq<string>)
    requires |futures| == |outcomes|
    requires RenderedUpTo(futures, outcomes, sep, |futures|, stats0, out0, err0, stats, out, err)
    ensures stats == stats0 + StatsFile(futures, outcomes, sep)
    ensures out == out0 + OutLog(futures, outcomes, sep)
    ensures err == err0 + ErrLog(futures, outcomes, sep)
  {
    assert futures[..|futures|] == futures;
    assert outcomes[..|outcomes|] == outcomes;
  }

  /** The rendering loop over `futures` (submission order), with the failed-task branch
      writing the exception's text. Each `writelines(s)` is one write of `s`. */
  method Render(futures: seq<Invocation>, outcomes: seq<Outcome>, sep: string,
                lfo: LogFile, lfe: LogFile, sf: LogFile)
    requires |outcomes| == |futures|
    requires lfo != lfe && lfe != sf && lfo != sf
    modifies lfo, lfe, sf
    ensures sf.writes == old(sf.writes) + StatsFile(futures, outcomes, sep)
    ensures lfo.writes == old(lfo.writes) + OutLog(futures, outcomes, sep)
    ensures lfe.writes == old(lfe.writes) + ErrLog(futures, outcomes, sep)
  {
    ghost var stats0, out0, err0 := sf.writes, lfo.writes, lfe.writes;
    sf.Write(Header + sep);
    assert futures[..0] == [] && outcomes[..0] == [];
    for k := 0 to |futures|
      invariant RenderedUpTo(futures, outcomes, sep, k, stats0, out0, err0, sf.writes, lfo.writes, lfe.writes)
    {
      ghost var stats, out, err := sf.writes, lfo.writes, lfe.writes;
      RenderTask(futures[k], outcomes[k], sep, lfo, lfe, sf);
      RenderedStep(futures, outcomes, sep, k, stats0, out0, err0, stats, out, err);
    }
    RenderedAll(futures, outcomes, sep, stats0, out0, err0, sf.writes, lfo.writes, lfe.writes);
  }

  // ---------------------------------------------------------------------------
  // Properties of the records
  // ---------------------------------------------------------------------------

  lemma {:induction false} StatsRowsLength(cmds: seq<Invocation>, outcomes: seq<Outcome>, sep: string)
    requires |cmds| == |outcomes|
    ensures |StatsRows(cmds, outcomes, sep)| == |cmds|
    decreases |cmds|
  {
    if cmds != [] {
      StatsRowsLength(cmds[..|cmds| - 1], outcomes[..|cmds| - 1], sep);
    }
  }

  /** Exactly one row per task, the k-th row belonging to the k-th future. */
  lemma {:induction false} StatsRowsAt(cmds: seq<Invocation>, outcomes: seq<Outcome>, sep: string, k: nat)
    requires |cmds| == |outcomes| && k < |cmds|
    ensures |StatsRows(cmds, outcomes, sep)| == |cmds|
    ensures StatsRows(cmds, outcomes, sep)[k] == StatsLine(cmds[k], outcomes[k], sep)
    decreases |cmds|
  {
    var n := |cmds| - 1;
    var cs, os := cmds[..n], outcomes[..n];
    StatsRowsLength(cs, os, sep);
    var rows, line := StatsRows(cs, os, sep), StatsLine(cmds[n], outcomes[n], sep);
    assert StatsRows(cmds, outcomes, sep) == rows + [line];
    if k < n {
      StatsRowsAt(cs, os, sep, k);
      assert cs[k] == cmds[k] && os[k] == outcomes[k];
      assert (rows + [line])[k] == rows[k];
    } else {
      assert (rows + [line])[k] == line;
    }
  }

  /** The stats file is the header followed by exactly one row per task, in `futures`
      order. */
  lemma StatsFileShape(cmds: seq<Invocation>, outcomes: seq<Outcome>, sep: string)
    requires |cmds| == |outcomes|
    ensures |StatsFile(cmds, outcomes, sep)| == |cmds| + 1
    ensures StatsFile(cmds, outcomes, sep)[0] == "cmd;time;error" + sep
    ensures forall k :: 0 <= k < |cmds| ==>
      StatsFile(cmds, outcomes, sep)[k + 1] == StatsLine(cmds[k], outcomes[k], sep)
  {
    if cmds == [] {
    } else {
      StatsRowsAt(cmds, outcomes, sep, 0);
    }
    forall k | 0 <= k < |cmds|
      ensures StatsFile(cmds, outcomes, sep)[k + 1] == StatsLine(cmds[k], outcomes[k], sep)
    {
      StatsRowsAt(cmds, outcomes, sep, k);
    }
  }

  /** One ';'-separated row read back as its three fields. */
  datatype StatsRow = StatsRow(cmd: string, time: string, error: string)

  function LastIndexOf(s: string, c: char): (r: Option<nat>)
    ensures r.Some? ==> r.value < |s| && s[r.value] == c
    ensures r.Some? ==> forall j :: r.value < j < |s| ==> s[j] != c
    ensures r.None? ==> forall j :: 0 <= j < |s| ==> s[j] != c
    decreases |s|
  {
    if s == [] then None
    else if s[|s| - 1] == c then Some(|s| - 1)
    else LastIndexOf(s[..|s| - 1], c)
  }

  /** Reads a stats row: the line separator is stripped and the row split at its last
      two ';' (the command may itself contain ';'). */
  function ParseStatsLine(line: string, sep: string): Option<StatsRow> {
    if |sep| <= |line| && line[|line| - |sep|..] == sep then
      var body := line[..|line| - |sep|];
      match LastIndexOf(body, ';')
      case None => None
      case Some(j) =>
        match LastIndexOf(body[..j], ';')
        case None => None
        case Some(i) => Some(StatsRow(body[..i], body[i + 1..j], body[j + 1..]))
    else
      None
  }

  lemma LastIndexAt(s: string, c: char, p: nat)
    requires p < |s| && s[p] == c && forall j :: p < j < |s| ==> s[j] != c
    ensures LastIndexOf(s, c) == Some(p)
  {
  }

  lemma ParseFields(q: string, t: string, f: string, sep: string)
    requires ';' !in t && ';' !in f
    ensures ParseStatsLine(q + ";" + t + ";" + f + sep, sep) == Some(StatsRow(q, t, f))
  {
    var line := q + ";" + t + ";" + f + sep;
    var body := q + ";" + t + ";" + f;
    assert line[..|line| - |sep|] == body;
    assert line[|line| - |sep|..] == sep;
    var j := |q| + 1 + |t|;
    assert body[j] == ';';
    forall m | j < m < |body| ensures body[m] != ';' {
      assert body[m] == f[m - j - 1];
    }
    LastIndexAt(body, ';', j);
    var pre := body[..j];
    assert pre == q + ";" + t;
    forall m | |q| < m < |pre| ensures pre[m] != ';' {
      assert pre[m] == t[m - |q| - 1];
    }
    LastIndexAt(pre, ';', |q|);
    assert body[..|q|] == q;
    assert body[|q| + 1..j] == t;
    assert body[j + 1..] == f;
  }

  /** Number of completed tasks, and of tasks that leave an stderr entry. */
  function CountCompleted(outcomes: seq<Outcome>): nat
    decreases |outcomes|
  {
    if outcomes == [] then 0
    else CountCompleted(outcomes[..|outcomes| - 1]) + (if outcomes[|outcomes| - 1].Completed? then 1 else 0)
  }

  function CountLogged(outcomes: seq<Outcome>): nat
    decreases |outcomes|
  {
    if outcomes == [] then 0
    else CountLogged(outcomes[..|outcomes| - 1]) + (if outcomes[|outcomes| - 1].TimedOut? then 0 else 1)
  }

  /** The stdout log holds two entries per completed task and nothing for the others;
      the stderr log two per task that did not time out. */
  lemma {:induction false} LogLengths(cmds: seq<Invocation>, outcomes: seq<Outcome>, sep: string)
    requires |cmds| == |outcomes|
    ensures |OutLog(cmds, outcomes, sep)| == 2 * CountCompleted(outcomes)
    ensures |ErrLog(cmds, outcomes, sep)| == 2 * CountLogged(outcomes)
    decreases |cmds|
  {
    if cmds != [] {
      var n := |cmds| - 1;
      LogLengths(cmds[..n], outcomes[..n], sep);
    }
  }

  /** The entries of a completed task sit in the stdout log after those of the
      completed tasks before it: the quoted invocation line, then stdout verbatim. */
  lemma {:induction false} OutLogEntry(cmds: seq<Invocation>, outcomes: seq<Outcome>, sep: string, k: nat)
    requires |cmds| == |outcomes| && k < |cmds| && outcomes[k].Completed?
    ensures 2 * CountCompleted(outcomes[..k]) + 1 < |OutLog(cmds, outcomes, sep)|
    ensures OutLog(cmds, outcomes, sep)[2 * CountCompleted(outcomes[..k])] == Quote(cmds[k]) + sep
    ensures OutLog(cmds, outcomes, sep)[2 * CountCompleted(outcomes[..k]) + 1] == outcomes[k].stdout
    decreases |cmds|
  {
    var n := |cmds| - 1;
    if k < n {
      OutLogEntry(cmds[..n], outcomes[..n], sep, k);
      assert outcomes[..n][..k] == outcomes[..k];
    } else {
      LogLengths(cmds[..n], outcomes[..n], sep);
      assert outcomes[..k] == outcomes[..n];
    }
  }

  /** Likewise for the stderr log: the quoted invocation line, then stderr verbatim for
      a completed task or the error text for a failed one. */
  lemma {:induction false} ErrLogEntry(cmds: seq<Invocation>, outcomes: seq<Outcome>, sep: string, k: nat)
    requires |cmds| == |outcomes| && k < |cmds| && !outcomes[k].TimedOut?
    ensures 2 * CountLogged(outcomes[..k]) + 1 < |ErrLog(cmds, outcomes, sep)|
    ensures ErrLog(cmds, outcomes, sep)[2 * CountLogged(outcomes[..k])] == Quote(cmds[k]) + sep
    ensures ErrLog(cmds, outcomes, sep)[2 * CountLogged(outcomes[..k]) + 1] ==
      if outcomes[k].Completed? then outcomes[k].stderr else outcomes[k].description
    decreases |cmds|
  {
    var n := |cmds| - 1;
    if k < n {
      ErrLogEntry(cmds[..n], outcomes[..n], sep, k);
      assert outcomes[..n][..k] == outcomes[..k];
    } else {
      LogLengths(cmds[..n], outcomes[..n], sep);
      assert outcomes[..k] == outcomes[..n];
    }
  }

  /** A stats row read back gives the quoted invocation, the two-decimal duration
      exactly when the task completed (empty otherwise), and the error flag `True`
      exactly when the task failed. */
  lemma StatsLineReadsBack(cmd: Invocation, outcome: Outcome, sep: string)
    ensures ParseStatsLine(StatsLine(cmd, outcome, sep), sep) ==
      Some(StatsRow(Quote(cmd),
                    if outcome.Completed? then FormatCentis(outcome.centis) else "",
                    if outcome.Failed? then "True" else "False"))
  {
    match outcome
    case Completed(centis, _, _) =>
      FormatCentisHasNoSemicolon(centis);
      assert StatsLine(cmd, outcome, sep) == Quote(cmd) + ";" + FormatCentis(centis) + ";" + "False" + sep;
      ParseFields(Quote(cmd), FormatCentis(centis), "False", sep);
    case TimedOut =>
      assert StatsLine(cmd, outcome, sep) == Quote(cmd) + ";" + "" + ";" + "False" + sep;
      ParseFields(Quote(cmd), "", "False", sep);
    case Failed(_) =>
      assert StatsLine(cmd, outcome, sep) == Quote(cmd) + ";" + "" + ";" + "True" + sep;
      ParseFields(Quote(cmd), "", "True", sep);
  }

  // ---------------------------------------------------------------------------
  // The failed-task branch as written
  // ---------------------------------------------------------------------------

  /** What the three files hold when the rendering loop stops, and whether it stopped
      with a traceback. */
  datatype Rendering = Rendering(out: seq<string>, err: seq<string>, stats: seq<string>, crashed: bool)

  /** The rendering loop as written: in the failed-task branch `lfe.write(e)` hands an
      exception object to a text file, which raises `TypeError` inside the handler;
      the quoted invocation line has reached the stderr log, the stats row has not,
      and no later task is rendered. */
  function RenderAsWritten(cmds: seq<Invocation>, outcomes: seq<Outcome>, sep: string): (r: Rendering)
    requires |cmds| == |outcomes|
    ensures r.crashed <==> exists j :: 0 <= j < |outcomes| && outcomes[j].Failed?
    ensures |r.stats| >= 1 && r.stats[0] == Header + sep
    ensures !r.crashed ==> |r.stats| == |cmds| + 1
    decreases |cmds|
  {
    if cmds == [] then Rendering([], [], [Header + sep], false)
    else
      assert forall j :: 0 <= j < |cmds| - 1 ==> outcomes[..|cmds| - 1][j] == outcomes[j];
      var before := RenderAsWritten(cmds[..|cmds| - 1], outcomes[..|cmds| - 1], sep);
      var cmd, outcome := cmds[|cmds| - 1], outcomes[|cmds| - 1];
      if before.crashed then before
      else if outcome.Failed? then before.(err := before.err + [Quote(cmd) + sep], crashed := true)
      else Rendering(before.out + OutEntries(cmd, outcome, sep),
                     before.err + ErrEntries(cmd, outcome, sep),
                     before.stats + [StatsLine(cmd, outcome, sep)],
                     false)
  }

  /** As written, rendering agrees with Render exactly when no task failed. */
  lemma {:induction false} AsWrittenWithoutFailure(cmds: seq<Invocation>, outcomes: seq<Outcome>, sep: string)
    requires |cmds| == |outcomes|
    requires forall j :: 0 <= j < |outcomes| ==> !outcomes[j].Failed?
    ensures RenderAsWritten(cmds, outcomes, sep) ==
      Rendering(OutLog(cmds, outcomes, sep), ErrLog(cmds, outcomes, sep), StatsFile(cmds, outcomes, sep), false)
    decreases |cmds|
  {
    if cmds != [] {
      var n := |cmds| - 1;
      var cs, os := cmds[..n], outcomes[..n];
      assert forall j :: 0 <= j < n ==> os[j] == outcomes[j];
      AsWrittenWithoutFailure(cs, os, sep);
      var cmd, outcome := cmds[n], outcomes[n];
      assert !outcome.Failed?;
      var before := RenderAsWritten(cs, os, sep);
      assert RenderAsWritten(cmds, outcomes, sep) == Rendering(before.out + OutEntries(cmd, outcome, sep),
        before.err + ErrEntries(cmd, outcome, sep), before.stats + [StatsLine(cmd, outcome, sep)], false);
      assert StatsFile(cmds, outcomes, sep) == StatsFile(cs, os, sep) + [StatsLine(cmd, outcome, sep)];
      assert OutLog(cmds, outcomes, sep) == OutLog(cs, os, sep) + OutEntries(cmd, outcome, sep);
      assert ErrLog(cmds, outcomes, sep) == ErrLog(cs, os, sep) + ErrEntries(cmd, outcome, sep);
    }
  }

  /** Once the loop has crashed, later tasks change nothing. */
  lemma {:induction false} AsWrittenCrashPersists(cmds: seq<Invocation>, outcomes: seq<Outcome>, sep: string, m: nat)
    requires |cmds| == |outcomes| && m <= |cmds|
    requires RenderAsWritten(cmds[..m], outcomes[..m], sep).crashed
    ensures RenderAsWritten(cmds, outcomes, sep) == RenderAsWritten(cmds[..m], outcomes[..m], sep)
    decreases |cmds| - m
  {
    if m < |cmds| {
      var n := |cmds| - 1;
      assert cmds[..n][..m] == cmds[..m];
      assert outcomes[..n][..m] == outcomes[..m];
      AsWrittenCrashPersists(cmds[..n], outcomes[..n], sep, m);
    } else {
      assert cmds[..m] == cmds;
      assert outcomes[..m] == outcomes;
    }
  }

  /** As written, the first failed task k leaves the stats file with the header and the
      rows of the k tasks before it only: its own `;;True` row and every later row are
      missing. */
  lemma AsWrittenStopsAtFailure(cmds: seq<Invocation>, outcomes: seq<Outcome>, sep: string, k: nat)
    requires |cmds| == |outcomes| && k < |cmds|
    requires outcomes[k].Failed? && forall j :: 0 <= j < k ==> !outcomes[j].Failed?
    ensures RenderAsWritten(cmds, outcomes, sep).crashed
    ensures RenderAsWritten(cmds, outcomes, sep).stats == StatsFile(cmds[..k], outcomes[..k], sep)
    ensures |RenderAsWritten(cmds, outcomes, sep).stats| == k + 1 < |StatsFile(cmds, outcomes, sep)|
  {
    var cs, os := cmds[..k + 1], outcomes[..k + 1];
    assert cs[..k] == cmds[..k] && os[..k] == outcomes[..k];
    AsWrittenWithoutFailure(cmds[..k], outcomes[..k], sep);
    assert RenderAsWritten(cs, os, sep).crashed;
    AsWrittenCrashPersists(cmds, outcomes, sep, k + 1);
    StatsFileShape(cmds, outcomes, sep);
    StatsFileShape(cmds[..k], outcomes[..k], sep);
  }

  /** One missing executable is enough: the stats file gets the header and nothing
      else, and the stderr log only the quoted invocation. */
  lemma MissingExecutableLosesItsRow()
    ensures RenderAsWritten([["nosuchcmd"]], [Failed("[Errno 2] No such file or directory: 'nosuchcmd'")], "\n")
      == Rendering([], ["\"nosuchcmd\"\n"], ["cmd;time;error\n"], true)
  {
    var cmds: seq<Invocation> := [["nosuchcmd"]];
    assert cmds[..0] == [];
    assert Quote(["nosuchcmd"]) + "\n" == "\"nosuchcmd\"\n";
    assert Header + "\n" == "cmd;time;error\n";
  }
}
