/** What `future.result()` yields for one scheduled invocation, and how a script run
    can end early. The pool, the child processes and the clock are not modelled: an
    outcome is an input to the model. */
module Execution {
  import opened Options

  /** The outcome of one task: `Completed` stands for the tuple `execute` returns (the
      wall-clock duration, already rounded to hundredths of a second, and the decoded
      stdout and stderr); `TimedOut` for the pool's `TimeoutError`; `Failed` for any
      other exception, given by its text. */
  datatype Outcome =
    | Completed(centis: nat, stdout: string, stderr: string)
    | TimedOut
    | Failed(description: string)

  /** Why a script stops with a Python traceback instead of finishing. */
  datatype Crash =
    | UnboundLocal(name: string)
    | UncaughtException(description: string)

  /** The position of the first `Failed` outcome, if any. */
  function FirstFailure(outcomes: seq<Outcome>): (r: Option<nat>)
    ensures r.Some? ==> r.value < |outcomes| && outcomes[r.value].Failed?
    ensures r.Some? ==> forall j :: 0 <= j < r.value ==> !outcomes[j].Failed?
    ensures r.None? ==> forall j :: 0 <= j < |outcomes| ==> !outcomes[j].Failed?
    decreases |outcomes|
  {
    if outcomes == [] then None
    else if outcomes[0].Failed? then Some(0)
    else match FirstFailure(outcomes[1..])
      case None => None
      case Some(k) => Some(k + 1)
  }
}
