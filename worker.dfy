/** The background worker of the final revision
    (embroidery_template_cleaner/core/worker.py): it runs the cleaning walk,
    forwards each event the walk yields to the update queue, answers each
    request with exactly one response from the response queue, and ends the
    conversation with exactly one terminal event.

    The forwarding itself happens where the walk yields (`World.Emit` puts a
    status update on the queue, `World.Ask` puts a request and takes its one
    response), so what is left here is the mapping of the walk's outcome to
    the terminal event. */
module Worker {
  import opened Wrappers
  import opened FileSystem
  import opened Events
  import opened World
  import Configuration
  import Cleaner

  /** `str(OperationAbortedError(...))` as raised on Abort. */
  const ABORTED := "User aborted the operation."
  const CRITICAL := "A critical error occurred: "

  /** `str(config.target_directory)`. */
  function TargetText(target: Option<Path>): string {
    if target.None? then "None" else PathString(target.value)
  }

  /** The conversation ended with one terminal event, and before it was
      settled and had no terminal event. */
  predicate Finished(t: seq<Exchange>) {
    && |t| > 0 && t[|t| - 1].Forwarded? && IsTerminal(t[|t| - 1].event)
    && Settled(t[..|t| - 1]) && NoTerminal(t[..|t| - 1])
  }

  /** A finished conversation holds exactly one terminal event: its last. */
  lemma OneTerminal(t: seq<Exchange>)
    requires Finished(t)
    ensures forall i :: 0 <= i < |t| && t[i].Forwarded? && IsTerminal(t[i].event) ==> i == |t| - 1
  {
    var s := t[..|t| - 1];
    NoTerminalEverywhere(s);
    forall i | 0 <= i < |t| - 1
      ensures !(t[i].Forwarded? && IsTerminal(t[i].event))
    {
      assert t[i] == s[i];
    }
  }

  /** Puts the terminal event on the update queue. */
  function Finish(w: World, e: Event): (w': World)
    requires Idle(w) && IsTerminal(e)
    ensures Progress(w, w') && w'.fs == w.fs && w'.taken == w.taken
    ensures w'.transcript == w.transcript + [Forwarded(e)]
    ensures Finished(w'.transcript)
  {
    var w' := w.(transcript := w.transcript + [Forwarded(e)]);
    assert w'.transcript[..|w'.transcript| - 1] == w.transcript;
    w'
  }

  /** The terminal event for how the cleaning walk ended, other than
      blocked: the result for a normal end, the abort message without a
      traceback for an Abort, and the prefixed message with the traceback
      for any other exception. */
  function TerminalEvent(out: Flow<nat>, target: Option<Path>, traceback: string): (e: Event)
    requires !out.Stuck?
    ensures IsTerminal(e)
    ensures e.CleaningResult? <==> out.Normal?
    ensures e.CleaningResult? ==> e.deletedFilesCount == out.value && e.targetDir == TargetText(target)
    ensures e == ErrorOccurred(ABORTED, None) <==> out.Aborted?
    ensures e.ErrorOccurred? && e.traceback == Some(traceback) <==> out.Crashed?
    ensures out.Crashed? ==> e.message == CRITICAL + CrashMessage(out.crash)
  {
    match out
    case Normal(count) => CleaningResult(count, TargetText(target))
    case Aborted => ErrorOccurred(ABORTED, None)
    case Crashed(crash) => ErrorOccurred(CRITICAL + CrashMessage(crash), Some(traceback))
  }

  /** `run_cleaning_task`. `traceback` stands for the text
      `traceback.format_exc()` would produce; `outcome` is how the cleaning
      walk ended. Blocked on an empty response queue, the worker puts no
      terminal event; otherwise it puts exactly one, last. */
  method RunCleaningTask(w: World, config: Configuration.Config, traceback: string)
    returns (w': World, ghost outcome: Flow<nat>, ghost snapshot: seq<Path>, ghost unlinked: seq<Path>)
    requires Idle(w) && WellFormed(w.fs)
    ensures Progress(w, w') && WellFormed(w'.fs) && w'.taken <= |w'.responses|
    ensures Records(w'.transcript, w'.responses[..w'.taken])
    ensures outcome.Stuck? ==> Channel(w', true)
    ensures !outcome.Stuck? ==>
              && Finished(w'.transcript)
              && w'.transcript[|w'.transcript| - 1] == Forwarded(TerminalEvent(outcome, config.targetDirectory, traceback))
    ensures outcome.Normal? ==> outcome.value == |unlinked|
    ensures config.targetDirectory.None? ==>
              w'.fs == w.fs && w'.transcript == w.transcript + [Forwarded(CleaningResult(0, "None"))]
    ensures Cleaner.UnlinkedFrom(unlinked, snapshot, w.fs, w'.fs, config.extensionsToDelete)
    ensures config.targetDirectory.Some? ==>
              && Cleaner.ScanOutcome(w, config.targetDirectory.value, w', snapshot)
              && Cleaner.DeletedOnly(w.fs, w'.fs, unlinked, config.targetDirectory.value)
    ensures config.targetDirectory.Some? && w.scanFault.Some? ==>
              outcome == Normal(0) && |w'.transcript| == |w.transcript| + 3
    ensures NoFaultsAhead(w) && outcome.Normal? ==>
              Cleaner.MatchingGone(w.fs, w'.fs, snapshot, config.extensionsToDelete)
    ensures !outcome.Stuck? ==> EndedBy(w, w'.transcript[..|w'.transcript| - 1], w'.taken, outcome)
  {
    var w1, out;
    w1, out, snapshot, unlinked := Cleaner.CleanDirectoryGenerator(w, config);
    outcome := out;
    if out.Stuck? {
      return w1, outcome, snapshot, unlinked;
    }
    w' := Finish(w1, TerminalEvent(out, config.targetDirectory, traceback));
    ProgressTransitive(w, w1, w');
    assert w'.transcript[..|w'.transcript| - 1] == w1.transcript;
    if config.targetDirectory.Some? {
      Recorded(w1.transcript, w'.transcript, |w.transcript|);
      Recorded(w1.transcript, w'.transcript, |w.transcript| + 1);
    }
  }
}
