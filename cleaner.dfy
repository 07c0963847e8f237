/** The directory-cleaning walk of the final revision
    (embroidery_template_cleaner/core/cleaner.py).

    The Python code is a tree of generators that yield events and receive
    responses. Here each generator is a method that takes the world, puts
    its events on the update queue and takes its responses from the response
    queue itself, and returns the updated world with its outcome; a
    `yield from` is a call. `OperationAbortedError` is the `Aborted`
    outcome, an attribute error raised by a response of the wrong variant is
    `Crashed`, and a worker blocked on an empty response queue is `Stuck`. */
module Cleaner {
  import opened Wrappers
  import opened Names
  import opened FileSystem
  import opened Events
  import opened World
  import Configuration

  // ----- Matching -----

  /** A file whose lower-cased suffix is a display extension. */
  predicate IsDisplayFile(fs: FileSystem, p: Path) {
    IsFile(fs, p) && Lower(Suffix(Name(p))) in Configuration.DISPLAY_FILE_EXTENSIONS
  }

  predicate AllDisplay(fs: FileSystem, items: seq<Path>) {
    forall p :: p in items ==> IsDisplayFile(fs, p)
  }

  /** The deletion test: the lower-cased suffix or the lower-cased full name
      is one of the extensions. */
  predicate Matches(name: string, extensions: set<string>) {
    Lower(Suffix(name)) in extensions || Lower(name) in extensions
  }

  /** The display files among `items`, in order. */
  function DisplayFiles(fs: FileSystem, items: seq<Path>): (r: seq<Path>)
    ensures |r| <= |items|
    ensures forall p {:trigger p in r} :: p in r <==> p in items && IsDisplayFile(fs, p)
  {
    if items == [] then []
    else
      var rest := DisplayFiles(fs, items[1..]);
      if IsDisplayFile(fs, items[0]) then [items[0]] + rest else rest
  }

  /** Comparing lengths, as the oracle does, tells whether every item is a
      display file; then the display files are the items themselves. */
  lemma {:induction false} DisplayFilesAll(fs: FileSystem, items: seq<Path>)
    ensures |DisplayFiles(fs, items)| == |items| <==> AllDisplay(fs, items)
    ensures |DisplayFiles(fs, items)| == |items| ==> DisplayFiles(fs, items) == items
  {
    if AllDisplay(fs, items) {
      DisplayFilesKeepAll(fs, items);
    } else {
      DisplayFilesDropOne(fs, items);
    }
  }

  /** When every item is a display file, the filter keeps them all. */
  lemma {:induction false} DisplayFilesKeepAll(fs: FileSystem, items: seq<Path>)
    requires AllDisplay(fs, items)
    ensures DisplayFiles(fs, items) == items
  {
    if items != [] {
      assert AllDisplay(fs, items[1..]) by {
        forall p | p in items[1..]
          ensures p in items
        {
        }
      }
      DisplayFilesKeepAll(fs, items[1..]);
      assert items == [items[0]] + items[1..];
    }
  }

  /** When some item is not a display file, the filter drops at least one. */
  lemma {:induction false} DisplayFilesDropOne(fs: FileSystem, items: seq<Path>)
    requires !AllDisplay(fs, items)
    ensures |DisplayFiles(fs, items)| < |items|
  {
    if IsDisplayFile(fs, items[0]) {
      assert !AllDisplay(fs, items[1..]) by {
        forall p | p in items && p != items[0]
          ensures p in items[1..]
        {
        }
      }
      DisplayFilesDropOne(fs, items[1..]);
    }
  }

  // ----- Retry / Skip / Abort -----

  /** From position `k` on, `t` holds the requests the retry loop puts
      when attempts `n`, `n + 1`, … of `op` fail while the filesystem is
      `fs`: each carries the operation, the path and that attempt's error
      text, and is followed by one more step, its response. */
  predicate RetryLog(t: seq<Exchange>, k: nat, n: nat, faults: seq<Fault>, fs: FileSystem, op: Mutation, description: Operation)
    decreases |t| - k
  {
    k >= |t| ||
    (&& AttemptError(faults, n, fs, op).Some?
     && t[k] == Forwarded(RequestRetrySkipAbort(description, PathString(op.path), AttemptError(faults, n, fs, op).value))
     && (k + 1 >= |t| || RetryLog(t, k + 2, n + 1, faults, fs, op, description)))
  }

  /** A log of `m` answered requests followed by the log of the attempts
      after them is one log. */
  lemma {:induction false} RetryLogChain(t1: seq<Exchange>, t2: seq<Exchange>, k: nat, n: nat, m: nat,
                                          faults: seq<Fault>, fs: FileSystem, op: Mutation, description: Operation)
    requires t1 <= t2 && k + 2 * m == |t1|
    requires RetryLog(t1, k, n, faults, fs, op, description) && RetryLog(t2, |t1|, n + m, faults, fs, op, description)
    ensures RetryLog(t2, k, n, faults, fs, op, description)
    decreases m
  {
    if m > 0 {
      RetryLogChain(t1, t2, k + 2, n + 1, m - 1, faults, fs, op, description);
      assert t2[k] == t1[k];
    }
  }

  /** The request about a failed attempt, with or without its response, is
      a log of that attempt. */
  lemma RetryLogStep(t: seq<Exchange>, n: nat, faults: seq<Fault>, fs: FileSystem, op: Mutation, description: Operation, response: Response)
    requires AttemptError(faults, n, fs, op).Some?
    ensures var request := Forwarded(RequestRetrySkipAbort(description, PathString(op.path), AttemptError(faults, n, fs, op).value));
      && RetryLog(t + [request], |t|, n, faults, fs, op, description)
      && RetryLog(t + [request, Answered(response)], |t|, n, faults, fs, op, description)
  {
    var request := Forwarded(RequestRetrySkipAbort(description, PathString(op.path), AttemptError(faults, n, fs, op).value));
    assert (t + [request])[|t|] == request;
    assert (t + [request, Answered(response)])[|t|] == request;
    assert RetryLog(t + [request, Answered(response)], |t| + 2, n + 1, faults, fs, op, description);
  }

  /** What the retry loop makes of the response it took: `None` to attempt
      again, otherwise how the operation ends. */
  function Decide(response: Response): (r: Option<Flow<bool>>)
    ensures r.None? <==> response == RetrySkipAbortResponse(Retry)
    ensures r == Some(Normal(false)) <==> response == RetrySkipAbortResponse(Skip)
    ensures r == Some(Aborted) <==> response == RetrySkipAbortResponse(Abort)
    ensures r == Some(Crashed(NoChoice)) <==> response.UserConfirmationResponse?
    ensures r != Some(Normal(true)) && r != Some(Stuck)
  {
    match response
    case UserConfirmationResponse(_) => Some(Crashed(NoChoice))
    case RetrySkipAbortResponse(choice) =>
      match choice
      case Abort => Some(Aborted)
      case Skip => Some(Normal(false))
      case Retry => None
  }

  /** Every response taken, `responses[from..to]`, asked to retry, except
      that the last one ended the operation when it neither succeeded nor
      blocked. */
  predicate RetriesThen(responses: seq<Response>, from: nat, to: nat, out: Flow<bool>)
    requires from <= to <= |responses|
  {
    if out == Normal(true) || out.Stuck? then
      forall i :: from <= i < to ==> responses[i] == RetrySkipAbortResponse(Retry)
    else
      && from < to
      && (forall i :: from <= i < to - 1 ==> responses[i] == RetrySkipAbortResponse(Retry))
      && Decide(responses[to - 1]) == Some(out)
  }

  /** One pass of the retry loop: attempt the mutation; after a failure put
      one request carrying the error on the queue and take one response.
      `None` means the response asked to retry. */
  method RetryPass(w: World, op: Mutation, description: Operation) returns (w': World, out: Option<Flow<bool>>)
    requires Idle(w) && WellFormed(w.fs)
    ensures Progress(w, w') && WellFormed(w'.fs) && Channel(w', out == Some(Stuck))
    ensures w'.attempts == w.attempts + 1
    ensures out == Some(Normal(true)) <==> AttemptError(w.faults, w.attempts, w.fs, op).None?
    ensures out == Some(Normal(true)) ==> RealError(w.fs, op).None? && w'.fs == Remove(w.fs, op.path)
    ensures out != Some(Normal(true)) ==> w'.fs == w.fs
    ensures out == Some(Normal(true)) ==> w'.transcript == w.transcript && w'.taken == w.taken
    ensures RetryLog(w'.transcript, |w.transcript|, w.attempts, w.faults, w.fs, op, description)
    ensures out == Some(Stuck) ==> w'.taken == w.taken && |w'.transcript| == |w.transcript| + 1
    ensures out != Some(Normal(true)) && out != Some(Stuck) ==>
              && w'.taken == w.taken + 1 && |w'.transcript| == |w.transcript| + 2
              && Decide(w.responses[w.taken]) == out
    ensures out.Some? ==> EndedBy(w, w'.transcript, w'.taken, out.value)
  {
    var (w1, err) := Attempt(w, op);
    if err.None? {
      return w1, Some(Normal(true));
    }
    w', out := AskAfterFailure(w1, op.path, description, err.value);
    ProgressTransitive(w, w1, w');
    RetryLogStep(w.transcript, w.attempts, w.faults, w.fs, op, description,
                 if w'.taken > w.taken then w.responses[w.taken] else RetrySkipAbortResponse(Retry));
  }

  /** The failure half of a pass: put one Retry/Skip/Abort request carrying
      the error on the queue and decide on the one response taken. */
  method AskAfterFailure(w: World, path: Path, description: Operation, error: string) returns (w': World, out: Option<Flow<bool>>)
    requires Idle(w)
    ensures Progress(w, w') && w'.fs == w.fs && Channel(w', out == Some(Stuck))
    ensures w'.attempts == w.attempts
    ensures |w'.transcript| > |w.transcript|
    ensures w'.transcript[|w.transcript|] == Forwarded(RequestRetrySkipAbort(description, PathString(path), error))
    ensures out == Some(Stuck) ==> w'.taken == w.taken && |w'.transcript| == |w.transcript| + 1
    ensures out != Some(Stuck) ==>
              && w'.taken == w.taken + 1 && Decide(w.responses[w.taken]) == out
              && w'.transcript == w.transcript + [Forwarded(RequestRetrySkipAbort(description, PathString(path), error)),
                                                  Answered(w.responses[w.taken])]
    ensures out.Some? ==> EndedBy(w, w'.transcript, w'.taken, out.value)
  {
    var request := RequestRetrySkipAbort(description, PathString(path), error);
    var (w1, response) := Ask(w, request);
    w' := w1;
    if response.None? {
      return w', Some(Stuck);
    }
    out := Decide(response.value);
  }

  /** The retry loop's state after the passes from `w` to `w'`, all of
      which failed and were answered with Retry. */
  predicate Retrying(w: World, w': World, op: Mutation, description: Operation) {
    && Progress(w, w') && WellFormed(w'.fs) && Idle(w')
    && w'.fs == w.fs
    && (NextFault(w).NoFault? && RealError(w.fs, op).None? ==> w' == w)
    && (forall i :: w.taken <= i < w'.taken ==> w.responses[i] == RetrySkipAbortResponse(Retry))
    && RetryLog(w'.transcript, |w.transcript|, w.attempts, w.faults, w.fs, op, description)
    && |w'.transcript| == |w.transcript| + 2 * (w'.taken - w.taken)
    && w'.attempts == w.attempts + (w'.taken - w.taken)
  }

  /** How the retry loop from `w` ended in `w1` with `out`. */
  predicate RetryOutcome(w: World, w1: World, op: Mutation, description: Operation, out: Flow<bool>) {
    && Progress(w, w1) && WellFormed(w1.fs) && Channel(w1, out.Stuck?)
    && (out == Normal(true) ==> RealError(w.fs, op).None? && w1.fs == Remove(w.fs, op.path))
    && (out != Normal(true) ==> w1.fs == w.fs)
    && (NextFault(w).NoFault? && RealError(w.fs, op).None? ==>
          out == Normal(true) && w1.transcript == w.transcript && w1.taken == w.taken)
    && RetriesThen(w.responses, w.taken, w1.taken, out)
    && RetryLog(w1.transcript, |w.transcript|, w.attempts, w.faults, w.fs, op, description)
    && |w1.transcript| == |w.transcript| + 2 * (w1.taken - w.taken) + (if out.Stuck? then 1 else 0)
    && w1.attempts == w.attempts + (w1.taken - w.taken) + (if out == Normal(true) || out.Stuck? then 1 else 0)
    && EndedBy(w, w1.transcript, w1.taken, out)
  }

  /** One more pass of the retry loop, seen from where the operation began:
      a pass answered with Retry keeps the loop's state; any other pass
      ends the operation as `RetryableOperation` promises. */
  method RetryRound(w: World, w0: World, op: Mutation, description: Operation)
    returns (w1: World, decided: Option<Flow<bool>>)
    requires WellFormed(w.fs) && Retrying(w, w0, op, description)
    ensures decided.None? ==> Retrying(w, w1, op, description) && w1.taken > w0.taken
    ensures decided.Some? ==> RetryOutcome(w, w1, op, description, decided.value)
  {
    w1, decided := RetryPass(w0, op, description);
    ProgressTransitive(w, w0, w1);
    RetryLogChain(w0.transcript, w1.transcript, |w.transcript|, w.attempts, w0.taken - w.taken, w.faults, w.fs, op, description);
    if decided.Some? {
      RetryDecided(w, w0, w1, op, description, decided.value);
    }
  }

  /** A pass that did not end with Retry ends the retry loop. */
  lemma RetryDecided(w: World, w0: World, w1: World, op: Mutation, description: Operation, out: Flow<bool>)
    requires Retrying(w, w0, op, description) && Progress(w, w1) && WellFormed(w1.fs) && Channel(w1, out.Stuck?)
    requires w1.attempts == w0.attempts + 1
    requires out == Normal(true) <==> AttemptError(w0.faults, w0.attempts, w0.fs, op).None?
    requires out == Normal(true) ==> RealError(w0.fs, op).None? && w1.fs == Remove(w0.fs, op.path)
    requires out != Normal(true) ==> w1.fs == w0.fs
    requires out == Normal(true) ==> w1.transcript == w0.transcript && w1.taken == w0.taken
    requires RetryLog(w1.transcript, |w.transcript|, w.attempts, w.faults, w.fs, op, description)
    requires out.Stuck? ==> w1.taken == w0.taken && |w1.transcript| == |w0.transcript| + 1
    requires out != Normal(true) && !out.Stuck? ==>
               && w1.taken == w0.taken + 1 && |w1.transcript| == |w0.transcript| + 2
               && Decide(w0.responses[w0.taken]) == Some(out)
    requires EndedBy(w0, w1.transcript, w1.taken, out)
    ensures RetryOutcome(w, w1, op, description, out)
  {
    EndedBySince<bool, bool>(w, w0, w1.transcript, w1.taken, out);
    if NextFault(w).NoFault? && RealError(w.fs, op).None? {
      assert w0 == w && AttemptError(w.faults, w.attempts, w.fs, op).None?;
    }
    if out != Normal(true) && !out.Stuck? {
      assert w1.taken == w0.taken + 1 && Decide(w.responses[w0.taken]) == Some(out);
    }
  }

  /** `_retryable_operation_generator`: attempt the mutation until it
      succeeds, asking after each failure, with that attempt's error, whether
      to retry, skip or abort. */
  method RetryableOperation(w: World, op: Mutation, description: Operation) returns (w': World, out: Flow<bool>)
    requires Idle(w) && WellFormed(w.fs)
    ensures Progress(w, w') && WellFormed(w'.fs) && Channel(w', out.Stuck?)
    ensures out == Normal(true) ==> RealError(w.fs, op).None? && w'.fs == Remove(w.fs, op.path)
    ensures out != Normal(true) ==> w'.fs == w.fs
    ensures NextFault(w).NoFault? && RealError(w.fs, op).None? ==>
              out == Normal(true) && w'.transcript == w.transcript && w'.taken == w.taken
    ensures RetriesThen(w.responses, w.taken, w'.taken, out)
    ensures RetryLog(w'.transcript, |w.transcript|, w.attempts, w.faults, w.fs, op, description)
    ensures |w'.transcript| == |w.transcript| + 2 * (w'.taken - w.taken) + (if out.Stuck? then 1 else 0)
    ensures w'.attempts == w.attempts + (w'.taken - w.taken) + (if out == Normal(true) || out.Stuck? then 1 else 0)
    ensures EndedBy(w, w'.transcript, w'.taken, out)
  {
    w' := w;
    ProgressReflexive(w);
    while true
      invariant Retrying(w, w', op, description)
      decreases |w'.responses| - w'.taken
    {
      var w1, decided := RetryRound(w, w', op, description);
      if decided.Some? {
        w', out := w1, decided.value;
        return;
      }
      w' := w1;
    }
  }

  // ----- The emptiness oracle -----

  /** In a well-formed filesystem, if every entry of `d` is a display file,
      then whatever disappeared strictly below `d` was one of them. */
  lemma RemovedAreDisplayChildren(fs0: FileSystem, fs1: FileSystem, d: Path)
    requires WellFormed(fs0) && AllDisplay(fs0, Children(fs0, d)) && KeptOutside(fs0, fs1, d)
    ensures forall p :: p in fs0.nodes && p !in fs1.nodes ==> p in Children(fs0, d)
  {
    forall p | p in fs0.nodes && p !in fs1.nodes
      ensures p in Children(fs0, d)
    {
      UnderChild(fs0, d, p);
      assert IsDisplayFile(fs0, p[..|d| + 1]);
      assert p == p[..|d| + 1];
    }
  }

  /** Once every entry a directory listed is gone, it lists nothing. */
  lemma ChildrenGone(fs0: FileSystem, fs1: FileSystem, d: Path)
    requires WellFormed(fs0) && WellFormed(fs1) && Shrunk(fs0, fs1)
    requires forall p :: p in Children(fs0, d) ==> p !in fs1.nodes
    ensures Children(fs1, d) == []
  {
    forall c | c in fs1.nodes && c != []
      ensures Parent(c) != d
    {
      assert c in fs0.nodes && c in fs0.order;
    }
    ChildrenEmpty(fs1, d);
  }

  /** The confirmation request the oracle puts for `d`. */
  function Confirmation(fs: FileSystem, d: Path): Event {
    RequestConfirmation(PathString(d), EntryNames(Children(fs, d)))
  }

  /** How the confirmation step ends, by the response it takes. */
  predicate ConfirmOutcome(w: World, d: Path, w': World, out: Flow<bool>) {
    var k := |w.transcript|;
    && |w'.transcript| > k && w'.transcript[k] == Forwarded(Confirmation(w.fs, d))
    && IsDir(w'.fs, d)
    && (forall p :: p in w.fs.nodes && p !in w'.fs.nodes ==> p in Children(w.fs, d))
    && (w.taken == |w.responses| ==> out.Stuck? && w'.fs == w.fs)
    && (w.taken < |w.responses| ==>
          match w.responses[w.taken]
          case RetrySkipAbortResponse(_) =>
            out == Crashed(NoAccepted) && w'.fs == w.fs
          case UserConfirmationResponse(false) =>
            && out == Normal(false) && w'.fs == w.fs
            && w'.transcript == w.transcript + [Forwarded(Confirmation(w.fs, d)), Answered(UserConfirmationResponse(false)),
                                                Forwarded(StatusUpdate(SkippingDisplay(Name(d))))]
          case UserConfirmationResponse(true) =>
            && |w'.transcript| > k + 2
            && w'.transcript[k + 2] == Forwarded(StatusUpdate(DeletingDisplay(Name(d))))
            && (out.Normal? ==> (out.value <==> Children(w'.fs, d) == []))
            && (NoFaultsAhead(w) && out.Normal? ==> out.value && forall p :: p in Children(w.fs, d) ==> p !in w'.fs.nodes))
  }

  /** The declined branch of `ConfirmOutcome`: the skip is announced and
      nothing else happens. */
  lemma DeclinedOutcome(w: World, d: Path, w1: World, w': World)
    requires w.taken < |w.responses| && w.responses[w.taken] == UserConfirmationResponse(false)
    requires w1.transcript == w.transcript + [Forwarded(Confirmation(w.fs, d)), Answered(w.responses[w.taken])]
    requires w1.fs == w.fs && IsDir(w.fs, d) && Idle(w1)
    requires w' == Emit(w1, SkippingDisplay(Name(d)))
    ensures ConfirmOutcome(w, d, w', Normal(false))
  {
    assert w'.transcript == w.transcript + [Forwarded(Confirmation(w.fs, d)), Answered(UserConfirmationResponse(false)),
                                            Forwarded(StatusUpdate(SkippingDisplay(Name(d))))];
  }

  /** The accepted branch of `ConfirmOutcome`, from what the deletion of
      the display files ensures. */
  lemma AcceptedOutcome(w: World, d: Path, w1: World, w': World, out: Flow<bool>)
    requires w.taken < |w.responses| && w.responses[w.taken] == UserConfirmationResponse(true)
    requires w1.transcript == w.transcript + [Forwarded(Confirmation(w.fs, d)), Answered(w.responses[w.taken])]
    requires w1.fs == w.fs && w1.attempts == w.attempts && w1.faults == w.faults
    requires w1.transcript <= w'.transcript && |w'.transcript| > |w1.transcript|
    requires w'.transcript[|w1.transcript|] == Forwarded(StatusUpdate(DeletingDisplay(Name(d))))
    requires IsDir(w'.fs, d) && forall p :: p in w.fs.nodes && p !in w'.fs.nodes ==> p in Children(w.fs, d)
    requires out.Normal? ==> (out.value <==> Children(w'.fs, d) == [])
    requires NoFaultsAhead(w1) && out.Normal? ==> out.value && forall p :: p in Children(w.fs, d) ==> p !in w'.fs.nodes
    ensures ConfirmOutcome(w, d, w', out)
  {
    Recorded(w1.transcript, w'.transcript, |w.transcript|);
  }

  /** Lines 78-85 of the oracle: `d` holds only display files; ask whether
      to delete them. */
  method ConfirmDisplayDeletion(w: World, d: Path) returns (w': World, out: Flow<bool>)
    requires Idle(w) && WellFormed(w.fs)
    requires IsDir(w.fs, d) && AllDisplay(w.fs, Children(w.fs, d))
    ensures Progress(w, w') && WellFormed(w'.fs) && Channel(w', out.Stuck?)
    ensures ConfirmOutcome(w, d, w', out)
    ensures EndedBy(w, w'.transcript, w'.taken, out)
    decreases |w.responses| - w.taken, 0
  {
    var (w1, response) := Ask(w, Confirmation(w.fs, d));
    if response.None? {
      return w1, Stuck;
    }
    assert response.value == w.responses[w.taken];
    if response.value.RetrySkipAbortResponse? {
      EndedByAnswer<bool>(w, Confirmation(w.fs, d), w1, Crashed(NoAccepted));
      return w1, Crashed(NoAccepted);
    }
    if !response.value.accepted {
      w' := Emit(w1, SkippingDisplay(Name(d)));
      ProgressTransitive(w, w1, w');
      DeclinedOutcome(w, d, w1, w');
      return w', Normal(false);
    }
    w', out := DeleteDisplayFiles(w1, d);
    ProgressTransitive(w, w1, w');
    AcceptedOutcome(w, d, w1, w', out);
    EndedBySince<bool, bool>(w, w1, w'.transcript, w'.taken, out);
  }

  /** Lines 87-99 of the oracle: announce, delete the display files that
      are all `d` holds, and report whether `d` is now empty. */
  method DeleteDisplayFiles(w: World, d: Path) returns (w': World, out: Flow<bool>)
    requires Idle(w) && WellFormed(w.fs)
    requires IsDir(w.fs, d) && AllDisplay(w.fs, Children(w.fs, d))
    ensures Progress(w, w') && WellFormed(w'.fs) && Channel(w', out.Stuck?)
    ensures |w'.transcript| > |w.transcript|
    ensures w'.transcript[|w.transcript|] == Forwarded(StatusUpdate(DeletingDisplay(Name(d))))
    ensures IsDir(w'.fs, d)
    ensures forall p :: p in w.fs.nodes && p !in w'.fs.nodes ==> p in Children(w.fs, d)
    ensures out.Normal? ==> (out.value <==> Children(w'.fs, d) == [])
    ensures NoFaultsAhead(w) && out.Normal? ==> out.value && forall p :: p in Children(w.fs, d) ==> p !in w'.fs.nodes
    ensures EndedBy(w, w'.transcript, w'.taken, out)
    decreases |w.responses| - w.taken, 9
  {
    var display := Children(w.fs, d);
    var w1 := Emit(w, DeletingDisplay(Name(d)));
    assert forall p :: p in display ==> StrictlyBelow(d, p);
    var w2, deleted, _ := DeleteMatchingFiles(w1, display, d, Configuration.DISPLAY_FILE_EXTENSIONS);
    ProgressTransitive(w, w1, w2);
    Recorded(w1.transcript, w2.transcript, |w.transcript|);
    RemovedAreDisplayChildren(w.fs, w2.fs, d);
    w' := w2;
    if !deleted.Normal? {
      return w', Propagate(deleted);
    }
    if NoFaultsAhead(w) {
      NoFaultsLater(w, w1);
      ChildrenGone(w.fs, w'.fs, d);
    }
    var empty := Children(w'.fs, d) == [];
    return w', Normal(empty);
  }

  /** `d` is a readable directory whose entries are all display files, so
      the oracle asks about it. */
  predicate AsksAbout(w: World, d: Path) {
    IsDir(w.fs, d) && d !in w.unreadable && Children(w.fs, d) != [] && AllDisplay(w.fs, Children(w.fs, d))
  }

  /** `_is_directory_empty_and_confirm`: is `d` an empty directory, or does
      it become one once the user agrees to delete the display files that
      are all it holds? */
  method IsDirectoryEmptyAndConfirm(w: World, d: Path) returns (w': World, out: Flow<bool>)
    requires Idle(w) && WellFormed(w.fs)
    ensures Progress(w, w') && WellFormed(w'.fs) && Channel(w', out.Stuck?)
    ensures forall p :: p in w.fs.nodes && p !in w'.fs.nodes ==> IsDisplayFile(w.fs, p) && p != [] && Parent(p) == d
    ensures out.Normal? ==> (out.value <==> IsDir(w'.fs, d) && d !in w.unreadable && Children(w'.fs, d) == [])
    ensures !IsDir(w.fs, d) ==> out == Normal(false) && w' == w
    ensures IsDir(w.fs, d) && d in w.unreadable ==>
              out == Normal(false) && w' == Emit(w, UnreadableSkipped(PathString(d)))
    ensures IsDir(w.fs, d) && d !in w.unreadable && Children(w.fs, d) == [] ==> out == Normal(true) && w' == w
    ensures IsDir(w.fs, d) && d !in w.unreadable && !AllDisplay(w.fs, Children(w.fs, d)) ==>
              out == Normal(false) && w' == w
    ensures AsksAbout(w, d) ==> ConfirmOutcome(w, d, w', out)
    ensures EndedBy(w, w'.transcript, w'.taken, out)
    decreases |w.responses| - w.taken, 1
  {
    if !IsDir(w.fs, d) {
      ProgressReflexive(w);
      return w, Normal(false);
    }
    if d in w.unreadable {
      w' := Emit(w, UnreadableSkipped(PathString(d)));
      return w', Normal(false);
    }
    var items := Children(w.fs, d);
    ProgressReflexive(w);
    if items == [] {
      return w, Normal(true);
    }
    var display := DisplayFiles(w.fs, items);
    DisplayFilesAll(w.fs, items);
    if |display| != |items| {
      return w, Normal(false);
    }
    w', out := ConfirmDisplayDeletion(w, d);
  }

  // ----- Pruning emptied directories -----

  /** Each directory after the first is the parent of the one before, which
      `top` was a proper ancestor of. */
  predicate ParentChain(visited: seq<Path>, top: Path)
    decreases |visited|
  {
    |visited| <= 1 ||
    (&& ParentChain(visited[..|visited| - 1], top)
     && StrictlyBelow(top, visited[|visited| - 2])
     && visited[|visited| - 1] == Parent(visited[|visited| - 2]))
  }

  /** What a walk from `anchor` up to below `top` may have removed: display
      files directly inside a visited directory, and visited directories
      strictly below `top`. */
  predicate PrunedOnly(fs0: FileSystem, fs1: FileSystem, visited: seq<Path>, top: Path) {
    forall p :: p in fs0.nodes && p !in fs1.nodes ==>
      || (IsDisplayFile(fs0, p) && p != [] && Parent(p) in visited)
      || (fs0.nodes[p] == Dir && StrictlyBelow(top, p) && p in visited)
  }

  /** If every visited directory is `top` or below it, so is everything
      pruned. */
  lemma PrunedOnlyKeepsOutside(fs0: FileSystem, fs1: FileSystem, visited: seq<Path>, top: Path)
    requires PrunedOnly(fs0, fs1, visited, top)
    requires forall v :: v in visited ==> AtOrBelow(top, v)
    ensures KeptOutside(fs0, fs1, top)
  {
    forall p | p in fs0.nodes && p !in fs1.nodes
      ensures StrictlyBelow(top, p)
    {
      if !(fs0.nodes[p] == Dir && StrictlyBelow(top, p) && p in visited) {
        var v := Parent(p);
        assert AtOrBelow(top, v);
        assert p[..|v|] == v;
        assert p[..|top|] == v[..|top|];
      }
    }
  }

  /** What one step of the walk removes: display files directly in
      `current`, then possibly `current` itself when `top` is a proper
      ancestor of it. */
  lemma PrunedByStep(fs0: FileSystem, fs1: FileSystem, fs2: FileSystem, current: Path, top: Path)
    requires Shrunk(fs0, fs1)
    requires forall p :: p in fs0.nodes && p !in fs1.nodes ==> IsDisplayFile(fs0, p) && p != [] && Parent(p) == current
    requires fs2 == fs1 || (IsDir(fs1, current) && StrictlyBelow(top, current) && fs2 == Remove(fs1, current))
    ensures PrunedOnly(fs0, fs2, [current], top)
  {
  }

  /** A directory the walk moved up from: gone, or (its `rmdir` skipped)
      still a directory with nothing in it. */
  predicate EmptiedOrGone(fs: FileSystem, v: Path) {
    v !in fs.nodes || (IsDir(fs, v) && !HasChild(fs, v))
  }

  /** One step of the walk: ask the oracle about `current` (its verdict is
      `reported`); when it is empty and strictly below `top`, remove it.
      `None` means walk on to the parent; otherwise the walk ends with that
      outcome. */
  method PruneStep(w: World, current: Path, top: Path) returns (w': World, out: Option<Flow<()>>, ghost reported: Flow<bool>)
    requires Idle(w) && WellFormed(w.fs)
    ensures Progress(w, w') && WellFormed(w'.fs) && Channel(w', out == Some(Stuck))
    ensures StepOutcome(w, current, top, w', out, reported)
    decreases |w.responses| - w.taken, 2
  {
    var w1, empty := IsDirectoryEmptyAndConfirm(w, current);
    reported := empty;
    w', out := ActOnVerdict(w, w1, current, top, empty);
  }

  /** What one step of the walk from `w` to `w'` guarantees, `reported`
      being the oracle's verdict on `current`. */
  predicate StepOutcome(w: World, current: Path, top: Path, w': World, out: Option<Flow<()>>, reported: Flow<bool>) {
    && PrunedOnly(w.fs, w'.fs, [current], top)
    && (out.Some? && out.value.Normal? ==>
          !StrictlyBelow(top, current) || !IsDir(w'.fs, current) || current in w.unreadable || Children(w'.fs, current) != [])
    && (out.Some? ==> EndedBy(w, w'.transcript, w'.taken, out.value))
    && (!reported.Normal? ==> out == Some(Propagate(reported)))
    && (reported == Normal(true) ==> IsDir(w.fs, current) && current !in w.unreadable)
    && (reported == Normal(false) || !StrictlyBelow(top, current) ==> out.Some?)
    && (reported == Normal(true) && StrictlyBelow(top, current) && NoFaultsAhead(w) ==>
          out.None? && current !in w'.fs.nodes)
    && (out.None? ==> reported == Normal(true) && StrictlyBelow(top, current) && EmptiedOrGone(w'.fs, current))
    && (reported == Normal(true) && !StrictlyBelow(top, current) ==>
          |w'.transcript| > |w.transcript| && w'.transcript[|w'.transcript| - 1] == Forwarded(StatusUpdate(StoppingWalk)))
  }

  /** A verdict other than empty ends the walk where it is. */
  lemma StopOnVerdict(w: World, w1: World, current: Path, top: Path, empty: Flow<bool>, stop: Flow<()>)
    requires Progress(w, w1)
    requires forall p :: p in w.fs.nodes && p !in w1.fs.nodes ==> IsDisplayFile(w.fs, p) && p != [] && Parent(p) == current
    requires empty.Normal? ==> (empty.value <==> IsDir(w1.fs, current) && current !in w.unreadable && Children(w1.fs, current) == [])
    requires EndedBy(w, w1.transcript, w1.taken, empty)
    requires empty == Normal(false) || !empty.Normal?
    requires stop == if empty.Normal? then Normal(()) else Propagate(empty)
    ensures StepOutcome(w, current, top, w1, Some(stop), empty)
  {
    PrunedByStep(w.fs, w1.fs, w1.fs, current, top);
    ProgressReflexive(w);
    EndedBySince<bool, ()>(w, w, w1.transcript, w1.taken, empty);
  }

  /** Lines 110-119 of the walk: act on the oracle's verdict `empty` on
      `current`, given in `w1`. */
  method ActOnVerdict(w: World, w1: World, current: Path, top: Path, empty: Flow<bool>) returns (w': World, out: Option<Flow<()>>)
    requires Progress(w, w1) && WellFormed(w1.fs) && Channel(w1, empty.Stuck?)
    requires forall p :: p in w.fs.nodes && p !in w1.fs.nodes ==> IsDisplayFile(w.fs, p) && p != [] && Parent(p) == current
    requires empty.Normal? ==> (empty.value <==> IsDir(w1.fs, current) && current !in w.unreadable && Children(w1.fs, current) == [])
    requires EndedBy(w, w1.transcript, w1.taken, empty)
    ensures Progress(w, w') && WellFormed(w'.fs) && Channel(w', out == Some(Stuck))
    ensures StepOutcome(w, current, top, w', out, empty)
  {
    if !empty.Normal? || !empty.value {
      out := Some(if empty.Normal? then Normal(()) else Propagate(empty));
      StopOnVerdict(w, w1, current, top, empty, out.value);
      return w1, out;
    }
    if !StrictlyBelow(top, current) {
      w' := Emit(w1, StoppingWalk);
      ProgressTransitive(w, w1, w');
      PrunedByStep(w.fs, w1.fs, w'.fs, current, top);
      return w', Some(Normal(()));
    }
    ChildrenEmpty(w1.fs, current);
    w', out := RemoveEmptyDirectory(w1, current);
    ProgressTransitive(w, w1, w');
    RemovedOnVerdict(w, w1, w', current, top, out);
  }

  /** An empty verdict strictly below `top` removes `current`, unless the
      removal is skipped or ends the walk. */
  lemma RemovedOnVerdict(w: World, w1: World, w': World, current: Path, top: Path, out: Option<Flow<()>>)
    requires Progress(w, w1) && Progress(w1, w')
    requires forall p :: p in w.fs.nodes && p !in w1.fs.nodes ==> IsDisplayFile(w.fs, p) && p != [] && Parent(p) == current
    requires IsDir(w1.fs, current) && current !in w.unreadable && !HasChild(w1.fs, current) && StrictlyBelow(top, current)
    requires out.None? || out == Some(Aborted) || out == Some(Stuck) || out == Some(Crashed(NoChoice))
    requires w'.fs == w1.fs || w'.fs == Remove(w1.fs, current)
    requires NextFault(w1).NoFault? ==> out.None? && w'.fs == Remove(w1.fs, current)
    requires out.Some? ==> EndedBy(w1, w'.transcript, w'.taken, out.value)
    ensures StepOutcome(w, current, top, w', out, Normal(true))
  {
    if NoFaultsAhead(w) {
      NoFaultsLater(w, w1);
    }
    PrunedByStep(w.fs, w1.fs, w'.fs, current, top);
    if out.Some? {
      EndedBySince<(), ()>(w, w1, w'.transcript, w'.taken, out.value);
    }
  }

  /** Lines 114-119 of the walk: announce and remove `current`. A skipped
      `rmdir` does not stop the walk (`None`). */
  method RemoveEmptyDirectory(w: World, current: Path) returns (w': World, out: Option<Flow<()>>)
    requires Idle(w) && WellFormed(w.fs)
    ensures Progress(w, w') && WellFormed(w'.fs) && Channel(w', out == Some(Stuck))
    ensures out.None? || out == Some(Aborted) || out == Some(Stuck) || out == Some(Crashed(NoChoice))
    ensures w'.fs == w.fs || (IsDir(w.fs, current) && !HasChild(w.fs, current) && w'.fs == Remove(w.fs, current))
    ensures |w'.transcript| > |w.transcript|
    ensures w'.transcript[|w.transcript|] == Forwarded(StatusUpdate(RemovingDirectory(PathString(current))))
    ensures NextFault(w).NoFault? && IsDir(w.fs, current) && !HasChild(w.fs, current) ==>
              out.None? && w'.fs == Remove(w.fs, current) && |w'.transcript| == |w.transcript| + 1
    ensures out.Some? ==> EndedBy(w, w'.transcript, w'.taken, out.value)
  {
    var w1 := Emit(w, RemovingDirectory(PathString(current)));
    var w2, removed := RetryableOperation(w1, Rmdir(current), RemovingDirectoryNamed(Name(current)));
    ProgressTransitive(w, w1, w2);
    Recorded(w1.transcript, w2.transcript, |w.transcript|);
    w' := w2;
    if !removed.Normal? {
      return w', Some(Propagate(removed));
    }
    out := None;
  }

  /** Growing the removal record by one more step of the walk. */
  lemma PrunedOnlyStep(fs0: FileSystem, fs1: FileSystem, fs2: FileSystem, visited: seq<Path>, top: Path)
    requires |visited| > 0 && Shrunk(fs0, fs1)
    requires PrunedOnly(fs0, fs1, visited, top) && PrunedOnly(fs1, fs2, [visited[|visited| - 1]], top)
    ensures PrunedOnly(fs0, fs2, visited, top)
  {
    forall p | p in fs0.nodes && p !in fs2.nodes
      ensures || (IsDisplayFile(fs0, p) && p != [] && Parent(p) in visited)
              || (fs0.nodes[p] == Dir && StrictlyBelow(top, p) && p in visited)
    {
      if p in fs1.nodes {
        assert fs1.nodes[p] == fs0.nodes[p];
      }
    }
  }

  /** Moving the walk up to the parent of the last visited directory, which
      `top` is a proper ancestor of, keeps the walk's invariants. */
  lemma WalkUp(fs0: FileSystem, fs1: FileSystem, visited: seq<Path>, top: Path)
    requires |visited| > 0 && StrictlyBelow(top, visited[|visited| - 1])
    requires ParentChain(visited, top) && PrunedOnly(fs0, fs1, visited, top)
    ensures var more := visited + [Parent(visited[|visited| - 1])];
      && ParentChain(more, top) && PrunedOnly(fs0, fs1, more, top)
      && AtOrBelow(top, more[|more| - 1])
  {
    var more := visited + [Parent(visited[|visited| - 1])];
    assert more[..|more| - 1] == visited;
  }

  /** Later steps of the walk only remove entries, so the directories it
      moved up from stay as `EmptiedOrGone` says, and those gone stay gone. */
  lemma PassedStep(fs0: FileSystem, fs1: FileSystem, passed: seq<Path>, gone: bool)
    requires Shrunk(fs0, fs1)
    requires forall v :: v in passed ==> EmptiedOrGone(fs0, v)
    requires gone ==> forall v :: v in passed ==> v !in fs0.nodes
    ensures forall v :: v in passed ==> EmptiedOrGone(fs1, v)
    ensures gone ==> forall v :: v in passed ==> v !in fs1.nodes
  {
    forall v | v in passed && v in fs1.nodes
      ensures IsDir(fs1, v) && !HasChild(fs1, v)
    {
      assert v in fs0.nodes && fs1.nodes[v] == fs0.nodes[v];
      forall c | c in fs1.nodes && c != []
        ensures Parent(c) != v
      {
        assert c in fs0.nodes;
      }
    }
  }

  /** The walk's state with `current` about to be asked about: the
      directories `passed` below it were each reported empty, were readable,
      and are gone or empty (gone, in a run without faults), and only what
      the visited directories account for was removed. */
  predicate Pruning(w: World, w': World, anchor: Path, top: Path, passed: seq<Path>, current: Path) {
    var visited := passed + [current];
    && Progress(w, w') && WellFormed(w'.fs) && Idle(w')
    && visited[0] == Parent(anchor) && ParentChain(visited, top)
    && PrunedOnly(w.fs, w'.fs, visited, top)
    && (StrictlyBelow(top, anchor) ==> forall v :: v in visited ==> AtOrBelow(top, v))
    && (forall v :: v in passed ==> v !in w.unreadable && EmptiedOrGone(w'.fs, v))
    && (NoFaultsAhead(w) ==> NoFaultsAhead(w') && forall v :: v in passed ==> v !in w'.fs.nodes)
  }

  /** One step of the walk, seen from where it began: a step that goes on
      keeps the walk's state one directory higher; a step that stops ends
      the walk as `DeleteEmptyParentDirectories` promises. */
  method PruneRound(w: World, w0: World, anchor: Path, top: Path, ghost passed: seq<Path>, current: Path)
    returns (w1: World, step: Option<Flow<()>>)
    requires WellFormed(w.fs) && Pruning(w, w0, anchor, top, passed, current)
    ensures step.None? ==>
              StrictlyBelow(top, current) && Pruning(w, w1, anchor, top, passed + [current], Parent(current))
    ensures step.Some? ==>
              var out := step.value;
              var visited := passed + [current];
              && Progress(w, w1) && WellFormed(w1.fs) && Channel(w1, out.Stuck?)
              && PrunedOnly(w.fs, w1.fs, visited, top)
              && (out.Normal? ==>
                    !StrictlyBelow(top, current) || !IsDir(w1.fs, current) || current in w.unreadable
                    || Children(w1.fs, current) != [])
              && (forall v :: v in passed ==> v !in w.unreadable && EmptiedOrGone(w1.fs, v))
              && (NoFaultsAhead(w) ==> forall v :: v in passed ==> v !in w1.fs.nodes)
              && EndedBy(w, w1.transcript, w1.taken, out)
    decreases |w0.responses| - w0.taken, 3
  {
    var visited := passed + [current];
    ghost var faultFree := NoFaultsAhead(w);
    ghost var reported;
    w1, step, reported := PruneStep(w0, current, top);
    ProgressTransitive(w, w0, w1);
    PrunedOnlyStep(w.fs, w0.fs, w1.fs, visited, top);
    PassedStep(w0.fs, w1.fs, passed, faultFree);
    if step.Some? {
      EndedBySince<(), ()>(w, w0, w1.transcript, w1.taken, step.value);
      return;
    }
    if faultFree {
      NoFaultsLater(w0, w1);
    }
    WalkUp(w.fs, w1.fs, visited, top);
  }

  /** `_delete_empty_parent_directories`: from the anchor's parent upwards,
      while the oracle reports the current directory empty, remove it and
      move to its parent, stopping at the first directory that `top` is not
      a proper ancestor of. `visited` lists the directories the oracle was
      asked about. Every one but the last was reported empty: it was
      readable, and it is gone, or still there with nothing in it because
      its `rmdir` was skipped; in a run without faults it is gone. */
  method DeleteEmptyParentDirectories(w: World, anchor: Path, top: Path)
    returns (w': World, out: Flow<()>, ghost visited: seq<Path>)
    requires Idle(w) && WellFormed(w.fs)
    ensures Progress(w, w') && WellFormed(w'.fs) && Channel(w', out.Stuck?)
    ensures |visited| > 0 && visited[0] == Parent(anchor) && ParentChain(visited, top)
    ensures PrunedOnly(w.fs, w'.fs, visited, top)
    ensures StrictlyBelow(top, anchor) ==> KeptOutside(w.fs, w'.fs, top)
    ensures out.Normal? ==>
              var v := visited[|visited| - 1];
              !StrictlyBelow(top, v) || !IsDir(w'.fs, v) || v in w.unreadable || Children(w'.fs, v) != []
    ensures forall i :: 0 <= i < |visited| - 1 ==> visited[i] !in w.unreadable && EmptiedOrGone(w'.fs, visited[i])
    ensures NoFaultsAhead(w) ==> forall i :: 0 <= i < |visited| - 1 ==> visited[i] !in w'.fs.nodes
    ensures EndedBy(w, w'.transcript, w'.taken, out)
    decreases |w.responses| - w.taken, 4
  {
    var current := Parent(anchor);
    w', visited := w, [current];
    ProgressReflexive(w);
    ghost var passed: seq<Path> := [];
    while true
      invariant Pruning(w, w', anchor, top, passed, current) && visited == passed + [current]
      decreases |current|
    {
      var w1, step := PruneRound(w, w', anchor, top, passed, current);
      w' := w1;
      if step.Some? {
        out := step.value;
        break;
      }
      passed := visited;
      current := Parent(current);
      visited := visited + [current];
    }
    assert forall i :: 0 <= i < |visited| - 1 ==> visited[i] in passed;
    if StrictlyBelow(top, anchor) {
      PrunedOnlyKeepsOutside(w.fs, w'.fs, visited, top);
    }
  }

  // ----- Deleting matching files -----

  /** The entries `unlinked` lists appear in `paths`, were matching files,
      are gone, and are listed once each. */
  predicate UnlinkedFrom(unlinked: seq<Path>, paths: seq<Path>, fs0: FileSystem, fs1: FileSystem, extensions: set<string>) {
    && (forall i, j :: 0 <= i < j < |unlinked| ==> unlinked[i] != unlinked[j])
    && (forall p :: p in unlinked ==>
          p in paths && IsFile(fs0, p) && Matches(Name(p), extensions) && p !in fs1.nodes)
  }

  /** What deleting matching files below `target` may have removed besides
      the unlinked files: display files and directories strictly below
      `target`. */
  predicate DeletedOnly(fs0: FileSystem, fs1: FileSystem, unlinked: seq<Path>, target: Path) {
    forall p :: p in fs0.nodes && p !in fs1.nodes ==>
      p in unlinked || IsDisplayFile(fs0, p) || (fs0.nodes[p] == Dir && StrictlyBelow(target, p))
  }

  /** Unlinking `path` and then pruning from it removes only `path`, display
      files and directories strictly below `target`. */
  lemma UnlinkThenPrune(fs0: FileSystem, fs1: FileSystem, fs2: FileSystem, path: Path, visited: seq<Path>, target: Path)
    requires fs1 == Remove(fs0, path) && Shrunk(fs1, fs2) && PrunedOnly(fs1, fs2, visited, target)
    ensures DeletedOnly(fs0, fs2, [path], target)
  {
    forall p | p in fs0.nodes && p !in fs2.nodes && p != path
      ensures IsDisplayFile(fs0, p) || (fs0.nodes[p] == Dir && StrictlyBelow(target, p))
    {
      assert p in fs1.nodes && fs1.nodes[p] == fs0.nodes[p];
    }
  }

  /** Nothing outside `top` disappears in two steps that each keep it. */
  lemma KeptOutsideChain(fs0: FileSystem, fs1: FileSystem, fs2: FileSystem, top: Path)
    requires KeptOutside(fs0, fs1, top) && KeptOutside(fs1, fs2, top)
    ensures KeptOutside(fs0, fs2, top)
  {
  }

  /** Recording one more unlinked file keeps the record accurate. */
  lemma UnlinkedStep(unlinked: seq<Path>, paths: seq<Path>, fs0: FileSystem, fs1: FileSystem, fs2: FileSystem,
                     extensions: set<string>, path: Path, removed: bool)
    requires UnlinkedFrom(unlinked, paths, fs0, fs1, extensions) && Shrunk(fs0, fs1) && Shrunk(fs1, fs2)
    requires removed ==> path in paths && IsFile(fs1, path) && Matches(Name(path), extensions) && path !in fs2.nodes
    ensures UnlinkedFrom(unlinked + (if removed then [path] else []), paths, fs0, fs2, extensions)
  {
    var u := unlinked + (if removed then [path] else []);
    forall i, j | 0 <= i < j < |u|
      ensures u[i] != u[j]
    {
      if j < |unlinked| {
        assert u[i] == unlinked[i] && u[j] == unlinked[j];
      } else {
        assert u[i] == unlinked[i] && unlinked[i] in unlinked;
      }
    }
    forall p | p in u
      ensures p in paths && IsFile(fs0, p) && Matches(Name(p), extensions) && p !in fs2.nodes
    {
      if p !in unlinked {
        assert p == path && path in fs1.nodes;
      }
    }
  }

  /** What two consecutive steps of the pass removed. */
  lemma DeletedOnlyStep(fs0: FileSystem, fs1: FileSystem, fs2: FileSystem, unlinked: seq<Path>, more: seq<Path>, target: Path)
    requires Shrunk(fs0, fs1) && DeletedOnly(fs0, fs1, unlinked, target) && DeletedOnly(fs1, fs2, more, target)
    ensures DeletedOnly(fs0, fs2, unlinked + more, target)
  {
    forall p | p in fs0.nodes && p !in fs2.nodes
      ensures p in unlinked + more || IsDisplayFile(fs0, p) || (fs0.nodes[p] == Dir && StrictlyBelow(target, p))
    {
      if p in fs1.nodes {
        assert fs1.nodes[p] == fs0.nodes[p];
      }
    }
  }

  /** Every file of `paths` that matched on `fs0` is gone from `fs1`. */
  predicate MatchingGone(fs0: FileSystem, fs1: FileSystem, paths: seq<Path>, extensions: set<string>) {
    forall p :: p in paths && IsFile(fs0, p) && Matches(Name(p), extensions) ==> p !in fs1.nodes
  }

  /** One more entry of a pass without faults: a matching file still there
      at its turn is unlinked, and what is gone stays gone. */
  lemma MatchingGoneStep(fs0: FileSystem, fs1: FileSystem, fs2: FileSystem, done: seq<Path>, p: Path, extensions: set<string>)
    requires Shrunk(fs0, fs1) && Shrunk(fs1, fs2) && MatchingGone(fs0, fs1, done, extensions)
    requires IsFile(fs1, p) && Matches(Name(p), extensions) ==> p !in fs2.nodes
    ensures MatchingGone(fs0, fs2, done + [p], extensions)
  {
    if p in fs1.nodes {
      assert fs1.nodes[p] == fs0.nodes[p];
    }
  }

  /** One entry of the pass: if it is still a matching file, announce and
      unlink it, then prune from it. `removed` says whether the unlink
      succeeded, which a normal outcome reports. */
  method DeleteOne(w: World, path: Path, target: Path, extensions: set<string>)
    returns (w': World, out: Flow<bool>, ghost removed: bool)
    requires Idle(w) && WellFormed(w.fs)
    ensures Progress(w, w') && WellFormed(w'.fs) && Channel(w', out.Stuck?)
    ensures !(IsFile(w.fs, path) && Matches(Name(path), extensions)) ==> out == Normal(false) && w' == w
    ensures out.Normal? ==> out.value == removed
    ensures removed ==> IsFile(w.fs, path) && Matches(Name(path), extensions) && path !in w'.fs.nodes
    ensures !removed ==> w'.fs == w.fs
    ensures IsFile(w.fs, path) && Matches(Name(path), extensions) && NextFault(w).NoFault? ==> removed
    ensures DeletedOnly(w.fs, w'.fs, if removed then [path] else [], target)
    ensures StrictlyBelow(target, path) ==> KeptOutside(w.fs, w'.fs, target)
    ensures EndedBy(w, w'.transcript, w'.taken, out)
    decreases |w.responses| - w.taken, 6
  {
    if !IsFile(w.fs, path) || !Matches(Name(path), extensions) {
      ProgressReflexive(w);
      return w, Normal(false), false;
    }
    w', out, removed := UnlinkAndPrune(w, path, target);
  }

  /** Lines 137-147 of the pass: announce and unlink the matching file
      `path`; when that succeeds, prune from it. */
  method UnlinkAndPrune(w: World, path: Path, target: Path)
    returns (w': World, out: Flow<bool>, ghost removed: bool)
    requires Idle(w) && WellFormed(w.fs)
    ensures Progress(w, w') && WellFormed(w'.fs) && Channel(w', out.Stuck?)
    ensures UnlinkOutcome(w, path, target, w', out, removed)
    decreases |w.responses| - w.taken, 5
  {
    var w1 := Emit(w, DeletingFile(PathString(path)));
    var w2, done := RetryableOperation(w1, Unlink(path), DeletingFileNamed(Name(path)));
    ProgressTransitive(w, w1, w2);
    if !done.Normal? || !done.value {
      UnlinkStopped(w, w1, w2, path, target, done);
      return w2, done, false;
    }
    var w3, pruned, visited := DeleteEmptyParentDirectories(w2, path, target);
    ProgressTransitive(w, w2, w3);
    out := if pruned.Normal? then Normal(true) else Propagate(pruned);
    UnlinkedThenPruned(w, w1, w2, w3, path, target, visited, pruned, out);
    return w3, out, true;
  }

  /** What handling the matching file `path` from `w` guarantees: the
      announcement comes first; `removed` tells whether the file is gone,
      which is what a normal outcome reports; only a successful unlink
      changes the filesystem, and with no fault scripted it succeeds; what
      disappeared is as `DeletedOnly` says; and an exception other than
      blocking came about as `EndedBy` says. */
  predicate UnlinkOutcome(w: World, path: Path, target: Path, w': World, out: Flow<bool>, removed: bool) {
    && |w'.transcript| > |w.transcript|
    && w'.transcript[|w.transcript|] == Forwarded(StatusUpdate(DeletingFile(PathString(path))))
    && (out.Normal? ==> out.value == removed)
    && (removed ==> IsFile(w.fs, path) && path !in w'.fs.nodes)
    && (!removed ==> w'.fs == w.fs)
    && (IsFile(w.fs, path) && NextFault(w).NoFault? ==> removed)
    && DeletedOnly(w.fs, w'.fs, if removed then [path] else [], target)
    && (StrictlyBelow(target, path) ==> KeptOutside(w.fs, w'.fs, target))
    && EndedBy(w, w'.transcript, w'.taken, out)
  }

  /** An unlink that failed and was skipped, or that ended the pass,
      changed nothing. */
  lemma UnlinkStopped(w: World, w1: World, w2: World, path: Path, target: Path, done: Flow<bool>)
    requires Idle(w) && w1 == Emit(w, DeletingFile(PathString(path))) && Progress(w1, w2)
    requires done != Normal(true) && w2.fs == w1.fs
    requires NextFault(w1).NoFault? && RealError(w1.fs, Unlink(path)).None? ==> done == Normal(true)
    requires EndedBy(w1, w2.transcript, w2.taken, done)
    ensures UnlinkOutcome(w, path, target, w2, done, false)
  {
    Recorded(w1.transcript, w2.transcript, |w.transcript|);
    assert NextFault(w1) == NextFault(w);
    EndedBySince<bool, bool>(w, w1, w2.transcript, w2.taken, done);
  }

  /** A successful unlink followed by the pruning walk from it. */
  lemma UnlinkedThenPruned(w: World, w1: World, w2: World, w3: World, path: Path, target: Path,
                           visited: seq<Path>, pruned: Flow<()>, out: Flow<bool>)
    requires Idle(w) && w1 == Emit(w, DeletingFile(PathString(path))) && Progress(w1, w2) && Progress(w2, w3)
    requires RealError(w1.fs, Unlink(path)).None? && w2.fs == Remove(w1.fs, path)
    requires PrunedOnly(w2.fs, w3.fs, visited, target)
    requires StrictlyBelow(target, path) ==> KeptOutside(w2.fs, w3.fs, target)
    requires EndedBy(w2, w3.transcript, w3.taken, pruned)
    requires out == if pruned.Normal? then Normal(true) else Propagate(pruned)
    ensures UnlinkOutcome(w, path, target, w3, out, true)
  {
    ProgressTransitive(w1, w2, w3);
    Recorded(w1.transcript, w3.transcript, |w.transcript|);
    if !pruned.Normal? {
      EndedBySince<(), bool>(w, w2, w3.transcript, w3.taken, pruned);
    }
    UnlinkThenPrune(w.fs, w2.fs, w3.fs, path, visited, target);
    if StrictlyBelow(target, path) {
      KeptOutsideChain(w.fs, w2.fs, w3.fs, target);
    }
  }

  /** What the pass keeps after handling `paths[..i]` from `w`: the
      unlinked files are listed, nothing else but display files and
      directories below `target` went, nothing outside `target` went when
      every path is below it, and, with no faults ahead, every matching
      file handled so far is gone. */
  predicate Deleting(w: World, w': World, paths: seq<Path>, i: nat, unlinked: seq<Path>, target: Path, extensions: set<string>) {
    && Progress(w, w') && WellFormed(w'.fs) && i <= |paths|
    && UnlinkedFrom(unlinked, paths, w.fs, w'.fs, extensions)
    && DeletedOnly(w.fs, w'.fs, unlinked, target)
    && ((forall p :: p in paths ==> StrictlyBelow(target, p)) ==> KeptOutside(w.fs, w'.fs, target))
    && (NoFaultsAhead(w) ==> NoFaultsAhead(w') && MatchingGone(w.fs, w'.fs, paths[..i], extensions))
  }

  /** The `i`-th entry of the pass, with what it adds to the pass's record. */
  method DeleteNext(w: World, w0: World, paths: seq<Path>, i: nat, ghost unlinked: seq<Path>, target: Path, extensions: set<string>)
    returns (w1: World, deleted: Flow<bool>, ghost unlinked1: seq<Path>)
    requires i < |paths| && WellFormed(w.fs) && Idle(w0) && Deleting(w, w0, paths, i, unlinked, target, extensions)
    ensures Channel(w1, deleted.Stuck?) && w1.responses == w0.responses && w1.taken >= w0.taken
    ensures Deleting(w, w1, paths, i + 1, unlinked1, target, extensions)
    ensures deleted.Normal? ==> |unlinked1| == |unlinked| + (if deleted.value then 1 else 0)
    ensures EndedBy(w0, w1.transcript, w1.taken, deleted)
    decreases |w0.responses| - w0.taken, 7
  {
    ghost var removed;
    w1, deleted, removed := DeleteOne(w0, paths[i], target, extensions);
    unlinked1 := unlinked + if removed then [paths[i]] else [];
    DeletingStep(w, w0, w1, paths, i, unlinked, removed, target, extensions);
  }

  /** Adding the outcome of the `i`-th entry to the pass's record. */
  lemma DeletingStep(w: World, w0: World, w1: World, paths: seq<Path>, i: nat, unlinked: seq<Path>, removed: bool,
                     target: Path, extensions: set<string>)
    requires i < |paths| && Deleting(w, w0, paths, i, unlinked, target, extensions)
    requires Progress(w0, w1) && WellFormed(w1.fs)
    requires removed ==> IsFile(w0.fs, paths[i]) && Matches(Name(paths[i]), extensions) && paths[i] !in w1.fs.nodes
    requires !removed ==> w1.fs == w0.fs
    requires IsFile(w0.fs, paths[i]) && Matches(Name(paths[i]), extensions) && NextFault(w0).NoFault? ==> removed
    requires DeletedOnly(w0.fs, w1.fs, if removed then [paths[i]] else [], target)
    requires StrictlyBelow(target, paths[i]) ==> KeptOutside(w0.fs, w1.fs, target)
    ensures Deleting(w, w1, paths, i + 1, unlinked + (if removed then [paths[i]] else []), target, extensions)
  {
    if NoFaultsAhead(w) {
      NoFaultsLater(w, w0);
      MatchingGoneStep(w.fs, w0.fs, w1.fs, paths[..i], paths[i], extensions);
      assert paths[..i + 1] == paths[..i] + [paths[i]];
      NoFaultsLater(w0, w1);
    }
    var more := if removed then [paths[i]] else [];
    UnlinkedStep(unlinked, paths, w.fs, w0.fs, w1.fs, extensions, paths[i], removed);
    DeletedOnlyStep(w.fs, w0.fs, w1.fs, unlinked, more, target);
    if forall p :: p in paths ==> StrictlyBelow(target, p) {
      KeptOutsideChain(w.fs, w0.fs, w1.fs, target);
    }
    ProgressTransitive(w, w0, w1);
  }

  /** `_delete_matching_files_generator`: every entry of `paths` that is
      still a file and matches `extensions` is unlinked; after each unlink
      that succeeds the pruning walk runs from it. The result counts the
      unlinks that succeeded, which `unlinked` lists. */
  method DeleteMatchingFiles(w: World, paths: seq<Path>, target: Path, extensions: set<string>)
    returns (w': World, out: Flow<nat>, ghost unlinked: seq<Path>)
    requires Idle(w) && WellFormed(w.fs)
    ensures Progress(w, w') && WellFormed(w'.fs) && Channel(w', out.Stuck?)
    ensures out.Normal? ==> out.value == |unlinked|
    ensures UnlinkedFrom(unlinked, paths, w.fs, w'.fs, extensions)
    ensures DeletedOnly(w.fs, w'.fs, unlinked, target)
    ensures (forall p :: p in paths ==> StrictlyBelow(target, p)) ==> KeptOutside(w.fs, w'.fs, target)
    ensures NoFaultsAhead(w) && out.Normal? ==> MatchingGone(w.fs, w'.fs, paths, extensions)
    ensures EndedBy(w, w'.transcript, w'.taken, out)
    decreases |w.responses| - w.taken, 8
  {
    w', unlinked := w, [];
    ProgressReflexive(w);
    var count := 0;
    for i := 0 to |paths|
      invariant Deleting(w, w', paths, i, unlinked, target, extensions) && Idle(w')
      invariant count == |unlinked|
    {
      ghost var before := w';
      var w1, deleted, unlinked1 := DeleteNext(w, w', paths, i, unlinked, target, extensions);
      w', unlinked := w1, unlinked1;
      if !deleted.Normal? {
        EndedBySince<bool, nat>(w, before, w'.transcript, w'.taken, deleted);
        out := Propagate(deleted);
        return;
      }
      if deleted.value {
        count := count + 1;
      }
    }
    assert paths[..|paths|] == paths;
    out := Normal(count);
  }

  // ----- The orchestrator -----

  /** `clean_directory_generator`: with a target, snapshot every entry below
      it once, then delete the matching ones. */
  method CleanDirectoryGenerator(w: World, config: Configuration.Config)
    returns (w': World, out: Flow<nat>, ghost snapshot: seq<Path>, ghost unlinked: seq<Path>)
    requires Idle(w) && WellFormed(w.fs)
    ensures Progress(w, w') && WellFormed(w'.fs) && Channel(w', out.Stuck?)
    ensures config.targetDirectory.None? ==> out == Normal(0) && w' == w
    ensures config.targetDirectory.Some? ==> ScanOutcome(w, config.targetDirectory.value, w', snapshot)
    ensures config.targetDirectory.Some? && w.scanFault.Some? ==> out == Normal(0) && |w'.transcript| == |w.transcript| + 2
    ensures out.Normal? ==> out.value == |unlinked|
    ensures UnlinkedFrom(unlinked, snapshot, w.fs, w'.fs, config.extensionsToDelete)
    ensures config.targetDirectory.Some? ==> DeletedOnly(w.fs, w'.fs, unlinked, config.targetDirectory.value)
    ensures NoFaultsAhead(w) && out.Normal? ==> MatchingGone(w.fs, w'.fs, snapshot, config.extensionsToDelete)
    ensures EndedBy(w, w'.transcript, w'.taken, out)
  {
    if config.targetDirectory.None? {
      ProgressReflexive(w);
      return w, Normal(0), [], [];
    }
    w', out, snapshot, unlinked := ScanAndDelete(w, config.targetDirectory.value, config.extensionsToDelete);
  }

  /** The scan's announcements: the scan was announced; a failed scan was
      reported and changed nothing; a successful one took `snapshot`, every
      entry strictly below `target` that the walk could list, announced its
      size, and nothing outside `target` disappeared. */
  predicate ScanOutcome(w: World, target: Path, w': World, snapshot: seq<Path>) {
    var k := |w.transcript|;
    && |w'.transcript| >= k + 2
    && w'.transcript[k] == Forwarded(StatusUpdate(Scanning))
    && (w.scanFault.Some? ==>
          && w'.fs == w.fs && w'.taken == w.taken && snapshot == []
          && w'.transcript[k + 1] == Forwarded(StatusUpdate(ScanFailed(w.scanFault.value))))
    && (w.scanFault.None? ==>
          && snapshot == Scan(w.fs, w.unreadable, target)
          && w'.transcript[k + 1] == Forwarded(StatusUpdate(Found(|snapshot|)))
          && KeptOutside(w.fs, w'.fs, target))
  }

  /** Lines 160-174 of the orchestrator, for a given target. */
  method ScanAndDelete(w: World, target: Path, extensions: set<string>)
    returns (w': World, out: Flow<nat>, ghost snapshot: seq<Path>, ghost unlinked: seq<Path>)
    requires Idle(w) && WellFormed(w.fs)
    ensures Progress(w, w') && WellFormed(w'.fs) && Channel(w', out.Stuck?)
    ensures ScanOutcome(w, target, w', snapshot)
    ensures w.scanFault.Some? ==> out == Normal(0) && |w'.transcript| == |w.transcript| + 2
    ensures out.Normal? ==> out.value == |unlinked|
    ensures UnlinkedFrom(unlinked, snapshot, w.fs, w'.fs, extensions)
    ensures DeletedOnly(w.fs, w'.fs, unlinked, target)
    ensures NoFaultsAhead(w) && out.Normal? ==> MatchingGone(w.fs, w'.fs, snapshot, extensions)
    ensures EndedBy(w, w'.transcript, w'.taken, out)
  {
    var w1 := Emit(w, Scanning);
    if w.scanFault.Some? {
      w' := Emit(w1, ScanFailed(w.scanFault.value));
      return w', Normal(0), [], [];
    }
    var items := Scan(w.fs, w.unreadable, target);
    snapshot := items;
    var w2 := Emit(w1, Found(|items|));
    ProgressTransitive(w, w1, w2);
    w', out, unlinked := DeleteMatchingFiles(w2, items, target, extensions);
    ProgressTransitive(w, w2, w');
    Recorded(w2.transcript, w'.transcript, |w.transcript|);
    Recorded(w2.transcript, w'.transcript, |w.transcript| + 1);
  }
}
