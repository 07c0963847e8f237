/** The environment a cleaning run acts on, made explicit: the filesystem,
    a script of injected `OSError`s, the directories whose listing raises
    `PermissionError`, the outcome of the initial scan, the responses the user
    interface will supply (the response queue), and the transcript of the
    conversation (every event put on the update queue, and every response
    taken from the response queue, in order). */
module World {
  import opened Wrappers
  import opened FileSystem
  import opened Events

  /** The scripted outcome of one mutation attempt: let the real operation
      run, or raise an `OSError` with this message instead. */
  datatype Fault = NoFault | OsError(message: string)

  /** The two filesystem mutations the cleaner performs. */
  datatype Mutation = Unlink(path: Path) | Rmdir(path: Path)

  /** One step of the worker/interface conversation. */
  datatype Exchange = Forwarded(event: Event) | Answered(response: Response)

  /** How a step of the cleaner ends: normally with a value; by the user's
      Abort (`OperationAbortedError`); by an unexpected exception; or blocked
      on an empty response queue. */
  datatype Flow<T> = Normal(value: T) | Aborted | Crashed(crash: Crash) | Stuck

  /** The exceptions the cleaner can raise besides `OperationAbortedError`:
      the `AttributeError` of reading `choice` from a confirmation response,
      or `accepted` from a Retry/Skip/Abort response. */
  datatype Crash = NoChoice | NoAccepted

  /** `str(e)` of such an exception. */
  function CrashMessage(c: Crash): string {
    match c
    case NoChoice => "'UserConfirmationResponse' object has no attribute 'choice'"
    case NoAccepted => "'RetrySkipAbortResponse' object has no attribute 'accepted'"
  }

  /** The run's environment. `faults` scripts the outcome of the mutation
      attempts in order (`attempts` of them are used up; past its end no
      fault is injected); `responses` lists the responses the interface puts
      on the response queue in order (`taken` of them are consumed). */
  datatype World = World(
    fs: FileSystem,
    faults: seq<Fault>,
    attempts: nat,
    unreadable: set<Path>,
    scanFault: Option<string>,
    responses: seq<Response>,
    taken: nat,
    transcript: seq<Exchange>)

  /** The exception other than blocking that a step ended by. */
  datatype Exception = AbortError | AttributeError(crash: Crash)

  function Ending<T>(f: Flow<T>): Option<Exception> {
    match f
    case Aborted => Some(AbortError)
    case Crashed(crash) => Some(AttributeError(crash))
    case _ => None
  }

  /** The same non-`Normal` outcome at another value type. */
  function Propagate<T, U>(f: Flow<T>): (r: Flow<U>)
    requires !f.Normal?
    ensures r.Aborted? == f.Aborted? && r.Stuck? == f.Stuck? && r.Crashed? == f.Crashed?
    ensures r.Crashed? ==> r.crash == f.crash
    ensures Ending(r) == Ending(f)
  {
    if f.Aborted? then Aborted else if f.Crashed? then Crashed(f.crash) else Stuck
  }

  // ----- The conversation -----

  predicate IsRequestStep(x: Exchange) {
    x.Forwarded? && IsRequest(x.event)
  }

  /** Every request is immediately followed by the one response taken for it,
      and every response taken follows a request. */
  predicate Settled(t: seq<Exchange>)
    decreases |t|
  {
    if t == [] then true
    else if t[|t| - 1].Forwarded? then
      !IsRequest(t[|t| - 1].event) && Settled(t[..|t| - 1])
    else
      |t| >= 2 && IsRequestStep(t[|t| - 2]) && Settled(t[..|t| - 2])
  }

  /** Settled, except that the last request is still waiting for its response. */
  predicate Stalled(t: seq<Exchange>) {
    |t| > 0 && IsRequestStep(t[|t| - 1]) && Settled(t[..|t| - 1])
  }

  /** The events put on the update queue. */
  function UpdateQueue(t: seq<Exchange>): (r: seq<Event>)
    ensures |r| <= |t|
  {
    if t == [] then []
    else if t[|t| - 1].Forwarded? then UpdateQueue(t[..|t| - 1]) + [t[|t| - 1].event]
    else UpdateQueue(t[..|t| - 1])
  }

  /** The responses taken from the response queue. */
  function Replies(t: seq<Exchange>): (r: seq<Response>)
    ensures |r| <= |t|
  {
    if t == [] then []
    else if t[|t| - 1].Answered? then Replies(t[..|t| - 1]) + [t[|t| - 1].response]
    else Replies(t[..|t| - 1])
  }

  /** The transcript records exactly the responses `r`, in order. */
  predicate Records(t: seq<Exchange>, r: seq<Response>)
    decreases |t|
  {
    if t == [] then r == []
    else if t[|t| - 1].Answered? then
      r != [] && r[|r| - 1] == t[|t| - 1].response && Records(t[..|t| - 1], r[..|r| - 1])
    else Records(t[..|t| - 1], r)
  }

  lemma {:induction false} RecordsReplies(t: seq<Exchange>, r: seq<Response>)
    ensures Records(t, r) <==> Replies(t) == r
    decreases |t|
  {
    if t != [] {
      if t[|t| - 1].Answered? {
        if r != [] {
          RecordsReplies(t[..|t| - 1], r[..|r| - 1]);
          if Replies(t) == r {
            assert Replies(t[..|t| - 1]) == Replies(t)[..|r| - 1];
          }
        }
      } else {
        RecordsReplies(t[..|t| - 1], r);
      }
    }
  }

  function CountRequests(es: seq<Event>): nat {
    if es == [] then 0
    else CountRequests(es[..|es| - 1]) + (if IsRequest(es[|es| - 1]) then 1 else 0)
  }

  lemma {:induction false} RepliesAppend(a: seq<Exchange>, b: seq<Exchange>)
    ensures Replies(a + b) == Replies(a) + Replies(b)
    decreases |b|
  {
    if b == [] {
      assert a + b == a;
    } else {
      assert (a + b)[..|a + b| - 1] == a + b[..|b| - 1];
      RepliesAppend(a, b[..|b| - 1]);
    }
  }

  /** In a settled conversation exactly one response was taken per request. */
  lemma {:induction false} SettledCounts(t: seq<Exchange>)
    requires Settled(t)
    ensures |Replies(t)| == CountRequests(UpdateQueue(t))
    decreases |t|
  {
    if t == [] {
    } else if t[|t| - 1].Forwarded? {
      var s := t[..|t| - 1];
      SettledCounts(s);
      var u := UpdateQueue(t);
      assert u == UpdateQueue(s) + [t[|t| - 1].event];
      assert u[..|u| - 1] == UpdateQueue(s);
    } else {
      var s := t[..|t| - 2];
      SettledCounts(s);
      var v := t[..|t| - 1];
      assert v[..|v| - 1] == s;
      var u := UpdateQueue(v);
      assert u == UpdateQueue(s) + [t[|t| - 2].event];
      assert u[..|u| - 1] == UpdateQueue(s);
    }
  }

  /** In a settled conversation each request is immediately followed by a
      response, and each response immediately follows a request. */
  lemma {:induction false} SettledAdjacent(t: seq<Exchange>)
    requires Settled(t)
    ensures forall i :: 0 <= i < |t| && IsRequestStep(t[i]) ==> i + 1 < |t| && t[i + 1].Answered?
    ensures forall i :: 0 <= i < |t| && t[i].Answered? ==> 0 < i && IsRequestStep(t[i - 1])
    decreases |t|
  {
    if t != [] {
      var k := if t[|t| - 1].Forwarded? then 1 else 2;
      var s := t[..|t| - k];
      SettledAdjacent(s);
      forall i | 0 <= i < |t| && IsRequestStep(t[i])
        ensures i + 1 < |t| && t[i + 1].Answered?
      {
        if i < |s| {
          assert t[i] == s[i];
          if i + 1 < |s| {
            assert t[i + 1] == s[i + 1];
          }
        }
      }
      forall i | 0 <= i < |t| && t[i].Answered?
        ensures 0 < i && IsRequestStep(t[i - 1])
      {
        if i < |s| {
          assert t[i] == s[i];
          assert t[i - 1] == s[i - 1];
        }
      }
    }
  }

  /** The transcript has no run-ending event. */
  predicate NoTerminal(t: seq<Exchange>)
    decreases |t|
  {
    t == [] || (NoTerminal(t[..|t| - 1]) && !(t[|t| - 1].Forwarded? && IsTerminal(t[|t| - 1].event)))
  }

  /** No terminal event anywhere in the transcript. */
  lemma {:induction false} NoTerminalEverywhere(t: seq<Exchange>)
    ensures NoTerminal(t) <==> forall i :: 0 <= i < |t| ==> !(t[i].Forwarded? && IsTerminal(t[i].event))
    decreases |t|
  {
    if t != [] {
      var s := t[..|t| - 1];
      NoTerminalEverywhere(s);
      assert forall i :: 0 <= i < |s| ==> s[i] == t[i];
    }
  }

  /** The worker is between steps: the conversation is settled and has not
      ended. */
  predicate Idle(w: World) {
    && w.taken <= |w.responses| && Records(w.transcript, w.responses[..w.taken])
    && Settled(w.transcript) && NoTerminal(w.transcript)
  }

  /** The conversation has not ended and records exactly the responses
      taken so far, in queue order; it is settled, or (when the run is
      stuck) stalled on a request with no response left to take. */
  predicate Channel(w: World, stuck: bool) {
    && w.taken <= |w.responses| && Records(w.transcript, w.responses[..w.taken])
    && NoTerminal(w.transcript)
    && if stuck then Stalled(w.transcript) && w.taken == |w.responses| else Settled(w.transcript)
  }

  // ----- How a run may change the world -----

  /** Entries only disappear; nothing is created or changes kind. */
  predicate Shrunk(fs0: FileSystem, fs1: FileSystem) {
    && fs1.order == fs0.order
    && forall p :: p in fs1.nodes ==> p in fs0.nodes && fs1.nodes[p] == fs0.nodes[p]
  }

  /** Nothing outside the strict descendants of `top` disappeared. */
  predicate KeptOutside(fs0: FileSystem, fs1: FileSystem, top: Path) {
    forall p :: p in fs0.nodes && !StrictlyBelow(top, p) ==> p in fs1.nodes
  }

  /** `w1` is a later state of the same run as `w0`: the transcript only
      grew; responses and scripted faults were only consumed, in order;
      entries only disappeared. */
  predicate Progress(w0: World, w1: World) {
    && w0.transcript <= w1.transcript
    && Shrunk(w0.fs, w1.fs)
    && w1.responses == w0.responses && w0.taken <= w1.taken
    && w1.faults == w0.faults && w0.attempts <= w1.attempts
    && w1.unreadable == w0.unreadable && w1.scanFault == w0.scanFault
  }

  lemma ProgressReflexive(w: World)
    ensures Progress(w, w)
  {
  }

  lemma ProgressTransitive(w0: World, w1: World, w2: World)
    requires Progress(w0, w1) && Progress(w1, w2)
    ensures Progress(w0, w2)
  {
  }

  /** Between two states of a run whose transcripts each record exactly the
      responses taken so far, the responses recorded in between are exactly
      the ones taken in between, in queue order. */
  lemma {:induction false} RepliesSince(w0: World, w1: World)
    requires Progress(w0, w1) && w1.taken <= |w1.responses|
    requires Records(w0.transcript, w0.responses[..w0.taken])
    requires Records(w1.transcript, w1.responses[..w1.taken])
    ensures Replies(w1.transcript[|w0.transcript|..]) == w0.responses[w0.taken..w1.taken]
  {
    RecordsReplies(w0.transcript, w0.responses[..w0.taken]);
    RecordsReplies(w1.transcript, w1.responses[..w1.taken]);
    var t0, t1 := w0.transcript, w1.transcript;
    assert t1 == t0 + t1[|t0|..];
    RepliesAppend(t0, t1[|t0|..]);
    var r := w0.responses;
    assert r[..w1.taken] == r[..w0.taken] + r[w0.taken..w1.taken];
  }

  /** A later transcript still holds every step of an earlier one. */
  lemma Recorded(t0: seq<Exchange>, t1: seq<Exchange>, k: nat)
    requires t0 <= t1 && k < |t0|
    ensures t1[k] == t0[k]
  {
  }

  // ----- Primitive steps -----

  /** Puts a status update on the update queue. */
  function Emit(w: World, message: Status): (w': World)
    requires Idle(w)
    ensures Progress(w, w') && Idle(w') && w'.fs == w.fs && w'.taken == w.taken && w'.attempts == w.attempts
    ensures w'.transcript == w.transcript + [Forwarded(StatusUpdate(message))]
  {
    var w' := w.(transcript := w.transcript + [Forwarded(StatusUpdate(message))]);
    assert w'.transcript[..|w'.transcript| - 1] == w.transcript;
    w'
  }

  /** Putting a request on a settled conversation stalls it, without
      ending it. */
  lemma AskStalls(t: seq<Exchange>, request: Event, r: seq<Response>)
    requires Settled(t) && NoTerminal(t) && IsRequest(request) && Records(t, r)
    ensures Stalled(t + [Forwarded(request)]) && NoTerminal(t + [Forwarded(request)])
    ensures Records(t + [Forwarded(request)], r)
  {
    var asked := t + [Forwarded(request)];
    assert asked[..|asked| - 1] == t;
  }

  /** Answering the request settles the conversation again. */
  lemma AskAnswered(t: seq<Exchange>, request: Event, response: Response, r: seq<Response>)
    requires Settled(t) && NoTerminal(t) && IsRequest(request) && Records(t, r)
    ensures Settled(t + [Forwarded(request), Answered(response)])
    ensures NoTerminal(t + [Forwarded(request), Answered(response)])
    ensures Records(t + [Forwarded(request), Answered(response)], r + [response])
  {
    var asked := t + [Forwarded(request)];
    var answered := t + [Forwarded(request), Answered(response)];
    assert asked[..|asked| - 1] == t;
    assert answered[..|answered| - 1] == asked;
    assert answered[..|answered| - 2] == t;
    assert (r + [response])[..|r|] == r;
  }

  /** Puts a request on the update queue and takes the next response from the
      response queue, if there is one; without one the worker blocks. */
  function Ask(w: World, request: Event): (r: (World, Option<Response>))
    requires Idle(w) && IsRequest(request)
    ensures Progress(w, r.0) && r.0.fs == w.fs && r.0.attempts == w.attempts
    ensures Channel(r.0, r.1.None?)
    ensures w.taken == |w.responses| ==>
              r.1.None? && r.0.taken == w.taken && r.0.transcript == w.transcript + [Forwarded(request)]
    ensures w.taken < |w.responses| ==>
              && r.1 == Some(w.responses[w.taken]) && r.0.taken == w.taken + 1
              && r.0.transcript == w.transcript + [Forwarded(request), Answered(w.responses[w.taken])]
  {
    if w.taken == |w.responses| then
      AskStalls(w.transcript, request, w.responses[..w.taken]);
      (w.(transcript := w.transcript + [Forwarded(request)]), None)
    else
      var response := w.responses[w.taken];
      AskAnswered(w.transcript, request, response, w.responses[..w.taken]);
      assert w.responses[..w.taken + 1] == w.responses[..w.taken] + [response];
      (w.(transcript := w.transcript + [Forwarded(request), Answered(response)], taken := w.taken + 1), Some(response))
  }

  /** The error the real operation raises on `fs`, if any. */
  function RealError(fs: FileSystem, op: Mutation): Option<string> {
    match op
    case Unlink(p) => UnlinkError(fs, p)
    case Rmdir(p) => RmdirError(fs, p)
  }

  /** A mutation that succeeds leaves a well-formed filesystem well formed. */
  lemma SuccessKeepsWellFormed(fs: FileSystem, op: Mutation)
    requires WellFormed(fs) && RealError(fs, op).None?
    ensures WellFormed(Remove(fs, op.path))
  {
    if op.Unlink? {
      FileHasNoChild(fs, op.path);
    }
    RemoveChildless(fs, op.path);
  }

  /** The scripted outcome of the next attempt. */
  function NextFault(w: World): Fault {
    if w.attempts < |w.faults| then w.faults[w.attempts] else NoFault
  }

  /** An ending that came about after `w1` came about after any earlier
      state `w0` of the run, and passing the exception on keeps it. */
  lemma EndedBySince<T, U>(w0: World, w1: World, t: seq<Exchange>, taken: nat, f: Flow<T>)
    requires Progress(w0, w1) && EndedBy(w1, t, taken, f)
    ensures EndedBy(w0, t, taken, f)
    ensures !f.Normal? ==> EndedBy(w0, t, taken, Propagate<T, U>(f))
  {
  }

  /** No `OSError` is injected into any attempt still to come. */
  predicate NoFaultsAhead(w: World) {
    forall i :: w.attempts <= i < |w.faults| ==> w.faults[i].NoFault?
  }

  /** A run without faults ahead stays so, and its next attempt has none. */
  lemma NoFaultsLater(w0: World, w1: World)
    requires NoFaultsAhead(w0) && Progress(w0, w1)
    ensures NoFaultsAhead(w1) && NextFault(w1).NoFault?
  {
  }

  /** The error attempt number `n` of `op` raises while the filesystem is
      `fs`: the scripted fault's message, or else the real operation's
      error. */
  function AttemptError(faults: seq<Fault>, n: nat, fs: FileSystem, op: Mutation): Option<string> {
    if n < |faults| && faults[n].OsError? then Some(faults[n].message) else RealError(fs, op)
  }

  /** How a step from `w` came to raise `e`, `taken` being the number of
      responses taken by then: its conversation grew by at least two steps
      since `w`, and ends with the request the exception was raised over
      followed by the last response taken, which is one taken after `w`.
      Abort answers a Retry/Skip/Abort request; a confirmation response
      given to that request raises on `choice`; a Retry/Skip/Abort response
      given to a confirmation request raises on `accepted`. */
  predicate RaisedOver(w: World, t: seq<Exchange>, taken: nat, e: Exception) {
    && |t| >= |w.transcript| + 2 && w.taken < taken <= |w.responses|
    && t[|t| - 2].Forwarded? && t[|t| - 1] == Answered(w.responses[taken - 1])
    && match e
       case AbortError =>
         t[|t| - 2].event.RequestRetrySkipAbort? && w.responses[taken - 1] == RetrySkipAbortResponse(Abort)
       case AttributeError(NoChoice) =>
         t[|t| - 2].event.RequestRetrySkipAbort? && w.responses[taken - 1].UserConfirmationResponse?
       case AttributeError(NoAccepted) =>
         t[|t| - 2].event.RequestConfirmation? && w.responses[taken - 1].RetrySkipAbortResponse?
  }

  /** A step from `w` that ended by an exception other than blocking came
      about as `RaisedOver` says. */
  predicate EndedBy<T>(w: World, t: seq<Exchange>, taken: nat, out: Flow<T>) {
    Ending(out).Some? ==> RaisedOver(w, t, taken, Ending(out).value)
  }

  /** A step that ends over the response it has just taken for `request`. */
  lemma EndedByAnswer<T>(w: World, request: Event, w1: World, out: Flow<T>)
    requires w.taken < |w.responses| && w1.taken == w.taken + 1
    requires w1.transcript == w.transcript + [Forwarded(request), Answered(w.responses[w.taken])]
    requires out.Aborted? ==> request.RequestRetrySkipAbort? && w.responses[w.taken] == RetrySkipAbortResponse(Abort)
    requires out == Crashed(NoChoice) ==> request.RequestRetrySkipAbort? && w.responses[w.taken].UserConfirmationResponse?
    requires out == Crashed(NoAccepted) ==> request.RequestConfirmation? && w.responses[w.taken].RetrySkipAbortResponse?
    ensures EndedBy(w, w1.transcript, w1.taken, out)
  {
  }

  /** One attempt at a mutation: the next scripted fault decides whether an
      `OSError` is injected; otherwise the real operation runs and may fail
      on its own. */
  function Attempt(w: World, op: Mutation): (r: (World, Option<string>))
    requires WellFormed(w.fs)
    ensures Progress(w, r.0) && r.0.transcript == w.transcript && r.0.taken == w.taken
    ensures r.0.attempts == w.attempts + 1
    ensures WellFormed(r.0.fs)
    ensures r.1.None? ==> RealError(w.fs, op).None? && r.0.fs == Remove(w.fs, op.path)
    ensures r.1.Some? ==> r.0.fs == w.fs
    ensures NextFault(w).NoFault? ==> r.1 == RealError(w.fs, op)
    ensures NextFault(w).OsError? ==> r.1 == Some(NextFault(w).message)
    ensures r.1 == AttemptError(w.faults, w.attempts, w.fs, op)
  {
    var w' := w.(attempts := w.attempts + 1);
    match NextFault(w)
    case OsError(message) => (w', Some(message))
    case NoFault =>
      var err := RealError(w.fs, op);
      if err.Some? then (w', err)
      else
        SuccessKeepsWellFormed(w.fs, op);
        (w'.(fs := Remove(w.fs, op.path)), None)
  }
}
