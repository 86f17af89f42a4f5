// The result-callback state machine shared by model/BuildListener.java and
// BuildResults.java: both classes keep the same fields and update them in the
// same way under onStart, onNext, onError, onComplete and close.  The state is
// captured here as a value with a one-event step function; the two classes
// (build_listener.dfy, build_results.dfy) are proved against it.

module Callback {
  import opened Wrappers

  /** The kind of a Java throwable, as far as the callbacks distinguish them. */
  datatype ThrowableKind = JavaError | Runtime | Checked

  /** A throwable reported to onError; `id` tells different throwables apart. */
  datatype Throwable = Throwable(kind: ThrowableKind, id: nat)

  /** One item of the docker build response stream (BuildResponseItem). */
  datatype ResponseItem = ResponseItem(
    stream: Option<string>,
    buildSuccess: bool,
    imageId: Option<string>,
    errorIndicated: bool,
    error: Option<string>)

  /**
   * The fields of the callback object.  A Closeable stream is named by a
   * number (None is Java's null); `completed` is the count-down latch having
   * reached zero; `log` is the text printed to the log file; `closedStreams`
   * lists, in order, the streams whose close() has been called.
   */
  datatype State = State(
    errors: seq<Throwable>,
    imageId: Option<string>,
    error: Option<string>,
    stream: Option<nat>,
    closed: bool,
    completed: bool,
    log: string,
    closedStreams: seq<nat>)

  /** The state right after construction. */
  const Fresh := State([], None, None, None, false, false, "", [])

  const FailedPrefix := "Docker build failed: "

  /** The message of the exception awaitImageId throws when the build failed; a null error prints as "null". */
  function FailureMessage(error: Option<string>): (r: string)
    ensures |r| >= |FailedPrefix| && r[..|FailedPrefix|] == FailedPrefix
    ensures error.Some? ==> r[|FailedPrefix|..] == error.value
  {
    FailedPrefix + (if error.Some? then error.value else "null")
  }

  datatype Event =
    | Start(theStream: Option<nat>)
    | Next(item: ResponseItem)
    | Error(throwable: Throwable)
    | Complete
    | Close

  function Closing(st: State): State {
    if st.closed then st
    else st.(closed := true,
             closedStreams := if st.stream.Some? then st.closedStreams + [st.stream.value] else st.closedStreams,
             completed := true)
  }

  function Receiving(st: State, item: ResponseItem): State {
    var st' := if item.stream.Some? then st.(log := st.log + item.stream.value) else st;
    if item.buildSuccess then st'.(imageId := item.imageId)
    else if item.errorIndicated then st'.(error := item.error)
    else st'
  }

  /** The effect of one callback on the fields. */
  function Step(st: State, ev: Event): (r: State)
    ensures |st.errors| <= |r.errors| <= |st.errors| + 1 && r.errors[..|st.errors|] == st.errors
    ensures |r.errors| > |st.errors| <==> ev.Error? && !st.closed
    ensures st.completed ==> r.completed
    ensures r.closed <==> !ev.Start? && (st.closed || ev.Error? || ev.Complete? || ev.Close?)
    ensures Reachable(st) ==> Reachable(r)
  {
    match ev
    case Start(s) => st.(stream := s, closed := false)
    case Next(item) => Receiving(st, item)
    case Error(t) => if st.closed then st else Closing(st.(errors := st.errors + [t]))
    case Complete => Closing(st)
    case Close => Closing(st)
  }

  /** The effect of a sequence of callbacks, in order. */
  function Run(st: State, evs: seq<Event>): State
    decreases |evs|
  {
    if evs == [] then st else Step(Run(st, evs[..|evs| - 1]), evs[|evs| - 1])
  }

  predicate NoStart(evs: seq<Event>) {
    forall i :: 0 <= i < |evs| ==> !evs[i].Start?
  }

  /**
   * Closing always counts the latch down, so a closed object has completed;
   * onStart reopens the object but a latch never counts back up.
   */
  predicate Reachable(st: State) {
    st.closed ==> st.completed
  }

  /** Every callback keeps the object reachable, starting from the fresh one. */
  lemma StepReachable(st: State, ev: Event)
    requires Reachable(st)
    ensures Reachable(Step(st, ev))
    ensures st.completed ==> Step(st, ev).completed
  {
  }

  lemma {:induction false} RunReachable(evs: seq<Event>)
    ensures Reachable(Run(Fresh, evs))
    decreases |evs|
  {
    if evs != [] {
      RunReachable(evs[..|evs| - 1]);
      StepReachable(Run(Fresh, evs[..|evs| - 1]), evs[|evs| - 1]);
    }
  }

  function Count(s: seq<nat>, x: nat): nat {
    if s == [] then 0 else Count(s[..|s| - 1], x) + (if s[|s| - 1] == x then 1 else 0)
  }

  // ----- single callbacks

  /** close() on an open object closes the current stream (if any) and completes the latch. */
  lemma CloseOpen(st: State)
    requires !st.closed
    ensures Step(st, Close).closed && Step(st, Close).completed
    ensures Step(st, Close).closedStreams
         == st.closedStreams + (if st.stream.Some? then [st.stream.value] else [])
    ensures Step(st, Close).(closed := st.closed, completed := st.completed, closedStreams := st.closedStreams) == st
  {
  }

  /** close() is idempotent: once closed, a further close() changes nothing. */
  lemma CloseIdempotent(st: State)
    ensures st.closed ==> Step(st, Close) == st
    ensures Step(Step(st, Close), Close) == Step(st, Close)
  {
  }

  /** onError is ignored once closed; otherwise it records the throwable last and closes. */
  lemma ErrorRecordedUnlessClosed(st: State, t: Throwable)
    ensures st.closed ==> Step(st, Error(t)) == st
    ensures !st.closed ==> (Step(st, Error(t)).errors == st.errors + [t] && Step(st, Error(t)).closed
                            && Step(st, Error(t)) == Step(st.(errors := st.errors + [t]), Close))
  {
  }

  /** onStart stores the stream and reopens; nothing else changes. */
  lemma StartReopens(st: State, s: Option<nat>)
    ensures Step(st, Start(s)).stream == s && !Step(st, Start(s)).closed
    ensures Step(st, Start(s)).(stream := st.stream, closed := st.closed) == st
  {
  }

  /**
   * onNext sets imageId only for a success item and error only for an error
   * item that is not a success, appends the item's stream text to the log, and
   * changes nothing else.
   */
  lemma NextRecords(st: State, item: ResponseItem)
    ensures var st' := Step(st, Next(item));
      && (st'.imageId == if item.buildSuccess then item.imageId else st.imageId)
      && (st'.error == if !item.buildSuccess && item.errorIndicated then item.error else st.error)
      && (st'.log == st.log + if item.stream.Some? then item.stream.value else "")
      && st'.(imageId := st.imageId, error := st.error, log := st.log) == st
  {
  }

  /** onComplete leaves the object closed with the latch completed. */
  lemma CompleteCloses(st: State)
    requires Reachable(st)
    ensures Step(st, Complete).closed && Step(st, Complete).completed
    ensures Step(st, Complete) == Step(st, Close)
  {
  }

  // ----- sequences of callbacks

  lemma CountSnoc(s: seq<nat>, y: nat, x: nat)
    ensures Count(s + [y], x) == Count(s, x) + (if y == x then 1 else 0)
  {
    assert (s + [y])[..|s + [y]| - 1] == s;
  }

  lemma RunSnoc(st: State, evs: seq<Event>, ev: Event)
    ensures Run(st, evs + [ev]) == Step(Run(st, evs), ev)
  {
    assert (evs + [ev])[..|evs + [ev]| - 1] == evs;
  }

  /**
   * Without a new onStart, the stream is closed at most once: starting from an
   * open object holding stream s, any callbacks add s to closedStreams at most
   * once, and exactly once if the object ends up closed.
   */
  lemma {:induction false} StreamClosedAtMostOnce(st: State, evs: seq<Event>, s: nat)
    requires !st.closed && st.stream == Some(s) && NoStart(evs)
    ensures var st' := Run(st, evs);
      && st'.stream == Some(s)
      && Count(st'.closedStreams, s) == Count(st.closedStreams, s) + (if st'.closed then 1 else 0)
    decreases |evs|
  {
    if evs != [] {
      var front := evs[..|evs| - 1];
      assert NoStart(front) by {
        forall i | 0 <= i < |front| ensures !front[i].Start? {
          assert front[i] == evs[i];
        }
      }
      StreamClosedAtMostOnce(st, front, s);
      var mid := Run(st, front);
      var ev := evs[|evs| - 1];
      assert !ev.Start?;
      if !mid.closed && (ev.Error? || ev.Complete? || ev.Close?) {
        CountSnoc(mid.closedStreams, s, s);
      }
    }
  }

  /** Once closed, and without a new onStart, further callbacks never record errors. */
  lemma {:induction false} ErrorsFrozenOnceClosed(st: State, evs: seq<Event>)
    requires st.closed && NoStart(evs)
    ensures Run(st, evs).closed && Run(st, evs).errors == st.errors
    ensures Run(st, evs).closedStreams == st.closedStreams
    decreases |evs|
  {
    if evs != [] {
      var front := evs[..|evs| - 1];
      assert NoStart(front) by {
        forall i | 0 <= i < |front| ensures !front[i].Start? {
          assert front[i] == evs[i];
        }
      }
      ErrorsFrozenOnceClosed(st, front);
      assert !evs[|evs| - 1].Start?;
    }
  }

  /** At most one throwable is recorded between two onStart calls. */
  lemma {:induction false} AtMostOneErrorPerStart(st: State, evs: seq<Event>)
    requires !st.closed && NoStart(evs)
    ensures |st.errors| <= |Run(st, evs).errors| <= |st.errors| + 1
    ensures Run(st, evs).errors[..|st.errors|] == st.errors
    ensures !Run(st, evs).closed ==> Run(st, evs).errors == st.errors
    decreases |evs|
  {
    if evs != [] {
      var front := evs[..|evs| - 1];
      assert NoStart(front) by {
        forall i | 0 <= i < |front| ensures !front[i].Start? {
          assert front[i] == evs[i];
        }
      }
      AtMostOneErrorPerStart(st, front);
      assert !evs[|evs| - 1].Start?;
    }
  }

  predicate IsSuccess(ev: Event) {
    ev.Next? && ev.item.buildSuccess
  }

  predicate NoError(evs: seq<Event>) {
    forall i :: 0 <= i < |evs| ==> !evs[i].Error?
  }

  /** Without onError callbacks no throwable is recorded. */
  lemma {:induction false} NoErrorKeepsErrors(st: State, evs: seq<Event>)
    requires NoError(evs)
    ensures Run(st, evs).errors == st.errors
    decreases |evs|
  {
    if evs != [] {
      var front := evs[..|evs| - 1];
      assert NoError(front) by {
        forall i | 0 <= i < |front| ensures !front[i].Error? {
          assert front[i] == evs[i];
        }
      }
      NoErrorKeepsErrors(st, front);
      assert !evs[|evs| - 1].Error?;
    }
  }

  /** Without a success item, imageId keeps its value. */
  lemma {:induction false} NoSuccessKeepsImageId(st: State, evs: seq<Event>)
    requires forall i :: 0 <= i < |evs| ==> !IsSuccess(evs[i])
    ensures Run(st, evs).imageId == st.imageId
    decreases |evs|
  {
    if evs != [] {
      var front := evs[..|evs| - 1];
      forall i | 0 <= i < |front| ensures !IsSuccess(front[i]) {
        assert front[i] == evs[i];
      }
      NoSuccessKeepsImageId(st, front);
      assert !IsSuccess(evs[|evs| - 1]);
    }
  }

  /** imageId is the one carried by the last success item. */
  lemma {:induction false} LastSuccessSetsImageId(st: State, evs: seq<Event>, i: nat)
    requires i < |evs| && IsSuccess(evs[i])
    requires forall j :: i < j < |evs| ==> !IsSuccess(evs[j])
    ensures Run(st, evs).imageId == evs[i].item.imageId
    decreases |evs|
  {
    var front := evs[..|evs| - 1];
    if i == |evs| - 1 {
    } else {
      forall j | i < j < |front| ensures !IsSuccess(front[j]) {
        assert front[j] == evs[j];
      }
      assert front[i] == evs[i];
      LastSuccessSetsImageId(st, front, i);
      assert !IsSuccess(evs[|evs| - 1]);
    }
  }
}
