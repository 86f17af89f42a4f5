// model/BuildListener.java: the callback object the build mojo hands to the
// docker client.  The fields change under the callbacks exactly as the shared
// Callback.Step describes; awaitImageId turns the final fields into the image
// id or a MojoExecutionException.

module BuildListenerModel {
  import opened Wrappers
  import opened Callback

  /** What awaitImageId throws. */
  datatype Thrown =
      /** MojoExecutionException("exception(s) processing response stream") carrying the recorded throwables as its causes. */
    | StreamFailed(causes: seq<Throwable>)
      /** IllegalStateException thrown by Throwable.initCause when a cause is already set. */
    | CauseOverwritten(cause: Throwable)
      /** MojoExecutionException with the given message. */
    | BuildFailed(message: string)

  /**
   * awaitImageId as written: the exception's cause is set once per recorded
   * throwable, and Throwable.initCause refuses a second call.
   */
  function AwaitedAsWritten(st: State): (r: Result<string, Thrown>)
    ensures r.Ok? <==> st.errors == [] && st.imageId.Some?
    ensures r.Ok? ==> r.value == st.imageId.value
    ensures r.Err? && r.error.CauseOverwritten? <==> |st.errors| >= 2
    ensures r.Err? && r.error.CauseOverwritten? ==> r.error == CauseOverwritten(st.errors[1])
  {
    if |st.errors| == 1 then Err(StreamFailed(st.errors))
    else if |st.errors| > 1 then Err(CauseOverwritten(st.errors[1]))
    else if st.imageId.Some? then Ok(st.imageId.value)
    else Err(BuildFailed(FailureMessage(st.error)))
  }

  /** awaitImageId with every recorded throwable attached to the exception. */
  function Awaited(st: State): Result<string, Thrown> {
    if st.errors != [] then Err(StreamFailed(st.errors))
    else if st.imageId.Some? then Ok(st.imageId.value)
    else Err(BuildFailed(FailureMessage(st.error)))
  }

  class BuildListener {
    var errors: seq<Throwable>
    var imageId: Option<string>
    var error: Option<string>
    var stream: Option<nat>
    var closed: bool
    var completed: bool
    var log: string
    var closedStreams: seq<nat>

    function State(): State
      reads this
    {
      Callback.State(errors, imageId, error, stream, closed, completed, log, closedStreams)
    }

    constructor()
      ensures State() == Fresh
    {
      errors := [];
      imageId := None;
      error := None;
      stream := None;
      closed := false;
      completed := false;
      log := "";
      closedStreams := [];
    }

    method OnStart(theStream: Option<nat>)
      modifies this
      ensures State() == Step(old(State()), Start(theStream))
    {
      stream := theStream;
      closed := false;
    }

    method OnNext(item: ResponseItem)
      modifies this
      ensures State() == Step(old(State()), Next(item))
    {
      if item.stream.Some? {
        log := log + item.stream.value;
      }
      if item.buildSuccess {
        imageId := item.imageId;
      } else if item.errorIndicated {
        error := item.error;
      }
    }

    method OnError(throwable: Throwable)
      modifies this
      ensures State() == Step(old(State()), Error(throwable))
    {
      if closed {
        return;
      }
      errors := errors + [throwable];
      Close();
    }

    method OnComplete()
      modifies this
      ensures State() == Step(old(State()), Complete)
    {
      Close();
    }

    method Close()
      modifies this
      ensures State() == Step(old(State()), Callback.Close)
    {
      if !closed {
        closed := true;
        if stream.Some? {
          closedStreams := closedStreams + [stream.value];
        }
        completed := true;
      }
    }

    /** Called once the latch has counted down; closes and reports the outcome. */
    method AwaitImageId() returns (r: Result<string, Thrown>)
      requires completed
      modifies this
      ensures State() == Step(old(State()), Callback.Close)
      ensures closed
      ensures r == Awaited(State())
    {
      Close();
      if errors != [] {
        var causes := [];
        for i := 0 to |errors|
          invariant causes == errors[..i]
        {
          causes := causes + [errors[i]];
        }
        assert errors[..|errors|] == errors;
        return Err(StreamFailed(causes));
      }
      if imageId.Some? {
        return Ok(imageId.value);
      } else {
        return Err(BuildFailed(FailureMessage(error)));
      }
    }
  }

  /**
   * Precedence of the outcome: recorded throwables first (all of them, in
   * order), then the image id, then the failure message.
   */
  lemma AwaitedPrecedence(st: State)
    ensures Awaited(st).Ok? <==> st.errors == [] && st.imageId.Some?
    ensures Awaited(st).Ok? ==> Some(Awaited(st).value) == st.imageId
    ensures st.errors != [] ==> Awaited(st) == Err(StreamFailed(st.errors))
    ensures st.errors == [] && st.imageId.None? ==> Awaited(st) == Err(BuildFailed(FailureMessage(st.error)))
  {
  }

  /** An onError on an open listener makes awaitImageId fail, citing that throwable last. */
  lemma ErrorMakesAwaitFail(st: State, t: Throwable)
    requires !st.closed
    ensures Awaited(Step(st, Error(t))) == Err(StreamFailed(st.errors + [t]))
  {
  }

  /**
   * A build whose callbacks report no error returns the image id of the last
   * success item, provided that item carries one.
   */
  lemma {:induction false} AwaitedLastSuccess(evs: seq<Event>, i: nat, id: string)
    requires NoError(evs) && i < |evs| && IsSuccess(evs[i]) && evs[i].item.imageId == Some(id)
    requires forall j :: i < j < |evs| ==> !IsSuccess(evs[j])
    ensures Awaited(Run(Fresh, evs)) == Ok(id)
  {
    NoErrorKeepsErrors(Fresh, evs);
    LastSuccessSetsImageId(Fresh, evs, i);
  }

  /** A build without errors and without success items fails with the failure message. */
  lemma {:induction false} AwaitedWithoutSuccess(evs: seq<Event>)
    requires NoError(evs) && forall j :: 0 <= j < |evs| ==> !IsSuccess(evs[j])
    ensures Awaited(Run(Fresh, evs)) == Err(BuildFailed(FailureMessage(Run(Fresh, evs).error)))
  {
    NoErrorKeepsErrors(Fresh, evs);
    NoSuccessKeepsImageId(Fresh, evs);
  }

  /** As written and corrected agree unless two or more throwables were recorded. */
  lemma AsWrittenAgreesUpToOneError(st: State)
    requires |st.errors| <= 1
    ensures AwaitedAsWritten(st) == Awaited(st)
  {
  }

  /**
   * A stream restarted after a failure and failing again leaves two recorded
   * throwables; awaitImageId as written then throws IllegalStateException for
   * the second one instead of the MojoExecutionException.
   */
  lemma SecondErrorOverwritesCause()
    ensures var t1 := Throwable(Runtime, 1);
      var t2 := Throwable(Runtime, 2);
      var st := Run(Fresh, [Start(Some(1)), Error(t1), Start(Some(2)), Error(t2)]);
      && st.errors == [t1, t2]
      && AwaitedAsWritten(st) == Err(CauseOverwritten(t2))
      && Awaited(st) == Err(StreamFailed([t1, t2]))
  {
    var t1 := Throwable(Runtime, 1);
    var t2 := Throwable(Runtime, 2);
    var e1 := [Start(Some(1))];
    var e2 := e1 + [Error(t1)];
    var e3 := e2 + [Start(Some(2))];
    RunSnoc(Fresh, [], Start(Some(1)));
    assert [] + e1 == e1;
    RunSnoc(Fresh, e1, Error(t1));
    RunSnoc(Fresh, e2, Start(Some(2)));
    RunSnoc(Fresh, e3, Error(t2));
    assert e3 + [Error(t2)] == [Start(Some(1)), Error(t1), Start(Some(2)), Error(t2)];
  }
}
