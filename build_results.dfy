// BuildResults.java: the same callback object as model/BuildListener.java
// (fields and callbacks follow Callback.Step), except that awaitImageId
// rethrows the first recorded throwable and reports failure with a
// DockerClientException.

module BuildResultsModel {
  import opened Wrappers
  import opened Callback

  /** What awaitImageId throws. */
  datatype Thrown =
      /** The recorded Error or RuntimeException itself. */
    | Rethrown(throwable: Throwable)
      /** new RuntimeException(throwable) around a checked throwable. */
    | Wrapped(throwable: Throwable)
      /** DockerClientException with the given message. */
    | BuildFailed(message: string)

  /** Unchecked throwables propagate as they are; checked ones are wrapped. */
  function Rethrow(first: Throwable): Thrown {
    if first.kind == JavaError || first.kind == Runtime then Rethrown(first) else Wrapped(first)
  }

  function Awaited(st: State): Result<string, Thrown> {
    if st.errors != [] then Err(Rethrow(st.errors[0]))
    else if st.imageId.Some? then Ok(st.imageId.value)
    else Err(BuildFailed(FailureMessage(st.error)))
  }

  class BuildResults {
    var errors: seq<Throwable>
    var imageId: Option<string>
    var error: Option<string>
    var stream: Option<nat>
    var closed: bool
    var completed: bool
    var log: string
    var closedStreams: seq<nat>

    function State(): State
      reads this
    {
      Callback.State(errors, imageId, error, stream, closed, completed, log, closedStreams)
    }

    constructor()
      ensures State() == Fresh
    {
      errors := [];
      imageId := None;
      error := None;
      stream := None;
      closed := false;
      completed := false;
      log := "";
      closedStreams := [];
    }

    method OnStart(theStream: Option<nat>)
      modifies this
      ensures State() == Step(old(State()), Start(theStream))
    {
      stream := theStream;
      closed := false;
    }

    method OnNext(item: ResponseItem)
      modifies this
      ensures State() == Step(old(State()), Next(item))
    {
      if item.stream.Some? {
        log := log + item.stream.value;
      }
      if item.buildSuccess {
        imageId := item.imageId;
      } else if item.errorIndicated {
        error := item.error;
      }
    }

    method OnError(throwable: Throwable)
      modifies this
      ensures State() == Step(old(State()), Error(throwable))
    {
      if closed {
        return;
      }
      errors := errors + [throwable];
      Close();
    }

    method OnComplete()
      modifies this
      ensures State() == Step(old(State()), Complete)
    {
      Close();
    }

    method Close()
      modifies this
      ensures State() == Step(old(State()), Callback.Close)
    {
      if !closed {
        closed := true;
        if stream.Some? {
          closedStreams := closedStreams + [stream.value];
        }
        completed := true;
      }
    }

    /** Called once the latch has counted down; closes and reports the outcome. */
    method AwaitImageId() returns (r: Result<string, Thrown>)
      requires completed
      modifies this
      ensures State() == Step(old(State()), Callback.Close)
      ensures closed
      ensures r == Awaited(State())
    {
      Close();
      if errors != [] {
        var first := errors[0];
        if first.kind == JavaError {
          return Err(Rethrown(first));
        }
        if first.kind == Runtime {
          return Err(Rethrown(first));
        }
        return Err(Wrapped(first));
      }
      if imageId.Some? {
        return Ok(imageId.value);
      } else {
        return Err(BuildFailed(FailureMessage(error)));
      }
    }
  }

  /**
   * With recorded throwables awaitImageId throws the first one (wrapped only
   * when it is checked); otherwise the image id, then the failure message.
   */
  lemma AwaitedPrecedence(st: State)
    ensures Awaited(st).Ok? <==> st.errors == [] && st.imageId.Some?
    ensures Awaited(st).Ok? ==> Some(Awaited(st).value) == st.imageId
    ensures st.errors != [] ==> (Awaited(st).Err? && !Awaited(st).error.BuildFailed?
                                 && Awaited(st).error.throwable == st.errors[0])
    ensures st.errors != [] ==> (Awaited(st).error.Rethrown? <==> st.errors[0].kind != Checked)
    ensures st.errors == [] && st.imageId.None? ==> Awaited(st) == Err(BuildFailed(FailureMessage(st.error)))
  {
  }

  /** Throwables recorded after the first one never change the outcome. */
  lemma LaterErrorsIgnored(st: State, more: seq<Throwable>)
    requires st.errors != []
    ensures Awaited(st.(errors := st.errors + more)) == Awaited(st)
  {
    assert (st.errors + more)[0] == st.errors[0];
  }

  /** The first onError on an open object decides the outcome. */
  lemma FirstErrorDecides(st: State, t: Throwable, evs: seq<Event>)
    requires !st.closed && st.errors == [] && NoStart(evs)
    ensures Awaited(Run(Step(st, Error(t)), evs)) == Err(Rethrow(t))
  {
    ErrorsFrozenOnceClosed(Step(st, Error(t)), evs);
  }

  /**
   * A build whose callbacks report no error returns the image id of the last
   * success item, provided that item carries one.
   */
  lemma {:induction false} AwaitedLastSuccess(evs: seq<Event>, i: nat, id: string)
    requires NoError(evs) && i < |evs| && IsSuccess(evs[i]) && evs[i].item.imageId == Some(id)
    requires forall j :: i < j < |evs| ==> !IsSuccess(evs[j])
    ensures Awaited(Run(Fresh, evs)) == Ok(id)
  {
    NoErrorKeepsErrors(Fresh, evs);
    LastSuccessSetsImageId(Fresh, evs, i);
  }

  /** A build without errors and without success items fails with the failure message. */
  lemma {:induction false} AwaitedWithoutSuccess(evs: seq<Event>)
    requires NoError(evs) && forall j :: 0 <= j < |evs| ==> !IsSuccess(evs[j])
    ensures Awaited(Run(Fresh, evs)) == Err(BuildFailed(FailureMessage(Run(Fresh, evs).error)))
  {
    NoErrorKeepsErrors(Fresh, evs);
    NoSuccessKeepsImageId(Fresh, evs);
  }
}
