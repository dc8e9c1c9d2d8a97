/**
 * `main_loop` of src/appsink.rs: start the pipeline, watch its bus until the
 * first end-of-stream or error message, and shut the pipeline down.
 */
module Bus {
  import opened Wrappers

  /** The pipeline states the loop asks for (`gst::State`). */
  datatype State = Null | Ready | Paused | Playing

  /** A `glib::Error`; its `to_string()` is its message. */
  datatype GlibError = GlibError(message: string)

  /**
   * A bus message as `msg.view()` classifies it. An error message carries
   * the path string of its source object when it has one.
   */
  datatype Message =
    | Eos
    | Error(src: Option<string>, error: GlibError, debug: Option<string>)
    | Other

  /** `ErrorMessage { src, error, debug, source }`. */
  datatype ErrorMessage = ErrorMessage(src: string, error: string, debug: Option<string>, source: GlibError)

  /** `gst::StateChangeError`, recording the state that could not be reached. */
  datatype StateChangeError = StateChangeError(target: State)

  /** The two kinds of `anyhow::Error` that `main_loop` can return. */
  datatype LoopError = StateChange(failed: StateChangeError) | Received(message: ErrorMessage)

  /** An error message turned into the `ErrorMessage` the loop returns. */
  function ErrorMessageOf(src: Option<string>, error: GlibError, debug: Option<string>): ErrorMessage
  {
    ErrorMessage(
      match src case Some(path) => path case None => "None",
      error.message, debug, error)
  }

  /** Where reading the bus ends: it ran out of messages, or it met an Eos or an Error. */
  datatype Stop = Exhausted | AtEos | AtError(message: ErrorMessage)

  /** The stop a single message causes, if any. */
  function StopOf(m: Message): Stop
  {
    match m
    case Eos => AtEos
    case Error(src, error, debug) => AtError(ErrorMessageOf(src, error, debug))
    case Other => Exhausted
  }

  /** The dispatch of the `for msg in bus.iter_timed(..)` loop, as a fold over the messages. */
  function Dispatch(bus: seq<Message>): (r: Stop)
    ensures r.Exhausted? <==> forall j :: 0 <= j < |bus| ==> bus[j].Other?
  {
    if bus == [] then Exhausted
    else if bus[0].Other? then Dispatch(bus[1..])
    else StopOf(bus[0])
  }

  /** The index of the first Eos or Error message, or the number of messages when there is none. */
  function FirstStop(bus: seq<Message>): (k: nat)
    ensures k <= |bus|
    ensures forall j :: 0 <= j < k ==> bus[j].Other?
    ensures k < |bus| ==> !bus[k].Other?
  {
    if bus == [] || !bus[0].Other? then 0 else 1 + FirstStop(bus[1..])
  }

  /** The loop stops at the first Eos or Error and reports exactly that message. */
  lemma {:induction false} DispatchAtFirstStop(bus: seq<Message>)
    ensures Dispatch(bus) == if FirstStop(bus) == |bus| then Exhausted else StopOf(bus[FirstStop(bus)])
  {
    if bus != [] && bus[0].Other? {
      DispatchAtFirstStop(bus[1..]);
    }
  }

  /** Messages other than Eos and Error are ignored wherever they occur. */
  lemma {:induction false} DispatchIgnoresOther(before: seq<Message>, after: seq<Message>)
    ensures Dispatch(before + [Other] + after) == Dispatch(before + after)
  {
    if before == [] {
      assert (before + [Other] + after)[1..] == after;
      assert before + after == after;
    } else {
      assert (before + [Other] + after)[1..] == before[1..] + [Other] + after;
      assert (before + after)[1..] == before[1..] + after;
      DispatchIgnoresOther(before[1..], after);
    }
  }

  /** Once an Eos or Error has been read, no later message is examined. */
  lemma {:induction false} DispatchIgnoresRest(read: seq<Message>, rest: seq<Message>)
    ensures Dispatch(read + rest) == if Dispatch(read).Exhausted? then Dispatch(rest) else Dispatch(read)
  {
    if read == [] {
      assert read + rest == rest;
    } else {
      assert (read + rest)[0] == read[0];
      assert (read + rest)[1..] == read[1..] + rest;
      DispatchIgnoresRest(read[1..], rest);
    }
  }

  /**
   * The pipeline object, reduced to its current state. Which state changes
   * the underlying elements refuse is decided outside the model; `refused`
   * names those target states.
   */
  class Pipeline {
    var state: State
    const refused: set<State>

    constructor (refused: set<State>)
      ensures state == Null && this.refused == refused
    {
      state := Null;
      this.refused := refused;
    }

    /** `pipeline.set_state(target)`. */
    method SetState(target: State) returns (r: Result<(), StateChangeError>)
      modifies this
      ensures r == if target in refused then Failure(StateChangeError(target)) else Success(())
      ensures state == if target in refused then old(state) else target
    {
      if target in refused {
        r := Failure(StateChangeError(target));
      } else {
        state := target;
        r := Success(());
      }
    }
  }

  /** The pipeline state `main_loop` leaves behind and its result. */
  datatype LoopRun = LoopRun(state: State, result: Result<(), LoopError>)

  /** What `main_loop` does, starting from `start` with `refused` state changes failing. */
  function RunMainLoop(start: State, refused: set<State>, bus: seq<Message>): (r: LoopRun)
    ensures r.result.Success? <==> Playing !in refused && Null !in refused && !Dispatch(bus).AtError?
    ensures r.result.Success? ==> r.state == Null
    ensures r.result.Failure? && r.result.error.Received? ==>
      r.state == Null && Dispatch(bus) == AtError(r.result.error.message)
    ensures r.result.Failure? && r.result.error.StateChange? ==>
      r.result.error.failed.target in refused && (r.state == start || r.state == Playing)
  {
    if Playing in refused then LoopRun(start, Failure(StateChange(StateChangeError(Playing))))
    else if Null in refused then LoopRun(Playing, Failure(StateChange(StateChangeError(Null))))
    else match Dispatch(bus)
      case AtError(message) => LoopRun(Null, Failure(Received(message)))
      case _ => LoopRun(Null, Success(()))
  }

  /** `main_loop(pipeline)` reading the messages `bus` until the first stop or the end of the bus. */
  method MainLoop(pipeline: Pipeline, bus: seq<Message>) returns (r: Result<(), LoopError>)
    modifies pipeline
    ensures LoopRun(pipeline.state, r) == RunMainLoop(old(pipeline.state), pipeline.refused, bus)
  {
    var started := pipeline.SetState(Playing);
    if started.Failure? {
      return Failure(StateChange(started.error));
    }
    var i := 0;
    while i < |bus|
      invariant 0 <= i <= |bus|
      invariant Dispatch(bus) == Dispatch(bus[i..])
      invariant pipeline.state == Playing
    {
      match bus[i]
      case Eos =>
        break;
      case Error(src, error, debug) =>
        var stopped := pipeline.SetState(Null);
        if stopped.Failure? {
          return Failure(StateChange(stopped.error));
        }
        return Failure(Received(ErrorMessageOf(src, error, debug)));
      case Other =>
        assert bus[i..][1..] == bus[i + 1..];
        i := i + 1;
    }
    var stopped := pipeline.SetState(Null);
    if stopped.Failure? {
      return Failure(StateChange(stopped.error));
    }
    r := Success(());
  }

  /** When every state change succeeds, the loop always leaves the pipeline in Null. */
  lemma MainLoopEndsInNull(start: State, bus: seq<Message>)
    ensures RunMainLoop(start, {}, bus).state == Null
  {
  }

  /**
   * When every state change succeeds, the loop returns Ok exactly when no
   * Error precedes the first Eos. Otherwise it returns an `ErrorMessage` built
   * from that Error: its source's path, or "None" when it has no source, the
   * error's text, its debug detail and the error itself.
   */
  lemma {:induction false} MainLoopResult(start: State, bus: seq<Message>)
    ensures var k := FirstStop(bus);
      var result := RunMainLoop(start, {}, bus).result;
      && (result.Success? <==> !(k < |bus| && bus[k].Error?))
      && (result.Failure? ==>
            && k < |bus| && bus[k].Error? && result.error.Received?
            && result.error.message.src == (if bus[k].src.Some? then bus[k].src.value else "None")
            && result.error.message.error == bus[k].error.message
            && result.error.message.debug == bus[k].debug
            && result.error.message.source == bus[k].error)
  {
    DispatchAtFirstStop(bus);
  }

  /** Messages queued after the first Eos or Error do not affect the loop. */
  lemma MainLoopIgnoresRest(start: State, refused: set<State>, read: seq<Message>, rest: seq<Message>)
    requires !Dispatch(read).Exhausted?
    ensures RunMainLoop(start, refused, read + rest) == RunMainLoop(start, refused, read)
  {
    DispatchIgnoresRest(read, rest);
  }
}
