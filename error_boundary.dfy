/**
 * The React error boundary (components/error-boundary.tsx). Its state
 * `{hasError, error}` is replaced when a child throws and cleared by
 * `resetError`; `render` picks between the children and a fallback view.
 *
 * JavaScript can throw any value, so the caught error is a `JsValue`;
 * `null` is `JNull`. The `onError` callback is observed by recording the
 * errors it has been called with.
 */
module ErrorBoundaries {
  import opened Wrappers
  import opened JsValues

  /** `{hasError, error}`. */
  datatype BoundaryState = BoundaryState(hasError: bool, error: JsValue)

  /** What the boundary can go through: a child throws `error`, or the fallback's reset button is pressed. */
  datatype Event = Throw(error: JsValue) | Reset

  /** The state set by the constructor and restored by `resetError`. */
  const Initial: BoundaryState := BoundaryState(false, JNull)

  /** The state after an event; neither transition looks at the state before it. */
  function Step(s: BoundaryState, e: Event): (r: BoundaryState)
    ensures e.Throw? ==> r.hasError && r.error == e.error
    ensures e.Reset? ==> r == Initial
  {
    match e
    case Throw(err) => ErrorBoundary.DerivedStateFromError(err)
    case Reset => Initial
  }

  /** The state after a sequence of events, starting from the constructor's state. */
  function Run(events: seq<Event>): BoundaryState
  {
    if events == [] then Initial else Step(Run(events[..|events| - 1]), events[|events| - 1])
  }

  /** `this.state.hasError && this.state.error`. */
  predicate ShowsFallback(s: BoundaryState)
  {
    s.hasError && Truthy(s.error)
  }

  /** The component that renders the error: the one passed as `fallback`, else the default one. */
  datatype FallbackComponent = Custom(name: string) | DefaultErrorFallback

  /** What `render` returns. */
  datatype View = Children | Fallback(component: FallbackComponent, error: JsValue)

  class ErrorBoundary {
    /** `props.fallback`: the name of the component passed, if any. */
    const fallback: Option<string>
    /** Whether `props.onError` was passed. */
    const hasOnError: bool
    var state: BoundaryState
    /** The errors `onError` has been called with, oldest first. */
    var reported: seq<JsValue>

    constructor(fallback: Option<string>, hasOnError: bool)
      ensures this.fallback == fallback && this.hasOnError == hasOnError
      ensures state == Initial && !ShowsFallback(state)
      ensures reported == []
    {
      this.fallback := fallback;
      this.hasOnError := hasOnError;
      state := Initial;
      reported := [];
    }

    /** `getDerivedStateFromError(error)`. */
    static function DerivedStateFromError(error: JsValue): (s: BoundaryState)
      ensures s.hasError && s.error == error
      ensures ShowsFallback(s) <==> Truthy(error)
    {
      BoundaryState(true, error)
    }

    /** React applying `getDerivedStateFromError` after a child threw `error`. */
    method ApplyDerivedState(error: JsValue)
      modifies this
      ensures state == Step(old(state), Throw(error))
      ensures reported == old(reported)
    {
      state := DerivedStateFromError(error);
    }

    /** `componentDidCatch(error)`: hands the error to `onError` exactly when one was passed. */
    method ComponentDidCatch(error: JsValue)
      modifies this
      ensures reported == old(reported) + (if hasOnError then [error] else [])
      ensures state == old(state)
    {
      if hasOnError {
        reported := reported + [error];
      }
    }

    /** `resetError()`. */
    method ResetError()
      modifies this
      ensures state == Step(old(state), Reset) && !ShowsFallback(state)
      ensures reported == old(reported)
    {
      state := BoundaryState(false, JNull);
    }

    /** `render()`. */
    function Render(): (v: View)
      reads this
      ensures v.Fallback? <==> ShowsFallback(state)
      ensures v.Fallback? ==> v.error == state.error
      ensures v.Fallback? ==> (v.component == DefaultErrorFallback <==> fallback.None?)
      ensures v.Fallback? && fallback.Some? ==> v.component == Custom(fallback.value)
    {
      if state.hasError && Truthy(state.error) then
        Fallback(if fallback.Some? then Custom(fallback.value) else DefaultErrorFallback, state.error)
      else Children
    }
  }

  /** `resetError` restores the initial state whatever the state was, and a second reset changes nothing. */
  lemma ResetIdempotent(s: BoundaryState)
    ensures Step(s, Reset) == Initial
    ensures Step(Step(s, Reset), Reset) == Step(s, Reset)
  {
  }

  /**
   * After any history, the fallback is shown exactly when the last event was a
   * child throwing a truthy value; a thrown `null`, `0` or `""` leaves the
   * children rendered although `hasError` is set.
   */
  lemma {:induction false} FallbackIffLastThrowTruthy(events: seq<Event>)
    ensures ShowsFallback(Run(events)) <==>
              events != [] && events[|events| - 1].Throw? && Truthy(events[|events| - 1].error)
    ensures Run(events).hasError <==> events != [] && events[|events| - 1].Throw?
  {
    if events != [] {
      var last := events[|events| - 1];
      assert Run(events) == Step(Run(events[..|events| - 1]), last);
    }
  }
}
