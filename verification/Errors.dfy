/** Error values of the apply run: wrapping keeps nil and keeps the abort or continue class. */
module Errors {
  import opened Options

  /** Error values that are compared by identity. */
  datatype Sentinel = ErrAbort | ErrContinue | Other(id: nat)

  datatype Err =
    | Plain(sentinel: Sentinel)
    | AbortError(inner: Err)
    | ContinueError(inner: Err)
    | CError(inner: Err)                       // the wrapper of Wrap and Wrapf
    | Formatted(message: string, inner: Err)   // fmt.Errorf with a wrapped error
    | Message(message: string)                 // fmt.Errorf without one

  /** errors.Is for a sentinel target. AbortError and ContinueError have an Is method and no
      Unwrap, so the error inside them is never looked at. */
  predicate Is(err: Err, target: Sentinel) {
    match err
    case Plain(s) => s == target
    case AbortError(_) => target == ErrAbort
    case ContinueError(_) => target == ErrContinue
    case CError(inner) => Is(inner, target)
    case Formatted(_, inner) => Is(inner, target)
    case Message(_) => false
  }

  predicate IsSome(err: Option<Err>, target: Sentinel) {
    err.Some? && Is(err.value, target)
  }

  function Wrap(err: Option<Err>): Option<Err> {
    match err
    case None => None
    case Some(e) => Some(CError(e))
  }

  function Wrapf(err: Option<Err>, message: string): Option<Err> {
    match err
    case None => None
    case Some(e) => Wrap(Some(Formatted(message, e)))
  }

  datatype Layer = Bare | WithMessage(message: string)

  /** Any number of calls of Wrap and Wrapf, the first layer innermost. */
  function WrapAll(err: Option<Err>, layers: seq<Layer>): Option<Err> {
    if layers == [] then err
    else
      var inner := WrapAll(err, layers[..|layers| - 1]);
      match layers[|layers| - 1]
      case Bare => Wrap(inner)
      case WithMessage(m) => Wrapf(inner, m)
  }

  const FAILURE_CONTINUE := "continue"
  const FAILURE_ABORT := "abort"

  /** The error of a failed execution, classed by the manifest's onFailure setting. */
  function NewError(onFailure: string, err: Option<Err>): Option<Err> {
    match err
    case None => None
    case Some(e) =>
      if onFailure == FAILURE_CONTINUE then Some(ContinueError(e))
      else if onFailure == FAILURE_ABORT then Some(AbortError(e))
      else Some(Message("unknown onFailure action: " + onFailure))
  }

  /** Wrapping any number of times neither invents nor hides an error, and never changes
      what the error is. */
  lemma {:induction false} WrappingKeepsClass(err: Option<Err>, layers: seq<Layer>, target: Sentinel)
    ensures WrapAll(err, layers).None? <==> err.None?
    ensures IsSome(WrapAll(err, layers), target) <==> IsSome(err, target)
  {
    if layers != [] {
      WrappingKeepsClass(err, layers[..|layers| - 1], target);
      var inner := WrapAll(err, layers[..|layers| - 1]);
      match layers[|layers| - 1]
      case Bare =>
      case WithMessage(m) =>
        assert inner.Some? ==> Is(Formatted(m, inner.value), target) == Is(inner.value, target);
    }
  }

  /** A failure is an abort error exactly when onFailure says abort, and a continue error
      exactly when it says continue, whatever the failure was and however it is wrapped;
      with any other setting it is neither. */
  lemma FailureClass(onFailure: string, err: Option<Err>, layers: seq<Layer>)
    ensures var e := WrapAll(NewError(onFailure, err), layers);
            && (e.None? <==> err.None?)
            && (IsSome(e, ErrAbort) <==> err.Some? && onFailure == FAILURE_ABORT)
            && (IsSome(e, ErrContinue) <==> err.Some? && onFailure == FAILURE_CONTINUE)
  {
    WrappingKeepsClass(NewError(onFailure, err), layers, ErrAbort);
    WrappingKeepsClass(NewError(onFailure, err), layers, ErrContinue);
  }
}
