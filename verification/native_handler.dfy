/** `NativeHandler` (CSharp/src/LiteCore.Shared/Interop/NativeHandler.cs):
    runs a native call that reports failure through an out `C4Error`,
    records the failure in `Exception`, and then either swallows it (when it
    is on the allow-list), passes it to the exception handler, or throws it.

    The handler object is a value here: every fluent call returns the
    updated handler, and an `Execute` returns an `Outcome` that carries the
    handler's new state, the value returned and the calls made to the
    exception handler, or the error thrown. The native call itself is
    replaced by what it produced: its return value and the error it wrote. */
module NativeHandler {
  import opened Wrappers
  import opened C4Base

  /** The fields of a `NativeHandler`: `_allowedErrors`, whether
      `_exceptionHandler` is set, and `Exception` (`None` for null). */
  datatype Handler = Handler(allowed: seq<C4Error>, hasHandler: bool, exception: Option<C4Error>)

  /** `NativeHandler.Create()`. */
  const Create := Handler([], false, None)

  /** What `ThrowOrHandle` does with the recorded exception. */
  datatype Disposition = Quiet | CallHandler(error: C4Error) | Throw(error: C4Error)

  /** What an `Execute` call ends in: a return (with the handler calls made
      on the way) or a thrown `LiteCoreException`. */
  datatype Outcome<T> =
    | Returned(state: Handler, value: T, handlerCalls: seq<C4Error>)
    | Threw(state: Handler, error: C4Error)

  // ---------------------------------------------------------------------------
  // Configuration
  // ---------------------------------------------------------------------------

  /** `AllowError(C4Error)`: appends to the allow-list. */
  function AllowError(h: Handler, e: C4Error): (r: Handler)
    ensures r.allowed == h.allowed + [e]
    ensures r.hasHandler == h.hasHandler && r.exception == h.exception
  {
    h.(allowed := h.allowed + [e])
  }

  /** `AllowError(int code, C4ErrorDomain domain)`. */
  function AllowErrorCode(h: Handler, code: int, domain: C4ErrorDomain): (r: Handler)
    ensures r.allowed == h.allowed + [C4Error(domain, code, 0)]
    ensures r.hasHandler == h.hasHandler && r.exception == h.exception
  {
    AllowError(h, MakeError(domain, code))
  }

  /** `AllowErrors(IEnumerable<C4Error>)` (and the `params` overload that
      forwards to it): each error is allowed in turn; a null sequence is
      treated as empty. */
  method AllowErrors(h: Handler, errors: Option<seq<C4Error>>) returns (r: Handler)
    ensures errors.None? ==> r == h
    ensures errors.Some? ==> r.allowed == h.allowed + errors.value
    ensures r.hasHandler == h.hasHandler && r.exception == h.exception
  {
    var es := if errors.Some? then errors.value else [];
    r := h;
    var i := 0;
    while i < |es|
      invariant 0 <= i <= |es|
      invariant r == h.(allowed := h.allowed + es[..i])
    {
      r := AllowError(r, es[i]);
      assert es[..i + 1] == es[..i] + [es[i]];
      i := i + 1;
    }
    assert es[..i] == es;
    if errors.None? {
      assert h.allowed + [] == h.allowed;
    }
  }

  /** `HandleExceptions`: sets (or, given null, clears) the handler. */
  function HandleExceptions(h: Handler, present: bool): (r: Handler)
    ensures r.hasHandler == present
    ensures r.allowed == h.allowed && r.exception == h.exception
  {
    h.(hasHandler := present)
  }

  // ---------------------------------------------------------------------------
  // The allow-list
  // ---------------------------------------------------------------------------

  /** One allow-list entry covers an error when it equals the error, or when
      its domain is zero and its code matches. */
  predicate Covers(entry: C4Error, e: C4Error) {
    entry == e || (entry.domain == NoDomain && entry.code == e.code)
  }

  /** The loop in `ThrowOrHandle` that looks for a covering entry. */
  function IsAllowed(allowed: seq<C4Error>, e: C4Error): (r: bool)
    ensures r <==> exists i :: 0 <= i < |allowed| && Covers(allowed[i], e)
    decreases |allowed|
  {
    if |allowed| == 0 then false
    else if Covers(allowed[0], e) then true
    else
      var rest := IsAllowed(allowed[1..], e);
      assert forall i :: 1 <= i < |allowed| ==> allowed[i] == allowed[1..][i - 1];
      rest
  }

  /** `ThrowOrHandle`: nothing when no exception is recorded or it is
      allowed; otherwise the handler is called when one is set, and the
      exception is thrown when none is. */
  function ThrowOrHandle(h: Handler): (d: Disposition)
    ensures h.exception.None? ==> d == Quiet
    ensures h.exception.Some? ==> (d == Quiet <==> IsAllowed(h.allowed, h.exception.value))
    ensures d.Throw? <==> h.exception.Some? && !IsAllowed(h.allowed, h.exception.value) && !h.hasHandler
    ensures d.CallHandler? <==> h.exception.Some? && !IsAllowed(h.allowed, h.exception.value) && h.hasHandler
    ensures !d.Quiet? ==> h.exception == Some(d.error)
  {
    match h.exception
    case None => Quiet
    case Some(e) =>
      if IsAllowed(h.allowed, e) then Quiet
      else if !h.hasHandler then Throw(e)
      else CallHandler(e)
  }

  // ---------------------------------------------------------------------------
  // Execute
  // ---------------------------------------------------------------------------

  /** The part the four `Execute` overloads share: on success `Exception` is
      cleared and `onSuccess` returned; on failure the error is recorded and
      `ThrowOrHandle` decides, and `onFailure` is returned unless it threw. */
  function Complete<T>(h: Handler, ok: bool, onSuccess: T, onFailure: T, err: C4Error): (r: Outcome<T>)
    ensures r.state.allowed == h.allowed && r.state.hasHandler == h.hasHandler
    ensures r.state.exception == (if ok then None else Some(err))
    ensures ok ==> r == Returned(r.state, onSuccess, [])
    ensures r.Threw? <==> !ok && !IsAllowed(h.allowed, err) && !h.hasHandler
    ensures r.Threw? ==> r.error == err
    ensures r.Returned? && !ok ==> r.value == onFailure
    ensures r.Returned? ==> (r.handlerCalls == [] || r.handlerCalls == [err])
    ensures r.Returned? ==> (r.handlerCalls == [err] <==> !ok && !IsAllowed(h.allowed, err) && h.hasHandler)
  {
    if ok then Returned(h.(exception := None), onSuccess, [])
    else
      var recorded := h.(exception := Some(err));
      match ThrowOrHandle(recorded)
      case Quiet => Returned(recorded, onFailure, [])
      case CallHandler(e) => Returned(recorded, onFailure, [e])
      case Throw(e) => Threw(recorded, e)
  }

  /** A call succeeded: it returned normally without recording an error. */
  predicate Succeeded<T>(r: Outcome<T>) {
    r.Returned? && r.state.exception.None?
  }

  /** `Execute(C4TryLogicDelegate1)`: the block returned `blockResult` and
      wrote `err`. It succeeds when the block returned true or left code 0,
      and returns false on a failure it does not throw. */
  function ExecuteBool(h: Handler, blockResult: bool, err: C4Error): (r: Outcome<bool>)
    ensures Succeeded(r) <==> blockResult || err.code == 0
    ensures r.Returned? ==> (r.value <==> Succeeded(r))
    ensures !Succeeded(r) ==> r.state.exception == Some(err)
  {
    Complete(h, blockResult || err.code == 0, true, false, err)
  }

  /** `Execute(C4TryLogicDelegate2)`: succeeds when the block returned a
      non-null pointer or left code 0, and returns null on a failure it does
      not throw. */
  function ExecutePointer(h: Handler, blockResult: Pointer, err: C4Error): (r: Outcome<Pointer>)
    ensures Succeeded(r) <==> blockResult != Null || err.code == 0
    ensures Succeeded(r) ==> r.value == blockResult
    ensures r.Returned? && !Succeeded(r) ==> r.value == Null
    ensures !Succeeded(r) ==> r.state.exception == Some(err)
  {
    Complete(h, blockResult != Null || err.code == 0, blockResult, Null, err)
  }

  /** `Execute(C4TryLogicDelegate3)`: succeeds when the block returned a
      non-negative number or left code 0, and returns the block's result
      whenever it returns. */
  function ExecuteInt(h: Handler, blockResult: int, err: C4Error): (r: Outcome<int>)
    ensures Succeeded(r) <==> blockResult >= 0 || err.code == 0
    ensures r.Returned? ==> r.value == blockResult
    ensures !Succeeded(r) ==> r.state.exception == Some(err)
  {
    Complete(h, blockResult >= 0 || err.code == 0, blockResult, blockResult, err)
  }

  /** `Execute(C4TryLogicDelegate4)`: succeeds when the returned slice has a
      non-null buffer or code 0 was left, and returns the block's slice
      whenever it returns. */
  function ExecuteSlice(h: Handler, blockResult: C4Slice, err: C4Error): (r: Outcome<C4Slice>)
    ensures Succeeded(r) <==> blockResult.buf != Null || err.code == 0
    ensures r.Returned? ==> r.value == blockResult
    ensures !Succeeded(r) ==> r.state.exception == Some(err)
  {
    Complete(h, blockResult.buf != Null || err.code == 0, blockResult, blockResult, err)
  }

  // ---------------------------------------------------------------------------
  // The error policy, stated once for all four overloads
  // ---------------------------------------------------------------------------

  /** How a failed call ends: suppressed exactly when the allow-list covers
      the error; otherwise handled once when a handler is set, thrown when
      none is. The error is recorded in every case. */
  lemma FailurePolicy<T>(h: Handler, onSuccess: T, onFailure: T, err: C4Error)
    ensures var r := Complete(h, false, onSuccess, onFailure, err);
      r.state.exception == Some(err) &&
      ((r.Returned? && r.handlerCalls == []) <==> exists i :: 0 <= i < |h.allowed| && Covers(h.allowed[i], err)) &&
      (r.Threw? <==> !h.hasHandler && forall i :: 0 <= i < |h.allowed| ==> !Covers(h.allowed[i], err))
  {
  }

  /** An entry of domain zero suppresses every error with its code,
      whatever the error's domain and internal information. */
  lemma ZeroDomainMatchesAnyDomain(h: Handler, code: int, err: C4Error)
    requires C4Error(NoDomain, code, 0) in h.allowed && err.code == code
    ensures var r := Complete(h, false, true, false, err); r.Returned? && r.handlerCalls == []
  {
    var i :| 0 <= i < |h.allowed| && h.allowed[i] == C4Error(NoDomain, code, 0);
    assert Covers(h.allowed[i], err);
  }

  /** An entry with a real domain suppresses only errors equal to it: the
      same code in another domain still fails loudly. */
  lemma OtherDomainNotAllowed(code: int)
    ensures var h := AllowErrorCode(Create, code, LiteCoreDomain);
      Complete(h, false, true, false, C4Error(POSIXDomain, code, 0)).Threw?
  {
    var h := AllowErrorCode(Create, code, LiteCoreDomain);
    assert !Covers(h.allowed[0], C4Error(POSIXDomain, code, 0));
  }

  /** Allowing more errors never turns a quiet failure into a loud one. */
  lemma {:induction false} AllowedStaysAllowed(allowed: seq<C4Error>, more: seq<C4Error>, e: C4Error)
    requires IsAllowed(allowed, e)
    ensures IsAllowed(allowed + more, e) && IsAllowed(more + allowed, e)
  {
    var i :| 0 <= i < |allowed| && Covers(allowed[i], e);
    assert (allowed + more)[i] == allowed[i];
    assert (more + allowed)[|more| + i] == allowed[i];
  }

  /** Only membership matters to the allow-list, not order or repetition. */
  lemma AllowListIsASet(a: seq<C4Error>, b: seq<C4Error>, e: C4Error)
    requires forall x :: x in a <==> x in b
    ensures IsAllowed(a, e) == IsAllowed(b, e)
  {
    if IsAllowed(a, e) {
      var i :| 0 <= i < |a| && Covers(a[i], e);
      assert a[i] in b;
      var j :| 0 <= j < |b| && b[j] == a[i];
    }
    if IsAllowed(b, e) {
      var j :| 0 <= j < |b| && Covers(b[j], e);
      assert b[j] in a;
      var i :| 0 <= i < |a| && a[i] == b[j];
    }
  }

  /** A success clears an exception left over from an earlier failure, and
      the configuration survives every call. */
  lemma SuccessClearsException(h: Handler, err1: C4Error, p: Pointer)
    requires err1.code != 0 && p != Null
    ensures var r1 := ExecuteBool(h, false, err1);
      r1.state.exception == Some(err1) &&
      var r2 := ExecutePointer(r1.state, p, err1);
      Succeeded(r2) && r2.value == p &&
      r2.state == h.(exception := None)
  {
  }
}
