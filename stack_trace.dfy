/**
 * `formatStackTrace` and `sanitizeArgs`: every frame of the exception's trace
 * becomes one record entry with defaults for the missing parts, and its
 * arguments are replaced by placeholders wherever they are objects, arrays or
 * open resources.
 */
module StackTrace {
  import opened Wrappers

  /**
   * A stack-frame argument as `getTrace()` gives it. `Resource(open)` is a
   * resource handle; PHP's `is_resource` is false for a closed one.
   * `ScalarArg` is every other value (null, boolean, number, string).
   */
  datatype Arg = Obj(className: string) | ArrayArg | Resource(open: bool) | ScalarArg(text: string)

  /** An argument that exposes no live object, array contents or open handle. */
  predicate Inert(a: Arg) {
    a.ScalarArg? || (a.Resource? && !a.open)
  }

  /** One argument after `sanitizeArgs`. */
  function ArgSanitized(a: Arg): (r: Arg)
    ensures Inert(r)
    ensures Inert(a) ==> r == a
    ensures a.Obj? ==> r == ScalarArg(a.className)
    ensures a == ArrayArg ==> r == ScalarArg("[array]")
    ensures a == Resource(true) ==> r == ScalarArg("[resource]")
  {
    match a
    case Obj(c) => ScalarArg(c)
    case ArrayArg => ScalarArg("[array]")
    case Resource(open) => if open then ScalarArg("[resource]") else a
    case ScalarArg(_) => a
  }

  /**
   * The arguments after `sanitizeArgs`: the same positions; an object becomes
   * its class name, an array `[array]`, an open resource `[resource]`; every
   * other argument is unchanged, so nothing live is left.
   */
  function ArgsSanitized(args: seq<Arg>): (r: seq<Arg>)
    ensures |r| == |args|
    ensures forall i :: 0 <= i < |r| ==> Inert(r[i])
    ensures forall i :: 0 <= i < |args| && args[i].Obj? ==> r[i] == ScalarArg(args[i].className)
    ensures forall i :: 0 <= i < |args| && args[i] == ArrayArg ==> r[i] == ScalarArg("[array]")
    ensures forall i :: 0 <= i < |args| && args[i] == Resource(true) ==> r[i] == ScalarArg("[resource]")
    ensures forall i :: 0 <= i < |args| && Inert(args[i]) ==> r[i] == args[i]
  {
    seq(|args|, i requires 0 <= i < |args| => ArgSanitized(args[i]))
  }

  /** `sanitizeArgs`: rewrite each argument of the local copy in place. */
  method SanitizeArgs(args: seq<Arg>) returns (r: seq<Arg>)
    ensures r == ArgsSanitized(args)
  {
    r := args;
    for i := 0 to |args|
      invariant |r| == |args|
      invariant forall j :: 0 <= j < i ==> r[j] == ArgSanitized(args[j])
      invariant forall j :: i <= j < |args| ==> r[j] == args[j]
    {
      match args[i]
      case Obj(c) => r := r[i := ScalarArg(c)];
      case ArrayArg => r := r[i := ScalarArg("[array]")];
      case Resource(open) =>
        if open {
          r := r[i := ScalarArg("[resource]")];
        }
      case ScalarArg(_) =>
    }
  }

  /** Sanitising sanitised arguments changes nothing. */
  lemma ArgsSanitizedIdempotent(args: seq<Arg>)
    ensures ArgsSanitized(ArgsSanitized(args)) == ArgsSanitized(args)
  {
  }

  /**
   * A frame of `getTrace()`. Each part is None when the frame lacks it or
   * holds null, which is when PHP's `??` and `isset` fall back.
   */
  datatype Frame = Frame(
    file: Option<string>,
    line: Option<int>,
    func: Option<string>,
    cls: Option<string>,
    callType: Option<string>,
    args: Option<seq<Arg>>)

  /** A frame as it appears in the report; None is JSON null. */
  datatype TraceEntry = TraceEntry(
    file: string,
    line: Option<int>,
    func: Option<string>,
    cls: Option<string>,
    callType: Option<string>,
    args: Option<seq<Arg>>)

  const INTERNAL_FUNCTION: string := "[internal function]"

  /** One frame as `formatStackTrace` writes it. */
  function FrameFormatted(f: Frame): (e: TraceEntry)
    ensures e.file == (if f.file.Some? then f.file.value else INTERNAL_FUNCTION)
    ensures e.line == f.line && e.func == f.func && e.cls == f.cls && e.callType == f.callType
    ensures e.args.Some? <==> f.args.Some?
    ensures f.args.Some? ==> e.args.value == ArgsSanitized(f.args.value)
  {
    TraceEntry(
      f.file.GetOr(INTERNAL_FUNCTION),
      f.line, f.func, f.cls, f.callType,
      if f.args.Some? then Some(ArgsSanitized(f.args.value)) else None)
  }

  /**
   * The trace after `formatStackTrace`: one entry per frame, in the same
   * order; a missing file becomes `[internal function]`; line, function,
   * class and call type are copied, null when absent; the arguments are null
   * when absent and sanitised otherwise.
   */
  function TraceFormatted(frames: seq<Frame>): (r: seq<TraceEntry>)
    ensures |r| == |frames|
    ensures forall i :: 0 <= i < |frames| ==>
      r[i].file == (if frames[i].file.Some? then frames[i].file.value else INTERNAL_FUNCTION)
    ensures forall i :: 0 <= i < |frames| ==>
      && r[i].line == frames[i].line
      && r[i].func == frames[i].func
      && r[i].cls == frames[i].cls
      && r[i].callType == frames[i].callType
    ensures forall i :: 0 <= i < |frames| ==>
      (r[i].args.Some? <==> frames[i].args.Some?)
    ensures forall i :: 0 <= i < |frames| && frames[i].args.Some? ==>
      r[i].args.value == ArgsSanitized(frames[i].args.value)
  {
    seq(|frames|, i requires 0 <= i < |frames| => FrameFormatted(frames[i]))
  }

  /** No entry of a formatted trace carries a live argument. */
  predicate TraceInert(trace: seq<TraceEntry>) {
    forall i, j :: 0 <= i < |trace| && trace[i].args.Some? && 0 <= j < |trace[i].args.value| ==>
      Inert(trace[i].args.value[j])
  }

  lemma TraceFormattedIsInert(frames: seq<Frame>)
    ensures TraceInert(TraceFormatted(frames))
  {
  }

  /** `formatStackTrace`: append one formatted entry per frame. */
  method FormatStackTrace(frames: seq<Frame>) returns (trace: seq<TraceEntry>)
    ensures trace == TraceFormatted(frames)
  {
    trace := [];
    for i := 0 to |frames|
      invariant trace == TraceFormatted(frames[..i])
    {
      var frame := frames[i];
      var args := None;
      if frame.args.Some? {
        var sanitized := SanitizeArgs(frame.args.value);
        args := Some(sanitized);
      }
      trace := trace + [TraceEntry(frame.file.GetOr(INTERNAL_FUNCTION),
                                   frame.line, frame.func, frame.cls, frame.callType, args)];
      assert frames[..i + 1] == frames[..i] + [frame];
    }
    assert frames[..|frames|] == frames;
  }
}
