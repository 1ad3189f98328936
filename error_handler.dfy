/**
 * `ErrorHandler`: the registry of log and report callbacks, the order it calls them in for
 * an uncaught throwable, the conversion of PHP errors to `ErrorException`, the shutdown check
 * for fatal errors, and the older single-line JSON Lines writer.
 * Callbacks are identified by number; calling one is recorded as an `Invocation`.
 */
module ErrorHandling {
  import opened Wrappers
  import opened Json
  import opened Sequences
  import opened TextLines
  import opened LogEntries
  import opened FileSystem

  type CallbackId = nat

  /** One call `$callback($e)` */
  datatype Invocation = Invocation(callback: CallbackId, exception: Throwable)

  /** PHP's error level constants */
  const E_ERROR: int := 1
  const E_WARNING: int := 2
  const E_PARSE: int := 4
  const E_NOTICE: int := 8
  const E_CORE_ERROR: int := 16
  const E_COMPILE_ERROR: int := 64
  const E_ALL: int := 32767

  /** `new ErrorException($message, $code, $severity, $filename, $line)` */
  datatype ErrorException = ErrorException(message: string, code: int, severity: int, file: string, line: int)

  /** What `error_get_last()` returns */
  datatype LastError = LastError(errorType: int, message: string, file: string, line: int)

  /** What `handleError` does: return false, or throw */
  datatype ErrorOutcome = ReturnedFalse | Threw(exception: ErrorException)

  /** An `ErrorException` as the throwable the callbacks receive; `trace` is where it was created */
  function AsThrowable(x: ErrorException, trace: seq<Value>): Throwable {
    Throwable("ErrorException", x.message, x.file, x.line, IntCode(x.code), trace, None)
  }

  /**
   * The calls `handleException` makes: every log callback in registration order, then every
   * report callback in reverse registration order, each with the same throwable.
   */
  function Dispatch(logCallbacks: seq<CallbackId>, reportCallbacks: seq<CallbackId>, e: Throwable): (calls: seq<Invocation>)
    ensures |calls| == |logCallbacks| + |reportCallbacks|
    ensures forall i :: 0 <= i < |logCallbacks| ==> calls[i] == Invocation(logCallbacks[i], e)
    ensures forall j :: |logCallbacks| <= j < |calls| ==> calls[j] == Invocation(reportCallbacks[|calls| - 1 - j], e)
  {
    InvokeEach(logCallbacks, e) + InvokeEach(Reverse(reportCallbacks), e)
  }

  /** `foreach ($callbacks as $callback) $callback($e);` */
  function InvokeEach(callbacks: seq<CallbackId>, e: Throwable): (calls: seq<Invocation>)
    ensures |calls| == |callbacks|
    ensures forall i :: 0 <= i < |callbacks| ==> calls[i] == Invocation(callbacks[i], e)
  {
    if callbacks == [] then [] else [Invocation(callbacks[0], e)] + InvokeEach(callbacks[1..], e)
  }

  /** `isFatal($type)`: the error types after which the script cannot go on */
  function IsFatal(errorType: int): (fatal: bool)
    ensures fatal <==> errorType == E_ERROR || errorType == E_PARSE || errorType == E_CORE_ERROR || errorType == E_COMPILE_ERROR
  {
    errorType in [E_COMPILE_ERROR, E_CORE_ERROR, E_ERROR, E_PARSE]
  }

  /**
   * `handleError($level, $message, $file, $line)`, `errorReporting` standing for what
   * `error_reporting()` returns: nothing happens unless both are non-zero; then the error is thrown
   * as an ErrorException with code 0 and the level as its severity.
   */
  function HandleError(errorReporting: int, level: int, message: string, file: string := "", line: int := 0): (r: ErrorOutcome)
    ensures r.ReturnedFalse? <==> level == 0 || errorReporting == 0
    ensures r.Threw? ==> r.exception.code == 0 && r.exception.severity == level
    ensures r.Threw? ==> r.exception.message == message && r.exception.file == file && r.exception.line == line
  {
    if level == 0 || errorReporting == 0 then ReturnedFalse
    else Threw(ErrorException(message, 0, level, file, line))
  }

  /** `fatalExceptionFromError($error)`: the error type goes to the code, the severity is 0 */
  function FatalExceptionFromError(error: LastError): (x: ErrorException)
    ensures x.code == error.errorType && x.severity == 0
    ensures x.message == error.message && x.file == error.file && x.line == error.line
  {
    ErrorException(error.message, error.errorType, 0, error.file, error.line)
  }

  /** A fatal error seen at shutdown carries its type where `handleError` puts the level: code and severity swap */
  lemma ShutdownSwapsCodeAndSeverity(error: LastError, errorReporting: int)
    requires error.errorType != 0 && errorReporting != 0
    ensures var thrown := HandleError(errorReporting, error.errorType, error.message, error.file, error.line);
      var fatal := FatalExceptionFromError(error);
      && thrown.Threw?
      && fatal.code == thrown.exception.severity && fatal.severity == thrown.exception.code
  {
  }

  /** The array `saveExceptionToJsonL` encodes: no code, no trace, no previous */
  function SavedRecord(e: Throwable, now: string, requestUri: Option<string>): (v: Value)
    ensures v.VDict? && v.entries.Keys == {"date", "class", "message", "file", "line", "request_uri"}
    ensures v.entries.Keys < EntryKeys
  {
    VDict(map[
      "date" := VStr(now),
      "class" := VStr(e.cls),
      "message" := VStr(e.message),
      "file" := VStr(e.file),
      "line" := VInt(e.line),
      "request_uri" := VStr(requestUri.GetOr(""))])
  }

  /** A record written by the older writer reads back as an entry whose code, trace and cause take their defaults */
  lemma SavedRecordReadsBack(e: Throwable, now: string, requestUri: Option<string>)
    ensures StoredShape(SavedRecord(e, now, requestUri))
    ensures FromData(SavedRecord(e, now, requestUri))
      == LogEntry(now, e.cls, e.message, e.file, e.line, 0, requestUri.GetOr(""), VList([]), None)
  {
    var m := Fields(SavedRecord(e, now, requestUri));
    assert "code" !in m && "trace" !in m && "previous" !in m;
  }

  /**
   * `saveExceptionToJsonL($e, $path)`: appends one encoded line and answers the file's line
   * count afterwards; answers null, writing nothing, when encoding or the write fails.
   */
  method SaveExceptionToJsonL(f: LogFile, e: Throwable, now: string, requestUri: Option<string>, codec: Codec)
    returns (count: Option<nat>)
    requires f.Valid()
    modifies f`content
    ensures f.Valid()
    ensures var encoded := codec.encode(SavedRecord(e, now, requestUri));
      if encoded.Some? && f.CanWrite() then
        f.content == Some(old(f.Text()) + encoded.value + [EOL]) && count == Some(|Lines(f.content.value)|)
      else
        f.content == old(f.content) && count.None?
  {
    var encoded := codec.encode(SavedRecord(e, now, requestUri));
    if encoded.None? {
      return None;
    }
    ghost var before := f.Text();
    var line := encoded.value + [EOL];
    var written := f.AppendContents(line);
    if written {
      assert f.content == Some(before + encoded.value + [EOL]) by {
        assert before + line == before + encoded.value + [EOL];
      }
      return Some(|Lines(f.Text())|);
    }
    return None;
  }

  /** On a terminated file the count answered is the number of lines before, plus one */
  lemma SavedLineCount(text: string, line: string)
    requires Terminated(text) && NewlineFree(line)
    ensures |Lines(text + line + [EOL])| == |Lines(text)| + 1
  {
    LinesAppend(text, line);
  }

  class ErrorHandler {
    /** `$reportCallback` */
    var reportCallbacks: seq<CallbackId>
    /** `$logCallbacks` */
    var logCallbacks: seq<CallbackId>

    /** `new ErrorHandler()`: both lists start empty (installing the runtime hooks is not modelled) */
    constructor ()
      ensures logCallbacks == [] && reportCallbacks == []
    {
      reportCallbacks := [];
      logCallbacks := [];
    }

    /** `log($closure, $reset)`: optionally empty the log list, then add the callback at its end */
    method Log(callback: CallbackId, reset: bool := false)
      modifies this
      ensures logCallbacks == (if reset then [] else old(logCallbacks)) + [callback]
      ensures reportCallbacks == old(reportCallbacks)
    {
      if reset {
        logCallbacks := [];
      }
      logCallbacks := logCallbacks + [callback];
    }

    /** `report($closure, $reset)`: the same on the report list */
    method Report(callback: CallbackId, reset: bool := false)
      modifies this
      ensures reportCallbacks == (if reset then [] else old(reportCallbacks)) + [callback]
      ensures logCallbacks == old(logCallbacks)
    {
      if reset {
        reportCallbacks := [];
      }
      reportCallbacks := reportCallbacks + [callback];
    }

    /** `handleException($e)`: the two loops, log callbacks forward, report callbacks over `array_reverse` */
    method HandleException(e: Throwable) returns (calls: seq<Invocation>)
      ensures calls == Dispatch(logCallbacks, reportCallbacks, e)
    {
      calls := [];
      var i := 0;
      while i < |logCallbacks|
        invariant 0 <= i <= |logCallbacks|
        invariant calls == InvokeEach(logCallbacks[..i], e)
      {
        calls := calls + [Invocation(logCallbacks[i], e)];
        i := i + 1;
      }
      assert logCallbacks[..i] == logCallbacks;
      var reversed := Reverse(reportCallbacks);
      var j := 0;
      while j < |reversed|
        invariant 0 <= j <= |reversed|
        invariant calls == InvokeEach(logCallbacks, e) + InvokeEach(reversed[..j], e)
      {
        calls := calls + [Invocation(reversed[j], e)];
        j := j + 1;
      }
      assert reversed[..j] == reversed;
    }

    /**
     * `handleShutdown()` with `lastError` what `error_get_last()` returns: only a fatal last
     * error is dispatched, as the ErrorException built from it.
     */
    method HandleShutdown(lastError: Option<LastError>, trace: seq<Value>) returns (calls: seq<Invocation>)
      ensures lastError.Some? && IsFatal(lastError.value.errorType) ==>
        calls == Dispatch(logCallbacks, reportCallbacks, AsThrowable(FatalExceptionFromError(lastError.value), trace))
      ensures !(lastError.Some? && IsFatal(lastError.value.errorType)) ==> calls == []
    {
      if lastError.Some? && IsFatal(lastError.value.errorType) {
        calls := HandleException(AsThrowable(FatalExceptionFromError(lastError.value), trace));
      } else {
        calls := [];
      }
    }

    /**
     * `registerJsonl($path)`: make the log directory if it is missing (failing with a
     * RuntimeException, nothing registered, when it still is not there), then register `writer`,
     * the closure that calls `saveExceptionToJsonL`, as a log callback.
     */
    method RegisterJsonl(f: LogFile, mkdirCreates: bool, writer: CallbackId) returns (registered: bool)
      requires f.Valid()
      modifies this, f`dirExists
      ensures f.Valid()
      ensures f.dirExists == (old(f.dirExists) || mkdirCreates)
      ensures registered == f.dirExists
      ensures logCallbacks == if registered then old(logCallbacks) + [writer] else old(logCallbacks)
      ensures reportCallbacks == old(reportCallbacks)
    {
      if !f.dirExists {
        f.MakeDirectory(mkdirCreates);
        if !f.dirExists {
          return false;
        }
      }
      Log(writer);
      return true;
    }
  }

  /**
   * The handler's tests, replayed: the log-callback counts after each registration (the
   * third one resetting), the order a thrown exception reaches the callbacks, and the
   * ErrorException a reported warning becomes.
   */
  method RegistrationScenario(e: Throwable) returns (counts: seq<nat>, calls: seq<Invocation>, threw: bool)
    ensures counts == [1, 2, 1]
    ensures calls == [Invocation(9, e), Invocation(2, e), Invocation(1, e)]
    ensures threw
  {
    var handler := new ErrorHandler();
    handler.Log(7);
    counts := [|handler.logCallbacks|];
    handler.Log(8);
    counts := counts + [|handler.logCallbacks|];
    handler.Log(9, true);
    counts := counts + [|handler.logCallbacks|];
    handler.Report(1);
    handler.Report(2);
    calls := handler.HandleException(e);
    threw := HandleError(E_ALL, E_WARNING, "Test error", "test.php", 123).Threw?;
  }
}
