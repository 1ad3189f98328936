/**
 * The log record (`LogEntry`): built from a live throwable and its chain of previous
 * throwables, or rebuilt from the array that decoding a stored JSON line gives.
 * A `previous` cause is a value held inside its entry, so a chain is finite, acyclic and
 * never shared between two entries.
 */
module LogEntries {
  import opened Wrappers
  import opened Json

  /**
   * What `getCode()` returns: an int for most throwables, a string for some (a PDOException
   * carries its SQLSTATE, such as "HY000").
   */
  datatype Code = IntCode(n: int) | StringCode(s: string)

  /**
   * What the library reads off a PHP throwable: get_class(), getMessage(), getFile(),
   * getLine(), getCode(), getTrace() (opaque frames) and getPrevious().
   */
  datatype Throwable = Throwable(
    cls: string,
    message: string,
    file: string,
    line: int,
    code: Code,
    trace: seq<Value>,
    previous: Option<Throwable>)

  /** A value PHP accepts for `array $trace`: a JSON list or a JSON object */
  type ArrayValue = v: Value | IsArray(v) witness VList([])

  /** The public properties of a log entry, with their PHP defaults where the source has them */
  datatype LogEntry = LogEntry(
    date: string,
    cls: string,
    message: string,
    file: string,
    line: int,
    code: int,
    requestUri: string,
    trace: ArrayValue,
    previous: Option<LogEntry>)

  predicate IsDigit(c: char) {
    '0' <= c <= '9'
  }

  /** A non-empty run of decimal digits */
  predicate Digits(s: string) {
    |s| > 0 && forall i :: 0 <= i < |s| ==> IsDigit(s[i])
  }

  /** The number a run of decimal digits writes */
  function DigitsValue(s: string): nat
    requires forall i :: 0 <= i < |s| ==> IsDigit(s[i])
  {
    if s == [] then 0
    else
      assert IsDigit(s[|s| - 1]);
      10 * DigitsValue(s[..|s| - 1]) + (s[|s| - 1] as int - '0' as int)
  }

  /** An optional sign followed by decimal digits: the integer strings an `int` property converts */
  predicate IntegerString(s: string) {
    Digits(s) || (|s| > 1 && (s[0] == '-' || s[0] == '+') && Digits(s[1..]))
  }

  /**
   * Assigning a code to `public int $code` (LogEntry.php is not in strict mode, so the
   * assignment coerces): an int is kept, an integer string is converted, and any other
   * string makes the assignment throw a TypeError (None).
   */
  function CodeValue(c: Code): (r: Option<int>)
    ensures c.IntCode? ==> r == Some(c.n)
    ensures c.StringCode? ==> (r.Some? <==> IntegerString(c.s))
  {
    match c
    case IntCode(n) => Some(n)
    case StringCode(s) =>
      if Digits(s) then Some(DigitsValue(s))
      else if IntegerString(s) && s[0] == '-' then Some(0 - DigitsValue(s[1..]) as int)
      else if IntegerString(s) then Some(DigitsValue(s[1..]))
      else None
  }

  /** The decimal digits of `n`, most significant first */
  function Decimal(n: nat): (r: string)
    ensures Digits(r)
  {
    if n < 10 then ['0' + n as char] else Decimal(n / 10) + ['0' + (n % 10) as char]
  }

  /** Digits read back: the decimal writing of `n` denotes `n` */
  lemma {:induction false} DigitsValueDecimal(n: nat)
    ensures DigitsValue(Decimal(n)) == n
  {
    if n >= 10 {
      var d := Decimal(n);
      assert d[..|d| - 1] == Decimal(n / 10);
      DigitsValueDecimal(n / 10);
    }
  }

  /** Every integer, written in decimal with its sign, is a string code the property accepts as that integer */
  lemma DecimalCodeConverts(n: int)
    ensures CodeValue(StringCode(if n < 0 then "-" + Decimal(-n) else Decimal(n))) == Some(n)
  {
    if n < 0 {
      var s := "-" + Decimal(-n);
      assert s[1..] == Decimal(-n);
      assert !Digits(s) && IntegerString(s) && s[0] == '-';
      DigitsValueDecimal(-n);
    } else {
      DigitsValueDecimal(n);
    }
  }

  /** An SQLSTATE such as PDO's general error "HY000" is not an integer string */
  lemma SqlStateIsRejected()
    ensures CodeValue(StringCode("HY000")).None?
  {
    assert !IsDigit("HY000"[0]);
  }

  /** Every code in the chain starting at `e` converts to an int */
  predicate CodesConvert(e: Throwable) {
    CodeValue(e.code).Some? && (e.previous.Some? ==> CodesConvert(e.previous.value))
  }

  /** Number of throwables in the `getPrevious()` chain starting at `e` */
  function CauseCount(e: Throwable): nat {
    match e.previous
    case None => 1
    case Some(p) => 1 + CauseCount(p)
  }

  /** Number of entries in the `previous` chain starting at `r` */
  function ChainLength(r: LogEntry): nat {
    match r.previous
    case None => 1
    case Some(p) => 1 + ChainLength(p)
  }

  /** The throwable `k` steps down the chain of `e` */
  function ThrowableAt(e: Throwable, k: nat): Option<Throwable> {
    if k == 0 then Some(e)
    else match e.previous
      case None => None
      case Some(p) => ThrowableAt(p, k - 1)
  }

  /** The entry `k` steps down the chain of `r` */
  function EntryAt(r: LogEntry, k: nat): Option<LogEntry> {
    if k == 0 then Some(r)
    else match r.previous
      case None => None
      case Some(p) => EntryAt(p, k - 1)
  }

  /** One level of `fromThrowable`: the fields an entry takes from its throwable and the request */
  predicate CopiedFrom(r: LogEntry, e: Throwable, now: string, requestUri: Option<string>) {
    r.date == now && r.cls == e.cls && r.message == e.message && r.file == e.file &&
    r.line == e.line && CodeValue(e.code) == Some(r.code) && r.trace == VList(e.trace) && r.requestUri == requestUri.GetOr("")
  }

  /**
   * `LogEntry::fromThrowable($e)`. `now` is what `date('Y-m-d H:i:s')` returns and
   * `requestUri` is `$_SERVER['REQUEST_URI']` (None: not set); each recursion goes one
   * step down `getPrevious()`, so the entry chain is exactly as long as the throwable chain.
   * None is the TypeError of a code the `int` property cannot take, at any depth.
   */
  function FromThrowable(e: Throwable, now: string, requestUri: Option<string>): (r: Option<LogEntry>)
    ensures r.Some? <==> CodesConvert(e)
    ensures r.Some? ==> ChainLength(r.value) == CauseCount(e)
  {
    var code := CodeValue(e.code);
    if code.None? then None
    else
      var previous := match e.previous
        case None => Some(None)
        case Some(p) =>
          var rest := FromThrowable(p, now, requestUri);
          if rest.None? then None else Some(Some(rest.value));
      if previous.None? then None
      else Some(LogEntry(now, e.cls, e.message, e.file, e.line, code.value, requestUri.GetOr(""), VList(e.trace),
                         previous.value))
  }

  /** At every depth of the chain, the entry copies its throwable's fields */
  lemma {:induction false} FromThrowableAtEachLevel(e: Throwable, now: string, requestUri: Option<string>, k: nat)
    requires CodesConvert(e) && k < CauseCount(e)
    ensures ThrowableAt(e, k).Some? && EntryAt(FromThrowable(e, now, requestUri).value, k).Some?
    ensures CopiedFrom(EntryAt(FromThrowable(e, now, requestUri).value, k).value, ThrowableAt(e, k).value, now, requestUri)
  {
    if k > 0 {
      FromThrowableAtEachLevel(e.previous.value, now, requestUri, k - 1);
    }
  }

  /** One code the `int` property cannot take, however deep in the chain, and no entry is built */
  lemma {:induction false} RejectedAtAnyDepth(e: Throwable, now: string, requestUri: Option<string>, k: nat)
    requires ThrowableAt(e, k).Some? && CodeValue(ThrowableAt(e, k).value.code).None?
    ensures FromThrowable(e, now, requestUri).None?
  {
    if k > 0 {
      RejectedAtAnyDepth(e.previous.value, now, requestUri, k - 1);
    }
  }

  /** The keys of a PHP array: a JSON object's names; a JSON list has integer keys only */
  function Fields(v: Value): map<string, Value> {
    if v.VDict? then v.entries else map[]
  }

  /** Whether `v` decodes to a PHP array (the type `fromData` takes) */
  predicate IsArray(v: Value) {
    v.VDict? || v.VList?
  }

  /** `isset`: the key is there and not null, so `??` takes it */
  predicate Present(m: map<string, Value>, k: string) {
    k in m && !m[k].VNull?
  }

  /**
   * The stored arrays `fromData` accepts: every present field has the type of the
   * property it is assigned to (a typed property rejects anything else), and a
   * non-empty `previous` is itself such an array.
   */
  predicate StoredShape(v: Value) {
    IsArray(v) && FieldTypes(Fields(v)) &&
    ("previous" in Fields(v) && !Empty(Fields(v)["previous"]) ==> StoredShape(Fields(v)["previous"]))
  }

  /** Every set key holds a value of its property's type */
  predicate FieldTypes(m: map<string, Value>) {
    (Present(m, "date") ==> m["date"].VStr?) &&
    (Present(m, "class") ==> m["class"].VStr?) &&
    (Present(m, "message") ==> m["message"].VStr?) &&
    (Present(m, "file") ==> m["file"].VStr?) &&
    (Present(m, "line") ==> m["line"].VInt?) &&
    (Present(m, "code") ==> m["code"].VInt?) &&
    (Present(m, "trace") ==> IsArray(m["trace"])) &&
    (Present(m, "request_uri") ==> m["request_uri"].VStr?)
  }

  /** Each property holds its key's value when the key is set, and its default otherwise */
  predicate FilledFrom(r: LogEntry, m: map<string, Value>) {
    (Present(m, "date") ==> VStr(r.date) == m["date"]) &&
    (!Present(m, "date") ==> r.date == "") &&
    (Present(m, "class") ==> VStr(r.cls) == m["class"]) &&
    (!Present(m, "class") ==> r.cls == "") &&
    (Present(m, "message") ==> VStr(r.message) == m["message"]) &&
    (!Present(m, "message") ==> r.message == "") &&
    (Present(m, "file") ==> VStr(r.file) == m["file"]) &&
    (!Present(m, "file") ==> r.file == "") &&
    (Present(m, "line") ==> VInt(r.line) == m["line"]) &&
    (!Present(m, "line") ==> r.line == 0) &&
    (Present(m, "code") ==> VInt(r.code) == m["code"]) &&
    (!Present(m, "code") ==> r.code == 0) &&
    (Present(m, "trace") ==> r.trace == m["trace"]) &&
    (!Present(m, "trace") ==> r.trace == VList([])) &&
    (Present(m, "request_uri") ==> VStr(r.requestUri) == m["request_uri"]) &&
    (!Present(m, "request_uri") ==> r.requestUri == "")
  }

  /**
   * `LogEntry::fromData($stored)`: each property from its key, or its default when the key
   * is absent or null; `previous` rebuilt recursively unless it is absent or empty.
   */
  function FromData(stored: Value): (r: LogEntry)
    requires StoredShape(stored)
    ensures FilledFrom(r, Fields(stored))
    ensures r.previous.None? <==> ("previous" !in Fields(stored) || Empty(Fields(stored)["previous"]))
  {
    var m := Fields(stored);
    FillFrom(m, if "previous" in m && !Empty(m["previous"]) then Some(FromData(m["previous"])) else None)
  }

  /** One level of `fromData`: the properties other than `previous`, from the array's keys */
  function FillFrom(m: map<string, Value>, previous: Option<LogEntry>): (r: LogEntry)
    requires FieldTypes(m)
    ensures FilledFrom(r, m) && r.previous == previous
  {
    LogEntry(
      StringOr(m, "date"), StringOr(m, "class"), StringOr(m, "message"), StringOr(m, "file"),
      IntOr(m, "line"), IntOr(m, "code"), StringOr(m, "request_uri"),
      if Present(m, "trace") then m["trace"] else VList([]),
      previous)
  }

  /** `$stored[$k] ?? ''` for a string property */
  function StringOr(m: map<string, Value>, k: string): string
    requires Present(m, k) ==> m[k].VStr?
  {
    if Present(m, k) then m[k].s else ""
  }

  /** `$stored[$k] ?? 0` for an int property */
  function IntOr(m: map<string, Value>, k: string): int
    requires Present(m, k) ==> m[k].VInt?
  {
    if Present(m, k) then m[k].i else 0
  }

  /** The names of the public properties of a log entry */
  const EntryKeys: set<string> := {"date", "class", "message", "file", "line", "code", "request_uri", "trace", "previous"}

  /**
   * What `json_encode($entry)` serialises: an object holding every public property,
   * `previous` nested or null.
   */
  function ToData(r: LogEntry): (v: Value)
    ensures v.VDict? && v.entries.Keys == EntryKeys && !Empty(v)
  {
    VDict(map[
      "date" := VStr(r.date),
      "class" := VStr(r.cls),
      "message" := VStr(r.message),
      "file" := VStr(r.file),
      "line" := VInt(r.line),
      "code" := VInt(r.code),
      "request_uri" := VStr(r.requestUri),
      "trace" := r.trace,
      "previous" := match r.previous
                    case None => VNull
                    case Some(p) => ToData(p)])
  }

  /** Rebuilding an entry from its own serialised properties gives it back, cause chain included */
  lemma {:induction false} FromDataToData(r: LogEntry)
    ensures StoredShape(ToData(r))
    ensures FromData(ToData(r)) == r
  {
    match r.previous
    case None =>
    case Some(p) =>
      FromDataToData(p);
      assert !Empty(ToData(p));
  }
}
