/**
 * `JsonLineLogger`: writes one throwable as one JSON line at the end of the log file,
 * then keeps the file near its size limit by dropping the oldest line. Every failure
 * is caught: it is swallowed, or, in debug mode, dumped before the process ends.
 */
module JsonLineLogger {
  import opened Wrappers
  import opened Json
  import opened TextLines
  import opened LogEntries
  import opened FileSystem

  /** The default of `$maxBytes`: half a megabyte */
  const DefaultMaxBytes: int := 524288

  /**
   * The RuntimeExceptions of `createLogDirectory`, the TypeError of building the entry
   * from a throwable whose code is not an integer, and the JsonException of `json_encode`
   */
  datatype LogError = DirectoryNotCreated | DirectoryNotWritable | EntryRejected | EncodingFailed

  /** How the constructor ends: the line was written, or the caught failure was swallowed, or dumped with `die` */
  datatype Outcome = Logged | Swallowed(error: LogError) | Died(error: LogError)

  /** The first failure of the append sequence, in the order the constructor meets them */
  function FirstFailure(dirExists: bool, dirWritable: bool, entry: Option<LogEntry>, encoded: Option<string>): Option<LogError> {
    if !dirExists then Some(DirectoryNotCreated)
    else if !dirWritable then Some(DirectoryNotWritable)
    else if entry.None? then Some(EntryRejected)
    else if encoded.None? then Some(EncodingFailed)
    else None
  }

  /** What the try block encodes: nothing when the entry cannot be built */
  function Encoded(entry: Option<LogEntry>, codec: Codec): Option<string> {
    if entry.None? then None else codec.encode(ToData(entry.value))
  }

  /** The text `truncateIfOverLimit` leaves: over the limit and holding two lines or more, the first line goes */
  function Truncated(text: string, maxBytes: int): (r: string)
    ensures r == text || |text| > maxBytes
  {
    if |text| <= maxBytes then text
    else
      var lines := Lines(text);
      if |lines| > 1 then Implode(lines[1..]) + [EOL] else text
  }

  /** `createLogDirectory($path)`: make the directory if it is missing, then insist it is writable */
  method CreateLogDirectory(f: LogFile, mkdirCreates: bool) returns (error: Option<LogError>)
    requires f.Valid()
    modifies f`dirExists
    ensures f.Valid()
    ensures f.dirExists == (old(f.dirExists) || mkdirCreates)
    ensures error.Some? <==> !f.CanWrite()
    ensures error == (if !f.dirExists then Some(DirectoryNotCreated)
                      else if !f.dirWritable then Some(DirectoryNotWritable)
                      else None)
  {
    if !f.dirExists {
      f.MakeDirectory(mkdirCreates);
      if !f.dirExists {
        return Some(DirectoryNotCreated);
      }
    }
    if !f.dirWritable {
      return Some(DirectoryNotWritable);
    }
    return None;
  }

  /** `truncateIfOverLimit($path, $maxBytes)`, run on an existing file */
  method TruncateIfOverLimit(f: LogFile, maxBytes: int)
    requires f.Valid() && f.content.Some?
    modifies f`content
    ensures f.Valid()
    ensures f.content == if f.CanWrite() then Some(Truncated(old(f.Text()), maxBytes)) else old(f.content)
  {
    if f.Size() <= maxBytes {
      return;
    }
    var lines := Lines(f.Text());
    if |lines| > 1 {
      lines := lines[1..];
      var _ := f.PutContents(Implode(lines) + [EOL]);
    }
  }

  /**
   * The constructor `new JsonLineLogger($e, $path, $debug, $maxBytes)`. `now` and `requestUri`
   * stand for `date()` and `$_SERVER['REQUEST_URI']`; `mkdirCreates` for what `mkdir` achieves.
   * Nothing is written unless the directory is ready and the entry is built and encodes; then
   * exactly the encoded entry and a terminator are appended, and the size rule runs.
   */
  method Log(f: LogFile, e: Throwable, now: string, requestUri: Option<string>, codec: Codec, mkdirCreates: bool,
             debug: bool := false, maxBytes: int := DefaultMaxBytes) returns (outcome: Outcome)
    requires f.Valid()
    modifies f
    ensures f.Valid()
    ensures f.dirExists == (old(f.dirExists) || mkdirCreates) && f.dirWritable == old(f.dirWritable)
    ensures var entry := FromThrowable(e, now, requestUri);
      var encoded := Encoded(entry, codec);
      var failure := FirstFailure(f.dirExists, f.dirWritable, entry, encoded);
      && outcome == (if failure.None? then Logged else if debug then Died(failure.value) else Swallowed(failure.value))
      && f.content == (if failure.None? then Some(Truncated(old(f.Text()) + encoded.value + [EOL], maxBytes))
                       else old(f.content))
  {
    var failure := CreateLogDirectory(f, mkdirCreates);
    if failure.None? {
      var entry := FromThrowable(e, now, requestUri);
      var encoded := if entry.None? then None else codec.encode(ToData(entry.value));
      if entry.None? {
        failure := Some(EntryRejected);
      } else if encoded.None? {
        failure := Some(EncodingFailed);
      } else {
        ghost var before := f.Text();
        var _ := f.AppendContents(encoded.value + [EOL]);
        assert f.Text() == before + encoded.value + [EOL];
        TruncateIfOverLimit(f, maxBytes);
        assert f.content == Some(Truncated(before + encoded.value + [EOL], maxBytes));
      }
    }
    if failure.None? {
      outcome := Logged;
    } else if debug {
      outcome := Died(failure.value);
    } else {
      outcome := Swallowed(failure.value);
    }
  }

  /**
   * A throwable chain carrying a code the entry's `int` property cannot take, such as a
   * PDOException's "HY000", is never written, wherever the directory and whatever the codec.
   */
  lemma SqlStateChainIsNotLogged(e: Throwable, now: string, requestUri: Option<string>, k: nat,
                                 dirExists: bool, dirWritable: bool, codec: Codec)
    requires ThrowableAt(e, k).Some? && ThrowableAt(e, k).value.code == StringCode("HY000")
    ensures var entry := FromThrowable(e, now, requestUri);
      FirstFailure(dirExists, dirWritable, entry, Encoded(entry, codec)).Some?
  {
    SqlStateIsRejected();
    RejectedAtAnyDepth(e, now, requestUri, k);
  }

  /**
   * The size rule: within the limit the text stays; over it, a text of two lines or more loses
   * exactly its first line and keeps the rest in order, terminated; a lone line is kept.
   */
  lemma TruncationRule(text: string, maxBytes: int)
    ensures |text| <= maxBytes ==> Truncated(text, maxBytes) == text
    ensures |text| > maxBytes && |Lines(text)| <= 1 ==> Truncated(text, maxBytes) == text
    ensures |text| > maxBytes && |Lines(text)| > 1 ==>
      Lines(Truncated(text, maxBytes)) == Lines(text)[1..] && Terminated(Truncated(text, maxBytes))
  {
    if |text| > maxBytes && |Lines(text)| > 1 {
      var lines := Lines(text);
      assert forall l :: l in lines[1..] ==> l in lines;
      LinesOfRewrite(lines[1..]);
    }
  }

  /** Whatever the file held before, a logged line leaves it ending in a terminator */
  lemma LoggedFileIsTerminated(text: string, line: string, maxBytes: int)
    ensures Terminated(Truncated(text + line + [EOL], maxBytes))
  {
    TruncationRule(text + line + [EOL], maxBytes);
  }

  /** One eviction per append is all there is: three one-byte lines against a limit of 3 bytes keep two lines, 4 bytes */
  lemma SingleEvictionCanStayOverLimit()
    ensures var before := Join(["a", "b"]);
      var after := Truncated(before + "c" + [EOL], 3);
      && |before| <= 4 && Lines(after) == ["b", "c"] && |after| == 4
  {
    var appended := Join(["a", "b", "c"]);
    assert Join(["a", "b"]) + "c" + [EOL] == appended;
    LinesOfJoin(["a", "b", "c"]);
    TruncationRule(appended, 3);
    assert ["a", "b", "c"][1..] == ["b", "c"];
    ImplodeThenEol(["b", "c"]);
  }

  /**
   * One append followed by the size rule, on a terminated file: the new line is the last line,
   * the older lines keep their order, and at most the oldest of them is gone.
   */
  lemma AppendThenTruncate(text: string, line: string, maxBytes: int)
    requires Terminated(text) && NewlineFree(line)
    ensures var after := Truncated(text + line + [EOL], maxBytes);
      && Terminated(after)
      && Lines(after) == if |text + line + [EOL]| > maxBytes && Lines(text) != [] then Lines(text)[1..] + [line]
                         else Lines(text) + [line]
  {
    var appended := text + line + [EOL];
    LinesAppend(text, line);
    TruncationRule(appended, maxBytes);
    if |appended| > maxBytes && Lines(text) != [] {
      assert (Lines(text) + [line])[1..] == Lines(text)[1..] + [line];
    }
  }

  /**
   * The bound: a file within the limit that already holds a line stays within it after
   * appending a line no longer than its oldest line.
   */
  lemma StaysWithinLimit(text: string, line: string, maxBytes: int)
    requires Terminated(text) && NewlineFree(line)
    requires |text| <= maxBytes
    requires Lines(text) != [] && |line| <= |Lines(text)[0]|
    ensures |Truncated(text + line + [EOL], maxBytes)| <= maxBytes
  {
    var appended := text + line + [EOL];
    if |appended| > maxBytes {
      var lines := Lines(text);
      var rest := lines[1..];
      LinesAppend(text, line);
      assert Lines(appended)[1..] == rest + [line];
      assert Truncated(appended, maxBytes) == Implode(rest + [line]) + [EOL];
      ImplodeThenEol(rest + [line]);
      JoinAppend(rest, [line]);
      assert Join([line]) == line + [EOL];
      JoinOfLines(text);
      assert text == lines[0] + [EOL] + Join(rest);
    }
  }

  /**
   * Repeated appends of equally long lines: once the file holds lines of length `n` within the
   * limit (or is empty and one line fits), every append-with-truncation keeps it so.
   */
  lemma UniformAppendsStayBounded(text: string, line: string, n: nat, maxBytes: int)
    requires Terminated(text) && NewlineFree(line) && |line| == n
    requires forall l :: l in Lines(text) ==> |l| == n
    requires |text| <= maxBytes && (text == [] ==> n + 1 <= maxBytes)
    ensures var after := Truncated(text + line + [EOL], maxBytes);
      && |after| <= maxBytes && Terminated(after)
      && forall l :: l in Lines(after) ==> |l| == n
  {
    AppendThenTruncate(text, line, maxBytes);
    var after := Truncated(text + line + [EOL], maxBytes);
    if Lines(text) != [] {
      assert Lines(text)[0] in Lines(text);
      StaysWithinLimit(text, line, maxBytes);
      assert forall l :: l in Lines(text)[1..] ==> l in Lines(text);
    } else {
      JoinOfLines(text);
      assert text == [];
    }
  }
}
