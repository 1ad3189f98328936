/**
 * `JsonLineReader`: lists the log file's lines newest first, decodes them, and deletes one
 * line by its newest-first position or the whole file.
 */
module JsonLineReader {
  import opened Wrappers
  import opened Json
  import opened Sequences
  import opened TextLines
  import opened LogEntries
  import opened FileSystem
  import JsonLineLogger

  /** An element of `getEncoded()`: the decoded line, or the line itself when it does not decode */
  datatype Listed = Decoded(value: Value) | Raw(line: string)

  /** `get()`: nothing for a missing file, else the non-empty lines, terminators stripped, last line first */
  function Get(content: Option<string>): (r: seq<string>)
    ensures content.None? ==> r == []
    ensures forall l :: l in r ==> l != [] && NewlineFree(l)
  {
    match content
    case None => []
    case Some(text) => Reverse(NonEmptyLines(Lines(text)))
  }

  /** The `json_decode` closure of `getEncoded()` */
  function DecodeOrRaw(codec: Codec, line: string): (r: Listed)
    ensures r.Decoded? <==> codec.decode(line).Some?
    ensures r.Decoded? ==> codec.decode(line) == Some(r.value)
    ensures r.Raw? ==> r.line == line
  {
    match codec.decode(line)
    case Some(v) => Decoded(v)
    case None => Raw(line)
  }

  /** `array_map` of that closure: position by position */
  function DecodeAll(codec: Codec, lines: seq<string>): (r: seq<Listed>)
    ensures |r| == |lines|
    ensures forall i :: 0 <= i < |lines| ==> r[i] == DecodeOrRaw(codec, lines[i])
  {
    if lines == [] then [] else [DecodeOrRaw(codec, lines[0])] + DecodeAll(codec, lines[1..])
  }

  /** `getEncoded()`: one element per listed line, its decoding, or the line itself where decoding fails */
  function GetEncoded(content: Option<string>, codec: Codec): (r: seq<Listed>)
    ensures |r| == |Get(content)|
    ensures forall i :: 0 <= i < |r| && codec.decode(Get(content)[i]).Some? ==>
      r[i] == Decoded(codec.decode(Get(content)[i]).value)
    ensures forall i :: 0 <= i < |r| && codec.decode(Get(content)[i]).None? ==> r[i] == Raw(Get(content)[i])
  {
    DecodeAll(codec, Get(content))
  }

  /** What `deleteLine` writes for a newest-first listing: `implode(PHP_EOL, array_reverse($lines)) . PHP_EOL` */
  function Rewrite(listing: seq<string>): (r: string)
    ensures r != [] && Terminated(r)
  {
    Implode(Reverse(listing)) + [EOL]
  }

  /** `deleteLine($line)`: a position inside the listing is removed and the file rewritten; any other position writes nothing */
  method DeleteLine(f: LogFile, line: int)
    requires f.Valid()
    modifies f`content
    ensures f.Valid()
    ensures var listing := Get(old(f.content));
      f.content == if 0 <= line < |listing| && f.CanWrite() then Some(Rewrite(RemoveAt(listing, line)))
                   else old(f.content)
  {
    var lines := Get(f.content);
    if 0 <= line < |lines| {
      lines := RemoveAt(lines, line);
      var _ := f.PutContents(Implode(Reverse(lines)) + [EOL]);
    }
  }

  /**
   * `deleteAll()`: `unlink`. The PHP method returns nothing; `ok` is false exactly where
   * `unlink` raises its E_WARNING (no file, or a directory that refuses the removal).
   */
  method DeleteAll(f: LogFile) returns (ok: bool)
    requires f.Valid()
    modifies f`content
    ensures f.Valid()
    ensures ok == (old(f.content).Some? && f.CanWrite())
    ensures ok ==> f.content.None? && Get(f.content) == []
    ensures !ok ==> f.content == old(f.content)
  {
    ok := f.Unlink();
  }

  /** Appending a line to a terminated file puts it first in the listing, ahead of all the others in their order */
  lemma GetAfterAppend(text: string, line: string)
    requires Terminated(text) && NewlineFree(line) && line != []
    ensures Get(Some(text + line + [EOL])) == [line] + Get(Some(text))
  {
    LinesAppend(text, line);
    NonEmptyLinesAppend(Lines(text), [line]);
    var older := NonEmptyLines(Lines(text));
    assert NonEmptyLines([line]) == [line];
    assert Reverse(older + [line]) == [line] + Reverse(older);
  }

  /** Lines written oldest first list newest first: appending A, B, C lists C, B, A */
  lemma GetOfJoin(lines: seq<string>)
    requires forall l :: l in lines ==> l != [] && NewlineFree(l)
    ensures Get(Some(Join(lines))) == Reverse(lines)
  {
    LinesOfJoin(lines);
  }

  /** The rewrite reads back as the listing it was made from */
  lemma {:induction false} GetOfRewrite(listing: seq<string>)
    requires forall l :: l in listing ==> l != [] && NewlineFree(l)
    ensures Get(Some(Rewrite(listing))) == listing
  {
    var onDisk := Reverse(listing);
    assert forall l :: l in onDisk ==> l in listing by {
      forall l | l in onDisk ensures l in listing {
        var i :| 0 <= i < |onDisk| && onDisk[i] == l;
        assert listing[|listing| - 1 - i] == l;
      }
    }
    if onDisk == [] {
      assert Rewrite(listing) == [EOL];
      assert Lines([EOL]) == [[]];
    } else {
      LinesOfRewrite(onDisk);
    }
    ReverseReverse(listing);
  }

  /** Deleting position `i` of the listing leaves the listing without its element `i`, the rest in order */
  lemma GetAfterDeleteLine(content: Option<string>, i: nat)
    requires i < |Get(content)|
    ensures Get(Some(Rewrite(RemoveAt(Get(content), i)))) == RemoveAt(Get(content), i)
  {
    RemoveAtMembers(Get(content), i);
    GetOfRewrite(RemoveAt(Get(content), i));
  }

  /** Deleting the only entry leaves a lone terminator, which lists as nothing */
  lemma DeleteOnlyLine(content: Option<string>)
    requires |Get(content)| == 1
    ensures Rewrite(RemoveAt(Get(content), 0)) == [EOL]
    ensures Get(Some([EOL])) == []
  {
    assert Lines([EOL]) == [[]];
  }

  /**
   * What the logger writes reads back: after a successful log call on a terminated file, the
   * newest decoded element is the entry's data, and `fromData` rebuilds the entry from it.
   * Of the codec it asks only what JSON gives this one entry: its encoding is a single
   * non-empty line (section 7 of RFC 8259 escapes every control character inside strings)
   * that decodes to the same data.
   */
  lemma LoggedEntryReadsBack(text: string, entry: LogEntry, codec: Codec, maxBytes: int)
    requires Terminated(text)
    requires codec.encode(ToData(entry)).Some?
    requires var line := codec.encode(ToData(entry)).value;
      line != [] && NewlineFree(line) && codec.decode(line) == Some(ToData(entry))
    ensures var line := codec.encode(ToData(entry)).value;
      var listed := GetEncoded(Some(JsonLineLogger.Truncated(text + line + [EOL], maxBytes)), codec);
      && listed != [] && listed[0] == Decoded(ToData(entry))
      && StoredShape(listed[0].value) && FromData(listed[0].value) == entry
  {
    var line := codec.encode(ToData(entry)).value;
    var after := JsonLineLogger.Truncated(text + line + [EOL], maxBytes);
    JsonLineLogger.AppendThenTruncate(text, line, maxBytes);
    NewestIsLastLine(after);
    FromDataToData(entry);
  }

  /** The head of the listing is the file's last line */
  lemma NewestIsLastLine(text: string)
    requires Terminated(text) && Lines(text) != [] && Lines(text)[|Lines(text)| - 1] != []
    ensures Get(Some(text)) != [] && Get(Some(text))[0] == Lines(text)[|Lines(text)| - 1]
  {
    var lines := Lines(text);
    var older, last := lines[..|lines| - 1], lines[|lines| - 1];
    SplitLastLine(text);
    JoinTerminated(older);
    assert last in lines;
    GetAfterAppend(Join(older), last);
  }
}
