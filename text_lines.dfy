/**
 * The text of a log file and PHP's view of it as lines: `file()` with FILE_IGNORE_NEW_LINES
 * (optionally FILE_SKIP_EMPTY_LINES) splits it, and the library writes lines back as
 * `implode(PHP_EOL, $lines) . PHP_EOL` or appends `$line . PHP_EOL`.
 */
module TextLines {

  /** PHP_EOL on the platforms the library writes for */
  const EOL: char := '\n'

  predicate NewlineFree(s: string) {
    EOL !in s
  }

  /** Empty, or ending in a line terminator: appending a line then starts a new line */
  predicate Terminated(s: string) {
    s == [] || s[|s| - 1] == EOL
  }

  /** Position of the first EOL in `s`, or `|s|` when there is none */
  function LineEnd(s: string): (k: nat)
    ensures k <= |s|
    ensures k < |s| ==> s[k] == EOL
    ensures NewlineFree(s[..k])
  {
    if s == [] || s[0] == EOL then 0
    else
      var k' := LineEnd(s[1..]);
      assert s[..k' + 1] == [s[0]] + s[1..][..k'];
      1 + k'
  }

  /**
   * `file($path, FILE_IGNORE_NEW_LINES)`: the pieces between terminators, terminators stripped.
   * A last piece without a terminator is still a line; a last terminator opens no new line.
   */
  function Lines(s: string): (ls: seq<string>)
    ensures forall l :: l in ls ==> NewlineFree(l)
    decreases |s|
  {
    if s == [] then []
    else
      var k := LineEnd(s);
      if k == |s| then assert s[..k] == s; [s] else [s[..k]] + Lines(s[k + 1..])
  }

  /** The text holding each of `ls` followed by a terminator */
  function Join(ls: seq<string>): string {
    if ls == [] then [] else ls[0] + [EOL] + Join(ls[1..])
  }

  /** PHP's `implode(PHP_EOL, $ls)`: terminators between the lines, none after the last */
  function Implode(ls: seq<string>): string {
    if ls == [] then [] else if |ls| == 1 then ls[0] else ls[0] + [EOL] + Implode(ls[1..])
  }

  /** `file(..., FILE_SKIP_EMPTY_LINES)`: the lines that are not empty, in their order */
  function NonEmptyLines(ls: seq<string>): (r: seq<string>)
    ensures forall l :: l in r ==> l in ls && l != []
    ensures (forall l :: l in ls ==> l != []) ==> r == ls
  {
    if ls == [] then []
    else
      assert ls[0] in ls;
      assert forall l :: l in ls[1..] ==> l in ls;
      if ls[0] == [] then NonEmptyLines(ls[1..]) else [ls[0]] + NonEmptyLines(ls[1..])
  }

  lemma {:induction false} NonEmptyLinesAppend(ls: seq<string>, ms: seq<string>)
    ensures NonEmptyLines(ls + ms) == NonEmptyLines(ls) + NonEmptyLines(ms)
  {
    if ls != [] {
      assert (ls + ms)[1..] == ls[1..] + ms;
      NonEmptyLinesAppend(ls[1..], ms);
    } else {
      assert ls + ms == ms;
    }
  }

  /** Writing lines once each with a terminator, then every terminator but the last */
  lemma {:induction false} ImplodeThenEol(ls: seq<string>)
    requires ls != []
    ensures Implode(ls) + [EOL] == Join(ls)
  {
    if |ls| > 1 {
      ImplodeThenEol(ls[1..]);
    }
  }

  lemma {:induction false} JoinAppend(ls: seq<string>, ms: seq<string>)
    ensures Join(ls + ms) == Join(ls) + Join(ms)
  {
    if ls == [] {
      assert ls + ms == ms;
    } else {
      assert (ls + ms)[1..] == ls[1..] + ms;
      JoinAppend(ls[1..], ms);
    }
  }

  lemma {:induction false} JoinTerminated(ls: seq<string>)
    ensures Terminated(Join(ls))
  {
    if ls != [] {
      JoinTerminated(ls[1..]);
    }
  }

  lemma {:induction false} LineEndOfJoined(a: string, rest: string)
    requires NewlineFree(a)
    ensures LineEnd(a + [EOL] + rest) == |a|
  {
    if a != [] {
      assert (a + [EOL] + rest)[1..] == a[1..] + [EOL] + rest;
      LineEndOfJoined(a[1..], rest);
    }
  }

  /** Splitting what was joined gives back the lines */
  lemma {:induction false} LinesOfJoin(ls: seq<string>)
    requires forall l :: l in ls ==> NewlineFree(l)
    ensures Lines(Join(ls)) == ls
  {
    if ls != [] {
      var s := Join(ls);
      LineEndOfJoined(ls[0], Join(ls[1..]));
      assert s[..|ls[0]|] == ls[0];
      assert s[|ls[0]| + 1..] == Join(ls[1..]);
      LinesOfJoin(ls[1..]);
    }
  }

  /** Joining what was split gives back a terminated text */
  lemma {:induction false} JoinOfLines(s: string)
    requires Terminated(s)
    ensures Join(Lines(s)) == s
    decreases |s|
  {
    if s != [] {
      var k := LineEnd(s);
      assert k < |s| by {
        assert s[..|s|][|s| - 1] == EOL;
      }
      var rest := s[k + 1..];
      assert Terminated(rest);
      JoinOfLines(rest);
      assert Lines(s) == [s[..k]] + Lines(rest);
      assert Join(Lines(s)) == s[..k] + [EOL] + Join(Lines(rest));
      assert s == s[..k] + [EOL] + rest;
    }
  }

  /** Appending `line . PHP_EOL` to a terminated text adds exactly one last line */
  lemma LinesAppend(s: string, line: string)
    requires Terminated(s) && NewlineFree(line)
    ensures Lines(s + line + [EOL]) == Lines(s) + [line]
    ensures Terminated(s + line + [EOL])
  {
    JoinOfLines(s);
    JoinAppend(Lines(s), [line]);
    assert s + line + [EOL] == Join(Lines(s) + [line]);
    LinesOfJoin(Lines(s) + [line]);
  }

  /** A terminated text is its lines but the last, then the last line and its terminator */
  lemma SplitLastLine(text: string)
    requires Terminated(text) && Lines(text) != []
    ensures var lines := Lines(text);
      text == Join(lines[..|lines| - 1]) + lines[|lines| - 1] + [EOL]
  {
    var lines := Lines(text);
    var older, last := lines[..|lines| - 1], lines[|lines| - 1];
    JoinOfLines(text);
    assert lines == older + [last];
    JoinAppend(older, [last]);
    assert Join([last]) == last + [EOL];
  }

  /** The rewrite `implode(PHP_EOL, $ls) . PHP_EOL` reads back as `ls`, and is terminated */
  lemma LinesOfRewrite(ls: seq<string>)
    requires ls != []
    requires forall l :: l in ls ==> NewlineFree(l)
    ensures Lines(Implode(ls) + [EOL]) == ls
    ensures Terminated(Implode(ls) + [EOL])
  {
    ImplodeThenEol(ls);
    LinesOfJoin(ls);
  }
}
