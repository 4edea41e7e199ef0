/**
 * The parsing half of `findLibraryPath`: from the captured standard output
 * of `ldconfig -p | grep <name>`, take the first line as `bufio.Scanner`
 * splits it, and return what follows its last `>`, trimmed of white space.
 * The command itself is not modelled; its outcome is a parameter.
 */
module Ldconfig {
  import opened Wrappers
  import opened Seqs

  datatype LocateError =
    | RunFailed        // "failed to run ldconfig: ...": the shell pipeline did not exit 0
    | LibraryNotFound  // "library not found"

  /** What `cmd.Run()` left behind: the captured stdout, or an error. */
  datatype CommandOutcome = Exited(stdout: string) | RunError

  /** The index of the first `'\n'` of `s`, or `|s|` when there is none. */
  function LineEnd(s: string): (k: nat)
    ensures k <= |s|
    ensures forall j :: 0 <= j < k ==> s[j] != '\n'
    ensures k < |s| ==> s[k] == '\n'
  {
    if s == [] || s[0] == '\n' then 0 else 1 + LineEnd(s[1..])
  }

  /** `bufio.dropCR`: a single trailing carriage return is dropped. */
  function DropCR(s: string): (r: string)
    ensures if |s| > 0 && s[|s| - 1] == '\r' then s == r + ['\r'] else r == s
  {
    if |s| > 0 && s[|s| - 1] == '\r' then s[..|s| - 1] else s
  }

  /**
   * The first token `bufio.ScanLines` yields: nothing for empty input,
   * otherwise the text up to the first newline (or to the end), less a
   * trailing carriage return.
   */
  function FirstLine(out: string): (r: Option<string>)
    ensures r.None? <==> out == []
    ensures r.Some? ==> |r.value| <= |out| && r.value == out[..|r.value|]
    ensures r.Some? ==> forall j :: 0 <= j < |r.value| ==> r.value[j] != '\n'
  {
    if out == [] then None else Some(DropCR(out[..LineEnd(out)]))
  }

  /** `strings.LastIndex(s, string(c))` for a one-character `c`. */
  function LastIndex(s: string, c: char): (i: int)
    ensures -1 <= i < |s|
    ensures i == -1 ==> forall j :: 0 <= j < |s| ==> s[j] != c
    ensures 0 <= i ==> s[i] == c && forall j :: i < j < |s| ==> s[j] != c
  {
    if s == [] then -1
    else if s[|s| - 1] == c then |s| - 1
    else LastIndex(s[..|s| - 1], c)
  }

  /**
   * `unicode.IsSpace`: the characters of Unicode's White_Space property.
   * No printable ASCII character (such as those of a library path) is one.
   */
  predicate IsSpace(c: char)
    ensures IsSpace(c) ==> !('!' <= c <= '~')
  {
    || c == '\t' || c == '\n' || c == '\U{0B}' || c == '\U{0C}' || c == '\r' || c == ' '
    || c == '\U{85}' || c == '\U{A0}' || c == '\U{1680}'
    || ('\U{2000}' <= c <= '\U{200A}')
    || c == '\U{2028}' || c == '\U{2029}' || c == '\U{202F}' || c == '\U{205F}' || c == '\U{3000}'
  }

  predicate AllSpace(s: string) {
    forall j :: 0 <= j < |s| ==> IsSpace(s[j])
  }

  /** The white space at the front of `s` removed. */
  function TrimLeft(s: string): (r: string)
    ensures |r| <= |s| && r == s[|s| - |r|..]
    ensures forall j :: 0 <= j < |s| - |r| ==> IsSpace(s[j])
    ensures r == [] || !IsSpace(r[0])
  {
    if s != [] && IsSpace(s[0]) then TrimLeft(s[1..]) else s
  }

  /** The white space at the back of `s` removed. */
  function TrimRight(s: string): (r: string)
    ensures |r| <= |s| && r == s[..|r|]
    ensures forall j :: |r| <= j < |s| ==> IsSpace(s[j])
    ensures r == [] || !IsSpace(r[|r| - 1])
  {
    if s != [] && IsSpace(s[|s| - 1]) then TrimRight(s[..|s| - 1]) else s
  }

  /**
   * `strings.TrimSpace`: `s` with its leading and trailing white space
   * removed, so that what is left neither starts nor ends with white space
   * (TrimSpaceSplit and TrimSpaceOf characterise it completely).
   */
  function TrimSpace(s: string): (r: string)
    ensures |r| <= |s|
    ensures r == [] || (!IsSpace(r[0]) && !IsSpace(r[|r| - 1]))
  {
    TrimRight(TrimLeft(s))
  }

  /** The parsing of the first line: the trimmed text after its last `>`. */
  function ParseLine(line: string): (r: Result<string, LocateError>)
    ensures r.Success? <==> '>' in line
    ensures r.Failure? ==> r.error == LibraryNotFound
    ensures r.Success? ==> '>' !in r.value
    ensures r.Success? ==> r.value == [] || (!IsSpace(r.value[0]) && !IsSpace(r.value[|r.value| - 1]))
  {
    var start := LastIndex(line, '>');
    if start != -1 then
      var path := TrimSpace(line[start + 1..]);
      TrimSpaceKeepsOut(line[start + 1..], '>');
      Success(path)
    else
      Failure(LibraryNotFound)
  }

  /**
   * The parsing in `findLibraryPath` of the captured output: the first
   * line's path, or "library not found" when there is no line at all.
   */
  function ParseLdconfigOutput(out: string): (r: Result<string, LocateError>)
    ensures r.Success? <==> out != [] && '>' in FirstLine(out).value
    ensures r.Failure? ==> r.error == LibraryNotFound
  {
    match FirstLine(out)
    case None => Failure(LibraryNotFound)
    case Some(line) => ParseLine(line)
  }

  /** `findLibraryPath`, given what running the pipeline produced. */
  function FindLibraryPath(cmd: CommandOutcome): (r: Result<string, LocateError>)
    ensures r == Failure(RunFailed) <==> cmd.RunError?
    ensures cmd.Exited? ==> r == ParseLdconfigOutput(cmd.stdout)
  {
    match cmd
    case RunError => Failure(RunFailed)
    case Exited(out) => ParseLdconfigOutput(out)
  }

  /** TrimLeft drops a prefix of white space. */
  lemma TrimLeftSplit(s: string) returns (lead: string)
    ensures AllSpace(lead)
    ensures s == lead + TrimLeft(s)
  {
    var l := TrimLeft(s);
    lead := s[..|s| - |l|];
    SplitAt(s, |s| - |l|);
  }

  /** TrimRight drops a suffix of white space. */
  lemma TrimRightSplit(s: string) returns (trail: string)
    ensures AllSpace(trail)
    ensures s == TrimRight(s) + trail
  {
    var r := TrimRight(s);
    trail := s[|r|..];
    SplitAt(s, |r|);
  }

  /** What TrimSpace drops is white space on either side of what it keeps. */
  lemma TrimSpaceSplit(s: string) returns (lead: string, trail: string)
    ensures AllSpace(lead) && AllSpace(trail)
    ensures s == lead + TrimSpace(s) + trail
  {
    var l := TrimLeft(s);
    lead := TrimLeftSplit(s);
    trail := TrimRightSplit(l);
    var r := TrimRight(l);
    assert TrimSpace(s) == r;
    AppendAssoc(lead, r, trail);
  }

  /** Trimming never introduces a character. */
  lemma TrimSpaceKeepsOut(s: string, c: char)
    requires c !in s
    ensures c !in TrimSpace(s)
  {
    var lead, trail := TrimSpaceSplit(s);
  }

  /** TrimLeft removes exactly a white-space prefix before a non-space. */
  lemma {:induction false} TrimLeftOf(lead: string, t: string)
    requires AllSpace(lead)
    requires t == [] || !IsSpace(t[0])
    ensures TrimLeft(lead + t) == t
  {
    if lead == [] {
      assert lead + t == t;
    } else {
      assert (lead + t)[1..] == lead[1..] + t;
      TrimLeftOf(lead[1..], t);
    }
  }

  /** TrimRight removes exactly a white-space suffix after a non-space. */
  lemma {:induction false} TrimRightOf(t: string, trail: string)
    requires AllSpace(trail)
    requires t == [] || !IsSpace(t[|t| - 1])
    ensures TrimRight(t + trail) == t
  {
    if trail == [] {
      assert t + trail == t;
    } else {
      var init := trail[..|trail| - 1];
      assert (t + trail)[..|t + trail| - 1] == t + init;
      TrimRightOf(t, init);
    }
  }

  /**
   * TrimSpace removes exactly the white space around a core that neither
   * starts nor ends with white space.
   */
  lemma TrimSpaceOf(lead: string, core: string, trail: string)
    requires AllSpace(lead) && AllSpace(trail)
    requires core == [] || (!IsSpace(core[0]) && !IsSpace(core[|core| - 1]))
    ensures TrimSpace(lead + core + trail) == core
  {
    if core == [] {
      assert lead + core + trail == (lead + trail) + [];
      TrimLeftOf(lead + trail, []);
    } else {
      assert lead + core + trail == lead + (core + trail);
      TrimLeftOf(lead, core + trail);
      TrimRightOf(core, trail);
    }
  }

  /** White space appended to a text does not change what TrimSpace keeps. */
  lemma TrimSpaceAppendSpace(s: string, c: char)
    requires IsSpace(c)
    ensures TrimSpace(s + [c]) == TrimSpace(s)
  {
    var lead, trail := TrimSpaceSplit(s);
    var r := TrimSpace(s);
    assert s + [c] == lead + r + (trail + [c]);
    TrimSpaceOf(lead, r, trail + [c]);
  }

  /** A line ended by a newline is the first token, whatever follows it. */
  lemma FirstLineTerminated(line: string, rest: string)
    requires '\n' !in line
    ensures FirstLine(line + ['\n'] + rest) == Some(DropCR(line))
  {
    var out := line + ['\n'] + rest;
    assert out[|line|] == '\n';
    var k := LineEnd(out);
    if k < |line| {
      assert false;
    }
    assert out[..k] == line;
  }

  /** Input with no newline at all is one line, the first token. */
  lemma FirstLineUnterminated(line: string)
    requires line != [] && '\n' !in line
    ensures FirstLine(line) == Some(DropCR(line))
  {
    var k := LineEnd(line);
    if k < |line| {
      assert false;
    }
    assert line[..k] == line;
  }

  /**
   * Only the first line is inspected: whatever follows the first newline
   * never changes the outcome.
   */
  lemma ParseOnlyFirstLine(line: string, rest: string)
    requires '\n' !in line
    ensures ParseLdconfigOutput(line + ['\n'] + rest) == ParseLdconfigOutput(line)
  {
    FirstLineTerminated(line, rest);
    if line != [] {
      FirstLineUnterminated(line);
    } else {
      assert DropCR(line) == [];
    }
  }

  /**
   * On a first line `pre + ">" + post` with no `>` in `post`, the result is
   * `post` trimmed of white space (a carriage return before the newline is
   * itself white space, so it never reaches the path).
   */
  lemma ParseFindsPath(pre: string, post: string, rest: string)
    requires '\n' !in pre && '\n' !in post && '>' !in post
    ensures ParseLdconfigOutput(pre + ['>'] + post + ['\n'] + rest) == Success(TrimSpace(post))
  {
    var line := pre + ['>'] + post;
    FirstLineTerminated(line, rest);
    DropCRAfterArrow(pre, post);
    var post' := DropCR(post);
    assert '>' !in post' by {
      if post' != post {
        assert post == post' + ['\r'];
      }
    }
    ParseLineAt(pre, post');
    TrimSpaceDropCR(post);
  }

  /** The carriage return DropCR removes from a line is the one ending its tail. */
  lemma DropCRAfterArrow(pre: string, post: string)
    ensures DropCR(pre + ['>'] + post) == pre + ['>'] + DropCR(post)
  {
    var line := pre + ['>'] + post;
    if post != [] && post[|post| - 1] == '\r' {
      assert line[..|line| - 1] == pre + ['>'] + post[..|post| - 1];
    }
  }

  /** Trimming absorbs the carriage return DropCR would remove. */
  lemma TrimSpaceDropCR(s: string)
    ensures TrimSpace(DropCR(s)) == TrimSpace(s)
  {
    if DropCR(s) != s {
      TrimSpaceAppendSpace(DropCR(s), '\r');
    }
  }

  /** The path is taken from after the last `>` of the line. */
  lemma ParseLineAt(pre: string, post: string)
    requires '>' !in post
    ensures ParseLine(pre + ['>'] + post) == Success(TrimSpace(post))
  {
    var line := pre + ['>'] + post;
    assert line[|pre|] == '>';
    var i := LastIndex(line, '>');
    if i > |pre| {
      assert false;
    }
    assert line[|pre| + 1..] == post;
  }

  /**
   * A first line without `>` means "library not found", even when a later
   * line has one.
   */
  lemma ParseNoArrow(line: string, rest: string)
    requires '\n' !in line && '>' !in line
    ensures ParseLdconfigOutput(line + ['\n'] + rest) == Failure(LibraryNotFound)
  {
    FirstLineTerminated(line, rest);
  }

  /**
   * Output that is a single line with no newline at all: the result is the
   * text after its last `>`, trimmed of white space.
   */
  lemma ParseFindsPathUnterminated(pre: string, post: string)
    requires '\n' !in pre && '\n' !in post && '>' !in post
    ensures ParseLdconfigOutput(pre + ['>'] + post) == Success(TrimSpace(post))
  {
    var line := pre + ['>'] + post;
    FirstLineUnterminated(line);
    DropCRAfterArrow(pre, post);
    var post' := DropCR(post);
    assert '>' !in post' by {
      if post' != post {
        assert post == post' + ['\r'];
      }
    }
    ParseLineAt(pre, post');
    TrimSpaceDropCR(post);
  }
}
