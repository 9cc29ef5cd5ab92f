/** Properties of the parser over all inputs: which errors can happen, how
    whitespace-only input parses, and the parses of a few sample lines. */
module ParserFacts {
  import opened Lexer
  import opened Commands
  import opened Parser

  /** The word loop of parseexec never meets a token that is neither a word
      nor the end: it is entered only where no `|`, `<` or `>` follows. */
  lemma {:induction false} ArgsNoSyntaxError(s: string, ps: nat, argv: seq<string>, redirs: seq<Redirect>)
    requires ps <= |s| && |argv| < MAXARGS
    requires Settled(s, ps) && (ps == |s| || (s[ps] != '<' && s[ps] != '>'))
    ensures var r := ParseArgs(s, ps, argv, redirs);
            r.Err? ==> r.error == MissingFile || r.error == TooManyArgs
    decreases |s| - ps
  {
    var (isPipe, p) := Peek(s, ps, "|");
    SkipSpaceUnique(s, ps, ps);
    if !isPipe {
      var t := GetToken(s, p);
      if t.tok == Word {
        var argv' := argv + [MkCopy(s, t.q, t.eq)];
        if |argv'| < MAXARGS {
          var more := ParseRedirs(s, t.next);
          if more.Ok? {
            ArgsNoSyntaxError(s, more.value.1, argv', redirs + more.value.0);
          }
        }
      }
    }
  }

  /** What parseredirs does with the next token: with no `<` or `>` next it
      reads nothing and stops there; with one next, it fails with a missing
      file when no word follows the symbol, and when it succeeds it has read
      at least that redirection. */
  lemma RedirsOutcome(s: string, ps: nat)
    requires ps <= |s|
    ensures var r := ParseRedirs(s, ps); var pk := Peek(s, ps, "<>");
            !pk.0 ==> r.Ok? && r.value.0 == [] && r.value.1 == pk.1
    ensures var r := ParseRedirs(s, ps); var pk := Peek(s, ps, "<>");
            pk.0 && GetToken(s, GetToken(s, pk.1).next).tok != Word ==> r.Err? && r.error == MissingFile
    ensures var r := ParseRedirs(s, ps); var pk := Peek(s, ps, "<>");
            r.Ok? && pk.0 ==> |r.value.0| > 0
  {
  }

  /** The word loop reads words in input order: the first word it adds is
      the copy of the first token after ps, and that token is a word. When
      it adds no word it adds no redirection either. */
  lemma ArgsFirstWord(s: string, ps: nat, argv: seq<string>, redirs: seq<Redirect>)
    requires ps <= |s| && |argv| < MAXARGS
    ensures var r := ParseArgs(s, ps, argv, redirs);
            var pk := Peek(s, ps, "|"); var t := GetToken(s, pk.1);
            r.Ok? && |r.value.0| > |argv| ==> !pk.0 && t.tok == Word && r.value.0[|argv|] == MkCopy(s, t.q, t.eq)
    ensures var r := ParseArgs(s, ps, argv, redirs);
            r.Ok? && |r.value.0| == |argv| ==> r.value.1 == redirs
  {
  }

  /** A command fails only for a missing file or too many words. */
  lemma ExecErrors(s: string, ps: nat)
    requires ps <= |s|
    ensures var r := ParseExec(s, ps);
            r.Err? ==> r.error == MissingFile || r.error == TooManyArgs
  {
    var lead := ParseRedirs(s, ps);
    if lead.Ok? {
      ArgsNoSyntaxError(s, lead.value.1, [], lead.value.0);
    }
  }

  /** A pipeline parse either fails with one of the two reachable errors or
      consumes the line to its end. */
  lemma {:induction false} PipeOutcome(s: string, ps: nat)
    requires ps <= |s|
    ensures var r := ParsePipe(s, ps);
            && (r.Ok? ==> r.value.1 == |s|)
            && (r.Err? ==> r.error == MissingFile || r.error == TooManyArgs)
    decreases |s| - ps
  {
    ExecErrors(s, ps);
    var head := ParseExec(s, ps);
    if head.Ok? {
      var (isPipe, p) := Peek(s, head.value.1, "|");
      SkipSpaceUnique(s, head.value.1, head.value.1);
      if isPipe {
        PipeOutcome(s, GetToken(s, p).next);
      }
    }
  }

  /** parsecmd fails only for a missing redirection file or too many words:
      the "syntax error" and "leftovers" exits can never be taken. */
  lemma ParseErrors(buf: string)
    ensures ParseCmd(buf).Err? ==> ParseCmd(buf).error == MissingFile || ParseCmd(buf).error == TooManyArgs
  {
    var s := buf[..Strlen(buf)];
    PipeOutcome(s, 0);
  }

  /** A pipeline segment holding only whitespace is an exec node without
      words. */
  lemma BlankSegment(s: string, ps: nat, k: nat)
    requires ps <= k <= |s| && AllSpace(s, ps, k)
    requires k == |s| || s[k] == '|'
    ensures ParseExec(s, ps) == Ok((Exec([]), k))
  {
    SkipSpaceUnique(s, ps, k);
    SkipSpaceUnique(s, k, k);
  }

  /** A line of whitespace parses as an exec node without words. */
  lemma BlankLine(buf: string)
    requires forall i :: 0 <= i < |buf| ==> buf[i] in Whitespace
    ensures ParseCmd(buf) == Ok(Exec([]))
  {
    var s := buf[..Strlen(buf)];
    BlankSegment(s, 0, |s|);
    SkipSpaceUnique(s, |s|, |s|);
  }

  /** parsecmd reads its buffer as a C string: whatever follows the first
      NUL is never looked at. */
  lemma ParseCmdStopsAtNul(x: string, y: string)
    requires '\0' !in x
    ensures ParseCmd(x + ['\0'] + y) == ParseCmd(x)
  {
    var buf := x + ['\0'] + y;
    var n := Strlen(buf);
    assert buf[|x|] == '\0';
    assert forall i :: 0 <= i < |x| ==> buf[i] == x[i];
    assert n == |x|;
    assert buf[..n] == x;
    assert Strlen(x) == |x|;
    assert x[..Strlen(x)] == x;
  }

  /** parsecmd of a buffer is parsecmd of its C string. */
  lemma ParseCmdCString(buf: string)
    ensures ParseCmd(buf) == ParseCmd(buf[..Strlen(buf)])
  {
    var s := buf[..Strlen(buf)];
    assert '\0' !in s;
    assert Strlen(s) == |s|;
    assert s[..Strlen(s)] == s;
  }
}
