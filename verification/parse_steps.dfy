/** Single steps of parseredirs, parseexec and parsepipe, stated on the
    tokens each step reads. */
module ParseSteps {
  import opened Lexer
  import opened Commands
  import opened Parser

  /** Where a command ends: a pipe or the end of the line. */
  predicate CmdEnd(s: string, k: nat)
    requires k <= |s|
  {
    k == |s| || s[k] == '|'
  }

  /** The token `<` or `>` of a redirection. */
  function DirToken(d: Dir): Token {
    if d == In then LessSym else GreaterSym
  }

  // The parser's results are compared component by component below: the
  // lemmas that unfold a parse function see only the tokens involved.

  /** ParseRedirs(s, p) succeeds with the redirections rs and the cursor e. */
  predicate RedirsGive(s: string, p: nat, rs: seq<Redirect>, e: nat)
    requires p <= |s|
  {
    var r := ParseRedirs(s, p);
    r.Ok? && r.value.0 == rs && r.value.1 == e
  }

  /** ParseArgs(s, p, argv, redirs) succeeds with argv', redirs' and the
      cursor e. */
  predicate ArgsGive(s: string, p: nat, argv: seq<string>, redirs: seq<Redirect>,
                     argv': seq<string>, redirs': seq<Redirect>, e: nat)
    requires p <= |s| && |argv| < MAXARGS
  {
    var r := ParseArgs(s, p, argv, redirs);
    r.Ok? && r.value.0 == argv' && r.value.1 == redirs' && r.value.2 == e
  }

  /** ParseRedirs(s, p) fails with the error err. */
  predicate RedirsFail(s: string, p: nat, err: ParseError)
    requires p <= |s|
  {
    var r := ParseRedirs(s, p);
    r.Err? && r.error == err
  }

  /** ParseArgs(s, p, argv, redirs) fails with the error err. */
  predicate ArgsFail(s: string, p: nat, argv: seq<string>, redirs: seq<Redirect>, err: ParseError)
    requires p <= |s| && |argv| < MAXARGS
  {
    var r := ParseArgs(s, p, argv, redirs);
    r.Err? && r.error == err
  }

  /** ParseExec(s, p) succeeds with the command c and the cursor e. */
  predicate ExecGive(s: string, p: nat, c: Cmd, e: nat)
    requires p <= |s|
  {
    var r := ParseExec(s, p);
    r.Ok? && r.value.0 == c && r.value.1 == e
  }

  /** parseredirs stops where neither `<` nor `>` follows. */
  lemma RedirsStop(s: string, p: nat)
    requires p <= |s| && Settled(s, p)
    requires p == |s| || (s[p] != '<' && s[p] != '>')
    ensures RedirsGive(s, p, [], p)
  {
    SkipSpaceUnique(s, p, p);
  }

  /** One turn of the parseredirs loop, from the tokens it reads: the symbol
      at p ends at m, and the file word runs from q to q + |f| and ends at
      next, whatever whitespace surrounds the two.
      The parameters that are only required equal to a value built from the
      others let callers pass plain terms, which keeps the verifier from
      unfolding the parser at each call. */
  lemma RedirsTok(s: string, p: nat, d: Dir, m: nat, q: nat, f: string, next: nat,
                  tail: seq<Redirect>, e: nat, rs: seq<Redirect>, e': nat)
    requires p < m <= q && q + |f| <= next <= |s|
    requires Peek(s, p, "<>") == (true, p)
    requires GetToken(s, p) == Lexeme(DirToken(d), p, p + 1, m)
    requires GetToken(s, m) == Lexeme(Word, q, q + |f|, next)
    requires MkCopy(s, q, q + |f|) == f
    requires RedirsGive(s, next, tail, e)
    requires rs == [Redirect(d, f)] + tail && e' == e
    ensures RedirsGive(s, p, rs, e')
  {
    assert (if DirToken(d) == LessSym then In else Out) == d;
    var t := GetToken(s, p);
    var fl := GetToken(s, t.next);
    assert fl.next == next;
  }

  /** A `<` or `>` whose next token is not a word stops parseredirs with a
      missing file. */
  lemma RedirsNoFile(s: string, p: nat, d: Dir, m: nat)
    requires p < m <= |s|
    requires Peek(s, p, "<>") == (true, p)
    requires GetToken(s, p) == Lexeme(DirToken(d), p, p + 1, m)
    requires GetToken(s, m).tok != Word
    ensures RedirsFail(s, p, MissingFile)
  {
  }

  /** One turn of the parseredirs loop whose rest fails. */
  lemma RedirsTokFail(s: string, p: nat, d: Dir, m: nat, q: nat, f: string, next: nat, err: ParseError)
    requires p < m <= q && q + |f| <= next <= |s|
    requires Peek(s, p, "<>") == (true, p)
    requires GetToken(s, p) == Lexeme(DirToken(d), p, p + 1, m)
    requires GetToken(s, m) == Lexeme(Word, q, q + |f|, next)
    requires RedirsFail(s, next, err)
    ensures RedirsFail(s, p, err)
  {
    var t := GetToken(s, p);
    var fl := GetToken(s, t.next);
    assert fl.next == next;
  }

  /** The word loop of parseexec stops at a pipe or at the end. */
  lemma ArgsStop(s: string, p: nat, argv: seq<string>, redirs: seq<Redirect>)
    requires p <= |s| && CmdEnd(s, p) && |argv| < MAXARGS
    ensures ArgsGive(s, p, argv, redirs, argv, redirs, p)
  {
    SkipSpaceUnique(s, p, p);
    if p == |s| {
      SkipSpaceUnique(s, |s|, |s|);
    }
  }

  /** One turn of the word loop of parseexec, from the tokens it reads, and
      the rest of the loop.
      The parameters that are only required equal to a value built from the
      others let callers pass plain terms, which keeps the verifier from
      unfolding the parser at each call. */
  lemma ArgsTok(s: string, p: nat, w: string, argv: seq<string>, redirs: seq<Redirect>,
                next: nat, more: seq<Redirect>, p2: nat,
                argv': seq<string>, redirs': seq<Redirect>, e: nat,
                argv'': seq<string>, redirs'': seq<Redirect>, e': nat)
    requires p + 1 <= next <= |s| && p2 <= |s| && |argv| + 1 < MAXARGS
    requires Peek(s, p, "|") == (false, p)
    requires GetToken(s, p) == Lexeme(Word, p, p + |w|, next)
    requires MkCopy(s, p, p + |w|) == w
    requires RedirsGive(s, next, more, p2)
    requires ArgsGive(s, p2, argv + [w], redirs + more, argv', redirs', e)
    requires argv'' == argv' && redirs'' == redirs' && e' == e
    ensures ArgsGive(s, p, argv, redirs, argv'', redirs'', e')
  {
    var t := GetToken(s, p);
    assert t.next == next && t.tok == Word;
    assert MkCopy(s, t.q, t.eq) == w;
  }

  /** A word is one too many once argv holds MAXARGS - 1 words. */
  lemma ArgsFullTok(s: string, p: nat, w: string, argv: seq<string>, redirs: seq<Redirect>, next: nat)
    requires p + 1 <= next <= |s| && |argv| + 1 == MAXARGS
    requires Peek(s, p, "|") == (false, p)
    requires GetToken(s, p) == Lexeme(Word, p, p + |w|, next)
    ensures ArgsFail(s, p, argv, redirs, TooManyArgs)
  {
  }

  /** A word whose redirections fail makes the word loop fail. */
  lemma ArgsRedirsFail(s: string, p: nat, w: string, argv: seq<string>, redirs: seq<Redirect>,
                       next: nat, err: ParseError)
    requires p + 1 <= next <= |s| && |argv| + 1 < MAXARGS
    requires Peek(s, p, "|") == (false, p)
    requires GetToken(s, p) == Lexeme(Word, p, p + |w|, next)
    requires RedirsFail(s, next, err)
    ensures ArgsFail(s, p, argv, redirs, err)
  {
    var t := GetToken(s, p);
    assert t.next == next && t.tok == Word;
  }

  /** One turn of the word loop of parseexec whose rest of the loop fails. */
  lemma ArgsTokFail(s: string, p: nat, w: string, argv: seq<string>, redirs: seq<Redirect>,
                    next: nat, more: seq<Redirect>, p2: nat, err: ParseError)
    requires p + 1 <= next <= |s| && p2 <= |s| && |argv| + 1 < MAXARGS
    requires Peek(s, p, "|") == (false, p)
    requires GetToken(s, p) == Lexeme(Word, p, p + |w|, next)
    requires MkCopy(s, p, p + |w|) == w
    requires RedirsGive(s, next, more, p2)
    requires ArgsFail(s, p2, argv + [w], redirs + more, err)
    ensures ArgsFail(s, p, argv, redirs, err)
  {
    var t := GetToken(s, p);
    assert t.next == next && t.tok == Word;
    assert MkCopy(s, t.q, t.eq) == w;
    var more' := ParseRedirs(s, next);
    assert more'.Ok? && more'.value.0 == more && more'.value.1 == p2;
    var rest := ParseArgs(s, p2, argv + [w], redirs + more);
    assert rest.Err? && rest.error == err;
  }

  /** parseexec fails when its leading redirections fail. */
  lemma ExecRedirsFail(s: string, p: nat, err: ParseError)
    requires p <= |s| && RedirsFail(s, p, err)
    ensures var r := ParseExec(s, p); r.Err? && r.error == err
  {
  }

  /** parseexec fails when its word loop does. */
  lemma ExecTokFail(s: string, p: nat, rs: seq<Redirect>, p1: nat, err: ParseError)
    requires p <= p1 <= |s|
    requires RedirsGive(s, p, rs, p1)
    requires ArgsFail(s, p1, [], rs, err)
    ensures var r := ParseExec(s, p); r.Err? && r.error == err
  {
  }

  /** parseexec from the results of its two loops.
      The parameters that are only required equal to a value built from the
      others let callers pass plain terms, which keeps the verifier from
      unfolding the parser at each call. */
  lemma ExecTok(s: string, p: nat, rs: seq<Redirect>, p1: nat,
                argv: seq<string>, redirs: seq<Redirect>, e: nat, c: Cmd, e': nat)
    requires p <= p1 <= |s|
    requires RedirsGive(s, p, rs, p1)
    requires ArgsGive(s, p1, [], rs, argv, redirs, e)
    requires c == Wrap(Exec(argv), redirs) && e' == e
    ensures ExecGive(s, p, c, e')
  {
  }

  /** ParsePipe(s, p) succeeds with the command c and the cursor e. */
  predicate PipeGive(s: string, p: nat, c: Cmd, e: nat)
    requires p <= |s|
  {
    var r := ParsePipe(s, p);
    r.Ok? && r.value.0 == c && r.value.1 == e
  }

  /** parsepipe when the command runs to the end of the line. */
  lemma PipeLast(s: string, p: nat, c: Cmd)
    requires p <= |s| && ExecGive(s, p, c, |s|)
    ensures PipeGive(s, p, c, |s|)
  {
    SkipSpaceUnique(s, |s|, |s|);
  }

  /** parsepipe when the command is followed by `|` and another pipeline;
      the `|` token ends at n, whatever whitespace follows it. */
  lemma PipeTok(s: string, p: nat, head: Cmd, k: nat, n: nat, tail: Cmd, e: nat, c: Cmd)
    requires p <= k < n <= |s|
    requires ExecGive(s, p, head, k)
    requires Peek(s, k, "|") == (true, k)
    requires GetToken(s, k) == Lexeme(PipeSym, k, k + 1, n)
    requires PipeGive(s, n, tail, e)
    requires c == Pipe(head, tail)
    ensures PipeGive(s, p, c, e)
  {
  }
}
