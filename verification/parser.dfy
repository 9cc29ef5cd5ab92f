/** The recursive-descent parser of the shell (sh.c `parsecmd`, `parseline`,
    `parsepipe`, `parseredirs`, `parseexec`).

    Every function takes the line `s` (whose end is `es`) and a cursor, and
    returns the parsed piece with the cursor after it. Where the C code prints
    a message and exits, the model returns `Err`. */
module Parser {
  import opened Lexer
  import opened Commands

  /** The fatal parse errors, one per message the parser prints before it
      exits: "missing file for redirection", "too many args", "syntax error"
      and "leftovers: " followed by the unparsed rest. */
  datatype ParseError =
    | MissingFile
    | TooManyArgs
    | SyntaxError
    | Leftovers(rest: string)

  datatype Result<T> = Ok(value: T) | Err(error: ParseError) {
    predicate IsFailure() {
      Err?
    }

    function PropagateFailure<U>(): Result<U>
      requires Err?
    {
      Err(error)
    }

    function Extract(): T
      requires Ok?
    {
      value
    }
  }

  /** parseredirs: reads `<` or `>` followed by a file word as long as the
      next token is one of them. Returns the redirections in input order; the
      caller wraps them around its node (see Wrap). */
  function ParseRedirs(s: string, ps: nat): (r: Result<(seq<Redirect>, nat)>)
    requires ps <= |s|
    ensures r.Ok? ==> ps <= r.value.1 <= |s| && Settled(s, r.value.1)
    // it stops only where no redirection follows
    ensures r.Ok? ==> r.value.1 == |s| || (s[r.value.1] != '<' && s[r.value.1] != '>')
    ensures r.Ok? ==> forall i :: 0 <= i < |r.value.0| ==> IsWord(r.value.0[i].file)
    ensures r.Err? ==> r.error == MissingFile
    decreases |s| - ps
  {
    var peek := Peek(s, ps, "<>");
    if !peek.0 then Ok(([], peek.1))
    else
      var t := GetToken(s, peek.1);
      assert t.tok == LessSym || t.tok == GreaterSym;
      var f := GetToken(s, t.next);
      if f.tok != Word then Err(MissingFile)
      else
        CopyOfWord(s, t.next);
        var dir := if t.tok == LessSym then In else Out;
        var rest := ParseRedirs(s, f.next);
        if rest.Err? then Err(rest.error)
        else Ok(([Redirect(dir, MkCopy(s, f.q, f.eq))] + rest.value.0, rest.value.1))
  }

  /** The loop of parseexec, from the first word on: argv and redirs are the
      words and redirections read so far. A word appends to argv; the
      redirections after it are appended to redirs. */
  function ParseArgs(s: string, ps: nat, argv: seq<string>, redirs: seq<Redirect>)
    : (r: Result<(seq<string>, seq<Redirect>, nat)>)
    requires ps <= |s|
    requires |argv| < MAXARGS
    // words are only ever appended, and stay below MAXARGS
    ensures r.Ok? ==> argv <= r.value.0 && |r.value.0| < MAXARGS
    ensures r.Ok? ==> forall i :: |argv| <= i < |r.value.0| ==> IsWord(r.value.0[i])
    ensures r.Ok? ==> redirs <= r.value.1
    ensures r.Ok? ==> forall i :: |redirs| <= i < |r.value.1| ==> IsWord(r.value.1[i].file)
    // the command ends at a pipe or at the end of the line
    ensures r.Ok? ==> ps <= r.value.2 <= |s| && (r.value.2 == |s| || s[r.value.2] == '|')
    decreases |s| - ps
  {
    var (isPipe, p) := Peek(s, ps, "|");
    if isPipe then Ok((argv, redirs, p))
    else
      var t := GetToken(s, p);
      if t.tok == End then Ok((argv, redirs, t.next))
      else if t.tok != Word then Err(SyntaxError)
      else
        CopyOfWord(s, p);
        var argv' := argv + [MkCopy(s, t.q, t.eq)];
        if |argv'| >= MAXARGS then Err(TooManyArgs)
        else
          var more :- ParseRedirs(s, t.next);
          ParseArgs(s, more.1, argv', redirs + more.0)
  }

  /** parseexec: an exec node holding every word of the command, wrapped in
      every redirection of the command in the order written. */
  function ParseExec(s: string, ps: nat): (r: Result<(Cmd, nat)>)
    requires ps <= |s|
    ensures r.Ok? ==> IsSimple(r.value.0)
    ensures r.Ok? ==> ps <= r.value.1 <= |s| && (r.value.1 == |s| || s[r.value.1] == '|')
  {
    var lead :- ParseRedirs(s, ps);
    var body :- ParseArgs(s, lead.1, [], lead.0);
    Ok((Wrap(Exec(body.0), body.1), body.2))
  }

  /** parsepipe: a command, and if a `|` follows, a pipe node whose right
      side is the rest of the line parsed the same way. */
  function ParsePipe(s: string, ps: nat): (r: Result<(Cmd, nat)>)
    requires ps <= |s|
    ensures r.Ok? ==> IsPipeline(r.value.0) && ps <= r.value.1 <= |s|
    decreases |s| - ps
  {
    var head :- ParseExec(s, ps);
    var (isPipe, p) := Peek(s, head.1, "|");
    if !isPipe then Ok((head.0, p))
    else
      var t := GetToken(s, p);
      var tail :- ParsePipe(s, t.next);
      Ok((Pipe(head.0, tail.0), tail.1))
  }

  /** parseline. */
  function ParseLine(s: string, ps: nat): (r: Result<(Cmd, nat)>)
    requires ps <= |s|
    ensures r.Ok? ==> IsPipeline(r.value.0) && ps <= r.value.1 <= |s|
  {
    ParsePipe(s, ps)
  }

  /** parsecmd(buf): parses the C string in buf (up to its first NUL) and
      rejects a line with anything but whitespace after the parsed part. */
  function ParseCmd(buf: string): (r: Result<Cmd>)
    ensures r.Ok? ==> IsPipeline(r.value)
  {
    var s := buf[..Strlen(buf)];
    var line :- ParseLine(s, 0);
    var (_, p) := Peek(s, line.1, "");
    if p != |s| then Err(Leftovers(s[p..])) else Ok(line.0)
  }
}
