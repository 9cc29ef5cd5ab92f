/** Sample command lines and the trees parsecmd builds for them. */
module Samples {
  import opened Lexer
  import opened Commands
  import opened Parser
  import opened ParseSteps
  import opened RoundTrip

  /** Pipelines nest to the right: `a | b | c ` is a | (b | c). */
  lemma PipesNestRight()
    ensures ParseCmd("a | b | c ") == Ok(Pipe(Exec(["a"]), Pipe(Exec(["b"]), Exec(["c"]))))
  {
    var c := Pipe(Exec(["a"]), Pipe(Exec(["b"]), Exec(["c"])));
    assert IsWord("a") && IsWord("b") && IsWord("c");
    assert Unparse(c) == "a | b | c ";
    ParseUnparse(c);
  }

  /** The items of `cat < in > out -n `. */
  function CatItems(): seq<Item> {
    [Arg("cat"), Redirection(Redirect(In, "in")), Redirection(Redirect(Out, "out")), Arg("-n")]
  }

  lemma CatValid()
    ensures ValidItems(CatItems())
  {
    assert IsWord("cat") && IsWord("in") && IsWord("out") && IsWord("-n");
  }

  lemma CatText()
    ensures ItemsText(CatItems()) == "cat < in > out -n "
  {
    assert ItemsText([Arg("cat"), Redirection(Redirect(In, "in")), Redirection(Redirect(Out, "out")), Arg("-n")])
        == "cat < in > out -n ";
  }

  lemma CatParts()
    ensures Words(CatItems()) == ["cat", "-n"]
    ensures Redirs(CatItems()) == [Redirect(In, "in"), Redirect(Out, "out")]
  {
  }

  lemma CatWrap(rs: seq<Redirect>)
    requires rs == [Redirect(In, "in"), Redirect(Out, "out")]
    ensures Wrap(Exec(["cat", "-n"]), rs) == RedirCmd(RedirCmd(Exec(["cat", "-n"]), "in", In), "out", Out)
  {
    assert rs[..|rs| - 1] == [Redirect(In, "in")];
  }

  /** A word written after a redirection still joins the exec node's argv,
      and the last redirection written is the outermost node. */
  lemma WordsAfterRedirection()
    ensures ParseCmd("cat < in > out -n ") == Ok(RedirCmd(RedirCmd(Exec(["cat", "-n"]), "in", In), "out", Out))
  {
    var items := CatItems();
    CatValid();
    CatText();
    CatParts();
    CatWrap(Redirs(items));
    CommandLine(items);
  }

  /** gettoken splits `ls -la` into the words `ls` and `-la`, then the end. */
  lemma TokenizeSample()
    ensures Tokenize("ls -la", 0) == [(Word, "ls"), (Word, "-la"), (End, "")]
  {
    var s := "ls -la";
    assert |s| == 6 && s[0] == 'l' && s[1] == 's' && s[2] == ' ' && s[3] == '-' && s[4] == 'l' && s[5] == 'a';
    LsTokens(s);
  }

  /** The tokens of `ls -la`. */
  lemma LsTokens(s: string)
    requires |s| == 6 && s[0] == 'l' && s[1] == 's' && s[2] == ' ' && s[3] == '-' && s[4] == 'l' && s[5] == 'a'
    ensures GetToken(s, 0) == Lexeme(Word, 0, 2, 3) && MkCopy(s, 0, 2) == "ls"
    ensures GetToken(s, 3) == Lexeme(Word, 3, 6, 6) && MkCopy(s, 3, 6) == "-la"
    ensures GetToken(s, 6).tok == End && MkCopy(s, 6, 6) == ""
  {
    assert !IsDelim('l') && !IsDelim('s') && IsDelim(' ') && !IsDelim('-') && !IsDelim('a');
    SkipSpaceUnique(s, 0, 0);
    SkipSpaceUnique(s, 2, 3);
    SkipSpaceUnique(s, 6, 6);
    assert ScanWord(s, 0) == 2;
    assert ScanWord(s, 3) == 6;
    CopyOfWord(s, 0);
    CopyOfWord(s, 3);
    assert s[0..2] == "ls";
    assert s[3..6] == "-la";
  }

  /** The words of the samples below are words. */
  lemma SampleWords()
    ensures IsWord("a") && IsWord("b") && IsWord("cat") && IsWord("in") && IsWord("out")
  {
    assert !IsDelim('a') && !IsDelim('b') && !IsDelim('c') && !IsDelim('t');
    assert !IsDelim('i') && !IsDelim('n') && !IsDelim('o') && !IsDelim('u');
  }

  /** A word w written at p with a delimiter other than whitespace, or the
      end of the line, right after it. */
  lemma BareWord(s: string, p: nat, w: string)
    requires IsWord(w) && HasAt(s, p, w) && Settled(s, p + |w|)
    requires p + |w| == |s| || IsDelim(s[p + |w|])
    ensures Peek(s, p, "|") == (false, p) && Peek(s, p, "<>") == (false, p)
    ensures GetToken(s, p) == Lexeme(Word, p, p + |w|, p + |w|)
    ensures MkCopy(s, p, p + |w|) == w
  {
    assert forall k :: p <= k < p + |w| ==> s[k] == w[k - p];
    assert NoDelim(s, p, p + |w|);
    assert !IsDelim(w[0]);
    SkipSpaceUnique(s, p, p);
    SkipSpaceUnique(s, p + |w|, p + |w|);
    CopyOfWord(s, p);
  }

  /** A symbol at p with no whitespace after it. */
  lemma BareSymbol(s: string, p: nat)
    requires p < |s| && s[p] in Symbols && Settled(s, p + 1)
    ensures Peek(s, p, [s[p]]) == (true, p)
    ensures GetToken(s, p) == Lexeme(SymbolToken(s[p]), p, p + 1, p + 1)
  {
    SkipSpaceUnique(s, p, p);
    SkipSpaceUnique(s, p + 1, p + 1);
  }

  /** A command of the single word w, from p to a `|` or the end at k. */
  lemma BareCommand(s: string, p: nat, w: string, k: nat)
    requires IsWord(w) && HasAt(s, p, w) && k == p + |w| && k <= |s| && CmdEnd(s, k)
    ensures ExecGive(s, p, Exec([w]), k)
  {
    BareWord(s, p, w);
    RedirsStop(s, p);
    RedirsStop(s, k);
    ArgsStop(s, k, [w], []);
    ArgsTok(s, p, w, [], [], k, [], k, [w], [], k, [w], [], k);
    ExecTok(s, p, [], p, [w], [], k, Exec([w]), k);
  }

  /** No blank is needed around `|`: `a|b` is the pipe of a and b. */
  lemma PipeWithoutBlanks()
    ensures ParseCmd("a|b") == Ok(Pipe(Exec(["a"]), Exec(["b"])))
  {
    var s := "a|b";
    assert |s| == 3 && s[0] == 'a' && s[1] == '|' && s[2] == 'b';
    ParseAB(s);
  }

  /** parsecmd over `a|b`. */
  lemma ParseAB(s: string)
    requires |s| == 3 && s[0] == 'a' && s[1] == '|' && s[2] == 'b'
    ensures ParseCmd(s) == Ok(Pipe(Exec(["a"]), Exec(["b"])))
  {
    assert NoNul(s);
    assert s[..Strlen(s)] == s;
    PipeAB(s);
    SkipSpaceUnique(s, 3, 3);
  }

  /** parsepipe over `a|b`. */
  lemma PipeAB(s: string)
    requires |s| == 3 && s[0] == 'a' && s[1] == '|' && s[2] == 'b'
    ensures PipeGive(s, 0, Pipe(Exec(["a"]), Exec(["b"])), 3)
  {
    var a, b := Exec(["a"]), Exec(["b"]);
    CommandsAB(s);
    BareSymbol(s, 1);
    PipeLast(s, 2, b);
    PipeTok(s, 0, a, 1, 2, b, 3, Pipe(a, b));
  }

  /** The two commands of `a|b`. */
  lemma CommandsAB(s: string)
    requires |s| == 3 && s[0] == 'a' && s[1] == '|' && s[2] == 'b'
    ensures ExecGive(s, 0, Exec(["a"]), 1) && ExecGive(s, 2, Exec(["b"]), 3)
  {
    assert HasAt(s, 0, "a") && HasAt(s, 2, "b");
    SampleWords();
    BareCommand(s, 0, "a", 1);
    BareCommand(s, 2, "b", 3);
  }

  /** No blank is needed around `<` and `>` either. */
  lemma RedirectionsWithoutBlanks()
    ensures ParseCmd("cat<in>out") == Ok(RedirCmd(RedirCmd(Exec(["cat"]), "in", In), "out", Out))
  {
    var s := "cat<in>out";
    assert |s| == 10 && s[0] == 'c' && s[1] == 'a' && s[2] == 't' && s[3] == '<' && s[4] == 'i'
        && s[5] == 'n' && s[6] == '>' && s[7] == 'o' && s[8] == 'u' && s[9] == 't';
    CatParse(s);
  }

  /** parsecmd over `cat<in>out`. */
  lemma CatParse(s: string)
    requires |s| == 10 && s[0] == 'c' && s[1] == 'a' && s[2] == 't' && s[3] == '<' && s[4] == 'i'
          && s[5] == 'n' && s[6] == '>' && s[7] == 'o' && s[8] == 'u' && s[9] == 't'
    ensures ParseCmd(s) == Ok(RedirCmd(RedirCmd(Exec(["cat"]), "in", In), "out", Out))
  {
    assert NoNul(s);
    assert s[..Strlen(s)] == s;
    CatLine(s);
    SkipSpaceUnique(s, 10, 10);
  }

  /** parsepipe over `cat<in>out`. */
  lemma CatLine(s: string)
    requires |s| == 10 && s[0] == 'c' && s[1] == 'a' && s[2] == 't' && s[3] == '<' && s[4] == 'i'
          && s[5] == 'n' && s[6] == '>' && s[7] == 'o' && s[8] == 'u' && s[9] == 't'
    ensures PipeGive(s, 0, RedirCmd(RedirCmd(Exec(["cat"]), "in", In), "out", Out), 10)
  {
    assert HasAt(s, 0, "cat") by {
      assert s[0..3] == "cat";
    }
    assert HasAt(s, 4, "in") by {
      assert s[4..6] == "in";
    }
    assert HasAt(s, 7, "out") by {
      assert s[7..10] == "out";
    }
    var rs := CatRedirections(s);
    CatCommand(s, rs);
    var c := RedirCmd(RedirCmd(Exec(["cat"]), "in", In), "out", Out);
    assert Wrap(Exec(["cat"]), rs) == c by {
      assert rs[..1] == [Redirect(In, "in")];
    }
    PipeLast(s, 0, c);
  }

  /** The redirections of `cat<in>out`, read from position 3. */
  lemma CatRedirections(s: string) returns (rs: seq<Redirect>)
    requires |s| == 10 && s[3] == '<' && s[6] == '>' && HasAt(s, 4, "in") && HasAt(s, 7, "out")
    ensures rs == [Redirect(In, "in"), Redirect(Out, "out")]
    ensures RedirsGive(s, 3, rs, 10)
  {
    rs := [Redirect(In, "in"), Redirect(Out, "out")];
    SampleWords();
    HasAtIndex(s, 4, "in", 0);
    HasAtIndex(s, 7, "out", 0);
    BareSymbol(s, 3);
    BareSymbol(s, 6);
    BareWord(s, 4, "in");
    BareWord(s, 7, "out");
    RedirsStop(s, 10);
    RedirsTok(s, 6, Out, 7, 7, "out", 10, [], 10, [Redirect(Out, "out")], 10);
    RedirsTok(s, 3, In, 4, 4, "in", 6, [Redirect(Out, "out")], 10, rs, 10);
  }

  /** parseexec over `cat<in>out`. */
  lemma CatCommand(s: string, rs: seq<Redirect>)
    requires |s| == 10 && s[3] == '<' && HasAt(s, 0, "cat") && RedirsGive(s, 3, rs, 10)
    ensures ExecGive(s, 0, Wrap(Exec(["cat"]), rs), 10)
  {
    SampleWords();
    BareWord(s, 0, "cat");
    RedirsStop(s, 0);
    ArgsStop(s, 10, ["cat"], rs);
    ArgsTok(s, 0, "cat", [], [], 3, rs, 10, ["cat"], rs, 10, ["cat"], rs, 10);
    ExecTok(s, 0, [], 0, ["cat"], rs, 10, Wrap(Exec(["cat"]), rs), 10);
  }
}
