/** Writing a command tree back as a command line, and the proof that the
    parser reads that line back as the same tree.

    A command is written as a sequence of items (words and redirections), each
    followed by one space; pipeline stages are separated by `| `. The lemmas
    about items allow words and redirections in any interleaving, which is how
    parseexec reads them. */
module RoundTrip {
  import opened Lexer
  import opened Commands
  import opened Parser
  import opened ParseSteps

  /** One element of a command as written: a word or a redirection. */
  datatype Item = Arg(word: string) | Redirection(redirect: Redirect)

  function ItemText(it: Item): string {
    match it
    case Arg(w) => w + " "
    case Redirection(Redirect(d, f)) => [DirSymbol(d), ' '] + f + " "
  }

  function ItemsText(items: seq<Item>): string
    decreases |items|
  {
    if |items| == 0 then "" else ItemText(items[0]) + ItemsText(items[1..])
  }

  function ItemWords(it: Item): seq<string> {
    if it.Arg? then [it.word] else []
  }

  function ItemRedirs(it: Item): seq<Redirect> {
    if it.Redirection? then [it.redirect] else []
  }

  /** The words among the items, in order. */
  function Words(items: seq<Item>): seq<string>
    decreases |items|
  {
    if |items| == 0 then [] else ItemWords(items[0]) + Words(items[1..])
  }

  /** The redirections among the items, in order. */
  function Redirs(items: seq<Item>): seq<Redirect>
    decreases |items|
  {
    if |items| == 0 then [] else ItemRedirs(items[0]) + Redirs(items[1..])
  }

  /** Every word and every redirection file is a word the tokenizer reads back. */
  predicate ValidItems(items: seq<Item>) {
    forall i :: 0 <= i < |items| ==>
      (items[i].Arg? ==> IsWord(items[i].word)) &&
      (items[i].Redirection? ==> IsWord(items[i].redirect.file))
  }

  /** The number of redirections before the first word. */
  function LeadingRedirs(items: seq<Item>): (n: nat)
    ensures n <= |items|
    ensures forall i :: 0 <= i < n ==> items[i].Redirection?
    ensures n == |items| || items[n].Arg?
    decreases |items|
  {
    if |items| == 0 || items[0].Arg? then 0 else 1 + LeadingRedirs(items[1..])
  }

  /** The items of a simple command: its words, then its redirections. */
  function ArgItems(ws: seq<string>): seq<Item>
    decreases |ws|
  {
    if |ws| == 0 then [] else [Arg(ws[0])] + ArgItems(ws[1..])
  }

  function RedirItems(rs: seq<Redirect>): seq<Item>
    decreases |rs|
  {
    if |rs| == 0 then [] else [Redirection(rs[0])] + RedirItems(rs[1..])
  }

  /** The words of the exec node at the core of c. */
  function CoreArgv(c: Cmd): seq<string> {
    var core := Core(c);
    if core.Exec? then core.argv else []
  }

  function CommandItems(c: Cmd): seq<Item>
    requires IsSimple(c)
  {
    ArgItems(CoreArgv(c)) + RedirItems(Redirections(c))
  }

  /** The command line of a pipeline. */
  function Unparse(c: Cmd): string
    requires IsPipeline(c)
  {
    if c.Pipe? then ItemsText(CommandItems(c.left)) + "| " + Unparse(c.right)
    else ItemsText(CommandItems(c))
  }

  // ---------------------------------------------------------------------
  // Facts about the item lists

  lemma {:induction false} ItemsTextAppend(a: seq<Item>, b: seq<Item>)
    ensures ItemsText(a + b) == ItemsText(a) + ItemsText(b)
    decreases |a|
  {
    if |a| == 0 {
      assert a + b == b;
    } else {
      var h, t := ItemText(a[0]), a[1..];
      assert (a + b)[0] == a[0];
      assert (a + b)[1..] == t + b;
      ItemsTextAppend(t, b);
      var x, y := ItemsText(t), ItemsText(b);
      assert ItemsText(a + b) == h + (x + y);
      AppendAssoc(h, x, y);
    }
  }

  lemma {:induction false} WordsAppend(a: seq<Item>, b: seq<Item>)
    ensures Words(a + b) == Words(a) + Words(b)
    decreases |a|
  {
    if |a| == 0 {
      assert a + b == b;
    } else {
      var h, t := ItemWords(a[0]), a[1..];
      assert (a + b)[0] == a[0];
      assert (a + b)[1..] == t + b;
      WordsAppend(t, b);
      var x, y := Words(t), Words(b);
      assert Words(a + b) == h + (x + y);
      AppendAssoc(h, x, y);
    }
  }

  lemma {:induction false} RedirsAppend(a: seq<Item>, b: seq<Item>)
    ensures Redirs(a + b) == Redirs(a) + Redirs(b)
    decreases |a|
  {
    if |a| == 0 {
      assert a + b == b;
    } else {
      var h, t := ItemRedirs(a[0]), a[1..];
      assert (a + b)[0] == a[0];
      assert (a + b)[1..] == t + b;
      RedirsAppend(t, b);
      var x, y := Redirs(t), Redirs(b);
      assert Redirs(a + b) == h + (x + y);
      AppendAssoc(h, x, y);
    }
  }

  lemma {:induction false} ArgItemsFacts(ws: seq<string>)
    ensures Words(ArgItems(ws)) == ws && Redirs(ArgItems(ws)) == []
    ensures |ArgItems(ws)| == |ws|
    ensures forall i :: 0 <= i < |ws| ==> ArgItems(ws)[i] == Arg(ws[i])
    decreases |ws|
  {
    if |ws| > 0 {
      ArgItemsFacts(ws[1..]);
    }
  }

  lemma {:induction false} RedirItemsFacts(rs: seq<Redirect>)
    ensures Words(RedirItems(rs)) == [] && Redirs(RedirItems(rs)) == rs
    ensures |RedirItems(rs)| == |rs|
    ensures forall i :: 0 <= i < |rs| ==> RedirItems(rs)[i] == Redirection(rs[i])
    decreases |rs|
  {
    if |rs| > 0 {
      RedirItemsFacts(rs[1..]);
    }
  }

  lemma {:induction false} RedirectionFiles(c: Cmd)
    requires IsSimple(c)
    ensures Core(c) == Exec(CoreArgv(c)) && IsSimple(Core(c))
    ensures forall i :: 0 <= i < |Redirections(c)| ==> IsWord(Redirections(c)[i].file)
  {
    if c.Redir? {
      RedirectionFiles(c.cmd);
    }
  }

  /** The items of a simple command are valid and give back its words and
      its redirections. */
  lemma CommandItemsFacts(c: Cmd)
    requires IsSimple(c)
    ensures ValidItems(CommandItems(c))
    ensures Words(CommandItems(c)) == CoreArgv(c)
    ensures Redirs(CommandItems(c)) == Redirections(c)
  {
    RedirectionFiles(c);
    ArgItemsFacts(CoreArgv(c));
    RedirItemsFacts(Redirections(c));
    WordsAppend(ArgItems(CoreArgv(c)), RedirItems(Redirections(c)));
    RedirsAppend(ArgItems(CoreArgv(c)), RedirItems(Redirections(c)));
  }

  // ---------------------------------------------------------------------
  // Single steps of the tokenizer and the parser

  /** `s` holds x at position p. */
  predicate HasAt(s: string, p: nat, x: string) {
    p + |x| <= |s| && s[p..p + |x|] == x
  }

  lemma HasAtSplit(s: string, p: nat, x: string, y: string)
    requires HasAt(s, p, x + y)
    ensures HasAt(s, p, x) && HasAt(s, p + |x|, y)
  {
    assert s[p..p + |x|] == (x + y)[..|x|];
    assert s[p + |x|..p + |x| + |y|] == (x + y)[|x|..];
  }

  lemma HasAtIndex(s: string, p: nat, x: string, i: nat)
    requires HasAt(s, p, x) && i < |x|
    ensures p + i < |s| && s[p + i] == x[i]
  {
    assert s[p..p + |x|][i] == x[i];
  }

  /** A word followed by a space, with a token or the end after it. */
  lemma WordAt(s: string, p: nat, w: string, next: nat)
    requires IsWord(w) && HasAt(s, p, w + " ")
    requires next == p + |w| + 1 && Settled(s, next)
    ensures GetToken(s, p) == Lexeme(Word, p, p + |w|, next)
    ensures MkCopy(s, p, p + |w|) == w
  {
    HasAtSplit(s, p, w, " ");
    assert forall k :: p <= k < p + |w| ==> s[k] == w[k - p];
    assert NoDelim(s, p, p + |w|);
    assert s[p + |w|] == ' ' && IsDelim(s[p + |w|]);
    assert !IsDelim(w[0]);
    SkipSpaceUnique(s, p, p);
    var eq := p + |w|;
    SkipSpaceUnique(s, eq, next);
    CopyOfWord(s, p);
  }

  /** A symbol followed by a space, with a token or the end after it. */
  lemma SymbolAt(s: string, p: nat)
    requires p + 1 < |s| && s[p] in Symbols && s[p + 1] == ' '
    requires Settled(s, p + 2)
    ensures GetToken(s, p) == Lexeme(SymbolToken(s[p]), p, p + 1, p + 2)
  {
    SkipSpaceUnique(s, p, p);
    SkipSpaceUnique(s, p + 1, p + 2);
  }

  /** The tokens of `< f ` or `> f `, with `next` the position after them. */
  lemma RedirTokens(s: string, p: nat, d: Dir, f: string, next: nat)
    requires IsWord(f) && HasAt(s, p, [DirSymbol(d), ' '] + f + " ")
    requires next == p + |f| + 3 && Settled(s, next)
    ensures Peek(s, p, "<>") == (true, p)
    ensures GetToken(s, p) == Lexeme(DirToken(d), p, p + 1, p + 2)
    ensures GetToken(s, p + 2) == Lexeme(Word, p + 2, p + 2 + |f|, next)
    ensures MkCopy(s, p + 2, p + 2 + |f|) == f
  {
    RedirLayout(s, p, d, f);
    var q := p + 2;
    WordAt(s, q, f, next);
    SymbolAt(s, p);
    SkipSpaceUnique(s, p, p);
  }

  /** Where the pieces of `< f ` or `> f ` sit. */
  lemma RedirLayout(s: string, p: nat, d: Dir, f: string)
    requires IsWord(f) && HasAt(s, p, [DirSymbol(d), ' '] + f + " ")
    ensures p + 2 < |s| && s[p] == DirSymbol(d) && s[p + 1] == ' ' && !IsSpace(s[p + 2])
    ensures HasAt(s, p + 2, f + " ")
  {
    var sym := [DirSymbol(d), ' '];
    assert sym + f + " " == sym + (f + " ");
    HasAtSplit(s, p, sym, f + " ");
    HasAtIndex(s, p, sym, 0);
    HasAtIndex(s, p, sym, 1);
    HasAtIndex(s, p + 2, f + " ", 0);
    assert !IsDelim(f[0]);
  }

  /** The tokens of `w `, with `next` the position after them. */
  lemma WordTokens(s: string, p: nat, w: string, next: nat)
    requires IsWord(w) && HasAt(s, p, w + " ")
    requires next == p + |w| + 1 && Settled(s, next)
    ensures Peek(s, p, "|") == (false, p)
    ensures GetToken(s, p) == Lexeme(Word, p, p + |w|, next)
    ensures MkCopy(s, p, p + |w|) == w
  {
    assert s[p] == w[0] && !IsDelim(w[0]);
    SkipSpaceUnique(s, p, p);
    WordAt(s, p, w, next);
  }

  // ---------------------------------------------------------------------
  // The parser on written items

  /** No `<` or `>` at k. */
  predicate NoRedirAt(s: string, k: nat)
    requires k <= |s|
  {
    k == |s| || (s[k] != '<' && s[k] != '>')
  }

  /** The end of a command is settled and holds no redirection. */
  lemma CmdEndSettled(s: string, k: nat)
    requires k <= |s| && CmdEnd(s, k)
    ensures Settled(s, k) && NoRedirAt(s, k)
  {
  }

  /** The character an item starts with. */
  function Lead(it: Item): (c: char)
    requires it.Arg? ==> IsWord(it.word)
    ensures !IsSpace(c) && (it.Arg? ==> !IsDelim(c))
  {
    if it.Arg? then assert !IsDelim(it.word[0]); it.word[0] else DirSymbol(it.redirect.dir)
  }

  /** Written items start with the first character of the first item. */
  lemma ItemsHead(s: string, p: nat, items: seq<Item>)
    requires ValidItems(items) && |items| > 0
    requires HasAt(s, p, ItemsText(items))
    ensures p < |s| && s[p] == Lead(items[0])
  {
    var t := ItemText(items[0]);
    assert ItemsText(items) == t + ItemsText(items[1..]);
    assert items[0].Arg? ==> IsWord(items[0].word);
    assert t[0] == Lead(items[0]);
    assert s[p] == ItemsText(items)[0];
  }

  /** The position where written items of one command start is settled;
      k is where the items end. */
  lemma ItemsSettled(s: string, p: nat, items: seq<Item>, k: nat)
    requires ValidItems(items) && HasAt(s, p, ItemsText(items))
    requires k == p + |ItemsText(items)| && k <= |s| && Settled(s, k)
    ensures Settled(s, p)
  {
    if |items| > 0 {
      ItemsHead(s, p, items);
    }
  }

  /** The text of a non-empty item list is its first item's text followed
      by the rest. */
  lemma ItemsCons(items: seq<Item>)
    requires |items| > 0
    ensures ItemsText(items) == ItemText(items[0]) + ItemsText(items[1..])
    ensures |ItemsText(items)| == |ItemText(items[0])| + |ItemsText(items[1..])|
  {
  }

  lemma RedirText(r: Redirect)
    ensures ItemText(Redirection(r)) == [DirSymbol(r.dir), ' '] + r.file + " "
    ensures |ItemText(Redirection(r))| == |r.file| + 3
  {
  }

  /** The redirections before the first word, and their text. */
  function LeadRedirs(items: seq<Item>): seq<Redirect>
    decreases |items|
  {
    if |items| == 0 || items[0].Arg? then [] else [items[0].redirect] + LeadRedirs(items[1..])
  }

  function LeadText(items: seq<Item>): string
    decreases |items|
  {
    if |items| == 0 || items[0].Arg? then "" else ItemText(items[0]) + LeadText(items[1..])
  }

  lemma LeadCons(items: seq<Item>)
    requires |items| > 0 && items[0].Redirection?
    ensures LeadRedirs(items) == [items[0].redirect] + LeadRedirs(items[1..])
    ensures |LeadText(items)| == |ItemText(items[0])| + |LeadText(items[1..])|
  {
  }

  /** The items split at the first word: the leading redirections and
      everything from the first word on. */
  lemma {:induction false} LeadTextSplit(items: seq<Item>)
    ensures ItemsText(items) == LeadText(items) + ItemsText(items[LeadingRedirs(items)..])
    decreases |items|
  {
    var n := LeadingRedirs(items);
    if n > 0 {
      var h := ItemText(items[0]);
      var rest := items[1..];
      LeadTextSplit(rest);
      assert rest[n - 1..] == items[n..];
      assert ItemsText(items) == h + (LeadText(rest) + ItemsText(items[n..]));
      assert h + (LeadText(rest) + ItemsText(items[n..])) == (h + LeadText(rest)) + ItemsText(items[n..]);
    }
  }

  lemma {:induction false} LeadWordsSplit(items: seq<Item>)
    ensures Words(items) == Words(items[LeadingRedirs(items)..])
    decreases |items|
  {
    var n := LeadingRedirs(items);
    if n > 0 {
      var rest := items[1..];
      LeadWordsSplit(rest);
      assert rest[n - 1..] == items[n..];
      assert ItemWords(items[0]) == [];
    }
  }

  lemma {:induction false} LeadRedirsSplit(items: seq<Item>)
    ensures Redirs(items) == LeadRedirs(items) + Redirs(items[LeadingRedirs(items)..])
    decreases |items|
  {
    var n := LeadingRedirs(items);
    if n > 0 {
      var h := [items[0].redirect];
      var rest := items[1..];
      LeadRedirsSplit(rest);
      assert rest[n - 1..] == items[n..];
      assert Redirs(items) == h + (LeadRedirs(rest) + Redirs(items[n..]));
      assert h + (LeadRedirs(rest) + Redirs(items[n..])) == (h + LeadRedirs(rest)) + Redirs(items[n..]);
    }
  }

  /** parseredirs over a leading redirection item, given its result on the
      items after it. */
  lemma RedirsItem(s: string, p: nat, items: seq<Item>, p1: nat,
                   more: seq<Redirect>, e1: nat, all: seq<Redirect>, e: nat)
    requires |items| > 0 && items[0].Redirection? && IsWord(items[0].redirect.file)
    requires HasAt(s, p, ItemText(items[0])) && p1 == p + |ItemText(items[0])|
    requires p1 <= |s| && Settled(s, p1)
    requires more == LeadRedirs(items[1..]) && e1 == p1 + |LeadText(items[1..])|
    requires all == LeadRedirs(items) && e == p + |LeadText(items)|
    requires RedirsGive(s, p1, more, e1)
    ensures RedirsGive(s, p, all, e)
  {
    var r := items[0].redirect;
    RedirText(r);
    LeadCons(items);
    RedirTokens(s, p, r.dir, r.file, p1);
    RedirsTok(s, p, r.dir, p + 2, p + 2, r.file, p1, more, e1, all, e);
  }

  /** Every suffix of valid items is valid. */
  lemma ValidSuffix(items: seq<Item>, n: nat)
    requires ValidItems(items) && n <= |items|
    ensures ValidItems(items[n..])
  {
    forall i | 0 <= i < |items| - n
      ensures items[n..][i] == items[n + i]
    {
    }
  }

  /** Written items without their first item: where the rest starts, and
      that it is written the same way up to the same end k. */
  lemma ItemsTail(s: string, p: nat, items: seq<Item>, p1: nat, k: nat)
    requires ValidItems(items) && |items| > 0 && HasAt(s, p, ItemsText(items))
    requires k == p + |ItemsText(items)| && k <= |s| && Settled(s, k)
    requires p1 == p + |ItemText(items[0])|
    ensures HasAt(s, p, ItemText(items[0])) && p1 <= k
    ensures ValidItems(items[1..]) && HasAt(s, p1, ItemsText(items[1..]))
    ensures k == p1 + |ItemsText(items[1..])| && Settled(s, p1)
  {
    ItemsCons(items);
    HasAtSplit(s, p, ItemText(items[0]), ItemsText(items[1..]));
    ValidSuffix(items, 1);
    ItemsSettled(s, p1, items[1..], k);
  }

  /** parseredirs reads exactly the redirections before the first word
      (the items end at k, where no `<` or `>` follows unless a word comes
      before it). */
  lemma {:induction false} RedirsRun(s: string, p: nat, items: seq<Item>, k: nat)
    requires ValidItems(items) && HasAt(s, p, ItemsText(items))
    requires k == p + |ItemsText(items)| && k <= |s| && Settled(s, k)
    requires LeadingRedirs(items) < |items| || NoRedirAt(s, k)
    ensures RedirsGive(s, p, LeadRedirs(items), p + |LeadText(items)|)
    decreases |items|
  {
    if |items| == 0 || items[0].Arg? {
      ItemsSettled(s, p, items, k);
      if |items| > 0 {
        ItemsHead(s, p, items);
      }
      RedirsStop(s, p);
    } else {
      var p1 := p + |ItemText(items[0])|;
      ItemsTail(s, p, items, p1, k);
      var rest := items[1..];
      var more, e1 := LeadRedirs(rest), p1 + |LeadText(rest)|;
      var all, e := LeadRedirs(items), p + |LeadText(items)|;
      RedirsRun(s, p1, rest, k);
      RedirsItem(s, p, items, p1, more, e1, all, e);
    }
  }

  /** The first item written as a word `w `. */
  lemma ArgHead(items: seq<Item>)
    requires ValidItems(items) && |items| > 0 && items[0].Arg?
    ensures var w := items[0].word;
            && IsWord(w) && ItemText(items[0]) == w + " " && |ItemText(items[0])| == |w| + 1
            && Words(items) == [w] + Words(items[1..])
            && Redirs(items) == Redirs(items[1..])
  {
  }

  /** Written items after their leading redirections. */
  lemma LeadLayout(s: string, p: nat, items: seq<Item>, p2: nat, k: nat)
    requires ValidItems(items) && HasAt(s, p, ItemsText(items))
    requires k == p + |ItemsText(items)| && p2 == p + |LeadText(items)|
    ensures var n := LeadingRedirs(items);
            && ValidItems(items[n..]) && HasAt(s, p2, ItemsText(items[n..]))
            && k == p2 + |ItemsText(items[n..])|
            && Words(items) == Words(items[n..])
            && Redirs(items) == LeadRedirs(items) + Redirs(items[n..])
            && (|items[n..]| == 0 || items[n..][0].Arg?)
  {
    var n := LeadingRedirs(items);
    LeadTextSplit(items);
    LeadWordsSplit(items);
    LeadRedirsSplit(items);
    HasAtSplit(s, p, LeadText(items), ItemsText(items[n..]));
    ValidSuffix(items, n);
  }

  lemma AppendAssoc<T>(a: seq<T>, b: seq<T>, c: seq<T>)
    ensures a + (b + c) == a + b + c
  {
  }

  /** One turn of the word loop of parseexec over `w `, given its results
      on what follows.
      The parameters that are only required equal to a value built from the
      others let callers pass plain terms, which keeps the verifier from
      unfolding the parser at each call. */
  lemma ArgsItem(s: string, p: nat, w: string, argv: seq<string>, redirs: seq<Redirect>,
                 p1: nat, more: seq<Redirect>, p2: nat, wsTail: seq<string>, rsTail: seq<Redirect>, k: nat,
                 ws: seq<string>, rs: seq<Redirect>)
    requires IsWord(w) && HasAt(s, p, w + " ") && p1 == p + |w| + 1 && Settled(s, p1)
    requires p1 <= p2 <= |s| && |argv| + 1 < MAXARGS
    requires RedirsGive(s, p1, more, p2)
    requires ArgsGive(s, p2, argv + [w], redirs + more, argv + [w] + wsTail, redirs + more + rsTail, k)
    requires ws == [w] + wsTail && rs == more + rsTail
    ensures ArgsGive(s, p, argv, redirs, argv + ws, redirs + rs, k)
  {
    WordTokens(s, p, w, p1);
    AppendAssoc(argv, [w], wsTail);
    AppendAssoc(redirs, more, rsTail);
    ArgsTok(s, p, w, argv, redirs, p1, more, p2,
            argv + [w] + wsTail, redirs + more + rsTail, k,
            argv + ws, redirs + rs, k);
  }

  /** The word loop of parseexec reads all remaining words and
      redirections, appending each to the list it belongs to. */
  lemma {:induction false} ArgsRun(s: string, p: nat, items: seq<Item>, argv: seq<string>, redirs: seq<Redirect>, k: nat)
    requires ValidItems(items) && (|items| == 0 || items[0].Arg?) && HasAt(s, p, ItemsText(items))
    requires k == p + |ItemsText(items)| && k <= |s| && CmdEnd(s, k)
    requires |argv| + |Words(items)| < MAXARGS
    ensures ArgsGive(s, p, argv, redirs, argv + Words(items), redirs + Redirs(items), k)
    decreases |items|
  {
    if |items| == 0 {
      ArgsStop(s, p, argv, redirs);
    } else {
      CmdEndSettled(s, k);
      ArgHead(items);
      var w := items[0].word;
      var rest := items[1..];
      var p1 := p + |ItemText(items[0])|;
      ItemsTail(s, p, items, p1, k);
      var n := LeadingRedirs(rest);
      var p2 := p1 + |LeadText(rest)|;
      LeadLayout(s, p1, rest, p2, k);
      assert |argv + [w]| + |Words(rest[n..])| == |argv| + |Words(items)|;
      var after, more := rest[n..], LeadRedirs(rest);
      var wsTail, rsTail, ws, rs := Words(after), Redirs(after), Words(items), Redirs(items);
      RedirsRun(s, p1, rest, k);
      ArgsRun(s, p2, after, argv + [w], redirs + more, k);
      ArgsItem(s, p, w, argv, redirs, p1, more, p2, wsTail, rsTail, k, ws, rs);
    }
  }

  /** parseexec on written items: words and redirections in any interleaving
      give one exec node with all the words in order, inside the
      redirections in the order written. */
  lemma ExecRun(s: string, p: nat, items: seq<Item>, k: nat, c: Cmd)
    requires ValidItems(items) && HasAt(s, p, ItemsText(items))
    requires k == p + |ItemsText(items)| && k <= |s| && CmdEnd(s, k)
    requires |Words(items)| < MAXARGS
    requires c == Wrap(Exec(Words(items)), Redirs(items))
    ensures ExecGive(s, p, c, k)
  {
    var p1 := p + |LeadText(items)|;
    var lead, ws, rs := LeadRedirs(items), Words(items), Redirs(items);
    CmdEndSettled(s, k);
    RedirsRun(s, p, items, k);
    ArgsAfterLead(s, p, items, p1, k);
    ExecTok(s, p, lead, p1, ws, rs, k, c, k);
  }

  /** The word loop of parseexec, entered after the leading redirections,
      reads every word and every later redirection. */
  lemma ArgsAfterLead(s: string, p: nat, items: seq<Item>, p1: nat, k: nat)
    requires ValidItems(items) && HasAt(s, p, ItemsText(items))
    requires k == p + |ItemsText(items)| && k <= |s| && CmdEnd(s, k)
    requires p1 == p + |LeadText(items)| && |Words(items)| < MAXARGS
    ensures p <= p1 <= k
    ensures ArgsGive(s, p1, [], LeadRedirs(items), Words(items), Redirs(items), k)
  {
    var rest := items[LeadingRedirs(items)..];
    LeadLayout(s, p, items, p1, k);
    assert [] + Words(rest) == Words(items);
    ArgsRun(s, p1, rest, [], LeadRedirs(items), k);
  }

  /** The word loop of parseexec over written items holding more words
      than argv has room for fails with too many words. */
  lemma {:induction false} ArgsOverflow(s: string, p: nat, items: seq<Item>, argv: seq<string>, redirs: seq<Redirect>, k: nat)
    requires ValidItems(items) && (|items| == 0 || items[0].Arg?) && HasAt(s, p, ItemsText(items))
    requires k == p + |ItemsText(items)| && k <= |s| && CmdEnd(s, k)
    requires |argv| < MAXARGS <= |argv| + |Words(items)|
    ensures ArgsFail(s, p, argv, redirs, TooManyArgs)
    decreases |items|
  {
    assert |items| > 0;
    CmdEndSettled(s, k);
    ArgHead(items);
    var w := items[0].word;
    var rest := items[1..];
    var p1 := p + |ItemText(items[0])|;
    ItemsTail(s, p, items, p1, k);
    WordTokens(s, p, w, p1);
    if |argv| + 1 == MAXARGS {
      ArgsFullTok(s, p, w, argv, redirs, p1);
    } else {
      var n := LeadingRedirs(rest);
      var p2 := p1 + |LeadText(rest)|;
      LeadLayout(s, p1, rest, p2, k);
      var after, more := rest[n..], LeadRedirs(rest);
      assert |argv + [w]| + |Words(after)| == |argv| + |Words(items)|;
      RedirsRun(s, p1, rest, k);
      ArgsOverflow(s, p2, after, argv + [w], redirs + more, k);
      ArgsTokFail(s, p, w, argv, redirs, p1, more, p2, TooManyArgs);
    }
  }

  /** parseexec over written items with MAXARGS words or more fails with
      too many words. */
  lemma ExecOverflow(s: string, p: nat, items: seq<Item>, k: nat)
    requires ValidItems(items) && HasAt(s, p, ItemsText(items))
    requires k == p + |ItemsText(items)| && k <= |s| && CmdEnd(s, k)
    requires |Words(items)| >= MAXARGS
    ensures ParseExec(s, p) == Err(TooManyArgs)
  {
    var p1 := p + |LeadText(items)|;
    var n := LeadingRedirs(items);
    var lead, after := LeadRedirs(items), items[n..];
    LeadLayout(s, p, items, p1, k);
    CmdEndSettled(s, k);
    RedirsRun(s, p, items, k);
    ArgsOverflow(s, p1, after, [], lead, k);
    ExecTokFail(s, p, lead, p1, TooManyArgs);
  }

  /** parseredirs over written redirections fails when it fails at their
      end k. */
  lemma {:induction false} RedirsRunFail(s: string, p: nat, items: seq<Item>, k: nat, err: ParseError)
    requires ValidItems(items) && HasAt(s, p, ItemsText(items)) && LeadingRedirs(items) == |items|
    requires k == p + |ItemsText(items)| && k <= |s| && Settled(s, k)
    requires RedirsFail(s, k, err)
    ensures RedirsFail(s, p, err)
    decreases |items|
  {
    if |items| > 0 {
      var p1 := p + |ItemText(items[0])|;
      ItemsTail(s, p, items, p1, k);
      var rest := items[1..];
      RedirsRunFail(s, p1, rest, k, err);
      var r := items[0].redirect;
      RedirText(r);
      RedirTokens(s, p, r.dir, r.file, p1);
      RedirsTokFail(s, p, r.dir, p + 2, p + 2, r.file, p1, err);
    }
  }

  /** The word loop of parseexec over written items fails when parseredirs
      fails at their end k. */
  lemma {:induction false} ArgsRunFail(s: string, p: nat, items: seq<Item>, argv: seq<string>, redirs: seq<Redirect>,
                                       k: nat, err: ParseError)
    requires ValidItems(items) && |items| > 0 && items[0].Arg? && HasAt(s, p, ItemsText(items))
    requires k == p + |ItemsText(items)| && k <= |s| && Settled(s, k)
    requires RedirsFail(s, k, err)
    requires |argv| + |Words(items)| < MAXARGS
    ensures ArgsFail(s, p, argv, redirs, err)
    decreases |items|
  {
    ArgHead(items);
    var w := items[0].word;
    var rest := items[1..];
    var p1 := p + |ItemText(items[0])|;
    ItemsTail(s, p, items, p1, k);
    WordTokens(s, p, w, p1);
    var n := LeadingRedirs(rest);
    if n == |rest| {
      RedirsRunFail(s, p1, rest, k, err);
      ArgsRedirsFail(s, p, w, argv, redirs, p1, err);
    } else {
      var p2 := p1 + |LeadText(rest)|;
      LeadLayout(s, p1, rest, p2, k);
      var after, more := rest[n..], LeadRedirs(rest);
      assert |argv + [w]| + |Words(after)| == |argv| + |Words(items)|;
      RedirsRun(s, p1, rest, k);
      ArgsRunFail(s, p2, after, argv + [w], redirs + more, k, err);
      ArgsTokFail(s, p, w, argv, redirs, p1, more, p2, err);
    }
  }

  /** parseexec over written items fails when parseredirs fails at their
      end k, as long as the words fit in argv. */
  lemma ExecRunFail(s: string, p: nat, items: seq<Item>, k: nat, err: ParseError)
    requires ValidItems(items) && HasAt(s, p, ItemsText(items))
    requires k == p + |ItemsText(items)| && k <= |s| && Settled(s, k)
    requires RedirsFail(s, k, err)
    requires |Words(items)| < MAXARGS
    ensures var r := ParseExec(s, p); r.Err? && r.error == err
  {
    var n := LeadingRedirs(items);
    if n == |items| {
      RedirsRunFail(s, p, items, k, err);
      ExecRedirsFail(s, p, err);
    } else {
      var p1 := p + |LeadText(items)|;
      var lead, after := LeadRedirs(items), items[n..];
      LeadLayout(s, p, items, p1, k);
      RedirsRun(s, p, items, k);
      ArgsRunFail(s, p1, after, [], lead, k, err);
      ExecTokFail(s, p, lead, p1, err);
    }
  }

  /** The tokens of one written item, with their texts: a word is one word
      token; a redirection is its symbol followed by its file word. */
  function ItemTokens(it: Item): seq<(Token, string)> {
    match it
    case Arg(w) => [(Word, w)]
    case Redirection(r) => [(DirToken(r.dir), [DirSymbol(r.dir)]), (Word, r.file)]
  }

  function ItemsTokens(items: seq<Item>): seq<(Token, string)>
    decreases |items|
  {
    if |items| == 0 then [] else ItemTokens(items[0]) + ItemsTokens(items[1..])
  }

  /** Tokenizing written items that end at k, where tail is the token
      stream from k, gives each item's tokens in order, then tail. */
  lemma {:induction false} TokenizeRun(s: string, p: nat, items: seq<Item>, k: nat, tail: seq<(Token, string)>)
    requires ValidItems(items) && HasAt(s, p, ItemsText(items))
    requires k == p + |ItemsText(items)| && k <= |s| && Settled(s, k) && tail == Tokenize(s, k)
    ensures Tokenize(s, p) == ItemsTokens(items) + tail
    decreases |items|
  {
    if |items| > 0 {
      var p1 := p + |ItemText(items[0])|;
      ItemsTail(s, p, items, p1, k);
      var after := Tokenize(s, p1);
      TokenizeRun(s, p1, items[1..], k, tail);
      TokenizeStep(s, p, items, p1, after, tail);
    }
  }

  /** One step of TokenizeRun: the first item's tokens, then those from p1. */
  lemma TokenizeStep(s: string, p: nat, items: seq<Item>, p1: nat, after: seq<(Token, string)>, tail: seq<(Token, string)>)
    requires ValidItems(items) && |items| > 0 && HasAt(s, p, ItemText(items[0]))
    requires p1 == p + |ItemText(items[0])| && p1 <= |s| && Settled(s, p1)
    requires after == Tokenize(s, p1) && after == ItemsTokens(items[1..]) + tail
    ensures Tokenize(s, p) == ItemsTokens(items) + tail
  {
    var toks, more := ItemTokens(items[0]), ItemsTokens(items[1..]);
    TokenizeItem(s, p, items[0], p1, after);
    assert ItemsTokens(items) == toks + more;
    AppendAssoc(toks, more, tail);
  }

  /** At the end of the line there is only the end token, with empty text. */
  lemma TokenizeEnd(s: string)
    ensures Tokenize(s, |s|) == [(End, "")]
  {
    SkipSpaceUnique(s, |s|, |s|);
  }

  /** Tokenizing one written item, followed by the tokens of what comes
      after it. */
  lemma TokenizeItem(s: string, p: nat, it: Item, p1: nat, tail: seq<(Token, string)>)
    requires ValidItems([it]) && HasAt(s, p, ItemText(it)) && p1 == p + |ItemText(it)|
    requires p1 <= |s| && Settled(s, p1) && tail == Tokenize(s, p1)
    ensures Tokenize(s, p) == ItemTokens(it) + tail
  {
    assert [it][0] == it;
    if it.Arg? {
      var w := it.word;
      WordTokens(s, p, w, p1);
      TokenizeWord(s, p, w, p1, tail);
    } else {
      TokenizeRedir(s, p, it.redirect, p1, tail);
    }
  }

  /** Tokenizing a written redirection `< f ` or `> f `. */
  lemma TokenizeRedir(s: string, p: nat, r: Redirect, p1: nat, tail: seq<(Token, string)>)
    requires IsWord(r.file) && HasAt(s, p, ItemText(Redirection(r))) && p1 == p + |r.file| + 3
    requires p1 <= |s| && Settled(s, p1) && tail == Tokenize(s, p1)
    ensures Tokenize(s, p) == [(DirToken(r.dir), [DirSymbol(r.dir)]), (Word, r.file)] + tail
  {
    RedirText(r);
    RedirTokens(s, p, r.dir, r.file, p1);
    RedirTokenText(s, p, r.dir);
    var q := p + 2;
    var words := Tokenize(s, q);
    TokenizeWord(s, q, r.file, p1, tail);
  }

  /** Tokenizing a word token at p that ends at next. */
  lemma TokenizeWord(s: string, p: nat, w: string, next: nat, tail: seq<(Token, string)>)
    requires p + |w| <= next <= |s| && tail == Tokenize(s, next)
    requires GetToken(s, p) == Lexeme(Word, p, p + |w|, next)
    requires MkCopy(s, p, p + |w|) == w
    ensures Tokenize(s, p) == [(Word, w)] + tail
  {
  }

  /** The text of a symbol token is the symbol. */
  lemma SymbolText(s: string, p: nat)
    requires p < |s| && s[p] in Symbols
    ensures MkCopy(s, p, p + 1) == [s[p]]
  {
    var w := MkCopy(s, p, p + 1);
    assert s[p] != '\0';
    assert |w| == 1;
  }

  lemma RedirTokenText(s: string, p: nat, d: Dir)
    requires p < |s| && s[p] == DirSymbol(d)
    ensures MkCopy(s, p, p + 1) == [DirSymbol(d)]
  {
    SymbolText(s, p);
  }

  /** A command written with one blank after each word and redirection
      tokenizes as its items' tokens followed by the end token. */
  lemma TokenizeLine(items: seq<Item>)
    requires ValidItems(items)
    ensures Tokenize(ItemsText(items), 0) == ItemsTokens(items) + [(End, "")]
  {
    var s := ItemsText(items);
    assert HasAt(s, 0, s);
    var tail := Tokenize(s, |s|);
    TokenizeEnd(s);
    TokenizeRun(s, 0, items, |s|, tail);
  }

  // ---------------------------------------------------------------------
  // Pipelines

  /** A simple command is its core exec node wrapped in its redirections,
      with fewer than MAXARGS words. */
  lemma SimpleParts(c: Cmd)
    requires IsSimple(c)
    ensures Wrap(Exec(CoreArgv(c)), Redirections(c)) == c
    ensures |CoreArgv(c)| < MAXARGS
  {
    RedirectionFiles(c);
    WrapCore(c);
  }

  /** Written items start with the first character of the first item. */
  lemma ItemsFirst(items: seq<Item>)
    requires ValidItems(items) && |items| > 0
    ensures |ItemsText(items)| > 0 && ItemsText(items)[0] == Lead(items[0])
    ensures !IsSpace(Lead(items[0]))
  {
    var t := ItemText(items[0]);
    assert ItemsText(items) == t + ItemsText(items[1..]);
    assert items[0].Arg? ==> IsWord(items[0].word);
    assert t[0] == Lead(items[0]);
  }

  /** A written pipeline is empty or starts with a character that is not
      whitespace. */
  lemma UnparseStart(c: Cmd)
    requires IsPipeline(c)
    ensures |Unparse(c)| == 0 || !IsSpace(Unparse(c)[0])
  {
    var cmd := if c.Pipe? then c.left else c;
    var items := CommandItems(cmd);
    CommandItemsFacts(cmd);
    if |items| > 0 {
      ItemsFirst(items);
    }
  }

  /** The tokens of `| `, which ends at n. */
  lemma PipeTokens(s: string, k: nat, n: nat)
    requires n == k + 2 && n <= |s| && s[k] == '|' && s[k + 1] == ' ' && Settled(s, n)
    ensures Peek(s, k, "|") == (true, k)
    ensures GetToken(s, k) == Lexeme(PipeSym, k, k + 1, n)
  {
    SymbolAt(s, k);
    SkipSpaceUnique(s, k, k);
  }

  /** Where the `| ` after the first command of the pipeline c written at p
      sits. */
  function Bar(p: nat, c: Cmd): nat
    requires IsPipeline(c) && c.Pipe?
  {
    p + |ItemsText(CommandItems(c.left))|
  }

  /** Where the rest of the pipeline c written at p starts. */
  function Next(p: nat, c: Cmd): nat
    requires IsPipeline(c) && c.Pipe?
  {
    Bar(p, c) + 2
  }

  /** A written pipeline `items | rest`: where its pieces are. */
  lemma PipeLayout(s: string, p: nat, c: Cmd, k: nat, n: nat)
    requires IsPipeline(c) && c.Pipe? && HasAt(s, p, Unparse(c)) && p + |Unparse(c)| == |s|
    requires k == p + |ItemsText(CommandItems(c.left))| && n == k + 2
    ensures HasAt(s, p, ItemsText(CommandItems(c.left)))
    ensures n <= |s| && s[k] == '|' && s[k + 1] == ' ' && Settled(s, n)
    ensures HasAt(s, n, Unparse(c.right)) && n + |Unparse(c.right)| == |s|
  {
    var text := ItemsText(CommandItems(c.left));
    var rest := Unparse(c.right);
    var bar := "| ";
    assert |bar| == 2 && bar[0] == '|' && bar[1] == ' ';
    assert Unparse(c) == text + (bar + rest);
    HasAtSplit(s, p, text, bar + rest);
    HasAtSplit(s, k, bar, rest);
    assert HasAt(s, n, rest);
    HasAtIndex(s, k, bar, 0);
    HasAtIndex(s, k, bar, 1);
    UnparseStart(c.right);
    if |rest| > 0 {
      HasAtIndex(s, n, rest, 0);
    }
  }

  /** parseexec reads the command head from p to k, where a `| ` ending at
      n follows. */
  predicate HeadParses(s: string, p: nat, head: Cmd, k: nat, n: nat) {
    && p <= k && n == k + 2 && n <= |s| && s[k] == '|' && s[k + 1] == ' ' && Settled(s, n)
    && ExecGive(s, p, head, k)
  }

  /** parseexec reads each command of the pipeline c from p on: each one
      stops at a `| ` followed by the next, the last one at the end of the
      line. */
  predicate Chain(s: string, p: nat, c: Cmd)
    requires IsPipeline(c)
    decreases c
  {
    if c.Pipe? then
      HeadParses(s, p, c.left, Bar(p, c), Next(p, c)) && Chain(s, Next(p, c), c.right)
    else
      p <= |s| && ExecGive(s, p, c, |s|)
  }

  /** parseexec over a written simple command stops at k, its end. */
  lemma CommandExec(s: string, p: nat, c: Cmd, k: nat)
    requires IsSimple(c) && HasAt(s, p, ItemsText(CommandItems(c)))
    requires k == p + |ItemsText(CommandItems(c))| && k <= |s| && CmdEnd(s, k)
    ensures ExecGive(s, p, c, k)
  {
    CommandItemsFacts(c);
    SimpleParts(c);
    ExecRun(s, p, CommandItems(c), k, c);
  }

  /** The first command of a written pipeline parses as itself, up to the
      `| ` that follows it. */
  lemma HeadExec(s: string, p: nat, c: Cmd, k: nat, n: nat)
    requires IsPipeline(c) && c.Pipe? && HasAt(s, p, ItemsText(CommandItems(c.left)))
    requires k == p + |ItemsText(CommandItems(c.left))| && n == k + 2
    requires n <= |s| && s[k] == '|' && s[k + 1] == ' ' && Settled(s, n)
    ensures HeadParses(s, p, c.left, k, n)
  {
    CommandExec(s, p, c.left, k);
  }

  /** Every command of a pipeline written out to the end of the line parses
      as itself. */
  lemma {:induction false} UnparseChain(s: string, p: nat, c: Cmd)
    requires IsPipeline(c) && HasAt(s, p, Unparse(c)) && p + |Unparse(c)| == |s|
    ensures Chain(s, p, c)
    decreases c, 1
  {
    if c.Pipe? {
      var k, n := Bar(p, c), Next(p, c);
      PipeLayout(s, p, c, k, n);
      UnparseCons(s, p, c, k, n);
    } else {
      CommandExec(s, p, c, |s|);
    }
  }

  /** The pipe case of UnparseChain, from the layout PipeLayout finds. */
  lemma {:induction false} UnparseCons(s: string, p: nat, c: Cmd, k: nat, n: nat)
    requires IsPipeline(c) && c.Pipe? && HasAt(s, p, ItemsText(CommandItems(c.left)))
    requires k == Bar(p, c) && n == Next(p, c)
    requires n <= |s| && s[k] == '|' && s[k + 1] == ' ' && Settled(s, n)
    requires HasAt(s, n, Unparse(c.right)) && n + |Unparse(c.right)| == |s|
    ensures Chain(s, p, c)
    decreases c, 0
  {
    var right := c.right;
    HeadExec(s, p, c, k, n);
    UnparseChain(s, n, right);
  }

  /** parsepipe over a command followed by `| `, given its result on the
      rest. */
  lemma PipeStep(s: string, p: nat, head: Cmd, k: nat, n: nat, tail: Cmd)
    requires HeadParses(s, p, head, k, n) && PipeGive(s, n, tail, |s|)
    ensures PipeGive(s, p, Pipe(head, tail), |s|)
  {
    PipeTokens(s, k, n);
    PipeTok(s, p, head, k, n, tail, |s|, Pipe(head, tail));
  }

  /** parsepipe reads back a pipeline whose commands each parse as
      themselves. */
  lemma {:induction false} PipeRun(s: string, p: nat, c: Cmd)
    requires IsPipeline(c) && Chain(s, p, c)
    ensures PipeGive(s, p, c, |s|)
    decreases c, 1
  {
    if c.Pipe? {
      PipeCons(s, p, c);
    } else {
      PipeLast(s, p, c);
    }
  }

  /** The pipe case of PipeRun. */
  lemma {:induction false} PipeCons(s: string, p: nat, c: Cmd)
    requires IsPipeline(c) && c.Pipe? && Chain(s, p, c)
    ensures PipeGive(s, p, c, |s|)
    decreases c, 0
  {
    var k, n, head, tail := Bar(p, c), Next(p, c), c.left, c.right;
    PipeRun(s, n, tail);
    PipeStep(s, p, head, k, n, tail);
  }

  /** The tokens of a written pipeline: each command's item tokens, with a
      `|` token between commands. */
  function PipelineTokens(c: Cmd): seq<(Token, string)>
    requires IsPipeline(c)
    decreases c
  {
    if c.Pipe? then ItemsTokens(CommandItems(c.left)) + [(PipeSym, "|")] + PipelineTokens(c.right)
    else ItemsTokens(CommandItems(c))
  }

  /** Tokenizing a pipeline written out to the end of the line gives its
      commands' tokens, a `|` token between each two, then the end token. */
  lemma {:induction false} TokenizePipeline(s: string, p: nat, c: Cmd)
    requires IsPipeline(c) && HasAt(s, p, Unparse(c)) && p + |Unparse(c)| == |s|
    ensures Tokenize(s, p) == PipelineTokens(c) + [(End, "")]
    decreases c, 1
  {
    if c.Pipe? {
      var k, n := Bar(p, c), Next(p, c);
      PipeLayout(s, p, c, k, n);
      TokenizePipeCons(s, p, c, k, n);
    } else {
      var items := CommandItems(c);
      CommandItemsFacts(c);
      var tail := Tokenize(s, |s|);
      TokenizeEnd(s);
      TokenizeRun(s, p, items, |s|, tail);
    }
  }

  /** The pipe case of TokenizePipeline, from the layout PipeLayout finds. */
  lemma {:induction false} TokenizePipeCons(s: string, p: nat, c: Cmd, k: nat, n: nat)
    requires IsPipeline(c) && c.Pipe? && HasAt(s, p, ItemsText(CommandItems(c.left)))
    requires k == Bar(p, c) && n == Next(p, c)
    requires n <= |s| && s[k] == '|' && s[k + 1] == ' ' && Settled(s, n)
    requires HasAt(s, n, Unparse(c.right)) && n + |Unparse(c.right)| == |s|
    ensures Tokenize(s, p) == PipelineTokens(c) + [(End, "")]
    decreases c, 0
  {
    var right := c.right;
    var rest := Tokenize(s, n);
    var items := CommandItems(c.left);
    var head, more := ItemsTokens(items), PipelineTokens(right);
    assert rest == more + [(End, "")] by {
      TokenizePipeline(s, n, right);
    }
    assert Tokenize(s, p) == head + [(PipeSym, "|")] + rest by {
      CommandItemsFacts(c.left);
      TokenizeCommandBar(s, p, items, k, n, rest);
    }
    assert PipelineTokens(c) == head + [(PipeSym, "|")] + more;
    AppendAssoc(head + [(PipeSym, "|")], more, [(End, "")]);
  }

  /** Tokenizing a written command followed by `| `. */
  lemma TokenizeCommandBar(s: string, p: nat, items: seq<Item>, k: nat, n: nat, rest: seq<(Token, string)>)
    requires ValidItems(items) && HasAt(s, p, ItemsText(items)) && k == p + |ItemsText(items)|
    requires n == k + 2 && n <= |s| && s[k] == '|' && s[k + 1] == ' ' && Settled(s, n)
    requires rest == Tokenize(s, n)
    ensures Tokenize(s, p) == ItemsTokens(items) + [(PipeSym, "|")] + rest
  {
    var bar := Tokenize(s, k);
    TokenizeBar(s, k, n, rest);
    TokenizeRun(s, p, items, k, bar);
    AppendAssoc(ItemsTokens(items), [(PipeSym, "|")], rest);
  }

  /** Tokenizing a written `| ` that ends at n. */
  lemma TokenizeBar(s: string, k: nat, n: nat, rest: seq<(Token, string)>)
    requires n == k + 2 && n <= |s| && s[k] == '|' && s[k + 1] == ' ' && Settled(s, n)
    requires rest == Tokenize(s, n)
    ensures Tokenize(s, k) == [(PipeSym, "|")] + rest
  {
    PipeTokens(s, k, n);
    SymbolText(s, k);
  }

  /** A pipeline written with one blank after each word and redirection and
      `| ` between commands tokenizes as its commands' tokens, with a `|`
      token between each two, then the end token. */
  lemma TokenizeUnparse(c: Cmd)
    requires IsPipeline(c)
    ensures Tokenize(Unparse(c), 0) == PipelineTokens(c) + [(End, "")]
  {
    var s := Unparse(c);
    assert HasAt(s, 0, s);
    TokenizePipeline(s, 0, c);
  }

  // ---------------------------------------------------------------------
  // The round trip

  /** x contains no NUL, so a C string holding x ends where x ends. */
  predicate NoNul(x: string) {
    forall i :: 0 <= i < |x| ==> x[i] != '\0'
  }

  lemma NoNulAppend(a: string, b: string)
    requires NoNul(a) && NoNul(b)
    ensures NoNul(a + b)
  {
    forall i | 0 <= i < |a + b|
      ensures (a + b)[i] != '\0'
    {
      if i >= |a| {
        assert (a + b)[i] == b[i - |a|];
      }
    }
  }

  lemma WordNoNul(w: string)
    requires IsWord(w)
    ensures NoNul(w)
  {
    forall i | 0 <= i < |w|
      ensures w[i] != '\0'
    {
      assert !IsDelim(w[i]);
    }
  }

  lemma {:induction false} ItemsNoNul(items: seq<Item>)
    requires ValidItems(items)
    ensures NoNul(ItemsText(items))
    decreases |items|
  {
    if |items| > 0 {
      var it := items[0];
      assert it.Arg? ==> IsWord(it.word);
      assert it.Redirection? ==> IsWord(it.redirect.file);
      match it {
        case Arg(w) =>
          WordNoNul(w);
          NoNulAppend(w, " ");
        case Redirection(r) =>
          WordNoNul(r.file);
          NoNulAppend([DirSymbol(r.dir), ' '], r.file);
          NoNulAppend([DirSymbol(r.dir), ' '] + r.file, " ");
      }
      ValidSuffix(items, 1);
      ItemsNoNul(items[1..]);
      NoNulAppend(ItemText(it), ItemsText(items[1..]));
    }
  }

  /** A written pipeline contains no NUL. */
  lemma {:induction false} UnparseNoNul(c: Cmd)
    requires IsPipeline(c)
    ensures NoNul(Unparse(c))
    decreases c
  {
    var head := if c.Pipe? then c.left else c;
    CommandItemsFacts(head);
    ItemsNoNul(CommandItems(head));
    if c.Pipe? {
      UnparseNoNul(c.right);
      NoNulAppend(ItemsText(CommandItems(head)), "| ");
      NoNulAppend(ItemsText(CommandItems(head)) + "| ", Unparse(c.right));
    }
  }

  /** parsecmd reads a written pipeline back as the same command tree. */
  lemma ParseUnparse(c: Cmd)
    requires IsPipeline(c)
    ensures ParseCmd(Unparse(c)) == Ok(c)
  {
    var s := Unparse(c);
    UnparseNoNul(c);
    assert Strlen(s) == |s|;
    assert s[..Strlen(s)] == s;
    assert HasAt(s, 0, s);
    UnparseChain(s, 0, c);
    PipeRun(s, 0, c);
    SkipSpaceUnique(s, |s|, |s|);
  }

  /** A command tree parsecmd accepts is written back as a line that
      parsecmd reads as the same tree. */
  lemma ParseCmdStable(buf: string)
    requires ParseCmd(buf).Ok?
    ensures ParseCmd(Unparse(ParseCmd(buf).value)) == ParseCmd(buf)
  {
    ParseUnparse(ParseCmd(buf).value);
  }

  /** A written command with MAXARGS words or more is rejected with "too
      many args", wherever its redirections stand. */
  lemma TooManyWords(items: seq<Item>)
    requires ValidItems(items) && |Words(items)| >= MAXARGS
    ensures ParseCmd(ItemsText(items)) == Err(TooManyArgs)
  {
    var s := ItemsText(items);
    ItemsNoNul(items);
    assert Strlen(s) == |s|;
    assert s[..Strlen(s)] == s;
    assert HasAt(s, 0, s);
    ExecOverflow(s, 0, items, |s|);
  }

  /** A command written as words and redirections in any order parses as one
      exec node holding all the words in order, wrapped in the redirections
      in the order written (the last one outermost). */
  lemma CommandLine(items: seq<Item>)
    requires ValidItems(items) && |Words(items)| < MAXARGS
    ensures ParseCmd(ItemsText(items)) == Ok(Wrap(Exec(Words(items)), Redirs(items)))
  {
    var s := ItemsText(items);
    var c := Wrap(Exec(Words(items)), Redirs(items));
    ItemsNoNul(items);
    assert Strlen(s) == |s|;
    assert s[..Strlen(s)] == s;
    assert HasAt(s, 0, s);
    ExecRun(s, 0, items, |s|, c);
    PipeLast(s, 0, c);
    SkipSpaceUnique(s, |s|, |s|);
  }

  /** A written command followed by a `<` or `>` with no file after it is
      rejected with "missing file for redirection", wherever the words and
      the other redirections stand. */
  lemma MissingFileLine(items: seq<Item>, d: Dir)
    requires ValidItems(items) && |Words(items)| < MAXARGS
    ensures ParseCmd(ItemsText(items) + [DirSymbol(d)]) == Err(MissingFile)
  {
    var text := ItemsText(items);
    var s := text + [DirSymbol(d)];
    var k := |text|;
    DanglingLayout(items, d, s);
    RedirMissingAtEnd(s, k, d);
    ExecRunFail(s, 0, items, k, MissingFile);
  }

  /** Where the pieces of a written command followed by a symbol sit. */
  lemma DanglingLayout(items: seq<Item>, d: Dir, s: string)
    requires ValidItems(items) && s == ItemsText(items) + [DirSymbol(d)]
    ensures HasAt(s, 0, ItemsText(items)) && |s| == |ItemsText(items)| + 1
    ensures s[|ItemsText(items)|] == DirSymbol(d)
    ensures Strlen(s) == |s| && s[..Strlen(s)] == s
  {
    var text := ItemsText(items);
    ItemsNoNul(items);
    NoNulAppend(text, [DirSymbol(d)]);
    assert s[0..|text|] == text;
  }

  /** A `<` or `>` that ends the line is missing its file. */
  lemma RedirMissingAtEnd(s: string, k: nat, d: Dir)
    requires k + 1 == |s| && s[k] == DirSymbol(d)
    ensures Settled(s, k) && RedirsFail(s, k, MissingFile)
  {
    SkipSpaceUnique(s, k, k);
    SkipSpaceUnique(s, k + 1, k + 1);
    RedirsNoFile(s, k, d, k + 1);
  }
}
