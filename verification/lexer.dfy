/** The tokenizer of the shell: `gettoken`, `peek`, `mkcopy` (sh.c).

    A command line is a `string` and a cursor is an index into it. The index
    |s| plays the part of the C pointer `es`: reading there yields the NUL
    terminator of the line. */
module Lexer {

  /** The separator characters of sh.c: space, tab, CR, LF and VT. */
  const Whitespace: string := " \t\r\n\U{B}"

  /** The characters that form tokens of their own. */
  const Symbols: string := "<|>"

  /** `strchr(chars, c) != NULL`. strchr also finds the terminator of `chars`,
      so the NUL character belongs to every such set. */
  predicate InStr(chars: string, c: char) {
    c == '\0' || c in chars
  }

  predicate IsSpace(c: char) {
    InStr(Whitespace, c)
  }

  predicate IsSymbol(c: char) {
    InStr(Symbols, c)
  }

  /** A character that ends a word. */
  predicate IsDelim(c: char) {
    IsSpace(c) || IsSymbol(c)
  }

  /** A word as the tokenizer can produce it: a non-empty run of characters
      none of which ends a word. */
  predicate IsWord(w: string) {
    |w| > 0 && forall i {:trigger IsDelim(w[i])} :: 0 <= i < |w| ==> !IsDelim(w[i])
  }

  /** `*s` for a cursor in [0, |s|]: the end of the range reads the terminator. */
  function At(s: string, i: nat): char
    requires i <= |s|
  {
    if i < |s| then s[i] else '\0'
  }

  predicate AllSpace(s: string, i: nat, j: nat)
    requires i <= j <= |s|
  {
    forall k {:trigger IsSpace(s[k])} :: i <= k < j ==> IsSpace(s[k])
  }

  predicate NoDelim(s: string, i: nat, j: nat)
    requires i <= j <= |s|
  {
    forall k {:trigger IsDelim(s[k])} :: i <= k < j ==> !IsDelim(s[k])
  }

  /** There is no whitespace to skip at position k. */
  predicate Settled(s: string, k: nat)
    requires k <= |s|
  {
    k == |s| || !IsSpace(s[k])
  }

  /** The whitespace-skipping loop of gettoken and peek: the end of the
      whitespace run that starts at i (it stops at the end of the line too). */
  function SkipSpace(s: string, i: nat): (j: nat)
    requires i <= |s|
    ensures i <= j <= |s|
    ensures AllSpace(s, i, j) && Settled(s, j)
    decreases |s| - i
  {
    if i < |s| && IsSpace(s[i]) then SkipSpace(s, i + 1) else i
  }

  /** The word loop of gettoken: the end of the run of non-delimiters at i. */
  function ScanWord(s: string, i: nat): (j: nat)
    requires i <= |s|
    ensures i <= j <= |s|
    ensures NoDelim(s, i, j)
    ensures j == |s| || IsDelim(s[j])
    decreases |s| - i
  {
    if i < |s| && !IsDelim(s[i]) then ScanWord(s, i + 1) else i
  }

  /** A run of whitespace followed by a settled position is exactly what
      SkipSpace finds. */
  lemma SkipSpaceUnique(s: string, i: nat, j: nat)
    requires i <= j <= |s|
    requires AllSpace(s, i, j) && Settled(s, j)
    ensures SkipSpace(s, i) == j
  {
  }

  /** The values `gettoken` returns: 0, '|', '<', '>' and 'a'. */
  datatype Token = End | PipeSym | LessSym | GreaterSym | Word

  function SymbolToken(c: char): Token
    requires c in Symbols
  {
    if c == '|' then PipeSym else if c == '<' then LessSym else GreaterSym
  }

  function SymbolChar(t: Token): char
    requires t == PipeSym || t == LessSym || t == GreaterSym
  {
    if t == PipeSym then '|' else if t == LessSym then '<' else '>'
  }

  /** One call of gettoken: the token, its extent [q, eq) and the new cursor. */
  datatype Lexeme = Lexeme(tok: Token, q: nat, eq: nat, next: nat)

  /** gettoken(ps, es, q, eq) with es = |s|. */
  function GetToken(s: string, ps: nat): (r: Lexeme)
    requires ps <= |s|
    ensures ps <= r.q <= r.eq <= r.next <= |s|
    // leading whitespace is skipped, and only whitespace
    ensures AllSpace(s, ps, r.q) && Settled(s, r.q)
    ensures r.tok == End <==> r.q == |s|
    // a symbol is a token of exactly one character
    ensures r.q < |s| && s[r.q] in Symbols ==> r.tok == SymbolToken(s[r.q]) && r.eq == r.q + 1
    // a word is a maximal non-empty run of non-delimiters
    ensures r.tok == Word <==> r.q < |s| && !IsDelim(s[r.q])
    ensures r.tok == Word ==> r.q < r.eq && NoDelim(s, r.q, r.eq) && (r.eq == |s| || IsDelim(s[r.eq]))
    ensures r.tok != End ==> r.q < r.eq
    // trailing whitespace is skipped too
    ensures AllSpace(s, r.eq, r.next) && Settled(s, r.next)
  {
    var q := SkipSpace(s, ps);
    var c := At(s, q);
    var tok := if c == '\0' then End else if c in Symbols then SymbolToken(c) else Word;
    var eq := if c == '\0' then q else if c in Symbols then q + 1 else ScanWord(s, q);
    Lexeme(tok, q, eq, SkipSpace(s, eq))
  }

  /** peek(ps, es, toks): the cursor moves over whitespace only, and the answer
      is whether the character found there is one of `toks`. */
  function Peek(s: string, ps: nat, toks: string): (r: (bool, nat))
    requires ps <= |s|
    ensures ps <= r.1 <= |s| && AllSpace(s, ps, r.1) && Settled(s, r.1)
    ensures r.0 <==> r.1 < |s| && s[r.1] in toks
  {
    var p := SkipSpace(s, ps);
    (At(s, p) != '\0' && InStr(toks, At(s, p)), p)
  }

  /** strlen: the length of the C string held in `buf`, up to its first NUL. */
  function Strlen(buf: string): (n: nat)
    ensures n <= |buf|
    ensures forall i :: 0 <= i < n ==> buf[i] != '\0'
    ensures n == |buf| || buf[n] == '\0'
  {
    if |buf| == 0 || buf[0] == '\0' then 0 else 1 + Strlen(buf[1..])
  }

  /** mkcopy(q, eq): strncpy copies at most eq - q characters and stops at a
      NUL, so the string obtained is the part of s[q..eq] before any NUL. */
  function MkCopy(s: string, q: nat, eq: nat): (w: string)
    requires q <= eq <= |s|
    ensures |w| <= eq - q && w == s[q..q + |w|]
    ensures '\0' !in w
    ensures q + |w| == eq || s[q + |w|] == '\0'
  {
    var run := s[q..eq];
    run[..Strlen(run)]
  }

  /** The copy of a word token is exactly the characters it spans, and it is
      a word. */
  lemma CopyOfWord(s: string, ps: nat)
    requires ps <= |s|
    ensures var t := GetToken(s, ps);
            t.tok == Word ==> MkCopy(s, t.q, t.eq) == s[t.q..t.eq] && IsWord(s[t.q..t.eq])
  {
    var t := GetToken(s, ps);
    if t.tok == Word {
      var run := s[t.q..t.eq];
      forall i | 0 <= i < |run|
        ensures !IsDelim(run[i]) && run[i] != '\0'
      {
        assert run[i] == s[t.q + i];
      }
    }
  }

  /** Every token of the line from ps on, with its text, up to and including
      the end token: the token stream the parser consumes. */
  function Tokenize(s: string, ps: nat): (ts: seq<(Token, string)>)
    requires ps <= |s|
    ensures |ts| > 0 && ts[|ts| - 1].0 == End && ts[|ts| - 1].1 == ""
    ensures forall i :: 0 <= i < |ts| - 1 ==> ts[i].0 != End
    ensures forall i :: 0 <= i < |ts| ==> (ts[i].0 == Word <==> IsWord(ts[i].1))
    ensures forall i :: 0 <= i < |ts| && ts[i].0 != Word && ts[i].0 != End ==> ts[i].1 == [SymbolChar(ts[i].0)]
    decreases |s| - ps
  {
    var t := GetToken(s, ps);
    CopyOfWord(s, ps);
    var text := MkCopy(s, t.q, t.eq);
    if t.tok == End then [(End, text)] else [(t.tok, text)] + Tokenize(s, t.next)
  }
}
