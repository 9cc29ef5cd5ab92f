# The command-line parser of the xv6-style shell, in Dafny

`sh.c` is a small Unix shell adapted from xv6. Its only pure logic turns one
line of text into a command tree. That logic has two layers:

- a tokenizer: `gettoken`, `peek` and the string copier `mkcopy`;
- a recursive-descent parser: `parsecmd`, `parseline`, `parsepipe`,
  `parseredirs` and `parseexec`. It builds nodes with `execcmd`, `redircmd`
  and `pipecmd`.

This project models that layer as pure functions and proves what it does.

- `lexer.dfy` (module `Lexer`): character classes, `gettoken` (`GetToken`),
  `peek` (`Peek`), `strlen` and `mkcopy` (`MkCopy`).
  - The line is a `string`. A cursor is a `nat`, and the index `|s|` plays
    the part of the C pointer `es`.
  - `strchr` also finds the terminator of its set, so NUL belongs to every
    character set, as in C.
- `commands.dfy` (module `Commands`): the `Cmd` datatype for the three node
  kinds, and `redircmd` (`RedirCmd`).
  - `mode` uses the Linux `fcntl.h` flag values; `fd` is 0 for `<` and 1
    for `>`, as `parseredirs` passes it.
  - `MAXARGS` is 10.
  - `Wrap` wraps a node in redirections in the order written.
- `parser.dfy` (module `Parser`): the parse functions, with the word loop
  of parseexec as its own function `ParseArgs`. Each one except `ParseCmd`
  returns `Result<(piece, cursor)>`; `ParseCmd` returns `Result<Cmd>`. Where the C code prints a message and calls
  `exit(-1)`, the model returns `Err` with one of `MissingFile`,
  `TooManyArgs`, `SyntaxError` or `Leftovers`.
- `parse_steps.dfy` (module `ParseSteps`): single steps of the parse loops,
  stated on the tokens each step reads.
- `parser_facts.dfy` (module `ParserFacts`): facts about the parser over all
  inputs.
  - Only "missing file for redirection" and "too many args" can ever happen.
    The "syntax error" exit (sh.c:478-480) and the "leftovers" exit
    (sh.c:406-409) can never be taken.
  - A whitespace-only line gives an exec node without words.
- `round_trip.dfy` (module `RoundTrip`): the partner of the parser. `Unparse`
  writes a command tree back as a line: each word or redirection is followed
  by one blank, and pipeline stages are separated by `| `. The main
  theorem is `ParseCmd(Unparse(c)) == Ok(c)` for every tree the parser can
  build. For a single command written this way, the words and the
  redirections may come in any interleaving. The same layout gives the
  failures (too many words, a redirection without a file) and the token
  stream of `Tokenize`.
  - The step lemmas of `ParseSteps` are stated for any whitespace around the
    tokens, or none; the samples use them for lines without blanks.
- `samples.dfy` (module `Samples`): sample lines, their tokens and their
  trees.

`parseexec` keeps a raw pointer to the exec node it created and goes on
filling that node's `argv` after `parseredirs` has wrapped it
(sh.c:472, 482, 488). So the innermost exec node of the result holds every
word of the command, including words written after a redirection. The model
collects the words and the redirections separately (`ParseArgs`) and then
builds `Wrap(Exec(words), redirections)`. The last redirection written is
the outermost node.

The code has two error exits that can never be taken:

- "syntax error" (sh.c:479), printed when the word loop meets a token that is neither a word nor the end;
- "leftovers" (sh.c:407), printed when parsecmd finds input left after the parsed pipeline.

The model follows the code. It keeps both branches, and `ParseErrors`
proves that neither is taken.

## Model

| member | source | states |
|---|---|---|
| Lexer.SkipSpace | sh.c:341 | the whitespace loop stops at the first position that is the end or not whitespace, and passes only whitespace |
| Lexer.ScanWord | sh.c:356-357 | the word loop stops at the first delimiter (whitespace, `<`, `\|`, `>`) or the end, passing only non-delimiters |
| Lexer.SkipSpaceUnique | sh.c:341 | a whitespace run that ends at a position holding no whitespace is exactly what the skip loop passes over |
| Lexer.GetToken | sh.c:336-365 | leading whitespace is skipped; at the end the token is 0; on `\|`, `<`, `>` the token is that symbol and one character long; otherwise it is a word, a non-empty maximal run of non-delimiters; trailing whitespace is skipped; `ps <= q <= eq <= new cursor <= es` |
| Lexer.Peek | sh.c:370-378 | the cursor moves over whitespace only and stops at a non-whitespace character or the end; the answer is true exactly when that character exists and is in `toks` (so never for `""`) |
| Lexer.Strlen | sh.c:402 | the length of the C string in the buffer: no NUL before it, and a NUL or the buffer's end at it |
| Lexer.MkCopy | sh.c:386-393 | the copy is the part of `[q, eq)` before any NUL (strncpy semantics), and contains no NUL |
| Lexer.CopyOfWord | sh.c:354-360 | the copy of a word token is exactly the characters `[q, eq)` and is a word |
| Lexer.Tokenize | sh.c:336-365 | repeated gettoken ends with exactly one end token; every word token's text is a word; every symbol token's text is its one character (its tokens for given lines: RoundTrip.TokenizeUnparse for any pipeline written with one blank after each word, redirection and `\|`; Samples.TokenizeSample for `ls -la`) |
| Commands.RedirCmd | sh.c:296-307 | redircmd keeps sub-command, file and kind; fd is 0 exactly for `<` and 1 exactly for `>`; `<` opens read-only, `>` write-only with create and truncate, and no other flag is set |
| Commands.Wrap | sh.c:440-460 | wrapping a node in redirections keeps its core node and appends the redirections, last one outermost; it keeps the node a simple command |
| Commands.WrapAppend | sh.c:475-488 | wrapping in two batches of redirections (one parseredirs call, then the next) is wrapping in all of them in order |
| Commands.WrapCore | sh.c:296-307 | a simple command is its core exec node wrapped in its redirections |
| Parser.ParseRedirs | sh.c:440-460 | parseredirs stops only where no `<` or `>` follows; every file it reads is a word; its only error is a missing file (when that error happens: ParserFacts.RedirsOutcome) |
| Parser.ParseArgs | sh.c:476-489 | the word loop keeps the words and redirections it is given as a prefix of its result, adds only words, and ends with fewer than MAXARGS words; it stops at a `\|` or the end (the order of the words: ParserFacts.ArgsFirstWord) |
| Parser.ParseExec | sh.c:465-492 | parseexec yields a simple command and stops at a `\|` or the end of the line |
| Parser.ParsePipe | sh.c:426-435 | parsepipe yields a pipeline whose pipe nodes nest to the right, with a simple command on every left side |
| Parser.ParseLine | sh.c:417-421 | parseline yields a right-nested pipeline |
| Parser.ParseCmd | sh.c:398-411 | parsecmd yields a right-nested pipeline (that it reads only up to the first NUL: ParserFacts.ParseCmdStopsAtNul, ParserFacts.ParseCmdCString) |
| ParserFacts.RedirsOutcome | sh.c:444-457 | with no `<` or `>` next, parseredirs reads nothing and stops after the whitespace; with one next and no word after it, it fails with a missing file; when it succeeds after seeing one, it has read at least one redirection |
| ParserFacts.ArgsFirstWord | sh.c:476-488 | the first word the word loop adds is the copy of the first token, which is a word and not preceded by `\|`; a loop that adds no word adds no redirection either (applied turn by turn, words are kept in input order) |
| ParserFacts.ArgsNoSyntaxError | sh.c:476-481 | the word loop never meets a token that is neither a word nor the end, so it never reports a syntax error |
| ParserFacts.ExecErrors | sh.c:465-492 | parseexec fails only with a missing file or too many args |
| ParserFacts.PipeOutcome | sh.c:426-435 | parsepipe either consumes the line to its end or fails with a missing file or too many args |
| ParserFacts.ParseErrors | sh.c:398-411 | parsecmd never reports "syntax error" or "leftovers" |
| ParserFacts.BlankSegment | sh.c:474-490 | a pipeline segment holding only whitespace parses as an exec node with no words |
| ParserFacts.BlankLine | sh.c:398-411 | a whitespace-only line parses as an exec node with no words |
| ParserFacts.ParseCmdStopsAtNul | sh.c:402 | parsecmd of `x`, a NUL and anything after it is parsecmd of `x` alone, when `x` holds no NUL: nothing after the first NUL is read |
| ParserFacts.ParseCmdCString | sh.c:402-403 | parsecmd of a buffer is parsecmd of its C string, the part before `strlen` |
| ParseSteps.RedirsStop | sh.c:444 | parseredirs reads nothing where no `<` or `>` follows |
| ParseSteps.RedirsTok | sh.c:444-457 | a `<` or `>` token followed by a word token, with any whitespace or none around them, adds one redirection of that kind with that file in front of those read after it |
| ParseSteps.RedirsNoFile | sh.c:444-449 | a `<` or `>` token whose next token is not a word makes parseredirs fail with a missing file |
| ParseSteps.RedirsTokFail | sh.c:444-457 | a redirection followed by a failing rest of the loop makes parseredirs fail with the same error |
| ParseSteps.ArgsStop | sh.c:476-477 | the word loop stops, unchanged, at a `\|` or the end |
| ParseSteps.ArgsTok | sh.c:476-488 | a word token is appended to argv, and the redirections after it are appended to the redirections |
| ParseSteps.ArgsFullTok | sh.c:482-487 | a word read when argv already holds MAXARGS - 1 words is "too many args" |
| ParseSteps.ArgsRedirsFail | sh.c:477-488 | a word whose following redirections fail makes the word loop fail with the same error |
| ParseSteps.ArgsTokFail | sh.c:477-488 | a word followed by a failing rest of the loop makes the word loop fail with the same error |
| ParseSteps.ExecRedirsFail | sh.c:475 | parseexec fails when its leading redirections fail |
| ParseSteps.ExecTok | sh.c:471-491 | parseexec builds the exec node of the words, wrapped in the leading and later redirections |
| ParseSteps.ExecTokFail | sh.c:475-490 | parseexec fails with the error of its word loop |
| ParseSteps.PipeLast | sh.c:429-434 | a command running to the end of the line is the whole pipeline |
| ParseSteps.PipeTok | sh.c:429-433 | a command followed by a `\|` token, with any whitespace or none after it, and a pipeline is a pipe node of the two |
| RoundTrip.WordTokens | sh.c:354-363 | a written word is one word token, the copy is the word, and the cursor moves past the space after it |
| RoundTrip.RedirTokens | sh.c:444-446 | a written `< f ` or `> f ` is a redirection symbol token followed by the word token f |
| RoundTrip.RedirsRun | sh.c:440-460 | parseredirs over written items reads exactly the redirections before the first word |
| RoundTrip.ArgsRun | sh.c:476-489 | the word loop over written items collects all their words in order and all their redirections in order |
| RoundTrip.ExecRun | sh.c:465-492 | parseexec over a command written as words and redirections in any interleaving gives the exec node of all the words, wrapped in all the redirections in the order written |
| RoundTrip.ArgsOverflow | sh.c:482-488 | the word loop over written items with more words than argv has room for fails with too many args |
| RoundTrip.ExecOverflow | sh.c:474-488 | parseexec over a written command with MAXARGS words or more fails with too many args |
| RoundTrip.RedirsRunFail | sh.c:444-457 | parseredirs over written redirections fails with the error it meets at their end |
| RoundTrip.ArgsRunFail | sh.c:476-488 | the word loop over written items fails with the error parseredirs meets at their end, when the words fit in argv |
| RoundTrip.ExecRunFail | sh.c:465-492 | parseexec over written items fails with the error parseredirs meets at their end, when the words fit in argv |
| RoundTrip.TokenizeWord | sh.c:354-363 | a word token, then the tokens after it |
| RoundTrip.TokenizeRedir | sh.c:344-363 | a written `< f ` or `> f ` tokenizes as the symbol with its one-character text, then the word f |
| RoundTrip.TokenizeItem | sh.c:336-365 | one written item tokenizes as its own tokens, followed by the tokens of what comes after it |
| RoundTrip.TokenizeRun | sh.c:336-365 | written items that end where the next token starts tokenize as each item's tokens in order, followed by the tokens from there |
| RoundTrip.TokenizeStep | sh.c:336-365 | the tokens of written items are the first item's tokens followed by those of the rest |
| RoundTrip.TokenizeEnd | sh.c:341-345 | at the end of the line the only token is the end token, with empty text |
| RoundTrip.SymbolText | sh.c:347-353 | the text of a symbol token is that one character |
| RoundTrip.TokenizeLine | sh.c:336-365 | a command written with one blank after each word and redirection tokenizes as its items' tokens, then the end token |
| RoundTrip.TokenizeBar | sh.c:347-350 | a written `\| ` is the pipe token with text `\|`, followed by the tokens after the blank |
| RoundTrip.TokenizeCommandBar | sh.c:336-365 | a written command followed by `\| ` tokenizes as the command's tokens, the pipe token, then what follows |
| RoundTrip.TokenizePipeline | sh.c:336-365 | a pipeline written to the end of the line tokenizes as each command's tokens with a pipe token between neighbours, then the end token |
| RoundTrip.TokenizePipeCons | sh.c:336-365 | the same for a pipeline of two or more commands, from its first command, the `\| ` and the rest |
| RoundTrip.TokenizeUnparse | sh.c:336-365 | every written pipeline tokenizes as its commands' tokens separated by pipe tokens with text `\|`, then the end token |
| RoundTrip.UnparseChain | sh.c:426-435 | every command of a written pipeline parses as itself up to the `\|` after it |
| RoundTrip.PipeRun | sh.c:426-435 | parsepipe reads a written pipeline back as the same right-nested tree, to the end of the line |
| RoundTrip.UnparseNoNul | sh.c:402 | a written pipeline has no NUL, so strlen sees all of it |
| RoundTrip.ParseUnparse | sh.c:398-435 | parsecmd reads every pipeline tree the parser can build back from its written form: `ParseCmd(Unparse(c)) == Ok(c)` |
| RoundTrip.ParseCmdStable | sh.c:398-411 | writing out what parsecmd accepted and parsing it again gives the same tree |
| RoundTrip.CommandLine | sh.c:465-492 | a line of words and redirections, written with one blank after each, in any order and with fewer than MAXARGS words, parses as `Wrap(Exec(words), redirections)` |
| RoundTrip.TooManyWords | sh.c:482-487 | a line of words and redirections, written with one blank after each, in any order and with MAXARGS words or more, is rejected with "too many args" |
| RoundTrip.MissingFileLine | sh.c:444-449 | a line of words and redirections, written with one blank after each and with fewer than MAXARGS words, followed by a `<` or `>` that ends the line, is rejected with "missing file for redirection" |
| Samples.TokenizeSample | sh.c:336-365 | `ls -la` is the word `ls`, the word `-la`, then the end |
| Samples.PipesNestRight | sh.c:426-435 | `a \| b \| c ` (with a final blank) parses as `Pipe(a, Pipe(b, c))` |
| Samples.PipeWithoutBlanks | sh.c:426-435 | `a\|b` parses as `Pipe(a, b)`: no blank is needed around `\|` |
| Samples.RedirectionsWithoutBlanks | sh.c:440-460 | `cat<in>out` parses as cat wrapped in `< in`, then in `> out`: no blank is needed around `<` or `>` |
| Samples.WordsAfterRedirection | sh.c:472-488 | in `cat < in > out -n ` the word `-n` joins cat's argv, and `> out` is the outermost node |

## Left out

- `runcmd` (sh.c:128-219), the executor, is not modelled. It runs `fork`, `execvp`, `open`, `dup2`, `pipe` and `wait`, which are operating-system effects. It also ignores the parsed `mode` and `fd` and always opens with `O_RDWR|O_CREAT`. Nothing here claims the executor honours what `redircmd` records.
- `main` and `getcmd`: the loop reading lines from the terminal, and the `cd` special case, which is a call to `chdir`. Both are I/O.
- `fork1`: a wrapper around `fork`.
- `runls`: directory I/O, and never called.
- `printcmd`, `printexeccmd`, `printredircmd`, `printpipecmd`: debug output only.
- `malloc`, `memset` and the casts between the `struct cmd` variants become the immutable `Cmd` datatype. The `type` tag becomes the datatype's constructor. The NULL that ends `argv` becomes the end of the sequence.
- `exit(-1)` after a parse error becomes an `Err` result. Each `ParseError` constructor stands for one message (sh.c:407, 447, 479, 485); writing the message to stderr is not modelled.
- One Dafny `char` stands for one byte of the C buffer. The model does not deal with encodings: a multi-byte character is several `char`s, as it is several bytes in C.
- RoundTrip.CommandLine: stated for lines written with one blank after each word and redirection. Other spacings, including none, are covered by the step lemmas of `ParseSteps`, which hold for any whitespace around the tokens, and by the samples, but not by one all-lines theorem.
- RoundTrip.TooManyWords: stated for the same one-blank layout as RoundTrip.CommandLine, for the same reason.
- RoundTrip.MissingFileLine: stated for the same one-blank layout, with the bare symbol at the very end of the line; a missing file elsewhere is covered by ParserFacts.RedirsOutcome.
- The `O_*` flag values are those of Linux. Other platforms use other numbers.
- `assert(c)` in `mkcopy`, a check that `malloc` succeeded, is not modelled. Allocation always succeeds in the model.
