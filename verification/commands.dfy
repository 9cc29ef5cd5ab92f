/** The command tree of the shell and its node constructors (sh.c `execcmd`,
    `redircmd`, `pipecmd`). The C structs, cast between through a shared
    `type` tag, become one datatype. */
module Commands {
  import opened Lexer

  /** Size of an exec node's argv array; one slot is kept for the NULL that
      ends the list, so a command has at most MAXARGS - 1 words. */
  const MAXARGS: nat := 10

  /** open(2) flags as fcntl.h defines them on Linux. */
  const O_RDONLY: bv32 := 0x0
  const O_WRONLY: bv32 := 0x1
  const O_ACCMODE: bv32 := 0x3
  const O_CREAT: bv32 := 0x40
  const O_TRUNC: bv32 := 0x200

  /** The redirection kinds, written `<` and `>`. */
  datatype Dir = In | Out

  function DirSymbol(d: Dir): char {
    if d == In then '<' else '>'
  }

  /** `argv` holds the words of a simple command; the C array's terminating
      NULL is the end of the sequence. */
  datatype Cmd =
    | Exec(argv: seq<string>)
    | Redir(cmd: Cmd, file: string, dir: Dir, mode: bv32, fd: int)
    | Pipe(left: Cmd, right: Cmd)

  /** redircmd(subcmd, file, type). */
  function RedirCmd(sub: Cmd, file: string, dir: Dir): (r: Cmd)
    ensures r.Redir? && r.cmd == sub && r.file == file && r.dir == dir
    // the descriptor slot is stdin for `<`, stdout for `>`, and nothing else
    ensures r.fd == 0 <==> dir == In
    ensures r.fd == 1 <==> dir == Out
    // `<` opens read-only; `>` opens write-only, creating and truncating
    ensures dir == In ==> r.mode & O_ACCMODE == O_RDONLY && r.mode & (O_CREAT | O_TRUNC) == 0
    ensures dir == Out ==> r.mode & O_ACCMODE == O_WRONLY && r.mode & O_CREAT != 0 && r.mode & O_TRUNC != 0
    // and no other flag is set
    ensures r.mode & !(O_ACCMODE | O_CREAT | O_TRUNC) == 0
  {
    Redir(sub, file, dir,
          if dir == In then O_RDONLY else O_WRONLY | O_CREAT | O_TRUNC,
          if dir == In then 0 else 1)
  }

  /** One redirection as written on the command line. */
  datatype Redirect = Redirect(dir: Dir, file: string)

  /** The node below all the redirections wrapped around c. */
  function Core(c: Cmd): Cmd {
    if c.Redir? then Core(c.cmd) else c
  }

  /** The redirections wrapped around Core(c), innermost first. */
  function Redirections(c: Cmd): seq<Redirect> {
    if c.Redir? then Redirections(c.cmd) + [Redirect(c.dir, c.file)] else []
  }

  /** A simple command: an exec node with fewer than MAXARGS words, inside
      redirection nodes exactly as redircmd builds them. */
  predicate IsSimple(c: Cmd) {
    match c
    case Exec(argv) => |argv| < MAXARGS && forall i :: 0 <= i < |argv| ==> IsWord(argv[i])
    case Redir(inner, file, dir, _, _) => c == RedirCmd(inner, file, dir) && IsWord(file) && IsSimple(inner)
    case Pipe(_, _) => false
  }

  /** A pipeline as the parser builds it: simple commands joined by pipe
      nodes that nest to the right. */
  predicate IsPipeline(c: Cmd) {
    if c.Pipe? then IsSimple(c.left) && IsPipeline(c.right) else IsSimple(c)
  }

  /** Wraps c in the redirections rs in order: each one wraps the node built
      so far, so the last one is outermost. */
  function Wrap(c: Cmd, rs: seq<Redirect>): (r: Cmd)
    ensures Core(r) == Core(c) && Redirections(r) == Redirections(c) + rs
    ensures IsSimple(c) && (forall i :: 0 <= i < |rs| ==> IsWord(rs[i].file)) ==> IsSimple(r)
    decreases |rs|
  {
    if |rs| == 0 then c
    else
      var last := rs[|rs| - 1];
      assert rs == rs[..|rs| - 1] + [last];
      RedirCmd(Wrap(c, rs[..|rs| - 1]), last.file, last.dir)
  }

  /** Wrapping in a + b is wrapping in a and then in b. */
  lemma {:induction false} WrapAppend(c: Cmd, a: seq<Redirect>, b: seq<Redirect>)
    ensures Wrap(c, a + b) == Wrap(Wrap(c, a), b)
    decreases |b|
  {
    if |b| == 0 {
      assert a + b == a;
    } else {
      var b' := b[..|b| - 1];
      assert (a + b)[..|a + b| - 1] == a + b';
      WrapAppend(c, a, b');
    }
  }

  /** A node whose redirections are all built by redircmd is its core wrapped
      in its redirections. */
  lemma {:induction false} WrapCore(c: Cmd)
    requires IsSimple(c)
    ensures Wrap(Core(c), Redirections(c)) == c
  {
    if c.Redir? {
      WrapCore(c.cmd);
      var rs := Redirections(c);
      assert rs[..|rs| - 1] == Redirections(c.cmd);
    }
  }
}
