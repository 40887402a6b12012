/** The command language of shellproj/sh.c over tokens: the parser's decisions as
    functions, and the grammar they are meant to decide. Words are left abstract. */
module ShGrammar {

  /** gettoken's symbols ('+' stands for >>), or a word. */
  datatype Token<+W> = Sym(c: char) | Word(w: W)

  /** O_RDONLY on descriptor 0, or O_WRONLY|O_CREAT on descriptor 1 (for > and >> alike). */
  datatype Mode = Input | Output

  datatype Cmd<+W> =
    | Exec(args: seq<W>)
    | Redir(cmd: Cmd<W>, file: W, mode: Mode)
    | Pipe(left: Cmd<W>, right: Cmd<W>)
    | List(left: Cmd<W>, right: Cmd<W>)
    | Back(cmd: Cmd<W>)

  /** Why the parser calls panic. */
  datatype Why = MissingFile | MissingParen | Syntax | TooManyArgs | Leftovers

  datatype Result<+W> = Ok(cmd: Cmd<W>, rest: seq<Token<W>>) | Panic(why: Why)

  /** The size of argv: one more than the number of words a command may have. */
  type Limit = n: int | 0 < n witness 1

  const MAXARGS: Limit := 10

  /** What `peek` looks for, given the first token. */
  predicate Starts<W>(ts: seq<Token<W>>, c: char) {
    ts != [] && ts[0] == Sym(c)
  }

  predicate StartsRedir<W>(ts: seq<Token<W>>) {
    Starts(ts, '<') || Starts(ts, '>') || Starts(ts, '+')
  }

  function ModeOf(c: char): Mode {
    if c == '<' then Input else Output
  }

  // ---------- the parser ----------

  /** parseredirs */
  function Redirs<W>(c: Cmd<W>, ts: seq<Token<W>>): (r: Result<W>)
    ensures r.Ok? ==> |r.rest| <= |ts|
    decreases |ts|
  {
    if !StartsRedir(ts) then Ok(c, ts)
    else if |ts| < 2 || !ts[1].Word? then Panic(MissingFile)
    else Redirs(Redir(c, ts[1].w, ModeOf(ts[0].c)), ts[2..])
  }

  /** A command wrapped in redirections only. */
  predicate Simple<W>(c: Cmd<W>) {
    c.Exec? || (c.Redir? && Simple(c.cmd))
  }

  function Args<W>(c: Cmd<W>): seq<W>
    requires Simple(c)
  {
    if c.Exec? then c.args else Args(c.cmd)
  }

  /** The words go to the command inside the redirections. */
  function WithArgs<W>(c: Cmd<W>, args: seq<W>): (d: Cmd<W>)
    requires Simple(c)
    ensures Simple(d) && Args(d) == args
  {
    if c.Exec? then Exec(args) else Redir(WithArgs(c.cmd, args), c.file, c.mode)
  }

  function AddArg<W>(c: Cmd<W>, w: W): (d: Cmd<W>)
    requires Simple(c)
    ensures Simple(d) && Args(d) == Args(c) + [w]
  {
    WithArgs(c, Args(c) + [w])
  }

  predicate StopsExec<W>(ts: seq<Token<W>>) {
    ts == [] || Starts(ts, '|') || Starts(ts, ')') || Starts(ts, '&') || Starts(ts, ';')
  }

  /** The rest of parseexec, from a call of parseredirs on. */
  function Words<W>(c: Cmd<W>, ts: seq<Token<W>>, max: Limit): (r: Result<W>)
    requires Simple(c)
    ensures r.Ok? ==> |r.rest| <= |ts|
    decreases |ts|
  {
    RedirsSimple(c, ts);
    match Redirs(c, ts)
    case Panic(why) => Panic(why)
    case Ok(d, us) =>
      if StopsExec(us) then Ok(d, us)
      else if !us[0].Word? then Panic(Syntax)
      else if |Args(d)| + 1 >= max then Panic(TooManyArgs)
      else Words(AddArg(d, us[0].w), us[1..], max)
  }

  lemma {:induction false} RedirsSimple<W>(c: Cmd<W>, ts: seq<Token<W>>)
    requires Simple(c)
    ensures Redirs(c, ts).Ok? ==> Simple(Redirs(c, ts).cmd) && Args(Redirs(c, ts).cmd) == Args(c)
    decreases |ts|
  {
    if StartsRedir(ts) && |ts| >= 2 && ts[1].Word? {
      RedirsSimple(Redir(c, ts[1].w, ModeOf(ts[0].c)), ts[2..]);
    }
  }

  /** The & loop of parseline. */
  function Backs<W>(c: Cmd<W>, ts: seq<Token<W>>): (r: Result<W>)
    ensures r.Ok? && |r.rest| <= |ts|
    decreases |ts|
  {
    if Starts(ts, '&') then Backs(Back(c), ts[1..]) else Ok(c, ts)
  }

  function ParseExec<W>(ts: seq<Token<W>>, max: Limit): (r: Result<W>)
    ensures r.Ok? ==> |r.rest| <= |ts|
    decreases |ts|, 0
  {
    if Starts(ts, '(') then
      match ParseLine(ts[1..], max)
      case Panic(why) => Panic(why)
      case Ok(c, us) =>
        if Starts(us, ')') then Redirs(c, us[1..]) else Panic(MissingParen)
    else Words(Exec([]), ts, max)
  }

  function ParsePipe<W>(ts: seq<Token<W>>, max: Limit): (r: Result<W>)
    ensures r.Ok? ==> |r.rest| <= |ts|
    decreases |ts|, 1
  {
    match ParseExec(ts, max)
    case Panic(why) => Panic(why)
    case Ok(c, us) =>
      if Starts(us, '|') then
        match ParsePipe(us[1..], max)
        case Panic(why) => Panic(why)
        case Ok(d, vs) => Ok(Pipe(c, d), vs)
      else Ok(c, us)
  }

  function ParseLine<W>(ts: seq<Token<W>>, max: Limit): (r: Result<W>)
    ensures r.Ok? ==> |r.rest| <= |ts|
    decreases |ts|, 2
  {
    match ParsePipe(ts, max)
    case Panic(why) => Panic(why)
    case Ok(c, us) =>
      var b := Backs(c, us);
      if Starts(b.rest, ';') then
        match ParseLine(b.rest[1..], max)
        case Panic(why) => Panic(why)
        case Ok(d, vs) => Ok(List(b.cmd, d), vs)
      else b
  }

  /** parsecmd: the whole input has to be used up. */
  function ParseCmd<W>(ts: seq<Token<W>>, max: Limit): Result<W> {
    match ParseLine(ts, max)
    case Panic(why) => Panic(why)
    case Ok(c, us) => if us == [] then Ok(c, us) else Panic(Leftovers)
  }

  // ---------- the grammar ----------

  /** line -> back | back ; line */
  ghost predicate GLine<W(!new)>(ts: seq<Token<W>>, c: Cmd<W>)
    decreases |ts|, 3
  {
    || GBack(ts, c)
    || (c.List? && exists i ::
        0 <= i < |ts| && ts[i] == Sym(';') && GBack(ts[..i], c.left) && GLine(ts[i + 1..], c.right))
  }

  /** back -> pipe | back & */
  ghost predicate GBack<W(!new)>(ts: seq<Token<W>>, c: Cmd<W>)
    decreases |ts|, 2
  {
    || GPipe(ts, c)
    || (c.Back? && ts != [] && ts[|ts| - 1] == Sym('&') && GBack(ts[..|ts| - 1], c.cmd))
  }

  /** pipe -> exec | exec '|' pipe */
  ghost predicate GPipe<W(!new)>(ts: seq<Token<W>>, c: Cmd<W>)
    decreases |ts|, 1
  {
    || GBlock(ts, c) || GSimple(ts, c)
    || (c.Pipe? && exists i ::
          && 0 <= i < |ts| && ts[i] == Sym('|')
          && (GBlock(ts[..i], c.left) || GSimple(ts[..i], c.left)) && GPipe(ts[i + 1..], c.right))
  }

  predicate EndsInRedir<W>(ts: seq<Token<W>>) {
    |ts| >= 2 && ts[|ts| - 1].Word? && StartsRedir(ts[|ts| - 2..])
  }

  /** The last two tokens are the redirection c applies. */
  predicate LastRedir<W(==)>(ts: seq<Token<W>>, c: Cmd<W>) {
    c.Redir? && EndsInRedir(ts) && c.file == ts[|ts| - 1].w && c.mode == ModeOf(ts[|ts| - 2].c)
  }

  /** The last token is the last argument of c. */
  predicate LastWord<W(==)>(ts: seq<Token<W>>, c: Cmd<W>) {
    Simple(c) && Args(c) != [] && ts != [] && ts[|ts| - 1] == Word(Args(c)[|Args(c)| - 1])
  }

  function DropArg<W>(c: Cmd<W>): (d: Cmd<W>)
    requires Simple(c) && Args(c) != []
    ensures Simple(d) && Args(d) == Args(c)[..|Args(c)| - 1]
  {
    WithArgs(c, Args(c)[..|Args(c)| - 1])
  }

  /** block -> ( line ) | block redir word */
  ghost predicate GBlock<W(!new)>(ts: seq<Token<W>>, c: Cmd<W>)
    decreases |ts|, 0
  {
    || (|ts| >= 2 && ts[0] == Sym('(') && ts[|ts| - 1] == Sym(')') && GLine(ts[1..|ts| - 1], c))
    || (LastRedir(ts, c) && GBlock(ts[..|ts| - 2], c.cmd))
  }

  /** simple -> (nothing) | simple word | simple redir word */
  ghost predicate GSimple<W(!new)>(ts: seq<Token<W>>, c: Cmd<W>)
    decreases |ts|, 0
  {
    || (ts == [] && c == Exec([]))
    || (LastWord(ts, c) && GSimple(ts[..|ts| - 1], DropArg(c)))
    || (LastRedir(ts, c) && GSimple(ts[..|ts| - 2], c.cmd))
  }

  /** No command has more words than fit in argv with its terminator. */
  predicate ArgsFit<W>(c: Cmd<W>, max: Limit) {
    match c
    case Exec(args) => |args| < max
    case Redir(d, _, _) => ArgsFit(d, max)
    case Pipe(l, r) => ArgsFit(l, max) && ArgsFit(r, max)
    case List(l, r) => ArgsFit(l, max) && ArgsFit(r, max)
    case Back(d) => ArgsFit(d, max)
  }
}
