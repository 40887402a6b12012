/** The parser of shellproj/sh.c as it runs: a cursor over a NUL-terminated buffer, argv and
    eargv filled in place, and nulterminate writing into the buffer. */
module ShParser {
  import opened ShGrammar
  import opened ShLexer

  // ---------- commands in memory ----------

  /** A char pointer of argv or eargv: null, or a place in the buffer. */
  datatype Ptr = Null | At(pos: nat)

  /** What a redirection is opened with. */
  datatype Flags = O_RDONLY | O_WRONLY_O_CREAT

  /** Flags and descriptor of a redirection's direction. */
  predicate Opens(flags: Flags, fd: nat, m: Mode) {
    match m
    case Input => flags == O_RDONLY && fd == 0
    case Output => flags == O_WRONLY_O_CREAT && fd == 1
  }

  /** Pointers to the command structs; those of an execcmd hold its two arrays. */
  datatype CmdPtr =
    | ExecPtr(argv: array<Ptr>, eargv: array<Ptr>)
    | RedirPtr(cmd: CmdPtr, file: nat, efile: nat, mode: Flags, fd: nat)
    | PipePtr(left: CmdPtr, right: CmdPtr)
    | ListPtr(left: CmdPtr, right: CmdPtr)
    | BackPtr(cmd: CmdPtr)

  /** panic ends the shell: nothing runs after it. */
  datatype Outcome = Done(cmd: CmdPtr) | Failed(why: Why)

  ghost function Arrays(c: CmdPtr): set<array<Ptr>> {
    match c
    case ExecPtr(argv, eargv) => {argv, eargv}
    case RedirPtr(d, _, _, _, _) => Arrays(d)
    case PipePtr(l, r) => Arrays(l) + Arrays(r)
    case ListPtr(l, r) => Arrays(l) + Arrays(r)
    case BackPtr(d) => Arrays(d)
  }

  /** argv and eargv hold these words and nulls after them. */
  ghost predicate ArgvHolds(argv: seq<Ptr>, eargv: seq<Ptr>, args: seq<Span>) {
    && |argv| == MAXARGS && |eargv| == MAXARGS && |args| < MAXARGS
    && (forall i :: 0 <= i < |args| ==> argv[i] == At(args[i].q) && eargv[i] == At(args[i].eq))
    && (forall i :: |args| <= i < MAXARGS ==> argv[i] == Null && eargv[i] == Null)
  }

  /** The structs at c are the tree v. */
  ghost predicate Rep(c: CmdPtr, v: Cmd<Span>)
    reads Arrays(c)
  {
    match c
    case ExecPtr(argv, eargv) => v.Exec? && argv != eargv && ArgvHolds(argv[..], eargv[..], v.args)
    case RedirPtr(d, file, efile, mode, fd) =>
      v.Redir? && v.file == Span(file, efile) && Opens(mode, fd, v.mode) && Rep(d, v.cmd)
    case PipePtr(l, r) => v.Pipe? && Rep(l, v.left) && Rep(r, v.right)
    case ListPtr(l, r) => v.List? && Rep(l, v.left) && Rep(r, v.right)
    case BackPtr(d) => v.Back? && Rep(d, v.cmd)
  }

  /** c is e, and v is w, inside the same redirections. */
  ghost predicate Wraps(c: CmdPtr, e: CmdPtr, v: Cmd<Span>, w: Cmd<Span>) {
    || (c == e && v == w)
    || (c.RedirPtr? && v.Redir? && v.file == Span(c.file, c.efile) && Opens(c.mode, c.fd, v.mode)
        && Wraps(c.cmd, e, v.cmd, w))
  }

  lemma {:induction false} WrapsRep(c: CmdPtr, e: CmdPtr, v: Cmd<Span>, w: Cmd<Span>)
    requires Wraps(c, e, v, w) && Rep(e, w)
    ensures Rep(c, v) && Arrays(c) == Arrays(e)
    decreases c
  {
    if !(c == e && v == w) { WrapsRep(c.cmd, e, v.cmd, w); }
  }

  lemma {:induction false} WrapsTwice(c: CmdPtr, d: CmdPtr, e: CmdPtr, u: Cmd<Span>, v: Cmd<Span>, w: Cmd<Span>)
    requires Wraps(c, d, u, v) && Wraps(d, e, v, w)
    ensures Wraps(c, e, u, w)
    decreases c
  {
    if !(c == d && u == v) { WrapsTwice(c.cmd, d, e, u.cmd, v, w); }
  }

  lemma {:induction false} WrapsArgs(c: CmdPtr, e: CmdPtr, v: Cmd<Span>, w: Cmd<Span>, args: seq<Span>)
    requires Wraps(c, e, v, w) && w.Exec? && e.ExecPtr?
    ensures Simple(v) && Args(v) == w.args && Wraps(c, e, WithArgs(v, args), Exec(args))
    decreases c
  {
    if !(c == e && v == w) { WrapsArgs(c.cmd, e, v.cmd, w, args); }
  }

  lemma WrapsSelf(c: CmdPtr, v: Cmd<Span>)
    ensures Wraps(c, c, v, v)
  {
  }

  lemma WrapMore(c: CmdPtr, d: CmdPtr, e: CmdPtr, v: Cmd<Span>, w: Cmd<Span>, file: Span, mode: Mode, t: string)
    requires Wraps(c, e, v, w) && d.RedirPtr? && d == RedirPtr(c, file.q, file.eq, d.mode, d.fd)
    requires Opens(d.mode, d.fd, mode)
    ensures Wraps(d, e, Redir(v, file, mode), w)
    ensures Texts(Redir(v, file, mode), t) == Redir(Texts(v, t), Slice(t, file), mode)
  {
  }

  // ---------- constructors ----------

  /** Lines 425-435. */
  method RedirCmd(cmd: CmdPtr, tok: char, q: nat, eq: nat) returns (c: CmdPtr)
    requires tok == '<' || tok == '>' || tok == '+'
    ensures c.RedirPtr? && c == RedirPtr(cmd, q, eq, c.mode, c.fd)
    ensures Opens(c.mode, c.fd, if tok == '<' then Input else Output)
    ensures if tok == '<' then c.mode == O_RDONLY && c.fd == 0 else c.mode == O_WRONLY_O_CREAT && c.fd == 1
  {
    if tok == '<' {
      c := RedirPtr(cmd, q, eq, O_RDONLY, 0);
    } else if tok == '>' {
      c := RedirPtr(cmd, q, eq, O_WRONLY_O_CREAT, 1);
    } else {
      c := RedirPtr(cmd, q, eq, O_WRONLY_O_CREAT, 1);
    }
  }

  /** execcmd: all pointers null. */
  method ExecCmd() returns (c: CmdPtr)
    ensures c.ExecPtr? && Rep(c, Exec([])) && fresh(Arrays(c))
  {
    var argv := new Ptr[MAXARGS](_ => Null);
    var eargv := new Ptr[MAXARGS](_ => Null);
    c := ExecPtr(argv, eargv);
  }

  /** What the character under the cursor says about the tokens ahead. */
  ghost predicate Facing(ts: seq<Token<string>>, c: char) {
    && (ts == [] <==> c == NUL)
    && (forall sym :: sym in "<|&;()" ==> (Starts(ts, sym) <==> c == sym))
    && (StartsRedir(ts) <==> c == '<' || c == '>')
  }

  lemma LexFacing(u: string)
    requires u != [] ==> u[0] != NUL && !IsSpace(u[0])
    ensures Facing(Lex(u), if u == [] then NUL else u[0])
  {
    if u != [] && !IsSymbol(u[0]) {
      assert Lex(u)[0].Word?;
    }
  }

  lemma FacingStop(ts: seq<Token<string>>, c: char)
    requires Facing(ts, c)
    ensures ts != [] && StopsExec(ts) <==> c != NUL && c in "|)&;"
  {
    assert forall sym :: sym in "|)&;" ==> sym in "<|&;()";
  }

  lemma LexWord(u: string, n: nat)
    requires 0 < n <= |u| && (forall i :: 0 <= i < n ==> IsWordChar(u[i])) && (n < |u| ==> !IsWordChar(u[n]))
    ensures Lex(u) == [Word(u[..n])] + Lex(u[n..])
  {
    assert u == u[..n] + u[n..];
    WordLengthOfWord(u[..n], u[n..]);
  }

  lemma LexSymbol(u: string, n: nat)
    requires 0 < n <= |u| && IsSymbol(u[0])
    requires n == if u[0] == '>' && |u| > 1 && u[1] == '>' then 2 else 1
    ensures Lex(u) == [Sym(if n == 2 then '+' else u[0])] + Lex(u[n..])
  {
  }

  lemma RedirsStop<W>(c: Cmd<W>, ts: seq<Token<W>>)
    requires !StartsRedir(ts)
    ensures Redirs(c, ts) == Ok(c, ts)
  {
  }

  lemma RedirsStep<W>(c: Cmd<W>, ts: seq<Token<W>>, us: seq<Token<W>>)
    requires StartsRedir(ts) && ts[1..] == us
    ensures us == [] || !us[0].Word? ==> Redirs(c, ts) == Panic(MissingFile)
    ensures us != [] && us[0].Word? ==> Redirs(c, ts) == Redirs(Redir(c, us[0].w, ModeOf(ts[0].c)), us[1..])
  {
    if us != [] { assert ts[1] == us[0] && ts[2..] == us[1..]; }
  }

  lemma WordsAfterRedirs<W>(c: Cmd<W>, ts: seq<Token<W>>)
    requires Simple(c)
    ensures match Redirs(c, ts)
            case Panic(why) => Words(c, ts, MAXARGS) == Panic(why)
            case Ok(d, us) => Simple(d) && (!StartsRedir(us) ==> Words(c, ts, MAXARGS) == Words(d, us, MAXARGS))
  {
    RedirsSimple(c, ts);
  }

  lemma ExecIsWords<W>(ts: seq<Token<W>>)
    requires !Starts(ts, '(')
    ensures ShGrammar.ParseExec(ts, MAXARGS) == Words(Exec([]), ts, MAXARGS)
  {
  }

  lemma WordsStep<W>(c: Cmd<W>, ts: seq<Token<W>>)
    requires Simple(c) && !StartsRedir(ts)
    ensures ts == [] ==> StopsExec(ts)
    ensures StopsExec(ts) ==> Words(c, ts, MAXARGS) == Ok(c, ts)
    ensures !StopsExec(ts) ==>
              Words(c, ts, MAXARGS) == if !ts[0].Word? then Panic(Syntax)
                              else if |Args(c)| + 1 >= MAXARGS then Panic(TooManyArgs)
                              else Words(AddArg(c, ts[0].w), ts[1..], MAXARGS)
  {
  }

  /** gettoken's answer as a token: 'a' for a word. */
  function TokenOf(tok: char, w: Span, t: string): Token<string> {
    if tok == 'a' then Word(Slice(t, w)) else Sym(tok)
  }

  /** argv[argc] = q; eargv[argc] = eq */
  method StoreArg(c: CmdPtr, argc: nat, q: nat, eq: nat, ghost args: seq<Span>)
    requires c.ExecPtr? && Rep(c, Exec(args)) && argc == |args|
    modifies c.argv, c.eargv
    ensures argc + 1 < MAXARGS ==> Rep(c, Exec(args + [Span(q, eq)]))
  {
    c.argv[argc] := At(q);
    c.eargv[argc] := At(eq);
  }

  /** argv[argc] = 0; eargv[argc] = 0 */
  method EndArgs(c: CmdPtr, argc: nat, ghost args: seq<Span>)
    requires c.ExecPtr? && Rep(c, Exec(args)) && argc == |args|
    modifies c.argv, c.eargv
    ensures Rep(c, Exec(args))
  {
    c.argv[argc] := Null;
    c.eargv[argc] := Null;
  }

  class Parser {
    const buf: array<char>
    const es: nat
    var s: nat

    ghost predicate Valid()
      reads this, buf
    {
      && s <= es < buf.Length && buf[es] == NUL
      && forall i :: 0 <= i < es ==> buf[i] != NUL
    }

    ghost function Text(): string
      requires es <= buf.Length
      reads buf
    {
      buf[..es]
    }

    /** What is left of the input. */
    ghost function Toks(): seq<Token<string>>
      requires Valid()
      reads this, buf
    {
      Lex(buf[s..es])
    }

    constructor (b: array<char>, end: nat)
      requires end < b.Length && b[end] == NUL && forall i :: 0 <= i < end ==> b[i] != NUL
      ensures Valid() && buf == b && es == end && s == 0
    {
      buf, es, s := b, end, 0;
    }

    /** while(s < es && strchr(whitespace, *s)) s++ */
    method SkipSpaces()
      requires Valid()
      modifies this`s
      ensures Valid() && old(s) <= s && Toks() == old(Toks())
      ensures s < es ==> !IsSpace(buf[s])
    {
      while s < es && IsSpace(buf[s])
        invariant Valid() && old(s) <= s && Toks() == old(Toks())
        decreases es - s
      {
        ghost var u := buf[s..es];
        assert u[1..] == buf[s + 1..es];
        s := s + 1;
      }
    }

    method Peek(toks: string) returns (r: bool)
      requires Valid()
      modifies this`s
      ensures Valid() && old(s) <= s && Toks() == old(Toks())
      ensures r <==> buf[s] != NUL && buf[s] in toks
      ensures Facing(Toks(), buf[s])
    {
      SkipSpaces();
      r := buf[s] != NUL && buf[s] in toks;
      LexFacing(buf[s..es]);
    }

    /** gettoken's word loop */
    method SkipWord()
      requires Valid() && IsWordChar(buf[s])
      modifies this`s
      ensures Valid() && old(s) < s && IsSpan(Span(old(s), s), Text())
      ensures old(Toks()) == [Word(Slice(Text(), Span(old(s), s)))] + Toks()
    {
      hide Lex;
      ghost var u := buf[s..es];
      while s < es && !IsSpace(buf[s]) && !IsSymbol(buf[s])
        invariant Valid() && old(s) <= s && forall i :: old(s) <= i < s ==> IsWordChar(buf[i])
        decreases es - s
      {
        s := s + 1;
      }
      LexWord(u, s - old(s));
      assert u[..s - old(s)] == buf[old(s)..s] == Text()[old(s)..s];
      assert u[s - old(s)..] == buf[s..es];
    }

    /** 0 at the end of the input; otherwise the next token, between q and eq. */
    method GetToken() returns (tok: char, q: nat, eq: nat)
      requires Valid()
      modifies this`s
      ensures Valid() && old(s) <= s
      ensures tok == NUL <==> old(Toks()) == []
      ensures tok == NUL ==> Toks() == []
      ensures tok != NUL ==> old(s) < s && old(Toks()) == [TokenOf(tok, Span(q, eq), Text())] + Toks()
      ensures tok == 'a' ==> IsSpan(Span(q, eq), Text())
    {
      hide Lex, Slice, IsSpan, IsWordChar, IsSpace;
      SkipSpaces();
      q := s;
      tok := TakeToken();
      eq := s;
      SkipSpaces();
    }

    /** gettoken's switch: the cursor is at a token or at the end. */
    method TakeToken() returns (tok: char)
      requires Valid() && (s < es ==> !IsSpace(buf[s]))
      modifies this`s
      ensures Valid() && old(s) <= s
      ensures tok == NUL <==> old(Toks()) == []
      ensures tok == NUL ==> Toks() == []
      ensures tok != NUL ==> old(s) < s && old(Toks()) == [TokenOf(tok, Span(old(s), s), Text())] + Toks()
      ensures tok == 'a' ==> IsSpan(Span(old(s), s), Text())
    {
      hide Lex, Slice, IsSpan;
      ghost var q := s;
      tok := buf[s];
      ghost var u := buf[s..es];
      LexFacing(u);
      if tok == NUL {
      } else if tok == '|' || tok == '(' || tok == ')' || tok == ';' || tok == '&' || tok == '<' {
        s := s + 1;
        LexSymbol(u, 1);
        assert u[1..] == buf[s..es];
      } else if tok == '>' {
        s := s + 1;
        if buf[s] == '>' {
          tok := '+';
          s := s + 1;
        }
        LexSymbol(u, s - q);
        assert u[s - q..] == buf[s..es];
      } else {
        tok := 'a';
        SkipWord();
      }
    }

    /** r is the parser function's answer p: the tree of p as slices of the input. */
    ghost predicate Answers(r: Outcome, v: Cmd<Span>, p: Result<string>)
      requires Valid()
      reads this, buf
    {
      match p
      case Panic(why) => r == Failed(why)
      case Ok(c, rest) => r.Done? && InText(v, Text()) && Texts(v, Text()) == c && Toks() == rest
    }

    method ParseRedirs(cmd: CmdPtr, ghost v: Cmd<Span>) returns (r: Outcome, ghost d: Cmd<Span>)
      requires Valid() && InText(v, Text())
      modifies this`s
      ensures Valid() && old(s) <= s
      ensures Answers(r, d, Redirs(Texts(v, Text()), old(Toks())))
      ensures r.Done? ==> Wraps(r.cmd, cmd, d, v) && !StartsRedir(Toks()) && Facing(Toks(), buf[s])
    {
      hide Lex, Redirs, Slice, Read, Wraps, Texts;
      ghost var t, whole := Text(), Redirs(Texts(v, Text()), Toks());
      WrapsSelf(cmd, v);
      var ret := cmd;
      d := v;
      var more := Peek("<>");
      while more
        invariant Valid() && old(s) <= s
        invariant InText(d, t) && Wraps(ret, cmd, d, v)
        invariant Redirs(Texts(d, t), Toks()) == whole
        invariant Facing(Toks(), buf[s])
        invariant more <==> StartsRedir(Toks())
        decreases es - s
      {
        ghost var ts := Toks();
        var tok, _, _ := GetToken();
        ghost var us := Toks();
        var word, q, eq := GetToken();
        RedirsStep(Texts(d, t), ts, us);
        if word != 'a' {
          return Failed(MissingFile), d;
        }
        assert us[1..] == Toks();
        var c := RedirCmd(ret, tok, q, eq);
        WrapMore(ret, c, cmd, d, v, Span(q, eq), if tok == '<' then Input else Output, t);
        ret, d := c, Redir(d, Span(q, eq), if tok == '<' then Input else Output);
        more := Peek("<>");
      }
      RedirsStop(Texts(d, t), Toks());
      r := Done(ret);
    }

    /** The execcmd at c holds `args`, and ret is it inside the redirections of v. */
    ghost predicate Building(c: CmdPtr, args: seq<Span>, ret: CmdPtr, v: Cmd<Span>)
      requires Valid()
      reads this, buf, Arrays(c)
    {
      && c.ExecPtr? && |args| < MAXARGS && Rep(c, Exec(args))
      && Wraps(ret, c, v, Exec(args)) && InText(v, Text()) && Simple(Texts(v, Text()))
    }

    /** Lines 477-482: one more word, and the redirections after it. */
    method AddWord(c: CmdPtr, argc: nat, q: nat, eq: nat, ret: CmdPtr,
                   ghost args: seq<Span>, ghost v0: Cmd<Span>, ghost w: Cmd<Span>)
      returns (r: Outcome, ghost v: Cmd<Span>)
      requires Valid() && Building(c, args, ret, v0) && argc == |args| && IsSpan(Span(q, eq), Text())
      requires Simple(v0) && w == AddArg(v0, Span(q, eq)) && Simple(Texts(w, Text()))
      modifies this`s, c.argv, c.eargv
      ensures Valid() && old(s) <= s
      ensures if argc + 1 >= MAXARGS then r == Failed(TooManyArgs)
              else if r.Failed? then Words(Texts(w, Text()), old(Toks()), MAXARGS) == Panic(r.why)
              else
                && Building(c, args + [Span(q, eq)], r.cmd, v) && !StartsRedir(Toks())
                && Words(Texts(v, Text()), Toks(), MAXARGS) == Words(Texts(w, Text()), old(Toks()), MAXARGS)
    {
      hide Lex, Slice, Redirs, Words, Read, Args, WithArgs, Rep, Wraps, Facing, Starts, StopsExec, Texts, InText;
      ghost var t := Text();
      StoreArg(c, argc, q, eq, args);
      WrapsArgs(ret, c, v0, Exec(args), args + [Span(q, eq)]);
      TextsOfAddArg(v0, Span(q, eq), t);
      v := w;
      if argc + 1 >= MAXARGS { return Failed(TooManyArgs), v; }
      WordsAfterRedirs(Texts(w, t), Toks());
      assert allocated(Arrays(c));
      r, v := ParseRedirs(ret, w);
      if r.Done? {
        WrapsTwice(r.cmd, ret, c, v, w, Exec(args + [Span(q, eq)]));
      }
    }

    /** Lines 472-486: the argv loop. */
    method ParseArgs(c: CmdPtr, ret0: CmdPtr, ghost v0: Cmd<Span>) returns (r: Outcome, ghost v: Cmd<Span>)
      requires Valid() && Building(c, [], ret0, v0) && !StartsRedir(Toks())
      modifies this`s, c.argv, c.eargv
      ensures Valid() && old(s) <= s
      ensures Answers(r, v, Words(Texts(v0, Text()), old(Toks()), MAXARGS))
      ensures r.Done? ==> Rep(r.cmd, v) && Arrays(r.cmd) == Arrays(c)
    {
      hide Lex, Slice, Redirs, Words, Read, Args, WithArgs, Rep, Wraps, Facing, Starts, StopsExec, Texts, InText;
      ghost var t, whole := Text(), Words(Texts(v0, Text()), Toks(), MAXARGS);
      var argc, ret := 0, ret0;
      ghost var args: seq<Span> := [];
      v := v0;
      assert allocated(Arrays(c));
      var stop := Peek("|)&;");
      FacingStop(Toks(), buf[s]);
      while !stop
        invariant Valid() && old(s) <= s && Building(c, args, ret, v) && argc == |args|
        invariant Words(Texts(v, t), Toks(), MAXARGS) == whole
        invariant !StartsRedir(Toks()) && stop == (Toks() != [] && StopsExec(Toks()))
        decreases es - s
      {
        WordsStep(Texts(v, t), Toks());
        WrapsArgs(ret, c, v, Exec(args), args);
        var tok, q, eq := GetToken();
        if tok == NUL { break; }
        if tok != 'a' { return Failed(Syntax), v; }
        TextsOfAddArg(v, Span(q, eq), t);
        r, v := AddWord(c, argc, q, eq, ret, args, v, AddArg(v, Span(q, eq)));
        if r.Failed? { return; }
        args := args + [Span(q, eq)];
        argc, ret := argc + 1, r.cmd;
        stop := Peek("|)&;");
        FacingStop(Toks(), buf[s]);
      }
      WordsStep(Texts(v, t), Toks());
      EndArgs(c, argc, args);
      WrapsRep(ret, c, v, Exec(args));
      r := Done(ret);
    }

    /** parseexec without its block: words and redirections in any order. */
    method ParseSimple() returns (r: Outcome, ghost v: Cmd<Span>)
      requires Valid() && !Starts(Toks(), '(')
      modifies this`s
      ensures Valid() && old(s) <= s
      ensures Answers(r, v, ShGrammar.ParseExec(old(Toks()), MAXARGS))
      ensures r.Done? ==> Rep(r.cmd, v) && fresh(Arrays(r.cmd))
    {
      hide Lex, Slice, Redirs, Words, Read, Args, WithArgs, Rep, Wraps;
      hide Facing, Starts, ShGrammar.ParseExec, Texts, InText;
      ExecIsWords(Toks());
      var c := ExecCmd();
      NoText(Text());
      WordsAfterRedirs(Texts(Exec([]), Text()), Toks());
      assert allocated(Arrays(c));
      r, v := ParseRedirs(c, Exec([]));
      if r.Done? { r, v := ParseArgs(c, r.cmd, v); }
    }

    method ParseExec() returns (r: Outcome, ghost v: Cmd<Span>)
      requires Valid()
      modifies this`s
      ensures Valid() && old(s) <= s
      ensures Answers(r, v, ShGrammar.ParseExec(old(Toks()), MAXARGS))
      ensures r.Done? ==> Rep(r.cmd, v) && fresh(Arrays(r.cmd))
      decreases es - s, 1
    {
      hide Lex, Texts, InText, ShGrammar.ParseExec;
      var block := Peek("(");
      if block {
        r, v := ParseBlock();
      } else {
        r, v := ParseSimple();
      }
    }

    method ParseBlock() returns (r: Outcome, ghost v: Cmd<Span>)
      requires Valid() && Starts(Toks(), '(')
      modifies this`s
      ensures Valid() && old(s) <= s
      ensures Answers(r, v, ShGrammar.ParseExec(old(Toks()), MAXARGS))
      ensures r.Done? ==> Rep(r.cmd, v) && fresh(Arrays(r.cmd))
      decreases es - s, 0
    {
      hide Lex, Texts, InText, Redirs, ShGrammar.ParseLine, Wraps;
      var _, _, _ := GetToken();
      assert Toks() == old(Toks())[1..];
      r, v := ParseLine();
      if r.Failed? { return; }
      assert allocated(Arrays(r.cmd));
      var close := Peek(")");
      if !close { return Failed(MissingParen), v; }
      ghost var us, inner, w := Toks(), r.cmd, v;
      var _, _, _ := GetToken();
      assert Toks() == us[1..];
      r, v := ParseRedirs(r.cmd, v);
      if r.Done? { WrapsRep(r.cmd, inner, v, w); }
    }

    method ParsePipe() returns (r: Outcome, ghost v: Cmd<Span>)
      requires Valid()
      modifies this`s
      ensures Valid() && old(s) <= s
      ensures Answers(r, v, ShGrammar.ParsePipe(old(Toks()), MAXARGS))
      ensures r.Done? ==> Rep(r.cmd, v) && fresh(Arrays(r.cmd))
      decreases es - s, 2
    {
      hide Lex, Slice, ShGrammar.ParseExec;
      r, v := ParseExec();
      if r.Failed? { return; }
      assert allocated(Arrays(r.cmd));
      var bar := Peek("|");
      if bar {
        ghost var us, w := Toks(), v;
        var left := r.cmd;
        var _, _, _ := GetToken();
        assert Toks() == us[1..];
        r, v := ParsePipe();
        if r.Failed? { return; }
        r, v := Done(PipePtr(left, r.cmd)), Pipe(w, v);
      }
    }

    /** parseline's & loop */
    method ParseBacks(c: CmdPtr, ghost w: Cmd<Span>) returns (cmd: CmdPtr, ghost v: Cmd<Span>)
      requires Valid() && Rep(c, w) && InText(w, Text())
      modifies this`s
      ensures Valid() && old(s) <= s
      ensures Answers(Done(cmd), v, Backs(Texts(w, Text()), old(Toks())))
      ensures Rep(cmd, v) && Arrays(cmd) == Arrays(c)
    {
      hide Lex, Slice, Rep, InText, Read, Arrays;
      ghost var t, b := Text(), Backs(Texts(w, Text()), Toks());
      cmd, v := c, w;
      assert allocated(Arrays(c));
      var more := Peek("&");
      while more
        invariant Valid() && old(s) <= s
        invariant Rep(cmd, v) && Arrays(cmd) == Arrays(c) && allocated(Arrays(cmd)) && InText(v, t)
        invariant Backs(Texts(v, t), Toks()) == b
        invariant more <==> Starts(Toks(), '&')
        decreases es - s
      {
        ghost var us := Toks();
        var _, _, _ := GetToken();
        assert Toks() == us[1..];
        BackMade(cmd, v, t);
        cmd, v := BackPtr(cmd), Back(v);
        more := Peek("&");
      }
    }

    method ParseLine() returns (r: Outcome, ghost v: Cmd<Span>)
      requires Valid()
      modifies this`s
      ensures Valid() && old(s) <= s
      ensures Answers(r, v, ShGrammar.ParseLine(old(Toks()), MAXARGS))
      ensures r.Done? ==> Rep(r.cmd, v) && fresh(Arrays(r.cmd))
      decreases es - s, 3
    {
      hide Lex, Texts, Backs, Rep, Arrays, InText, ShGrammar.ParsePipe;
      r, v := ParsePipe();
      if r.Failed? { return; }
      assert allocated(Arrays(r.cmd));
      var cmd;
      cmd, v := ParseBacks(r.cmd, v);
      r := Done(cmd);
      assert allocated(Arrays(cmd));
      var semi := Peek(";");
      if semi {
        ghost var us, w := Toks(), v;
        var _, _, _ := GetToken();
        assert Toks() == us[1..];
        r, v := ParseLine();
        if r.Failed? { return; }
        ListMade(cmd, w, r.cmd, v, Text());
        r, v := Done(ListPtr(cmd, r.cmd)), List(w, v);
      }
    }
  }

  lemma BackMade(c: CmdPtr, v: Cmd<Span>, t: string)
    requires Rep(c, v) && InText(v, t)
    ensures Rep(BackPtr(c), Back(v)) && Arrays(BackPtr(c)) == Arrays(c)
    ensures InText(Back(v), t) && Texts(Back(v), t) == Back(Texts(v, t))
  {
  }

  lemma ListMade(l: CmdPtr, v: Cmd<Span>, r: CmdPtr, w: Cmd<Span>, t: string)
    requires Rep(l, v) && Rep(r, w)
    ensures Rep(ListPtr(l, r), List(v, w)) && Arrays(ListPtr(l, r)) == Arrays(l) + Arrays(r)
    ensures Texts(List(v, w), t) == List(Texts(v, t), Texts(w, t))
    ensures InText(v, t) && InText(w, t) ==> InText(List(v, w), t)
  {
  }

  lemma NoText(t: string)
    ensures Texts(Exec([]), t) == Exec([]) && InText(Exec([]), t)
  {
    assert ReadAll([], SliceOf(t)) == [];
  }

  // ---------- nulterminate ----------

  method NulterminateExec(argv: array<Ptr>, eargv: array<Ptr>, b: array<char>, ghost args: seq<Span>)
    requires ArgvHolds(argv[..], eargv[..], args)
    requires forall i :: 0 <= i < |args| ==> args[i].eq < b.Length
    modifies b
    ensures b[..] == Punched(old(b[..]), Ends(Exec(args)))
  {
    var i := 0;
    while argv[i] != Null
      invariant i <= |args|
      invariant b[..] == Punched(old(b[..]), Ends(Exec(args[..i])))
      decreases |args| - i
    {
      b[eargv[i].pos] := NUL;
      assert Ends(Exec(args[..i + 1])) == Ends(Exec(args[..i])) + {args[i].eq};
      i := i + 1;
    }
    assert args[..i] == args;
  }

  /** Writes a NUL at the end of every word of the tree, and nowhere else. */
  method Nulterminate(c: CmdPtr, b: array<char>, ghost v: Cmd<Span>)
    requires Rep(c, v) && forall e :: e in Ends(v) ==> e < b.Length
    modifies b
    ensures b[..] == Punched(old(b[..]), Ends(v))
    decreases c
  {
    match c
    case ExecPtr(argv, eargv) =>
      EndsOfArgs(v.args);
      NulterminateExec(argv, eargv, b, v.args);
    case RedirPtr(d, _, efile, _, _) =>
      assert Ends(v.cmd) <= Ends(v) && efile in Ends(v);
      Nulterminate(d, b, v.cmd);
      b[efile] := NUL;
    case PipePtr(l, r) =>
      assert Ends(v.left) <= Ends(v) && Ends(v.right) <= Ends(v) && allocated(Arrays(r));
      Nulterminate(l, b, v.left);
      Nulterminate(r, b, v.right);
    case ListPtr(l, r) =>
      assert Ends(v.left) <= Ends(v) && Ends(v.right) <= Ends(v) && allocated(Arrays(r));
      Nulterminate(l, b, v.left);
      Nulterminate(r, b, v.right);
    case BackPtr(d) =>
      Nulterminate(d, b, v.cmd);
  }

  lemma EndsOfArgs(args: seq<Span>)
    ensures forall i :: 0 <= i < |args| ==> args[i].eq in Ends(Exec(args))
  {
  }

  // ---------- what the shell reads ----------

  /** The words argv points to, up to its first null. */
  function ArgsSeen(argv: seq<Ptr>, b: string): seq<string> {
    if argv == [] || argv[0] == Null then [] else [CString(b, argv[0].pos)] + ArgsSeen(argv[1..], b)
  }

  /** The command at c as runcmd finds it: C strings in the buffer, and descriptors. */
  ghost function Seen(c: CmdPtr, b: string): Cmd<string>
    reads Arrays(c)
  {
    match c
    case ExecPtr(argv, _) => Exec(ArgsSeen(argv[..], b))
    case RedirPtr(d, file, _, _, fd) => Redir(Seen(d, b), CString(b, file), if fd == 0 then Input else Output)
    case PipePtr(l, r) => Pipe(Seen(l, b), Seen(r, b))
    case ListPtr(l, r) => List(Seen(l, b), Seen(r, b))
    case BackPtr(d) => Back(Seen(d, b))
  }

  /** Descriptor 0 is opened for reading, and 1 for writing; there are no others. */
  predicate Openable(c: CmdPtr) {
    match c
    case ExecPtr(_, _) => true
    case RedirPtr(d, _, _, mode, fd) =>
      Openable(d) && ((mode == O_RDONLY && fd == 0) || (mode == O_WRONLY_O_CREAT && fd == 1))
    case PipePtr(l, r) => Openable(l) && Openable(r)
    case ListPtr(l, r) => Openable(l) && Openable(r)
    case BackPtr(d) => Openable(d)
  }

  lemma {:induction false} ArgsSeenAre(argv: seq<Ptr>, args: seq<Span>, b: string)
    requires |args| < |argv| && argv[|args|] == Null
    requires forall i :: 0 <= i < |args| ==> argv[i] == At(args[i].q)
    ensures ArgsSeen(argv, b) == ReadAll(args, CStringIn(b))
    decreases |args|
  {
    if args != [] {
      ArgsSeenAre(argv[1..], args[1..], b);
      assert ReadAll(args, CStringIn(b)) == [CString(b, args[0].q)] + ReadAll(args[1..], CStringIn(b));
    }
  }

  lemma {:induction false} SeenIs(c: CmdPtr, v: Cmd<Span>, b: string)
    requires Rep(c, v)
    ensures Seen(c, b) == Read(v, CStringIn(b)) && Openable(c)
    decreases c
  {
    match c
    case ExecPtr(argv, _) => ArgsSeenAre(argv[..], v.args, b);
    case RedirPtr(d, _, _, _, _) => SeenIs(d, v.cmd, b);
    case PipePtr(l, r) => SeenIs(l, v.left, b); SeenIs(r, v.right, b);
    case ListPtr(l, r) => SeenIs(l, v.left, b); SeenIs(r, v.right, b);
    case BackPtr(d) => SeenIs(d, v.cmd, b);
  }

  // ---------- parsecmd ----------

  /** strlen */
  method StrLen(b: array<char>) returns (n: nat)
    requires NUL in b[..]
    ensures n < b.Length && b[n] == NUL && forall i :: 0 <= i < n ==> b[i] != NUL
  {
    n := 0;
    while b[n] != NUL
      invariant n < b.Length && forall i :: 0 <= i < n ==> b[i] != NUL
      decreases b.Length - n
    {
      n := n + 1;
    }
  }

  lemma {:induction false} CStringIsPrefix(b: string, i: nat, n: nat)
    requires i <= n < |b| && b[n] == NUL && forall k :: i <= k < n ==> b[k] != NUL
    ensures CString(b, i) == b[i..n]
    decreases n - i
  {
    if i < n { CStringIsPrefix(b, i + 1, n); }
  }

  /** The whole parser, on the C string in b: it fails with the parser function's panic and leaves
      the buffer alone, or returns that function's tree, whose words can now be read as C strings. */
  method ParseCmd(b: array<char>) returns (r: Outcome, ghost v: Cmd<Span>)
    requires NUL in b[..]
    modifies b
    ensures match ShGrammar.ParseCmd(Lex(CString(old(b[..]), 0)), MAXARGS)
            case Panic(why) => r == Failed(why) && b[..] == old(b[..])
            case Ok(c, _) =>
              && r.Done? && Seen(r.cmd, b[..]) == c && Openable(r.cmd)
              && Rep(r.cmd, v) && Read(v, CStringIn(b[..])) == c
              && b[..] == Punched(old(b[..]), Ends(v))
              && forall e :: e in Ends(v) ==> e <= |CString(old(b[..]), 0)|
  {
    hide Lex, Read, Rep, InText, Seen, ShGrammar.ParseLine;
    var es := StrLen(b);
    ghost var t := b[..es];
    CStringIsPrefix(b[..], 0, es);
    var p := new Parser(b, es);
    r, v := p.ParseLine();
    if r.Failed? { return; }
    assert allocated(Arrays(r.cmd));
    var _ := p.Peek("");
    if p.s != es { return Failed(Leftovers), v; }
    NulterminateKeepsWords(v, t, b[..]);
    Nulterminate(r.cmd, b, v);
    SeenIs(r.cmd, v, b[..]);
  }
}
