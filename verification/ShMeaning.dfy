/** What shellproj/sh.c's parser makes of an input, said without the parser's own decisions: the
    redirections and arguments of the tree, the panic raised, and the tokens of a text. */
module ShMeaning {
  import opened ShGrammar
  import opened ShGrammarProofs
  import opened ShLexer

  // ---------- redirections and arguments ----------

  /** A redirection as it is written: is it an input, and from or to which file. */
  datatype Io<+W> = Io(input: bool, file: W)

  predicate Operator<W>(t: Token<W>) {
    t.Sym? && (t.c == '<' || t.c == '>' || t.c == '+')
  }

  /** The redirections of an input: `<` reads, `>` and `>>` write. */
  function Written<W>(ts: seq<Token<W>>): seq<Io<W>> {
    if ts == [] then []
    else if Operator(ts[0]) && |ts| > 1 && ts[1].Word? then [Io(ts[0].c == '<', ts[1].w)] + Written(ts[2..])
    else Written(ts[1..])
  }

  /** Its words that are no file of a redirection. */
  function Spoken<W>(ts: seq<Token<W>>): seq<W> {
    if ts == [] then []
    else if Operator(ts[0]) && |ts| > 1 && ts[1].Word? then Spoken(ts[2..])
    else (if ts[0].Word? then [ts[0].w] else []) + Spoken(ts[1..])
  }

  /** The redirections of a tree, inner ones and left ones first. */
  function Applied<W>(c: Cmd<W>): seq<Io<W>> {
    match c
    case Exec(_) => []
    case Redir(d, file, mode) => Applied(d) + [Io(mode == Input, file)]
    case Pipe(l, r) => Applied(l) + Applied(r)
    case List(l, r) => Applied(l) + Applied(r)
    case Back(d) => Applied(d)
  }

  function Arguments<W>(c: Cmd<W>): seq<W> {
    match c
    case Exec(args) => args
    case Redir(d, _, _) => Arguments(d)
    case Pipe(l, r) => Arguments(l) + Arguments(r)
    case List(l, r) => Arguments(l) + Arguments(r)
    case Back(d) => Arguments(d)
  }

  /** Nothing is lost between the input ts, and the tree c with us still to be read. */
  ghost predicate Kept<W>(c: Cmd<W>, us: seq<Token<W>>, ios: seq<Io<W>>, args: seq<W>) {
    Applied(c) + Written(us) == ios && Arguments(c) + Spoken(us) == args
  }

  lemma {:induction false} RedirsKept<W>(c: Cmd<W>, ts: seq<Token<W>>)
    requires Redirs(c, ts).Ok?
    ensures Kept(Redirs(c, ts).cmd, Redirs(c, ts).rest, Applied(c) + Written(ts), Arguments(c) + Spoken(ts))
    decreases |ts|
  {
    if StartsRedir(ts) {
      RedirsKept(Redir(c, ts[1].w, ModeOf(ts[0].c)), ts[2..]);
    }
  }

  lemma {:induction false} WithArgsKept<W>(c: Cmd<W>, args: seq<W>)
    requires Simple(c)
    ensures Applied(WithArgs(c, args)) == Applied(c) && Arguments(WithArgs(c, args)) == args && Arguments(c) == Args(c)
    decreases c
  {
    if c.Redir? { WithArgsKept(c.cmd, args); }
  }

  lemma {:induction false} WordsKept<W>(c: Cmd<W>, ts: seq<Token<W>>, max: Limit)
    requires Simple(c) && Words(c, ts, max).Ok?
    ensures Kept(Words(c, ts, max).cmd, Words(c, ts, max).rest, Applied(c) + Written(ts), Arguments(c) + Spoken(ts))
    decreases |ts|
  {
    hide Redirs, WithArgs, AddArg, Args;
    RedirsSimple(c, ts);
    RedirsKept(c, ts);
    var d, us := Redirs(c, ts).cmd, Redirs(c, ts).rest;
    if !StopsExec(us) {
      WordKept(d, us);
      WordsKept(AddArg(d, us[0].w), us[1..], max);
    }
  }

  lemma WordKept<W>(d: Cmd<W>, us: seq<Token<W>>)
    requires Simple(d) && us != [] && us[0].Word?
    ensures Kept(AddArg(d, us[0].w), us[1..], Applied(d) + Written(us), Arguments(d) + Spoken(us))
  {
    hide Applied, Arguments, Args, WithArgs, Written, Spoken;
    var w := us[0].w;
    WithArgsKept(d, Args(d) + [w]);
    WordAhead(us);
    assert (Args(d) + [w]) + Spoken(us[1..]) == Args(d) + ([w] + Spoken(us[1..]));
  }

  lemma WordAhead<W>(us: seq<Token<W>>)
    requires us != [] && us[0].Word?
    ensures Written(us) == Written(us[1..]) && Spoken(us) == [us[0].w] + Spoken(us[1..])
  {
  }

  lemma Symbol<W>(ts: seq<Token<W>>)
    requires ts != [] && ts[0].Sym? && !Operator(ts[0])
    ensures Written(ts) == Written(ts[1..]) && Spoken(ts) == Spoken(ts[1..])
  {
  }

  lemma {:induction false} ExecKept<W>(ts: seq<Token<W>>, max: Limit)
    requires ParseExec(ts, max).Ok?
    ensures Kept(ParseExec(ts, max).cmd, ParseExec(ts, max).rest, Written(ts), Spoken(ts))
    decreases |ts|, 0
  {
    hide ParseLine, Words, Redirs, Written, Spoken, Applied, Arguments;
    if Starts(ts, '(') {
      LineKept(ts[1..], max);
      var c, us := ParseLine(ts[1..], max).cmd, ParseLine(ts[1..], max).rest;
      Symbol(ts);
      Symbol(us);
      RedirsKept(c, us[1..]);
    } else {
      NothingYet<W>();
      WordsKept(Exec([]), ts, max);
    }
  }

  lemma NothingYet<W>()
    ensures var c: Cmd<W> := Exec([]); Applied(c) == [] && Arguments(c) == []
  {
  }

  lemma TwoKept<W>(c: Cmd<W>, d: Cmd<W>, us: seq<Token<W>>, vs: seq<Token<W>>, ios: seq<Io<W>>, args: seq<W>)
    requires Kept(c, us, ios, args) && Kept(d, vs, Written(us), Spoken(us))
    ensures Kept(Pipe(c, d), vs, ios, args) && Kept(List(c, d), vs, ios, args)
  {
  }

  lemma {:induction false} PipeKept<W>(ts: seq<Token<W>>, max: Limit)
    requires ParsePipe(ts, max).Ok?
    ensures Kept(ParsePipe(ts, max).cmd, ParsePipe(ts, max).rest, Written(ts), Spoken(ts))
    decreases |ts|, 1
  {
    hide ParseExec, Written, Spoken, Applied, Arguments;
    ExecKept(ts, max);
    var c, us := ParseExec(ts, max).cmd, ParseExec(ts, max).rest;
    if Starts(us, '|') {
      PipeKept(us[1..], max);
      Symbol(us);
      TwoKept(c, ParsePipe(us[1..], max).cmd, us, ParsePipe(us[1..], max).rest, Written(ts), Spoken(ts));
    }
  }

  lemma {:induction false} BacksKept<W>(c: Cmd<W>, ts: seq<Token<W>>)
    ensures Kept(Backs(c, ts).cmd, Backs(c, ts).rest, Applied(c) + Written(ts), Arguments(c) + Spoken(ts))
    decreases |ts|
  {
    if Starts(ts, '&') {
      Symbol(ts);
      BacksKept(Back(c), ts[1..]);
    }
  }

  lemma {:induction false} LineKept<W>(ts: seq<Token<W>>, max: Limit)
    requires ParseLine(ts, max).Ok?
    ensures Kept(ParseLine(ts, max).cmd, ParseLine(ts, max).rest, Written(ts), Spoken(ts))
    decreases |ts|, 2
  {
    hide ParsePipe, Backs, Written, Spoken, Applied, Arguments;
    PipeKept(ts, max);
    BacksKept(ParsePipe(ts, max).cmd, ParsePipe(ts, max).rest);
    var b := Backs(ParsePipe(ts, max).cmd, ParsePipe(ts, max).rest);
    if Starts(b.rest, ';') {
      var us := b.rest;
      LineKept(us[1..], max);
      Symbol(us);
      TwoKept(b.cmd, ParseLine(us[1..], max).cmd, us, ParseLine(us[1..], max).rest, Written(ts), Spoken(ts));
    }
  }

  /** The tree has exactly the redirections of its input, each with its file and its direction, and
      exactly its other words, all in the order they are written. */
  lemma TreeSaysInput<W>(ts: seq<Token<W>>, c: Cmd<W>, max: Limit)
    requires ParseCmd(ts, max) == Ok(c, [])
    ensures Applied(c) == Written(ts) && Arguments(c) == Spoken(ts)
  {
    hide ParseLine;
    LineKept(ts, max);
    assert Applied(c) + [] == Applied(c) && Arguments(c) + [] == Arguments(c);
  }

  // ---------- >> is read as > ----------

  function Single<W>(t: Token<W>): Token<W> {
    if t == Sym('+') then Sym('>') else t
  }

  /** The input with > written for every >>. */
  function Singles<W>(ts: seq<Token<W>>): (us: seq<Token<W>>)
    ensures |us| == |ts| && forall i :: 0 <= i < |us| ==> us[i] == Single(ts[i])
  {
    seq(|ts|, i requires 0 <= i < |ts| => Single(ts[i]))
  }

  /** The same answer, with the rest written so too. */
  function SinglesLeft<W>(r: Result<W>): Result<W> {
    if r.Ok? then Ok(r.cmd, Singles(r.rest)) else r
  }

  lemma SinglesTail<W>(ts: seq<Token<W>>, k: nat)
    requires k <= |ts|
    ensures Singles(ts[k..]) == Singles(ts)[k..]
  {
  }

  lemma {:induction false} RedirsSingle<W>(c: Cmd<W>, ts: seq<Token<W>>)
    ensures Redirs(c, Singles(ts)) == SinglesLeft(Redirs(c, ts))
    decreases |ts|
  {
    if StartsRedir(ts) && |ts| >= 2 && ts[1].Word? {
      SinglesTail(ts, 2);
      RedirsSingle(Redir(c, ts[1].w, ModeOf(ts[0].c)), ts[2..]);
    }
  }

  lemma {:induction false} WordsSingle<W>(c: Cmd<W>, ts: seq<Token<W>>, max: Limit)
    requires Simple(c)
    ensures Words(c, Singles(ts), max) == SinglesLeft(Words(c, ts, max))
    decreases |ts|
  {
    hide Redirs, AddArg, WithArgs;
    RedirsSimple(c, ts);
    RedirsSingle(c, ts);
    if Redirs(c, ts).Ok? {
      var d, us := Redirs(c, ts).cmd, Redirs(c, ts).rest;
      if !StopsExec(us) && us[0].Word? {
        SinglesTail(us, 1);
        WordsSingle(AddArg(d, us[0].w), us[1..], max);
      }
    }
  }

  lemma {:induction false} ExecSingle<W>(ts: seq<Token<W>>, max: Limit)
    ensures ParseExec(Singles(ts), max) == SinglesLeft(ParseExec(ts, max))
    decreases |ts|, 0
  {
    hide ParseLine, Words, Redirs;
    if Starts(ts, '(') {
      SinglesTail(ts, 1);
      LineSingle(ts[1..], max);
      var r := ParseLine(ts[1..], max);
      if r.Ok? && Starts(r.rest, ')') {
        SinglesTail(r.rest, 1);
        RedirsSingle(r.cmd, r.rest[1..]);
      }
    } else {
      WordsSingle(Exec([]), ts, max);
    }
  }

  lemma {:induction false} PipeSingle<W>(ts: seq<Token<W>>, max: Limit)
    ensures ParsePipe(Singles(ts), max) == SinglesLeft(ParsePipe(ts, max))
    decreases |ts|, 1
  {
    hide ParseExec;
    ExecSingle(ts, max);
    var r := ParseExec(ts, max);
    if r.Ok? && Starts(r.rest, '|') {
      SinglesTail(r.rest, 1);
      PipeSingle(r.rest[1..], max);
    }
  }

  lemma {:induction false} BacksSingle<W>(c: Cmd<W>, ts: seq<Token<W>>)
    ensures Backs(c, Singles(ts)) == SinglesLeft(Backs(c, ts))
    decreases |ts|
  {
    if Starts(ts, '&') {
      SinglesTail(ts, 1);
      BacksSingle(Back(c), ts[1..]);
    }
  }

  lemma {:induction false} LineSingle<W>(ts: seq<Token<W>>, max: Limit)
    ensures ParseLine(Singles(ts), max) == SinglesLeft(ParseLine(ts, max))
    decreases |ts|, 2
  {
    hide ParsePipe, Backs;
    PipeSingle(ts, max);
    var r := ParsePipe(ts, max);
    if r.Ok? {
      BacksSingle(r.cmd, r.rest);
      var b := Backs(r.cmd, r.rest);
      if Starts(b.rest, ';') {
        SinglesTail(b.rest, 1);
        LineSingle(b.rest[1..], max);
      }
    }
  }

  /** An input with >> for some > is accepted, and refused, with the same tree or panic. */
  lemma AppendIsOutput<W>(ts: seq<Token<W>>, max: Limit)
    ensures ParseCmd(Singles(ts), max) == ParseCmd(ts, max)
  {
    hide ParseLine;
    LineSingle(ts, max);
  }

  // ---------- which panic ----------

  /** What a command goes on with, or ends at. */
  predicate Expected<W>(t: Token<W>) {
    t.Word? || Operator(t) || t.c == '|' || t.c == ')' || t.c == '&' || t.c == ';'
  }

  /** A redirection operator without a word after it; a parenthesis after a word, or a token that is
      none of the language. */
  ghost predicate Blamed<W>(why: Why, ts: seq<Token<W>>) {
    && (why == MissingFile ==>
          exists i :: 0 <= i < |ts| && Operator(ts[i]) && (i + 1 == |ts| || !ts[i + 1].Word?))
    && (why == Syntax ==>
          exists i :: 0 <= i < |ts| && !Expected(ts[i]) && (ts[i] == Sym('(') ==> i > 0 && ts[i - 1].Word?))
  }

  lemma BlamedLater<W>(why: Why, ts: seq<Token<W>>, k: nat)
    requires k <= |ts| && Blamed(why, ts[k..])
    ensures Blamed(why, ts)
  {
    var us := ts[k..];
    if why == MissingFile {
      var i :| 0 <= i < |us| && Operator(us[i]) && (i + 1 == |us| || !us[i + 1].Word?);
      assert ts[k + i] == us[i] && (i + 1 < |us| ==> ts[k + i + 1] == us[i + 1]);
    }
    if why == Syntax {
      var i :| 0 <= i < |us| && !Expected(us[i]) && (us[i] == Sym('(') ==> i > 0 && us[i - 1].Word?);
      assert ts[k + i] == us[i] && (i > 0 ==> ts[k + i - 1] == us[i - 1]);
    }
  }

  /** Where the redirections end, a word came just before, or nothing was read. */
  lemma {:induction false} RedirsBlame<W>(c: Cmd<W>, ts: seq<Token<W>>)
    ensures Redirs(c, ts).Panic? ==> Redirs(c, ts).why == MissingFile && Blamed(MissingFile, ts)
    ensures Redirs(c, ts).Ok? ==>
              var us := Redirs(c, ts).rest;
              us == ts[|ts| - |us|..] && !StartsRedir(us) && (us == ts || (|us| < |ts| && ts[|ts| - |us| - 1].Word?))
    decreases |ts|
  {
    if StartsRedir(ts) && |ts| >= 2 && ts[1].Word? {
      RedirsBlame(Redir(c, ts[1].w, ModeOf(ts[0].c)), ts[2..]);
      if Redirs(c, ts).Panic? { BlamedLater(MissingFile, ts, 2); }
    } else if StartsRedir(ts) {
      assert Operator(ts[0]);
    }
  }

  lemma {:induction false} WordsBlame<W>(pre: seq<Token<W>>, c: Cmd<W>, ts: seq<Token<W>>, max: Limit)
    requires Simple(c) && (if pre == [] then !Starts(ts, '(') else pre[|pre| - 1].Word?)
    ensures Words(c, ts, max).Panic? ==>
              Words(c, ts, max).why in {MissingFile, Syntax, TooManyArgs} && Blamed(Words(c, ts, max).why, pre + ts)
    decreases |ts|
  {
    hide Redirs, AddArg, WithArgs, Blamed;
    RedirsSimple(c, ts);
    RedirsBlame(c, ts);
    if Redirs(c, ts).Panic? {
      assert (pre + ts)[|pre|..] == ts;
      BlamedLater(MissingFile, pre + ts, |pre|);
    } else {
      var d, us := Redirs(c, ts).cmd, Redirs(c, ts).rest;
      var k := |ts| - |us|;
      if !StopsExec(us) && !us[0].Word? {
        ParenBlame(pre, ts, k);
      } else if !StopsExec(us) && |Args(d)| + 1 < max {
        assert pre + ts == (pre + ts[..k] + [us[0]]) + us[1..];
        WordsBlame(pre + ts[..k] + [us[0]], AddArg(d, us[0].w), us[1..], max);
      } else {
        NoBlame(pre + ts);
      }
    }
  }

  lemma NoBlame<W>(ts: seq<Token<W>>)
    ensures Blamed(TooManyArgs, ts) && Blamed(MissingParen, ts) && Blamed(Leftovers, ts)
  {
  }

  lemma ParenBlame<W>(pre: seq<Token<W>>, ts: seq<Token<W>>, k: nat)
    requires k < |ts| && !Expected(ts[k]) && (k > 0 ==> ts[k - 1].Word?)
    requires if pre == [] then !Starts(ts, '(') else pre[|pre| - 1].Word?
    ensures Blamed(Syntax, pre + ts)
  {
    var whole, i := pre + ts, |pre| + k;
    assert whole[i] == ts[k] && (i > 0 ==> whole[i - 1] == if k > 0 then ts[k - 1] else pre[|pre| - 1]);
  }

  /** The rest is a tail of the input. */
  lemma {:induction false} WordsTail<W>(c: Cmd<W>, ts: seq<Token<W>>, max: Limit)
    requires Simple(c) && Words(c, ts, max).Ok?
    ensures Words(c, ts, max).rest == ts[|ts| - |Words(c, ts, max).rest|..]
    decreases |ts|
  {
    hide AddArg, WithArgs, Redirs;
    RedirsSimple(c, ts);
    RedirsBlame(c, ts);
    var d, us := Redirs(c, ts).cmd, Redirs(c, ts).rest;
    if !StopsExec(us) { WordsTail(AddArg(d, us[0].w), us[1..], max); }
  }

  /** A panic is blamed on its cause; otherwise the rest is a tail of the input. */
  ghost predicate Explained<W>(r: Result<W>, ts: seq<Token<W>>) {
    match r
    case Panic(why) => Blamed(why, ts)
    case Ok(_, us) => |us| <= |ts| && us == ts[|ts| - |us|..]
  }

  lemma Explains<W>(r: Result<W>, ts: seq<Token<W>>, k: nat)
    requires k <= |ts| && Explained(r, ts[k..])
    ensures Explained(r, ts)
  {
    if r.Panic? { BlamedLater(r.why, ts, k); }
  }

  lemma {:induction false} ExecExplained<W>(ts: seq<Token<W>>, max: Limit)
    ensures Explained(ParseExec(ts, max), ts)
    decreases |ts|, 0
  {
    hide ParseLine, Words, Redirs, Blamed;
    NoBlame(ts);
    if Starts(ts, '(') {
      LineExplained(ts[1..], max);
      BlockExplained(ts, max);
    } else {
      WordsBlame([], Exec([]), ts, max);
      assert [] + ts == ts;
      if Words(Exec([]), ts, max).Ok? { WordsTail(Exec([]), ts, max); }
    }
  }

  lemma BlockExplained<W>(ts: seq<Token<W>>, max: Limit)
    requires Starts(ts, '(') && Explained(ParseLine(ts[1..], max), ts[1..])
    ensures Explained(ParseExec(ts, max), ts)
  {
    hide ParseLine, Redirs, Blamed;
    NoBlame(ts);
    var r := ParseLine(ts[1..], max);
    if r.Ok? && Starts(r.rest, ')') {
      var k := |ts| - |r.rest| + 1;
      assert r.rest[1..] == ts[k..];
      RedirsExplained(r.cmd, ts[k..]);
      hide Explained;
      Explains(Redirs(r.cmd, ts[k..]), ts, k);
    } else if r.Panic? {
      Explains(r, ts, 1);
    }
  }

  lemma RedirsExplained<W>(c: Cmd<W>, ts: seq<Token<W>>)
    ensures Explained(Redirs(c, ts), ts)
  {
    hide Blamed;
    RedirsBlame(c, ts);
  }

  lemma {:induction false} PipeExplained<W>(ts: seq<Token<W>>, max: Limit)
    ensures Explained(ParsePipe(ts, max), ts)
    decreases |ts|, 1
  {
    hide ParseExec, Blamed;
    ExecExplained(ts, max);
    var r := ParseExec(ts, max);
    if r.Ok? && Starts(r.rest, '|') {
      PipeExplained(r.rest[1..], max);
      Explains(ParsePipe(r.rest[1..], max), ts, |ts| - |r.rest| + 1);
    }
  }

  lemma {:induction false} BacksTail<W>(c: Cmd<W>, ts: seq<Token<W>>)
    ensures Explained(Backs(c, ts), ts)
    decreases |ts|
  {
    if Starts(ts, '&') {
      BacksTail(Back(c), ts[1..]);
      Explains(Backs(Back(c), ts[1..]), ts, 1);
    }
  }

  lemma {:induction false} LineExplained<W>(ts: seq<Token<W>>, max: Limit)
    ensures Explained(ParseLine(ts, max), ts)
    decreases |ts|, 2
  {
    hide ParsePipe, Backs, Blamed;
    PipeExplained(ts, max);
    var r := ParsePipe(ts, max);
    if r.Ok? {
      BacksTail(r.cmd, r.rest);
      var b := Backs(r.cmd, r.rest);
      Explains(b, ts, |ts| - |r.rest|);
      if Starts(b.rest, ';') {
        LineExplained(b.rest[1..], max);
        Explains(ParseLine(b.rest[1..], max), ts, |ts| - |b.rest| + 1);
      }
    }
  }

  /** "missing file" means an operator without a word after it, "syntax" a parenthesis after a word
      or a token that is none of the language. */
  lemma PanicsBlameTheirCause<W>(ts: seq<Token<W>>, max: Limit)
    ensures ParseCmd(ts, max).Panic? ==> Blamed(ParseCmd(ts, max).why, ts)
  {
    hide ParseLine, Blamed;
    LineExplained(ts, max);
    NoBlame(ts);
  }

  /** A line opened with a parenthesis and not closed. */
  lemma OpenedOnly<W>(ts: seq<Token<W>>, c: Cmd<W>, max: Limit)
    requires ParseCmd(ts, max) == Ok(c, [])
    ensures ParseCmd([Sym('(')] + ts, max) == Panic(MissingParen)
  {
    hide ParseLine;
    var us := [Sym('(')] + ts;
    assert us[1..] == ts;
    UnclosedLine(us, c, max);
  }

  lemma UnclosedLine<W>(us: seq<Token<W>>, c: Cmd<W>, max: Limit)
    requires Starts(us, '(') && ParseLine(us[1..], max) == Ok(c, [])
    ensures ParseLine(us, max) == Panic(MissingParen)
  {
    assert ParseExec(us, max) == Panic(MissingParen);
    assert ParsePipe(us, max) == Panic(MissingParen);
  }

  /** A line closed with a parenthesis and not opened. */
  lemma ClosedOnly<W(!new)>(ts: seq<Token<W>>, c: Cmd<W>, more: seq<Token<W>>, max: Limit)
    requires ParseCmd(ts, max) == Ok(c, [])
    ensures ParseCmd(ts + [Sym(')')] + more, max) == Panic(Leftovers)
  {
    hide ParseLine, GLine;
    ParserDecidesGrammar(ts, c, max);
    LineComplete(ts, c, [Sym(')')] + more, max);
    assert ts + ([Sym(')')] + more) == ts + [Sym(')')] + more;
  }

  // ---------- too many words ----------

  /** The limit only ever shows as that panic ... */
  ghost predicate SameUnlessFull<W>(r: Result<W>, big: Result<W>) {
    r != Panic(TooManyArgs) ==> big == r
  }

  lemma {:induction false} WordsLimit<W>(c: Cmd<W>, ts: seq<Token<W>>, max: Limit, big: Limit)
    requires Simple(c) && max <= big
    ensures SameUnlessFull(Words(c, ts, max), Words(c, ts, big))
    ensures |Args(c)| + |ts| < big ==> Words(c, ts, big) != Panic(TooManyArgs)
    decreases |ts|
  {
    hide Redirs, WithArgs;
    RedirsSimple(c, ts);
    RedirsBlame(c, ts);
    if Redirs(c, ts).Ok? {
      var d, us := Redirs(c, ts).cmd, Redirs(c, ts).rest;
      if !StopsExec(us) && us[0].Word? { WordsLimit(AddArg(d, us[0].w), us[1..], max, big); }
    }
  }

  lemma RedirsPanic<W>(c: Cmd<W>, ts: seq<Token<W>>)
    ensures Redirs(c, ts) != Panic(TooManyArgs)
  {
    RedirsBlame(c, ts);
  }

  lemma {:induction false} ExecLimit<W>(ts: seq<Token<W>>, max: Limit, big: Limit)
    requires max <= big
    ensures SameUnlessFull(ParseExec(ts, max), ParseExec(ts, big))
    ensures |ts| < big ==> ParseExec(ts, big) != Panic(TooManyArgs)
    decreases |ts|, 0
  {
    hide ParseLine, Words, Redirs;
    if Starts(ts, '(') {
      LineLimit(ts[1..], max, big);
      if ParseLine(ts[1..], big).Ok? && Starts(ParseLine(ts[1..], big).rest, ')') {
        RedirsPanic(ParseLine(ts[1..], big).cmd, ParseLine(ts[1..], big).rest[1..]);
      }
    } else {
      WordsLimit(Exec([]), ts, max, big);
    }
  }

  lemma {:induction false} PipeLimit<W>(ts: seq<Token<W>>, max: Limit, big: Limit)
    requires max <= big
    ensures SameUnlessFull(ParsePipe(ts, max), ParsePipe(ts, big))
    ensures |ts| < big ==> ParsePipe(ts, big) != Panic(TooManyArgs)
    decreases |ts|, 1
  {
    hide ParseExec;
    ExecLimit(ts, max, big);
    var r := ParseExec(ts, big);
    if r.Ok? && Starts(r.rest, '|') { PipeLimit(r.rest[1..], max, big); }
  }

  lemma {:induction false} LineLimit<W>(ts: seq<Token<W>>, max: Limit, big: Limit)
    requires max <= big
    ensures SameUnlessFull(ParseLine(ts, max), ParseLine(ts, big))
    ensures |ts| < big ==> ParseLine(ts, big) != Panic(TooManyArgs)
    decreases |ts|, 2
  {
    hide ParsePipe, Backs;
    PipeLimit(ts, max, big);
    var r := ParsePipe(ts, big);
    if r.Ok? && Starts(Backs(r.cmd, r.rest).rest, ';') { LineLimit(Backs(r.cmd, r.rest).rest[1..], max, big); }
  }

  /** ... and that panic means nothing but the limit: it is raised exactly where an argv as long as the
      input would have given another answer, a tree or a panic. */
  lemma TooManyArgsIsTheLimit<W>(ts: seq<Token<W>>, max: Limit)
    ensures ParseCmd(ts, max) == Panic(TooManyArgs) <==> ParseCmd(ts, max) != ParseCmd(ts, max + |ts|)
  {
    hide ParseLine;
    LineLimit(ts, max, max + |ts|);
  }

  /** The source's argv takes nine words. */
  lemma NineWords<W(!new)>(args: seq<W>)
    ensures |args| <= 9 ==> ParseCmd(PrintWords(args), MAXARGS) == Ok(Exec(args), [])
    ensures |args| >= 10 ==> ParseCmd(PrintWords(args), MAXARGS) == Panic(TooManyArgs)
  {
    hide ParseCmd;
    assert Print(Exec(args), 3) == PrintWords(args);
    ParsePrinted(Exec(args), MAXARGS);
    ParsePrinted(Exec(args), MAXARGS + |args|);
    TooManyArgsIsTheLimit(PrintWords(args), MAXARGS);
  }

  // ---------- the tokens of a text ----------

  /** A character that a word can have: none of the source's white space and symbols, nor NUL. */
  predicate Plain(c: char) {
    c !in {'\0', ' ', '\t', '\r', '\n', '\U{00000B}', '<', '|', '>', '&', ';', '(', ')'}
  }

  /** Two texts that share no token: the cut goes neither through a word nor through a >>. */
  predicate Apart(a: string, b: string) {
    a != [] && b != [] ==>
      && !(Plain(a[|a| - 1]) && Plain(b[0]))
      && !(a[|a| - 1] == '>' && b[0] == '>')
  }

  lemma PlainIsWordChar(c: char)
    ensures Plain(c) <==> IsWordChar(c)
  {
  }

  lemma {:induction false} WordLengthCut(a: string, b: string)
    requires a != [] && Apart(a, b)
    ensures WordLength(a + b) == WordLength(a)
    decreases |a|
  {
    PlainIsWordChar(a[0]);
    assert (a + b)[1..] == a[1..] + b;
    if IsWordChar(a[0]) {
      if |a| == 1 {
        assert a[1..] == [] && a[1..] + b == b;
        if b != [] { PlainIsWordChar(b[0]); }
      } else {
        WordLengthCut(a[1..], b);
      }
    }
  }

  /** Texts apart have their tokens one after the other. */
  lemma {:induction false} LexCut(a: string, b: string)
    requires Apart(a, b) && '\0' !in a
    ensures Lex(a + b) == Lex(a) + Lex(b)
    decreases |a|
  {
    hide Lex, Plain;
    if a == [] {
      NoTokens();
      assert a + b == b;
    } else {
      var k, ts := FirstPiece(a, b);
      assert (a + b)[k..] == a[k..] + b;
      LexCut(a[k..], b);
    }
  }

  lemma NoTokens()
    ensures Lex([]) == []
  {
  }

  lemma FirstPiece(a: string, b: string) returns (k: nat, ts: seq<Token<string>>)
    requires a != [] && Apart(a, b) && '\0' !in a
    ensures 0 < k <= |a| && Lex(a) == ts + Lex(a[k..]) && Lex(a + b) == ts + Lex((a + b)[k..])
  {
    var s := a + b;
    WordLengthCut(a, b);
    hide WordLength;
    if IsWordChar(a[0]) {
      k := WordLength(a);
      ts := [Word(a[..k])];
      WordFirst(a);
      assert s[..k] == a[..k];
    } else {
      k := if a[0] == '>' && |a| > 1 && a[1] == '>' then 2 else 1;
      ts := if k == 2 then [Sym('+')] else if IsSpace(a[0]) then [] else [Sym(a[0])];
      assert |a| > 1 ==> s[1] == a[1];
    }
  }

  lemma WordFirst(s: string)
    requires s != [] && IsWordChar(s[0])
    ensures 0 < WordLength(s) <= |s|
  {
  }

  /** Each character by itself, and a run of plain ones, and >>. */
  lemma LexPieces(c: char, w: string)
    ensures c in {'\0', ' ', '\t', '\r', '\n', '\U{00000B}'} ==> Lex([c]) == []
    ensures c in {'<', '|', '>', '&', ';', '(', ')'} ==> Lex([c]) == [Sym(c)]
    ensures w != [] && (forall i :: 0 <= i < |w| ==> Plain(w[i])) ==> Lex(w) == [Word(w)]
    ensures Lex(">>") == [Sym('+')]
  {
    assert [c][1..] == [];
    assert ">>"[2..] == [];
    if w != [] && forall i :: 0 <= i < |w| ==> Plain(w[i]) {
      forall i | 0 <= i < |w| ensures IsWordChar(w[i]) { PlainIsWordChar(w[i]); }
      WordLengthOfWord(w, []);
      assert w + [] == w && w[|w|..] == [] && w[..|w|] == w;
    }
  }

  /** A blank for each of the other separators. */
  function Blanked(s: string): (r: string)
    ensures |r| == |s|
    ensures forall i :: 0 <= i < |s| ==> r[i] == if s[i] in {'\t', '\r', '\n', '\U{00000B}'} then ' ' else s[i]
  {
    seq(|s|, i requires 0 <= i < |s| => if s[i] in {'\t', '\r', '\n', '\U{00000B}'} then ' ' else s[i])
  }

  lemma {:induction false} WordLengthBlanked(s: string)
    ensures WordLength(Blanked(s)) == WordLength(s)
    decreases |s|
  {
    if s != [] {
      assert Blanked(s)[1..] == Blanked(s[1..]);
      WordLengthBlanked(s[1..]);
    }
  }

  /** All separators are alike: a text has the tokens it has with blanks for all of them. */
  lemma {:induction false} SeparatorsAlike(s: string)
    ensures Lex(Blanked(s)) == Lex(s)
    decreases |s|
  {
    if s != [] && s[0] != '\0' {
      var n := WordLength(s);
      WordLengthBlanked(s);
      var k := if n > 0 then n else if s[0] == '>' && |s| > 1 && s[1] == '>' then 2 else 1;
      assert Blanked(s)[k..] == Blanked(s[k..]);
      assert Blanked(s)[..n] == s[..n];
      SeparatorsAlike(s[k..]);
    }
  }
}
