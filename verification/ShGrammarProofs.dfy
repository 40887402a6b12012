/** The parser of shellproj/sh.c decides its grammar: it accepts exactly the token
    sequences the grammar derives, and returns the only tree they have. */
module ShGrammarProofs {
  import opened ShGrammar

  // ---------- building derivations ----------

  lemma InParens<W(!new)>(line: seq<Token<W>>, c: Cmd<W>)
    requires GLine(line, c)
    ensures GBlock([Sym('(')] + line + [Sym(')')], c)
  {
    hide GLine;
    var ts := [Sym('(')] + line + [Sym(')')];
    assert ts[1..|ts| - 1] == line;
  }

  lemma Piped<W(!new)>(left: seq<Token<W>>, c: Cmd<W>, right: seq<Token<W>>, d: Cmd<W>)
    requires (GBlock(left, c) || GSimple(left, c)) && GPipe(right, d)
    ensures GPipe(left + [Sym('|')] + right, Pipe(c, d))
  {
    hide GBlock, GSimple;
    var ts := left + [Sym('|')] + right;
    assert ts[..|left|] == left && ts[|left|] == Sym('|') && ts[|left| + 1..] == right;
  }

  lemma Listed<W(!new)>(left: seq<Token<W>>, c: Cmd<W>, right: seq<Token<W>>, d: Cmd<W>)
    requires GBack(left, c) && GLine(right, d)
    ensures GLine(left + [Sym(';')] + right, List(c, d))
  {
    hide GBack;
    var ts := left + [Sym(';')] + right;
    assert ts[..|left|] == left && ts[|left|] == Sym(';') && ts[|left| + 1..] == right;
  }

  lemma BackOfPipe<W(!new)>(ts: seq<Token<W>>, c: Cmd<W>)
    requires GPipe(ts, c)
    ensures GBack(ts, c)
  {
  }

  lemma LineOfBack<W(!new)>(ts: seq<Token<W>>, c: Cmd<W>)
    requires GBack(ts, c)
    ensures GLine(ts, c)
  {
  }

  // ---------- every accepted input is derived ----------

  lemma {:induction false} RedirsSound<W(!new)>(pre: seq<Token<W>>, c: Cmd<W>, ts: seq<Token<W>>, max: Limit)
        returns (used: seq<Token<W>>)
    requires Redirs(c, ts).Ok?
    ensures ts == used + Redirs(c, ts).rest
    ensures GBlock(pre, c) ==> GBlock(pre + used, Redirs(c, ts).cmd)
    ensures GSimple(pre, c) ==> GSimple(pre + used, Redirs(c, ts).cmd)
    ensures ArgsFit(c, max) <==> ArgsFit(Redirs(c, ts).cmd, max)
    decreases |ts|
  {
    if StartsRedir(ts) {
      var pair := ts[..2];
      var d := Redir(c, ts[1].w, ModeOf(ts[0].c));
      assert (pre + pair)[..|pre + pair| - 2] == pre && (pre + pair)[|pre + pair| - 2..] == pair;
      var more := RedirsSound(pre + pair, d, ts[2..], max);
      used := pair + more;
      assert pre + pair + more == pre + used;
    } else {
      used := [];
      assert pre + used == pre;
    }
  }

  lemma {:induction false} WithArgsTwice<W>(c: Cmd<W>, a: seq<W>, b: seq<W>)
    requires Simple(c)
    ensures WithArgs(WithArgs(c, a), b) == WithArgs(c, b)
    ensures WithArgs(c, Args(c)) == c
    decreases c
  {
    if c.Redir? { WithArgsTwice(c.cmd, a, b); }
  }

  lemma {:induction false} SimpleFits<W>(c: Cmd<W>, max: Limit)
    requires Simple(c)
    ensures ArgsFit(c, max) <==> |Args(c)| < max
    decreases c
  {
    if c.Redir? { SimpleFits(c.cmd, max); }
  }

  lemma WordAdded<W(!new)>(pre: seq<Token<W>>, c: Cmd<W>, w: W, max: Limit)
    requires Simple(c) && GSimple(pre, c)
    ensures GSimple(pre + [Word(w)], AddArg(c, w))
    ensures ArgsFit(AddArg(c, w), max) <==> |Args(c)| + 1 < max
  {
    hide WithArgs;
    var ts, d := pre + [Word(w)], AddArg(c, w);
    assert ts[..|ts| - 1] == pre;
    assert Args(d)[..|Args(d)| - 1] == Args(c);
    WithArgsTwice(c, Args(d), Args(c));
    SimpleFits(d, max);
  }

  lemma {:induction false} WordsSound<W(!new)>(pre: seq<Token<W>>, c: Cmd<W>, ts: seq<Token<W>>, max: Limit)
        returns (used: seq<Token<W>>)
    requires Simple(c) && Words(c, ts, max).Ok? && GSimple(pre, c) && ArgsFit(c, max)
    ensures ts == used + Words(c, ts, max).rest
    ensures GSimple(pre + used, Words(c, ts, max).cmd) && ArgsFit(Words(c, ts, max).cmd, max)
    decreases |ts|
  {
    hide Redirs, GSimple, GBlock, WithArgs, ArgsFit, AddArg;
    RedirsSimple(c, ts);
    used := RedirsSound(pre, c, ts, max);
    var d, us := Redirs(c, ts).cmd, Redirs(c, ts).rest;
    if !StopsExec(us) {
      WordAdded(pre + used, d, us[0].w, max);
      var more := WordsSound(pre + used + [us[0]], AddArg(d, us[0].w), us[1..], max);
      assert pre + (used + [us[0]] + more) == pre + used + [us[0]] + more;
      used := used + [us[0]] + more;
    }
  }

  lemma {:induction false} BacksSound<W(!new)>(pre: seq<Token<W>>, c: Cmd<W>, ts: seq<Token<W>>, max: Limit)
        returns (used: seq<Token<W>>)
    requires GBack(pre, c)
    ensures ts == used + Backs(c, ts).rest
    ensures GBack(pre + used, Backs(c, ts).cmd)
    ensures ArgsFit(c, max) <==> ArgsFit(Backs(c, ts).cmd, max)
    decreases |ts|
  {
    if Starts(ts, '&') {
      assert (pre + [ts[0]])[..|pre|] == pre;
      var more := BacksSound(pre + [ts[0]], Back(c), ts[1..], max);
      used := [ts[0]] + more;
      assert pre + [ts[0]] + more == pre + used;
    } else {
      used := [];
      assert pre + used == pre;
    }
  }

  lemma {:induction false} ExecSound<W(!new)>(ts: seq<Token<W>>, max: Limit) returns (used: seq<Token<W>>)
    requires ParseExec(ts, max).Ok?
    ensures ts == used + ParseExec(ts, max).rest
    ensures GBlock(used, ParseExec(ts, max).cmd) || GSimple(used, ParseExec(ts, max).cmd)
    ensures ArgsFit(ParseExec(ts, max).cmd, max)
    decreases |ts|, 0
  {
    hide GLine, GBlock, Redirs, Words, ParseLine;
    if Starts(ts, '(') {
      var line := LineSound(ts[1..], max);
      var c, us := ParseLine(ts[1..], max).cmd, ParseLine(ts[1..], max).rest;
      var block := [Sym('(')] + line + [Sym(')')];
      InParens(line, c);
      var more := RedirsSound(block, c, us[1..], max);
      used := block + more;
      assert us == [Sym(')')] + us[1..];
      assert ts == [Sym('(')] + line + us;
    } else {
      used := WordsSound([], Exec([]), ts, max);
      assert [] + used == used;
    }
  }

  lemma {:induction false} PipeSound<W(!new)>(ts: seq<Token<W>>, max: Limit) returns (used: seq<Token<W>>)
    requires ParsePipe(ts, max).Ok?
    ensures ts == used + ParsePipe(ts, max).rest
    ensures GPipe(used, ParsePipe(ts, max).cmd) && ArgsFit(ParsePipe(ts, max).cmd, max)
    decreases |ts|, 1
  {
    hide GBlock, GSimple, ParseExec;
    used := ExecSound(ts, max);
    var c, us := ParseExec(ts, max).cmd, ParseExec(ts, max).rest;
    if Starts(us, '|') {
      var right := PipeSound(us[1..], max);
      Piped(used, c, right, ParsePipe(us[1..], max).cmd);
      used := used + [Sym('|')] + right;
    }
  }

  lemma {:induction false} LineSound<W(!new)>(ts: seq<Token<W>>, max: Limit) returns (used: seq<Token<W>>)
    requires ParseLine(ts, max).Ok?
    ensures ts == used + ParseLine(ts, max).rest
    ensures GLine(used, ParseLine(ts, max).cmd) && ArgsFit(ParseLine(ts, max).cmd, max)
    decreases |ts|, 2
  {
    hide GPipe, ParsePipe, Backs;
    var pipe := PipeSound(ts, max);
    var b := Backs(ParsePipe(ts, max).cmd, ParsePipe(ts, max).rest);
    BackOfPipe(pipe, ParsePipe(ts, max).cmd);
    var backs := BacksSound(pipe, ParsePipe(ts, max).cmd, ParsePipe(ts, max).rest, max);
    used := pipe + backs;
    LineOfBack(used, b.cmd);
    if Starts(b.rest, ';') {
      var right := LineSound(b.rest[1..], max);
      Listed(used, b.cmd, right, ParseLine(b.rest[1..], max).cmd);
      used := used + [Sym(';')] + right;
    }
  }

  // ---------- every derivable input is accepted ----------

  /** What can follow a pipe element, a back and a line. */
  predicate EndsPipe<W>(ts: seq<Token<W>>) {
    ts == [] || Starts(ts, ')') || Starts(ts, '&') || Starts(ts, ';')
  }

  predicate EndsLine<W>(ts: seq<Token<W>>) {
    ts == [] || Starts(ts, ')')
  }

  lemma WordConsumed<W>(c: Cmd<W>, w: W, rest: seq<Token<W>>, max: Limit)
    requires Simple(c) && ArgsFit(c, max) && Args(c) != [] && Args(c)[|Args(c)| - 1] == w
    ensures ArgsFit(DropArg(c), max) && Words(DropArg(c), [Word(w)] + rest, max) == Words(c, rest, max)
  {
    var d := DropArg(c);
    WithArgsTwice(c, Args(d), Args(c));
    SimpleFits(c, max);
    SimpleFits(d, max);
    assert Args(d) + [w] == Args(c);
    assert ([Word(w)] + rest)[1..] == rest;
    assert AddArg(d, w) == c;
  }

  lemma {:induction false} SimpleComplete<W(!new)>(pre: seq<Token<W>>, c: Cmd<W>, rest: seq<Token<W>>, max: Limit)
    requires GSimple(pre, c)
    ensures Simple(c) && !Starts(pre, '(')
    ensures ArgsFit(c, max) ==> Words(Exec([]), pre + rest, max) == Words(c, rest, max)
    decreases |pre|
  {
    hide Words, DropArg, Args, ArgsFit;
    var n := |pre|;
    if pre == [] && c == Exec([]) {
      assert pre + rest == rest;
    } else if LastWord(pre, c) && GSimple(pre[..n - 1], DropArg(c)) {
      SimpleComplete(pre[..n - 1], DropArg(c), [pre[n - 1]] + rest, max);
      assert pre[..n - 1] + ([pre[n - 1]] + rest) == pre + rest;
      if ArgsFit(c, max) { WordConsumed(c, pre[n - 1].w, rest, max); }
    } else {
      SimpleComplete(pre[..n - 2], c.cmd, pre[n - 2..] + rest, max);
      assert pre[..n - 2] + (pre[n - 2..] + rest) == pre + rest;
      LastPair(pre, c);
      RedirConsumed(c, pre[n - 2..], rest, max);
    }
  }

  lemma RedirConsumed<W>(c: Cmd<W>, pair: seq<Token<W>>, rest: seq<Token<W>>, max: Limit)
    requires |pair| == 2 && LastRedir(pair, c)
    ensures ArgsFit(c, max) <==> ArgsFit(c.cmd, max)
    ensures Redirs(c.cmd, pair + rest) == Redirs(c, rest)
    ensures Simple(c) ==> Words(c.cmd, pair + rest, max) == Words(c, rest, max)
  {
    assert (pair + rest)[2..] == rest;
  }

  lemma LastPair<W>(ts: seq<Token<W>>, c: Cmd<W>)
    requires LastRedir(ts, c)
    ensures LastRedir(ts[|ts| - 2..], c)
  {
    var pair := ts[|ts| - 2..];
    assert pair[|pair| - 2..] == pair;
  }

  lemma ParensConsumed<W>(ts: seq<Token<W>>, c: Cmd<W>, rest: seq<Token<W>>, max: Limit)
    requires Starts(ts, '(') && ParseLine(ts[1..], max) == Ok(c, [Sym(')')] + rest)
    ensures ParseExec(ts, max) == Redirs(c, rest)
  {
    assert ([Sym(')')] + rest)[1..] == rest;
  }

  lemma {:induction false} BlockComplete<W(!new)>(pre: seq<Token<W>>, c: Cmd<W>, rest: seq<Token<W>>, max: Limit)
    requires GBlock(pre, c) && ArgsFit(c, max)
    ensures ParseExec(pre + rest, max) == Redirs(c, rest)
    decreases |pre|, 0
  {
    hide GLine, ParseExec, Redirs, ParseLine;
    var n := |pre|;
    if n >= 2 && pre[0] == Sym('(') && pre[n - 1] == Sym(')') && GLine(pre[1..n - 1], c) {
      LineComplete(pre[1..n - 1], c, [Sym(')')] + rest, max);
      assert (pre + rest)[1..] == pre[1..n - 1] + ([Sym(')')] + rest);
      ParensConsumed(pre + rest, c, rest, max);
    } else {
      BlockComplete(pre[..n - 2], c.cmd, pre[n - 2..] + rest, max);
      assert pre[..n - 2] + (pre[n - 2..] + rest) == pre + rest;
      LastPair(pre, c);
      RedirConsumed(c, pre[n - 2..], rest, max);
    }
  }

  /** One element of a pipe, whatever its shape. */
  lemma {:induction false} ExecComplete<W(!new)>(pre: seq<Token<W>>, c: Cmd<W>, rest: seq<Token<W>>, max: Limit)
    requires GBlock(pre, c) || GSimple(pre, c)
    requires ArgsFit(c, max) && StopsExec(rest)
    ensures ParseExec(pre + rest, max) == Ok(c, rest)
    decreases |pre|, 1
  {
    if GBlock(pre, c) {
      BlockComplete(pre, c, rest, max);
    } else {
      SimpleComplete(pre, c, rest, max);
      assert pre == [] ==> pre + rest == rest;
    }
  }

  lemma {:induction false} PipeComplete<W(!new)>(pre: seq<Token<W>>, c: Cmd<W>, rest: seq<Token<W>>, max: Limit)
    requires GPipe(pre, c) && ArgsFit(c, max) && EndsPipe(rest)
    ensures ParsePipe(pre + rest, max) == Ok(c, rest)
    decreases |pre|, 2
  {
    hide GBlock, GSimple, ParseExec;
    if GBlock(pre, c) || GSimple(pre, c) {
      ExecComplete(pre, c, rest, max);
    } else {
      var i :| 0 <= i < |pre| && pre[i] == Sym('|') && (GBlock(pre[..i], c.left) || GSimple(pre[..i], c.left))
            && GPipe(pre[i + 1..], c.right);
      ExecComplete(pre[..i], c.left, pre[i..] + rest, max);
      PipeComplete(pre[i + 1..], c.right, rest, max);
      assert pre[..i] + (pre[i..] + rest) == pre + rest;
      assert (pre[i..] + rest)[1..] == pre[i + 1..] + rest;
    }
  }

  /** parseline up to its & loop. */
  function ParseBack<W>(ts: seq<Token<W>>, max: Limit): Result<W> {
    match ParsePipe(ts, max)
    case Panic(why) => Panic(why)
    case Ok(c, us) => Backs(c, us)
  }

  lemma {:induction false} BackComplete<W(!new)>(pre: seq<Token<W>>, c: Cmd<W>, rest: seq<Token<W>>, max: Limit)
    requires GBack(pre, c) && ArgsFit(c, max) && EndsPipe(rest)
    ensures ParseBack(pre + rest, max) == Backs(c, rest)
    decreases |pre|, 3
  {
    var n := |pre|;
    if GPipe(pre, c) {
      PipeComplete(pre, c, rest, max);
    } else {
      BackComplete(pre[..n - 1], c.cmd, [Sym('&')] + rest, max);
      assert pre[..n - 1] + ([Sym('&')] + rest) == pre + rest;
      assert ([Sym('&')] + rest)[1..] == rest;
    }
  }

  lemma LineAfterBack<W>(ts: seq<Token<W>>, c: Cmd<W>, us: seq<Token<W>>, max: Limit)
    requires ParseBack(ts, max) == Ok(c, us) && !Starts(us, '&')
    ensures EndsLine(us) ==> ParseLine(ts, max) == Ok(c, us)
    ensures Starts(us, ';') && ParseLine(us[1..], max).Ok?
            ==> ParseLine(ts, max) == Ok(List(c, ParseLine(us[1..], max).cmd), ParseLine(us[1..], max).rest)
  {
    hide ParsePipe;
  }

  lemma {:induction false} LineComplete<W(!new)>(pre: seq<Token<W>>, c: Cmd<W>, rest: seq<Token<W>>, max: Limit)
    requires GLine(pre, c) && ArgsFit(c, max) && EndsLine(rest)
    ensures ParseLine(pre + rest, max) == Ok(c, rest)
    decreases |pre|, 4
  {
    hide GBack, ParsePipe, ParseBack, ParseLine;
    if GBack(pre, c) {
      BackComplete(pre, c, rest, max);
      LineAfterBack(pre + rest, c, rest, max);
    } else {
      var i :| 0 <= i < |pre| && pre[i] == Sym(';') && GBack(pre[..i], c.left) && GLine(pre[i + 1..], c.right);
      var us := pre[i..] + rest;
      BackComplete(pre[..i], c.left, us, max);
      assert pre[..i] + us == pre + rest;
      assert us[1..] == pre[i + 1..] + rest;
      LineComplete(pre[i + 1..], c.right, rest, max);
      LineAfterBack(pre + rest, c.left, us, max);
    }
  }

  // ---------- the parser decides the grammar ----------

  /** parsecmd accepts exactly the lines of the grammar whose commands fit in argv, with their tree. */
  lemma ParserDecidesGrammar<W(!new)>(ts: seq<Token<W>>, c: Cmd<W>, max: Limit)
    ensures ParseCmd(ts, max) == Ok(c, []) <==> GLine(ts, c) && ArgsFit(c, max)
  {
    if ParseCmd(ts, max) == Ok(c, []) {
      var used := LineSound(ts, max);
      assert ts == used;
    }
    if GLine(ts, c) && ArgsFit(c, max) {
      LineComplete(ts, c, [], max);
      assert ts + [] == ts;
    }
  }

  /** The number of words of the longest command. */
  function Longest<W>(c: Cmd<W>): nat {
    match c
    case Exec(args) => |args|
    case Redir(d, _, _) => Longest(d)
    case Pipe(l, r) => if Longest(l) < Longest(r) then Longest(r) else Longest(l)
    case List(l, r) => if Longest(l) < Longest(r) then Longest(r) else Longest(l)
    case Back(d) => Longest(d)
  }

  lemma {:induction false} FitsAboveLongest<W>(c: Cmd<W>, max: Limit)
    ensures ArgsFit(c, max) <==> Longest(c) < max
    decreases c
  {
    match c
    case Exec(_) =>
    case Redir(d, _, _) => FitsAboveLongest(d, max);
    case Pipe(l, r) => FitsAboveLongest(l, max); FitsAboveLongest(r, max);
    case List(l, r) => FitsAboveLongest(l, max); FitsAboveLongest(r, max);
    case Back(d) => FitsAboveLongest(d, max);
  }

  /** An input has at most one tree: a parser with a large enough argv would return both. */
  lemma Unambiguous<W(!new)>(ts: seq<Token<W>>, c: Cmd<W>, d: Cmd<W>)
    requires GLine(ts, c) && GLine(ts, d)
    ensures c == d
  {
    var max: Limit := Longest(c) + Longest(d) + 1;
    FitsAboveLongest(c, max);
    FitsAboveLongest(d, max);
    ParserDecidesGrammar(ts, c, max);
    ParserDecidesGrammar(ts, d, max);
  }

  /** Every panic, whatever its message, is an input without a tree. */
  lemma PanicsExactlyOutsideGrammar<W(!new)>(ts: seq<Token<W>>, max: Limit)
    ensures ParseCmd(ts, max).Panic? <==> forall c :: GLine(ts, c) ==> !ArgsFit(c, max)
  {
    if ParseCmd(ts, max).Ok? {
      ParserDecidesGrammar(ts, ParseCmd(ts, max).cmd, max);
    } else {
      forall c | GLine(ts, c) ensures !ArgsFit(c, max) {
        ParserDecidesGrammar(ts, c, max);
      }
    }
  }

  // ---------- the canonical printer ----------

  /** The grammar level a command belongs to: 0 exec, 1 pipe, 2 back, 3 line. */
  function Level<W>(c: Cmd<W>): nat {
    match c
    case Exec(_) => 0
    case Redir(_, _, _) => 0
    case Pipe(_, _) => 1
    case Back(_) => 2
    case List(_, _) => 3
  }

  function SymOf(m: Mode): char {
    if m == Input then '<' else '>'
  }

  function PrintWords<W>(args: seq<W>): (ts: seq<Token<W>>)
    ensures |ts| == |args| && forall i :: 0 <= i < |ts| ==> ts[i] == Word(args[i])
  {
    seq(|args|, i requires 0 <= i < |args| => Word(args[i]))
  }

  /** The tokens of a command, in parentheses where it stands at a lower level than its own. */
  function Print<W>(c: Cmd<W>, level: nat): seq<Token<W>>
    decreases c, 1
  {
    if Level(c) <= level then PrintOpen(c) else [Sym('(')] + PrintOpen(c) + [Sym(')')]
  }

  function PrintOpen<W>(c: Cmd<W>): seq<Token<W>>
    decreases c, 0
  {
    match c
    case Exec(args) => PrintWords(args)
    case Redir(d, file, mode) => Print(d, 0) + [Sym(SymOf(mode)), Word(file)]
    case Pipe(l, r) => Print(l, 0) + [Sym('|')] + Print(r, 1)
    case Back(d) => Print(d, 2) + [Sym('&')]
    case List(l, r) => Print(l, 2) + [Sym(';')] + Print(r, 3)
  }

  ghost predicate Derives<W(!new)>(ts: seq<Token<W>>, c: Cmd<W>, level: nat) {
    if level == 0 then (if Simple(c) then GSimple(ts, c) else GBlock(ts, c))
    else if level == 1 then GPipe(ts, c)
    else if level == 2 then GBack(ts, c)
    else GLine(ts, c)
  }

  lemma Raise<W(!new)>(ts: seq<Token<W>>, c: Cmd<W>, from: nat, to: nat)
    requires from <= to && Derives(ts, c, from)
    ensures Derives(ts, c, to)
  {
    hide GBlock, GSimple, Simple;
    assert from == 0 ==> GPipe(ts, c);
    assert from <= 1 && to >= 2 ==> GBack(ts, c);
  }

  lemma {:induction false} WordsDerive<W(!new)>(args: seq<W>)
    ensures GSimple(PrintWords(args), Exec(args))
    decreases |args|
  {
    var ts := PrintWords(args);
    if args == [] {
      assert ts == [];
    } else {
      WordsDerive(args[..|args| - 1]);
      assert ts[..|ts| - 1] == PrintWords(args[..|args| - 1]);
    }
  }

  lemma {:induction false} PrintDerives<W(!new)>(c: Cmd<W>, level: nat)
    ensures Derives(Print(c, level), c, level)
    decreases c, 1
  {
    PrintOpenDerives(c);
    if Level(c) > level {
      Raise(PrintOpen(c), c, Level(c), 3);
      InParens(PrintOpen(c), c);
      Raise(Print(c, level), c, 0, level);
    } else {
      Raise(PrintOpen(c), c, Level(c), level);
    }
  }

  lemma {:induction false} PrintOpenDerives<W(!new)>(c: Cmd<W>)
    ensures Derives(PrintOpen(c), c, Level(c))
    decreases c, 0
  {
    var ts := PrintOpen(c);
    match c
    case Exec(args) => WordsDerive(args);
    case Redir(d, _, _) =>
      PrintDerives(d, 0);
      assert ts[..|ts| - 2] == Print(d, 0);
    case Pipe(l, r) =>
      PrintDerives(l, 0);
      PrintDerives(r, 1);
      var i := |Print(l, 0)|;
      assert ts[..i] == Print(l, 0) && ts[i + 1..] == Print(r, 1) && ts[i] == Sym('|');
    case Back(d) =>
      PrintDerives(d, 2);
      assert ts[..|ts| - 1] == Print(d, 2);
    case List(l, r) =>
      PrintDerives(l, 2);
      PrintDerives(r, 3);
      var i := |Print(l, 2)|;
      assert ts[..i] == Print(l, 2) && ts[i + 1..] == Print(r, 3) && ts[i] == Sym(';');
  }

  /** parsecmd undoes the printer on every tree whose commands fit in argv, and only on those. */
  lemma ParsePrinted<W(!new)>(c: Cmd<W>, max: Limit)
    ensures ParseCmd(Print(c, 3), max) == Ok(c, []) <==> ArgsFit(c, max)
  {
    PrintDerives(c, 3);
    ParserDecidesGrammar(Print(c, 3), c, max);
  }
}
