/** The characters of shellproj/sh.c's input: the token sequence a text stands for, the
    places of its words, and the words read back once their ends are overwritten. */
module ShLexer {
  import opened ShGrammar
  import opened ShGrammarProofs

  const NUL := '\0'

  predicate IsSpace(c: char) {
    c == ' ' || c == '\t' || c == '\r' || c == '\n' || c == '\U{00000B}'
  }

  predicate IsSymbol(c: char) {
    c == '<' || c == '|' || c == '>' || c == '&' || c == ';' || c == '(' || c == ')'
  }

  predicate IsWordChar(c: char) {
    c != NUL && !IsSpace(c) && !IsSymbol(c)
  }

  /** How many word characters s begins with. */
  function WordLength(s: string): (n: nat)
    ensures n <= |s| && (forall i :: 0 <= i < n ==> IsWordChar(s[i])) && (n < |s| ==> !IsWordChar(s[n]))
    decreases |s|
  {
    if s == [] || !IsWordChar(s[0]) then 0 else 1 + WordLength(s[1..])
  }

  /** The tokens of a text up to its end or its first NUL. */
  function Lex(s: string): seq<Token<string>>
    decreases |s|
  {
    if s == [] || s[0] == NUL then []
    else if IsSpace(s[0]) then Lex(s[1..])
    else if s[0] == '>' && |s| > 1 && s[1] == '>' then [Sym('+')] + Lex(s[2..])
    else if IsSymbol(s[0]) then [Sym(s[0])] + Lex(s[1..])
    else [Word(s[..WordLength(s)])] + Lex(s[WordLength(s)..])
  }

  // ---------- printing ----------

  predicate IsWord(w: string) {
    w != [] && forall i :: 0 <= i < |w| ==> IsWordChar(w[i])
  }

  predicate IsToken(t: Token<string>) {
    match t
    case Sym(c) => IsSymbol(c) || c == '+'
    case Word(w) => IsWord(w)
  }

  predicate AllTokens(ts: seq<Token<string>>) {
    forall i :: 0 <= i < |ts| ==> IsToken(ts[i])
  }

  function Spelling(t: Token<string>): string {
    match t
    case Sym(c) => if c == '+' then ">>" else [c]
    case Word(w) => w
  }

  /** A space after each token. */
  function Render(ts: seq<Token<string>>): string {
    if ts == [] then [] else Spelling(ts[0]) + " " + Render(ts[1..])
  }

  lemma {:induction false} WordLengthOfWord(w: string, rest: string)
    requires forall i :: 0 <= i < |w| ==> IsWordChar(w[i])
    requires rest != [] ==> !IsWordChar(rest[0])
    ensures WordLength(w + rest) == |w|
    decreases |w|
  {
    if w != [] {
      assert (w + rest)[1..] == w[1..] + rest;
      WordLengthOfWord(w[1..], rest);
    } else {
      assert w + rest == rest;
    }
  }

  lemma LexToken(t: Token<string>, rest: string)
    requires IsToken(t)
    ensures Lex(Spelling(t) + " " + rest) == [t] + Lex(rest)
  {
    var s := Spelling(t) + " " + rest;
    var tail := " " + rest;
    assert s == Spelling(t) + tail && tail[1..] == rest;
    assert s[|Spelling(t)|..] == tail;
    if t.Word? {
      WordLengthOfWord(t.w, tail);
      assert s[..|t.w|] == t.w;
    }
  }

  lemma {:induction false} LexRender(ts: seq<Token<string>>)
    requires AllTokens(ts)
    ensures Lex(Render(ts)) == ts
    decreases |ts|
  {
    if ts != [] {
      LexToken(ts[0], Render(ts[1..]));
      LexRender(ts[1..]);
    }
  }

  lemma {:induction false} LexMakesTokens(s: string)
    ensures AllTokens(Lex(s))
    decreases |s|
  {
    if s == [] || s[0] == NUL {
    } else if IsSpace(s[0]) {
      LexMakesTokens(s[1..]);
    } else if s[0] == '>' && |s| > 1 && s[1] == '>' {
      LexMakesTokens(s[2..]);
    } else if IsSymbol(s[0]) {
      LexMakesTokens(s[1..]);
    } else {
      LexMakesTokens(s[WordLength(s)..]);
      assert IsWord(s[..WordLength(s)]);
    }
  }

  /** All words of a tree are runs of word characters. */
  predicate WordsPrintable(c: Cmd<string>) {
    match c
    case Exec(args) => forall i :: 0 <= i < |args| ==> IsWord(args[i])
    case Redir(d, file, _) => WordsPrintable(d) && IsWord(file)
    case Pipe(l, r) => WordsPrintable(l) && WordsPrintable(r)
    case List(l, r) => WordsPrintable(l) && WordsPrintable(r)
    case Back(d) => WordsPrintable(d)
  }

  lemma {:induction false} PrintMakesTokens(c: Cmd<string>, level: nat)
    ensures AllTokens(Print(c, level)) <==> WordsPrintable(c)
    decreases c, 1
  {
    PrintOpenMakesTokens(c);
    if Level(c) > level {
      var ts := PrintOpen(c);
      AllTokensConcat([Sym('(')], ts);
      AllTokensConcat([Sym('(')] + ts, [Sym(')')]);
    }
  }

  lemma AllTokensConcat(a: seq<Token<string>>, b: seq<Token<string>>)
    ensures AllTokens(a + b) <==> AllTokens(a) && AllTokens(b)
  {
    if AllTokens(a + b) {
      forall i | 0 <= i < |a| ensures IsToken(a[i]) { assert a[i] == (a + b)[i]; }
      forall i | 0 <= i < |b| ensures IsToken(b[i]) { assert b[i] == (a + b)[|a| + i]; }
    }
  }

  lemma {:induction false} PrintOpenMakesTokens(c: Cmd<string>)
    ensures AllTokens(PrintOpen(c)) <==> WordsPrintable(c)
    decreases c, 0
  {
    hide Print;
    match c
    case Exec(args) =>
      forall i | 0 <= i < |args| ensures IsToken(PrintWords(args)[i]) <==> IsWord(args[i]) {}
    case Redir(d, file, mode) =>
      PrintMakesTokens(d, 0);
      var pair := [Sym(SymOf(mode)), Word(file)];
      assert AllTokens(pair) <==> IsToken(pair[1]);
      AllTokensConcat(Print(d, 0), pair);
    case Pipe(l, r) =>
      PrintMakesTokens(l, 0);
      PrintMakesTokens(r, 1);
      AllTokensConcat(Print(l, 0), [Sym('|')]);
      AllTokensConcat(Print(l, 0) + [Sym('|')], Print(r, 1));
    case Back(d) =>
      PrintMakesTokens(d, 2);
      AllTokensConcat(Print(d, 2), [Sym('&')]);
    case List(l, r) =>
      PrintMakesTokens(l, 2);
      PrintMakesTokens(r, 3);
      AllTokensConcat(Print(l, 2), [Sym(';')]);
      AllTokensConcat(Print(l, 2) + [Sym(';')], Print(r, 3));
  }

  lemma SlicedTokens(ts: seq<Token<string>>, i: nat, j: nat)
    requires i <= j <= |ts| && AllTokens(ts)
    ensures AllTokens(ts[i..j])
  {
    assert ts == ts[..i] + ts[i..j] + ts[j..];
    AllTokensConcat(ts[..i] + ts[i..j], ts[j..]);
    AllTokensConcat(ts[..i], ts[i..j]);
  }

  lemma {:induction false} ArgAdded(c: Cmd<string>)
    requires Simple(c) && Args(c) != []
    ensures WordsPrintable(c) <==> WordsPrintable(DropArg(c)) && IsWord(Args(c)[|Args(c)| - 1])
    decreases c
  {
    if c.Redir? {
      ArgAdded(c.cmd);
    } else {
      var n := |c.args| - 1;
      assert DropArg(c) == Exec(c.args[..n]);
      forall i | 0 <= i < n ensures c.args[i] == c.args[..n][i] {}
    }
  }

  lemma {:induction false} SimpleWords(ts: seq<Token<string>>, c: Cmd<string>)
    requires GSimple(ts, c) && AllTokens(ts)
    ensures WordsPrintable(c)
    decreases |ts|
  {
    hide DropArg;
    var n := |ts|;
    if ts == [] && c == Exec([]) {
    } else if LastWord(ts, c) && GSimple(ts[..n - 1], DropArg(c)) {
      SlicedTokens(ts, 0, n - 1);
      SimpleWords(ts[..n - 1], DropArg(c));
      ArgAdded(c);
      assert IsToken(ts[n - 1]);
    } else {
      SlicedTokens(ts, 0, n - 2);
      SimpleWords(ts[..n - 2], c.cmd);
      assert IsToken(ts[n - 1]);
    }
  }

  lemma {:induction false} BlockWords(ts: seq<Token<string>>, c: Cmd<string>)
    requires GBlock(ts, c) && AllTokens(ts)
    ensures WordsPrintable(c)
    decreases |ts|, 0
  {
    var n := |ts|;
    if n >= 2 && ts[0] == Sym('(') && ts[n - 1] == Sym(')') && GLine(ts[1..n - 1], c) {
      SlicedTokens(ts, 1, n - 1);
      LineWords(ts[1..n - 1], c);
    } else {
      SlicedTokens(ts, 0, n - 2);
      BlockWords(ts[..n - 2], c.cmd);
      assert IsToken(ts[n - 1]);
    }
  }

  lemma {:induction false} PipeWords(ts: seq<Token<string>>, c: Cmd<string>)
    requires GPipe(ts, c) && AllTokens(ts)
    ensures WordsPrintable(c)
    decreases |ts|, 1
  {
    hide GBlock, GSimple;
    if GBlock(ts, c) {
      BlockWords(ts, c);
    } else if GSimple(ts, c) {
      SimpleWords(ts, c);
    } else {
      var i :| 0 <= i < |ts| && ts[i] == Sym('|') && (GBlock(ts[..i], c.left) || GSimple(ts[..i], c.left))
            && GPipe(ts[i + 1..], c.right);
      SlicedTokens(ts, 0, i);
      SlicedTokens(ts, i + 1, |ts|);
      if GBlock(ts[..i], c.left) { BlockWords(ts[..i], c.left); } else { SimpleWords(ts[..i], c.left); }
      PipeWords(ts[i + 1..], c.right);
    }
  }

  lemma {:induction false} BackWords(ts: seq<Token<string>>, c: Cmd<string>)
    requires GBack(ts, c) && AllTokens(ts)
    ensures WordsPrintable(c)
    decreases |ts|, 2
  {
    hide GPipe;
    if GPipe(ts, c) {
      PipeWords(ts, c);
    } else {
      SlicedTokens(ts, 0, |ts| - 1);
      BackWords(ts[..|ts| - 1], c.cmd);
    }
  }

  lemma {:induction false} LineWords(ts: seq<Token<string>>, c: Cmd<string>)
    requires GLine(ts, c) && AllTokens(ts)
    ensures WordsPrintable(c)
    decreases |ts|, 3
  {
    hide GBack;
    if GBack(ts, c) {
      BackWords(ts, c);
    } else {
      var i :| 0 <= i < |ts| && ts[i] == Sym(';') && GBack(ts[..i], c.left) && GLine(ts[i + 1..], c.right);
      SlicedTokens(ts, 0, i);
      SlicedTokens(ts, i + 1, |ts|);
      BackWords(ts[..i], c.left);
      LineWords(ts[i + 1..], c.right);
    }
  }

  /** Parsing the printed text of a tree gives the tree back, exactly when its words are runs
      of word characters and its commands fit in argv. */
  lemma TextRoundTrip(c: Cmd<string>)
    ensures ParseCmd(Lex(Render(Print(c, 3))), MAXARGS) == Ok(c, []) <==> WordsPrintable(c) && ArgsFit(c, MAXARGS)
  {
    hide WordsPrintable, ParseCmd, Render, Print, Lex, AllTokens;
    var s := Render(Print(c, 3));
    PrintMakesTokens(c, 3);
    if WordsPrintable(c) {
      LexRender(Print(c, 3));
      ParsePrinted(c, MAXARGS);
    }
    if ParseCmd(Lex(s), MAXARGS) == Ok(c, []) {
      ParsedIsPrintable(s, c);
    }
  }

  lemma ParsedIsPrintable(s: string, c: Cmd<string>)
    requires ParseCmd(Lex(s), MAXARGS) == Ok(c, [])
    ensures WordsPrintable(c) && ArgsFit(c, MAXARGS)
  {
    hide WordsPrintable, ParseCmd, Lex;
    ParserDecidesGrammar(Lex(s), c, MAXARGS);
    LexMakesTokens(s);
    LineWords(Lex(s), c);
  }

  /** Whatever text a tree was parsed from, its printed text parses to the same tree. */
  lemma ReprintedParsesAlike(s: string, c: Cmd<string>)
    requires ParseCmd(Lex(s), MAXARGS) == Ok(c, [])
    ensures ParseCmd(Lex(Render(Print(c, 3))), MAXARGS) == Ok(c, [])
  {
    hide WordsPrintable, ParseCmd, Render, Print, Lex;
    ParsedIsPrintable(s, c);
    TextRoundTrip(c);
  }

  // ---------- words by their place ----------

  /** A word as the parser keeps it: pointers to its first character and just past its last. */
  datatype Span = Span(q: nat, eq: nat)

  /** A maximal-to-the-right run of word characters of t. */
  predicate IsSpan(w: Span, t: string) {
    && w.q < w.eq <= |t|
    && (forall i :: w.q <= i < w.eq ==> IsWordChar(t[i]))
    && (w.eq < |t| ==> !IsWordChar(t[w.eq]))
  }

  function Slice(t: string, w: Span): string {
    if w.q <= w.eq <= |t| then t[w.q..w.eq] else []
  }

  function SliceOf(t: string): Span -> string {
    (w: Span) => Slice(t, w)
  }

  function ReadAll(args: seq<Span>, f: Span -> string): (r: seq<string>)
    ensures |r| == |args| && forall i :: 0 <= i < |r| ==> r[i] == f(args[i])
  {
    seq(|args|, i requires 0 <= i < |args| => f(args[i]))
  }

  /** The tree with every word replaced by what f reads for it. */
  function Read(c: Cmd<Span>, f: Span -> string): Cmd<string> {
    match c
    case Exec(args) => Exec(ReadAll(args, f))
    case Redir(d, file, mode) => Redir(Read(d, f), f(file), mode)
    case Pipe(l, r) => Pipe(Read(l, f), Read(r, f))
    case List(l, r) => List(Read(l, f), Read(r, f))
    case Back(d) => Back(Read(d, f))
  }

  /** The tree with the slices of t its words stand for. */
  function Texts(c: Cmd<Span>, t: string): Cmd<string> {
    Read(c, SliceOf(t))
  }

  /** All words of a tree are spans of t. */
  predicate InText(c: Cmd<Span>, t: string) {
    match c
    case Exec(args) => forall i :: 0 <= i < |args| ==> IsSpan(args[i], t)
    case Redir(d, file, _) => InText(d, t) && IsSpan(file, t)
    case Pipe(l, r) => InText(l, t) && InText(r, t)
    case List(l, r) => InText(l, t) && InText(r, t)
    case Back(d) => InText(d, t)
  }

  lemma {:induction false} TextsOfAddArg(c: Cmd<Span>, w: Span, t: string)
    requires Simple(c) && InText(c, t) && IsSpan(w, t)
    ensures Simple(Texts(c, t)) && |Args(Texts(c, t))| == |Args(c)|
    ensures InText(AddArg(c, w), t) && Texts(AddArg(c, w), t) == AddArg(Texts(c, t), Slice(t, w))
  {
    TextsOfWithArgs(c, Args(c) + [w], t);
    TextsOfWithArgs(c, Args(c), t);
    WithArgsTwice(c, Args(c), Args(c) + [w]);
    var f := SliceOf(t);
    assert ReadAll(Args(c) + [w], f) == ReadAll(Args(c), f) + [f(w)];
  }

  lemma {:induction false} TextsOfWithArgs(c: Cmd<Span>, args: seq<Span>, t: string)
    requires Simple(c)
    ensures var f := SliceOf(t);
            Simple(Texts(c, t)) && Args(Texts(c, t)) == ReadAll(Args(c), f)
            && Texts(WithArgs(c, args), t) == WithArgs(Texts(c, t), ReadAll(args, f))
    ensures InText(c, t) ==> (forall i :: 0 <= i < |Args(c)| ==> IsSpan(Args(c)[i], t))
    ensures InText(c, t) && (forall i :: 0 <= i < |args| ==> IsSpan(args[i], t)) ==> InText(WithArgs(c, args), t)
    decreases c
  {
    if c.Redir? { TextsOfWithArgs(c.cmd, args, t); }
  }

  // ---------- NUL-terminated words ----------

  /** The C string at q. */
  function CString(b: string, q: nat): string
    decreases |b| - q
  {
    if q >= |b| || b[q] == NUL then [] else [b[q]] + CString(b, q + 1)
  }

  function CStringIn(b: string): Span -> string {
    (w: Span) => CString(b, w.q)
  }

  /** The buffer with NULs written at some places. */
  function Punched(b: string, ends: set<nat>): (r: string)
    ensures |r| == |b| && forall i :: 0 <= i < |r| ==> r[i] == if i in ends then NUL else b[i]
  {
    seq(|b|, i requires 0 <= i < |b| => if i in ends then NUL else b[i])
  }

  /** Where nulterminate writes. */
  function Ends(c: Cmd<Span>): set<nat> {
    match c
    case Exec(args) => set i | 0 <= i < |args| :: args[i].eq
    case Redir(d, file, _) => Ends(d) + {file.eq}
    case Pipe(l, r) => Ends(l) + Ends(r)
    case List(l, r) => Ends(l) + Ends(r)
    case Back(d) => Ends(d)
  }

  /** A buffer that holds the C string t. */
  predicate Holds(b: string, t: string) {
    |b| > |t| && b[..|t|] == t && b[|t|] == NUL
  }

  /** None of these places lies inside a word of t, or beyond its terminator. */
  predicate BetweenWords(ends: set<nat>, t: string) {
    forall e :: e in ends ==> e <= |t| && (e < |t| ==> !IsWordChar(t[e]))
  }

  lemma {:induction false} EndsBetweenWords(c: Cmd<Span>, t: string)
    requires InText(c, t)
    ensures BetweenWords(Ends(c), t)
    decreases c
  {
    match c
    case Exec(args) =>
    case Redir(d, _, _) => EndsBetweenWords(d, t);
    case Pipe(l, r) => EndsBetweenWords(l, t); EndsBetweenWords(r, t);
    case List(l, r) => EndsBetweenWords(l, t); EndsBetweenWords(r, t);
    case Back(d) => EndsBetweenWords(d, t);
  }

  lemma {:induction false} SpanReadBack(w: Span, i: nat, t: string, b: string, ends: set<nat>)
    requires IsSpan(w, t) && Holds(b, t) && BetweenWords(ends, t) && w.eq in ends && w.q <= i <= w.eq
    ensures CString(Punched(b, ends), i) == t[i..w.eq]
    decreases w.eq - i
  {
    var p := Punched(b, ends);
    if i == w.eq {
      assert p[i] == NUL;
    } else {
      assert t[i] == b[..|t|][i] == p[i];
      SpanReadBack(w, i + 1, t, b, ends);
    }
  }

  lemma {:induction false} TreeReadBack(c: Cmd<Span>, t: string, b: string, ends: set<nat>)
    requires InText(c, t) && Holds(b, t) && BetweenWords(ends, t) && Ends(c) <= ends
    ensures Read(c, CStringIn(Punched(b, ends))) == Texts(c, t)
    decreases c
  {
    match c
    case Exec(args) =>
      forall i | 0 <= i < |args| ensures CString(Punched(b, ends), args[i].q) == Slice(t, args[i]) {
        assert args[i].eq in Ends(c);
        SpanReadBack(args[i], args[i].q, t, b, ends);
      }
      assert ReadAll(args, CStringIn(Punched(b, ends))) == ReadAll(args, SliceOf(t));
    case Redir(d, file, _) =>
      TreeReadBack(d, t, b, ends);
      SpanReadBack(file, file.q, t, b, ends);
    case Pipe(l, r) => TreeReadBack(l, t, b, ends); TreeReadBack(r, t, b, ends);
    case List(l, r) => TreeReadBack(l, t, b, ends); TreeReadBack(r, t, b, ends);
    case Back(d) => TreeReadBack(d, t, b, ends);
  }

  /** Once NULs are written at all word ends, every word of the tree, read as a C string,
      is its original slice; no write falls beyond the old terminator. */
  lemma NulterminateKeepsWords(c: Cmd<Span>, t: string, b: string)
    requires InText(c, t) && Holds(b, t)
    ensures Read(c, CStringIn(Punched(b, Ends(c)))) == Texts(c, t)
    ensures forall e :: e in Ends(c) ==> e <= |t|
  {
    EndsBetweenWords(c, t);
    TreeReadBack(c, t, b, Ends(c));
  }
}
