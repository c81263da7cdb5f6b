/** The language of xv6/sh.c as a grammar, and why its parser accepts exactly that language: a line parses
    to a command if and only if its tokens are those of a syntax tree that stands for the command.

      line := pipe { & } [ ; line ]
      pipe := unit [ | pipe ]
      unit := { word | redirection } | ( line ) { redirection }
      redirection := (< or > or >>) word */
module ShellGrammar {
  import opened Basics
  import opened Shell

  // ---------------------------------------------------------------------------------------
  // Tokens
  // ---------------------------------------------------------------------------------------

  /** A token without its place in the line; + is >>. */
  datatype Lexeme<W> = Sym(c: char) | Name(w: W)

  function Lexed(t: Token): Lexeme<Span> {
    if t.kind == 'a' then Name(Span(t.q, t.eq)) else Sym(t.kind)
  }

  /** What gettoken finds from i on, call after call, up to the end of the line. */
  function Lexemes(s: string, i: nat): seq<Lexeme<Span>>
    requires i <= |s|
    decreases |s| - i
  {
    var t := Gettoken(s, i);
    if t.kind == NUL then [] else [Lexed(t)] + Lexemes(s, t.next)
  }

  /** What gettoken finds, in characters: blanks are skipped before and behind the token, and the token is a symbol, >>,
      or the longest run of other characters. */
  lemma TokenMeans(s: string, i: nat)
    requires i <= |s| && Clean(s)
    ensures var t := Gettoken(s, i);
            && i <= t.q <= t.eq <= t.next <= |s|
            && (forall k | i <= k < t.q || t.eq <= k < t.next :: s[k] in " \t\r\n\U{0B}")
            && (t.next < |s| ==> s[t.next] !in " \t\r\n\U{0B}")
            && (t.kind == NUL <==> t.q == |s|)
            && (t.kind == 'a' <==> t.q < |s| && s[t.q] !in "<|>&;()")
            && (t.kind == 'a' ==> t.q < t.eq && forall k | t.q <= k < t.eq :: s[k] !in " \t\r\n\U{0B}<|>&;()")
            && (t.kind == 'a' && t.eq < |s| ==> s[t.eq] in " \t\r\n\U{0B}<|>&;()")
            && (t.kind == '+' <==> t.q + 1 < |s| && s[t.q] == s[t.q + 1] == '>')
            && (t.kind == '+' ==> t.eq == t.q + 2)
            && (t.kind != NUL && t.kind != 'a' && t.kind != '+' ==> t.eq == t.q + 1 && s[t.q] == t.kind)
  {
    BlankIs();
    var t := Gettoken(s, i);
    var q := Skip(s, i);
    assert q < |s| ==> s[q] != NUL;
    assert t.eq < |s| ==> s[t.eq] != NUL;
    assert t.next < |s| ==> s[t.next] != NUL;
    hide Blank, Symbol;
  }

  lemma BlankIs()
    ensures forall c: char :: Blank(c) <==> c in " \t\r\n\U{0B}"
    ensures forall c: char :: Symbol(c) <==> c in "<|>&;()"
    ensures forall c: char :: c in " \t\r\n\U{0B}<|>&;()" <==> Blank(c) || Symbol(c)
  {
    assert " \t\r\n\U{0B}<|>&;()" == " \t\r\n\U{0B}" + "<|>&;()";
  }

  predicate Starts<W>(ls: seq<Lexeme<W>>, cs: string) {
    ls != [] && ls[0].Sym? && ls[0].c in cs
  }

  lemma SkipTwice(s: string, i: nat)
    requires i <= |s|
    ensures i <= Skip(s, i) <= |s| && Skip(s, Skip(s, i)) == Skip(s, i)
  {
  }

  /** Blanks do not matter. */
  lemma LexSkip(s: string, i: nat)
    requires i <= |s|
    ensures Skip(s, i) <= |s| && Lexemes(s, Skip(s, i)) == Lexemes(s, i)
  {
    TokenSkip(s, i);
    hide Gettoken, Skip;
  }

  lemma TokenSkip(s: string, i: nat)
    requires i <= |s|
    ensures Skip(s, i) <= |s| && Gettoken(s, Skip(s, i)) == Gettoken(s, i)
  {
    SkipTwice(s, i);
    hide Skip;
  }

  lemma LexFirst(s: string, i: nat)
    requires i <= |s| && Clean(s)
    ensures var t, ls := Gettoken(s, i), Lexemes(s, i);
            && (t.kind == NUL <==> ls == []) && (ls == [] <==> Skip(s, i) == |s|)
            && (ls != [] ==> i < t.next <= |s| && ls == [Lexed(t)] + Lexemes(s, t.next))
  {
    TokenEnds(s, i);
    hide Gettoken, Skip, Clean;
  }

  lemma TokenEnds(s: string, i: nat)
    requires i <= |s| && Clean(s)
    ensures var t := Gettoken(s, i);
            (t.kind == NUL <==> Skip(s, i) == |s|) && t.next <= |s| && (t.kind != NUL ==> i < t.next)
  {
    var q := Skip(s, i);
    assert q < |s| ==> s[q] in s && s[q] != NUL;
    hide Clean, Blank;
  }

  /** peek looks at the first lexeme. */
  lemma PeekIs(s: string, i: nat, cs: string)
    requires i <= |s| && Clean(s) && forall c | c in cs :: Symbol(c)
    ensures Peek(s, i, cs) <==> Starts(Lexemes(s, i), if '>' in cs then cs + "+" else cs)
  {
    LexFirst(s, i);
    hide Lexemes;
    if Lexemes(s, i) != [] {
      assert Lexemes(s, i)[0] == Lexed(Gettoken(s, i));
    }
  }

  // ---------------------------------------------------------------------------------------
  // Syntax trees, their tokens and what they stand for
  // ---------------------------------------------------------------------------------------

  datatype Item<W> = Arg(w: W) | Into(sign: char, file: W)

  datatype Line<W> = Line(pipe: Pipeline<W>, backs: nat, rest: Option<Line<W>>)

  datatype Pipeline<W> = Pipeline(first: Unit<W>, rest: Option<Pipeline<W>>)

  datatype Unit<W> = Plain(items: seq<Item<W>>) | Block(body: Line<W>, items: seq<Item<W>>)

  predicate Sign(c: char) {
    c in "<>+"
  }

  function ModeFor(sign: char): Mode {
    if sign == '<' then ReadFile else WriteFile
  }

  function ItemYield<W>(it: Item<W>): seq<Lexeme<W>> {
    match it
    case Arg(w) => [Name(w)]
    case Into(sign, file) => [Sym(sign), Name(file)]
  }

  function ItemsYield<W>(items: seq<Item<W>>): seq<Lexeme<W>> {
    if items == [] then [] else ItemYield(items[0]) + ItemsYield(items[1..])
  }

  function LineYield<W>(l: Line<W>): seq<Lexeme<W>> {
    PipeYield(l.pipe) + Amps(l.backs) + match l.rest case None => [] case Some(r) => [Sym(';')] + LineYield(r)
  }

  function PipeYield<W>(p: Pipeline<W>): seq<Lexeme<W>> {
    UnitYield(p.first) + match p.rest case None => [] case Some(r) => [Sym('|')] + PipeYield(r)
  }

  function UnitYield<W>(u: Unit<W>): seq<Lexeme<W>> {
    match u
    case Plain(items) => ItemsYield(items)
    case Block(body, items) => [Sym('(')] + LineYield(body) + [Sym(')')] + ItemsYield(items)
  }

  function Amps<W>(n: nat): seq<Lexeme<W>> {
    if n == 0 then [] else [Sym('&')] + Amps(n - 1)
  }

  function Args<W>(items: seq<Item<W>>): seq<W> {
    if items == [] then [] else (if items[0].Arg? then [items[0].w] else []) + Args(items[1..])
  }

  function Intos<W>(items: seq<Item<W>>): seq<RedirectionOf<W>> {
    if items == [] then []
    else (if items[0].Into? then [Redirection(items[0].file, ModeFor(items[0].sign))] else []) + Intos(items[1..])
  }

  function Backed<W>(c: Command<W>, n: nat): Command<W>
    decreases n
  {
    if n == 0 then c else Backed(Back(c), n - 1)
  }

  function LineMeans<W>(l: Line<W>): Command<W> {
    var c := Backed(PipeMeans(l.pipe), l.backs);
    match l.rest case None => c case Some(r) => List(c, LineMeans(r))
  }

  function PipeMeans<W>(p: Pipeline<W>): Command<W> {
    match p.rest
    case None => UnitMeans(p.first)
    case Some(r) => Pipe(UnitMeans(p.first), PipeMeans(r))
  }

  /** The redirections of a unit go around it, the first innermost. */
  function UnitMeans<W>(u: Unit<W>): Command<W> {
    match u
    case Plain(items) => Wrap(Exec(Args(items)), Intos(items))
    case Block(body, items) => Wrap(LineMeans(body), Intos(items))
  }

  predicate ItemsOk<W>(items: seq<Item<W>>) {
    forall k | 0 <= k < |items| && items[k].Into? :: Sign(items[k].sign)
  }

  predicate NoArgs<W>(items: seq<Item<W>>) {
    forall k | 0 <= k < |items| :: items[k].Into?
  }

  /** Redirections have a sign, only they follow a block, and the arguments are fewer than fit. */
  predicate LineOk<W>(l: Line<W>) {
    PipeOk(l.pipe) && match l.rest case None => true case Some(r) => LineOk(r)
  }

  predicate PipeOk<W>(p: Pipeline<W>) {
    UnitOk(p.first) && match p.rest case None => true case Some(r) => PipeOk(r)
  }

  predicate UnitOk<W>(u: Unit<W>) {
    match u
    case Plain(items) => ItemsOk(items) && |Args(items)| < 10
    case Block(body, items) => LineOk(body) && ItemsOk(items) && NoArgs(items)
  }

  // ---------------------------------------------------------------------------------------
  // Items
  // ---------------------------------------------------------------------------------------

  lemma ItemsMore<W>(it: Item<W>, items: seq<Item<W>>)
    ensures ItemsYield([it] + items) == ItemYield(it) + ItemsYield(items)
    ensures Args([it] + items) == (if it.Arg? then [it.w] else []) + Args(items)
    ensures Intos([it] + items) == (if it.Into? then [Redirection(it.file, ModeFor(it.sign))] else []) + Intos(items)
  {
    assert ([it] + items)[1..] == items;
  }

  lemma {:induction false} ItemsSplit<W>(a: seq<Item<W>>, b: seq<Item<W>>)
    ensures ItemsYield(a + b) == ItemsYield(a) + ItemsYield(b)
    ensures Args(a + b) == Args(a) + Args(b) && Intos(a + b) == Intos(a) + Intos(b)
    decreases |a|
  {
    if a == [] {
      assert a + b == b;
    } else {
      var c := a[1..];
      hide ItemsYield, Args, Intos, ItemYield, ModeFor;
      ItemsSplit(c, b);
      assert a + b == [a[0]] + (c + b) && a == [a[0]] + c;
      ItemsMore(a[0], c + b);
      ItemsMore(a[0], c);
      Cat(ItemYield(a[0]), ItemsYield(c), ItemsYield(b));
      Cat(if a[0].Arg? then [a[0].w] else [], Args(c), Args(b));
      Cat(if a[0].Into? then [Redirection(a[0].file, ModeFor(a[0].sign))] else [], Intos(c), Intos(b));
    }
  }

  lemma {:induction false} NoArgsArgs<W>(items: seq<Item<W>>)
    requires NoArgs(items)
    ensures Args(items) == []
  {
    if items != [] { NoArgsArgs(items[1..]); }
  }

  lemma NoItems()
    ensures ItemsYield<Span>([]) == [] && Intos<Span>([]) == [] && Args<Span>([]) == []
    ensures ItemsOk<Span>([]) && NoArgs<Span>([])
  {
  }

  lemma ItemsOkMore<W>(it: Item<W>, items: seq<Item<W>>)
    requires it.Into? ==> Sign(it.sign)
    ensures ItemsOk([it] + items) <==> ItemsOk(items)
    ensures NoArgs([it] + items) <==> it.Into? && NoArgs(items)
  {
    hide Sign;
    var all := [it] + items;
    assert all[0] == it && forall k | 0 <= k < |items| :: all[k + 1] == items[k];
  }

  lemma Cat<T>(a: seq<T>, b: seq<T>, c: seq<T>)
    ensures a + (b + c) == a + b + c
  {
  }

  // ---------------------------------------------------------------------------------------
  // Whatever the parser returns is a reading of the tokens
  // ---------------------------------------------------------------------------------------

  /** A redirection and its file. */
  lemma RedirFirst(s: string, i: nat)
    requires i <= |s| && Clean(s) && Peek(s, i, "<>") && Gettoken(s, Gettoken(s, i).next).kind == 'a'
    ensures var tok := Gettoken(s, i);
            var file := Gettoken(s, tok.next);
            && Sign(tok.kind) && file.next <= |s|
            && Lexemes(s, i) == [Sym(tok.kind), Name(Span(file.q, file.eq))] + Lexemes(s, file.next)
  {
    hide Lexemes, Gettoken, Peek, Skip, Clean;
    PeekIs(s, i, "<>");
    LexFirst(s, i);
    LexFirst(s, Gettoken(s, i).next);
  }

  lemma {:induction false} RedirsSound(s: string, i: nat, rs: seq<Redirection>) returns (items: seq<Item<Span>>)
    requires i <= |s| && Clean(s) && ParseRedirs(s, i, rs).Redirs?
    ensures var r := ParseRedirs(s, i, rs);
            && ItemsOk(items) && NoArgs(items) && r.next <= |s|
            && Lexemes(s, i) == ItemsYield(items) + Lexemes(s, r.next)
            && r.list == rs + Intos(items)
    decreases |s| - i
  {
    hide Peek, Gettoken, Skip, Lexemes, ItemsYield, Intos, Clean, Sign, ItemsOk, NoArgs;
    if !Peek(s, i, "<>") {
      LexSkip(s, i);
      NoItems();
      items := [];
    } else {
      var tok := Gettoken(s, i);
      var file := Gettoken(s, tok.next);
      RedirFirst(s, i);
      var it := Into(tok.kind, Span(file.q, file.eq));
      TokenForward(s, i);
      TokenForward(s, tok.next);
      var rs' := rs + [Redirection(it.file, ModeFor(it.sign))];
      var rest := RedirsSound(s, file.next, rs');
      items := [it] + rest;
      ItemsMore(it, rest);
      ItemsOkMore(it, rest);
      Cat(rs, [Redirection(it.file, ModeFor(it.sign))], Intos(rest));
      Cat(ItemYield(it), ItemsYield(rest), Lexemes(s, ParseRedirs(s, i, rs).next));
    }
  }

  lemma TokenForward(s: string, i: nat)
    requires i <= |s|
    ensures i <= Gettoken(s, i).next <= |s| && (Gettoken(s, i).kind != NUL ==> i < Gettoken(s, i).next)
    ensures Gettoken(s, i).kind == 'a' ==> IsWord(s, Span(Gettoken(s, i).q, Gettoken(s, i).eq))
  {
  }

  ghost predicate WordsOf(s: string, args: seq<Span>, rs: seq<Redirection>) {
    (forall k | 0 <= k < |args| :: IsWord(s, args[k])) && (forall k | 0 <= k < |rs| :: IsWord(s, rs[k].file))
  }

  lemma RedirsWords(s: string, i: nat, args: seq<Span>, rs: seq<Redirection>)
    requires i <= |s| && WordsOf(s, args, rs)
    ensures var r := ParseRedirs(s, i, rs); r.Redirs? ==> i <= r.next <= |s| && WordsOf(s, args, r.list)
  {
    hide IsWord;
  }

  /** An argument and the redirections behind it. */
  lemma ItemsChain(w: Span, redirs: seq<Item<Span>>, rest: seq<Item<Span>>)
    requires ItemsOk(redirs) && ItemsOk(rest) && NoArgs(redirs)
    ensures var items := [Arg(w)] + (redirs + rest);
            && ItemsOk(items) && ItemsYield(items) == [Name(w)] + (ItemsYield(redirs) + ItemsYield(rest))
            && Args(items) == [w] + Args(rest) && Intos(items) == Intos(redirs) + Intos(rest)
  {
    hide ItemsYield, Args, Intos, Sign;
    ItemsMore(Arg(w), redirs + rest);
    ItemsSplit(redirs, rest);
    NoArgsArgs(redirs);
  }

  lemma {:induction false} ArgsSound(s: string, i: nat, args: seq<Span>, rs: seq<Redirection>)
      returns (items: seq<Item<Span>>)
    requires i <= |s| && Clean(s) && |args| < MAXARGS && WordsOf(s, args, rs) && ParseArgs(s, i, args, rs).Ok?
    ensures var p := ParseArgs(s, i, args, rs);
            && ItemsOk(items) && p.next <= |s| && Lexemes(s, i) == ItemsYield(items) + Lexemes(s, p.next)
            && |args + Args(items)| < MAXARGS && p.cmd == Wrap(Exec(args + Args(items)), rs + Intos(items))
    decreases |s| - i
  {
    hide Peek, Gettoken, Skip, Lexemes, ItemsYield, Intos, Args, Clean, Sign, ItemsOk, NoArgs, ParseRedirs,
      IsWord, Wrap;
    var tok := Gettoken(s, i);
    TokenForward(s, i);
    LexFirst(s, i);
    if Peek(s, i, "|)&;") || tok.kind == NUL {
      NoItems();
      LexSkip(s, i);
      if tok.kind == NUL { NulNext(s, i); }
      items := [];
      assert args + [] == args && rs + [] == rs;
    } else {
      var r := ParseRedirs(s, tok.next, rs);
      var args' := args + [Span(tok.q, tok.eq)];
      RedirsWords(s, tok.next, args', rs);
      var redirs := RedirsSound(s, tok.next, rs);
      var rest := ArgsSound(s, r.next, args', r.list);
      items := [Arg(Span(tok.q, tok.eq))] + (redirs + rest);
      ItemsChain(Span(tok.q, tok.eq), redirs, rest);
      Cat(args, [Span(tok.q, tok.eq)], Args(rest));
      Cat(rs, Intos(redirs), Intos(rest));
      var n := ParseArgs(s, i, args, rs).next;
      Cat(ItemsYield(redirs), ItemsYield(rest), Lexemes(s, n));
      Cat([Name(Span(tok.q, tok.eq))], ItemsYield(redirs) + ItemsYield(rest), Lexemes(s, n));
    }
  }

  lemma NulNext(s: string, i: nat)
    requires i <= |s| && Clean(s) && Gettoken(s, i).kind == NUL
    ensures Lexemes(s, Gettoken(s, i).next) == Lexemes(s, i)
  {
    LexFirst(s, i);
    SkipTwice(s, i);
  }

  lemma {:induction false} BacksSound(s: string, i: nat, c: Cmd) returns (n: nat)
    requires i <= |s| && Clean(s) && Spanned(s, c)
    ensures var p := ParseBacks(s, i, c);
            p.next <= |s| && Lexemes(s, i) == Amps(n) + Lexemes(s, p.next) && p.cmd == Backed(c, n)
    decreases |s| - i
  {
    hide Peek, Gettoken, Skip, Lexemes, Clean, Spanned;
    if Peek(s, i, "&") {
      SymFirst(s, i, '&');
      var next := Gettoken(s, i).next;
      BackSpanned(s, c);
      var m := BacksSound(s, next, Back(c));
      n := m + 1;
      Cat([Sym('&')], Amps(m), Lexemes(s, ParseBacks(s, i, c).next));
    } else {
      LexSkip(s, i);
      n := 0;
    }
  }

  /** A symbol that peek has found. */
  lemma SymFirst(s: string, i: nat, c: char)
    requires i <= |s| && Clean(s) && Symbol(c) && c != '>' && Peek(s, i, [c])
    ensures var t := Gettoken(s, i); i < t.next <= |s| && Lexemes(s, i) == [Sym(c)] + Lexemes(s, t.next)
  {
    LexFirst(s, i);
    hide Lexemes, Clean;
  }

  /** The parser at i has read the tokens of a line, and is at n. */
  ghost predicate LineReads(s: string, i: nat, l: Line<Span>, n: nat) {
    i <= |s| && n <= |s| && LineOk(l) && Lexemes(s, i) == LineYield(l) + Lexemes(s, n)
  }

  ghost predicate PipeReads(s: string, i: nat, p: Pipeline<Span>, n: nat) {
    i <= |s| && n <= |s| && PipeOk(p) && Lexemes(s, i) == PipeYield(p) + Lexemes(s, n)
  }

  ghost predicate UnitReads(s: string, i: nat, u: Unit<Span>, n: nat) {
    i <= |s| && n <= |s| && UnitOk(u) && Lexemes(s, i) == UnitYield(u) + Lexemes(s, n)
  }

  lemma {:induction false} LineSound(s: string, i: nat) returns (l: Line<Span>)
    requires i <= |s| && Clean(s) && ParseLine(s, i).Ok?
    ensures LineReads(s, i, l, ParseLine(s, i).next) && LineMeans(l) == ParseLine(s, i).cmd
    decreases |s| - i, 3
  {
    hide Peek, Gettoken, Skip, Lexemes, Clean, Spanned, ParsePipe, ParseBacks, PipeOk, PipeYield, PipeMeans,
      Amps, Backed;
    var p := ParsePipe(s, i);
    var pipe := PipeSound(s, i);
    var b := ParseBacks(s, p.next, p.cmd);
    var n := BacksSound(s, p.next, p.cmd);
    if Peek(s, b.next, ";") {
      SymFirst(s, b.next, ';');
      var next := Gettoken(s, b.next).next;
      var r := LineSound(s, next);
      l := Line(pipe, n, Some(r));
      LineMore(s, i, pipe, p.next, n, b.next, next, r, ParseLine(s, i).next);
    } else {
      LexSkip(s, b.next);
      l := Line(pipe, n, None);
      LineLast(s, i, pipe, p.next, n, b.next, ParseLine(s, i).next);
    }
  }

  lemma LineMore(s: string, i: nat, pipe: Pipeline<Span>, j: nat, n: nat, k: nat, k': nat, r: Line<Span>, e: nat)
    requires PipeReads(s, i, pipe, j) && k <= |s| && Lexemes(s, j) == Amps(n) + Lexemes(s, k)
    requires k' <= |s| && Lexemes(s, k) == [Sym(';')] + Lexemes(s, k') && LineReads(s, k', r, e)
    ensures LineReads(s, i, Line(pipe, n, Some(r)), e)
  {
    hide Lexemes, PipeYield, Amps, PipeOk;
    var a, b: seq<Lexeme<Span>>, c, d, x := PipeYield(pipe), Amps(n), [Sym(';')], LineYield(r), Lexemes(s, e);
    assert a + (b + (c + (d + x))) == a + b + (c + d) + x;
  }

  lemma LineLast(s: string, i: nat, pipe: Pipeline<Span>, j: nat, n: nat, k: nat, e: nat)
    requires PipeReads(s, i, pipe, j) && k <= |s| && Lexemes(s, j) == Amps(n) + Lexemes(s, k)
    requires e <= |s| && Lexemes(s, e) == Lexemes(s, k)
    ensures LineReads(s, i, Line(pipe, n, None), e)
  {
    hide Lexemes, PipeYield, Amps, PipeOk;
    var a, b: seq<Lexeme<Span>>, x := PipeYield(pipe), Amps(n), Lexemes(s, e);
    assert a + (b + x) == a + b + [] + x;
  }

  lemma {:induction false} PipeSound(s: string, i: nat) returns (p: Pipeline<Span>)
    requires i <= |s| && Clean(s) && ParsePipe(s, i).Ok?
    ensures PipeReads(s, i, p, ParsePipe(s, i).next) && PipeMeans(p) == ParsePipe(s, i).cmd
    decreases |s| - i, 2
  {
    hide Peek, Gettoken, Skip, Lexemes, Clean, Spanned, ParseExec, UnitOk, UnitYield, UnitMeans;
    var x := ParseExec(s, i);
    var u := UnitSound(s, i);
    if Peek(s, x.next, "|") {
      SymFirst(s, x.next, '|');
      var next := Gettoken(s, x.next).next;
      var r := PipeSound(s, next);
      p := Pipeline(u, Some(r));
      Cat([Sym('|')], PipeYield(r), Lexemes(s, ParsePipe(s, i).next));
      Cat(UnitYield(u), [Sym('|')] + PipeYield(r), Lexemes(s, ParsePipe(s, i).next));
    } else {
      LexSkip(s, x.next);
      p := Pipeline(u, None);
      assert UnitYield(u) + [] == UnitYield(u);
    }
  }

  lemma {:induction false} UnitSound(s: string, i: nat) returns (u: Unit<Span>)
    requires i <= |s| && Clean(s) && ParseExec(s, i).Ok?
    ensures UnitReads(s, i, u, ParseExec(s, i).next) && UnitMeans(u) == ParseExec(s, i).cmd
    decreases |s| - i, 1
  {
    hide Peek, Gettoken, Skip, Lexemes, Clean, Spanned, ParseRedirs, ParseArgs, ParseBlock, ItemsOk, NoArgs,
      Args, Intos, ItemsYield, IsWord, Wrap;
    if Peek(s, i, "(") {
      u := BlockSound(s, i);
    } else {
      var r := ParseRedirs(s, i, []);
      RedirsWords(s, i, [], []);
      var first := RedirsSound(s, i, []);
      var rest := ArgsSound(s, r.next, [], r.list);
      var items := first + rest;
      u := Plain(items);
      ItemsSplit(first, rest);
      NoArgsArgs(first);
      ItemsOkCat(first, rest);
      Cat(ItemsYield(first), ItemsYield(rest), Lexemes(s, ParseExec(s, i).next));
      assert [] + Intos(first) == Intos(first) && [] + Args(rest) == Args(rest);
    }
  }

  lemma ItemsOkCat<W>(a: seq<Item<W>>, b: seq<Item<W>>)
    ensures ItemsOk(a + b) <==> ItemsOk(a) && ItemsOk(b)
  {
    hide Sign;
    assert forall k | 0 <= k < |a| :: (a + b)[k] == a[k];
    assert forall k | 0 <= k < |b| :: (a + b)[|a| + k] == b[k];
  }

  lemma {:induction false} BlockSound(s: string, i: nat) returns (u: Unit<Span>)
    requires i <= |s| && Clean(s) && ParseBlock(s, i).Ok?
    ensures UnitReads(s, i, u, ParseBlock(s, i).next) && UnitMeans(u) == ParseBlock(s, i).cmd
    decreases |s| - i, 0
  {
    hide Peek, Gettoken, Skip, Lexemes, Clean, Spanned, ParseRedirs, ParseLine, ItemsOk, NoArgs, Args, Intos,
      ItemsYield, Wrap, LineOk, LineYield, LineMeans;
    SymFirst(s, i, '(');
    var open := Gettoken(s, i).next;
    var p := ParseLine(s, open);
    var l := LineSound(s, open);
    SymFirst(s, p.next, ')');
    var close := Gettoken(s, p.next).next;
    var items := RedirsSound(s, close, []);
    u := Block(l, items);
    assert [] + Intos(items) == Intos(items);
    var x := Lexemes(s, ParseBlock(s, i).next);
    var a, b, c, d := [Sym('(')], LineYield(l), [Sym(')')], ItemsYield(items);
    assert a + (b + (c + (d + x))) == a + b + c + d + x;
  }

  // ---------------------------------------------------------------------------------------
  // Every reading of the tokens is what the parser returns
  // ---------------------------------------------------------------------------------------

  lemma SymNext(s: string, i: nat, c: char, more: seq<Lexeme<Span>>)
    requires i <= |s| && Clean(s) && Symbol(c) && c != '>' && Lexemes(s, i) == [Sym(c)] + more
    ensures var t := Gettoken(s, i); Peek(s, i, [c]) && i < t.next <= |s| && Lexemes(s, t.next) == more
  {
    PeekIs(s, i, [c]);
    LexFirst(s, i);
    hide Lexemes, Clean, Peek, Gettoken, Skip, Symbol;
    var t := Gettoken(s, i);
    assert [Sym(c)] + more == [Lexed(t)] + Lexemes(s, t.next);
    assert ([Sym(c)] + more)[1..] == more && ([Lexed(t)] + Lexemes(s, t.next))[1..] == Lexemes(s, t.next);
  }

  lemma NameNext(s: string, i: nat, w: Span, more: seq<Lexeme<Span>>)
    requires i <= |s| && Clean(s) && Lexemes(s, i) == [Name(w)] + more
    ensures var t := Gettoken(s, i);
            && t.kind == 'a' && Span(t.q, t.eq) == w && IsWord(s, w) && i < t.next <= |s| && Lexemes(s, t.next) == more
  {
    LexFirst(s, i);
    TokenForward(s, i);
    hide Lexemes, Clean, Gettoken, Skip, IsWord;
    var t := Gettoken(s, i);
    assert [Name(w)] + more == [Lexed(t)] + Lexemes(s, t.next);
    assert ([Name(w)] + more)[0] == Lexed(t);
    assert ([Name(w)] + more)[1..] == more && ([Lexed(t)] + Lexemes(s, t.next))[1..] == Lexemes(s, t.next);
  }

  lemma RedirNext(s: string, i: nat, sign: char, file: Span, more: seq<Lexeme<Span>>)
    requires i <= |s| && Clean(s) && Sign(sign) && Lexemes(s, i) == [Sym(sign), Name(file)] + more
    ensures var t := Gettoken(s, i);
            && Peek(s, i, "<>") && t.kind == sign && i < t.next <= |s|
            && Lexemes(s, t.next) == [Name(file)] + more
  {
    PeekIs(s, i, "<>");
    LexFirst(s, i);
    hide Lexemes, Clean, Peek, Gettoken, Skip;
    var t := Gettoken(s, i);
    assert Lexemes(s, i)[0] == Sym(sign) && Lexemes(s, i)[1..] == [Name(file)] + more;
    assert ([Lexed(t)] + Lexemes(s, t.next))[1..] == Lexemes(s, t.next);
  }

  lemma {:induction false} RedirsComplete(s: string, i: nat, rs: seq<Redirection>, items: seq<Item<Span>>,
                                          rest: seq<Lexeme<Span>>)
    requires i <= |s| && Clean(s) && ItemsOk(items) && NoArgs(items)
    requires Lexemes(s, i) == ItemsYield(items) + rest && !Starts(rest, "<>+")
    ensures var r := ParseRedirs(s, i, rs);
            r.Redirs? && r.next <= |s| && r.list == rs + Intos(items) && Lexemes(s, r.next) == rest
    decreases |items|
  {
    hide Peek, Gettoken, Skip, Lexemes, ItemsYield, Intos, Clean, Sign, ItemsOk, NoArgs, IsWord;
    if items == [] {
      NoItems();
      assert [] + rest == rest;
      PeekIs(s, i, "<>");
      LexSkip(s, i);
    } else {
      var it, more := items[0], items[1..];
      assert items == [it] + more;
      FirstInto(items);
      ItemsMore(it, more);
      ItemsOkMore(it, more);
      Cat(ItemYield(it), ItemsYield(more), rest);
      RedirNext(s, i, it.sign, it.file, ItemsYield(more) + rest);
      var tok := Gettoken(s, i);
      NameNext(s, tok.next, it.file, ItemsYield(more) + rest);
      var file := Gettoken(s, tok.next);
      var r := Redirection(it.file, ModeFor(it.sign));
      RedirsComplete(s, file.next, rs + [r], more, rest);
      Cat(rs, [r], Intos(more));
    }
  }

  lemma FirstInto<W>(items: seq<Item<W>>)
    requires items != [] && ItemsOk(items) && NoArgs(items)
    ensures items[0].Into? && Sign(items[0].sign)
  {
  }

  /** How many redirections stand in front. */
  function Leading<W>(items: seq<Item<W>>): (n: nat)
    ensures n <= |items| && NoArgs(items[..n]) && (n < |items| ==> items[n].Arg?)
  {
    if items == [] || items[0].Arg? then 0
    else
      var n := Leading(items[1..]);
      assert items[..n + 1] == [items[0]] + items[1..][..n];
      n + 1
  }

  lemma ItemsStart<W>(items: seq<Item<W>>, rest: seq<Lexeme<W>>, cs: string)
    requires items != [] && items[0].Arg?
    ensures !Starts(ItemsYield(items) + rest, cs)
  {
    assert (ItemsYield(items) + rest)[0] == Name(items[0].w);
  }

  /** What may follow a unit. */
  ghost predicate Ends<W>(rest: seq<Lexeme<W>>, cs: string) {
    rest == [] || Starts(rest, cs)
  }

  /** What can follow redirections within a unit is not one. */
  lemma NoSign<W>(items: seq<Item<W>>, rest: seq<Lexeme<W>>)
    requires items == [] || items[0].Arg?
    requires Ends(rest, "|)&;")
    ensures !Starts(ItemsYield(items) + rest, "<>+")
  {
    if items == [] {
      assert ItemsYield(items) + rest == rest;
    } else {
      ItemsStart(items, rest, "<>+");
    }
  }

  lemma {:induction false} ArgsComplete(s: string, i: nat, args: seq<Span>, rs: seq<Redirection>,
                                        items: seq<Item<Span>>, rest: seq<Lexeme<Span>>)
    requires i <= |s| && Clean(s) && |args| < MAXARGS && WordsOf(s, args, rs)
    requires ItemsOk(items) && |args + Args(items)| < MAXARGS && (items == [] || items[0].Arg?)
    requires Lexemes(s, i) == ItemsYield(items) + rest && Ends(rest, "|)&;")
    ensures var p := ParseArgs(s, i, args, rs);
            && p.Ok? && p.next <= |s| && Lexemes(s, p.next) == rest
            && p.cmd == Wrap(Exec(args + Args(items)), rs + Intos(items))
    decreases |items|
  {
    hide Peek, Gettoken, Skip, Lexemes, ItemsYield, Intos, Args, Clean, Sign, ItemsOk, NoArgs, ParseRedirs,
      IsWord, Wrap;
    if items == [] {
      NoItems();
      assert [] + rest == rest && args + [] == args && rs + [] == rs;
      PeekIs(s, i, "|)&;");
      LexFirst(s, i);
      LexSkip(s, i);
      if rest == [] { NulNext(s, i); }
    } else {
      var w, n := items[0].w, Leading(items[1..]);
      var redirs, more := items[1..][..n], items[1..][n..];
      assert items == [Arg(w)] + (redirs + more);
      ItemsOkMore(Arg(w), redirs + more);
      ItemsOkCat(redirs, more);
      ItemsChain(w, redirs, more);
      var onward := ItemsYield(more) + rest;
      Cat(ItemsYield(redirs), ItemsYield(more), rest);
      Cat([Name(w)], ItemsYield(redirs) + ItemsYield(more), rest);
      assert Lexemes(s, i) == [Name(w)] + (ItemsYield(redirs) + onward);
      NotSym(s, i, w, ItemsYield(redirs) + onward, "|)&;");
      NameNext(s, i, w, ItemsYield(redirs) + onward);
      var tok := Gettoken(s, i);
      NoSign(more, rest);
      RedirsComplete(s, tok.next, rs, redirs, onward);
      var args' := args + [w];
      Cat(args, [w], Args(more));
      ArgAdded(s, args, rs, w);
      RedirsWords(s, tok.next, args', rs);
      var r := ParseRedirs(s, tok.next, rs);
      ArgsComplete(s, r.next, args', r.list, more, rest);
      Cat(rs, Intos(redirs), Intos(more));
    }
  }

  lemma ArgAdded(s: string, args: seq<Span>, rs: seq<Redirection>, w: Span)
    requires WordsOf(s, args, rs) && IsWord(s, w)
    ensures WordsOf(s, args + [w], rs)
  {
    hide IsWord;
  }

  lemma NotSym(s: string, i: nat, w: Span, more: seq<Lexeme<Span>>, cs: string)
    requires i <= |s| && Clean(s) && (forall c | c in cs :: Symbol(c)) && Lexemes(s, i) == [Name(w)] + more
    ensures !Peek(s, i, cs)
  {
    PeekIs(s, i, cs);
    hide Lexemes, Peek, Clean;
    assert Lexemes(s, i)[0] == Name(w);
  }

  lemma {:induction false} BacksComplete(s: string, i: nat, c: Cmd, n: nat, rest: seq<Lexeme<Span>>)
    requires i <= |s| && Clean(s) && Spanned(s, c) && Lexemes(s, i) == Amps(n) + rest && !Starts(rest, "&")
    ensures var p := ParseBacks(s, i, c); p.next <= |s| && Lexemes(s, p.next) == rest && p.cmd == Backed(c, n)
    decreases n
  {
    hide Peek, Gettoken, Skip, Lexemes, Clean, Spanned;
    if n == 0 {
      assert Amps(n) + rest == rest;
      PeekIs(s, i, "&");
      LexSkip(s, i);
    } else {
      Cat([Sym('&')], Amps(n - 1), rest);
      SymNext(s, i, '&', Amps(n - 1) + rest);
      BackSpanned(s, c);
      BacksComplete(s, Gettoken(s, i).next, Back(c), n - 1, rest);
    }
  }

  lemma {:induction false} UnitComplete(s: string, i: nat, u: Unit<Span>, rest: seq<Lexeme<Span>>)
    requires i <= |s| && Clean(s) && UnitOk(u) && Lexemes(s, i) == UnitYield(u) + rest && Ends(rest, "|)&;")
    ensures var p := ParseExec(s, i); p.Ok? && p.next <= |s| && p.cmd == UnitMeans(u) && Lexemes(s, p.next) == rest
    decreases u
  {
    hide Peek, Gettoken, Skip, Lexemes, Clean, Spanned, ParseRedirs, ParseArgs, ParseBlock, ItemsOk, NoArgs,
      Args, Intos, ItemsYield, IsWord, Wrap, Sign, LineOk, LineYield, LineMeans;
    match u
    case Plain(items) => PlainComplete(s, i, items, rest);
    case Block(l, items) =>
      var after := [Sym(')')] + (ItemsYield(items) + rest);
      var a, b, c, d := [Sym('(')], LineYield(l), [Sym(')')], ItemsYield(items);
      assert a + b + c + d + rest == a + (b + (c + (d + rest)));
      SymNext(s, i, '(', LineYield(l) + after);
      var open := Gettoken(s, i).next;
      LineComplete(s, open, l, after);
      BlockEnds(s, i, l, items, rest);
  }

  lemma BlockEnds(s: string, i: nat, l: Line<Span>, items: seq<Item<Span>>, rest: seq<Lexeme<Span>>)
    requires i <= |s| && Clean(s) && Peek(s, i, "(") && ItemsOk(items) && NoArgs(items) && Ends(rest, "|)&;")
    requires Gettoken(s, i).next <= |s|
    requires var p := ParseLine(s, Gettoken(s, i).next);
             && p.Ok? && p.next <= |s| && p.cmd == LineMeans(l)
             && Lexemes(s, p.next) == [Sym(')')] + (ItemsYield(items) + rest)
    ensures var p := ParseExec(s, i);
            p.Ok? && p.next <= |s| && p.cmd == Wrap(LineMeans(l), Intos(items)) && Lexemes(s, p.next) == rest
  {
    hide Peek, Gettoken, Skip, Lexemes, Clean, Spanned, ParseRedirs, ParseLine, ItemsOk, NoArgs, Intos,
      ItemsYield, IsWord, Wrap, Sign, LineMeans;
    var p := ParseLine(s, Gettoken(s, i).next);
    SymNext(s, p.next, ')', ItemsYield(items) + rest);
    RestNoSign(rest);
    RedirsComplete(s, Gettoken(s, p.next).next, [], items, rest);
    assert [] + Intos(items) == Intos(items);
  }

  lemma RestNoSign<W>(rest: seq<Lexeme<W>>)
    requires Ends(rest, "|)&;")
    ensures !Starts(rest, "<>+")
  {
  }

  lemma PlainComplete(s: string, i: nat, items: seq<Item<Span>>, rest: seq<Lexeme<Span>>)
    requires i <= |s| && Clean(s) && ItemsOk(items) && |Args(items)| < MAXARGS
    requires Lexemes(s, i) == ItemsYield(items) + rest && Ends(rest, "|)&;")
    ensures var p := ParseExec(s, i);
            p.Ok? && p.next <= |s| && p.cmd == Wrap(Exec(Args(items)), Intos(items)) && Lexemes(s, p.next) == rest
  {
    hide Peek, Gettoken, Skip, Lexemes, Clean, Spanned, ParseRedirs, ParseArgs, ParseBlock, ItemsOk, NoArgs,
      Args, Intos, ItemsYield, IsWord, Wrap, Sign;
    NotBlock(s, i, items, rest);
    var n := Leading(items);
    var first, more := items[..n], items[n..];
    assert items == first + more;
    ItemsSplit(first, more);
    ItemsOkCat(first, more);
    NoArgsArgs(first);
    NoSign(more, rest);
    Cat(ItemsYield(first), ItemsYield(more), rest);
    RedirsComplete(s, i, [], first, ItemsYield(more) + rest);
    var r := ParseRedirs(s, i, []);
    RedirsWords(s, i, [], []);
    assert [] + Args(more) == Args(more) && [] + Intos(first) == Intos(first);
    ArgsComplete(s, r.next, [], r.list, more, rest);
  }

  lemma NotBlock(s: string, i: nat, items: seq<Item<Span>>, rest: seq<Lexeme<Span>>)
    requires i <= |s| && Clean(s) && ItemsOk(items) && Lexemes(s, i) == ItemsYield(items) + rest && Ends(rest, "|)&;")
    ensures !Peek(s, i, "(")
  {
    hide Lexemes, Clean, Peek, Gettoken, Skip;
    PeekIs(s, i, "(");
    if items == [] {
      assert Lexemes(s, i) == rest;
    } else {
      assert Lexemes(s, i)[0] == ItemYield(items[0])[0];
    }
  }

  lemma {:induction false} PipeComplete(s: string, i: nat, p: Pipeline<Span>, rest: seq<Lexeme<Span>>)
    requires i <= |s| && Clean(s) && PipeOk(p) && Lexemes(s, i) == PipeYield(p) + rest && Ends(rest, ")&;")
    ensures var x := ParsePipe(s, i);
            x.Ok? && x.next <= |s| && x.cmd == PipeMeans(p) && Lexemes(s, x.next) == rest && Spanned(s, x.cmd)
    decreases p
  {
    hide Peek, Gettoken, Skip, Lexemes, Clean, Spanned, ParseExec, UnitOk, UnitYield, UnitMeans;
    match p.rest
    case None =>
      assert UnitYield(p.first) + [] == UnitYield(p.first);
      UnitComplete(s, i, p.first, rest);
      var n := ParseExec(s, i).next;
      PeekIs(s, n, "|");
      LexSkip(s, n);
    case Some(r) =>
      var after := [Sym('|')] + (PipeYield(r) + rest);
      var a, b, c := UnitYield(p.first), [Sym('|')], PipeYield(r);
      assert a + (b + c) + rest == a + (b + (c + rest));
      UnitComplete(s, i, p.first, after);
      var n := ParseExec(s, i).next;
      SymNext(s, n, '|', PipeYield(r) + rest);
      PipeComplete(s, Gettoken(s, n).next, r, rest);
  }

  lemma {:induction false} LineComplete(s: string, i: nat, l: Line<Span>, rest: seq<Lexeme<Span>>)
    requires i <= |s| && Clean(s) && LineOk(l) && Lexemes(s, i) == LineYield(l) + rest && Ends(rest, ")")
    ensures var p := ParseLine(s, i); p.Ok? && p.next <= |s| && p.cmd == LineMeans(l) && Lexemes(s, p.next) == rest
    decreases l
  {
    hide Peek, Gettoken, Skip, Lexemes, Clean, Spanned, ParsePipe, ParseBacks, PipeOk, PipeYield, PipeMeans,
      Amps, Backed;
    var tail := match l.rest case None => rest case Some(r) => [Sym(';')] + (LineYield(r) + rest);
    LineTail(l, rest, tail);
    AmpsStart(l.backs, tail);
    PipeComplete(s, i, l.pipe, Amps(l.backs) + tail);
    var p := ParsePipe(s, i);
    BacksComplete(s, p.next, p.cmd, l.backs, tail);
    var b := ParseBacks(s, p.next, p.cmd);
    match l.rest
    case None =>
      PeekIs(s, b.next, ";");
      LexSkip(s, b.next);
    case Some(r) =>
      SymNext(s, b.next, ';', LineYield(r) + rest);
      LineComplete(s, Gettoken(s, b.next).next, r, rest);
  }

  lemma LineTail<W>(l: Line<W>, rest: seq<Lexeme<W>>, tail: seq<Lexeme<W>>)
    requires tail == match l.rest case None => rest case Some(r) => [Sym(';')] + (LineYield(r) + rest)
    ensures LineYield(l) + rest == PipeYield(l.pipe) + (Amps(l.backs) + tail)
  {
    hide PipeYield, Amps;
    var a, b: seq<Lexeme<W>> := PipeYield(l.pipe), Amps(l.backs);
    match l.rest
    case None => assert a + b + [] + rest == a + (b + rest);
    case Some(r) =>
      var c, d: seq<Lexeme<W>> := [Sym(';')], LineYield(r);
      assert a + b + (c + d) + rest == a + (b + (c + (d + rest)));
  }

  lemma AmpsStart<W>(n: nat, tail: seq<Lexeme<W>>)
    requires Ends(tail, ");")
    ensures Ends(Amps(n) + tail, ")&;") && !Starts(tail, "&")
  {
    if n == 0 {
      assert Amps(n) + tail == tail;
    } else {
      assert (Amps(n) + tail)[0] == Sym('&');
    }
  }

  // ---------------------------------------------------------------------------------------
  // The parser and the grammar
  // ---------------------------------------------------------------------------------------

  /** c is a reading of the tokens of the line. */
  ghost predicate Reading(s: string, c: Cmd) {
    exists l: Line<Span> :: LineOk(l) && LineYield(l) == Lexemes(s, 0) && LineMeans(l) == c
  }

  /** parsecmd returns exactly the readings of the line; so there is at most one, and it panics exactly if there is
      none. */
  lemma ParsesExactly(s: string, c: Cmd)
    requires Clean(s)
    ensures ParseCmd(s).Ok? && ParseCmd(s).cmd == c <==> Reading(s, c)
  {
    hide Lexemes, LineYield, LineMeans, LineOk, ParseLine, Skip, Gettoken, Clean;
    if ParseCmd(s).Ok? && ParseCmd(s).cmd == c {
      var l := LineSound(s, 0);
      LexFirst(s, ParseLine(s, 0).next);
      assert LineYield(l) + [] == LineYield(l);
    }
    if Reading(s, c) {
      var l: Line<Span> :| LineOk(l) && LineYield(l) == Lexemes(s, 0) && LineMeans(l) == c;
      assert LineYield(l) + [] == LineYield(l);
      LineComplete(s, 0, l, []);
      LexFirst(s, ParseLine(s, 0).next);
    }
  }

  // ---------------------------------------------------------------------------------------
  // No word is lost
  // ---------------------------------------------------------------------------------------

  function Names<W>(ls: seq<Lexeme<W>>): seq<W> {
    if ls == [] then [] else (if ls[0].Name? then [ls[0].w] else []) + Names(ls[1..])
  }

  /** The arguments and file names of a command. */
  function Words<W>(c: Command<W>): seq<W> {
    match c
    case Exec(args) => args
    case Redir(d, file, _) => Words(d) + [file]
    case Pipe(l, r) => Words(l) + Words(r)
    case List(l, r) => Words(l) + Words(r)
    case Back(d) => Words(d)
  }

  function Files<W>(rs: seq<RedirectionOf<W>>): seq<W> {
    if rs == [] then [] else [rs[0].file] + Files(rs[1..])
  }

  lemma {:induction false} NamesCat<W>(a: seq<Lexeme<W>>, b: seq<Lexeme<W>>)
    ensures Names(a + b) == Names(a) + Names(b)
    decreases |a|
  {
    if a == [] {
      assert a + b == b;
    } else {
      NamesCat(a[1..], b);
      assert (a + b)[1..] == a[1..] + b;
      hide Names;
      Cat(if a[0].Name? then [a[0].w] else [], Names(a[1..]), Names(b));
    }
  }

  lemma {:induction false} NamesAmps(n: nat)
    ensures Names(Amps<Span>(n)) == []
  {
    if n > 0 {
      NamesAmps(n - 1);
      assert Amps<Span>(n)[1..] == Amps<Span>(n - 1);
    }
  }

  lemma {:induction false} NamesItems(items: seq<Item<Span>>)
    ensures multiset(Names(ItemsYield(items))) == multiset(Args(items)) + multiset(Files(Intos(items)))
  {
    if items != [] {
      var it, more := items[0], items[1..];
      NamesItems(more);
      NamesCat(ItemYield(it), ItemsYield(more));
      NamesItem(it);
      FilesCat(if it.Into? then [Redirection(it.file, ModeFor(it.sign))] else [], Intos(more));
    }
  }

  lemma NamesItem(it: Item<Span>)
    ensures Names(ItemYield(it)) == [if it.Arg? then it.w else it.file]
  {
    var w := if it.Arg? then it.w else it.file;
    assert Names([Name(w)]) == [w] + Names<Span>([]);
    if it.Into? {
      assert ItemYield(it)[1..] == [Name(w)];
      assert Names(ItemYield(it)) == Names([Name(w)]);
    }
  }

  lemma FilesCat<W>(a: seq<RedirectionOf<W>>, b: seq<RedirectionOf<W>>)
    requires |a| <= 1
    ensures Files(a + b) == (if a == [] then [] else [a[0].file]) + Files(b)
  {
    if a == [] {
      assert a + b == b;
    } else {
      assert (a + b)[1..] == b;
    }
  }

  lemma {:induction false} WordsWrap(c: Cmd, rs: seq<Redirection>)
    ensures multiset(Words(Wrap(c, rs))) == multiset(Words(c)) + multiset(Files(rs))
    decreases |rs|
  {
    if rs != [] {
      WordsWrap(Redir(c, rs[0].file, rs[0].mode), rs[1..]);
    }
  }

  lemma {:induction false} WordsBacked(c: Cmd, n: nat)
    ensures Words(Backed(c, n)) == Words(c)
    decreases n
  {
    if n > 0 { WordsBacked(Back(c), n - 1); }
  }

  lemma {:induction false} UnitWords(u: Unit<Span>)
    requires UnitOk(u)
    ensures multiset(Words(UnitMeans(u))) == multiset(Names(UnitYield(u)))
    decreases u
  {
    hide Names, Wrap, LineYield, LineMeans, ItemsYield, Args, Intos, Files;
    NamesItems(u.items);
    match u
    case Plain(items) => WordsWrap(Exec(Args(items)), Intos(items));
    case Block(l, items) =>
      LineWords(l);
      WordsWrap(LineMeans(l), Intos(items));
      NoArgsArgs(items);
      NamesCat([Sym('(')] + LineYield(l) + [Sym(')')], ItemsYield(items));
      NamesCat([Sym('(')] + LineYield(l), [Sym(')')]);
      NamesCat([Sym('(')], LineYield(l));
      NamesSym('(');
      NamesSym(')');
  }

  lemma NamesSym(c: char)
    ensures Names<Span>([Sym(c)]) == [] && Names<Span>([]) == []
  {
  }

  lemma {:induction false} PipeWords(p: Pipeline<Span>)
    requires PipeOk(p)
    ensures multiset(Words(PipeMeans(p))) == multiset(Names(PipeYield(p)))
    decreases p
  {
    hide Names, UnitYield, UnitMeans;
    UnitWords(p.first);
    NamesSym('|');
    match p.rest
    case None => NamesCat(UnitYield(p.first), []);
    case Some(r) =>
      PipeWords(r);
      NamesCat(UnitYield(p.first), [Sym('|')] + PipeYield(r));
      NamesCat([Sym('|')], PipeYield(r));
  }

  lemma {:induction false} LineWords(l: Line<Span>)
    requires LineOk(l)
    ensures multiset(Words(LineMeans(l))) == multiset(Names(LineYield(l)))
    decreases l
  {
    hide Names, PipeYield, PipeMeans, Backed, Amps;
    PipeWords(l.pipe);
    WordsBacked(PipeMeans(l.pipe), l.backs);
    NamesAmps(l.backs);
    NamesSym(';');
    NamesCat(PipeYield(l.pipe), Amps(l.backs));
    match l.rest
    case None => NamesCat(PipeYield(l.pipe) + Amps(l.backs), []);
    case Some(r) =>
      LineWords(r);
      NamesCat(PipeYield(l.pipe) + Amps(l.backs), [Sym(';')] + LineYield(r));
      NamesCat([Sym(';')], LineYield(r));
  }

  /** The arguments and file names of a parsed command are the words of the line, each once. */
  lemma EveryWordOnce(s: string)
    requires Clean(s) && ParseCmd(s).Ok?
    ensures multiset(Words(ParseCmd(s).cmd)) == multiset(Names(Lexemes(s, 0)))
  {
    hide Names, Words, Lexemes, LineYield, LineMeans, LineOk, ParseCmd;
    var c := ParseCmd(s).cmd;
    ParsesExactly(s, c);
    var l: Line<Span> :| LineOk(l) && LineYield(l) == Lexemes(s, 0) && LineMeans(l) == c;
    LineWords(l);
  }
}
