/** Printing commands, and why the parser of xv6/sh.c gives them back: with their redirections in front of,
    between and behind the arguments, or around parentheses. */
module ShellPrint {
  import opened Basics
  import opened Shell
  import opened ShellGrammar

  predicate Legal(w: string) {
    |w| > 0 && forall k | 0 <= k < |w| :: WordChar(w[k])
  }

  function Text(s: string, w: Span): string {
    if w.q <= w.eq <= |s| then s[w.q..w.eq] else ""
  }

  function Texts(s: string, ws: seq<Span>): seq<string> {
    seq(|ws|, k requires 0 <= k < |ws| => Text(s, ws[k]))
  }

  /** The words of a parsed command. */
  function Erase(s: string, c: Cmd): Command<string> {
    match c
    case Exec(args) => Exec(Texts(s, args))
    case Redir(d, file, mode) => Redir(Erase(s, d), Text(s, file), mode)
    case Pipe(l, r) => Pipe(Erase(s, l), Erase(s, r))
    case List(l, r) => List(Erase(s, l), Erase(s, r))
    case Back(d) => Back(Erase(s, d))
  }

  // ---------------------------------------------------------------------------------------
  // Tokens
  // ---------------------------------------------------------------------------------------

  function Spelled(l: Lexeme<string>): string {
    match l
    case Sym(c) => if c == '+' then ">>" else [c]
    case Name(w) => w
  }

  /** Each token behind a blank. */
  function Spell(ls: seq<Lexeme<string>>): string {
    if ls == [] then "" else " " + Spelled(ls[0]) + Spell(ls[1..])
  }

  predicate Spellable(l: Lexeme<string>) {
    match l
    case Sym(c) => Symbol(c) || c == '+'
    case Name(w) => Legal(w)
  }

  function Said(s: string, l: Lexeme<Span>): Lexeme<string> {
    match l
    case Sym(c) => Sym(c)
    case Name(w) => Name(Text(s, w))
  }

  function SaidAll(s: string, ls: seq<Lexeme<Span>>): seq<Lexeme<string>> {
    seq(|ls|, k requires 0 <= k < |ls| => Said(s, ls[k]))
  }

  lemma Behind(s: string, i: nat, w: string, more: string)
    requires i <= |s| && s[i..] == " " + w + more
    ensures var e := i + 1 + |w|; e <= |s| && s[i] == ' ' && s[i + 1..e] == w && s[e..] == more
  {
    var x := " " + w + more;
    assert |s| == i + 1 + |w| + |more|;
    assert s[i] == s[i..][0] == x[0];
    assert s[i + 1..i + 1 + |w|] == s[i..][1..1 + |w|] == x[1..1 + |w|] == w;
    assert s[i + 1 + |w|..] == s[i..][1 + |w|..] == x[1 + |w|..] == more;
  }

  lemma SpellFirst(s: string, i: nat, ls: seq<Lexeme<string>>)
    requires i <= |s| && ls != [] && s[i..] == Spell(ls)
    ensures var w := Spelled(ls[0]);
            var e := i + 1 + |w|;
            e <= |s| && s[i] == ' ' && s[i + 1..e] == w && s[e..] == Spell(ls[1..]) && (e < |s| ==> s[e] == ' ')
  {
    var w, more := Spelled(ls[0]), Spell(ls[1..]);
    BlankFirst(ls[1..]);
    hide Spelled;
    assert Spell(ls) == " " + w + more;
    hide Spell;
    Behind(s, i, w, more);
    var e := i + 1 + |w|;
    if e < |s| { assert s[e] == s[e..][0]; }
  }

  lemma BlankFirst(ls: seq<Lexeme<string>>)
    ensures Spell(ls) != [] ==> Spell(ls)[0] == ' '
  {
  }

  lemma OneBlank(s: string, i: nat)
    requires i < |s| && s[i] == ' ' && !Blank(At(s, i + 1))
    ensures Skip(s, i) == i + 1
  {
    assert Skip(s, i + 1) == i + 1;
  }

  lemma WordRead(s: string, i: nat, e: nat)
    requires i < |s| && s[i] == ' ' && i + 1 < e <= |s| && Legal(s[i + 1..e]) && (e < |s| ==> s[e] == ' ')
    ensures Gettoken(s, i) == Token('a', i + 1, e, Skip(s, e))
  {
    var w := s[i + 1..e];
    assert forall k | i + 1 <= k < e :: s[k] == w[k - i - 1];
    assert WordChar(s[i + 1]);
    OneBlank(s, i);
    assert WordEnd(s, i + 1) == e;
    hide Skip, WordEnd;
  }

  lemma SymbolRead(s: string, i: nat)
    requires i + 1 < |s| && s[i] == ' ' && Symbol(s[i + 1]) && (i + 2 < |s| ==> s[i + 2] == ' ')
    ensures Gettoken(s, i) == Token(s[i + 1], i + 1, i + 2, Skip(s, i + 2))
  {
    OneBlank(s, i);
    hide Skip;
  }

  lemma AppendRead(s: string, i: nat)
    requires i + 2 < |s| && s[i] == ' ' && s[i + 1] == '>' && s[i + 2] == '>'
    ensures Gettoken(s, i) == Token('+', i + 1, i + 3, Skip(s, i + 3))
  {
    OneBlank(s, i);
    hide Skip;
  }

  /** gettoken at a blank finds the token behind it. */
  lemma TokenRead(s: string, i: nat, l: Lexeme<string>, e: nat)
    requires Spellable(l) && i < |s| && s[i] == ' ' && e == i + 1 + |Spelled(l)| <= |s|
    requires s[i + 1..e] == Spelled(l) && (e < |s| ==> s[e] == ' ')
    ensures var t := Gettoken(s, i); t.kind != NUL && Said(s, Lexed(t)) == l && t.next == Skip(s, e)
  {
    hide Gettoken, Skip;
    var w := Spelled(l);
    assert |w| > 0 ==> s[i + 1] == s[i + 1..e][0] == w[0];
    match l
    case Sym(c) =>
      if c == '+' {
        assert s[i + 2] == s[i + 1..e][1];
        AppendRead(s, i);
      } else {
        SymbolRead(s, i);
      }
    case Name(_) =>
      WordRead(s, i, e);
  }

  /** The tokens of spelled tokens are those tokens. */
  lemma {:induction false} SpellLexes(s: string, i: nat, ls: seq<Lexeme<string>>)
    requires i <= |s| && s[i..] == Spell(ls) && forall k | 0 <= k < |ls| :: Spellable(ls[k])
    ensures SaidAll(s, Lexemes(s, i)) == ls
    decreases |ls|
  {
    hide Gettoken, Skip, Spelled, Spellable, Said, Lexemes;
    if ls == [] {
      assert i == |s|;
      NoLexemes(s);
    } else {
      SpellFirst(s, i, ls);
      var e := i + 1 + |Spelled(ls[0])|;
      TokenRead(s, i, ls[0], e);
      hide Spell;
      SpellLexes(s, e, ls[1..]);
      OneLexeme(s, i, e);
      SaidMore(s, Lexed(Gettoken(s, i)), Lexemes(s, e));
    }
  }

  lemma NoLexemes(s: string)
    ensures Lexemes(s, |s|) == []
  {
  }

  lemma OneLexeme(s: string, i: nat, e: nat)
    requires i <= |s| && e <= |s| && Gettoken(s, i).kind != NUL && Gettoken(s, i).next == Skip(s, e)
    ensures Lexemes(s, i) == [Lexed(Gettoken(s, i))] + Lexemes(s, e)
  {
    LexSkip(s, e);
    hide Gettoken, Skip;
  }

  lemma SaidMore(s: string, l: Lexeme<Span>, ls: seq<Lexeme<Span>>)
    ensures SaidAll(s, [l] + ls) == [Said(s, l)] + SaidAll(s, ls)
  {
    hide Said;
  }

  lemma SaidParts(s: string, ls: seq<Lexeme<Span>>, a: seq<Lexeme<string>>, b: seq<Lexeme<string>>)
    requires SaidAll(s, ls) == a + b
    ensures |ls| == |a| + |b| && SaidAll(s, ls[..|a|]) == a && SaidAll(s, ls[|a|..]) == b
  {
    hide Said;
    assert forall k | 0 <= k < |ls| :: SaidAll(s, ls)[k] == Said(s, ls[k]);
  }

  lemma SaidSym(s: string, ls: seq<Lexeme<Span>>, c: char)
    requires SaidAll(s, ls) == [Sym(c)]
    ensures ls == [Sym(c)]
  {
    assert SaidAll(s, ls)[0] == Said(s, ls[0]);
  }

  lemma SaidName(s: string, ls: seq<Lexeme<Span>>, w: string) returns (v: Span)
    requires SaidAll(s, ls) == [Name(w)]
    ensures ls == [Name(v)] && Text(s, v) == w
  {
    assert SaidAll(s, ls)[0] == Said(s, ls[0]);
    v := ls[0].w;
  }

  // ---------------------------------------------------------------------------------------
  // A syntax tree of strings, with the places of its words
  // ---------------------------------------------------------------------------------------

  lemma PlacedItem(s: string, it: Item<string>, ls: seq<Lexeme<Span>>) returns (it': Item<Span>)
    requires SaidAll(s, ls) == ItemYield(it)
    ensures ItemYield(it') == ls && it'.Arg? == it.Arg?
    ensures it.Arg? ==> Text(s, it'.w) == it.w
    ensures it.Into? ==> it'.sign == it.sign && Text(s, it'.file) == it.file
  {
    hide Text, SaidAll;
    match it
    case Arg(w) =>
      var v := SaidName(s, ls, w);
      it' := Arg(v);
    case Into(sign, file) =>
      assert ItemYield(it) == [Sym(sign)] + [Name(file)];
      SaidParts(s, ls, [Sym(sign)], [Name(file)]);
      SaidSym(s, ls[..1], sign);
      var v := SaidName(s, ls[1..], file);
      it' := Into(sign, v);
      assert ls == ls[..1] + ls[1..];
  }

  function TextsOf(s: string, rs: seq<Redirection>): seq<RedirectionOf<string>> {
    seq(|rs|, k requires 0 <= k < |rs| => Redirection(Text(s, rs[k].file), rs[k].mode))
  }

  /** The same items, with their places. */
  ghost predicate Matched(s: string, items: seq<Item<string>>, items': seq<Item<Span>>) {
    && Texts(s, Args(items')) == Args(items) && TextsOf(s, Intos(items')) == Intos(items)
    && (ItemsOk(items) ==> ItemsOk(items')) && (NoArgs(items) ==> NoArgs(items'))
  }

  lemma {:induction false} PlacedItems(s: string, items: seq<Item<string>>, ls: seq<Lexeme<Span>>)
      returns (items': seq<Item<Span>>)
    requires SaidAll(s, ls) == ItemsYield(items)
    ensures ItemsYield(items') == ls && Matched(s, items, items')
    decreases |items|
  {
    hide SaidAll, Matched, ItemYield, Text;
    if items == [] {
      items' := [];
      SaidNone(s, ls);
      MatchedNone(s);
    } else {
      var it, more := items[0], items[1..];
      SaidParts(s, ls, ItemYield(it), ItemsYield(more));
      var n := |ItemYield(it)|;
      hide ItemsYield;
      var it' := PlacedItem(s, it, ls[..n]);
      var more' := PlacedItems(s, more, ls[n..]);
      items' := [it'] + more';
      ItemsMore(it', more');
      assert ls == ls[..n] + ls[n..] && items == [it] + more;
      MatchedMore(s, it, more, it', more');
    }
  }

  lemma SaidNone(s: string, ls: seq<Lexeme<Span>>)
    requires SaidAll(s, ls) == []
    ensures ls == []
  {
  }

  lemma MatchedNone(s: string)
    ensures Matched(s, [], [])
  {
    assert Texts(s, []) == [] && TextsOf(s, []) == [];
  }

  lemma MatchedMore(s: string, it: Item<string>, items: seq<Item<string>>, it': Item<Span>, items': seq<Item<Span>>)
    requires Matched(s, items, items') && it'.Arg? == it.Arg? && (it.Arg? ==> Text(s, it'.w) == it.w)
    requires it.Into? ==> it'.sign == it.sign && Text(s, it'.file) == it.file
    ensures Matched(s, [it] + items, [it'] + items')
  {
    hide Text, ItemsYield, ItemsOk, NoArgs, Args, Intos, Sign;
    ItemsMore(it, items);
    ItemsMore(it', items');
    if ItemsOk([it] + items) {
      ItemsOkTail(it, items);
      ItemsOkMore(it', items');
    }
    if NoArgs([it] + items) {
      NoArgsTail(it, items);
      NoArgsMore(it', items');
    }
    if it.Arg? {
      assert Texts(s, [it'.w] + Args(items')) == [it.w] + Texts(s, Args(items'));
      assert [] + Intos(items) == Intos(items) && [] + Intos(items') == Intos(items');
    } else {
      var r := Redirection(it'.file, ModeFor(it'.sign));
      assert TextsOf(s, [r] + Intos(items')) == [Redirection(it.file, ModeFor(it.sign))] + TextsOf(s, Intos(items'));
      assert [] + Args(items) == Args(items) && [] + Args(items') == Args(items');
    }
  }

  lemma ItemsOkTail<W>(it: Item<W>, items: seq<Item<W>>)
    requires ItemsOk([it] + items)
    ensures ItemsOk(items) && (it.Into? ==> Sign(it.sign))
  {
    hide Sign;
    var all := [it] + items;
    assert all[0] == it && forall k | 0 <= k < |items| :: all[k + 1] == items[k];
  }

  lemma NoArgsTail<W>(it: Item<W>, items: seq<Item<W>>)
    requires NoArgs([it] + items)
    ensures NoArgs(items) && it.Into?
  {
    var all := [it] + items;
    assert all[0] == it && forall k | 0 <= k < |items| :: all[k + 1] == items[k];
  }

  lemma NoArgsMore<W>(it: Item<W>, items: seq<Item<W>>)
    requires NoArgs(items) && it.Into?
    ensures NoArgs([it] + items)
  {
  }

  lemma {:induction false} EraseWrap(s: string, c: Cmd, rs: seq<Redirection>)
    ensures Erase(s, Wrap(c, rs)) == Wrap(Erase(s, c), TextsOf(s, rs))
    decreases |rs|
  {
    hide Text;
    if rs != [] {
      var d := Redir(c, rs[0].file, rs[0].mode);
      EraseWrap(s, d, rs[1..]);
      assert TextsOf(s, rs)[1..] == TextsOf(s, rs[1..]);
    }
  }

  lemma {:induction false} EraseBacked(s: string, c: Cmd, n: nat)
    ensures Erase(s, Backed(c, n)) == Backed(Erase(s, c), n)
    decreases n
  {
    if n > 0 { EraseBacked(s, Back(c), n - 1); }
  }

  lemma {:induction false} PlacedAmps(s: string, n: nat, ls: seq<Lexeme<Span>>)
    requires SaidAll(s, ls) == Amps(n)
    ensures ls == Amps(n)
    decreases n
  {
    hide SaidAll;
    if n == 0 {
      SaidNone(s, ls);
    } else {
      SaidParts(s, ls, [Sym('&')], Amps(n - 1));
      SaidSym(s, ls[..1], '&');
      PlacedAmps(s, n - 1, ls[1..]);
      assert ls == ls[..1] + ls[1..];
    }
  }

  lemma {:induction false} PlacedUnit(s: string, u: Unit<string>, ls: seq<Lexeme<Span>>) returns (u': Unit<Span>)
    requires UnitOk(u) && SaidAll(s, ls) == UnitYield(u)
    ensures UnitOk(u') && UnitYield(u') == ls && Erase(s, UnitMeans(u')) == UnitMeans(u)
    decreases u
  {
    hide SaidAll, Text, ItemsYield, ItemsOk, NoArgs, Args, Intos, Wrap, LineYield, LineOk, LineMeans;
    match u
    case Plain(items) =>
      var items' := PlacedItems(s, items, ls);
      u' := Plain(items');
      EraseWrap(s, Exec(Args(items')), Intos(items'));
    case Block(l, items) =>
      var a, b, c, d := [Sym('(')], LineYield(l), [Sym(')')], ItemsYield(items);
      assert a + b + c + d == a + (b + (c + d));
      SaidParts(s, ls, a, b + (c + d));
      var x := ls[1..];
      SaidParts(s, x, b, c + d);
      var y := x[|b|..];
      SaidParts(s, y, c, d);
      SaidSym(s, ls[..1], '(');
      SaidSym(s, y[..1], ')');
      var l' := PlacedLine(s, l, x[..|b|]);
      var items' := PlacedItems(s, items, y[1..]);
      u' := Block(l', items');
      assert ls == ls[..1] + x && x == x[..|b|] + y && y == y[..1] + y[1..];
      assert ls == ls[..1] + x[..|b|] + y[..1] + y[1..];
      EraseWrap(s, LineMeans(l'), Intos(items'));
  }

  lemma {:induction false} PlacedPipe(s: string, p: Pipeline<string>, ls: seq<Lexeme<Span>>)
      returns (p': Pipeline<Span>)
    requires PipeOk(p) && SaidAll(s, ls) == PipeYield(p)
    ensures PipeOk(p') && PipeYield(p') == ls && Erase(s, PipeMeans(p')) == PipeMeans(p)
    decreases p
  {
    hide SaidAll, Text, UnitYield, UnitOk, UnitMeans, PipeYield, PipeMeans, PipeOk;
    PipeIs(p);
    var a := UnitYield(p.first);
    match p.rest
    case None =>
      var u := PlacedUnit(s, p.first, ls);
      p' := Pipeline(u, None);
      PipeIs(p');
    case Some(r) =>
      SaidParts(s, ls, a, [Sym('|')] + PipeYield(r));
      var x := ls[|a|..];
      SaidParts(s, x, [Sym('|')], PipeYield(r));
      SaidSym(s, x[..1], '|');
      var u := PlacedUnit(s, p.first, ls[..|a|]);
      var r' := PlacedPipe(s, r, x[1..]);
      p' := Pipeline(u, Some(r'));
      PipeIs(p');
      assert x == x[..1] + x[1..] && ls == ls[..|a|] + x;
  }

  lemma PipeIs<W>(p: Pipeline<W>)
    ensures p.rest.None? ==>
              && PipeYield(p) == UnitYield(p.first) && PipeMeans(p) == UnitMeans(p.first)
              && (PipeOk(p) <==> UnitOk(p.first))
    ensures p.rest.Some? ==>
              && PipeYield(p) == UnitYield(p.first) + ([Sym('|')] + PipeYield(p.rest.value))
              && PipeMeans(p) == Pipe(UnitMeans(p.first), PipeMeans(p.rest.value))
              && (PipeOk(p) <==> UnitOk(p.first) && PipeOk(p.rest.value))
  {
    hide UnitYield, UnitMeans, UnitOk;
    assert UnitYield(p.first) + [] == UnitYield(p.first);
  }

  lemma {:induction false} PlacedLine(s: string, l: Line<string>, ls: seq<Lexeme<Span>>) returns (l': Line<Span>)
    requires LineOk(l) && SaidAll(s, ls) == LineYield(l)
    ensures LineOk(l') && LineYield(l') == ls && Erase(s, LineMeans(l')) == LineMeans(l)
    decreases l
  {
    hide SaidAll, Text, PipeYield, PipeOk, PipeMeans, Amps, Backed;
    var tail := match l.rest case None => [] case Some(r) => [Sym(';')] + LineYield(r);
    var a, b: seq<Lexeme<string>> := PipeYield(l.pipe), Amps(l.backs);
    assert LineYield(l) == a + (b + tail);
    SaidParts(s, ls, a, b + tail);
    var x := ls[|a|..];
    SaidParts(s, x, b, tail);
    var y := x[|b|..];
    var pipe := PlacedPipe(s, l.pipe, ls[..|a|]);
    PlacedAmps(s, l.backs, x[..|b|]);
    EraseBacked(s, PipeMeans(pipe), l.backs);
    assert ls == ls[..|a|] + x[..|b|] + y;
    match l.rest
    case None =>
      SaidNone(s, y);
      l' := Line(pipe, l.backs, None);
    case Some(r) =>
      SaidParts(s, y, [Sym(';')], LineYield(r));
      SaidSym(s, y[..1], ';');
      var r' := PlacedLine(s, r, y[1..]);
      l' := Line(pipe, l.backs, Some(r'));
      assert y == y[..1] + y[1..];
  }

  // ---------------------------------------------------------------------------------------
  // Parsing undoes printing
  // ---------------------------------------------------------------------------------------

  ghost predicate AllSpellable(ls: seq<Lexeme<string>>) {
    forall k | 0 <= k < |ls| :: Spellable(ls[k])
  }

  lemma {:induction false} SpelledClean(ls: seq<Lexeme<string>>)
    requires AllSpellable(ls)
    ensures Clean(Spell(ls))
  {
    if ls != [] {
      assert Spellable(ls[0]);
      assert AllSpellable(ls[1..]);
      SpelledClean(ls[1..]);
    }
  }

  /** Whatever can be written down in the language is parsed as what it stands for, with nothing left over. */
  lemma ParseUndoesPrint(l: Line<string>)
    requires LineOk(l) && AllSpellable(LineYield(l))
    ensures var s := Spell(LineYield(l)); ParseCmd(s).Ok? && Erase(s, ParseCmd(s).cmd) == LineMeans(l)
  {
    hide Lexemes, LineYield, LineMeans, LineOk, ParseCmd, Spell, SaidAll, Clean;
    var s := Spell(LineYield(l));
    SpelledClean(LineYield(l));
    assert s[0..] == s;
    SpellLexes(s, 0, LineYield(l));
    var l' := PlacedLine(s, l, Lexemes(s, 0));
    assert Reading(s, LineMeans(l'));
    ParsesExactly(s, LineMeans(l'));
  }

  // ---------------------------------------------------------------------------------------
  // Every command can be printed
  // ---------------------------------------------------------------------------------------

  /** The words can be typed, and no command has more arguments than fit. */
  predicate Printable(c: Command<string>) {
    match c
    case Exec(args) => |args| < MAXARGS && forall k | 0 <= k < |args| :: Legal(args[k])
    case Redir(d, file, _) => Printable(d) && Legal(file)
    case Pipe(l, r) => Printable(l) && Printable(r)
    case List(l, r) => Printable(l) && Printable(r)
    case Back(d) => Printable(d)
  }

  function Alone(u: Unit<string>): Line<string> {
    Line(Pipeline(u, None), 0, None)
  }

  function ArgItems(args: seq<string>): seq<Item<string>> {
    if args == [] then [] else [Arg(args[0])] + ArgItems(args[1..])
  }

  /** The command with all its parentheses. */
  function Full(c: Command<string>): Line<string> {
    match c
    case Exec(args) => Alone(Plain(ArgItems(args)))
    case Redir(d, file, mode) => Alone(Block(Full(d), [Into(if mode == ReadFile then '<' else '>', file)]))
    case Pipe(l, r) => Line(Pipeline(Block(Full(l), []), Some(Pipeline(Block(Full(r), []), None))), 0, None)
    case List(l, r) => Line(Pipeline(Block(Full(l), []), None), 0, Some(Alone(Block(Full(r), []))))
    case Back(d) => Line(Pipeline(Block(Full(d), []), None), 1, None)
  }

  function Print(c: Command<string>): string {
    Spell(LineYield(Full(c)))
  }

  lemma {:induction false} ArgItemsMean(args: seq<string>)
    ensures Args(ArgItems(args)) == args && Intos(ArgItems(args)) == [] && ItemsOk(ArgItems(args))
    ensures ItemsYield(ArgItems(args)) == seq(|args|, k requires 0 <= k < |args| => Name(args[k]))
  {
    if args != [] {
      var more := ArgItems(args[1..]);
      ArgItemsMean(args[1..]);
      hide Args, Intos, ItemsYield, ItemsOk;
      ItemsMore(Arg(args[0]), more);
      ItemsOkMore(Arg(args[0]), more);
    }
  }

  lemma SpellableParts(a: seq<Lexeme<string>>, b: seq<Lexeme<string>>)
    requires AllSpellable(a) && AllSpellable(b)
    ensures AllSpellable(a + b)
  {
    hide Spellable;
  }

  lemma SpellableSym(c: char)
    requires Symbol(c)
    ensures AllSpellable([Sym(c)])
  {
  }

  lemma AloneIs(u: Unit<string>)
    ensures LineYield(Alone(u)) == UnitYield(u) && LineMeans(Alone(u)) == UnitMeans(u)
    ensures LineOk(Alone(u)) <==> UnitOk(u)
  {
    hide UnitYield, UnitMeans, UnitOk;
    assert Backed(PipeMeans(Pipeline(u, None)), 0) == UnitMeans(u);
    assert UnitYield(u) + [] + Amps(0) + [] == UnitYield(u);
  }

  /** A command in parentheses. */
  lemma BlockIs(c: Command<string>)
    requires LineOk(Full(c)) && LineMeans(Full(c)) == c && AllSpellable(LineYield(Full(c)))
    ensures var u := Block(Full(c), []); UnitOk(u) && UnitMeans(u) == c && AllSpellable(UnitYield(u))
  {
    var l := Full(c);
    hide LineYield, LineOk, LineMeans, AllSpellable, Full;
    assert Wrap(c, Intos<string>([])) == c;
    SpellableSym('(');
    SpellableSym(')');
    SpellableParts([Sym('(')], LineYield(l));
    SpellableParts([Sym('(')] + LineYield(l), [Sym(')')]);
    assert UnitYield(Block(l, [])) == [Sym('(')] + LineYield(l) + [Sym(')')];
  }

  lemma FullExec(args: seq<string>)
    requires Printable(Exec(args))
    ensures var l := Full(Exec(args)); LineOk(l) && LineMeans(l) == Exec(args) && AllSpellable(LineYield(l))
  {
    var u := Plain(ArgItems(args));
    ArgItemsMean(args);
    hide ArgItems, LineOk, LineMeans, LineYield;
    AloneIs(u);
    assert Wrap(Exec(args), []) == Exec(args);
  }

  lemma FullRedir(d: Command<string>, file: string, mode: Mode)
    requires Legal(file) && LineOk(Full(d)) && LineMeans(Full(d)) == d && AllSpellable(LineYield(Full(d)))
    ensures var l := Full(Redir(d, file, mode));
            LineOk(l) && LineMeans(l) == Redir(d, file, mode) && AllSpellable(LineYield(l))
  {
    var sign := if mode == ReadFile then '<' else '>';
    var items := [Into(sign, file)];
    var u := Block(Full(d), items);
    BlockIs(d);
    AloneIs(u);
    var block := UnitYield(Block(Full(d), []));
    assert ItemsYield(items) == [Sym(sign), Name(file)];
    assert AllSpellable([Sym(sign), Name(file)]);
    assert Intos(items) == [Redirection(file, mode)];
    RedirOnce(d, file, mode);
    hide LineYield, LineMeans, LineOk, AllSpellable, Wrap, ItemsYield, Intos;
    SpellableParts(block, [Sym(sign), Name(file)]);
    NoTail(Full(d), items);
  }

  lemma RedirOnce(d: Command<string>, file: string, mode: Mode)
    ensures Wrap(d, [Redirection(file, mode)]) == Redir(d, file, mode)
  {
    assert Wrap(Redir(d, file, mode), []) == Redir(d, file, mode);
  }

  lemma NoTail(l: Line<string>, items: seq<Item<string>>)
    ensures UnitYield(Block(l, items)) == UnitYield(Block(l, [])) + ItemsYield(items)
  {
    hide LineYield;
    var x: seq<Lexeme<string>> := [Sym('(')] + LineYield(l) + [Sym(')')];
    assert x + ItemsYield<string>([]) == x;
  }

  lemma FullPipe(l: Command<string>, r: Command<string>)
    requires LineOk(Full(l)) && LineMeans(Full(l)) == l && AllSpellable(LineYield(Full(l)))
    requires LineOk(Full(r)) && LineMeans(Full(r)) == r && AllSpellable(LineYield(Full(r)))
    ensures var f := Full(Pipe(l, r)); LineOk(f) && LineMeans(f) == Pipe(l, r) && AllSpellable(LineYield(f))
  {
    BlockIs(l);
    BlockIs(r);
    var u, v := Block(Full(l), []), Block(Full(r), []);
    hide UnitYield, UnitMeans, UnitOk, AllSpellable;
    SpellableSym('|');
    SpellableParts([Sym('|')], UnitYield(v));
    SpellableParts(UnitYield(u), [Sym('|')] + UnitYield(v));
    var p := Pipeline(v, None);
    assert PipeYield(p) == UnitYield(v) && PipeMeans(p) == r && PipeOk(p);
    assert LineYield(Full(Pipe(l, r))) == UnitYield(u) + ([Sym('|')] + UnitYield(v));
  }

  lemma FullList(l: Command<string>, r: Command<string>)
    requires LineOk(Full(l)) && LineMeans(Full(l)) == l && AllSpellable(LineYield(Full(l)))
    requires LineOk(Full(r)) && LineMeans(Full(r)) == r && AllSpellable(LineYield(Full(r)))
    ensures var f := Full(List(l, r)); LineOk(f) && LineMeans(f) == List(l, r) && AllSpellable(LineYield(f))
  {
    hide UnitYield, UnitMeans, UnitOk, AllSpellable, LineYield, LineMeans, LineOk;
    BlockIs(l);
    BlockIs(r);
    var u, v := Block(Full(l), []), Block(Full(r), []);
    AloneIs(v);
    ThenIs(u, Alone(v));
    SpellableSym(';');
    SpellableParts([Sym(';')], UnitYield(v));
    SpellableParts(UnitYield(u), [Sym(';')] + UnitYield(v));
  }

  lemma ThenIs(u: Unit<string>, r: Line<string>)
    ensures var l := Line(Pipeline(u, None), 0, Some(r));
            && LineYield(l) == UnitYield(u) + ([Sym(';')] + LineYield(r))
            && LineMeans(l) == List(UnitMeans(u), LineMeans(r)) && (LineOk(l) <==> UnitOk(u) && LineOk(r))
  {
    hide UnitYield, UnitMeans, UnitOk;
    var p := Pipeline(u, None);
    assert PipeYield(p) == UnitYield(u) && Backed(PipeMeans(p), 0) == UnitMeans(u);
    assert PipeYield(p) + Amps(0) == UnitYield(u);
  }

  lemma FullBack(d: Command<string>)
    requires LineOk(Full(d)) && LineMeans(Full(d)) == d && AllSpellable(LineYield(Full(d)))
    ensures var f := Full(Back(d)); LineOk(f) && LineMeans(f) == Back(d) && AllSpellable(LineYield(f))
  {
    hide UnitYield, UnitMeans, UnitOk, AllSpellable, LineYield, LineMeans, LineOk;
    BlockIs(d);
    var u := Block(Full(d), []);
    AmpIs(u);
    SpellableSym('&');
    SpellableParts(UnitYield(u), [Sym('&')]);
  }

  lemma AmpIs(u: Unit<string>)
    ensures var l := Line(Pipeline(u, None), 1, None);
            && LineYield(l) == UnitYield(u) + [Sym('&')] && LineMeans(l) == Back(UnitMeans(u))
            && (LineOk(l) <==> UnitOk(u))
  {
    hide UnitYield, UnitMeans, UnitOk;
    var p := Pipeline(u, None);
    assert PipeYield(p) == UnitYield(u) && Amps<string>(1) == [Sym('&')] + Amps(0);
    assert Backed(PipeMeans(p), 1) == Backed(Back(PipeMeans(p)), 0);
  }

  lemma {:induction false} FullMeans(c: Command<string>)
    requires Printable(c)
    ensures LineOk(Full(c)) && LineMeans(Full(c)) == c && AllSpellable(LineYield(Full(c)))
    decreases c
  {
    match c
    case Exec(args) => FullExec(args);
    case Redir(d, file, mode) =>
      FullMeans(d);
      FullRedir(d, file, mode);
    case Pipe(l, r) =>
      FullMeans(l);
      FullMeans(r);
      FullPipe(l, r);
    case List(l, r) =>
      FullMeans(l);
      FullMeans(r);
      FullList(l, r);
    case Back(d) =>
      FullMeans(d);
      FullBack(d);
  }

  /** Every command of legal words has a printed form, and parsing gives the command back. */
  lemma PrintedParses(c: Command<string>)
    requires Printable(c)
    ensures ParseCmd(Print(c)).Ok? && Erase(Print(c), ParseCmd(Print(c)).cmd) == c
  {
    hide Full, LineYield, LineMeans, LineOk, AllSpellable, ParseCmd, Spell;
    FullMeans(c);
    ParseUndoesPrint(Full(c));
  }
}
