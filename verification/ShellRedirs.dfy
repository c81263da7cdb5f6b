/** How the shell of xv6/sh.c opens the file of a redirection. Whether it reads or writes is decided by
    the last symbol before the file name, and >> opens the file as > does: it neither appends
    nor is told apart from > in the parsed command. */
module ShellRedirs {
  import opened Shell

  // ---------------------------------------------------------------------------------------
  // The mode is that of the symbol before the file name
  // ---------------------------------------------------------------------------------------

  /** Position p holds the last character before the file name that is not blank. */
  ghost predicate Before(s: string, p: nat, file: Span) {
    p < file.q <= |s| && !Blank(s[p]) && forall k | p < k < file.q :: Blank(s[k])
  }

  ghost predicate ModeOf(s: string, file: Span, mode: Mode) {
    exists p: nat :: Before(s, p, file) && (s[p] == '<' || s[p] == '>') && (mode.WriteFile? <==> s[p] == '>')
  }

  ghost predicate ModesOf(s: string, rs: seq<Redirection>) {
    forall k | 0 <= k < |rs| :: ModeOf(s, rs[k].file, rs[k].mode)
  }

  /** Every redirection in the command has the mode of its symbol. */
  ghost predicate Moded(s: string, c: Cmd) {
    match c
    case Exec(_) => true
    case Redir(d, file, mode) => Moded(s, d) && ModeOf(s, file, mode)
    case Pipe(l, r) => Moded(s, l) && Moded(s, r)
    case List(l, r) => Moded(s, l) && Moded(s, r)
    case Back(d) => Moded(s, d)
  }

  lemma {:induction false} WrapModed(s: string, c: Cmd, rs: seq<Redirection>)
    requires Moded(s, c) && ModesOf(s, rs)
    ensures Moded(s, Wrap(c, rs))
    decreases |rs|
  {
    if rs != [] { WrapModed(s, Redir(c, rs[0].file, rs[0].mode), rs[1..]); }
  }

  lemma OneMode(s: string, i: nat)
    requires i <= |s| && Peek(s, i, "<>")
    ensures var tok := Gettoken(s, i);
            var file := Gettoken(s, tok.next);
            ModeOf(s, Span(file.q, file.eq), if tok.kind == '<' then ReadFile else WriteFile)
  {
    var tok := Gettoken(s, i);
    var file := Gettoken(s, tok.next);
    assert Before(s, tok.eq - 1, Span(file.q, file.eq));
  }

  lemma {:induction false} RedirsModed(s: string, i: nat, rs: seq<Redirection>)
    requires i <= |s| && ModesOf(s, rs)
    ensures var r := ParseRedirs(s, i, rs); r.Redirs? ==> ModesOf(s, r.list)
    decreases |s| - i
  {
    if Peek(s, i, "<>") {
      var tok := Gettoken(s, i);
      var file := Gettoken(s, tok.next);
      if file.kind == 'a' {
        OneMode(s, i);
        hide ModeOf, Gettoken, Peek;
        var mode := if tok.kind == '<' then ReadFile else WriteFile;
        RedirsModed(s, file.next, rs + [Redirection(Span(file.q, file.eq), mode)]);
      }
    }
  }

  lemma {:induction false} ArgsModed(s: string, i: nat, args: seq<Span>, rs: seq<Redirection>)
    requires i <= |s| && |args| < MAXARGS && ModesOf(s, rs)
    requires (forall k | 0 <= k < |args| :: IsWord(s, args[k])) && (forall k | 0 <= k < |rs| :: IsWord(s, rs[k].file))
    ensures var p := ParseArgs(s, i, args, rs); p.Ok? ==> Moded(s, p.cmd)
    decreases |s| - i
  {
    hide ModesOf, ModeOf, IsWord, ParseRedirs, Peek;
    WrapModed(s, Exec(args), rs);
    var tok := Gettoken(s, i);
    if !Peek(s, i, "|)&;") && tok.kind == 'a' && |args| + 1 < MAXARGS {
      RedirsModed(s, tok.next, rs);
      var r := ParseRedirs(s, tok.next, rs);
      if r.Redirs? {
        hide Gettoken;
        ArgsModed(s, r.next, args + [Span(tok.q, tok.eq)], r.list);
      }
    }
  }

  lemma {:induction false} BacksModed(s: string, i: nat, c: Cmd)
    requires i <= |s| && Spanned(s, c) && Moded(s, c)
    ensures Moded(s, ParseBacks(s, i, c).cmd)
    decreases |s| - i
  {
    if Peek(s, i, "&") { BacksModed(s, Gettoken(s, i).next, Back(c)); }
  }

  lemma {:induction false} LineModed(s: string, i: nat)
    requires i <= |s|
    ensures ParseLine(s, i).Ok? ==> Moded(s, ParseLine(s, i).cmd)
    decreases |s| - i, 3
  {
    hide ParsePipe, ParseBacks, Spanned;
    PipeModed(s, i);
    var p := ParsePipe(s, i);
    if p.Ok? {
      BacksModed(s, p.next, p.cmd);
      var b := ParseBacks(s, p.next, p.cmd);
      if Peek(s, b.next, ";") { LineModed(s, Gettoken(s, b.next).next); }
    }
  }

  lemma {:induction false} PipeModed(s: string, i: nat)
    requires i <= |s|
    ensures ParsePipe(s, i).Ok? ==> Moded(s, ParsePipe(s, i).cmd)
    decreases |s| - i, 2
  {
    hide ParseExec, Spanned;
    ExecModed(s, i);
    var p := ParseExec(s, i);
    if p.Ok? && Peek(s, p.next, "|") { PipeModed(s, Gettoken(s, p.next).next); }
  }

  lemma {:induction false} ExecModed(s: string, i: nat)
    requires i <= |s|
    ensures ParseExec(s, i).Ok? ==> Moded(s, ParseExec(s, i).cmd)
    decreases |s| - i, 1
  {
    hide ParseBlock, ParseRedirs, ParseArgs, Spanned, ModeOf;
    if Peek(s, i, "(") {
      BlockModed(s, i);
    } else {
      RedirsModed(s, i, []);
      var r := ParseRedirs(s, i, []);
      if r.Redirs? { ArgsModed(s, r.next, [], r.list); }
    }
  }

  lemma {:induction false} BlockModed(s: string, i: nat)
    requires i <= |s|
    ensures ParseBlock(s, i).Ok? ==> Moded(s, ParseBlock(s, i).cmd)
    decreases |s| - i, 0
  {
    hide ParseLine, ParseRedirs, Spanned, ModeOf;
    if Peek(s, i, "(") {
      LineModed(s, Gettoken(s, i).next);
      var p := ParseLine(s, Gettoken(s, i).next);
      if p.Ok? && Peek(s, p.next, ")") {
        var j := Gettoken(s, p.next).next;
        RedirsModed(s, j, []);
        if ParseRedirs(s, j, []).Redirs? { WrapModed(s, p.cmd, ParseRedirs(s, j, []).list); }
      }
    }
  }

  /** In every command that parses, a file is opened for writing if and only if the last character
      before its name that is not blank is >, and otherwise that character is <. */
  lemma ModesDecided(s: string)
    ensures ParseCmd(s).Ok? ==> Moded(s, ParseCmd(s).cmd)
  {
    LineModed(s, 0);
  }

  // ---------------------------------------------------------------------------------------
  // >> is >
  // ---------------------------------------------------------------------------------------

  /** A >> that starts at q. */
  predicate Twice(s: string, q: nat) {
    q + 1 < |s| && s[q] == '>' && s[q + 1] == '>' && (q > 0 ==> s[q - 1] != '>')
  }

  /** The line with that >> made a >; the blank keeps every position. */
  function Once(s: string, q: nat): string
    requires Twice(s, q)
  {
    s[q + 1 := ' ']
  }

  lemma {:induction false} SkipSame(s: string, q: nat, i: nat)
    requires Twice(s, q) && i <= |s| && i != q + 1
    ensures Skip(Once(s, q), i) == Skip(s, i) && Skip(s, i) != q + 1
    decreases |s| - i
  {
    if i < |s| && Blank(s[i]) { SkipSame(s, q, i + 1); }
  }

  lemma {:induction false} WordEndSame(s: string, q: nat, i: nat)
    requires Twice(s, q) && i <= |s| && i != q + 1
    ensures WordEnd(Once(s, q), i) == WordEnd(s, i) && WordEnd(s, i) != q + 1
    decreases |s| - i
  {
    if i < |s| && WordChar(s[i]) { WordEndSame(s, q, i + 1); }
  }

  lemma PeekSame(s: string, q: nat, i: nat, toks: string)
    requires Twice(s, q) && i <= |s| && i != q + 1
    ensures Peek(Once(s, q), i, toks) == Peek(s, i, toks)
  {
    SkipSame(s, q, i);
  }

  /** The tokens are the same but for the one at q. */
  lemma TokenSame(s: string, q: nat, i: nat)
    requires Twice(s, q) && i <= |s| && i != q + 1
    ensures var t, t' := Gettoken(s, i), Gettoken(Once(s, q), i);
            && t'.next == t.next && t.next != q + 1
            && (t == t' || (t.kind == '+' && t'.kind == '>'))
  {
    hide Skip, WordEnd, Once, Twice;
    OnceLength(s, q);
    SkipSame(s, q, i);
    var p := Skip(s, i);
    if p == q {
      SecondSkipped(s, q);
    } else if p < |s| {
      OnceAt(s, q, p);
      if WordChar(s[p]) { WordEndSame(s, q, p); }
      SkipSame(s, q, Gettoken(s, i).eq);
    }
  }

  lemma OnceAt(s: string, q: nat, p: nat)
    requires Twice(s, q) && p < |s| && p != q && p != q + 1
    ensures At(Once(s, q), p) == At(s, p) && At(Once(s, q), p + 1) == At(s, p + 1)
    ensures At(s, p) == '>' ==> p + 1 != q
  {
  }

  lemma SecondSkipped(s: string, q: nat)
    requires Twice(s, q)
    ensures At(s, q) == At(s, q + 1) == At(Once(s, q), q) == '>' && At(Once(s, q), q + 1) == ' ' && q + 2 <= |s|
    ensures Skip(Once(s, q), q + 1) == Skip(s, q + 2) && Skip(s, q + 2) != q + 1
  {
    SkipSame(s, q, q + 2);
    assert Skip(Once(s, q), q + 1) == Skip(Once(s, q), q + 2);
  }

  lemma WordSame(s: string, q: nat, w: Span)
    requires Twice(s, q)
    ensures IsWord(Once(s, q), w) <==> IsWord(s, w)
  {
    var s' := Once(s, q);
    assert forall k | 0 <= k < |s| :: WordChar(s'[k]) == WordChar(s[k]);
  }

  lemma {:induction false} SpannedSame(s: string, q: nat, c: Cmd)
    requires Twice(s, q)
    ensures Spanned(Once(s, q), c) <==> Spanned(s, c)
  {
    hide IsWord;
    match c
    case Exec(args) =>
      forall k | 0 <= k < |args| ensures IsWord(Once(s, q), args[k])
          <==> IsWord(s, args[k]) { WordSame(s, q, args[k]); }
    case Redir(d, file, _) => SpannedSame(s, q, d); WordSame(s, q, file);
    case Pipe(l, r) => SpannedSame(s, q, l); SpannedSame(s, q, r);
    case List(l, r) => SpannedSame(s, q, l); SpannedSame(s, q, r);
    case Back(d) => SpannedSame(s, q, d);
  }

  lemma {:induction false} RedirsSame(s: string, q: nat, i: nat, rs: seq<Redirection>)
    requires Twice(s, q) && i <= |s| && i != q + 1
    ensures ParseRedirs(Once(s, q), i, rs) == ParseRedirs(s, i, rs)
    ensures ParseRedirs(s, i, rs).Redirs? ==> ParseRedirs(s, i, rs).next != q + 1
    decreases |s| - i
  {
    hide Once, Skip, Twice, IsWord;
    OnceLength(s, q);
    PeekSame(s, q, i, "<>");
    SkipSame(s, q, i);
    if Peek(s, i, "<>") {
      TokenSame(s, q, i);
      var tok := Gettoken(s, i);
      TokenSame(s, q, tok.next);
      var file := Gettoken(s, tok.next);
      if file.kind == 'a' {
        hide Gettoken, Peek;
        var mode := if tok.kind == '<' then ReadFile else WriteFile;
        RedirsSame(s, q, file.next, rs + [Redirection(Span(file.q, file.eq), mode)]);
      }
    }
  }

  lemma OnceLength(s: string, q: nat)
    requires Twice(s, q)
    ensures |Once(s, q)| == |s|
  {
  }

  lemma {:induction false} ArgsSame(s: string, q: nat, i: nat, args: seq<Span>, rs: seq<Redirection>)
    requires Twice(s, q) && i <= |s| && i != q + 1 && |args| < MAXARGS
    requires (forall k | 0 <= k < |args| :: IsWord(s, args[k])) && (forall k | 0 <= k < |rs| :: IsWord(s, rs[k].file))
    requires (forall k | 0 <= k < |args| :: IsWord(Once(s, q), args[k]))
             && (forall k | 0 <= k < |rs| :: IsWord(Once(s, q), rs[k].file))
    requires |Once(s, q)| == |s|
    ensures ParseArgs(Once(s, q), i, args, rs) == ParseArgs(s, i, args, rs)
    ensures ParseArgs(s, i, args, rs).Ok? ==> ParseArgs(s, i, args, rs).next != q + 1
    decreases |s| - i
  {
    hide Once, Skip, Twice, IsWord, ParseRedirs, Wrap, Peek;
    PeekSame(s, q, i, "|)&;");
    SkipSame(s, q, i);
    TokenSame(s, q, i);
    var tok := Gettoken(s, i);
    if !Peek(s, i, "|)&;") && tok.kind == 'a' && |args| + 1 < MAXARGS {
      RedirsSame(s, q, tok.next, rs);
      var r := ParseRedirs(s, tok.next, rs);
      if r.Redirs? {
        var word := Span(tok.q, tok.eq);
        WordSame(s, q, word);
        forall k | 0 <= k < |r.list| ensures IsWord(Once(s, q), r.list[k].file) { WordSame(s, q, r.list[k].file); }
        hide Gettoken;
        ArgsSame(s, q, r.next, args + [word], r.list);
      }
    }
  }

  lemma {:induction false} BacksSame(s: string, q: nat, i: nat, c: Cmd)
    requires Twice(s, q) && i <= |s| == |Once(s, q)| && i != q + 1 && Spanned(s, c) && Spanned(Once(s, q), c)
    ensures ParseBacks(Once(s, q), i, c) == ParseBacks(s, i, c)
    ensures ParseBacks(s, i, c).next != q + 1
    decreases |s| - i
  {
    PeekSame(s, q, i, "&");
    SkipSame(s, q, i);
    if Peek(s, i, "&") {
      TokenSame(s, q, i);
      hide Once, Twice;
      BacksSame(s, q, Gettoken(s, i).next, Back(c));
    }
  }

  lemma {:induction false} LineSame(s: string, q: nat, i: nat)
    requires Twice(s, q) && i <= |s| == |Once(s, q)| && i != q + 1
    ensures ParseLine(Once(s, q), i) == ParseLine(s, i)
    ensures ParseLine(s, i).Ok? ==> ParseLine(s, i).next != q + 1
    decreases |s| - i, 3
  {
    hide Once, Twice, Skip, Peek, Gettoken, ParsePipe, ParseBacks, Spanned;
    PipeSame(s, q, i);
    var p := ParsePipe(s, i);
    if p.Ok? {
      SpannedSame(s, q, p.cmd);
      BacksSame(s, q, p.next, p.cmd);
      var b := ParseBacks(s, p.next, p.cmd);
      PeekSame(s, q, b.next, ";");
      SkipSame(s, q, b.next);
      TokenSame(s, q, b.next);
      if Peek(s, b.next, ";") {
        Progress(s, b.next, ";");
        LineSame(s, q, Gettoken(s, b.next).next);
      }
    }
  }

  /** A token that has been seen takes the cursor on. */
  lemma Progress(s: string, i: nat, toks: string)
    requires i <= |s| && Peek(s, i, toks)
    ensures i < Gettoken(s, i).next
  {
  }

  lemma {:induction false} PipeSame(s: string, q: nat, i: nat)
    requires Twice(s, q) && i <= |s| == |Once(s, q)| && i != q + 1
    ensures ParsePipe(Once(s, q), i) == ParsePipe(s, i)
    ensures ParsePipe(s, i).Ok? ==> ParsePipe(s, i).next != q + 1
    decreases |s| - i, 2
  {
    hide Once, Twice, Skip, Peek, Gettoken, ParseExec, Spanned;
    ExecSame(s, q, i);
    var p := ParseExec(s, i);
    if p.Ok? {
      PeekSame(s, q, p.next, "|");
      SkipSame(s, q, p.next);
      TokenSame(s, q, p.next);
      if Peek(s, p.next, "|") {
        Progress(s, p.next, "|");
        PipeSame(s, q, Gettoken(s, p.next).next);
      }
    }
  }

  lemma {:induction false} ExecSame(s: string, q: nat, i: nat)
    requires Twice(s, q) && i <= |s| == |Once(s, q)| && i != q + 1
    ensures ParseExec(Once(s, q), i) == ParseExec(s, i)
    ensures ParseExec(s, i).Ok? ==> ParseExec(s, i).next != q + 1
    decreases |s| - i, 1
  {
    hide Once, Twice, Skip, Peek, Gettoken, ParseBlock, ParseRedirs, ParseArgs, IsWord, Spanned;
    PeekSame(s, q, i, "(");
    if Peek(s, i, "(") {
      BlockSame(s, q, i);
    } else {
      RedirsSame(s, q, i, []);
      var r := ParseRedirs(s, i, []);
      if r.Redirs? {
        ArgsSame(s, q, r.next, [], r.list);
      }
    }
  }

  lemma {:induction false} BlockSame(s: string, q: nat, i: nat)
    requires Twice(s, q) && i <= |s| == |Once(s, q)| && i != q + 1
    ensures ParseBlock(Once(s, q), i) == ParseBlock(s, i)
    ensures ParseBlock(s, i).Ok? ==> ParseBlock(s, i).next != q + 1
    decreases |s| - i, 0
  {
    hide Once, Twice, Skip, Peek, Gettoken, ParseLine, ParseRedirs, IsWord, Spanned, Wrap;
    PeekSame(s, q, i, "(");
    if Peek(s, i, "(") {
      TokenSame(s, q, i);
      Progress(s, i, "(");
      var p := ParseLine(s, Gettoken(s, i).next);
      LineSame(s, q, Gettoken(s, i).next);
      if p.Ok? {
        PeekSame(s, q, p.next, ")");
        TokenSame(s, q, p.next);
        RedirsSame(s, q, Gettoken(s, p.next).next, []);
      }
    }
  }

  /** A line parses as it does with one of its >> made a >: the same command at the same positions, or a
      panic for both. */
  lemma AppendIsOverwrite(s: string, q: nat)
    requires Twice(s, q)
    ensures ParseCmd(Once(s, q)) == ParseCmd(s)
  {
    LineSame(s, q, 0);
    var p := ParseLine(s, 0);
    if p.Ok? { SkipSame(s, q, p.next); }
  }
}
