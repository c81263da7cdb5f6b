/** The parser of xv6/sh.c as the code runs it, with its loops and its cursor, and nulterminate, which
    cuts the words out of the line in place. */
module ShellParser {
  import opened Shell
  import opened ShellPrint
  import G = ShellGrammar

  method SkipBlanks(s: string, i: nat) returns (j: nat)
    requires i <= |s|
    ensures j == Skip(s, i)
  {
    j := i;
    while j < |s| && Blank(s[j])
      invariant i <= j <= |s| && Skip(s, j) == Skip(s, i)
    {
      j := j + 1;
    }
  }

  method NextToken(s: string, i: nat) returns (t: Token)
    requires i <= |s|
    ensures t == Gettoken(s, i)
  {
    var q := SkipBlanks(s, i);
    var c := At(s, q);
    var kind, eq := c, q;
    if q == |s| || c == NUL {
      kind := NUL;
    } else if c == '>' {
      eq := q + 1;
      if At(s, eq) == '>' {
        kind, eq := '+', eq + 1;
      }
    } else if Symbol(c) {
      eq := q + 1;
    } else {
      kind := 'a';
      while eq < |s| && WordChar(s[eq])
        invariant q <= eq <= |s| && WordEnd(s, eq) == WordEnd(s, q)
      {
        eq := eq + 1;
      }
    }
    var next := SkipBlanks(s, eq);
    t := Token(kind, q, eq, next);
  }

  method LookAhead(s: string, i: nat, toks: string) returns (found: bool, next: nat)
    requires i <= |s|
    ensures found == Peek(s, i, toks) && next == Skip(s, i)
  {
    next := SkipBlanks(s, i);
    found := At(s, next) != NUL && At(s, next) in toks;
  }

  lemma TokenMoves(s: string, i: nat)
    requires i <= |s|
    ensures i <= Gettoken(s, i).next <= |s|
    ensures Gettoken(s, i).kind != NUL ==> i < Gettoken(s, i).next
    ensures Gettoken(s, i).kind == 'a' ==> IsWord(s, Span(Gettoken(s, i).q, Gettoken(s, i).eq))
  {
  }

  method Redirections(s: string, i: nat, before: seq<Redirection>) returns (r: Redirs)
    requires i <= |s|
    ensures r == ParseRedirs(s, i, before)
  {
    hide Peek, Gettoken, Skip;
    var cur, rs := i, before;
    var found, next := LookAhead(s, cur, "<>");
    while found
      invariant cur <= |s| && ParseRedirs(s, cur, rs) == ParseRedirs(s, i, before)
      invariant found == Peek(s, cur, "<>") && next == Skip(s, cur)
      decreases |s| - cur
    {
      TokenMoves(s, cur);
      var tok := NextToken(s, cur);
      var file := NextToken(s, tok.next);
      TokenMoves(s, tok.next);
      if file.kind != 'a' { return RedirPanic; }
      rs := rs + [Redirection(Span(file.q, file.eq), if tok.kind == '<' then ReadFile else WriteFile)];
      cur := file.next;
      found, next := LookAhead(s, cur, "<>");
    }
    r := Redirs(rs, next);
  }

  lemma RedirsMove(s: string, i: nat, rs: seq<Redirection>)
    requires i <= |s| && forall k | 0 <= k < |rs| :: IsWord(s, rs[k].file)
    ensures var r := ParseRedirs(s, i, rs);
            r.Redirs? ==> i <= r.next <= |s| && forall k | 0 <= k < |r.list| :: IsWord(s, r.list[k].file)
  {
    hide IsWord;
  }

  method Arguments(s: string, i: nat, before: seq<Redirection>) returns (p: Parse)
    requires i <= |s| && forall k | 0 <= k < |before| :: IsWord(s, before[k].file)
    ensures p == ParseArgs(s, i, [], before)
  {
    hide Peek, Gettoken, Skip, IsWord, ParseRedirs, Wrap;
    var cur, args, rs := i, [], before;
    var found, next := LookAhead(s, cur, "|)&;");
    while !found
      invariant cur <= |s| && |args| < MAXARGS
      invariant (forall k | 0 <= k < |args| :: IsWord(s, args[k]))
                && (forall k | 0 <= k < |rs| :: IsWord(s, rs[k].file))
      invariant ParseArgs(s, cur, args, rs) == ParseArgs(s, i, [], before)
      invariant found == Peek(s, cur, "|)&;") && next == Skip(s, cur)
      decreases |s| - cur
    {
      TokenMoves(s, cur);
      var tok := NextToken(s, cur);
      if tok.kind == NUL { return Ok(Wrap(Exec(args), rs), tok.next); }
      if tok.kind != 'a' { return Panic; }
      if |args| + 1 >= MAXARGS { return Panic; }
      RedirsMove(s, tok.next, rs);
      var r := Redirections(s, tok.next, rs);
      if r.RedirPanic? { return Panic; }
      args, rs, cur := args + [Span(tok.q, tok.eq)], r.list, r.next;
      found, next := LookAhead(s, cur, "|)&;");
    }
    p := Ok(Wrap(Exec(args), rs), next);
  }

  lemma PeekMoves(s: string, i: nat, toks: string)
    requires i <= |s| && Peek(s, i, toks)
    ensures i < Gettoken(s, i).next <= |s|
  {
  }

  method Backs(s: string, i: nat, before: Cmd) returns (p: Parse)
    requires i <= |s| && Spanned(s, before)
    ensures p == ParseBacks(s, i, before)
  {
    hide Peek, Gettoken, Skip, Spanned;
    var cur, cmd := i, before;
    var found, next := LookAhead(s, cur, "&");
    while found
      invariant i <= cur <= |s| && Spanned(s, cmd) && ParseBacks(s, cur, cmd) == ParseBacks(s, i, before)
      invariant found == Peek(s, cur, "&") && next == Skip(s, cur)
      decreases |s| - cur
    {
      PeekMoves(s, cur, "&");
      BackSpanned(s, cmd);
      var tok := NextToken(s, cur);
      cmd, cur := Back(cmd), tok.next;
      found, next := LookAhead(s, cur, "&");
    }
    p := Ok(cmd, next);
  }

  lemma PipeMoves(s: string, i: nat)
    requires i <= |s| && ParsePipe(s, i).Ok?
    ensures i <= ParsePipe(s, i).next <= |s| && Spanned(s, ParsePipe(s, i).cmd)
  {
  }

  lemma BacksMove(s: string, i: nat, c: Cmd)
    requires i <= |s| && Spanned(s, c)
    ensures ParseBacks(s, i, c).Ok? && i <= ParseBacks(s, i, c).next <= |s|
  {
  }

  lemma LineMoves(s: string, i: nat)
    requires i <= |s| && ParseLine(s, i).Ok?
    ensures i <= ParseLine(s, i).next <= |s|
  {
  }

  method Line(s: string, i: nat) returns (p: Parse)
    requires i <= |s|
    ensures p == ParseLine(s, i)
    decreases |s| - i, 3
  {
    hide Peek, Gettoken, Skip, Spanned, ParsePipe, ParseBacks;
    var first := PipeLine(s, i);
    if first.Panic? { return Panic; }
    PipeMoves(s, i);
    BacksMove(s, first.next, first.cmd);
    var b := Backs(s, first.next, first.cmd);
    var found, next := LookAhead(s, b.next, ";");
    if !found { return Ok(b.cmd, next); }
    PeekMoves(s, b.next, ";");
    var tok := NextToken(s, b.next);
    var r := Line(s, tok.next);
    p := if r.Panic? then Panic else Ok(List(b.cmd, r.cmd), r.next);
  }

  method PipeLine(s: string, i: nat) returns (p: Parse)
    requires i <= |s|
    ensures p == ParsePipe(s, i)
    decreases |s| - i, 2
  {
    p := Command(s, i);
    if p.Panic? { return; }
    var found, next := LookAhead(s, p.next, "|");
    if !found { return Ok(p.cmd, next); }
    var tok := NextToken(s, p.next);
    var r := PipeLine(s, tok.next);
    p := if r.Panic? then Panic else Ok(Pipe(p.cmd, r.cmd), r.next);
  }

  method Command(s: string, i: nat) returns (p: Parse)
    requires i <= |s|
    ensures p == ParseExec(s, i)
    decreases |s| - i, 1
  {
    hide ParseArgs, ParseRedirs, ParseBlock, IsWord, Gettoken;
    var found, next := LookAhead(s, i, "(");
    if found {
      p := Block(s, i);
    } else {
      RedirsMove(s, i, []);
      var r := Redirections(s, i, []);
      if r.RedirPanic? { return Panic; }
      p := Arguments(s, r.next, r.list);
    }
  }

  method Block(s: string, i: nat) returns (p: Parse)
    requires i <= |s|
    ensures p == ParseBlock(s, i)
    decreases |s| - i, 0
  {
    hide ParseArgs, ParseRedirs, ParseLine, IsWord, Wrap;
    var found, next := LookAhead(s, i, "(");
    if !found { return Panic; }
    var tok := NextToken(s, i);
    p := Line(s, tok.next);
    if p.Panic? { return; }
    LineMoves(s, tok.next);
    found, next := LookAhead(s, p.next, ")");
    if !found { return Panic; }
    tok := NextToken(s, p.next);
    var r := Redirections(s, tok.next, []);
    if r.RedirPanic? { return Panic; }
    p := Ok(Wrap(p.cmd, r.list), r.next);
  }

  // ---------------------------------------------------------------------------------------
  // nulterminate
  // ---------------------------------------------------------------------------------------

  ghost predicate HasWord(c: Cmd, w: Span) {
    match c
    case Exec(args) => w in args
    case Redir(d, file, _) => HasWord(d, w) || w == file
    case Pipe(l, r) => HasWord(l, w) || HasWord(r, w)
    case List(l, r) => HasWord(l, w) || HasWord(r, w)
    case Back(d) => HasWord(d, w)
  }

  ghost predicate IsEnd(c: Cmd, i: nat) {
    exists w :: HasWord(c, w) && w.eq == i
  }

  /** The buffer with a NUL behind every word of c. */
  ghost predicate Cut(b: string, c: Cmd, b': string) {
    |b'| == |b| && forall i | 0 <= i < |b| :: b'[i] == if IsEnd(c, i) then NUL else b[i]
  }

  lemma CutIntro(b: string, l: Cmd, b1: string, r: Cmd, b2: string, c: Cmd)
    requires Cut(b, l, b1) && Cut(b1, r, b2) && forall w :: HasWord(c, w) <==> HasWord(l, w) || HasWord(r, w)
    ensures Cut(b, c, b2)
  {
    hide HasWord;
    forall i | 0 <= i < |b| ensures IsEnd(c, i) <==> IsEnd(l, i) || IsEnd(r, i) {
      if IsEnd(l, i) { var w :| HasWord(l, w) && w.eq == i; assert HasWord(c, w); }
      if IsEnd(r, i) { var w :| HasWord(r, w) && w.eq == i; assert HasWord(c, w); }
    }
  }

  lemma CutTwo(b: string, l: Cmd, b1: string, r: Cmd, b2: string, c: Cmd)
    requires Cut(b, l, b1) && Cut(b1, r, b2) && (c == Pipe(l, r) || c == List(l, r))
    ensures Cut(b, c, b2)
  {
    hide Cut;
    CutIntro(b, l, b1, r, b2, c);
  }

  ghost predicate Fits(c: Cmd, n: nat) {
    forall w :: HasWord(c, w) ==> w.eq < n
  }

  lemma FitsParts(c: Cmd, d: Cmd, n: nat)
    requires Fits(c, n) && forall w :: HasWord(d, w) ==> HasWord(c, w)
    ensures Fits(d, n)
  {
    hide HasWord;
  }

  lemma FitsEnd(c: Cmd, w: Span, n: nat)
    requires Fits(c, n) && HasWord(c, w)
    ensures w.eq < n
  {
  }

  lemma CutSame(b: string, d: Cmd, c: Cmd, b': string)
    requires Cut(b, d, b') && forall w :: HasWord(d, w) <==> HasWord(c, w)
    ensures Cut(b, c, b')
  {
    hide HasWord;
    forall i | 0 <= i < |b| ensures IsEnd(c, i) <==> IsEnd(d, i) {
      if IsEnd(c, i) { var w :| HasWord(c, w) && w.eq == i; assert HasWord(d, w); }
      if IsEnd(d, i) { var w :| HasWord(d, w) && w.eq == i; assert HasWord(c, w); }
    }
  }

  lemma CutFile(b: string, d: Cmd, b1: string, file: Span, mode: Mode, b2: string)
    requires Cut(b, d, b1) && file.eq < |b1| && b2 == b1[file.eq := NUL]
    ensures Cut(b, Redir(d, file, mode), b2)
  {
    var f := Exec([file]);
    assert Cut(b1, f, b2) by {
      assert HasWord(f, file);
    }
    CutIntro(b, d, b1, f, b2, Redir(d, file, mode));
  }

  method CutArgs(buf: array<char>, args: seq<Span>)
    requires Fits(Exec(args), buf.Length)
    modifies buf
    ensures Cut(old(buf[..]), Exec(args), buf[..])
  {
    var i := 0;
    while i < |args|
      invariant i <= |args|
      invariant Cut(old(buf[..]), Exec(args[..i]), buf[..])
    {
      assert HasWord(Exec(args), args[i]);
      ghost var b1 := buf[..];
      buf[args[i].eq] := NUL;
      assert Cut(b1, Exec([args[i]]), buf[..]) by {
        assert HasWord(Exec([args[i]]), args[i]);
      }
      CutIntro(old(buf[..]), Exec(args[..i]), b1, Exec([args[i]]), buf[..], Exec(args[..i + 1]));
      i := i + 1;
    }
    assert args[..|args|] == args;
  }

  method Nulterminate(buf: array<char>, c: Cmd)
    requires Fits(c, buf.Length)
    modifies buf
    ensures Cut(old(buf[..]), c, buf[..])
    decreases c
  {
    hide Cut, Fits;
    match c
    case Exec(args) => CutArgs(buf, args);
    case Redir(d, file, mode) =>
      FitsParts(c, d, buf.Length);
      Nulterminate(buf, d);
      ghost var b1 := buf[..];
      FitsEnd(c, file, buf.Length);
      buf[file.eq] := NUL;
      CutFile(old(buf[..]), d, b1, file, mode, buf[..]);
    case Pipe(l, r) =>
      FitsParts(c, l, buf.Length);
      FitsParts(c, r, buf.Length);
      Nulterminate(buf, l);
      ghost var b1 := buf[..];
      Nulterminate(buf, r);
      CutTwo(old(buf[..]), l, b1, r, buf[..], c);
    case List(l, r) =>
      FitsParts(c, l, buf.Length);
      FitsParts(c, r, buf.Length);
      Nulterminate(buf, l);
      ghost var b1 := buf[..];
      Nulterminate(buf, r);
      CutTwo(old(buf[..]), l, b1, r, buf[..], c);
    case Back(d) =>
      FitsParts(c, d, buf.Length);
      Nulterminate(buf, d);
      CutSame(old(buf[..]), d, c, buf[..]);
  }

  // ---------------------------------------------------------------------------------------
  // What the words read as afterwards
  // ---------------------------------------------------------------------------------------

  /** The C string at q. */
  function CString(b: string, q: nat): string
    decreases |b| - q
  {
    if q < |b| && b[q] != NUL then [b[q]] + CString(b, q + 1) else []
  }

  lemma {:induction false} WordIsSpan(s: string, c: Cmd, w: Span)
    requires Spanned(s, c) && HasWord(c, w)
    ensures IsWord(s, w)
    decreases c
  {
    match c
    case Exec(args) =>
    case Redir(d, file, _) => if w != file { WordIsSpan(s, d, w); }
    case Pipe(l, r) => if HasWord(l, w) { WordIsSpan(s, l, w); } else { WordIsSpan(s, r, w); }
    case List(l, r) => if HasWord(l, w) { WordIsSpan(s, l, w); } else { WordIsSpan(s, r, w); }
    case Back(d) => WordIsSpan(s, d, w);
  }

  /** Only separators, and the NUL at the end, are overwritten. */
  lemma OnlySeparators(s: string, c: Cmd, i: nat)
    requires Spanned(s, c) && IsEnd(c, i)
    ensures i <= |s| && !WordChar(At(s, i))
  {
    var w :| HasWord(c, w) && w.eq == i;
    WordIsSpan(s, c, w);
  }

  lemma {:induction false} CStringIs(b: string, q: nat, e: nat)
    requires q <= e < |b| && b[e] == NUL && forall k | q <= k < e :: b[k] != NUL
    ensures CString(b, q) == b[q..e]
    decreases e - q
  {
    if q < e { CStringIs(b, q + 1, e); }
  }

  /** Every word of a parsed line reads back as its token. */
  lemma WordsReadBack(s: string, c: Cmd, b: string, w: Span)
    requires Spanned(s, c) && HasWord(c, w) && Cut(s + [NUL], c, b)
    ensures CString(b, w.q) == Text(s, w)
  {
    hide Spanned, HasWord;
    WordIsSpan(s, c, w);
    assert IsEnd(c, w.eq);
    forall k | w.q <= k < w.eq ensures b[k] == s[k] && s[k] != NUL {
      if IsEnd(c, k) { OnlySeparators(s, c, k); }
    }
    CStringIs(b, w.q, w.eq);
    assert b[w.q..w.eq] == s[w.q..w.eq];
  }

  lemma LineFits(s: string, c: Cmd, n: nat)
    requires Spanned(s, c) && |s| < n
    ensures Fits(c, n)
  {
    forall w | HasWord(c, w) ensures w.eq < n {
      WordIsSpan(s, c, w);
    }
  }

  lemma CutLine(s: string, c: Cmd, b: string, b': string, n: nat)
    requires Spanned(s, c) && n == |s| < |b| && b[..n] == s && b[n] == NUL && Cut(b, c, b')
    ensures |b'| == |b| && Cut(s + [NUL], c, b'[..n + 1]) && b'[n + 1..] == b[n + 1..]
  {
    forall i | n < i < |b| ensures !IsEnd(c, i) {
      if IsEnd(c, i) { OnlySeparators(s, c, i); }
    }
    assert b[..n + 1] == s + [NUL];
  }

  lemma OnlyCut(s: string, c: Cmd, b: string, b': string, n: nat)
    requires Spanned(s, c) && n == |s| < |b| && b[..n] == s && Cut(b, c, b')
    ensures |b'| == |b| && forall i | 0 <= i < n :: b'[i] == b[i] || (b'[i] == NUL && !WordChar(b[i]))
  {
    forall i | 0 <= i < n ensures b'[i] == b[i] || (b'[i] == NUL && !WordChar(b[i])) {
      assert b[i] == s[i];
      if IsEnd(c, i) { OnlySeparators(s, c, i); }
    }
  }

  /** parsecmd on the line in buf, whose first NUL is at n. */
  method ParseCommand(buf: array<char>, n: nat) returns (p: Parse)
    requires n < buf.Length && buf[n] == NUL && Clean(buf[..n])
    modifies buf
    ensures p == ParseCmd(old(buf[..n]))
    ensures if p.Ok? then G.Reading(old(buf[..n]), p.cmd) else !exists c :: G.Reading(old(buf[..n]), c)
    ensures p.Panic? ==> buf[..] == old(buf[..])
    ensures p.Ok? ==> forall w :: HasWord(p.cmd, w) ==> CString(buf[..n + 1], w.q) == Text(old(buf[..n]), w)
    ensures forall i | 0 <= i < n :: buf[i] == old(buf[i]) || (buf[i] == NUL && !WordChar(old(buf[i])))
    ensures buf[n + 1..] == old(buf[n + 1..])
  {
    hide ParseLine, Cut, Text;
    hide G.Reading;
    var s := buf[..n];
    forall c ensures G.Reading(s, c) <==> ParseCmd(s).Ok? && ParseCmd(s).cmd == c {
      G.ParsesExactly(s, c);
    }
    p := Line(s, 0);
    if p.Panic? { return; }
    LineMoves(s, 0);
    var found, next := LookAhead(s, p.next, "");
    if next != |s| { return Panic; }
    LineFits(s, p.cmd, buf.Length);
    Nulterminate(buf, p.cmd);
    CutLine(s, p.cmd, old(buf[..]), buf[..], n);
    OnlyCut(s, p.cmd, old(buf[..]), buf[..], n);
    forall w | HasWord(p.cmd, w) ensures CString(buf[..n + 1], w.q) == Text(s, w) {
      WordsReadBack(s, p.cmd, buf[..n + 1], w);
    }
  }
}
