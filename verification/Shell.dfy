/** The parser of xv6/sh.c: tokens, and recursive descent over a cursor into the line. A line is a C
    string: it holds no NUL, and one follows its last character. */
module Shell {
  const NUL := '\0'
  const MAXARGS := 10

  predicate Blank(c: char) {
    c == ' ' || c == '\t' || c == '\r' || c == '\n' || c == '\U{0B}'
  }

  predicate Symbol(c: char) {
    c in "<|>&;()"
  }

  predicate WordChar(c: char) {
    !Blank(c) && !Symbol(c) && c != NUL
  }

  predicate Clean(s: string) {
    NUL !in s
  }

  function At(s: string, i: nat): char {
    if i < |s| then s[i] else NUL
  }

  /** The first position from i on that is not blank. */
  function Skip(s: string, i: nat): (r: nat)
    requires i <= |s|
    ensures i <= r <= |s| && !Blank(At(s, r)) && forall k | i <= k < r :: Blank(s[k])
    decreases |s| - i
  {
    if i < |s| && Blank(s[i]) then Skip(s, i + 1) else i
  }

  /** The end of the word that starts at i. */
  function WordEnd(s: string, i: nat): (r: nat)
    requires i <= |s|
    ensures i <= r <= |s| && !WordChar(At(s, r)) && forall k | i <= k < r :: WordChar(s[k])
    decreases |s| - i
  {
    if i < |s| && WordChar(s[i]) then WordEnd(s, i + 1) else i
  }

  // ---------------------------------------------------------------------------------------
  // Tokens
  // ---------------------------------------------------------------------------------------

  /** What gettoken returns: NUL at the end, 'a' for a word, '+' for >>, or the symbol; where the token
      starts and ends, and the cursor after the blanks behind it. */
  datatype Token = Token(kind: char, q: nat, eq: nat, next: nat)

  function Gettoken(s: string, i: nat): (t: Token)
    requires i <= |s|
    ensures i <= t.q <= t.eq <= t.next <= |s|
    ensures t.kind == 'a' ==> t.q < t.eq && IsWord(s, Span(t.q, t.eq))
  {
    var q := Skip(s, i);
    var c := At(s, q);
    var (kind, eq) :=
      if q == |s| || c == NUL then (NUL, q)
      else if c == '>' && At(s, q + 1) == '>' then ('+', q + 2)
      else if Symbol(c) then (c, q + 1)
      else ('a', WordEnd(s, q));
    Token(kind, q, eq, Skip(s, eq))
  }

  predicate Peek(s: string, i: nat, toks: string)
    requires i <= |s|
  {
    At(s, Skip(s, i)) != NUL && At(s, Skip(s, i)) in toks
  }

  // ---------------------------------------------------------------------------------------
  // Commands
  // ---------------------------------------------------------------------------------------

  /** A word of the line, by its ends. */
  datatype Span = Span(q: nat, eq: nat)

  datatype Mode = ReadFile | WriteFile

  /** A command whose words are spans of the line, or strings. */
  datatype Command<W> = Exec(args: seq<W>) | Redir(cmd: Command<W>, file: W, mode: Mode)
                      | Pipe(left: Command<W>, right: Command<W>) | List(left: Command<W>, right: Command<W>)
                      | Back(cmd: Command<W>)

  type Cmd = Command<Span>

  datatype RedirectionOf<W> = Redirection(file: W, mode: Mode)

  type Redirection = RedirectionOf<Span>

  /** A span of word characters that cannot be made longer to the right. */
  ghost predicate IsWord(s: string, w: Span) {
    w.q < w.eq <= |s| && (forall k | w.q <= k < w.eq :: WordChar(s[k])) && !WordChar(At(s, w.eq))
  }

  ghost predicate Spanned(s: string, c: Cmd) {
    match c
    case Exec(args) => |args| < MAXARGS && forall k | 0 <= k < |args| :: IsWord(s, args[k])
    case Redir(d, file, _) => Spanned(s, d) && IsWord(s, file)
    case Pipe(l, r) => Spanned(s, l) && Spanned(s, r)
    case List(l, r) => Spanned(s, l) && Spanned(s, r)
    case Back(d) => Spanned(s, d)
  }

  function Wrap<W>(c: Command<W>, rs: seq<RedirectionOf<W>>): Command<W>
    decreases |rs|
  {
    if rs == [] then c else Wrap(Redir(c, rs[0].file, rs[0].mode), rs[1..])
  }

  lemma {:induction false} WrapSpanned(s: string, c: Cmd, rs: seq<Redirection>)
    requires Spanned(s, c) && forall k | 0 <= k < |rs| :: IsWord(s, rs[k].file)
    ensures Spanned(s, Wrap(c, rs))
    decreases |rs|
  {
    if rs != [] { WrapSpanned(s, Redir(c, rs[0].file, rs[0].mode), rs[1..]); }
  }

  lemma BackSpanned(s: string, c: Cmd)
    requires Spanned(s, c)
    ensures Spanned(s, Back(c))
  {
  }

  // ---------------------------------------------------------------------------------------
  // The parser
  // ---------------------------------------------------------------------------------------

  datatype Redirs = Redirs(list: seq<Redirection>, next: nat) | RedirPanic

  datatype Parse = Ok(cmd: Cmd, next: nat) | Panic

  ghost predicate Good(s: string, i: nat, p: Parse) {
    p.Ok? ==> i <= p.next <= |s| && Spanned(s, p.cmd)
  }

  /** The loop of parseredirs, with what it has collected. */
  function ParseRedirs(s: string, i: nat, rs: seq<Redirection>): (r: Redirs)
    requires i <= |s|
    ensures r.Redirs? ==> i <= r.next <= |s|
    ensures r.Redirs? && (forall k | 0 <= k < |rs| :: IsWord(s, rs[k].file)) ==>
              forall k | 0 <= k < |r.list| :: IsWord(s, r.list[k].file)
    decreases |s| - i
  {
    if !Peek(s, i, "<>") then Redirs(rs, Skip(s, i))
    else
      var tok := Gettoken(s, i);
      var file := Gettoken(s, tok.next);
      if file.kind != 'a' then RedirPanic
      else
        var mode := if tok.kind == '<' then ReadFile else WriteFile;
        ParseRedirs(s, file.next, rs + [Redirection(Span(file.q, file.eq), mode)])
  }

  /** The loop of parseexec. The redirections end up around the command whose arguments are still
      being collected. */
  function ParseArgs(s: string, i: nat, args: seq<Span>, rs: seq<Redirection>): (p: Parse)
    requires i <= |s| && |args| < MAXARGS
    requires (forall k | 0 <= k < |args| :: IsWord(s, args[k])) && (forall k | 0 <= k < |rs| :: IsWord(s, rs[k].file))
    ensures Good(s, i, p)
    decreases |s| - i
  {
    WrapSpanned(s, Exec(args), rs);
    if Peek(s, i, "|)&;") then Ok(Wrap(Exec(args), rs), Skip(s, i))
    else
      var tok := Gettoken(s, i);
      if tok.kind == NUL then Ok(Wrap(Exec(args), rs), tok.next)
      else if tok.kind != 'a' then Panic
      else if |args| + 1 >= MAXARGS then Panic
      else
        var r := ParseRedirs(s, tok.next, rs);
        if r.RedirPanic? then Panic
        else ParseArgs(s, r.next, args + [Span(tok.q, tok.eq)], r.list)
  }

  /** The loop of parseline over &. */
  function ParseBacks(s: string, i: nat, c: Cmd): (p: Parse)
    requires i <= |s| && Spanned(s, c)
    ensures p.Ok? && Good(s, i, p) && !Peek(s, p.next, "&")
    decreases |s| - i
  {
    if Peek(s, i, "&") then ParseBacks(s, Gettoken(s, i).next, Back(c)) else Ok(c, Skip(s, i))
  }

  function ParseLine(s: string, i: nat): (p: Parse)
    requires i <= |s|
    ensures Good(s, i, p)
    decreases |s| - i, 3
  {
    var p := ParsePipe(s, i);
    if p.Panic? then Panic
    else
      var b := ParseBacks(s, p.next, p.cmd);
      if !Peek(s, b.next, ";") then Ok(b.cmd, Skip(s, b.next))
      else
        var r := ParseLine(s, Gettoken(s, b.next).next);
        if r.Panic? then Panic else Ok(List(b.cmd, r.cmd), r.next)
  }

  function ParsePipe(s: string, i: nat): (p: Parse)
    requires i <= |s|
    ensures Good(s, i, p)
    decreases |s| - i, 2
  {
    var p := ParseExec(s, i);
    if p.Panic? then Panic
    else if !Peek(s, p.next, "|") then Ok(p.cmd, Skip(s, p.next))
    else
      var r := ParsePipe(s, Gettoken(s, p.next).next);
      if r.Panic? then Panic else Ok(Pipe(p.cmd, r.cmd), r.next)
  }

  function ParseExec(s: string, i: nat): (p: Parse)
    requires i <= |s|
    ensures Good(s, i, p)
    decreases |s| - i, 1
  {
    if Peek(s, i, "(") then ParseBlock(s, i)
    else
      var r := ParseRedirs(s, i, []);
      if r.RedirPanic? then Panic else ParseArgs(s, r.next, [], r.list)
  }

  function ParseBlock(s: string, i: nat): (p: Parse)
    requires i <= |s|
    ensures Good(s, i, p)
    decreases |s| - i, 0
  {
    if !Peek(s, i, "(") then Panic
    else
      var p := ParseLine(s, Gettoken(s, i).next);
      if p.Panic? || !Peek(s, p.next, ")") then Panic
      else
        var r := ParseRedirs(s, Gettoken(s, p.next).next, []);
        if r.RedirPanic? then Panic
        else
          WrapSpanned(s, p.cmd, r.list);
          Ok(Wrap(p.cmd, r.list), r.next)
  }

  /** parsecmd before nulterminate: anything left over is a panic. */
  function ParseCmd(s: string): (p: Parse)
    ensures Good(s, 0, p) && (p.Ok? ==> Skip(s, p.next) == |s|)
  {
    var p := ParseLine(s, 0);
    if p.Panic? || Skip(s, p.next) != |s| then Panic else p
  }
}
