/** The shell's lexer and parser as functions of the command text: what gettoken, peek and the
    parse functions return and where they leave the shared cursor.  (user/sh.c) */
module ShellSyntax {
  const MAXARGS := 10

  const WHITESPACE := " \t\r\n\U{000b}"
  const SYMBOLS := "<|>&;()"

  predicate IsSpace(c: char) { c in WHITESPACE }

  /** A character that gettoken keeps in a word. */
  predicate IsWordChar(c: char) { c !in WHITESPACE && c !in SYMBOLS && c != '\0' }

  /** The text [q, eq) of the command line. */
  datatype Span = Span(q: nat, eq: nat)

  /** O_RDONLY on descriptor 0, or O_WRONLY|O_CREATE on descriptor 1. */
  datatype Mode = Input | Output

  /** A parsed command; words are spans of the command line. */
  datatype Cmd =
    | Exec(argv: seq<Span>)
    | Redir(cmd: Cmd, file: Span, mode: Mode)
    | Pipe(left: Cmd, right: Cmd)
    | List(left: Cmd, right: Cmd)
    | Back(cmd: Cmd)

  /** A result and the new cursor, or one of the parser's panics. */
  datatype Parse<T> = Ok(value: T, pos: nat) | Panic

  datatype Token = Token(ret: char, q: nat, eq: nat)

  /** A command with its words as strings. */
  datatype Tree =
    | TExec(argv: seq<string>)
    | TRedir(cmd: Tree, file: string, mode: Mode)
    | TPipe(left: Tree, right: Tree)
    | TList(left: Tree, right: Tree)
    | TBack(cmd: Tree)

  function Text(s: string, w: Span): string {
    if w.q <= w.eq <= |s| then s[w.q..w.eq] else ""
  }

  /** The tree a parsed command stands for. */
  function Meaning(s: string, cmd: Cmd): Tree {
    match cmd
    case Exec(argv) => TExec(seq(|argv|, i requires 0 <= i < |argv| => Text(s, argv[i])))
    case Redir(c, file, m) => TRedir(Meaning(s, c), Text(s, file), m)
    case Pipe(l, r) => TPipe(Meaning(s, l), Meaning(s, r))
    case List(l, r) => TList(Meaning(s, l), Meaning(s, r))
    case Back(c) => TBack(Meaning(s, c))
  }

  // ---------- lexer ----------

  function SkipSpace(s: string, i: nat): (r: nat)
    requires i <= |s|
    ensures i <= r <= |s|
    decreases |s| - i
  {
    if i < |s| && IsSpace(s[i]) then SkipSpace(s, i + 1) else i
  }

  function SkipWord(s: string, i: nat): (r: nat)
    requires i <= |s|
    ensures i <= r <= |s|
    decreases |s| - i
  {
    if i < |s| && !IsSpace(s[i]) && s[i] !in SYMBOLS then SkipWord(s, i + 1) else i
  }

  /** gettoken: the kind of the next token ('a' for a word, '+' for >>, NUL at the end), its span,
      and the cursor past the blanks that follow it. */
  function NextToken(s: string, i: nat): (r: Parse<Token>)
    requires i <= |s|
    ensures r.Ok? && i <= r.value.q <= r.value.eq <= r.pos <= |s|
    ensures r.value.ret != '\0' <==> r.value.q < |s| && s[r.value.q] != '\0'
    ensures r.value.ret != '\0' ==> i < r.pos
  {
    var q := SkipSpace(s, i);
    var ret := if q == |s| || s[q] == '\0' then '\0'
               else if s[q] in "|();&<" then s[q]
               else if s[q] == '>' then if q + 1 < |s| && s[q+1] == '>' then '+' else '>'
               else 'a';
    var eq := if ret == '\0' then q else if ret == 'a' then SkipWord(s, q) else if ret == '+' then q + 2 else q + 1;
    Ok(Token(ret, q, eq), SkipSpace(s, eq))
  }

  /** peek's answer; it also moves the cursor past blanks. */
  predicate Sees(s: string, i: nat, toks: string)
    requires i <= |s|
  {
    SkipSpace(s, i) < |s| && s[SkipSpace(s, i)] in toks
  }

  // ---------- parser ----------

  function ModeOf(tok: char): Mode { if tok == '<' then Input else Output }

  /** parseredirs */
  function Redirs(s: string, i: nat, cmd: Cmd): (r: Parse<Cmd>)
    requires i <= |s|
    ensures r.Ok? ==> i <= r.pos <= |s|
    decreases |s| - i
  {
    if !Sees(s, i, "<>") then Ok(cmd, SkipSpace(s, i))
    else
      var op := NextToken(s, i);
      var file := NextToken(s, op.pos);
      if file.value.ret != 'a' then Panic
      else Redirs(s, file.pos, Redir(cmd, Span(file.value.q, file.value.eq), ModeOf(op.value.ret)))
  }

  /** A word stored through the parser's pointer to the exec node, wherever redirections have put that node. */
  function AddArg(cmd: Cmd, w: Span): Cmd {
    match cmd
    case Exec(argv) => Exec(argv + [w])
    case Redir(c, f, m) => Redir(AddArg(c, w), f, m)
    case _ => cmd
  }

  function Argc(cmd: Cmd): nat {
    match cmd
    case Exec(argv) => |argv|
    case Redir(c, f, m) => Argc(c)
    case _ => 0
  }

  /** parseexec's loop */
  function Args(s: string, i: nat, ret: Cmd): (r: Parse<Cmd>)
    requires i <= |s|
    ensures r.Ok? ==> i <= r.pos <= |s|
    decreases |s| - i
  {
    if Sees(s, i, "|)&;") then Ok(ret, SkipSpace(s, i))
    else
      var tok := NextToken(s, i);
      if tok.value.ret == '\0' then Ok(ret, tok.pos)
      else if tok.value.ret != 'a' then Panic
      else
        var ret := AddArg(ret, Span(tok.value.q, tok.value.eq));
        if Argc(ret) >= MAXARGS then Panic
        else
          var rest := Redirs(s, tok.pos, ret);
          if rest.Panic? then Panic else Args(s, rest.pos, rest.value)
  }

  /** parseexec */
  function PExec(s: string, i: nat): (r: Parse<Cmd>)
    requires i <= |s|
    ensures r.Ok? ==> i <= r.pos <= |s|
    decreases |s| - i, 1
  {
    if Sees(s, i, "(") then PBlock(s, i)
    else
      var first := Redirs(s, i, Exec([]));
      if first.Panic? then Panic else Args(s, first.pos, first.value)
  }

  /** parseblock */
  function PBlock(s: string, i: nat): (r: Parse<Cmd>)
    requires i <= |s|
    ensures r.Ok? ==> i <= r.pos <= |s|
    decreases |s| - i, 0
  {
    if !Sees(s, i, "(") then Panic
    else
      var line := PLine(s, NextToken(s, i).pos);
      if line.Panic? || !Sees(s, line.pos, ")") then Panic
      else Redirs(s, NextToken(s, line.pos).pos, line.value)
  }

  /** parsepipe */
  function PPipe(s: string, i: nat): (r: Parse<Cmd>)
    requires i <= |s|
    ensures r.Ok? ==> i <= r.pos <= |s|
    decreases |s| - i, 2
  {
    var left := PExec(s, i);
    if left.Panic? then Panic
    else if !Sees(s, left.pos, "|") then Ok(left.value, SkipSpace(s, left.pos))
    else
      var right := PPipe(s, NextToken(s, left.pos).pos);
      if right.Panic? then Panic else Ok(Pipe(left.value, right.value), right.pos)
  }

  /** parseline's loop over & */
  function Backs(s: string, i: nat, cmd: Cmd): (r: Parse<Cmd>)
    requires i <= |s|
    ensures r.Ok? && i <= r.pos <= |s|
    decreases |s| - i
  {
    if Sees(s, i, "&") then Backs(s, NextToken(s, i).pos, Back(cmd)) else Ok(cmd, SkipSpace(s, i))
  }

  /** parseline */
  function PLine(s: string, i: nat): (r: Parse<Cmd>)
    requires i <= |s|
    ensures r.Ok? ==> i <= r.pos <= |s|
    decreases |s| - i, 3
  {
    var first := PPipe(s, i);
    if first.Panic? then Panic
    else
      var cmd := Backs(s, first.pos, first.value);
      if !Sees(s, cmd.pos, ";") then Ok(cmd.value, SkipSpace(s, cmd.pos))
      else
        var rest := PLine(s, NextToken(s, cmd.pos).pos);
        if rest.Panic? then Panic else Ok(List(cmd.value, rest.value), rest.pos)
  }

  /** parsecmd, up to nulterminate */
  function PCmd(s: string): Parse<Cmd> {
    var r := PLine(s, 0);
    if r.Panic? || SkipSpace(s, r.pos) != |s| then Panic else Ok(r.value, |s|)
  }
}
