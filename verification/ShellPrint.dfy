/** Printing a command tree and parsing it back.  (user/sh.c) */
module ShellPrint {
  import opened CTypes
  import opened ShellSyntax
  import opened Shell

  predicate IsWord(w: string) {
    w != "" && forall k :: 0 <= k < |w| ==> IsWordChar(w[k])
  }

  /** Words are words and no command has more arguments than the parser stores. */
  predicate WellFormed(t: Tree) {
    match t
    case TExec(argv) => |argv| < MAXARGS && forall k :: 0 <= k < |argv| ==> IsWord(argv[k])
    case TRedir(c, file, _) => IsWord(file) && WellFormed(c)
    case TPipe(l, r) => WellFormed(l) && WellFormed(r)
    case TList(l, r) => WellFormed(l) && WellFormed(r)
    case TBack(c) => WellFormed(c)
  }

  // ---------- printer ----------

  function PrintWords(ws: seq<string>): string {
    if ws == [] then "" else ws[0] + " " + PrintWords(ws[1..])
  }

  function PrintRedir(file: string, mode: Mode): string {
    (if mode == Input then "< " else "> ") + file + " "
  }

  /** Where parseexec reads: a simple command with its redirections after the words, innermost first,
      or anything else in parentheses. */
  function PrintExec(t: Tree): string
    decreases t, 1
  {
    match t
    case TExec(argv) => PrintWords(argv)
    case TRedir(c, file, mode) => PrintExec(c) + PrintRedir(file, mode)
    case _ => "( " + PrintInner(t) + ") "
  }

  function PrintInner(t: Tree): string
    decreases t, 0
  {
    match t
    case TPipe(l, r) => PrintExec(l) + "| " + PrintPipe(r)
    case TList(l, r) => PrintBack(l) + "; " + PrintLine(r)
    case TBack(c) => PrintBack(c) + "& "
    case _ => ""
  }

  /** Where parsepipe reads. */
  function PrintPipe(t: Tree): string
    decreases t, 2
  {
    if t.TPipe? then PrintInner(t) else PrintExec(t)
  }

  /** Where parseline reads, before a ; */
  function PrintBack(t: Tree): string
    decreases t, 2
  {
    if t.TPipe? || t.TBack? then PrintInner(t) else PrintExec(t)
  }

  /** Where parseline reads. */
  function PrintLine(t: Tree): string
    decreases t, 2
  {
    if t.TPipe? || t.TBack? || t.TList? then PrintInner(t) else PrintExec(t)
  }

  // ---------- lexing what was printed ----------

  /** s continues with p at i. */
  predicate At(s: string, i: nat, p: string) {
    i + |p| <= |s| && s[i..i + |p|] == p
  }

  /** No blank at j. */
  predicate Clear(s: string, j: nat) {
    j <= |s| && (j < |s| ==> !IsSpace(s[j]))
  }

  lemma AtConcat(s: string, i: nat, p: string, r: string)
    requires At(s, i, p + r)
    ensures At(s, i, p) && At(s, i + |p|, r)
  {
    assert s[i..i + |p|] == (p + r)[..|p|];
    assert s[i + |p|..i + |p| + |r|] == (p + r)[|p|..];
  }

  lemma SkipNothing(s: string, i: nat)
    requires Clear(s, i)
    ensures SkipSpace(s, i) == i
  {}

  lemma {:induction false} SkipsWord(s: string, i: nat, w: string)
    requires At(s, i, w) && (forall k :: 0 <= k < |w| ==> IsWordChar(w[k]))
    requires i + |w| < |s| && !IsWordChar(s[i + |w|])
    requires s[i + |w|] != '\0'
    ensures SkipWord(s, i) == i + |w|
    decreases |w|
  {
    if w != "" {
      assert s[i] == w[0];
      AtConcat(s, i, [w[0]], w[1..]);
      assert w == [w[0]] + w[1..];
      SkipsWord(s, i + 1, w[1..]);
    }
  }

  /** A printed word, followed by its space and something that is not a blank, lexes as that word. */
  lemma LexWord(s: string, i: nat, w: string)
    requires IsWord(w) && At(s, i, w + " ") && Clear(s, i + |w| + 1)
    ensures NextToken(s, i) == Ok(Token('a', i, i + |w|), i + |w| + 1) && Text(s, Span(i, i + |w|)) == w
    ensures !Sees(s, i, "<>") && !Sees(s, i, "|)&;") && !Sees(s, i, "(")
  {
    AtConcat(s, i, w, " ");
    assert s[i] == w[0] && IsWordChar(s[i]) && s[i + |w|] == ' ';
    SkipsWord(s, i, w);
    assert SkipSpace(s, i + |w|) == SkipSpace(s, i + |w| + 1);
  }

  /** A printed symbol lexes as itself. */
  lemma LexSymbol(s: string, i: nat, c: char)
    requires c in "<>|)&;(" && At(s, i, [c] + " ") && Clear(s, i + 2)
    ensures NextToken(s, i) == Ok(Token(c, i, i + 1), i + 2)
    ensures SkipSpace(s, i) == i && forall toks :: Sees(s, i, toks) <==> c in toks
  {
    AtConcat(s, i, [c], " ");
    assert s[i] == c && s[i + 1] == ' ';
    assert SkipSpace(s, i + 1) == SkipSpace(s, i + 2) == i + 2;
  }

  // ---------- prints start with no blank ----------

  predicate StartsClear(p: string) { p == "" || !IsSpace(p[0]) }

  lemma ClearAt(s: string, i: nat, p: string)
    requires At(s, i, p) && StartsClear(p) && Clear(s, i + |p|)
    ensures Clear(s, i)
  {
    if p != "" { assert s[i] == p[0]; }
  }

  lemma WordsStart(ws: seq<string>)
    requires forall k :: 0 <= k < |ws| ==> IsWord(ws[k])
    ensures StartsClear(PrintWords(ws))
  {
    if ws != [] { assert PrintWords(ws)[0] == ws[0][0]; }
  }

  lemma {:induction false} PrintsStart(t: Tree)
    requires WellFormed(t)
    ensures StartsClear(PrintExec(t)) && StartsClear(PrintInner(t))
  {
    match t
    case TExec(argv) => WordsStart(argv);
    case TRedir(c, file, mode) =>
      PrintsStart(c);
      if PrintExec(c) == "" { assert PrintExec(t) == PrintRedir(file, mode); }
    case TPipe(l, r) => PrintsStart(l);
    case TList(l, r) => PrintsStart(l);
    case TBack(c) => PrintsStart(c);
  }

  // ---------- redirections ----------

  /** A redirection still to be wrapped around a command. */
  datatype Op = Op(file: string, mode: Mode)

  function Wrap(t: Tree, ops: seq<Op>): Tree
    decreases ops
  {
    if ops == [] then t else Wrap(TRedir(t, ops[0].file, ops[0].mode), ops[1..])
  }

  function PrintOps(ops: seq<Op>): string {
    if ops == [] then "" else PrintRedir(ops[0].file, ops[0].mode) + PrintOps(ops[1..])
  }

  predicate OpsWellFormed(ops: seq<Op>) {
    forall k :: 0 <= k < |ops| ==> IsWord(ops[k].file)
  }

  function Base(t: Tree): Tree { if t.TRedir? then Base(t.cmd) else t }

  function Ops(t: Tree): seq<Op> { if t.TRedir? then Ops(t.cmd) + [Op(t.file, t.mode)] else [] }

  lemma {:induction false} OpsAppend(t: Tree, ops: seq<Op>, op: Op)
    ensures Wrap(t, ops + [op]) == TRedir(Wrap(t, ops), op.file, op.mode)
    ensures PrintOps(ops + [op]) == PrintOps(ops) + PrintRedir(op.file, op.mode)
    decreases ops
  {
    if ops == [] {
      assert ops + [op] == [op];
    } else {
      assert (ops + [op])[1..] == ops[1..] + [op];
      OpsAppend(TRedir(t, ops[0].file, ops[0].mode), ops[1..], op);
    }
  }

  /** A chain of redirections prints as its base, then the redirections innermost first. */
  lemma {:induction false} Decompose(t: Tree)
    requires WellFormed(t)
    ensures PrintExec(t) == PrintExec(Base(t)) + PrintOps(Ops(t)) && Wrap(Base(t), Ops(t)) == t
    ensures !Base(t).TRedir? && WellFormed(Base(t)) && OpsWellFormed(Ops(t)) && (t.TRedir? ==> Base(t) < t)
  {
    if t.TRedir? {
      hide PrintRedir, Wrap, PrintOps;
      Decompose(t.cmd);
      OpsAppend(Base(t), Ops(t.cmd), Op(t.file, t.mode));
      Associate(PrintExec(Base(t)), PrintOps(Ops(t.cmd)), PrintRedir(t.file, t.mode));
    }
  }

  lemma Associate(a: string, b: string, c: string)
    ensures (a + b) + c == a + (b + c)
  {}

  lemma OpsStart(ops: seq<Op>)
    ensures StartsClear(PrintOps(ops))
  {}

  function Symbol(mode: Mode): char { if mode == Input then '<' else '>' }

  lemma RedirPieces(s: string, i: nat, op: Op, rest: string)
    requires At(s, i, PrintRedir(op.file, op.mode) + rest)
    ensures |PrintRedir(op.file, op.mode)| == |op.file| + 3
    ensures At(s, i, [Symbol(op.mode)] + " ") && At(s, i + 2, op.file + " ") && At(s, i + |op.file| + 3, rest)
  {
    var a, b := [Symbol(op.mode)] + " ", op.file + " ";
    assert PrintRedir(op.file, op.mode) == a + b;
    assert PrintRedir(op.file, op.mode) + rest == a + (b + rest);
    AtConcat(s, i, a, b + rest);
    AtConcat(s, i + 2, b, rest);
  }

  lemma FirstRedir(s: string, i: nat, cmd: Cmd, op: Op, rest: string)
    requires IsWord(op.file) && At(s, i, PrintRedir(op.file, op.mode) + rest) && StartsClear(rest)
    requires Clear(s, i + |op.file| + 3 + |rest|)
    ensures At(s, i + |op.file| + 3, rest) && |PrintRedir(op.file, op.mode)| == |op.file| + 3
    ensures Redirs(s, i, cmd) == Redirs(s, i + |op.file| + 3, Redir(cmd, Span(i + 2, i + 2 + |op.file|), op.mode))
    ensures Text(s, Span(i + 2, i + 2 + |op.file|)) == op.file && !Sees(s, i, "(")
  {
    hide SkipSpace, NextToken, SkipWord, IsSpace, Redirs, PrintRedir, At, Clear, Text, IsWord, Sees, StartsClear;
    RedirPieces(s, i, op, rest);
    ClearAt(s, i + |op.file| + 3, rest);
    WordStart(op.file);
    assert i + 2 + |op.file + " "| == i + |op.file| + 3;
    ClearAt(s, i + 2, op.file + " ");
    LexSymbol(s, i, Symbol(op.mode));
    LexWord(s, i + 2, op.file);
    RedirsUnfold(s, i, cmd);
  }

  lemma RedirsUnfold(s: string, i: nat, cmd: Cmd)
    requires i <= |s| && Sees(s, i, "<>")
    requires NextToken(s, NextToken(s, i).pos).value.ret == 'a'
    ensures var op := NextToken(s, i); var file := NextToken(s, op.pos);
            Redirs(s, i, cmd) == Redirs(s, file.pos, Redir(cmd, Span(file.value.q, file.value.eq), ModeOf(op.value.ret)))
  {
    hide SkipSpace, NextToken, SkipWord, IsSpace, Sees;
  }

  lemma WordStart(w: string)
    requires IsWord(w)
    ensures StartsClear(w + " ")
  {
    assert (w + " ")[0] == w[0];
  }

  lemma NotSeen(s: string, i: nat)
    requires Clear(s, i) && (i < |s| ==> s[i] !in "<>")
    ensures !Sees(s, i, "<>")
  {}

  lemma {:induction false} RedirsParse(s: string, i: nat, cmd: Cmd, ops: seq<Op>)
    requires OpsWellFormed(ops) && At(s, i, PrintOps(ops)) && Clear(s, i + |PrintOps(ops)|)
    requires i + |PrintOps(ops)| < |s| ==> s[i + |PrintOps(ops)|] !in "<>"
    ensures Redirs(s, i, cmd).Ok? && Redirs(s, i, cmd).pos == i + |PrintOps(ops)|
    ensures Meaning(s, Redirs(s, i, cmd).value) == Wrap(Meaning(s, cmd), ops)
    decreases ops
  {
    hide Redirs, At, Clear, Text, IsWord, Sees, PrintRedir;
    if ops == [] {
      NotSeen(s, i);
      NoRedirs(s, i, cmd);
    } else {
      OpsStart(ops[1..]);
      RedirPieces(s, i, ops[0], PrintOps(ops[1..]));
      FirstRedir(s, i, cmd, ops[0], PrintOps(ops[1..]));
      RedirsParse(s, i + |ops[0].file| + 3, Redir(cmd, Span(i + 2, i + 2 + |ops[0].file|), ops[0].mode), ops[1..]);
    }
  }

  // ---------- simple commands ----------

  /** What may follow a command that parseexec reads. */
  predicate Stop(s: string, j: nat) {
    j <= |s| && (j < |s| ==> s[j] in "|)&;")
  }

  lemma StopIs(s: string, j: nat)
    requires Stop(s, j)
    ensures Clear(s, j) && SkipSpace(s, j) == j && !Sees(s, j, "(") && !Sees(s, j, "<>")
    ensures forall ret :: Args(s, j, ret) == Ok(ret, j) && Redirs(s, j, ret) == Ok(ret, j)
  {}

  /** One word of a simple command. */
  lemma FirstArg(s: string, i: nat, argv: seq<Span>, w: string, rest: string)
    requires IsWord(w) && |argv| + 1 < MAXARGS && At(s, i, w + " " + rest) && StartsClear(rest) && Clear(s, i + |w| + 1 + |rest|)
    ensures At(s, i + |w| + 1, rest) && Clear(s, i + |w| + 1) && Clear(s, i)
    ensures var argv' := argv + [Span(i, i + |w|)];
            var next := Redirs(s, i + |w| + 1, Exec(argv'));
            && Meaning(s, Exec(argv')) == TExec(Meaning(s, Exec(argv)).argv + [w])
            && Args(s, i, Exec(argv)) == if next.Panic? then Panic else Args(s, next.pos, next.value)
    ensures !Sees(s, i, "<>") && !Sees(s, i, "(")
  {
    hide SkipSpace, NextToken, SkipWord, IsSpace;
    assert w + " " + rest == (w + " ") + rest;
    AtConcat(s, i, w + " ", rest);
    ClearAt(s, i + |w| + 1, rest);
    WordStart(w);
    ClearAt(s, i, w + " ");
    LexWord(s, i, w);
  }

  lemma {:induction false} ArgsParse(s: string, i: nat, argv: seq<Span>, ws: seq<string>, ops: seq<Op>)
    requires ws != [] && |argv| + |ws| < MAXARGS && (forall k :: 0 <= k < |ws| ==> IsWord(ws[k])) && OpsWellFormed(ops)
    requires At(s, i, PrintWords(ws) + PrintOps(ops)) && Stop(s, i + |PrintWords(ws)| + |PrintOps(ops)|)
    ensures Args(s, i, Exec(argv)).Ok? && Args(s, i, Exec(argv)).pos == i + |PrintWords(ws)| + |PrintOps(ops)|
    ensures Meaning(s, Args(s, i, Exec(argv)).value) == Wrap(TExec(Meaning(s, Exec(argv)).argv + ws), ops)
    ensures !Sees(s, i, "<>") && !Sees(s, i, "(") && Clear(s, i)
    decreases ws
  {
    hide Args, Redirs, At, Clear, Text, IsWord, Stop, Sees, SkipSpace, StartsClear;
    var w, ws', rest := ws[0], ws[1..], PrintWords(ws[1..]) + PrintOps(ops);
    assert PrintWords(ws) + PrintOps(ops) == w + " " + rest;
    var k := i + |w| + 1;
    StopIs(s, k + |rest|);
    WordsStart(ws');
    OpsStart(ops);
    ConcatStart(PrintWords(ws'), PrintOps(ops));
    FirstArg(s, i, argv, w, rest);
    var argv' := argv + [Span(i, i + |w|)];
    if ws' == [] {
      assert rest == PrintOps(ops) && ws == [w];
      StopNotRedir(s, k + |rest|);
      RedirsParse(s, k, Exec(argv'), ops);
    } else {
      ArgsParse(s, k, argv', ws', ops);
      NoRedirs(s, k, Exec(argv'));
      assert Meaning(s, Exec(argv)).argv + ws == Meaning(s, Exec(argv')).argv + ws';
    }
  }

  lemma ConcatStart(p: string, r: string)
    requires StartsClear(p) && StartsClear(r)
    ensures StartsClear(p + r)
  {
    if p == "" { assert p + r == r; }
  }

  lemma StopNotRedir(s: string, j: nat)
    requires Stop(s, j)
    ensures j < |s| ==> s[j] !in "<>"
  {}

  lemma NoRedirs(s: string, i: nat, cmd: Cmd)
    requires Clear(s, i) && !Sees(s, i, "<>")
    ensures Redirs(s, i, cmd) == Ok(cmd, i)
  {}

  // ---------- the round trip ----------

  /** The i-th parse reads p, ends at its end, and means t. */
  ghost predicate Reads(s: string, r: Parse<Cmd>, j: nat, t: Tree) {
    r.Ok? && r.pos == j && Meaning(s, r.value) == t
  }

  /** Orders the four mutually recursive lemmas on one tree: exec 0, line 1, back 2, pipe 3. */
  function Rank(f: nat, t: Tree): nat {
    match t
    case TPipe(_, _) => if f == 0 then 3 else if f == 1 then 2 else if f == 2 then 1 else 0
    case TList(_, _) => if f == 0 then 1 else if f == 1 then 0 else if f == 2 then 3 else 2
    case TBack(_) => if f == 0 then 2 else if f == 1 then 1 else if f == 2 then 0 else 3
    case _ => if f == 0 then 0 else if f == 1 then 3 else if f == 2 then 2 else 1
  }

  lemma SimpleParse(s: string, i: nat, argv: seq<string>, ops: seq<Op>)
    requires |argv| < MAXARGS && (forall k :: 0 <= k < |argv| ==> IsWord(argv[k])) && OpsWellFormed(ops)
    requires At(s, i, PrintWords(argv) + PrintOps(ops)) && Stop(s, i + |PrintWords(argv)| + |PrintOps(ops)|)
    ensures Reads(s, PExec(s, i), i + |PrintWords(argv)| + |PrintOps(ops)|, Wrap(TExec(argv), ops))
  {
    hide Args, Redirs, At, Clear, Text, IsWord, Stop, Sees, SkipSpace, StartsClear, PrintOps, PExec, Meaning;
    StopIs(s, i + |PrintWords(argv)| + |PrintOps(ops)|);
    if argv == [] {
      assert PrintWords(argv) + PrintOps(ops) == PrintOps(ops);
      OpsParse(s, i, ops);
    } else {
      WordsParse(s, i, argv, ops);
    }
  }

  lemma OpsParse(s: string, i: nat, ops: seq<Op>)
    requires OpsWellFormed(ops) && At(s, i, PrintOps(ops)) && Stop(s, i + |PrintOps(ops)|)
    ensures Reads(s, PExec(s, i), i + |PrintOps(ops)|, Wrap(TExec([]), ops))
  {
    hide Args, Redirs, At, Clear, Text, IsWord, Stop, Sees, SkipSpace, StartsClear, PBlock;
    var j := i + |PrintOps(ops)|;
    StopIs(s, j);
    StopNotRedir(s, j);
    RedirsParse(s, i, Exec([]), ops);
    if ops != [] {
      OpsStart(ops[1..]);
      RedirPieces(s, i, ops[0], PrintOps(ops[1..]));
      FirstRedir(s, i, Exec([]), ops[0], PrintOps(ops[1..]));
    }
    assert Meaning(s, Exec([])) == TExec([]);
  }

  lemma WordsParse(s: string, i: nat, argv: seq<string>, ops: seq<Op>)
    requires 0 < |argv| < MAXARGS && (forall k :: 0 <= k < |argv| ==> IsWord(argv[k])) && OpsWellFormed(ops)
    requires At(s, i, PrintWords(argv) + PrintOps(ops)) && Stop(s, i + |PrintWords(argv)| + |PrintOps(ops)|)
    ensures Reads(s, PExec(s, i), i + |PrintWords(argv)| + |PrintOps(ops)|, Wrap(TExec(argv), ops))
  {
    hide Args, Redirs, At, Clear, Text, IsWord, Stop, Sees, SkipSpace, StartsClear, PBlock;
    StopIs(s, i + |PrintWords(argv)| + |PrintOps(ops)|);
    ArgsParse(s, i, [], argv, ops);
    NoRedirs(s, i, Exec([]));
    assert Meaning(s, Exec([])).argv + argv == argv;
  }

  /** "( inner ) " and redirections. */
  lemma BlockPieces(s: string, i: nat, inner: string, rest: string)
    requires At(s, i, "( " + inner + ") " + rest)
    ensures At(s, i, "( ") && At(s, i + 2, inner) && At(s, i + 2 + |inner|, ") ") && At(s, i + |inner| + 4, rest)
  {
    assert "( " + inner + ") " + rest == "( " + (inner + (") " + rest));
    AtConcat(s, i, "( ", inner + (") " + rest));
    AtConcat(s, i + 2, inner, ") " + rest);
    AtConcat(s, i + 2 + |inner|, ") ", rest);
  }

  lemma {:induction false} ExecRoundTrip(s: string, i: nat, t: Tree)
    requires WellFormed(t) && At(s, i, PrintExec(t)) && Stop(s, i + |PrintExec(t)|)
    ensures Reads(s, PExec(s, i), i + |PrintExec(t)|, t)
    decreases t, Rank(0, t)
  {
    hide Args, Redirs, At, Clear, Text, IsWord, Stop, Sees, SkipSpace, StartsClear, NextToken, PLine, PExec, Meaning, Reads;
    Decompose(t);
    var b, ops := Base(t), Ops(t);
    var j := i + |PrintExec(t)|;
    if b.TExec? {
      SimpleParse(s, i, b.argv, ops);
    } else {
      var inner := PrintInner(b);
      assert PrintExec(t) == "( " + inner + ") " + PrintOps(ops);
      BlockPieces(s, i, inner, PrintOps(ops));
      PrintsStart(b);
      assert PrintLine(b) == inner;
      hide PrintExec, PrintInner, PrintLine, PrintOps, Reads, Wrap;
      BlockStarts(s, i, inner, ops);
      LineRoundTrip(s, i + 2, b);
      BlockParse(s, i, i + 2 + |inner|, b, ops);
    }
  }

  lemma BlockStarts(s: string, i: nat, inner: string, ops: seq<Op>)
    requires At(s, i + 2, inner) && StartsClear(inner) && At(s, i + 2 + |inner|, ") ")
    ensures i + 2 + |inner| < |s| && s[i + 2 + |inner|] == ')' && Clear(s, i + 2)
  {
    hide At, Clear;
    assert [')'] + " " == ") ";
    SymbolHere(s, i + 2 + |inner|, ')');
    ClearAt(s, i + 2, inner);
  }

  lemma BlockParse(s: string, i: nat, k: nat, b: Tree, ops: seq<Op>)
    requires At(s, i, "( ") && Clear(s, i + 2) && Reads(s, PLine(s, i + 2), k, b) && At(s, k, ") ")
    requires OpsWellFormed(ops) && At(s, k + 2, PrintOps(ops)) && Stop(s, k + 2 + |PrintOps(ops)|)
    ensures Reads(s, PExec(s, i), k + 2 + |PrintOps(ops)|, Wrap(b, ops))
  {
    hide Args, Redirs, At, Clear, Text, IsWord, Stop, SkipSpace, StartsClear, NextToken, PLine, PrintOps, Wrap;
    OpsStart(ops);
    StopIs(s, k + 2 + |PrintOps(ops)|);
    StopNotRedir(s, k + 2 + |PrintOps(ops)|);
    ClearAt(s, k + 2, PrintOps(ops));
    assert [')'] + " " == ") " && ['('] + " " == "( ";
    SymbolHere(s, k, ')');
    LexSymbol(s, k, ')');
    SymbolHere(s, i, '(');
    LexSymbol(s, i, '(');
    RedirsParse(s, k + 2, PLine(s, i + 2).value, ops);
  }

  lemma SymbolHere(s: string, i: nat, c: char)
    requires At(s, i, [c] + " ") && c in "<>|)&;("
    ensures i < |s| && s[i] == c && Clear(s, i)
  {
    AtConcat(s, i, [c], " ");
  }

  lemma {:induction false} LineRoundTrip(s: string, i: nat, t: Tree)
    requires WellFormed(t) && At(s, i, PrintLine(t))
    requires var j := i + |PrintLine(t)|; j < |s| ==> s[j] == ')'
    ensures Reads(s, PLine(s, i), i + |PrintLine(t)|, t)
    decreases t, Rank(1, t)
  {
    hide At, Clear, Text, IsWord, Stop, Sees, SkipSpace, StartsClear, NextToken, PPipe, Backs, PLine, Meaning, Reads,
         PrintLine, PrintBack;
    var j := i + |PrintLine(t)|;
    AtEnds(s, i, PrintLine(t));
    LinePieces(s, i, t);
    if t.TList? {
      var k := i + |PrintBack(t.left)|;
      LineStart(t.right);
      EndClear(s, j);
      ClearAt(s, k + 2, PrintLine(t.right));
      assert [';'] + " " == "; ";
      SymbolHere(s, k, ';');
      var c := BackRoundTrip(s, i, t.left);
      LineRoundTrip(s, k + 2, t.right);
      ListParse(s, i, k, c, j, t.right);
    } else {
      var c := BackRoundTrip(s, i, t);
      LineEnds(s, i, j, c);
    }
  }

  lemma LineEnds(s: string, i: nat, j: nat, c: Cmd)
    requires i <= |s| && j <= |s| && (j < |s| ==> s[j] == ')') && PPipe(s, i).Ok?
    requires Backs(s, PPipe(s, i).pos, PPipe(s, i).value) == Backs(s, j, c)
    ensures Reads(s, PLine(s, i), j, Meaning(s, c))
  {
    hide Text, Meaning, PPipe, Backs;
    EndClear(s, j);
    BacksStop(s, j, c);
    NotSemi(s, j);
  }

  lemma LinePieces(s: string, i: nat, t: Tree)
    requires At(s, i, PrintLine(t))
    ensures !t.TList? ==> PrintLine(t) == PrintBack(t)
    ensures t.TList? ==> var p, r := PrintBack(t.left), PrintLine(t.right);
              |PrintLine(t)| == |p| + 2 + |r| && At(s, i, p) && At(s, i + |p|, "; ") && At(s, i + |p| + 2, r)
  {
    hide At, PrintExec;
    if t.TList? {
      var p, r := PrintBack(t.left), PrintLine(t.right);
      assert PrintLine(t) == p + ("; " + r);
      hide PrintLine, PrintBack;
      AtConcat(s, i, p, "; " + r);
      AtConcat(s, i + |p|, "; ", r);
    }
  }

  lemma ListParse(s: string, i: nat, k: nat, c: Cmd, j: nat, r: Tree)
    requires i <= |s| && PPipe(s, i).Ok? && At(s, k, "; ") && Clear(s, k + 2) && Reads(s, PLine(s, k + 2), j, r)
    requires Backs(s, PPipe(s, i).pos, PPipe(s, i).value) == Backs(s, k, c)
    ensures Reads(s, PLine(s, i), j, TList(Meaning(s, c), r))
  {
    hide At, Clear, Text, SkipSpace, NextToken, PPipe, Backs;
    assert [';'] + " " == "; ";
    SymbolHere(s, k, ';');
    LexSymbol(s, k, ';');
    BacksStop(s, k, c);
  }

  lemma {:induction false} BackRoundTrip(s: string, i: nat, t: Tree) returns (c: Cmd)
    requires WellFormed(t) && At(s, i, PrintBack(t))
    requires var j := i + |PrintBack(t)|; j < |s| ==> s[j] in ")&;"
    ensures PPipe(s, i).Ok? && Meaning(s, c) == t && i + |PrintBack(t)| <= |s|
    ensures Backs(s, PPipe(s, i).pos, PPipe(s, i).value) == Backs(s, i + |PrintBack(t)|, c)
    decreases t, Rank(2, t)
  {
    hide At, Clear, Text, IsWord, Stop, SkipSpace, StartsClear, NextToken, PPipe, PrintExec, Backs;
    AtEnds(s, i, PrintBack(t));
    if t.TBack? {
      var p := PrintBack(t.cmd);
      AtConcat(s, i, p, "& ");
      var k := i + |p|;
      SymbolHere(s, k, '&');
      hide PrintBack, PrintInner;
      c := BackRoundTrip(s, i, t.cmd);
      EndClear(s, k + 2);
      BackParse(s, k, c);
      c := Back(c);
    } else {
      assert PrintBack(t) == PrintPipe(t);
      PipeRoundTrip(s, i, t);
      c := PPipe(s, i).value;
    }
  }

  lemma BackParse(s: string, k: nat, c: Cmd)
    requires At(s, k, "& ") && Clear(s, k + 2)
    ensures Backs(s, k, c) == Backs(s, k + 2, Back(c)) && Meaning(s, Back(c)) == TBack(Meaning(s, c))
  {
    hide At, Clear, SkipSpace, NextToken, Text;
    assert ['&'] + " " == "& ";
    SymbolHere(s, k, '&');
    LexSymbol(s, k, '&');
  }

  lemma {:induction false} PipeRoundTrip(s: string, i: nat, t: Tree)
    requires WellFormed(t) && At(s, i, PrintPipe(t))
    requires var j := i + |PrintPipe(t)|; j < |s| ==> s[j] in ")&;"
    ensures Reads(s, PPipe(s, i), i + |PrintPipe(t)|, t)
    decreases t, Rank(3, t)
  {
    hide At, Clear, Text, IsWord, Sees, SkipSpace, StartsClear, NextToken, PExec, PrintExec, Stop, PPipe, Reads;
    var j := i + |PrintPipe(t)|;
    AtEnds(s, i, PrintPipe(t));
    if t.TPipe? {
      var p, r := PrintExec(t.left), PrintPipe(t.right);
      assert PrintPipe(t) == p + ("| " + r);
      AtConcat(s, i, p, "| " + r);
      AtConcat(s, i + |p|, "| ", r);
      var k := i + |p|;
      SymbolHere(s, k, '|');
      PipeStart(t.right);
      EndClear(s, j);
      ClearAt(s, k + 2, r);
      StopHere(s, k);
      hide PrintPipe, PrintInner;
      ExecRoundTrip(s, i, t.left);
      PipeRoundTrip(s, k + 2, t.right);
      PipeParse(s, i, k, j, t.left, t.right);
    } else {
      StopHere(s, j);
      ExecRoundTrip(s, i, t);
      PipeEnds(s, i, j, t);
    }
  }

  lemma PipeParse(s: string, i: nat, k: nat, j: nat, l: Tree, r: Tree)
    requires i <= |s| && At(s, k, "| ") && Clear(s, k + 2) && Reads(s, PExec(s, i), k, l) && Reads(s, PPipe(s, k + 2), j, r)
    ensures Reads(s, PPipe(s, i), j, TPipe(l, r))
  {
    hide At, Clear, Text, SkipSpace, NextToken, PExec;
    assert ['|'] + " " == "| ";
    SymbolHere(s, k, '|');
    LexSymbol(s, k, '|');
  }

  lemma PipeEnds(s: string, i: nat, j: nat, t: Tree)
    requires i <= |s| && j <= |s| && (j < |s| ==> s[j] in ")&;") && Reads(s, PExec(s, i), j, t)
    ensures Reads(s, PPipe(s, i), j, t)
  {
    hide Text, Meaning, PExec;
    NotBar(s, j);
  }

  lemma StopHere(s: string, j: nat)
    requires j <= |s| && (j < |s| ==> s[j] in "|)&;")
    ensures Stop(s, j)
  {}

  lemma AtEnds(s: string, i: nat, p: string)
    requires At(s, i, p)
    ensures i + |p| <= |s|
  {}

  lemma EndClear(s: string, j: nat)
    requires j <= |s| && (j < |s| ==> s[j] in "|)&;")
    ensures Clear(s, j)
  {}

  lemma LineStart(t: Tree)
    requires WellFormed(t)
    ensures StartsClear(PrintLine(t))
  {
    PrintsStart(t);
  }

  lemma PipeStart(t: Tree)
    requires WellFormed(t)
    ensures StartsClear(PrintPipe(t))
  {
    PrintsStart(t);
  }

  lemma BacksStop(s: string, j: nat, c: Cmd)
    requires Clear(s, j) && (j < |s| ==> s[j] != '&')
    ensures Backs(s, j, c) == Ok(c, j)
  {}

  lemma NotSemi(s: string, j: nat)
    requires Clear(s, j) && (j < |s| ==> s[j] != ';')
    ensures !Sees(s, j, ";") && SkipSpace(s, j) == j
  {}

  lemma NotBar(s: string, j: nat)
    requires j <= |s| && (j < |s| ==> s[j] in ")&;")
    ensures !Sees(s, j, "|") && SkipSpace(s, j) == j
  {}

  /** Printing a well-formed tree and running parsecmd gives the tree back and uses the whole text. */
  lemma RoundTrip(t: Tree)
    requires WellFormed(t)
    ensures Reads(PrintLine(t), PCmd(PrintLine(t)), |PrintLine(t)|, t)
  {
    hide PLine, SkipSpace, PrintLine;
    var s := PrintLine(t);
    assert s[0..|s|] == s;
    LineRoundTrip(s, 0, t);
    SkipNothing(s, |s|);
  }

  /** The same in place: the printed line in a buffer, parsed and terminated, reads as the tree. */
  method ReadPrinted(t: Tree, buf: array<char>) returns (r: Option<Cmd>)
    requires WellFormed(t) && buf.Length == |PrintLine(t)| + 1 && buf[..|PrintLine(t)|] == PrintLine(t) && buf[|PrintLine(t)|] == '\0'
    modifies buf
    ensures r.Some? && InBuffer(buf[..], r.value) == t
  {
    hide PCmd, InBuffer, Meaning, PrintLine, EndsAt;
    RoundTrip(t);
    NoNul(t);
    r := Parsecmd(buf, buf.Length - 1);
  }

  /** No printed text has a NUL. */
  lemma {:induction false} NoNul(t: Tree)
    requires WellFormed(t)
    ensures '\0' !in PrintExec(t) && '\0' !in PrintInner(t) && '\0' !in PrintPipe(t) && '\0' !in PrintBack(t) && '\0' !in PrintLine(t)
  {
    match t
    case TExec(argv) => WordsNoNul(argv);
    case TRedir(c, file, _) => NoNul(c);
    case TPipe(l, r) => NoNul(l); NoNul(r);
    case TList(l, r) => NoNul(l); NoNul(r);
    case TBack(c) => NoNul(c);
  }

  lemma {:induction false} WordsNoNul(ws: seq<string>)
    requires forall k :: 0 <= k < |ws| ==> IsWord(ws[k])
    ensures '\0' !in PrintWords(ws)
  {
    if ws != [] { WordsNoNul(ws[1..]); }
  }
}
