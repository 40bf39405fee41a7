/** The shell's language: its tokens and its grammar, stated without a parser, and the proof that parsecmd
    accepts exactly that language and builds exactly its trees. (user/sh.c) */
module ShellGrammar {
  import opened CTypes
  import opened ShellSyntax
  import opened Shell

  // ---------- tokens ----------

  /** An operator (+ stands for >>) or a word. */
  datatype Lex = Sym(c: char) | Word(w: Span)

  predicate Blank(c: char) { c == ' ' || c == '\t' || c == '\r' || c == '\n' || c == '\U{000b}' }

  predicate Operator(c: char) { c == '|' || c == '(' || c == ')' || c == ';' || c == '&' || c == '<' || c == '>' }

  /** s has only blanks from i to j, and another character or its end at j. */
  ghost predicate BlanksTo(s: string, i: nat, j: nat) {
    i <= j <= |s| && (forall k :: i <= k < j ==> Blank(s[k])) && (j < |s| ==> !Blank(s[j]))
  }

  /** The next token from i on and the place after the blanks that follow it: the longest run of characters
      that are neither blank nor operator, or >>, or one operator. */
  ghost predicate NextIs(s: string, i: nat, lex: Lex, pos: nat) {
    exists q, eq :: BlanksTo(s, i, q) && Spans(s, q, eq, lex) && BlanksTo(s, eq, pos)
  }

  ghost predicate Spans(s: string, q: nat, eq: nat, lex: Lex) {
    && q < eq <= |s|
    && match lex
       case Word(w) =>
         w == Span(q, eq) && (forall k :: q <= k < eq ==> !Blank(s[k]) && !Operator(s[k]))
         && (eq < |s| ==> Blank(s[eq]) || Operator(s[eq]))
       case Sym(c) =>
         if c == '+' then eq == q + 2 && s[q] == '>' && s[q + 1] == '>'
         else eq == q + 1 && Operator(c) && s[q] == c && (c == '>' && eq < |s| ==> s[eq] != '>')
  }

  function LexOf(t: Token): Lex { if t.ret == 'a' then Word(Span(t.q, t.eq)) else Sym(t.ret) }

  /** gettoken finds the next token, and reports the end exactly if only blanks are left. */
  lemma TokenIsNext(s: string, i: nat)
    requires i <= |s| && '\0' !in s
    ensures var t := NextToken(s, i);
            if t.value.ret == '\0' then BlanksTo(s, i, |s|) else NextIs(s, i, LexOf(t.value), t.pos)
  {
    hide SkipSpace, SkipWord, BlanksTo;
    SpaceSkipped(s, i);
    var t := NextToken(s, i).value;
    if t.ret == 'a' { WordSpans(s, t.q); }
    SpaceSkipped(s, t.eq);
    if t.ret != '\0' {
      SpanOf(s, i);
      assert BlanksTo(s, i, t.q) && Spans(s, t.q, t.eq, LexOf(t)) && BlanksTo(s, t.eq, NextToken(s, i).pos);
    }
  }

  lemma SpanOf(s: string, i: nat)
    requires i <= |s| && '\0' !in s && NextToken(s, i).value.ret != '\0' && BlanksTo(s, i, SkipSpace(s, i))
    ensures var t := NextToken(s, i).value; Spans(s, t.q, t.eq, LexOf(t))
  {
    hide SkipSpace, SkipWord, BlanksTo, NextToken;
    TokenCases(s, i);
    var q, t := SkipSpace(s, i), NextToken(s, i).value;
    if t.ret == 'a' { WordSpans(s, q); }
  }

  lemma TokenCases(s: string, i: nat)
    requires i <= |s| && '\0' !in s && NextToken(s, i).value.ret != '\0' && BlanksTo(s, i, SkipSpace(s, i))
    ensures var q, t := SkipSpace(s, i), NextToken(s, i).value;
            && t.q == q < |s| && !Blank(s[q])
            && if t.ret == 'a' then t.eq == SkipWord(s, q) && !Operator(s[q])
               else if t.ret == '+' then q + 1 < |s| && t.eq == q + 2 && s[q] == '>' && s[q + 1] == '>'
               else t.eq == q + 1 && t.ret == s[q] && Operator(t.ret) && (t.ret == '>' && q + 1 < |s| ==> s[q + 1] != '>')
  {
    hide SkipSpace, SkipWord;
    var q := SkipSpace(s, i);
    assert q < |s| && !Blank(s[q]);
    hide BlanksTo;
    InOperators(s[q]);
  }

  lemma InOperators(c: char)
    ensures c in "|();&<" <==> Operator(c) && c != '>'
  {}

  lemma {:induction false} SpaceSkipped(s: string, i: nat)
    requires i <= |s|
    ensures BlanksTo(s, i, SkipSpace(s, i))
    decreases |s| - i
  {
    if i < |s| && IsSpace(s[i]) { SpaceSkipped(s, i + 1); }
  }

  lemma {:induction false} WordSpans(s: string, i: nat)
    requires i <= |s| && '\0' !in s
    ensures forall k :: i <= k < SkipWord(s, i) ==> !Blank(s[k]) && !Operator(s[k])
    ensures SkipWord(s, i) < |s| ==> Blank(s[SkipWord(s, i)]) || Operator(s[SkipWord(s, i)])
    ensures i < |s| && !Blank(s[i]) && !Operator(s[i]) ==> SkipWord(s, i) > i
    decreases |s| - i
  {
    if i < |s| && !IsSpace(s[i]) && s[i] !in SYMBOLS { WordSpans(s, i + 1); }
  }

  /** There is one next token. */
  lemma NextIsOne(s: string, i: nat, a: Lex, p: nat, b: Lex, r: nat)
    requires NextIs(s, i, a, p) && NextIs(s, i, b, r)
    ensures a == b && p == r
  {
    hide Spans, BlanksTo;
    var q, eq :| BlanksTo(s, i, q) && Spans(s, q, eq, a) && BlanksTo(s, eq, p);
    var q', eq' :| BlanksTo(s, i, q') && Spans(s, q', eq', b) && BlanksTo(s, eq', r);
    OneEnd(s, i, q, q');
    OneSpan(s, q, eq, a, eq', b);
    OneEnd(s, eq, p, r);
  }

  lemma OneEnd(s: string, i: nat, p: nat, r: nat)
    requires BlanksTo(s, i, p) && BlanksTo(s, i, r)
    ensures p == r
  {}

  lemma OneSpan(s: string, q: nat, eq: nat, a: Lex, eq': nat, b: Lex)
    requires Spans(s, q, eq, a) && Spans(s, q, eq', b)
    ensures a == b && eq == eq'
  {}

  /** The tokens from i on. */
  function Lexemes(s: string, i: nat): seq<Lex>
    requires i <= |s|
    decreases |s| - i
  {
    var t := NextToken(s, i);
    if t.value.ret == '\0' then [] else [LexOf(t.value)] + Lexemes(s, t.pos)
  }

  // ---------- grammar ----------

  predicate IsRedir(x: Lex) { x == Sym('<') || x == Sym('>') || x == Sym('+') }

  /** A simple command: words and redirections, each an operator and a word, in any order. */
  predicate Simple(ts: seq<Lex>)
    decreases |ts|
  {
    ts == [] || (ts[0].Word? && Simple(ts[1..])) || (|ts| >= 2 && IsRedir(ts[0]) && ts[1].Word? && Simple(ts[2..]))
  }

  function Arguments(ts: seq<Lex>): seq<Span>
    requires Simple(ts)
    decreases |ts|
  {
    if ts == [] then [] else if ts[0].Word? then [ts[0].w] + Arguments(ts[1..]) else Arguments(ts[2..])
  }

  /** c inside the redirections of ts, the first one innermost. */
  function Inside(c: Cmd, ts: seq<Lex>): Cmd
    requires Simple(ts)
    decreases |ts|
  {
    if ts == [] then c
    else if ts[0].Word? then Inside(c, ts[1..])
    else Inside(Redir(c, ts[1].w, if ts[0] == Sym('<') then Input else Output), ts[2..])
  }

  ghost predicate GExec(ts: seq<Lex>, cmd: Cmd)
    decreases |ts|, 1
  {
    || (Simple(ts) && |Arguments(ts)| <= 9 && cmd == Inside(Exec(Arguments(ts)), ts))
    || exists k: nat, c: Cmd :: GBlock(ts, k, c, cmd)
  }

  /** A line in parentheses, and redirections. */
  ghost predicate GBlock(ts: seq<Lex>, k: nat, c: Cmd, cmd: Cmd)
    decreases |ts|, 0
  {
    && 0 < k < |ts| && ts[0] == Sym('(') && ts[k] == Sym(')') && GLine(ts[1..k], c)
    && Simple(ts[k + 1..]) && Arguments(ts[k + 1..]) == [] && cmd == Inside(c, ts[k + 1..])
  }

  ghost predicate GPipe(ts: seq<Lex>, cmd: Cmd)
    decreases |ts|, 2
  {
    || GExec(ts, cmd)
    || (cmd.Pipe? && exists k: nat :: k < |ts| && BarAt(ts, k) && GExec(ts[..k], cmd.left) && GPipe(ts[k + 1..], cmd.right))
  }

  predicate BarAt(ts: seq<Lex>, k: nat)
    requires k < |ts|
  {
    ts[k] == Sym('|')
  }

  ghost predicate GBacks(ts: seq<Lex>, cmd: Cmd)
    decreases |ts|, 3
  {
    || GPipe(ts, cmd)
    || (cmd.Back? && ts != [] && ts[|ts|-1] == Sym('&') && GBacks(ts[..|ts|-1], cmd.cmd))
  }

  ghost predicate GLine(ts: seq<Lex>, cmd: Cmd)
    decreases |ts|, 4
  {
    || GBacks(ts, cmd)
    || (cmd.List? && exists k: nat :: k < |ts| && SemiAt(ts, k) && GBacks(ts[..k], cmd.left) && GLine(ts[k + 1..], cmd.right))
  }

  predicate SemiAt(ts: seq<Lex>, k: nat)
    requires k < |ts|
  {
    ts[k] == Sym(';')
  }

  // ---------- the cursor and the tokens ----------

  /** What peek and gettoken find at i, in tokens. */
  lemma At(s: string, i: nat)
    requires i <= |s| && '\0' !in s
    ensures var ts, t := Lexemes(s, i), NextToken(s, i);
            && (t.value.ret == '\0' <==> ts == []) && (SkipSpace(s, i) == |s| <==> ts == [])
            && (ts != [] ==> ts[0] == LexOf(t.value) && ts[1..] == Lexemes(s, t.pos) && t.pos > i)
            && (forall toks: string :: Sees(s, i, toks) <==> ts != [] && Lead(s, i) in toks)
            && (ts != [] ==> if ts[0].Word? then t.value.ret == 'a' && !Operator(Lead(s, i))
                            else t.value.ret == ts[0].c != 'a' && Lead(s, i) == (if ts[0].c == '+' then '>' else ts[0].c) && Operator(Lead(s, i)))
  {
    hide SkipSpace, SkipWord;
    SpaceSkipped(s, i);
  }

  /** The first character of the token at i. */
  function Lead(s: string, i: nat): char
    requires i <= |s|
  {
    if SkipSpace(s, i) < |s| then s[SkipSpace(s, i)] else ' '
  }

  lemma SameLexemes(s: string, i: nat)
    requires i <= |s|
    ensures Lexemes(s, SkipSpace(s, i)) == Lexemes(s, i)
  {
    BlanksFirst(s, i);
  }

  // ---------- everything accepted is in the grammar ----------

  lemma {:induction false} RedirsSound(s: string, i: nat, c: Cmd) returns (u: seq<Lex>)
    requires i <= |s| && '\0' !in s && Redirs(s, i, c).Ok?
    ensures Lexemes(s, i) == u + Lexemes(s, Redirs(s, i, c).pos)
    ensures Simple(u) && Arguments(u) == [] && Redirs(s, i, c).value == Inside(c, u)
    ensures var r := Lexemes(s, Redirs(s, i, c).pos); r != [] ==> !IsRedir(r[0])
    decreases |s| - i
  {
    hide NextToken, SkipSpace, Lexemes, Sees, Lead, Simple, Arguments, Inside;
    At(s, i);
    SameLexemes(s, i);
    if Sees(s, i, "<>") {
      var op := NextToken(s, i);
      At(s, op.pos);
      var file := NextToken(s, op.pos);
      var w := Span(file.value.q, file.value.eq);
      var v := RedirsSound(s, file.pos, Redir(c, w, ModeOf(op.value.ret)));
      u := [LexOf(op.value), Word(w)] + v;
      assert u[2..] == v;
      FirstPart(u, c);
      assert Lexemes(s, i) == [LexOf(op.value)] + Lexemes(s, op.pos);
      assert Lexemes(s, op.pos) == [Word(w)] + Lexemes(s, file.pos);
    } else {
      u := [];
      NoTokens(c);
    }
  }

  lemma {:induction false} SimpleConcat(u: seq<Lex>, v: seq<Lex>, c: Cmd)
    requires Simple(u) && Simple(v)
    ensures Simple(u + v) && Arguments(u + v) == Arguments(u) + Arguments(v)
    ensures Inside(c, u + v) == Inside(Inside(c, u), v)
    decreases |u|
  {
    hide Simple, Arguments, Inside;
    if u == [] {
      assert u + v == v;
      NoTokens(c);
    } else {
      FirstPart(u, c);
      var n, d := if u[0].Word? then 1 else 2, FirstOp(u, c);
      Rest(u, v, n);
      SimpleConcat(u[n..], v, d);
      FirstPart(u + v, c);
    }
  }

  lemma NoTokens(c: Cmd)
    ensures Simple([]) && Arguments([]) == [] && Inside(c, []) == c
  {}

  lemma Rest(u: seq<Lex>, v: seq<Lex>, n: nat)
    requires 0 < n <= |u| && n <= 2
    ensures (u + v)[n..] == u[n..] + v && (u + v)[0] == u[0] && (n == 2 ==> (u + v)[1] == u[1])
  {}

  /** c inside the redirection that u begins with, if it does. */
  function FirstOp(u: seq<Lex>, c: Cmd): Cmd
    requires u != []
  {
    if u[0].Word? || |u| < 2 || !u[1].Word? then c else Redir(c, u[1].w, if u[0] == Sym('<') then Input else Output)
  }

  lemma FirstPart(u: seq<Lex>, c: Cmd)
    requires u != []
    ensures u[0].Word? ==> (Simple(u) <==> Simple(u[1..]))
    ensures u[0].Sym? ==> (Simple(u) <==> |u| >= 2 && IsRedir(u[0]) && u[1].Word? && Simple(u[2..]))
    ensures Simple(u) ==>
              var n := if u[0].Word? then 1 else 2;
              && n <= |u| && Simple(u[n..]) && Inside(c, u) == Inside(FirstOp(u, c), u[n..])
              && Arguments(u) == (if u[0].Word? then [u[0].w] else []) + Arguments(u[n..])
  {}

  /** A word added to a simple command goes to its exec node. */
  lemma {:induction false} AddInside(argv: seq<Span>, u: seq<Lex>, c: Cmd, w: Span)
    requires Simple(u) && AddArg(c, w) != c && Argc(AddArg(c, w)) == Argc(c) + 1
    ensures AddArg(Inside(c, u), w) == Inside(AddArg(c, w), u) && Argc(Inside(c, u)) == Argc(c)
    decreases |u|
  {
    if u != [] {
      if u[0].Word? { AddInside(argv, u[1..], c, w); }
      else {
        var d := Redir(c, u[1].w, if u[0] == Sym('<') then Input else Output);
        AddInside(argv, u[2..], d, w);
      }
    }
  }

  lemma AddWord(u: seq<Lex>, w: Span)
    requires Simple(u)
    ensures Simple(u + [Word(w)]) && Arguments(u + [Word(w)]) == Arguments(u) + [w]
    ensures AddArg(Inside(Exec(Arguments(u)), u), w) == Inside(Exec(Arguments(u) + [w]), u + [Word(w)])
    ensures Argc(Inside(Exec(Arguments(u) + [w]), u + [Word(w)])) == |Arguments(u)| + 1
  {
    hide Simple, Arguments, Inside;
    var argv := Arguments(u);
    OneWord(w, Exec(argv + [w]));
    SimpleConcat(u, [Word(w)], Exec(argv + [w]));
    AddInside(argv, u, Exec(argv), w);
    OneWord(w, Inside(Exec(argv + [w]), u));
    AddInside(argv + [w], u, Exec(argv + [w]), w);
  }

  lemma OneWord(w: Span, c: Cmd)
    ensures Simple([Word(w)]) && Arguments([Word(w)]) == [w] && Inside(c, [Word(w)]) == c
  {
    assert [Word(w)][1..] == [];
  }

  /** What may follow a command: nothing, or an operator that ends it. */
  predicate Follows(r: seq<Lex>, ends: string) { r == [] || (r[0].Sym? && r[0].c in ends) }

  lemma {:induction false} ArgsSound(s: string, i: nat, u0: seq<Lex>) returns (u: seq<Lex>)
    requires i <= |s| && '\0' !in s && Simple(u0) && |Arguments(u0)| <= 9
    requires Args(s, i, Inside(Exec(Arguments(u0)), u0)).Ok?
    ensures var r := Args(s, i, Inside(Exec(Arguments(u0)), u0));
            && Lexemes(s, i) == u + Lexemes(s, r.pos) && Simple(u0 + u) && |Arguments(u0 + u)| <= 9
            && r.value == Inside(Exec(Arguments(u0 + u)), u0 + u)
    decreases |s| - i
  {
    hide NextToken, SkipSpace, Lexemes, Sees, Lead, Redirs, Simple, Arguments, Inside;
    At(s, i);
    SameLexemes(s, i);
    var tok := NextToken(s, i);
    if Sees(s, i, "|)&;") || tok.value.ret == '\0' {
      u := [];
      assert u0 + u == u0;
      if tok.value.ret == '\0' { EndLexemes(s, i); }
    } else {
      var w := Span(tok.value.q, tok.value.eq);
      AddWord(u0, w);
      var u1 := u0 + [Word(w)];
      var v := RedirsSound(s, tok.pos, Inside(Exec(Arguments(u1)), u1));
      var rest := Redirs(s, tok.pos, Inside(Exec(Arguments(u1)), u1));
      SimpleConcat(u1, v, Exec(Arguments(u1)));
      assert Arguments(u1 + v) == Arguments(u1);
      var u2 := ArgsSound(s, rest.pos, u1 + v);
      u := [Word(w)] + v + u2;
      assert u0 + u == u1 + v + u2;
      assert Lexemes(s, i) == [Word(w)] + Lexemes(s, tok.pos);
    }
  }

  lemma EndLexemes(s: string, i: nat)
    requires i <= |s| && '\0' !in s && Lexemes(s, i) == []
    ensures Lexemes(s, NextToken(s, i).pos) == []
  {
    hide SkipSpace, SkipWord;
    SpaceSkipped(s, i);
    At(s, i);
    SameLexemes(s, NextToken(s, i).pos);
    BlanksFirst(s, i);
  }

  lemma {:induction false} ExecSound(s: string, i: nat) returns (u: seq<Lex>)
    requires i <= |s| && '\0' !in s && PExec(s, i).Ok?
    ensures Lexemes(s, i) == u + Lexemes(s, PExec(s, i).pos) && GExec(u, PExec(s, i).value)
    decreases |s| - i, 1
  {
    hide NextToken, SkipSpace, Lexemes, Sees, Lead, Redirs, Args, Simple, Arguments, Inside, PLine, GLine;
    At(s, i);
    if Sees(s, i, "(") {
      var open := NextToken(s, i);
      var line := PLine(s, open.pos);
      var v := LineSound(s, open.pos);
      At(s, line.pos);
      var shut := NextToken(s, line.pos);
      var t := RedirsSound(s, shut.pos, line.value);
      u := [Sym('(')] + v + [Sym(')')] + t;
      Pieces(v, t);
      assert Lexemes(s, i) == [Sym('(')] + Lexemes(s, open.pos);
      assert Lexemes(s, line.pos) == [Sym(')')] + Lexemes(s, shut.pos);
      assert GBlock(u, |v| + 1, line.value, PExec(s, i).value);
    } else {
      var v := RedirsSound(s, i, Exec([]));
      var first := Redirs(s, i, Exec([]));
      var t := ArgsSound(s, first.pos, v);
      u := v + t;
    }
  }

  lemma Pieces(v: seq<Lex>, t: seq<Lex>)
    ensures var u, k := [Sym('(')] + v + [Sym(')')] + t, |v| + 1;
            k < |u| && u[0] == Sym('(') && u[k] == Sym(')') && u[1..k] == v && u[k + 1..] == t
  {}

  lemma {:induction false} PipeSound(s: string, i: nat) returns (u: seq<Lex>)
    requires i <= |s| && '\0' !in s && PPipe(s, i).Ok?
    ensures Lexemes(s, i) == u + Lexemes(s, PPipe(s, i).pos) && GPipe(u, PPipe(s, i).value)
    decreases |s| - i, 2
  {
    hide NextToken, SkipSpace, Lexemes, Sees, Lead, PExec, GExec;
    var left := PExec(s, i);
    u := ExecSound(s, i);
    At(s, left.pos);
    SameLexemes(s, left.pos);
    if Sees(s, left.pos, "|") {
      var bar := NextToken(s, left.pos);
      var v := PipeSound(s, bar.pos);
      var l := u;
      u := l + [Sym('|')] + v;
      assert u[..|l|] == l && BarAt(u, |l|) && u[|l| + 1..] == v;
      assert Lexemes(s, left.pos) == [Sym('|')] + Lexemes(s, bar.pos);
    }
  }

  lemma {:induction false} BacksSound(s: string, i: nat, c: Cmd, u0: seq<Lex>) returns (u: seq<Lex>)
    requires i <= |s| && '\0' !in s && GBacks(u0, c)
    ensures Lexemes(s, i) == u + Lexemes(s, Backs(s, i, c).pos) && GBacks(u0 + u, Backs(s, i, c).value)
    decreases |s| - i
  {
    hide NextToken, SkipSpace, Lexemes, Sees, Lead, GBacks;
    At(s, i);
    SameLexemes(s, i);
    if Sees(s, i, "&") {
      var amp := NextToken(s, i);
      var u1 := u0 + [Sym('&')];
      OneBack(u0, c);
      var v := BacksSound(s, amp.pos, Back(c), u1);
      u := [Sym('&')] + v;
      assert u0 + u == u1 + v;
      assert Lexemes(s, i) == [Sym('&')] + Lexemes(s, amp.pos);
    } else {
      u := [];
      assert u0 + u == u0;
    }
  }

  lemma OneBack(u: seq<Lex>, c: Cmd)
    requires GBacks(u, c)
    ensures GBacks(u + [Sym('&')], Back(c))
  {
    hide GPipe;
    assert (u + [Sym('&')])[..|u|] == u;
  }

  lemma {:induction false} LineSound(s: string, i: nat) returns (u: seq<Lex>)
    requires i <= |s| && '\0' !in s && PLine(s, i).Ok?
    ensures Lexemes(s, i) == u + Lexemes(s, PLine(s, i).pos) && GLine(u, PLine(s, i).value)
    decreases |s| - i, 3
  {
    hide NextToken, SkipSpace, Lexemes, Sees, Lead, PPipe, Backs, GBacks;
    var first := PPipe(s, i);
    var p := PipeSound(s, i);
    PipeIsBacks(p, first.value);
    var v := BacksSound(s, first.pos, first.value, p);
    u := p + v;
    var cmd := Backs(s, first.pos, first.value);
    At(s, cmd.pos);
    SameLexemes(s, cmd.pos);
    if Sees(s, cmd.pos, ";") {
      var semi := NextToken(s, cmd.pos);
      var t := LineSound(s, semi.pos);
      var l := u;
      u := l + [Sym(';')] + t;
      assert u[..|l|] == l && SemiAt(u, |l|) && u[|l| + 1..] == t;
      assert Lexemes(s, cmd.pos) == [Sym(';')] + Lexemes(s, semi.pos);
    }
  }

  lemma PipeIsBacks(u: seq<Lex>, c: Cmd)
    requires GPipe(u, c)
    ensures GBacks(u, c)
  {}

  // ---------- everything in the grammar is accepted ----------

  lemma {:induction false} RedirsComplete(s: string, i: nat, c: Cmd, u: seq<Lex>, rest: seq<Lex>)
    requires i <= |s| && '\0' !in s && Lexemes(s, i) == u + rest && Simple(u) && Arguments(u) == []
    requires rest == [] || !IsRedir(rest[0])
    ensures var r := Redirs(s, i, c); r.Ok? && r.value == Inside(c, u) && Lexemes(s, r.pos) == rest
    decreases |u|
  {
    hide NextToken, SkipSpace, Lexemes, Sees, Lead;
    At(s, i);
    SameLexemes(s, i);
    if u == [] {
      assert u + rest == rest;
    } else {
      var op := NextToken(s, i);
      At(s, op.pos);
      assert (u + rest)[0] == u[0] && (u + rest)[1..][0] == u[1] && (u + rest)[1..][1..] == u[2..] + rest;
      var file := NextToken(s, op.pos);
      RedirsComplete(s, file.pos, Redir(c, u[1].w, if u[0] == Sym('<') then Input else Output), u[2..], rest);
    }
  }

  /** Tokens of the redirections that u begins with. */
  function Ops(u: seq<Lex>): (n: nat)
    requires Simple(u)
    ensures n <= |u|
    decreases |u|
  {
    if u == [] || u[0].Word? then 0 else 2 + Ops(u[2..])
  }

  lemma {:induction false} OpsFirst(u: seq<Lex>)
    requires Simple(u)
    ensures Simple(u[..Ops(u)]) && Arguments(u[..Ops(u)]) == [] && Simple(u[Ops(u)..])
    ensures Ops(u) < |u| ==> u[Ops(u)].Word?
    decreases |u|
  {
    if u != [] && !u[0].Word? {
      OpsFirst(u[2..]);
      assert u[..Ops(u)][2..] == u[2..][..Ops(u[2..])] && u[Ops(u)..] == u[2..][Ops(u[2..])..];
    }
  }

  lemma {:induction false} ArgsComplete(s: string, i: nat, u0: seq<Lex>, u: seq<Lex>, rest: seq<Lex>)
    requires i <= |s| && '\0' !in s && Lexemes(s, i) == u + rest && Follows(rest, "|)&;")
    requires Simple(u0) && Simple(u) && |Arguments(u0)| + |Arguments(u)| <= 9 && (u != [] ==> u[0].Word?)
    ensures Simple(u0 + u)
    ensures var r := Args(s, i, Inside(Exec(Arguments(u0)), u0));
            r.Ok? && r.value == Inside(Exec(Arguments(u0 + u)), u0 + u) && Lexemes(s, r.pos) == rest
    decreases |u|
  {
    hide NextToken, SkipSpace, Lexemes, Redirs, Inside, Simple, Arguments, Follows, Args;
    EndFollows(rest);
    SimpleConcat(u0, u, Exec([]));
    var tok := NextToken(s, i);
    if u == [] {
      assert u + rest == rest && u0 + u == u0;
      ArgsEnd(s, i, Inside(Exec(Arguments(u0)), u0));
    } else {
      var w, t := u[0].w, u[1..];
      Uncons(u, rest);
      WordFirst(u);
      AddWord(u0, w);
      var u1 := u0 + [Word(w)];
      OpsFirst(t);
      var v, t' := t[..Ops(t)], t[Ops(t)..];
      SplitAt(t, Ops(t), rest);
      SplitArguments(t, v, t');
      OpsThenNone(t', rest);
      ArgsWord(s, i, Inside(Exec(Arguments(u0)), u0));
      RedirsComplete(s, tok.pos, Inside(Exec(Arguments(u1)), u1), v, t' + rest);
      var r := Redirs(s, tok.pos, Inside(Exec(Arguments(u1)), u1));
      SimpleConcat(u1, v, Exec(Arguments(u1)));
      assert Arguments(u1 + v) == Arguments(u1);
      ArgsComplete(s, r.pos, u1 + v, t', rest);
      Regroup(u0, u, v, t');
    }
  }

  /** Args at the end of its command, and at a word. */
  lemma ArgsEnd(s: string, i: nat, c: Cmd)
    requires i <= |s| && '\0' !in s && (Lexemes(s, i) == [] || (Lexemes(s, i)[0].Sym? && Lexemes(s, i)[0].c in "|)&;"))
    ensures Args(s, i, c).Ok? && Args(s, i, c).value == c && Lexemes(s, Args(s, i, c).pos) == Lexemes(s, i)
  {
    hide NextToken, SkipSpace, Lexemes, Sees, Lead, Redirs;
    At(s, i);
    SameLexemes(s, i);
    if Lexemes(s, i) == [] { EndLexemes(s, i); }
  }

  lemma ArgsWord(s: string, i: nat, c: Cmd)
    requires i <= |s| && '\0' !in s && Lexemes(s, i) != [] && Lexemes(s, i)[0].Word?
    ensures var d, p := AddArg(c, Lexemes(s, i)[0].w), NextToken(s, i).pos;
            && Lexemes(s, p) == Lexemes(s, i)[1..]
            && (Argc(d) < MAXARGS && Redirs(s, p, d).Ok? ==>
                  Args(s, i, c) == Args(s, Redirs(s, p, d).pos, Redirs(s, p, d).value))
  {
    hide NextToken, SkipSpace, Lexemes, Sees, Lead, Redirs;
    At(s, i);
  }

  lemma SplitAt(t: seq<Lex>, n: nat, rest: seq<Lex>)
    requires n <= |t|
    ensures t == t[..n] + t[n..] && t + rest == t[..n] + (t[n..] + rest)
  {}

  lemma Regroup(u0: seq<Lex>, u: seq<Lex>, v: seq<Lex>, t: seq<Lex>)
    requires u != [] && u[1..] == v + t
    ensures u0 + [u[0]] + v + t == u0 + u
  {}

  lemma Uncons(u: seq<Lex>, rest: seq<Lex>)
    requires u != []
    ensures (u + rest)[0] == u[0] && (u + rest)[1..] == u[1..] + rest
  {}

  lemma WordFirst(u: seq<Lex>)
    requires Simple(u) && u != [] && u[0].Word?
    ensures Simple(u[1..]) && Arguments(u) == [u[0].w] + Arguments(u[1..])
  {}

  /** What ends a simple command is neither a word nor a redirection. */
  lemma EndFollows(r: seq<Lex>)
    requires Follows(r, "|)&;")
    ensures r == [] || (r[0].Sym? && !IsRedir(r[0]) && r[0].c in "|)&;" && r[0].c != '+')
  {}

  lemma OpsThenNone(t: seq<Lex>, rest: seq<Lex>)
    requires (t != [] ==> t[0].Word?) && (rest == [] || !IsRedir(rest[0]))
    ensures t + rest == [] || !IsRedir((t + rest)[0])
  {}

  lemma SplitArguments(t: seq<Lex>, v: seq<Lex>, t': seq<Lex>)
    requires t == v + t' && Simple(t) && Simple(v) && Simple(t') && Arguments(v) == []
    ensures Arguments(t) == Arguments(t')
  {
    SimpleConcat(v, t', Exec([]));
  }

  lemma {:induction false} ExecComplete(s: string, i: nat, u: seq<Lex>, cmd: Cmd, rest: seq<Lex>)
    requires i <= |s| && '\0' !in s && Lexemes(s, i) == u + rest && GExec(u, cmd) && Follows(rest, "|)&;")
    ensures var r := PExec(s, i); r.Ok? && r.value == cmd && Lexemes(s, r.pos) == rest
    decreases |u|, 1
  {
    hide NextToken, SkipSpace, Lexemes, Sees, Lead, Redirs, Args, Arguments, Inside, PLine, GLine;
    At(s, i);
    if Simple(u) && |Arguments(u)| <= 9 && cmd == Inside(Exec(Arguments(u)), u) {
      SimpleComplete(s, i, u, rest);
    } else {
      var k: nat, c: Cmd :| GBlock(u, k, c, cmd);
      assert (u + rest)[0] == u[0] && (u + rest)[1..] == u[1..k] + ([Sym(')')] + u[k + 1..] + rest);
      var open := NextToken(s, i);
      LineComplete(s, open.pos, u[1..k], c, [Sym(')')] + u[k + 1..] + rest);
      var line := PLine(s, open.pos);
      At(s, line.pos);
      assert ([Sym(')')] + u[k + 1..] + rest)[1..] == u[k + 1..] + rest;
      RedirsComplete(s, NextToken(s, line.pos).pos, c, u[k + 1..], rest);
    }
  }

  lemma SimpleComplete(s: string, i: nat, u: seq<Lex>, rest: seq<Lex>)
    requires i <= |s| && '\0' !in s && Lexemes(s, i) == u + rest && Simple(u) && |Arguments(u)| <= 9 && Follows(rest, "|)&;")
    ensures var r := PExec(s, i); r.Ok? && r.value == Inside(Exec(Arguments(u)), u) && Lexemes(s, r.pos) == rest
  {
    hide NextToken, SkipSpace, Lexemes, Redirs, Args, Inside, PExec, Arguments, Follows;
    EndFollows(rest);
    NotBlock(u, rest);
    OpsFirst(u);
    var v, t := u[..Ops(u)], u[Ops(u)..];
    SplitAt(u, Ops(u), rest);
    OpsThenNone(t, rest);
    SplitArguments(u, v, t);
    RedirsComplete(s, i, Exec([]), v, t + rest);
    ArgsComplete(s, Redirs(s, i, Exec([])).pos, v, t, rest);
    ExecIsArgs(s, i);
  }

  lemma NotBlock(u: seq<Lex>, rest: seq<Lex>)
    requires Simple(u) && (rest == [] || (rest[0].Sym? && rest[0].c in "|)&;"))
    ensures u + rest == [] || (u + rest)[0] != Sym('(')
  {
    if u == [] { assert u + rest == rest; } else { assert (u + rest)[0] == u[0]; }
  }

  /** parseexec away from a parenthesis. */
  lemma ExecIsArgs(s: string, i: nat)
    requires i <= |s| && '\0' !in s && (Lexemes(s, i) == [] || Lexemes(s, i)[0] != Sym('('))
    ensures PExec(s, i) == var first := Redirs(s, i, Exec([])); if first.Panic? then Panic else Args(s, first.pos, first.value)
  {
    hide NextToken, SkipSpace, Lexemes, Sees, Lead, Redirs, Args, PLine, PBlock;
    At(s, i);
  }

  lemma {:induction false} PipeComplete(s: string, i: nat, u: seq<Lex>, cmd: Cmd, rest: seq<Lex>)
    requires i <= |s| && '\0' !in s && Lexemes(s, i) == u + rest && GPipe(u, cmd) && Follows(rest, ")&;")
    ensures var r := PPipe(s, i); r.Ok? && r.value == cmd && Lexemes(s, r.pos) == rest
    decreases |u|, 2
  {
    hide NextToken, SkipSpace, Lexemes, Sees, Lead, PExec, GExec;
    if GExec(u, cmd) {
      ExecComplete(s, i, u, cmd, rest);
      At(s, PExec(s, i).pos);
      SameLexemes(s, PExec(s, i).pos);
    } else {
      var k: nat :| k < |u| && BarAt(u, k) && GExec(u[..k], cmd.left) && GPipe(u[k + 1..], cmd.right);
      var after := [Sym('|')] + (u[k + 1..] + rest);
      assert u + rest == u[..k] + after && after[1..] == u[k + 1..] + rest;
      ExecComplete(s, i, u[..k], cmd.left, after);
      At(s, PExec(s, i).pos);
      PipeComplete(s, NextToken(s, PExec(s, i).pos).pos, u[k + 1..], cmd.right, rest);
    }
  }

  /** The pipeline that a backgrounded command begins with is read, and its marks lead to the command. */
  lemma {:induction false} BacksComplete(s: string, i: nat, u: seq<Lex>, cmd: Cmd, rest: seq<Lex>) returns (j: nat)
    requires i <= |s| && '\0' !in s && Lexemes(s, i) == u + rest && GBacks(u, cmd) && Follows(rest, ")&;")
    ensures j <= |s| && Lexemes(s, j) == rest
    ensures var p := PPipe(s, i); p.Ok? && Backs(s, p.pos, p.value) == Backs(s, j, cmd)
    decreases |u|, 3
  {
    hide NextToken, SkipSpace, Lexemes, Sees, Lead, PPipe, GPipe;
    if GPipe(u, cmd) {
      PipeComplete(s, i, u, cmd, rest);
      j := PPipe(s, i).pos;
    } else {
      var n := |u| - 1;
      assert u + rest == u[..n] + ([Sym('&')] + rest) && ([Sym('&')] + rest)[1..] == rest;
      var k := BacksComplete(s, i, u[..n], cmd.cmd, [Sym('&')] + rest);
      At(s, k);
      j := NextToken(s, k).pos;
    }
  }

  lemma {:induction false} LineComplete(s: string, i: nat, u: seq<Lex>, cmd: Cmd, rest: seq<Lex>)
    requires i <= |s| && '\0' !in s && Lexemes(s, i) == u + rest && GLine(u, cmd) && Follows(rest, ")")
    ensures var r := PLine(s, i); r.Ok? && r.value == cmd && Lexemes(s, r.pos) == rest
    decreases |u|, 4
  {
    hide NextToken, SkipSpace, Lexemes, Sees, Lead, PPipe, GBacks;
    if GBacks(u, cmd) {
      var j := BacksComplete(s, i, u, cmd, rest);
      NoMoreBacks(s, j, cmd);
      var b := Backs(s, j, cmd);
      At(s, b.pos);
      SameLexemes(s, b.pos);
    } else {
      var k: nat :| k < |u| && SemiAt(u, k) && GBacks(u[..k], cmd.left) && GLine(u[k + 1..], cmd.right);
      var after := [Sym(';')] + (u[k + 1..] + rest);
      assert u + rest == u[..k] + after && after[1..] == u[k + 1..] + rest;
      var j := BacksComplete(s, i, u[..k], cmd.left, after);
      NoMoreBacks(s, j, cmd.left);
      var b := Backs(s, j, cmd.left);
      At(s, b.pos);
      LineComplete(s, NextToken(s, b.pos).pos, u[k + 1..], cmd.right, rest);
    }
  }

  lemma NoMoreBacks(s: string, j: nat, c: Cmd)
    requires j <= |s| && '\0' !in s && (Lexemes(s, j) != [] ==> Lexemes(s, j)[0] != Sym('&'))
    ensures Backs(s, j, c).value == c && Lexemes(s, Backs(s, j, c).pos) == Lexemes(s, j)
  {
    hide NextToken, SkipSpace, Lexemes, Sees, Lead;
    At(s, j);
    SameLexemes(s, j);
  }

  /** The parser accepts a text with a tree if and only if the grammar derives that tree from its tokens. */
  lemma ParserIsGrammar(s: string, cmd: Cmd)
    requires '\0' !in s
    ensures PCmd(s) == Ok(cmd, |s|) <==> GLine(Lexemes(s, 0), cmd)
  {
    hide PLine, GLine, SkipSpace, Lexemes, NextToken;
    if PCmd(s) == Ok(cmd, |s|) {
      var u := LineSound(s, 0);
      At(s, PLine(s, 0).pos);
      assert u + [] == u;
    }
    if GLine(Lexemes(s, 0), cmd) {
      assert Lexemes(s, 0) == Lexemes(s, 0) + [];
      LineComplete(s, 0, Lexemes(s, 0), cmd, []);
      At(s, PLine(s, 0).pos);
    }
  }

  /** So a text has at most one tree. */
  lemma OneTree(s: string, c: Cmd, d: Cmd)
    requires '\0' !in s && GLine(Lexemes(s, 0), c) && GLine(Lexemes(s, 0), d)
    ensures c == d
  {
    hide GLine, PCmd, Lexemes;
    ParserIsGrammar(s, c);
    ParserIsGrammar(s, d);
  }

  /** parsecmd, without its parser: it stops exactly on what the grammar does not derive, and else returns
      the tree the grammar gives, whose words the buffer then holds as strings. */
  method ReadCommand(buf: array<char>, es: nat) returns (r: Option<Cmd>)
    requires es < buf.Length && buf[es] == '\0' && '\0' !in buf[..es]
    modifies buf
    ensures r == None <==> forall cmd :: !GLine(Lexemes(old(buf[..es]), 0), cmd)
    ensures r.Some? ==> GLine(Lexemes(old(buf[..es]), 0), r.value) && InBuffer(buf[..], r.value) == Meaning(old(buf[..es]), r.value)
  {
    hide PCmd, GLine, Lexemes, InBuffer, EndsAt;
    ghost var text := buf[..es];
    r := Parsecmd(buf, es);
    CmdEnds(text);
    forall cmd ensures GLine(Lexemes(text, 0), cmd) <==> r == Some(cmd) { ParserIsGrammar(text, cmd); }
    assert r.Some? ==> GLine(Lexemes(text, 0), r.value);
  }

  lemma CmdEnds(s: string)
    ensures PCmd(s).Ok? ==> PCmd(s).pos == |s|
  {}
}
