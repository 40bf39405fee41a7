/** The shell's parser with its shared cursor, and the pass that NUL-terminates the words in the
    command buffer.  (user/sh.c) */
module Shell {
  import opened CTypes
  import opened ShellSyntax

  class Parser {
    const buf: array<char>
    const es: nat              // end of the command text, where its NUL is
    ghost const text: string   // the text as typed
    var s: nat                 // the shared cursor *ps

    constructor (buf: array<char>, es: nat)
      requires es < buf.Length && buf[es] == '\0' && '\0' !in buf[..es]
      ensures this.buf == buf && this.es == es && text == buf[..es] && s == 0 && Valid()
    {
      this.buf, this.es, this.s := buf, es, 0;
      text := buf[..es];
    }

    ghost predicate Valid()
      reads this, buf
    {
      es < buf.Length && buf[es] == '\0' && buf[..es] == text && '\0' !in text && s <= es
    }

    /** Moves the cursor past blanks. */
    method Blanks()
      requires Valid()
      modifies this`s
      ensures Valid() && s == SkipSpace(text, old(s))
    {
      while s < es && buf[s] in WHITESPACE
        invariant Valid() && SkipSpace(text, s) == SkipSpace(text, old(s))
      {
        s := s + 1;
      }
    }

    method GetToken() returns (ret: char, q: nat, eq: nat)
      requires Valid()
      modifies this`s
      ensures Valid() && NextToken(text, old(s)) == Ok(Token(ret, q, eq), s)
    {
      hide SkipSpace, SkipWord;
      Blanks();
      q, ret := s, buf[s];
      match ret {
        case '\0' =>
        case '|' => s := s + 1;
        case '(' => s := s + 1;
        case ')' => s := s + 1;
        case ';' => s := s + 1;
        case '&' => s := s + 1;
        case '<' => s := s + 1;
        case '>' =>
          s := s + 1;
          if buf[s] == '>' {
            ret := '+';
            s := s + 1;
          }
        case _ =>
          ret := 'a';
          while s < es && buf[s] !in WHITESPACE && buf[s] !in SYMBOLS
            invariant Valid() && SkipWord(text, s) == SkipWord(text, q)
          {
            WordGoesOn(text, s);
            s := s + 1;
          }
          WordEnds(text, s);
      }
      eq := s;
      assert NextToken(text, old(s)) == Ok(Token(ret, q, eq), SkipSpace(text, eq));
      hide NextToken;
      Blanks();
    }

    method Peek(toks: string) returns (b: bool)
      requires Valid() && '\0' !in toks
      modifies this`s
      ensures Valid() && s == SkipSpace(text, old(s)) && b == Sees(text, old(s), toks)
    {
      Blanks();
      b := buf[s] != '\0' && buf[s] in toks;
    }

    /** What a parse method returns and where it leaves the cursor is what the parse function says;
        None stands for a panic. */
    ghost predicate Agrees(p: Parse<Cmd>, r: Option<Cmd>)
      reads this
    {
      match p
      case Ok(cmd, pos) => r == Some(cmd) && s == pos
      case Panic => r == None
    }

    method ParseRedirs(cmd0: Cmd) returns (r: Option<Cmd>)
      requires Valid()
      modifies this`s
      ensures Valid() && old(s) <= s && Agrees(Redirs(text, old(s), cmd0), r)
    {
      hide NextToken, SkipSpace;
      var cmd := cmd0;
      while true
        invariant Valid() && old(s) <= s && Redirs(text, s, cmd) == Redirs(text, old(s), cmd0)
        decreases es - s
      {
        ghost var i := s;
        BlanksFirst(text, i);
        var more := Peek("<>");
        if !more {
          return Some(cmd);
        }
        var tok, q, eq := GetToken();
        var word;
        word, q, eq := GetToken();
        if word != 'a' {
          return None;
        }
        match tok {
          case '<' => cmd := Redir(cmd, Span(q, eq), Input);
          case _ => cmd := Redir(cmd, Span(q, eq), Output);
        }
      }
    }

    method ParseBlock() returns (r: Option<Cmd>)
      requires Valid()
      modifies this`s
      ensures Valid() && old(s) <= s && Agrees(PBlock(text, old(s)), r)
      decreases es - s, 0
    {
      hide NextToken, SkipSpace, Redirs, PLine;
      ghost var i := s;
      BlanksFirst(text, i);
      var b := Peek("(");
      if !b {
        return None;
      }
      var tok, q, eq := GetToken();
      r := ParseLine();
      if r == None {
        return;
      }
      i := s;
      BlanksFirst(text, i);
      b := Peek(")");
      if !b {
        return None;
      }
      tok, q, eq := GetToken();
      r := ParseRedirs(r.value);
    }

    method ParseExec() returns (r: Option<Cmd>)
      requires Valid()
      modifies this`s
      ensures Valid() && old(s) <= s && Agrees(PExec(text, old(s)), r)
      decreases es - s, 1
    {
      hide NextToken, SkipSpace, Redirs, Args, PBlock, Sees;
      ghost var i := s;
      BlanksFirst(text, i);
      BlanksFirstExec(text, i);
      var b := Peek("(");
      if b {
        r := ParseBlock();
        return;
      }
      r := ParseRedirs(Exec([]));
      if r == None {
        return;
      }
      r := ParseArgs(r.value);
    }

    /** parseexec's loop; argc is Argc(ret). */
    method ParseArgs(ret: Cmd) returns (r: Option<Cmd>)
      requires Valid()
      modifies this`s
      ensures Valid() && old(s) <= s && Agrees(Args(text, old(s), ret), r)
    {
      hide NextToken, SkipSpace, Redirs, Sees;
      var cmd := ret;
      while true
        invariant Valid() && old(s) <= s && Args(text, s, cmd) == Args(text, old(s), ret)
        decreases es - s
      {
        ghost var i := s;
        BlanksFirst(text, i);
        var stop := Peek("|)&;");
        if stop {
          return Some(cmd);
        }
        var tok, q, eq := GetToken();
        if tok == '\0' {
          return Some(cmd);
        }
        if tok != 'a' {
          return None;
        }
        cmd := AddArg(cmd, Span(q, eq));
        if Argc(cmd) >= MAXARGS {
          return None;
        }
        var rest := ParseRedirs(cmd);
        if rest == None {
          return None;
        }
        cmd := rest.value;
      }
    }

    method ParsePipe() returns (r: Option<Cmd>)
      requires Valid()
      modifies this`s
      ensures Valid() && old(s) <= s && Agrees(PPipe(text, old(s)), r)
      decreases es - s, 2
    {
      hide NextToken, SkipSpace, PExec;
      r := ParseExec();
      if r == None {
        return;
      }
      BlanksFirst(text, s);
      var bar := Peek("|");
      if bar {
        var tok, q, eq := GetToken();
        var right := ParsePipe();
        if right == None {
          return None;
        }
        r := Some(Pipe(r.value, right.value));
      }
    }

    method ParseLine() returns (r: Option<Cmd>)
      requires Valid()
      modifies this`s
      ensures Valid() && old(s) <= s && Agrees(PLine(text, old(s)), r)
      decreases es - s, 3
    {
      hide NextToken, SkipSpace, PPipe, Backs;
      r := ParsePipe();
      if r == None {
        return;
      }
      var cmd := ParseBacks(r.value);
      BlanksFirst(text, s);
      var semi := Peek(";");
      if semi {
        var tok, q, eq := GetToken();
        var rest := ParseLine();
        if rest == None {
          return None;
        }
        cmd := List(cmd, rest.value);
      }
      return Some(cmd);
    }

    /** parseline's loop. */
    method ParseBacks(cmd0: Cmd) returns (cmd: Cmd)
      requires Valid()
      modifies this`s
      ensures Valid() && old(s) <= s && Backs(text, old(s), cmd0) == Ok(cmd, s)
    {
      hide NextToken, SkipSpace;
      cmd := cmd0;
      while true
        invariant Valid() && old(s) <= s && Backs(text, s, cmd) == Backs(text, old(s), cmd0)
        decreases es - s
      {
        BlanksFirst(text, s);
        var more := Peek("&");
        if !more {
          return;
        }
        var tok, q, eq := GetToken();
        cmd := Back(cmd);
      }
    }

    /** parsecmd, before nulterminate: the whole text or a panic. */
    method ParseCmd() returns (r: Option<Cmd>)
      requires Valid() && s == 0
      modifies this`s
      ensures Valid() && Agrees(PCmd(text), r)
    {
      hide PLine;
      r := ParseLine();
      if r == None {
        return;
      }
      var b := Peek("");
      if s != es {
        return None;
      }
    }
  }

  /** parsecmd on a whole command buffer: the tree of the text. Read from the buffer, each word up to its
      first NUL, it is the tree of the words as they stood in the text, and only the ends of its words have
      been overwritten. */
  method Parsecmd(buf: array<char>, es: nat) returns (r: Option<Cmd>)
    requires es < buf.Length && buf[es] == '\0' && '\0' !in buf[..es]
    modifies buf
    ensures match PCmd(old(buf[..es])) {
              case Panic => r == None
              case Ok(cmd, _) => r == Some(cmd) && InBuffer(buf[..], cmd) == Meaning(old(buf[..es]), cmd)
            }
    ensures forall k :: 0 <= k < buf.Length ==> buf[k] == if r.Some? && EndsAt(r.value, k) then '\0' else old(buf[k])
  {
    hide PCmd;
    ghost var text := buf[..es];
    var p := new Parser(buf, es);
    r := p.ParseCmd();
    if r.Some? {
      CmdDelimited(text);
      ghost var b := buf[..];
      assert b[..es] == text;
      NulTerminate(r.value, buf);
      forall w | w in Words(r.value)
        ensures w.q < w.eq <= es && CString(buf[..], w.q) == text[w.q..w.eq]
      {
        TerminationHarmless(text, b, Words(r.value), w);
      }
      ReadsBack(buf[..], text, r.value);
    }
  }

  /** The command as the shell reads it from the buffer: every argument and file name up to its first NUL. */
  function InBuffer(b: seq<char>, cmd: Cmd): Tree {
    match cmd
    case Exec(argv) => TExec(seq(|argv|, i requires 0 <= i < |argv| => StringAt(b, argv[i].q)))
    case Redir(c, file, m) => TRedir(InBuffer(b, c), StringAt(b, file.q), m)
    case Pipe(l, r) => TPipe(InBuffer(b, l), InBuffer(b, r))
    case List(l, r) => TList(InBuffer(b, l), InBuffer(b, r))
    case Back(c) => TBack(InBuffer(b, c))
  }

  function StringAt(b: seq<char>, q: nat): string { if q <= |b| then CString(b, q) else "" }

  /** Some argument or file name of the command ends at k. */
  predicate EndsAt(cmd: Cmd, k: nat) {
    match cmd
    case Exec(argv) => exists i :: 0 <= i < |argv| && argv[i].eq == k
    case Redir(c, file, _) => EndsAt(c, k) || file.eq == k
    case Pipe(l, r) => EndsAt(l, k) || EndsAt(r, k)
    case List(l, r) => EndsAt(l, k) || EndsAt(r, k)
    case Back(c) => EndsAt(c, k)
  }

  lemma {:induction false} ReadsBack(b: seq<char>, text: string, cmd: Cmd)
    requires |text| < |b| && forall w | w in Words(cmd) :: w.q < w.eq <= |text| && CString(b, w.q) == text[w.q..w.eq]
    ensures InBuffer(b, cmd) == Meaning(text, cmd)
  {
    match cmd
    case Exec(argv) => assert forall i :: 0 <= i < |argv| ==> argv[i] in Words(cmd);
    case Redir(c, file, _) => assert file in Words(cmd); ReadsBack(b, text, c);
    case Pipe(l, r) => ReadsBack(b, text, l); ReadsBack(b, text, r);
    case List(l, r) => ReadsBack(b, text, l); ReadsBack(b, text, r);
    case Back(c) => ReadsBack(b, text, c);
  }

  /** The ends of a command's words are those of its list of words. */
  lemma {:induction false} EndsOfWords(cmd: Cmd, k: nat)
    ensures EndsAt(cmd, k) <==> exists w :: w in Words(cmd) && w.eq == k
  {
    match cmd
    case Exec(argv) =>
    case Redir(c, file, _) =>
      EndsOfWords(c, k);
      assert file in Words(cmd);
    case Pipe(l, r) => EndsOfWords(l, k); EndsOfWords(r, k);
    case List(l, r) => EndsOfWords(l, k); EndsOfWords(r, k);
    case Back(c) => EndsOfWords(c, k);
  }

  lemma CmdDelimited(s: string)
    requires '\0' !in s
    ensures PCmd(s).Ok? ==> AllDelimited(s, Words(PCmd(s).value))
  {
    LineDelimited(s, 0);
  }

  // ---------- nulterminate ----------

  /** The words of a command, in the order nulterminate visits them. */
  function Words(cmd: Cmd): seq<Span> {
    match cmd
    case Exec(argv) => argv
    case Redir(c, file, _) => Words(c) + [file]
    case Pipe(l, r) => Words(l) + Words(r)
    case List(l, r) => Words(l) + Words(r)
    case Back(c) => Words(c)
  }

  /** b with a NUL at the end of every word of ws. */
  function Terminated(b: seq<char>, ws: seq<Span>): (r: seq<char>)
    requires forall w :: w in ws ==> w.eq < |b|
    ensures |r| == |b|
    ensures forall k :: 0 <= k < |b| ==> r[k] == b[k] || (r[k] == '\0' && exists w :: w in ws && w.eq == k)
    ensures forall w :: w in ws ==> r[w.eq] == '\0'
  {
    if ws == [] then b else Terminated(b, ws[..|ws|-1])[ws[|ws|-1].eq := '\0']
  }

  lemma {:induction false} TerminatedConcat(b: seq<char>, u: seq<Span>, v: seq<Span>)
    requires forall w :: w in u + v ==> w.eq < |b|
    ensures (forall w :: w in u ==> w.eq < |b|) && (forall w :: w in v ==> w.eq < |b|)
    ensures Terminated(b, u + v) == Terminated(Terminated(b, u), v)
  {
    assert forall w :: w in u || w in v ==> w in u + v;
    if v == [] {
      assert u + v == u;
    } else {
      var v' := v[..|v|-1];
      assert (u + v)[..|u + v|-1] == u + v';
      assert forall w :: w in u + v' ==> w in u + v;
      TerminatedConcat(b, u, v');
    }
  }

  lemma NoneTerminated(b: seq<char>)
    ensures Terminated(b, []) == b
  {}

  lemma OneTerminated(b: seq<char>, ws: seq<Span>, w: Span)
    requires (forall v :: v in ws ==> v.eq < |b|) && w.eq < |b|
    ensures (forall v :: v in ws + [w] ==> v.eq < |b|) && Terminated(b, ws + [w]) == Terminated(b, ws)[w.eq := '\0']
  {
    assert (ws + [w])[..|ws|] == ws;
  }

  /** Writes a NUL after every word, in the buffer the words point into. */
  method NulTerminate(cmd: Cmd, buf: array<char>)
    requires forall w :: w in Words(cmd) ==> w.eq < buf.Length
    modifies buf
    ensures buf[..] == Terminated(old(buf[..]), Words(cmd))
    ensures forall k :: 0 <= k < buf.Length ==> buf[k] == if EndsAt(cmd, k) then '\0' else old(buf[k])
  {
    hide EndsAt, Terminated;
    ghost var b := buf[..];
    WrittenAt(b, cmd);
    match cmd {
      case Exec(argv) =>
        var i := 0;
        NoneTerminated(b);
        while i < |argv|
          invariant 0 <= i <= |argv| && buf[..] == Terminated(b, argv[..i])
        {
          assert argv[..i + 1] == argv[..i] + [argv[i]];
          OneTerminated(b, argv[..i], argv[i]);
          buf[argv[i].eq] := '\0';
          i := i + 1;
        }
        assert argv[..i] == argv;
      case Redir(c, file, _) =>
        assert file in Words(cmd);
        NulTerminate(c, buf);
        buf[file.eq] := '\0';
        OneTerminated(b, Words(c), file);
      case Pipe(l, r) =>
        TerminatedConcat(b, Words(l), Words(r));
        NulTerminate(l, buf);
        NulTerminate(r, buf);
      case List(l, r) =>
        TerminatedConcat(b, Words(l), Words(r));
        NulTerminate(l, buf);
        NulTerminate(r, buf);
      case Back(c) =>
        NulTerminate(c, buf);
    }
  }

  lemma WrittenAt(b: seq<char>, cmd: Cmd)
    requires forall w :: w in Words(cmd) ==> w.eq < |b|
    ensures forall k :: 0 <= k < |b| ==> Terminated(b, Words(cmd))[k] == if EndsAt(cmd, k) then '\0' else b[k]
  {
    hide Terminated, Words, EndsAt;
    forall k | 0 <= k < |b| ensures Terminated(b, Words(cmd))[k] == if EndsAt(cmd, k) then '\0' else b[k] {
      EndsOfWords(cmd, k);
      TerminatedAt(b, Words(cmd), k);
    }
  }

  lemma {:induction false} TerminatedAt(b: seq<char>, ws: seq<Span>, k: nat)
    requires (forall w :: w in ws ==> w.eq < |b|) && k < |b|
    ensures Terminated(b, ws)[k] == if exists w :: w in ws && w.eq == k then '\0' else b[k]
  {
    if ws != [] {
      TerminatedAt(b, ws[..|ws|-1], k);
      assert forall w :: w in ws <==> w in ws[..|ws|-1] || w == ws[|ws|-1];
    }
  }

  /** A maximal run of word characters of the text: a word as gettoken delimits it. */
  ghost predicate Delimited(s: string, w: Span) {
    && w.q < w.eq <= |s| && (forall k :: w.q <= k < w.eq ==> IsWordChar(s[k]))
    && (w.eq < |s| ==> !IsWordChar(s[w.eq]))
  }

  ghost predicate AllDelimited(s: string, ws: seq<Span>) {
    forall w :: w in ws ==> Delimited(s, w)
  }

  /** The C string at q: everything up to the first NUL. */
  function CString(b: seq<char>, q: nat): string
    requires q <= |b|
    decreases |b| - q
  {
    if q == |b| || b[q] == '\0' then "" else [b[q]] + CString(b, q + 1)
  }

  lemma {:induction false} CStringUpTo(b: seq<char>, q: nat, e: nat)
    requires q <= e < |b| && b[e] == '\0' && '\0' !in b[q..e]
    ensures CString(b, q) == b[q..e]
    decreases e - q
  {
    if q < e {
      assert b[q] == b[q..e][0] && b[q..e][1..] == b[q + 1..e];
      CStringUpTo(b, q + 1, e);
    }
  }

  /** Termination is harmless: no recorded end lies inside any recorded word, so every word, read to its
      first NUL, is exactly the slice gettoken delimited. */
  lemma TerminationHarmless(s: string, b: seq<char>, ws: seq<Span>, w: Span)
    requires |s| < |b| && b[..|s|] == s && AllDelimited(s, ws) && w in ws
    ensures (forall v :: v in ws ==> v.eq < |b|) && CString(Terminated(b, ws), w.q) == s[w.q..w.eq]
  {
    var r := Terminated(b, ws);
    forall k | w.q <= k < w.eq
      ensures r[k] == s[k] && s[k] != '\0'
    {
      assert b[k] == s[k];
      assert forall v :: v in ws && v.eq < |s| ==> !IsWordChar(s[v.eq]);
    }
    CStringUpTo(r, w.q, w.eq);
  }

  // ---------- every word the parser records is delimited ----------

  lemma {:induction false} SkipWordDelimits(s: string, i: nat)
    requires i <= |s| && '\0' !in s
    ensures forall k :: i <= k < SkipWord(s, i) ==> IsWordChar(s[k])
    ensures SkipWord(s, i) < |s| ==> !IsWordChar(s[SkipWord(s, i)])
    decreases |s| - i
  {
    if i < |s| && !IsSpace(s[i]) && s[i] !in SYMBOLS {
      SkipWordDelimits(s, i + 1);
    }
  }

  lemma WordToken(s: string, i: nat)
    requires i <= |s| && '\0' !in s && NextToken(s, i).value.ret == 'a'
    ensures Delimited(s, Span(NextToken(s, i).value.q, NextToken(s, i).value.eq))
  {
    SkipSpaceStops(s, i);
    var q := SkipSpace(s, i);
    SkipWordDelimits(s, q);
    assert s[q] !in "|();&<" && s[q] != '>';
    assert SkipWord(s, q) > q;
  }

  lemma {:induction false} SkipSpaceStops(s: string, i: nat)
    requires i <= |s|
    ensures SkipSpace(s, i) < |s| ==> !IsSpace(s[SkipSpace(s, i)])
    decreases |s| - i
  {
    if i < |s| && IsSpace(s[i]) {
      SkipSpaceStops(s, i + 1);
    }
  }

  lemma {:induction false} RedirsDelimited(s: string, i: nat, cmd: Cmd)
    requires i <= |s| && '\0' !in s && AllDelimited(s, Words(cmd))
    ensures Redirs(s, i, cmd).Ok? ==> AllDelimited(s, Words(Redirs(s, i, cmd).value))
    decreases |s| - i
  {
    hide NextToken, SkipSpace, Delimited;
    if Sees(s, i, "<>") {
      var op := NextToken(s, i);
      var file := NextToken(s, op.pos);
      if file.value.ret == 'a' {
        WordToken(s, op.pos);
        RedirsDelimited(s, file.pos, Redir(cmd, Span(file.value.q, file.value.eq), ModeOf(op.value.ret)));
      }
    }
  }

  lemma {:induction false} AddArgWords(cmd: Cmd, w: Span)
    ensures forall v :: v in Words(AddArg(cmd, w)) ==> v in Words(cmd) || v == w
  {
    match cmd
    case Redir(c, _, _) => AddArgWords(c, w);
    case _ =>
  }

  lemma {:induction false} ArgsDelimited(s: string, i: nat, ret: Cmd)
    requires i <= |s| && '\0' !in s && AllDelimited(s, Words(ret))
    ensures Args(s, i, ret).Ok? ==> AllDelimited(s, Words(Args(s, i, ret).value))
    decreases |s| - i
  {
    hide NextToken, SkipSpace, Delimited, Redirs;
    if !Sees(s, i, "|)&;") {
      var tok := NextToken(s, i);
      if tok.value.ret == 'a' {
        var w := Span(tok.value.q, tok.value.eq);
        WordToken(s, i);
        AddArgWords(ret, w);
        RedirsDelimited(s, tok.pos, AddArg(ret, w));
        var rest := Redirs(s, tok.pos, AddArg(ret, w));
        if rest.Ok? { ArgsDelimited(s, rest.pos, rest.value); }
      }
    }
  }

  lemma {:induction false} BacksDelimited(s: string, i: nat, cmd: Cmd)
    requires i <= |s| && AllDelimited(s, Words(cmd))
    ensures AllDelimited(s, Words(Backs(s, i, cmd).value))
    decreases |s| - i
  {
    hide Delimited;
    if Sees(s, i, "&") { BacksDelimited(s, NextToken(s, i).pos, Back(cmd)); }
  }

  lemma {:induction false} ExecDelimited(s: string, i: nat)
    requires i <= |s| && '\0' !in s
    ensures PExec(s, i).Ok? ==> AllDelimited(s, Words(PExec(s, i).value))
    decreases |s| - i, 0
  {
    hide NextToken, SkipSpace, Delimited, Redirs, Args, PLine;
    if Sees(s, i, "(") {
      var line := PLine(s, NextToken(s, i).pos);
      LineDelimited(s, NextToken(s, i).pos);
      if line.Ok? && Sees(s, line.pos, ")") { RedirsDelimited(s, NextToken(s, line.pos).pos, line.value); }
    } else {
      RedirsDelimited(s, i, Exec([]));
      var first := Redirs(s, i, Exec([]));
      if first.Ok? { ArgsDelimited(s, first.pos, first.value); }
    }
  }

  lemma {:induction false} PipeDelimited(s: string, i: nat)
    requires i <= |s| && '\0' !in s
    ensures PPipe(s, i).Ok? ==> AllDelimited(s, Words(PPipe(s, i).value))
    decreases |s| - i, 1
  {
    hide NextToken, SkipSpace, Delimited, PExec;
    ExecDelimited(s, i);
    var left := PExec(s, i);
    if left.Ok? && Sees(s, left.pos, "|") { PipeDelimited(s, NextToken(s, left.pos).pos); }
  }

  lemma {:induction false} LineDelimited(s: string, i: nat)
    requires i <= |s| && '\0' !in s
    ensures PLine(s, i).Ok? ==> AllDelimited(s, Words(PLine(s, i).value))
    decreases |s| - i, 2
  {
    hide NextToken, SkipSpace, Delimited, PPipe, Backs;
    PipeDelimited(s, i);
    var first := PPipe(s, i);
    if first.Ok? {
      BacksDelimited(s, first.pos, first.value);
      var cmd := Backs(s, first.pos, first.value);
      if Sees(s, cmd.pos, ";") { LineDelimited(s, NextToken(s, cmd.pos).pos); }
    }
  }

  lemma WordGoesOn(text: string, i: nat)
    requires i < |text| && text[i] !in WHITESPACE && text[i] !in SYMBOLS
    ensures SkipWord(text, i) == SkipWord(text, i + 1)
  {}

  lemma WordEnds(text: string, i: nat)
    requires i <= |text| && (i < |text| ==> text[i] in WHITESPACE || text[i] in SYMBOLS)
    ensures SkipWord(text, i) == i
  {}

  /** Skipping blanks first changes nothing that is read next. */
  lemma BlanksFirst(s: string, i: nat)
    requires i <= |s|
    ensures SkipSpace(s, SkipSpace(s, i)) == SkipSpace(s, i)
    ensures NextToken(s, SkipSpace(s, i)) == NextToken(s, i)
  {
    hide SkipSpace, SkipWord;
    SkipTwice(s, i);
  }

  lemma {:induction false} SkipTwice(s: string, i: nat)
    requires i <= |s|
    ensures SkipSpace(s, SkipSpace(s, i)) == SkipSpace(s, i)
    decreases |s| - i
  {
    if i < |s| && IsSpace(s[i]) {
      SkipTwice(s, i + 1);
    }
  }

  lemma BlanksFirstExec(s: string, i: nat)
    requires i <= |s|
    ensures PBlock(s, SkipSpace(s, i)) == PBlock(s, i)
    ensures forall cmd :: Redirs(s, SkipSpace(s, i), cmd) == Redirs(s, i, cmd)
  {
    BlanksFirst(s, i);
  }
}
