/** The pattern matcher of grep against the language a pattern denotes. Strings are the characters before
    the terminating NUL. (user/grep.c) */
module Regex {
  const NUL := '\0'

  ghost predicate CString(s: string) { NUL !in s }

  // ---------- what a pattern means ----------

  /** One element of a pattern: a character or any (.), once or any number of times (*). */
  datatype Item = One(c: char) | Many(c: char)

  /** A pattern: its elements, and whether it must end where the text does ($ at its end). */
  datatype Pattern = Pattern(items: seq<Item>, atEnd: bool)

  /** Reading a pattern: c* is a repetition whatever c is, a final $ an anchor; every other character, $ and
      * in other places included, stands for itself. */
  function Parse(re: string): (p: Pattern)
    ensures |p.items| <= |re|
    decreases |re|
  {
    if re == [] then Pattern([], false)
    else if |re| > 1 && re[1] == '*' then Prepend(Many(re[0]), Parse(re[2..]))
    else if re == "$" then Pattern([], true)
    else Prepend(One(re[0]), Parse(re[1..]))
  }

  function Prepend(i: Item, p: Pattern): Pattern { p.(items := [i] + p.items) }

  predicate Fits(c: char, x: char) { c == '.' || c == x }

  /** s is a repetition of characters that c fits. */
  predicate AllFit(c: char, s: string) { forall i :: 0 <= i < |s| ==> Fits(c, s[i]) }

  /** The strings that one element denotes. */
  predicate ItemDenotes(item: Item, s: string) {
    match item
    case One(c) => |s| == 1 && Fits(c, s[0])
    case Many(c) => AllFit(c, s)
  }

  /** The strings that a sequence of elements denotes: s splits into one piece for each. */
  ghost predicate Denotes(items: seq<Item>, s: string)
    decreases |items|
  {
    if items == [] then s == []
    else exists k :: 0 <= k <= |s| && ItemDenotes(items[0], s[..k]) && Denotes(items[1..], s[k..])
  }

  /** Some prefix of the text is in the pattern's language and stops where the pattern allows. */
  ghost predicate MatchesHere(p: Pattern, text: string) {
    exists j :: 0 <= j <= |text| && Denotes(p.items, text[..j]) && (p.atEnd ==> j == |text|)
  }

  /** The text has a substring in the language: from its beginning if the pattern starts with ^. */
  ghost predicate Matches(re: string, text: string) {
    if re != [] && re[0] == '^' then MatchesHere(Parse(re[1..]), text)
    else exists i :: 0 <= i <= |text| && MatchesHere(Parse(re), text[i..])
  }

  // ---------- how a match unfolds ----------

  lemma NothingLeft(text: string)
    ensures MatchesHere(Parse([]), text)
  {
    assert text[..0] == [] && Denotes([], text[..0]);
  }

  lemma EndAnchor(text: string)
    ensures MatchesHere(Parse("$"), text) <==> text == []
  {
    assert Parse("$") == Pattern([], true);
    if text == [] { assert Denotes([], text[..0]); }
  }

  /** A match of item then p is a piece for the item and a match of p on what follows it. */
  lemma MatchesFrom(item: Item, p: Pattern, text: string)
    ensures MatchesHere(Prepend(item, p), text)
       <==> exists k :: 0 <= k <= |text| && ItemDenotes(item, text[..k]) && MatchesHere(p, text[k..])
  {
    hide Denotes, ItemDenotes, MatchesHere;
    var q := Prepend(item, p);
    assert q.items[0] == item && q.items[1..] == p.items;
    if MatchesHere(q, text) {
      var j := WhereMatches(q, text);
      var k := FirstPiece(q.items, text[..j]);
      assert text[..j][..k] == text[..k] && text[..j][k..] == text[k..][..j - k];
      MatchesAt(p, text[k..], j - k);
    }
    if k :| 0 <= k <= |text| && ItemDenotes(item, text[..k]) && MatchesHere(p, text[k..]) {
      var j := WhereMatches(p, text[k..]);
      var s := text[..k + j];
      assert s[..k] == text[..k] && s[k..] == text[k..][..j];
      Pieces(q.items, s, k);
      MatchesAt(q, text, k + j);
    }
  }

  lemma WhereMatches(p: Pattern, text: string) returns (j: nat)
    requires MatchesHere(p, text)
    ensures j <= |text| && Denotes(p.items, text[..j]) && (p.atEnd ==> j == |text|)
  {
    hide Denotes;
    j :| 0 <= j <= |text| && Denotes(p.items, text[..j]) && (p.atEnd ==> j == |text|);
  }

  lemma MatchesAt(p: Pattern, text: string, j: nat)
    requires j <= |text| && Denotes(p.items, text[..j]) && (p.atEnd ==> j == |text|)
    ensures MatchesHere(p, text)
  {
    hide Denotes;
  }

  lemma FirstPiece(items: seq<Item>, s: string) returns (k: nat)
    requires items != [] && Denotes(items, s)
    ensures k <= |s| && ItemDenotes(items[0], s[..k]) && Denotes(items[1..], s[k..])
  {
    hide ItemDenotes;
    k :| 0 <= k <= |s| && ItemDenotes(items[0], s[..k]) && Denotes(items[1..], s[k..]);
  }

  lemma Pieces(items: seq<Item>, s: string, k: nat)
    requires items != [] && k <= |s| && ItemDenotes(items[0], s[..k]) && Denotes(items[1..], s[k..])
    ensures Denotes(items, s)
  {
    hide ItemDenotes;
  }

  lemma MatchesOne(c: char, p: Pattern, text: string)
    ensures MatchesHere(Prepend(One(c), p), text) <==> text != [] && Fits(c, text[0]) && MatchesHere(p, text[1..])
  {
    MatchesFrom(One(c), p, text);
    if text != [] && Fits(c, text[0]) && MatchesHere(p, text[1..]) {
      assert text[..1] == [text[0]] && ItemDenotes(One(c), text[..1]);
    }
  }

  /** c* then p: p matches at some place up to which all characters fit. */
  lemma MatchesMany(c: char, p: Pattern, text: string)
    ensures MatchesHere(Prepend(Many(c), p), text)
       <==> exists k :: 0 <= k <= |text| && AllFit(c, text[..k]) && MatchesHere(p, text[k..])
  {
    MatchesFrom(Many(c), p, text);
    if k :| 0 <= k <= |text| && AllFit(c, text[..k]) && MatchesHere(p, text[k..]) {
      assert ItemDenotes(Many(c), text[..k]);
    }
    if k :| 0 <= k <= |text| && ItemDenotes(Many(c), text[..k]) && MatchesHere(p, text[k..]) {
      assert AllFit(c, text[..k]);
    }
  }

  // ---------- the constructs, as written ----------

  /** What each construct of a pattern means: the empty pattern, a $ at the end, c*, a dot and any other
      character. */
  lemma Constructs(re: string, text: string)
    ensures re == [] ==> MatchesHere(Parse(re), text)
    ensures re == "$" ==> (MatchesHere(Parse(re), text) <==> text == [])
    ensures |re| > 1 && re[1] == '*' ==>
              (MatchesHere(Parse(re), text) <==>
                 exists k :: 0 <= k <= |text| && (forall i :: 0 <= i < k ==> re[0] == '.' || text[i] == re[0]) && MatchesHere(Parse(re[2..]), text[k..]))
    ensures re != [] && re != "$" && !(|re| > 1 && re[1] == '*') ==>
              (MatchesHere(Parse(re), text) <==>
                 text != [] && (re[0] == '.' || re[0] == text[0]) && MatchesHere(Parse(re[1..]), text[1..]))
  {
    hide MatchesHere, Denotes;
    if re == [] {
      NothingLeft(text);
    } else if |re| > 1 && re[1] == '*' {
      MatchesMany(re[0], Parse(re[2..]), text);
      hide Parse;
      forall k | 0 <= k <= |text|
        ensures AllFit(re[0], text[..k]) <==> forall i :: 0 <= i < k ==> re[0] == '.' || text[i] == re[0]
      {
        FitsAll(re[0], text, k);
      }
    } else if re == "$" {
      EndAnchor(text);
    } else {
      MatchesOne(re[0], Parse(re[1..]), text);
    }
  }

  lemma FitsAll(c: char, text: string, k: nat)
    requires k <= |text|
    ensures AllFit(c, text[..k]) <==> forall i :: 0 <= i < k ==> c == '.' || text[i] == c
  {
    var s := text[..k];
    assert forall i :: 0 <= i < k ==> s[i] == text[i];
  }

  /** A leading ^ ties the match to the beginning; otherwise it may begin anywhere, the end included. */
  lemma Anchored(re: string, text: string)
    ensures Matches(['^'] + re, text) <==> MatchesHere(Parse(re), text)
    ensures re == [] || re[0] != '^' ==> (Matches(re, text) <==> exists i :: 0 <= i <= |text| && MatchesHere(Parse(re), text[i..]))
  {
    hide MatchesHere, Parse;
    assert (['^'] + re)[1..] == re;
  }

  // ---------- the code ----------

  /** The character at a position, NUL at the end. */
  function CharAt(s: string, i: nat): char
    requires i <= |s|
  {
    if i < |s| then s[i] else NUL
  }

  method Match(re: string, text: string) returns (r: bool)
    requires CString(re) && CString(text)
    ensures r <==> Matches(re, text)
  {
    hide MatchesHere, Parse, Denotes;
    if CharAt(re, 0) == '^' {
      r := MatchHere(re[1..], text);
      return;
    }
    var t := 0;
    while true      // the empty suffix is tried too
      invariant 0 <= t <= |text|
      invariant forall i :: 0 <= i < t ==> !MatchesHere(Parse(re), text[i..])
      decreases |text| - t
    {
      var here := MatchHere(re, text[t..]);
      if here { return true; }
      if CharAt(text, t) == NUL { break; }
      t := t + 1;
    }
    assert t == |text|;
    return false;
  }

  /** Does some beginning of text match re? */
  method MatchHere(re: string, text: string) returns (r: bool)
    requires CString(re) && CString(text)
    ensures r <==> MatchesHere(Parse(re), text)
    decreases |re|, 0
  {
    if CharAt(re, 0) == NUL {
      NothingLeft(text);
      return true;
    }
    if CharAt(re, 1) == '*' {
      MatchesMany(re[0], Parse(re[2..]), text);
      r := MatchStar(re[0], re[2..], text);
      return;
    }
    if re[0] == '$' && CharAt(re, 1) == NUL {
      assert re == "$";
      EndAnchor(text);
      return CharAt(text, 0) == NUL;
    }
    MatchesOne(re[0], Parse(re[1..]), text);
    if CharAt(text, 0) != NUL && (re[0] == '.' || re[0] == CharAt(text, 0)) {
      r := MatchHere(re[1..], text[1..]);
      return;
    }
    return false;
  }

  /** Does text match re after some run of characters that fit c? */
  method MatchStar(c: char, re: string, text: string) returns (r: bool)
    requires CString(re) && CString(text)
    ensures r <==> exists k :: 0 <= k <= |text| && AllFit(c, text[..k]) && MatchesHere(Parse(re), text[k..])
    decreases |re|, 1
  {
    var t := 0;
    while true      // t fitting characters are skipped, none at first
      invariant 0 <= t <= |text| && AllFit(c, text[..t])
      invariant forall i :: 0 <= i < t ==> !MatchesHere(Parse(re), text[i..])
      decreases |text| - t
    {
      var here := MatchHere(re, text[t..]);
      if here { return true; }
      if CharAt(text, t) == NUL || !(text[t] == c || c == '.') { break; }
      t := t + 1;
    }
    forall k | t < k <= |text| ensures !AllFit(c, text[..k]) { assert text[..k][t] == text[t]; }
    return false;
  }
}
