/** The regular expression matcher of grep (grep.c), on C strings without their terminating 0. */
module RegexMatcher {

  // ----- the language -----

  /** A character class: one character, or any. */
  datatype Class = One(c: char) | Any

  /** A part of an expression: one character of a class, or any number of them. */
  datatype Part = Single(cls: Class) | Star(cls: Class)

  predicate InClass(cls: Class, c: char) {
    cls.Any? || cls.c == c
  }

  function ClassOf(c: char): Class {
    if c == '.' then Any else One(c)
  }

  /** An expression without a leading '^': its parts, and whether it ends with the anchor '$'. */
  datatype Expr = Expr(parts: seq<Part>, atEnd: bool)

  function Parse(re: string): Expr {
    if re == "" then Expr([], false)
    else if |re| >= 2 && re[1] == '*' then
      var e := Parse(re[2..]);
      Expr([Star(ClassOf(re[0]))] + e.parts, e.atEnd)
    else if re == "$" then Expr([], true)
    else
      var e := Parse(re[1..]);
      Expr([Single(ClassOf(re[0]))] + e.parts, e.atEnd)
  }

  /** The strings that one part stands for. */
  predicate PartMatches(p: Part, s: string) {
    match p
    case Single(cls) => |s| == 1 && InClass(cls, s[0])
    case Star(cls) => forall i :: 0 <= i < |s| ==> InClass(cls, s[i])
  }

  function Concat(pieces: seq<string>): string {
    if pieces == [] then "" else pieces[0] + Concat(pieces[1..])
  }

  ghost predicate PiecesMatch(parts: seq<Part>, pieces: seq<string>) {
    |pieces| == |parts| && forall i :: 0 <= i < |parts| ==> PartMatches(parts[i], pieces[i])
  }

  /** A string belongs to the parts when it is made of one piece for each of them, in order. */
  ghost predicate Belongs(parts: seq<Part>, s: string) {
    exists pieces :: PiecesMatch(parts, pieces) && Concat(pieces) == s
  }

  /** A beginning of the text, and with '$' all of it, belongs to the expression. */
  ghost predicate MatchesHere(e: Expr, text: string) {
    exists n :: 0 <= n <= |text| && (e.atEnd ==> n == |text|) && Belongs(e.parts, text[..n])
  }

  /** With '^' the text itself, otherwise some tail of it, matches. */
  ghost predicate Matches(re: string, text: string) {
    if re != "" && re[0] == '^' then MatchesHere(Parse(re[1..]), text)
    else exists k :: 0 <= k <= |text| && MatchesHere(Parse(re), text[k..])
  }

  // ----- one part at a time -----

  lemma {:induction false} NoParts(s: string)
    ensures Belongs([], s) <==> s == ""
  {
    if s == "" {
      assert PiecesMatch([], []) && Concat([]) == s;
    }
  }

  /** The first part takes a first piece, the others what is left. */
  lemma {:induction false} FirstPart(p: Part, parts: seq<Part>, s: string)
    ensures Belongs([p] + parts, s) <==> exists k :: 0 <= k <= |s| && PartMatches(p, s[..k]) && Belongs(parts, s[k..])
  {
    var all := [p] + parts;
    if Belongs(all, s) {
      var pieces :| PiecesMatch(all, pieces) && Concat(pieces) == s;
      assert PartMatches(all[0], pieces[0]);
      assert forall i :: 0 <= i < |parts| ==> all[i + 1] == parts[i];
      forall i | 0 <= i < |parts| ensures PartMatches(parts[i], pieces[1..][i]) {
        assert PartMatches(all[i + 1], pieces[i + 1]);
      }
      assert PiecesMatch(parts, pieces[1..]);
      var k := |pieces[0]|;
      assert s[..k] == pieces[0] && s[k..] == Concat(pieces[1..]);
    }
    if k :| 0 <= k <= |s| && PartMatches(p, s[..k]) && Belongs(parts, s[k..]) {
      var pieces :| PiecesMatch(parts, pieces) && Concat(pieces) == s[k..];
      var more := [s[..k]] + pieces;
      forall i | 0 <= i < |all| ensures PartMatches(all[i], more[i]) {
        assert i > 0 ==> PartMatches(parts[i - 1], pieces[i - 1]);
      }
      assert PiecesMatch(all, more) && more[1..] == pieces && Concat(more) == s[..k] + s[k..] == s;
    }
  }

  lemma {:induction false} HereEmpty(text: string)
    ensures MatchesHere(Expr([], false), text) && (MatchesHere(Expr([], true), text) <==> text == "")
  {
    NoParts(text[..0]);
    NoParts(text);
    assert text[..|text|] == text;
  }

  lemma {:induction false} HereSingle(cls: Class, e: Expr, text: string)
    ensures MatchesHere(Expr([Single(cls)] + e.parts, e.atEnd), text)
       <==> text != "" && InClass(cls, text[0]) && MatchesHere(e, text[1..])
  {
    var f := Expr([Single(cls)] + e.parts, e.atEnd);
    if MatchesHere(f, text) {
      var n :| 0 <= n <= |text| && (e.atEnd ==> n == |text|) && Belongs(f.parts, text[..n]);
      FirstPart(Single(cls), e.parts, text[..n]);
      assert text[..n][1..] == text[1..][..n - 1];
    }
    if text != "" && InClass(cls, text[0]) && MatchesHere(e, text[1..]) {
      var n :| 0 <= n <= |text| - 1 && (e.atEnd ==> n == |text| - 1) && Belongs(e.parts, text[1..][..n]);
      FirstPart(Single(cls), e.parts, text[..n + 1]);
      assert text[..n + 1][1..] == text[1..][..n] && PartMatches(Single(cls), text[..n + 1][..1]);
    }
  }

  function StarExpr(cls: Class, e: Expr): Expr {
    Expr([Star(cls)] + e.parts, e.atEnd)
  }

  /** A starred character takes nothing, or one character and then again any number. */
  lemma {:induction false} HereStar(cls: Class, e: Expr, text: string)
    ensures MatchesHere(StarExpr(cls, e), text)
       <==> MatchesHere(e, text) || (text != "" && InClass(cls, text[0]) && MatchesHere(StarExpr(cls, e), text[1..]))
  {
    var p := Star(cls);
    if MatchesHere(StarExpr(cls, e), text) {
      var n :| 0 <= n <= |text| && (e.atEnd ==> n == |text|) && Belongs([p] + e.parts, text[..n]);
      FirstPart(p, e.parts, text[..n]);
      var k :| 0 <= k <= n && PartMatches(p, text[..n][..k]) && Belongs(e.parts, text[..n][k..]);
      StarTakes(cls, e, text, n, k);
    }
    if MatchesHere(e, text) {
      var n :| 0 <= n <= |text| && (e.atEnd ==> n == |text|) && Belongs(e.parts, text[..n]);
      FirstPart(p, e.parts, text[..n]);
      assert text[..n][0..] == text[..n] && PartMatches(p, text[..n][..0]);
    }
    if text != "" && InClass(cls, text[0]) && MatchesHere(StarExpr(cls, e), text[1..]) {
      var n :| 0 <= n <= |text| - 1 && (e.atEnd ==> n == |text| - 1) && Belongs([p] + e.parts, text[1..][..n]);
      FirstPart(p, e.parts, text[1..][..n]);
      var k :| 0 <= k <= n && PartMatches(p, text[1..][..n][..k]) && Belongs(e.parts, text[1..][..n][k..]);
      StarGrows(cls, e, text, n, k);
    }
  }

  /** Cutting the same stretch out of a text in two ways. */
  lemma {:induction false} SameTail(text: string, n: nat, k: nat)
    requires k <= n < |text|
    ensures text[1..][..n][k..] == text[..n + 1][k + 1..]
  {
    var x, y := text[1..][..n][k..], text[..n + 1][k + 1..];
    assert |x| == |y| == n - k;
    forall i | 0 <= i < |x| ensures x[i] == y[i] {
      assert x[i] == text[1..][..n][k + i] && y[i] == text[..n + 1][k + 1 + i];
    }
  }

  lemma {:induction false} StarPiece(cls: Class, c: char, s: string)
    requires InClass(cls, c) && PartMatches(Star(cls), s)
    ensures PartMatches(Star(cls), [c] + s)
  {}

  lemma {:induction false} StarRest(cls: Class, s: string)
    requires s != "" && PartMatches(Star(cls), s)
    ensures InClass(cls, s[0]) && PartMatches(Star(cls), s[1..])
  {}

  lemma {:induction false} StarGrows(cls: Class, e: Expr, text: string, n: nat, k: nat)
    requires k <= n < |text| && (e.atEnd ==> n + 1 == |text|) && InClass(cls, text[0])
    requires PartMatches(Star(cls), text[1..][..n][..k]) && Belongs(e.parts, text[1..][..n][k..])
    ensures MatchesHere(StarExpr(cls, e), text)
  {
    hide PartMatches, InClass;
    var head, s := text[1..][..n][..k], text[..n + 1];
    StarPiece(cls, text[0], head);
    assert s[..k + 1] == [text[0]] + head;
    SameTail(text, n, k);
    FirstPart(Star(cls), e.parts, s);
    assert Belongs([Star(cls)] + e.parts, s);
  }

  lemma {:induction false} StarTakes(cls: Class, e: Expr, text: string, n: nat, k: nat)
    requires k <= n <= |text| && (e.atEnd ==> n == |text|)
    requires PartMatches(Star(cls), text[..n][..k]) && Belongs(e.parts, text[..n][k..])
    ensures MatchesHere(e, text) || (text != "" && InClass(cls, text[0]) && MatchesHere(StarExpr(cls, e), text[1..]))
  {
    if k == 0 {
      assert text[..n][0..] == text[..n];
    } else {
      var head, rest := text[..n][..k], text[1..][..n - 1];
      StarRest(cls, head);
      SameTail(text, n - 1, k - 1);
      assert rest[..k - 1] == head[1..];
      FirstPart(Star(cls), e.parts, rest);
      assert Belongs([Star(cls)] + e.parts, rest);
    }
  }

  // ----- the matcher -----

  /** No character of a C string is its end. */
  ghost predicate CString(s: string) {
    forall i :: 0 <= i < |s| ==> s[i] != '\0'
  }

  function At(s: string, i: nat): char {
    if i < |s| then s[i] else '\0'
  }

  method MatchHere(re: string, text: string) returns (r: bool)
    requires CString(re) && CString(text)
    ensures r <==> MatchesHere(Parse(re), text)
    decreases |re|, 0
  {
    hide MatchesHere;
    if At(re, 0) == '\0' {
      HereEmpty(text);
      return true;
    }
    if At(re, 1) == '*' {
      r := MatchStar(At(re, 0), re[2..], text);
      return;
    }
    if At(re, 0) == '$' && At(re, 1) == '\0' {
      HereEmpty(text);
      return At(text, 0) == '\0';
    }
    HereSingle(ClassOf(re[0]), Parse(re[1..]), text);
    if At(text, 0) != '\0' && (At(re, 0) == '.' || At(re, 0) == At(text, 0)) {
      r := MatchHere(re[1..], text[1..]);
      return;
    }
    return false;
  }

  method MatchStar(c: char, re: string, text: string) returns (r: bool)
    requires CString(re) && CString(text)
    ensures r <==> MatchesHere(StarExpr(ClassOf(c), Parse(re)), text)
    decreases |re|, 1
  {
    hide MatchesHere;
    ghost var e := Parse(re);
    var rest := text;
    while true
      invariant CString(rest)
      invariant MatchesHere(StarExpr(ClassOf(c), e), text) <==> MatchesHere(StarExpr(ClassOf(c), e), rest)
      decreases |rest|
    {
      HereStar(ClassOf(c), e, rest);
      var here := MatchHere(re, rest);
      if here {
        return true;
      }
      if !(At(rest, 0) != '\0' && (At(rest, 0) == c || c == '.')) {
        return false;
      }
      rest := rest[1..];
    }
  }

  /** Sound and complete: whether the expression matches somewhere in the text. */
  method Match(re: string, text: string) returns (r: bool)
    requires CString(re) && CString(text)
    ensures r <==> Matches(re, text)
  {
    hide MatchesHere;
    if At(re, 0) == '^' {
      r := MatchHere(re[1..], text);
      return;
    }
    var k := 0;
    while true
      invariant 0 <= k <= |text| && forall j :: 0 <= j < k ==> !MatchesHere(Parse(re), text[j..])
      decreases |text| - k
    {
      var here := MatchHere(re, text[k..]);
      if here {
        return true;
      }
      if At(text, k) == '\0' {
        return false;
      }
      k := k + 1;
    }
  }
}
