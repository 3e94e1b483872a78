/** URL globs: what a pattern means, the compiler to regular-expression text, and the
    second copy of that compiler that is injected into the page. */
module Glob {
  import opened Basics
  import opened Regex

  /** What follows a leading `**`: an optional `/` belongs to the wildcard. */
  function AfterDoubleStar(p: string): string
    requires |p| >= 2
  {
    if |p| > 2 && p[2] == '/' then p[3..] else p[2..]
  }

  predicate StartsDoubleStar(p: string) {
    |p| >= 2 && p[0] == '*' && p[1] == '*'
  }

  /** Direct semantics. `**` (with an optional following `/`) stands for any string, `*` for any
      slash-free string, `?` for one character other than a slash, anything else for itself.
      With `dotAll` false, `**` stands only for strings without line terminators. */
  predicate GlobMatch(p: string, u: string, dotAll: bool)
    decreases |p|
  {
    if p == "" then u == ""
    else if StartsDoubleStar(p) then
      exists k :: 0 <= k <= |u| && (dotAll || AllInClass(Dot, u[..k])) && GlobMatch(AfterDoubleStar(p), u[k..], dotAll)
    else if p[0] == '*' then
      exists k :: 0 <= k <= |u| && AllInClass(NotSlash, u[..k]) && GlobMatch(p[1..], u[k..], dotAll)
    else if p[0] == '?' then
      u != "" && u[0] != '/' && GlobMatch(p[1..], u[1..], dotAll)
    else
      u != "" && u[0] == p[0] && GlobMatch(p[1..], u[1..], dotAll)
  }

  // ---- the compiler ----

  /** Characters that are escaped with a backslash, besides `.`. */
  predicate IsEscaped(c: char) {
    c in "^$+{}[]|()\\"
  }

  /** How many pattern characters the next step consumes. */
  function Taken(p: string): (n: nat)
    requires p != ""
    ensures 0 < n <= |p|
  {
    if !StartsDoubleStar(p) then 1 else if |p| > 2 && p[2] == '/' then 3 else 2
  }

  /** What the next step emits. */
  function Piece(p: string): string
    requires p != ""
  {
    if StartsDoubleStar(p) then ".*"
    else if p[0] == '*' then "[^/]*"
    else if p[0] == '?' then "[^/]"
    else if p[0] == '.' then "\\."
    else if IsEscaped(p[0]) then "\\" + [p[0]]
    else [p[0]]
  }

  /** The text the compilers emit between the anchors. */
  function Body(p: string): string
    decreases |p|
  {
    if p == "" then "" else Piece(p) + Body(p[Taken(p)..])
  }

  /** One step of a loop that stands at `i` and has emitted `emitted`. */
  lemma BodyStep(pattern: string, i: nat, emitted: string)
    requires i < |pattern|
    ensures var rest := pattern[i..];
      emitted + Body(rest) == (emitted + Piece(rest)) + Body(pattern[i + Taken(rest)..])
  {
    var rest := pattern[i..];
    assert rest[Taken(rest)..] == pattern[i + Taken(rest)..];
  }

  /** What the loops look at is what `Piece` and `Taken` look at. */
  lemma StepByCharacters(pattern: string, i: nat)
    requires i < |pattern|
    ensures var rest, doubled := pattern[i..], pattern[i] == '*' && i + 1 < |pattern| && pattern[i + 1] == '*';
      && Taken(rest) == (if !doubled then 1 else if i + 2 < |pattern| && pattern[i + 2] == '/' then 3 else 2)
      && Piece(rest) == if doubled then ".*" else if pattern[i] == '*' then "[^/]*" else if pattern[i] == '?' then "[^/]"
                        else if pattern[i] == '.' then "\\." else if IsEscaped(pattern[i]) then "\\" + [pattern[i]] else [pattern[i]]
  {}

  method GlobToRegex(pattern: string) returns (text: string)
    ensures text == "^" + Body(pattern) + "$"
  {
    var regex := "";
    var i := 0;
    assert pattern[0..] == pattern;
    while i < |pattern|
      invariant 0 <= i <= |pattern|
      invariant regex + Body(pattern[i..]) == Body(pattern)
    {
      var ch := pattern[i];
      ghost var rest, i0, regex0 := pattern[i..], i, regex;
      BodyStep(pattern, i, regex);
      StepByCharacters(pattern, i);
      if ch == '*' && i + 1 < |pattern| && pattern[i + 1] == '*' {
        regex := regex + ".*";
        i := i + 2;
        if i < |pattern| && pattern[i] == '/' { i := i + 1; }
      } else if ch == '*' {
        regex := regex + "[^/]*";
        i := i + 1;
      } else if ch == '?' {
        regex := regex + "[^/]";
        i := i + 1;
      } else if ch == '.' {
        regex := regex + "\\.";
        i := i + 1;
      } else if IsEscaped(ch) {
        regex := regex + ("\\" + [ch]);
        i := i + 1;
      } else {
        regex := regex + [ch];
        i := i + 1;
      }
      assert i == i0 + Taken(rest) && regex == regex0 + Piece(rest);
    }
    text := "^" + regex + "$";
  }

  /** The copy inside the injected script: a `for` loop whose own increment is part of
      what each branch consumes. */
  method PageGlobToRegex(p: string) returns (text: string)
    ensures text == "^" + Body(p) + "$"
  {
    var r := "";
    var i := 0;
    assert p[0..] == p;
    while i < |p|
      invariant 0 <= i <= |p|
      invariant r + Body(p[i..]) == Body(p)
    {
      var c := p[i];
      ghost var rest, i0, r0 := p[i..], i, r;
      BodyStep(p, i, r);
      StepByCharacters(p, i);
      if c == '*' && i + 1 < |p| && p[i + 1] == '*' {
        r := r + ".*";
        i := i + 1;
        if i + 1 < |p| && p[i + 1] == '/' { i := i + 1; }
      } else if c == '*' {
        r := r + "[^/]*";
      } else if c == '?' {
        r := r + "[^/]";
      } else if c == '.' {
        r := r + "\\.";
      } else if IsEscaped(c) {
        r := r + ("\\" + [c]);
      } else {
        r := r + [c];
      }
      i := i + 1;
      assert i == i0 + Taken(rest) && r == r0 + Piece(rest);
    }
    text := "^" + r + "$";
  }

  // ---- the compiled text means the glob ----

  function Item(p: string): Regex
    requires p != ""
  {
    if StartsDoubleStar(p) then Star(One(Dot))
    else if p[0] == '*' then Star(One(NotSlash))
    else if p[0] == '?' then One(NotSlash)
    else One(Lit(p[0]))
  }

  /** The tree the emitted text parses to. */
  function Tree(p: string): Regex
    decreases |p|
  {
    if p == "" then Empty else Cat(Item(p), Tree(p[Taken(p)..]))
  }

  lemma DotAtom(t: string)
    ensures ParseAtom("." + t) == Some((Dot, 1))
  {
    var s := "." + t;
    assert s[0] == '.';
    assert |s| >= 4 ==> s[..4][0] == '.';
  }

  lemma AnyParses(rest: string)
    requires ParseTail(rest).Some?
    ensures ParseTail(".*" + rest) == Some(Cat(Star(One(Dot)), ParseTail(rest).value))
  {
    DotAtom("*" + rest);
    assert "." + ("*" + rest) == "." + "*" + rest == ".*" + rest;
    ParseStar(".", rest, Dot);
  }

  lemma NotSlashAtom(t: string)
    ensures ParseAtom("[^/]" + t) == Some((NotSlash, 4)) && "[^/]" + t != "$"
  {
    var s := "[^/]" + t;
    assert s[..4] == "[^/]" && s[0] == '[';
  }

  lemma SegmentParses(rest: string)
    requires ParseTail(rest).Some?
    ensures ParseTail("[^/]*" + rest) == Some(Cat(Star(One(NotSlash)), ParseTail(rest).value))
  {
    NotSlashAtom("*" + rest);
    assert "[^/]" + ("*" + rest) == "[^/]" + "*" + rest == "[^/]*" + rest;
    ParseStar("[^/]", rest, NotSlash);
  }

  lemma WildcardParses(p: string, rest: string)
    requires p != "" && (p[0] == '*' || p[0] == '?')
    requires rest != "" && rest[0] != '*' && ParseTail(rest).Some?
    ensures ParseTail(Piece(p) + rest) == Some(Cat(Item(p), ParseTail(rest).value))
  {
    if StartsDoubleStar(p) {
      AnyParses(rest);
    } else if p[0] == '*' {
      SegmentParses(rest);
    } else {
      NotSlashAtom(rest);
      ParseOne("[^/]", rest, NotSlash);
    }
  }

  /** Escaping covers the syntax characters that are not wildcards. */
  lemma EscapedIsSyntax(c: char)
    ensures IsEscaped(c) || c == '.' || c == '*' || c == '?' <==> IsSyntaxChar(c)
  {}

  lemma EscapedAtom(c: char, rest: string)
    requires IsSyntaxChar(c)
    ensures ParseAtom("\\" + [c] + rest) == Some((Lit(c), |"\\" + [c]|)) && "\\" + [c] + rest != "$"
  {
    var t := "\\" + [c] + rest;
    assert t[0] == '\\' && t[1] == c;
  }

  lemma PlainAtom(c: char, rest: string)
    requires !IsSyntaxChar(c) && rest != ""
    ensures ParseAtom([c] + rest) == Some((Lit(c), |[c]|)) && [c] + rest != "$"
  {
    var t := [c] + rest;
    EscapedIsSyntax('[');
    EscapedIsSyntax('\\');
    assert t[0] == c && |t| > 1;
    assert |t| >= 4 ==> t[..4][0] == c;
  }

  lemma LiteralParses(p: string, rest: string)
    requires p != "" && p[0] != '*' && p[0] != '?'
    requires rest != "" && rest[0] != '*' && ParseTail(rest).Some?
    ensures ParseTail(Piece(p) + rest) == Some(Cat(Item(p), ParseTail(rest).value))
  {
    EscapedIsSyntax(p[0]);
    if p[0] == '.' || IsEscaped(p[0]) {
      EscapedAtom(p[0], rest);
      ParseOne("\\" + [p[0]], rest, Lit(p[0]));
    } else {
      PlainAtom(p[0], rest);
      ParseOne([p[0]], rest, Lit(p[0]));
    }
  }

  /** The emitted text is a valid pattern, and nothing emitted is taken for a quantifier of
      what was emitted before it. */
  lemma {:induction false} BodyParses(p: string)
    ensures ParseTail(Body(p) + "$") == Some(Tree(p))
    ensures (Body(p) + "$")[0] != '*'
    decreases |p|
  {
    if p != "" {
      var q := p[Taken(p)..];
      var rest := Body(q) + "$";
      BodyParses(q);
      assert Body(p) + "$" == Piece(p) + rest;
      if p[0] == '*' || p[0] == '?' {
        WildcardParses(p, rest);
      } else {
        LiteralParses(p, rest);
      }
    }
  }

  lemma CatOne(cls: Class, rest: Regex, u: string)
    ensures Matches(Cat(One(cls), rest), u) <==> u != "" && InClass(cls, u[0]) && Matches(rest, u[1..])
  {
    var r := Cat(One(cls), rest);
    if u != "" && InClass(cls, u[0]) && Matches(rest, u[1..]) {
      assert Matches(One(cls), u[..1]) && Matches(rest, u[1..]);
    }
  }

  lemma CatStar(cls: Class, rest: Regex, u: string)
    ensures Matches(Cat(Star(One(cls)), rest), u)
      <==> exists k :: 0 <= k <= |u| && AllInClass(cls, u[..k]) && Matches(rest, u[k..])
  {
    forall k | 0 <= k <= |u| ensures Matches(Star(One(cls)), u[..k]) <==> AllInClass(cls, u[..k]) {
      StarOfClass(cls, u[..k]);
    }
    if Matches(Cat(Star(One(cls)), rest), u) {
      var k :| 0 <= k <= |u| && Matches(Star(One(cls)), u[..k]) && Matches(rest, u[k..]);
      assert AllInClass(cls, u[..k]);
    }
  }

  lemma {:induction false} TreeMeansGlob(p: string, u: string)
    ensures Matches(Tree(p), u) <==> GlobMatch(p, u, false)
    decreases |p|
  {
    if p != "" {
      var q := p[Taken(p)..];
      forall k | 0 <= k <= |u| ensures Matches(Tree(q), u[k..]) <==> GlobMatch(q, u[k..], false) {
        TreeMeansGlob(q, u[k..]);
      }
      if StartsDoubleStar(p) {
        assert q == AfterDoubleStar(p);
        CatStar(Dot, Tree(q), u);
      } else if p[0] == '*' {
        CatStar(NotSlash, Tree(q), u);
      } else {
        CatOne(if p[0] == '?' then NotSlash else Lit(p[0]), Tree(q), u);
      }
    }
  }

  /** Main result: testing a URL against the compiled text is the direct glob match, for
      every pattern and URL. */
  lemma CompiledMeansGlob(p: string, u: string)
    ensures Test("^" + Body(p) + "$", u) <==> GlobMatch(p, u, false)
  {
    assert ("^" + Body(p) + "$")[1..] == Body(p) + "$";
    BodyParses(p);
    TreeMeansGlob(p, u);
  }

  lemma {:induction false} DotAllIrrelevant(p: string, u: string)
    requires AllInClass(Dot, u)
    ensures GlobMatch(p, u, false) <==> GlobMatch(p, u, true)
    decreases |p|
  {
    if p != "" {
      forall k | 0 <= k <= |u|
        ensures GlobMatch(p[Taken(p)..], u[k..], false) <==> GlobMatch(p[Taken(p)..], u[k..], true)
      {
        DotAllIrrelevant(p[Taken(p)..], u[k..]);
      }
      if StartsDoubleStar(p) {
        assert p[Taken(p)..] == AfterDoubleStar(p);
        forall k | 0 <= k <= |u| ensures AllInClass(Dot, u[..k]) {}
      }
    }
  }

  /** The documented reading, where `**` is any string at all, is met for every pattern
      exactly on the URLs that contain no line terminator. */
  lemma DocumentedGlobExactly(u: string)
    ensures (forall p :: Test("^" + Body(p) + "$", u) <==> GlobMatch(p, u, true)) <==> AllInClass(Dot, u)
    ensures AllInClass(Dot, u) <==> '\n' !in u && '\r' !in u && '\U{2028}' !in u && '\U{2029}' !in u
  {
    if AllInClass(Dot, u) {
      forall p ensures Test("^" + Body(p) + "$", u) <==> GlobMatch(p, u, true) {
        CompiledMeansGlob(p, u);
        DotAllIrrelevant(p, u);
      }
    } else {
      var p := "**";
      CompiledMeansGlob(p, u);
      assert u[|u|..] == "" && GlobMatch("", u[|u|..], true);
      assert GlobMatch(p, u, true);
      assert forall k :: 0 <= k <= |u| && u[k..] == "" ==> u[..k] == u;
      assert !GlobMatch(p, u, false);
    }
  }

  // ---- matchUrl ----

  predicate HasWildcard(p: string) {
    '*' in p || '?' in p
  }

  /** What a rule pattern selects: substring search without wildcards, else a glob. */
  predicate Selects(p: string, u: string) {
    if HasWildcard(p) then GlobMatch(p, u, false) else Includes(u, p)
  }

  method MatchUrl(url: string, pattern: string) returns (b: bool)
    ensures b == Selects(pattern, url)
  {
    if '*' !in pattern && '?' !in pattern {
      return Includes(url, pattern);
    }
    var text := GlobToRegex(pattern);
    CompiledMeansGlob(pattern, url);
    b := Test(text, url);
  }

  /** The page's `m(u, p)`. */
  method PageMatch(u: string, p: string) returns (b: bool)
    ensures b == Selects(p, u)
  {
    if '*' !in p && '?' !in p {
      return Includes(u, p);
    }
    var text := PageGlobToRegex(p);
    CompiledMeansGlob(p, u);
    b := Test(text, u);
  }

  /** Without wildcards a pattern selects exactly the URLs it is a part of. */
  lemma PlainSelects(p: string, u: string)
    requires '*' !in p && '?' !in p
    ensures Selects(p, u) <==> exists a, b :: u == a + p + b
  {
    if Includes(u, p) {
      var k :| 0 <= k <= |u| && p <= u[k..];
      assert u == u[..k] + p + u[k + |p|..];
    }
    if a, b :| u == a + p + b {
      assert u[|a|..] == p + b;
    }
  }

  /** With wildcards it selects the URLs that it matches as a whole. */
  lemma WildcardSelects(p: string, u: string)
    requires '*' in p || '?' in p
    ensures Selects(p, u) <==> GlobMatch(p, u, false)
  {}

  // ---- what globs are made of ----

  /** A character that stands for itself. */
  lemma LiteralGlob(c: char, u: string, dotAll: bool)
    requires c != '*' && c != '?'
    ensures GlobMatch([c], u, dotAll) <==> u == [c]
  {
    assert u != "" ==> u == [u[0]] + u[1..];
  }

  lemma OnlyEnd(u: string)
    ensures forall k :: 0 <= k <= |u| && u[k..] == "" ==> u[..k] == u
    ensures u[..|u|] == u && u[|u|..] == ""
  {}

  lemma QuestionGlob(u: string, dotAll: bool)
    ensures GlobMatch("?", u, dotAll) <==> |u| == 1 && u != "/"
  {
    assert "?"[1..] == "";
    assert |u| == 1 ==> u == [u[0]];
  }

  lemma StarGlob(u: string, dotAll: bool)
    ensures GlobMatch("*", u, dotAll) <==> '/' !in u
  {
    assert "*"[1..] == "";
    OnlyEnd(u);
    assert AllInClass(NotSlash, u) <==> '/' !in u;
  }

  /** A slash behind the double star belongs to it. */
  lemma DoubleStarGlob(p: string, u: string, dotAll: bool)
    requires p == "**" || p == "**/"
    ensures GlobMatch(p, u, dotAll) <==> dotAll || AllInClass(Dot, u)
  {
    assert AfterDoubleStar(p) == "";
    OnlyEnd(u);
  }

  /** What the first item of a pattern stands for. */
  predicate HeadMatches(p: string, s: string, dotAll: bool)
    requires p != ""
  {
    if StartsDoubleStar(p) then dotAll || AllInClass(Dot, s)
    else if p[0] == '*' then AllInClass(NotSlash, s)
    else |s| == 1 && if p[0] == '?' then s[0] != '/' else s[0] == p[0]
  }

  lemma GlobHead(p: string, u: string, dotAll: bool)
    requires p != ""
    ensures GlobMatch(p, u, dotAll) <==>
      exists i :: 0 <= i <= |u| && HeadMatches(p, u[..i], dotAll) && GlobMatch(p[Taken(p)..], u[i..], dotAll)
  {
    if StartsDoubleStar(p) {
      assert p[Taken(p)..] == AfterDoubleStar(p);
    } else if p[0] != '*' && GlobMatch(p, u, dotAll) {
      assert HeadMatches(p, u[..1], dotAll) && GlobMatch(p[Taken(p)..], u[1..], dotAll);
    }
  }

  /** The two patterns do not grow together where they meet. */
  predicate Separable(p: string, q: string) {
    p == "" || q == "" || p[|p| - 1] != '*' || (q[0] != '*' && q[0] != '/')
  }

  lemma HeadOfConcat(p: string, q: string, dotAll: bool)
    requires p != "" && Separable(p, q)
    ensures Taken(p + q) == Taken(p) && (p + q)[Taken(p)..] == p[Taken(p)..] + q
    ensures Separable(p[Taken(p)..], q)
    ensures forall s :: HeadMatches(p + q, s, dotAll) <==> HeadMatches(p, s, dotAll)
  {
    var r := p[Taken(p)..];
    assert r != "" ==> r[|r| - 1] == p[|p| - 1];
  }

  /** A match of the first part and one of the second make a match of the whole. */
  ghost predicate SplitMatch(p: string, q: string, u: string, dotAll: bool) {
    exists k :: 0 <= k <= |u| && GlobMatch(p, u[..k], dotAll) && GlobMatch(q, u[k..], dotAll)
  }

  lemma Slices(u: string, i: nat, k: nat)
    requires i <= k <= |u|
    ensures u[..k][..i] == u[..i] && u[..k][i..] == u[i..][..k - i] && u[i..][k - i..] == u[k..]
  {}

  lemma SplitForward(p: string, q: string, u: string, i: nat, dotAll: bool)
    requires p != "" && i <= |u| && HeadMatches(p, u[..i], dotAll) && SplitMatch(p[Taken(p)..], q, u[i..], dotAll)
    ensures SplitMatch(p, q, u, dotAll)
  {
    var v := u[i..];
    var j :| 0 <= j <= |v| && GlobMatch(p[Taken(p)..], v[..j], dotAll) && GlobMatch(q, v[j..], dotAll);
    var w := u[..i + j];
    Slices(u, i, i + j);
    GlobHead(p, w, dotAll);
  }

  lemma SplitBackward(p: string, q: string, u: string, dotAll: bool) returns (i: nat)
    requires p != "" && SplitMatch(p, q, u, dotAll)
    ensures i <= |u| && HeadMatches(p, u[..i], dotAll) && SplitMatch(p[Taken(p)..], q, u[i..], dotAll)
  {
    var k :| 0 <= k <= |u| && GlobMatch(p, u[..k], dotAll) && GlobMatch(q, u[k..], dotAll);
    var w := u[..k];
    GlobHead(p, w, dotAll);
    i :| 0 <= i <= |w| && HeadMatches(p, w[..i], dotAll) && GlobMatch(p[Taken(p)..], w[i..], dotAll);
    Slices(u, i, k);
  }

  /** Main result about the meaning itself: a pattern made of two parts that do not grow together matches exactly the URLs
      made of a match of each. With what single characters and wildcards stand for, this
      determines the meaning of every pattern. */
  lemma {:induction false} GlobConcat(p: string, q: string, u: string, dotAll: bool)
    requires Separable(p, q)
    ensures GlobMatch(p + q, u, dotAll) <==> SplitMatch(p, q, u, dotAll)
    decreases |p|
  {
    if p == "" {
      assert p + q == q && u[..0] == "" && u[0..] == u;
    } else {
      var r := p[Taken(p)..];
      HeadOfConcat(p, q, dotAll);
      GlobHead(p + q, u, dotAll);
      forall i | 0 <= i <= |u| ensures GlobMatch(r + q, u[i..], dotAll) <==> SplitMatch(r, q, u[i..], dotAll) {
        GlobConcat(r, q, u[i..], dotAll);
      }
      if GlobMatch(p + q, u, dotAll) {
        var i :| 0 <= i <= |u| && HeadMatches(p, u[..i], dotAll) && GlobMatch(r + q, u[i..], dotAll);
        SplitForward(p, q, u, i, dotAll);
      }
      if SplitMatch(p, q, u, dotAll) {
        var i := SplitBackward(p, q, u, dotAll);
      }
    }
  }
}
