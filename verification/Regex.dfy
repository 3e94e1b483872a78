/** The part of ECMAScript regular expressions (no flags) that the glob compiler emits:
    pattern text, its syntax tree, and the strings the tree matches. */
module Regex {
  import opened Basics

  datatype Class = Lit(c: char) | NotSlash | Dot

  datatype Regex = Empty | One(cls: Class) | Star(body: Regex) | Cat(first: Regex, second: Regex)

  /** `.` without the dotAll flag does not match these four (ECMA-262, LineTerminator). */
  predicate IsLineTerminator(c: char) {
    c == '\n' || c == '\r' || c == '\U{2028}' || c == '\U{2029}'
  }

  predicate InClass(cls: Class, c: char) {
    match cls
    case Lit(d) => c == d
    case NotSlash => c != '/'
    case Dot => !IsLineTerminator(c)
  }

  /** `s` as a whole is matched by `r`. */
  predicate Matches(r: Regex, s: string)
    decreases r, |s|
  {
    match r
    case Empty => s == ""
    case One(cls) => |s| == 1 && InClass(cls, s[0])
    case Star(b) => s == "" || exists k :: 0 < k <= |s| && Matches(b, s[..k]) && Matches(r, s[k..])
    case Cat(a, b) => exists k :: 0 <= k <= |s| && Matches(a, s[..k]) && Matches(b, s[k..])
  }

  predicate AllInClass(cls: Class, s: string) {
    forall i :: 0 <= i < |s| ==> InClass(cls, s[i])
  }

  lemma {:induction false} StarOfClass(cls: Class, s: string)
    ensures Matches(Star(One(cls)), s) <==> AllInClass(cls, s)
  {
    var r := Star(One(cls));
    if s != "" {
      StarOfClass(cls, s[1..]);
      if AllInClass(cls, s) {
        assert Matches(One(cls), s[..1]) && Matches(r, s[1..]);
      }
      if Matches(r, s) {
        var k :| 0 < k <= |s| && Matches(One(cls), s[..k]) && Matches(r, s[k..]);
        assert k == 1 && s[..1][0] == s[0];
        forall i | 0 <= i < |s| ensures InClass(cls, s[i]) {
          assert i > 0 ==> s[1..][i - 1] == s[i];
        }
      }
    }
  }

  /** ECMA-262 SyntaxCharacter. */
  predicate IsSyntaxChar(c: char) {
    c in "^$\\.*+?()[]{}|"
  }

  /** The atom at the front of `t` and how many characters spell it. */
  function ParseAtom(t: string): (r: Option<(Class, nat)>)
    ensures r.Some? ==> 0 < r.value.1 <= |t|
  {
    if |t| >= 2 && t[0] == '\\' && IsSyntaxChar(t[1]) then Some((Lit(t[1]), 2))
    else if |t| >= 4 && t[..4] == "[^/]" then Some((NotSlash, 4))
    else if |t| >= 1 && t[0] == '.' then Some((Dot, 1))
    else if |t| >= 1 && !IsSyntaxChar(t[0]) then Some((Lit(t[0]), 1))
    else None
  }

  /** Parses what follows `^`, up to and including the final `$`. */
  function ParseTail(t: string): Option<Regex>
    decreases |t|
  {
    if t == "$" then Some(Empty)
    else
      match ParseAtom(t)
      case None => None
      case Some((cls, n)) =>
        var starred := n < |t| && t[n] == '*';
        match ParseTail(if starred then t[n + 1..] else t[n..])
        case None => None
        case Some(rest) => Some(Cat(if starred then Star(One(cls)) else One(cls), rest))
  }

  function Parse(text: string): Option<Regex> {
    if |text| > 0 && text[0] == '^' then ParseTail(text[1..]) else None
  }

  /** `new RegExp(text).test(url)` for an anchored pattern. */
  predicate Test(text: string, url: string) {
    Parse(text).Some? && Matches(Parse(text).value, url)
  }

  /** An emitted atom parses to itself as long as what follows does not start with `*`. */
  lemma ParseOne(atom: string, rest: string, cls: Class)
    requires ParseAtom(atom + rest) == Some((cls, |atom|)) && atom + rest != "$"
    requires |rest| > 0 && rest[0] != '*' && ParseTail(rest).Some?
    ensures ParseTail(atom + rest) == Some(Cat(One(cls), ParseTail(rest).value))
  {
    assert (atom + rest)[|atom|..] == rest;
  }

  lemma ParseStar(atom: string, rest: string, cls: Class)
    requires ParseAtom(atom + "*" + rest) == Some((cls, |atom|)) && ParseTail(rest).Some?
    ensures ParseTail(atom + "*" + rest) == Some(Cat(Star(One(cls)), ParseTail(rest).value))
  {
    assert (atom + "*" + rest)[|atom| + 1..] == rest;
    assert (atom + "*" + rest)[|atom|] == '*';
    assert |atom + "*" + rest| > 1;
  }
}
