/** Prometheus label text: escaping by three successive replacements, and reading it back. */
module MetricLabels {
  import opened Basics
  import SeqFacts

  datatype Pair = Pair(key: string, value: string)

  // ---- escapeLabel ----

  /** `s.replace(/c/g, with)`. */
  function ReplaceAll(s: string, c: char, with: string): string {
    if s == "" then "" else (if s[0] == c then with else [s[0]]) + ReplaceAll(s[1..], c, with)
  }

  function EscapeLabel(v: string): string {
    ReplaceAll(ReplaceAll(ReplaceAll(v, '\\', "\\\\"), '\"', "\\\""), '\n', "\\n")
  }

  /** One escape per character. */
  function EscapeChar(c: char): string {
    if c == '\\' then "\\\\" else if c == '\"' then "\\\"" else if c == '\n' then "\\n" else [c]
  }

  function EscapeEach(v: string): string {
    if v == "" then "" else EscapeChar(v[0]) + EscapeEach(v[1..])
  }

  lemma {:induction false} ReplaceAppend(a: string, b: string, c: char, with: string)
    ensures ReplaceAll(a + b, c, with) == ReplaceAll(a, c, with) + ReplaceAll(b, c, with)
    decreases |a|
  {
    if a == "" {
      assert a + b == b;
    } else {
      assert (a + b)[1..] == a[1..] + b;
      ReplaceAppend(a[1..], b, c, with);
    }
  }

  lemma ReplaceShort(a: char, b: char, c: char, with: string)
    ensures ReplaceAll([a], c, with) == if a == c then with else [a]
    ensures ReplaceAll([a, b], c, with) == (if a == c then with else [a]) + (if b == c then with else [b])
  {
    assert [a][1..] == "" && [a, b][1..] == [b] && [b][1..] == "";
  }

  /** No replacement touches what an earlier one produced. */
  lemma EscapeOne(c: char)
    ensures EscapeLabel([c]) == EscapeChar(c)
  {
    ReplaceShort(c, c, '\\', "\\\\");
    ReplaceShort(c, c, '\"', "\\\"");
    ReplaceShort(c, c, '\n', "\\n");
    ReplaceShort('\\', '\\', '\"', "\\\"");
    ReplaceShort('\\', '\\', '\n', "\\n");
    ReplaceShort('\\', '\"', '\n', "\\n");
  }

  lemma {:induction false} EscapeAppend(a: string, b: string)
    ensures EscapeLabel(a + b) == EscapeLabel(a) + EscapeLabel(b)
  {
    var a1, b1 := ReplaceAll(a, '\\', "\\\\"), ReplaceAll(b, '\\', "\\\\");
    ReplaceAppend(a, b, '\\', "\\\\");
    ReplaceAppend(a1, b1, '\"', "\\\"");
    ReplaceAppend(ReplaceAll(a1, '\"', "\\\""), ReplaceAll(b1, '\"', "\\\""), '\n', "\\n");
  }

  /** Main result: the three successive replacements are one escape per character. */
  lemma {:induction false} EscapeIsPerCharacter(v: string)
    ensures EscapeLabel(v) == EscapeEach(v)
  {
    if v != "" {
      EscapeOne(v[0]);
      EscapeIsPerCharacter(v[1..]);
      EscapeAppend([v[0]], v[1..]);
      assert [v[0]] + v[1..] == v;
    }
  }

  // ---- formatLabels ----

  function PairText(p: Pair): string { p.key + "=\"" + EscapeLabel(p.value) + "\"" }

  /** `join(',')`. */
  function Joined(labels: seq<Pair>): string
    requires labels != []
  {
    if |labels| == 1 then PairText(labels[0]) else PairText(labels[0]) + "," + Joined(labels[1..])
  }

  function FormatLabels(labels: seq<Pair>): string {
    if labels == [] then "" else "{" + Joined(labels) + "}"
  }

  // ---- reading back ----

  /** The escaped value at the front of `s`, up to its closing quote, and what follows the quote. */
  function ReadValue(s: string): Option<(string, string)>
    decreases |s|
  {
    if s == "" then None
    else if s[0] == '\"' then Some(("", s[1..]))
    else
      var two := s[0] == '\\' && |s| > 1;
      var c := if !two then s[0] else if s[1] == 'n' then '\n' else s[1];
      match ReadValue(if two then s[2..] else s[1..])
      case None => None
      case Some((v, rest)) => Some(([c] + v, rest))
  }

  function KeyEnd(s: string): (n: nat)
    ensures n <= |s|
  {
    if s == "" || s[0] == '=' then 0 else 1 + KeyEnd(s[1..])
  }

  function ReadPairs(s: string): Option<seq<Pair>>
    decreases |s|
  {
    var k := KeyEnd(s);
    if k + 2 > |s| || s[k + 1] != '\"' then None
    else
      match ReadValue(s[k + 2..])
      case None => None
      case Some((v, rest)) =>
        if rest == "}" then Some([Pair(s[..k], v)])
        else if rest == "" || rest[0] != ',' || |rest| >= |s| then None
        else
          match ReadPairs(rest[1..])
          case None => None
          case Some(ps) => Some([Pair(s[..k], v)] + ps)
  }

  function ReadLabels(s: string): Option<seq<Pair>> {
    if s == "" then Some([]) else if s[0] == '{' then ReadPairs(s[1..]) else None
  }

  lemma {:induction false} ReadEscaped(v: string, rest: string)
    ensures ReadValue(EscapeEach(v) + "\"" + rest) == Some((v, rest))
    decreases |v|
  {
    var tail := "\"" + rest;
    if v == "" {
      assert EscapeEach(v) + "\"" + rest == tail && tail[1..] == rest;
    } else {
      var e, more := EscapeChar(v[0]), EscapeEach(v[1..]) + "\"" + rest;
      ReadEscaped(v[1..], rest);
      assert EscapeEach(v) + "\"" + rest == e + more;
      assert (e + more)[|e|..] == more;
      assert [v[0]] + v[1..] == v;
    }
  }

  lemma {:induction false} KeyEndAt(key: string, rest: string)
    requires '=' !in key && rest != "" && rest[0] == '='
    ensures KeyEnd(key + rest) == |key|
  {
    if key == "" {
      assert key + rest == rest;
    } else {
      assert (key + rest)[1..] == key[1..] + rest;
      KeyEndAt(key[1..], rest);
    }
  }

  predicate PlainKeys(labels: seq<Pair>) {
    forall i :: 0 <= i < |labels| ==> '=' !in labels[i].key
  }

  lemma ReadOne(p: Pair, after: string)
    requires '=' !in p.key
    ensures var s, k := PairText(p) + after, |p.key|;
      && KeyEnd(s) == k && k + 2 <= |s| && s[..k] == p.key && s[k + 1] == '\"'
      && ReadValue(s[k + 2..]) == Some((p.value, after)) && |after| < |s|
  {
    var s, k := PairText(p) + after, |p.key|;
    EscapeIsPerCharacter(p.value);
    assert s == p.key + ("=\"" + (EscapeEach(p.value) + "\"" + after));
    KeyEndAt(p.key, "=\"" + (EscapeEach(p.value) + "\"" + after));
    assert s[k + 2..] == EscapeEach(p.value) + "\"" + after;
    ReadEscaped(p.value, after);
  }

  lemma JoinedText(first: string, others: string)
    ensures (first + "," + others) + "}" == first + ("," + (others + "}"))
  {}

  lemma ReadLast(p: Pair)
    requires '=' !in p.key
    ensures ReadPairs(PairText(p) + "}") == Some([p])
  {
    ReadOne(p, "}");
  }

  lemma ReadMore(p: Pair, others: string, ps: seq<Pair>)
    requires '=' !in p.key && ReadPairs(others) == Some(ps)
    ensures ReadPairs(PairText(p) + ("," + others)) == Some([p] + ps)
  {
    var after := "," + others;
    ReadOne(p, after);
    assert after[0] == ',' && after != "}" && after[1..] == others;
  }

  lemma {:induction false} ReadJoined(labels: seq<Pair>)
    requires labels != [] && PlainKeys(labels)
    ensures ReadPairs(Joined(labels) + "}") == Some(labels)
  {
    SeqFacts.Cons(labels);
    if |labels| == 1 {
      assert labels == [labels[0]];
      ReadLast(labels[0]);
    } else {
      ReadJoined(labels[1..]);
      ReadMore(labels[0], Joined(labels[1..]) + "}", labels[1..]);
      JoinedText(PairText(labels[0]), Joined(labels[1..]));
    }
  }

  /** Main result: the text determines the ordered list of keys and values, for keys without `=`. */
  lemma FormatReadsBack(labels: seq<Pair>)
    requires PlainKeys(labels)
    ensures ReadLabels(FormatLabels(labels)) == Some(labels)
  {
    if labels != [] {
      ReadJoined(labels);
      assert FormatLabels(labels)[1..] == Joined(labels) + "}";
    }
  }

  lemma FormatInjective(a: seq<Pair>, b: seq<Pair>)
    requires PlainKeys(a) && PlainKeys(b) && FormatLabels(a) == FormatLabels(b)
    ensures a == b
  {
    FormatReadsBack(a);
    FormatReadsBack(b);
  }

  /** A key with `=` can imitate another list. */
  lemma EqualsInKeyCollides()
    ensures FormatLabels([Pair("a=\"\",b", "")]) == FormatLabels([Pair("a", ""), Pair("b", "")])
  {
    var two := [Pair("a", ""), Pair("b", "")];
    assert two[1..] == [Pair("b", "")];
    assert PairText(two[0]) + "," + PairText(two[1]) == PairText(Pair("a=\"\",b", ""));
  }

  /** The three escapes; any other character stays. */
  lemma EscapeExamples(c: char)
    ensures EscapeLabel("\\") == "\\\\" && EscapeLabel("\"") == "\\\"" && EscapeLabel("\n") == "\\n"
    ensures c != '\\' && c != '\"' && c != '\n' ==> EscapeLabel([c]) == [c]
  {
    EscapeOne('\\');
    EscapeOne('\"');
    EscapeOne('\n');
    EscapeOne(c);
  }

  /** As printed: nothing for no labels; else braces around, quotes around values, commas between. */
  lemma FormatExamples(p: Pair, q: Pair)
    ensures FormatLabels([]) == "" && FormatLabels([Pair("a", "")]) == "{a=\"\"}"
    ensures FormatLabels([p, q]) == "{" + PairText(p) + "," + PairText(q) + "}"
  {
    assert PairText(Pair("a", "")) == "a=\"\"";
    assert [p, q][1..] == [q];
    assert Joined([p, q]) == PairText(p) + "," + PairText(q);
    assert "{" + (PairText(p) + "," + PairText(q)) + "}" == "{" + PairText(p) + "," + PairText(q) + "}";
  }
}
