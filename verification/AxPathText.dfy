/** Index paths such as `0/2/1`: printing, Swift's `split(separator: "/")` and `Int(_:)`. */
module AxPathText {
  import opened Basics
  import opened Decimal

  /** Length of the run before the first slash. */
  function SegmentLength(s: string): (n: nat)
    ensures n <= |s| && '/' !in s[..n]
    ensures n < |s| ==> s[n] == '/'
  {
    if s == "" || s[0] == '/' then 0
    else
      var n := SegmentLength(s[1..]);
      assert s[..n + 1] == [s[0]] + s[1..][..n];
      n + 1
  }

  /** `split` drops empty components. */
  function Split(s: string): seq<string>
    decreases |s|
  {
    if s == "" then []
    else if s[0] == '/' then Split(s[1..])
    else [s[..SegmentLength(s)]] + Split(s[SegmentLength(s)..])
  }

  function Extend(path: string, i: nat): string {
    if path == "" then Print(i) else path + "/" + Print(i)
  }

  function PathOf(ix: seq<nat>): string {
    if ix == [] then "" else Extend(PathOf(ix[..|ix| - 1]), ix[|ix| - 1])
  }

  function Texts(ix: seq<nat>): seq<string> {
    seq(|ix|, i requires 0 <= i < |ix| => Print(ix[i]))
  }

  lemma {:induction false} SegmentAppend(s: string, t: string)
    requires t == "" || t[0] == '/'
    ensures SegmentLength(s + t) == SegmentLength(s)
  {
    if s == "" {
      assert s + t == t;
    } else if s[0] != '/' {
      assert (s + t)[1..] == s[1..] + t;
      SegmentAppend(s[1..], t);
    }
  }

  lemma {:induction false} SplitAppend(s: string, t: string)
    requires t == "" || t[0] == '/'
    ensures Split(s + t) == Split(s) + Split(t)
    decreases |s|
  {
    if s == "" {
      assert s + t == t;
    } else if s[0] == '/' {
      assert (s + t)[1..] == s[1..] + t;
      SplitAppend(s[1..], t);
    } else {
      var n := SegmentLength(s);
      SegmentAppend(s, t);
      assert (s + t)[..n] == s[..n] && (s + t)[n..] == s[n..] + t;
      assert n > 0;
      SplitAppend(s[n..], t);
    }
  }

  lemma SplitSegment(w: string)
    requires w != "" && '/' !in w
    ensures Split(w) == [w]
  {
    var n := SegmentLength(w);
    assert w[n..] == "" && w[..n] == w;
  }

  lemma DigitsHaveNoSlash(w: string)
    requires AllDigits(w)
    ensures '/' !in w
  {}

  /** Splitting a printed path gives back its components. */
  lemma {:induction false} SplitPath(ix: seq<nat>)
    ensures Split(PathOf(ix)) == Texts(ix)
    ensures ix != [] ==> PathOf(ix) != ""
    decreases |ix|
  {
    if ix != [] {
      var n := |ix| - 1;
      var front, w := ix[..n], Print(ix[n]);
      SplitPath(front);
      PrintRoundTrip(ix[n]);
      DigitsHaveNoSlash(w);
      SplitSegment(w);
      assert Texts(ix) == Texts(front) + [w];
      if PathOf(front) != "" {
        assert ("/" + w)[1..] == w;
        assert Split("/" + w) == [w];
        SplitAppend(PathOf(front), "/" + w);
        assert PathOf(front) + "/" + w == PathOf(front) + ("/" + w);
      } else {
        assert front == [];
      }
    }
  }

  const MIN_INT := -0x8000_0000_0000_0000

  /** `Int(text)`: an optional sign and at least one digit; a number below the smallest `Int` is not read. */
  function ParseInt(s: string): Option<int> {
    if s != "" && AllDigits(s) then Some(Value(s))
    else if |s| > 1 && s[0] == '+' && AllDigits(s[1..]) then Some(Value(s[1..]))
    else if |s| > 1 && s[0] == '-' && AllDigits(s[1..]) && MIN_INT <= 0 - Value(s[1..]) then Some(0 - Value(s[1..]))
    else None
  }

  lemma ParsePrint(n: nat)
    ensures ParseInt(Print(n)) == Some(n)
  {
    PrintRoundTrip(n);
  }

  /** Different index paths print differently. */
  lemma PathInjective(a: seq<nat>, b: seq<nat>)
    requires PathOf(a) == PathOf(b)
    ensures a == b
  {
    SplitPath(a);
    SplitPath(b);
    assert |Texts(a)| == |a| && |Texts(b)| == |b|;
    forall i | 0 <= i < |a| ensures a[i] == b[i] {
      assert Texts(a)[i] == Print(a[i]) && Texts(b)[i] == Print(b[i]);
      PrintInjective(a[i], b[i]);
    }
  }

  /** A path as printed. */
  lemma PathExample()
    ensures PathOf([0, 12, 1]) == "0/12/1"
  {
    var ix := [0, 12, 1];
    assert ix[..2] == [0, 12] && ix[..2][..1] == [0] && ix[..2][..1][..0] == [];
    assert Print(12) == Print(1) + "2" == "12";
    assert PathOf([0]) == Extend("", 0) == "0";
    assert PathOf([0, 12]) == Extend("0", 12) == "0/12";
  }

  /** What is read as a number: digits, alone or behind one sign, unless the number is below the smallest `Int`. */
  lemma ParseExactly(d: string)
    requires d != "" && AllDigits(d)
    ensures ParseInt(d) == ParseInt("+" + d) == Some(Value(d))
    ensures ParseInt("-" + d) == if Value(d) <= 0x8000_0000_0000_0000 then Some(0 - Value(d)) else None
  {
    assert ("+" + d)[1..] == d && ("-" + d)[1..] == d;
    assert !IsDigit('+') && !IsDigit('-');
    assert ("+" + d)[0] == '+' && ("-" + d)[0] == '-';
  }

  /** Nothing else is. */
  lemma NothingElseParses(s: string)
    requires ParseInt(s).Some?
    ensures exists d :: d != "" && AllDigits(d) && s in {d, "+" + d, "-" + d}
  {
    if !AllDigits(s) {
      assert s == [s[0]] + s[1..];
      assert s == "+" + s[1..] || s == "-" + s[1..];
    }
  }
}
