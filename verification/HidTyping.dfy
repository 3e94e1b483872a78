/** `typeText`: text to bridge commands to ordered key events, against the keyboard of `HidKeyboard`. */
module HidTyping {
  import opened Basics
  import opened HidKeyboard

  datatype HidKey = HidKey(usage: nat, shift: bool)

  /** Printable US-ASCII to a usage and whether Shift must be held. */
  function AsciiToHidKey(ch: char): Option<HidKey> {
    var code := ch as int;
    if code < 0x20 || code > 0x7E then None
    else if code >= 0x61 && code <= 0x7A then Some(HidKey(0x04 + (code - 0x61), false))
    else if code >= 0x41 && code <= 0x5A then Some(HidKey(0x04 + (code - 0x41), true))
    else if code >= 0x31 && code <= 0x39 then Some(HidKey(0x1E + (code - 0x31), false))
    else if code == 0x30 then Some(HidKey(0x27, false))
    else
      match ch
      case ' ' => Some(HidKey(0x2C, false))
      case '-' => Some(HidKey(0x2D, false))
      case '_' => Some(HidKey(0x2D, true))
      case '=' => Some(HidKey(0x2E, false))
      case '+' => Some(HidKey(0x2E, true))
      case '[' => Some(HidKey(0x2F, false))
      case '{' => Some(HidKey(0x2F, true))
      case ']' => Some(HidKey(0x30, false))
      case '}' => Some(HidKey(0x30, true))
      case '\\' => Some(HidKey(0x31, false))
      case '|' => Some(HidKey(0x31, true))
      case ';' => Some(HidKey(0x33, false))
      case ':' => Some(HidKey(0x33, true))
      case '\'' => Some(HidKey(0x34, false))
      case '\"' => Some(HidKey(0x34, true))
      case '`' => Some(HidKey(0x35, false))
      case '~' => Some(HidKey(0x35, true))
      case ',' => Some(HidKey(0x36, false))
      case '<' => Some(HidKey(0x36, true))
      case '.' => Some(HidKey(0x37, false))
      case '>' => Some(HidKey(0x37, true))
      case '/' => Some(HidKey(0x38, false))
      case '?' => Some(HidKey(0x38, true))
      case '!' => Some(HidKey(0x1E, true))
      case '@' => Some(HidKey(0x1F, true))
      case '#' => Some(HidKey(0x20, true))
      case '$' => Some(HidKey(0x21, true))
      case '%' => Some(HidKey(0x22, true))
      case '^' => Some(HidKey(0x23, true))
      case '&' => Some(HidKey(0x24, true))
      case '*' => Some(HidKey(0x25, true))
      case '(' => Some(HidKey(0x26, true))
      case ')' => Some(HidKey(0x27, true))
      case _ => None
  }

  predicate Printable(ch: char) { ' ' <= ch <= '~' }

  /** The table is defined exactly on printable ASCII, and each entry prints its character. */
  lemma TableInvertsLegend(ch: char)
    ensures AsciiToHidKey(ch).Some? <==> Printable(ch)
    ensures AsciiToHidKey(ch).Some? ==>
      var k := AsciiToHidKey(ch).value; !IsModifier(k.usage) && Legend(k.usage, k.shift) == [ch]
  {}

  // ---- the bridge ----

  /** Whether the message for an event can be constructed. */
  type MessageMaker = KeyEvent -> bool

  /** What a keyboard at the other end gets to notice, in order of time. */
  datatype Item = Key(event: KeyEvent) | Pause(ms: int)

  function Items(es: seq<KeyEvent>): seq<Item> {
    seq(|es|, i requires 0 <= i < |es| => Key(es[i]))
  }

  function KeyEvents(usage: nat): seq<KeyEvent> { [Down(usage), Up(usage)] }

  function KeyModEvents(usage: nat, modUsage: nat): seq<KeyEvent> {
    [Down(modUsage), Down(usage), Up(usage), Up(modUsage)]
  }

  predicate AllMade(es: seq<KeyEvent>, makes: MessageMaker) {
    forall i :: 0 <= i < |es| ==> makes(es[i])
  }

  /** Events go out until the first one whose message cannot be made. */
  function SendWhileMade(es: seq<KeyEvent>, makes: MessageMaker): seq<KeyEvent> {
    if es == [] || !makes(es[0]) then [] else [es[0]] + SendWhileMade(es[1..], makes)
  }

  lemma SendStep(e: KeyEvent, rest: seq<KeyEvent>, makes: MessageMaker)
    ensures SendWhileMade([e] + rest, makes) == if makes(e) then [e] + SendWhileMade(rest, makes) else []
  {
    assert ([e] + rest)[1..] == rest;
  }

  lemma SendTwo(a: KeyEvent, b: KeyEvent, makes: MessageMaker)
    ensures SendWhileMade([a, b], makes) == if !makes(a) then [] else if !makes(b) then [a] else [a, b]
    ensures AllMade([a, b], makes) <==> makes(a) && makes(b)
  {
    SendStep(a, [b], makes);
    SendStep(b, [], makes);
    assert [a] + [b] == [a, b] && [b] + [] == [b];
    assert [a, b][0] == a && [a, b][1] == b;
  }

  lemma SendFour(a: KeyEvent, b: KeyEvent, c: KeyEvent, d: KeyEvent, makes: MessageMaker)
    ensures SendWhileMade([a, b, c, d], makes) ==
      if !makes(a) then [] else if !makes(b) then [a] else if !makes(c) then [a, b] else if !makes(d) then [a, b, c] else [a, b, c, d]
    ensures AllMade([a, b, c, d], makes) <==> makes(a) && makes(b) && makes(c) && makes(d)
  {
    SendTwo(c, d, makes);
    SendStep(b, [c, d], makes);
    SendStep(a, [b, c, d], makes);
    assert [b] + [c, d] == [b, c, d] && [a] + [b, c, d] == [a, b, c, d];
    var es := [a, b, c, d];
    assert es[0] == a && es[1] == b && es[2] == c && es[3] == d;
  }

  /** The HID client of the bridge process, with all that has gone over its line so far. */
  class HidClient {
    var sent: seq<Item>

    constructor ()
      ensures sent == []
    {
      sent := [];
    }

    method SleepFor(ms: int)
      modifies this
      ensures sent == old(sent) + [Pause(ms)]
    {
      sent := sent + [Pause(ms)];
    }

    method Send(e: KeyEvent)
      modifies this
      ensures sent == old(sent) + [Key(e)]
    {
      sent := sent + [Key(e)];
    }

    method ExecKey(usage: nat, makes: MessageMaker) returns (ok: bool)
      modifies this
      ensures sent == old(sent) + Items(SendWhileMade(KeyEvents(usage), makes))
      ensures ok == AllMade(KeyEvents(usage), makes)
    {
      SendTwo(Down(usage), Up(usage), makes);
      if !makes(Down(usage)) { return false; }
      Send(Down(usage));
      if !makes(Up(usage)) { return false; }
      Send(Up(usage));
      return true;
    }

    method ExecKeyMod(usage: nat, modUsage: nat, makes: MessageMaker) returns (ok: bool)
      modifies this
      ensures sent == old(sent) + Items(SendWhileMade(KeyModEvents(usage, modUsage), makes))
      ensures ok == AllMade(KeyModEvents(usage, modUsage), makes)
    {
      SendFour(Down(modUsage), Down(usage), Up(usage), Up(modUsage), makes);
      if !makes(Down(modUsage)) { return false; }
      Send(Down(modUsage));
      if !makes(Down(usage)) { return false; }
      Send(Down(usage));
      if !makes(Up(usage)) { return false; }
      Send(Up(usage));
      if !makes(Up(modUsage)) { return false; }
      Send(Up(modUsage));
      return true;
    }
  }

  function EventsFor(k: HidKey): seq<KeyEvent> {
    if k.shift then KeyModEvents(k.usage, LEFT_SHIFT) else KeyEvents(k.usage)
  }

  // ---- typeText ----

  datatype TypeResult = Done | UnsupportedCharacter | BridgeFailed

  /** The bridge: `starts(n)` says whether the process for the n-th character comes up. */
  datatype Bridge = Bridge(starts: nat -> bool, makes: MessageMaker)

  /** Typing from the i-th character on. */
  function TypeFrom(w: seq<Item>, text: string, i: nat, delayMs: int, b: Bridge): (seq<Item>, TypeResult)
    requires i <= |text|
    decreases |text| - i
  {
    if i == |text| then (w, Done)
    else
      match AsciiToHidKey(text[i])
      case None => (w, UnsupportedCharacter)
      case Some(k) =>
        var w1 := if i > 0 && delayMs > 0 then w + [Pause(delayMs)] else w;
        if !b.starts(i) then (w1, BridgeFailed)
        else
          var w2 := w1 + Items(SendWhileMade(EventsFor(k), b.makes));
          if AllMade(EventsFor(k), b.makes) then TypeFrom(w2, text, i + 1, delayMs, b) else (w2, BridgeFailed)
  }

  class HidBackend {
    const client: HidClient

    constructor ()
      ensures fresh(client) && client.sent == []
    {
      client := new HidClient();
    }

    method TypeText(text: string, delayMs: int, b: Bridge) returns (r: TypeResult)
      modifies client
      ensures (client.sent, r) == TypeFrom(old(client.sent), text, 0, delayMs, b)
    {
      var first := true;
      for i := 0 to |text|
        invariant first <==> i == 0
        invariant TypeFrom(client.sent, text, i, delayMs, b) == TypeFrom(old(client.sent), text, 0, delayMs, b)
      {
        var key := AsciiToHidKey(text[i]);
        if key.None? { return UnsupportedCharacter; }
        if !first && delayMs > 0 {
          client.SleepFor(delayMs);
        }
        first := false;
        if !b.starts(i) { return BridgeFailed; }
        var ok;
        if key.value.shift {
          ok := client.ExecKeyMod(key.value.usage, LEFT_SHIFT, b.makes);
        } else {
          ok := client.ExecKey(key.value.usage, b.makes);
        }
        if !ok { return BridgeFailed; }
      }
      return Done;
    }
  }

  /** The key events among the items. */
  function Keys(w: seq<Item>): seq<KeyEvent> {
    if w == [] then [] else Keys(w[..|w| - 1]) + if w[|w| - 1].Key? then [w[|w| - 1].event] else []
  }

  lemma KeysPause(w: seq<Item>, ms: int)
    ensures Keys(w + [Pause(ms)]) == Keys(w)
  {
    assert (w + [Pause(ms)])[..|w|] == w;
  }

  lemma {:induction false} KeysItems(w: seq<Item>, es: seq<KeyEvent>)
    ensures Keys(w + Items(es)) == Keys(w) + es
  {
    if es == [] {
      assert w + Items(es) == w;
    } else {
      var n := |es| - 1;
      KeysItems(w, es[..n]);
      assert Items(es) == Items(es[..n]) + [Key(es[n])];
      assert (w + Items(es))[..|w + Items(es)| - 1] == w + Items(es[..n]);
      assert es == es[..n] + [es[n]];
    }
  }

  // ---- what the keyboard makes of it ----

  /** The end of the printable run that starts at `i`. */
  function PrintableEnd(text: string, i: nat): (n: nat)
    requires i <= |text|
    ensures i <= n <= |text|
    ensures forall j :: i <= j < n ==> Printable(text[j])
    ensures n < |text| ==> !Printable(text[n])
    decreases |text| - i
  {
    if i == |text| || !Printable(text[i]) then i else PrintableEnd(text, i + 1)
  }

  /** Nothing stays held after a command unless its first message went out and a later one failed. */
  predicate Releases(key: HidKey, makes: MessageMaker) {
    !makes(EventsFor(key)[0]) || AllMade(EventsFor(key), makes)
  }

  lemma FeedTwo(k: Keyboard, a: KeyEvent, b: KeyEvent)
    ensures Feed(k, []) == k && Feed(k, [a]) == Press(k, a) && Feed(k, [a, b]) == Press(Press(k, a), b)
  {
    FeedOne(k, a, []);
    FeedOne(Press(k, a), b, []);
    FeedOne(k, a, [b]);
    assert [a] + [] == [a] && [b] + [] == [b] && [a] + [b] == [a, b];
  }

  lemma PlainCommand(kb: Keyboard, key: HidKey, makes: MessageMaker)
    requires kb.held == {} && !key.shift && !IsModifier(key.usage)
    ensures var k' := Feed(kb, SendWhileMade(EventsFor(key), makes));
      && (k'.held == {} <==> Releases(key, makes))
      && k'.text == kb.text + if makes(Down(key.usage)) then Legend(key.usage, false) else ""
  {
    var d, u := Down(key.usage), Up(key.usage);
    SendTwo(d, u, makes);
    FeedTwo(kb, d, u);
  }

  lemma ShiftedCommand(kb: Keyboard, key: HidKey, makes: MessageMaker)
    requires kb.held == {} && key.shift && !IsModifier(key.usage)
    ensures var k' := Feed(kb, SendWhileMade(EventsFor(key), makes));
      && (k'.held == {} <==> Releases(key, makes))
      && k'.text == kb.text + if makes(Down(LEFT_SHIFT)) && makes(Down(key.usage)) then Legend(key.usage, true) else ""
  {
    var md, d, u, mu := Down(LEFT_SHIFT), Down(key.usage), Up(key.usage), Up(LEFT_SHIFT);
    var k2 := Press(Press(kb, md), d);
    SendFour(md, d, u, mu, makes);
    FeedTwo(kb, md, d);
    FeedTwo(k2, u, mu);
    FeedAppend(kb, [md, d], [u]);
    FeedAppend(kb, [md, d], [u, mu]);
    assert [md, d] + [u] == [md, d, u] && [md, d] + [u, mu] == [md, d, u, mu];
  }

  /** One character's command: it prints the character or nothing, and exactly when a message fails
      after the first one has gone out does a key stay held. */
  lemma CommandExactly(kb: Keyboard, ch: char, makes: MessageMaker)
    requires kb.held == {} && Printable(ch)
    ensures AsciiToHidKey(ch).Some?
    ensures var key := AsciiToHidKey(ch).value;
      var k' := Feed(kb, SendWhileMade(EventsFor(key), makes));
      && (k'.held == {} <==> Releases(key, makes))
      && (k'.text == kb.text || k'.text == kb.text + [ch])
      && (AllMade(EventsFor(key), makes) ==> k' == Keyboard({}, kb.text + [ch]))
  {
    TableInvertsLegend(ch);
    var key := AsciiToHidKey(ch).value;
    if key.shift {
      ShiftedCommand(kb, key, makes);
    } else {
      PlainCommand(kb, key, makes);
    }
    if AllMade(EventsFor(key), makes) {
      assert makes(EventsFor(key)[0]) && makes(EventsFor(key)[1]);
    }
  }

  ghost predicate Healthy(b: Bridge) {
    (forall n :: b.starts(n)) && (forall e :: b.makes(e))
  }

  /** What ending with `r` means for the keyboard, typing from the i-th character at state `k`. */
  ghost predicate Printed(k: Keyboard, k': Keyboard, text: string, i: nat, r: TypeResult)
    requires i <= |text|
  {
    var n := PrintableEnd(text, i);
    match r
    case Done => n == |text| && k' == Keyboard({}, k.text + text[i..])
    case UnsupportedCharacter => n < |text| && k' == Keyboard({}, k.text + text[i..n])
    case BridgeFailed => exists m :: i <= m <= n && k'.text == k.text + text[i..m]
  }

  lemma PrintedStep(k: Keyboard, k1: Keyboard, k': Keyboard, text: string, i: nat, r: TypeResult)
    requires i < |text| && Printable(text[i]) && k1.text == k.text + [text[i]]
    requires Printed(k1, k', text, i + 1, r)
    ensures Printed(k, k', text, i, r)
  {
    assert text[i..] == [text[i]] + text[i + 1..];
    forall m | i + 1 <= m <= |text| ensures k1.text + text[i + 1..m] == k.text + text[i..m] {
      assert text[i..m] == [text[i]] + text[i + 1..m];
    }
    if r == BridgeFailed {
      var m :| i + 1 <= m <= PrintableEnd(text, i + 1) && k'.text == k1.text + text[i + 1..m];
      assert k'.text == k.text + text[i..m];
    }
  }

  lemma PrintedStop(k: Keyboard, k': Keyboard, text: string, i: nat)
    requires i < |text| && Printable(text[i])
    requires k'.text == k.text || k'.text == k.text + [text[i]]
    ensures Printed(k, k', text, i, BridgeFailed)
  {
    assert k.text + text[i..i] == k.text && text[i..i + 1] == [text[i]];
  }

  function AfterCommand(w: seq<Item>, key: HidKey, i: nat, delayMs: int, b: Bridge): seq<Item> {
    (if i > 0 && delayMs > 0 then w + [Pause(delayMs)] else w) + Items(SendWhileMade(EventsFor(key), b.makes))
  }

  lemma CommandKeys(w: seq<Item>, key: HidKey, i: nat, delayMs: int, b: Bridge)
    ensures Keys(AfterCommand(w, key, i, delayMs, b)) == Keys(w) + SendWhileMade(EventsFor(key), b.makes)
    ensures Keys(w + [Pause(delayMs)]) == Keys(w)
  {
    KeysPause(w, delayMs);
    KeysItems(w, SendWhileMade(EventsFor(key), b.makes));
    KeysItems(w + [Pause(delayMs)], SendWhileMade(EventsFor(key), b.makes));
  }

  lemma TypingPrintsOne(kb: Keyboard, w: seq<Item>, text: string, i: nat, delayMs: int, b: Bridge)
    requires i < |text| && Feed(kb, Keys(w)).held == {} && Printable(text[i])
    ensures AsciiToHidKey(text[i]).Some?
    ensures var key, k := AsciiToHidKey(text[i]).value, Feed(kb, Keys(w));
      var w2 := AfterCommand(w, key, i, delayMs, b);
      if b.starts(i) && AllMade(EventsFor(key), b.makes) then
        && Feed(kb, Keys(w2)) == Keyboard({}, k.text + [text[i]])
        && TypeFrom(w, text, i, delayMs, b) == TypeFrom(w2, text, i + 1, delayMs, b)
      else
        && TypeFrom(w, text, i, delayMs, b).1 == BridgeFailed
        && Printed(k, Feed(kb, Keys(TypeFrom(w, text, i, delayMs, b).0)), text, i, BridgeFailed)
  {
    var k := Feed(kb, Keys(w));
    CommandExactly(k, text[i], b.makes);
    var key := AsciiToHidKey(text[i]).value;
    CommandKeys(w, key, i, delayMs, b);
    FeedAppend(kb, Keys(w), SendWhileMade(EventsFor(key), b.makes));
    PrintedStop(k, k, text, i);
    if !AllMade(EventsFor(key), b.makes) {
      PrintedStop(k, Feed(kb, Keys(AfterCommand(w, key, i, delayMs, b))), text, i);
    }
  }

  /** Main result, for every text and every bridge: success means the keyboard printed the whole text;
      an unsupported character means it printed exactly the longest printable prefix, which is not the
      whole text; in both cases no key or modifier stays held. A failing bridge prints some prefix of
      that prefix, and a healthy bridge never fails. */
  lemma {:induction false} TypingPrints(kb: Keyboard, w: seq<Item>, text: string, i: nat, delayMs: int, b: Bridge)
    requires i <= |text| && Feed(kb, Keys(w)).held == {}
    ensures var (w', r) := TypeFrom(w, text, i, delayMs, b);
      Printed(Feed(kb, Keys(w)), Feed(kb, Keys(w')), text, i, r) && (Healthy(b) ==> r != BridgeFailed)
    decreases |text| - i
  {
    var k := Feed(kb, Keys(w));
    if i == |text| {
      assert k.text + text[i..] == k.text;
    } else {
      TableInvertsLegend(text[i]);
      if Printable(text[i]) {
        TypingPrintsOne(kb, w, text, i, delayMs, b);
        var key := AsciiToHidKey(text[i]).value;
        if b.starts(i) && AllMade(EventsFor(key), b.makes) {
          var w2 := AfterCommand(w, key, i, delayMs, b);
          TypingPrints(kb, w2, text, i + 1, delayMs, b);
          PrintedStep(k, Feed(kb, Keys(w2)), Feed(kb, Keys(TypeFrom(w2, text, i + 1, delayMs, b).0)), text, i,
                      TypeFrom(w2, text, i + 1, delayMs, b).1);
        }
      } else {
        assert k.text + text[i..i] == k.text;
      }
    }
  }

  /** The usual case: from an idle keyboard, through a healthy bridge. */
  lemma TypeTextRoundTrip(text: string, delayMs: int, b: Bridge)
    requires Healthy(b)
    ensures var (w, r) := TypeFrom([], text, 0, delayMs, b);
      && Feed(Keyboard({}, ""), Keys(w)) == Keyboard({}, text[..PrintableEnd(text, 0)])
      && (r == Done <==> PrintableEnd(text, 0) == |text|)
      && (r == UnsupportedCharacter <==> PrintableEnd(text, 0) < |text|)
  {
    TypingPrints(Keyboard({}, ""), [], text, 0, delayMs, b);
    var n := PrintableEnd(text, 0);
    assert text[0..] == text == text[..|text|] && text[0..n] == text[..n];
  }

  // ---- pauses ----

  function Join(parts: seq<seq<Item>>, separator: seq<Item>): seq<Item> {
    if parts == [] then []
    else
      var n := |parts| - 1;
      if n == 0 then parts[0] else Join(parts[..n], separator) + separator + parts[n]
  }

  /** The full command of each character from `i` up to `n`. */
  function Commands(text: string, n: nat): seq<seq<Item>>
    requires n <= |text| && forall j :: 0 <= j < n ==> AsciiToHidKey(text[j]).Some?
  {
    seq(n, j requires 0 <= j < n => Items(EventsFor(AsciiToHidKey(text[j]).value)))
  }

  lemma PrintableMapped(text: string, n: nat)
    requires n <= PrintableEnd(text, 0)
    ensures forall j :: 0 <= j < n ==> AsciiToHidKey(text[j]).Some?
  {
    forall j | 0 <= j < n ensures AsciiToHidKey(text[j]).Some? {
      TableInvertsLegend(text[j]);
    }
  }

  lemma {:induction false} SentIsPrefix(es: seq<KeyEvent>, makes: MessageMaker)
    ensures SendWhileMade(es, makes) <= es
    ensures AllMade(es, makes) ==> SendWhileMade(es, makes) == es
  {
    if es != [] {
      SentIsPrefix(es[1..], makes);
    }
  }

  function Separator(delayMs: int): seq<Item> {
    if delayMs > 0 then [Pause(delayMs)] else []
  }

  /** The commands of the first `n` characters with a pause between any two. */
  function Spaced(text: string, n: nat, delayMs: int): seq<Item>
    requires n <= |text| && forall j :: 0 <= j < n ==> AsciiToHidKey(text[j]).Some?
  {
    Join(Commands(text, n), Separator(delayMs))
  }

  lemma SpacedStep(text: string, i: nat, delayMs: int)
    requires i < |text| && forall j :: 0 <= j <= i ==> AsciiToHidKey(text[j]).Some?
    ensures var gap := if i > 0 then Separator(delayMs) else [];
      Spaced(text, i + 1, delayMs) == Spaced(text, i, delayMs) + gap + Items(EventsFor(AsciiToHidKey(text[i]).value))
  {
    assert Commands(text, i + 1)[..i] == Commands(text, i);
  }

  lemma {:induction false} SpacedGrows(text: string, i: nat, n: nat, delayMs: int)
    requires i <= n <= |text| && forall j :: 0 <= j < n ==> AsciiToHidKey(text[j]).Some?
    ensures Spaced(text, i, delayMs) <= Spaced(text, n, delayMs)
    decreases n - i
  {
    if i < n {
      SpacedStep(text, i, delayMs);
      SpacedGrows(text, i + 1, n, delayMs);
    }
  }

  lemma ItemsPrefix(a: seq<KeyEvent>, b: seq<KeyEvent>)
    requires a <= b
    ensures Items(a) <= Items(b)
  {}

  /** One command, cut short or complete, after the commands of the first `i` characters. */
  lemma CommandSpaced(text: string, i: nat, delayMs: int, b: Bridge)
    requires i < |text| && forall j :: 0 <= j <= i ==> AsciiToHidKey(text[j]).Some?
    ensures var key, w := AsciiToHidKey(text[i]).value, Spaced(text, i, delayMs);
      && (if i > 0 && delayMs > 0 then w + [Pause(delayMs)] else w) <= Spaced(text, i + 1, delayMs)
      && AfterCommand(w, key, i, delayMs, b) <= Spaced(text, i + 1, delayMs)
      && (AllMade(EventsFor(key), b.makes) ==> AfterCommand(w, key, i, delayMs, b) == Spaced(text, i + 1, delayMs))
  {
    var key := AsciiToHidKey(text[i]).value;
    SpacedStep(text, i, delayMs);
    SentIsPrefix(EventsFor(key), b.makes);
    ItemsPrefix(SendWhileMade(EventsFor(key), b.makes), EventsFor(key));
  }

  lemma TypeOnce(w: seq<Item>, text: string, i: nat, delayMs: int, b: Bridge)
    requires i < |text| && AsciiToHidKey(text[i]).Some?
    ensures var key := AsciiToHidKey(text[i]).value;
      TypeFrom(w, text, i, delayMs, b) ==
        if !b.starts(i) then (if i > 0 && delayMs > 0 then w + [Pause(delayMs)] else w, BridgeFailed)
        else if AllMade(EventsFor(key), b.makes) then TypeFrom(AfterCommand(w, key, i, delayMs, b), text, i + 1, delayMs, b)
        else (AfterCommand(w, key, i, delayMs, b), BridgeFailed)
  {}

  lemma PrefixTrans<T>(a: seq<T>, b: seq<T>, c: seq<T>)
    requires a <= b <= c
    ensures a <= c
  {}

  lemma TypeEnds(w: seq<Item>, text: string, delayMs: int, b: Bridge)
    ensures var n := PrintableEnd(text, 0);
      TypeFrom(w, text, n, delayMs, b) == (w, if n == |text| then Done else UnsupportedCharacter)
  {
    if PrintableEnd(text, 0) < |text| {
      TableInvertsLegend(text[PrintableEnd(text, 0)]);
    }
  }

  lemma TypingStops(text: string, i: nat, delayMs: int, b: Bridge)
    requires i < |text| && forall j :: 0 <= j <= i ==> AsciiToHidKey(text[j]).Some?
    requires !(b.starts(i) && AllMade(EventsFor(AsciiToHidKey(text[i]).value), b.makes))
    ensures var (w, r) := TypeFrom(Spaced(text, i, delayMs), text, i, delayMs, b);
      w <= Spaced(text, i + 1, delayMs) && r == BridgeFailed
  {
    TypeOnce(Spaced(text, i, delayMs), text, i, delayMs, b);
    CommandSpaced(text, i, delayMs, b);
  }

  lemma {:induction false} TypingSpaced(text: string, i: nat, n: nat, delayMs: int, b: Bridge)
    requires i <= n == PrintableEnd(text, 0) && forall j :: 0 <= j < n ==> AsciiToHidKey(text[j]).Some?
    ensures var (w, r) := TypeFrom(Spaced(text, i, delayMs), text, i, delayMs, b);
      w <= Spaced(text, n, delayMs) && (r != BridgeFailed ==> w == Spaced(text, n, delayMs))
    decreases n - i
  {
    if i == n {
      TypeEnds(Spaced(text, n, delayMs), text, delayMs, b);
    } else if b.starts(i) && AllMade(EventsFor(AsciiToHidKey(text[i]).value), b.makes) {
      TypeOnce(Spaced(text, i, delayMs), text, i, delayMs, b);
      CommandSpaced(text, i, delayMs, b);
      TypingSpaced(text, i + 1, n, delayMs, b);
    } else {
      TypingStops(text, i, delayMs, b);
      SpacedGrows(text, i + 1, n, delayMs);
      PrefixTrans(TypeFrom(Spaced(text, i, delayMs), text, i, delayMs, b).0, Spaced(text, i + 1, delayMs), Spaced(text, n, delayMs));
    }
  }

  /** For every text and bridge: what goes out is the commands of the printable prefix, in order, with the delay (if
      positive) between any two consecutive ones and nowhere else; a failing bridge cuts this
      short, and nothing else does. */
  lemma PausesBetween(text: string, delayMs: int, b: Bridge)
    ensures forall j :: 0 <= j < PrintableEnd(text, 0) ==> AsciiToHidKey(text[j]).Some?
    ensures var (w, r) := TypeFrom([], text, 0, delayMs, b);
      var full := Join(Commands(text, PrintableEnd(text, 0)), if delayMs > 0 then [Pause(delayMs)] else []);
      w <= full && (r != BridgeFailed ==> w == full)
  {
    PrintableMapped(text, PrintableEnd(text, 0));
    assert Commands(text, 0) == [] && Spaced(text, 0, delayMs) == [];
    TypingSpaced(text, 0, PrintableEnd(text, 0), delayMs, b);
  }

  /** Some commands as they go out: usage 4 is the key A, usage 0x1E the key 1, and 0xE1 the left Shift around a key. */
  lemma CommandExamples()
    ensures EventsFor(AsciiToHidKey('a').value) == [Down(4), Up(4)]
    ensures EventsFor(AsciiToHidKey('A').value) == [Down(0xE1), Down(4), Up(4), Up(0xE1)]
    ensures EventsFor(AsciiToHidKey('!').value) == [Down(0xE1), Down(0x1E), Up(0x1E), Up(0xE1)]
    ensures EventsFor(AsciiToHidKey('0').value) == [Down(0x27), Up(0x27)]
  {}
}
