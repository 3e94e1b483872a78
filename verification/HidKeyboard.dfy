/** A US keyboard as seen by the receiving side: USB HID Usage Tables, section 10
    (Keyboard/Keypad page). Key events go in, typed text comes out. */
module HidKeyboard {

  datatype KeyEvent = Down(usage: nat) | Up(usage: nat)

  datatype Keyboard = Keyboard(held: set<nat>, text: string)

  const LEFT_SHIFT := 0xE1
  const RIGHT_SHIFT := 0xE5

  predicate IsModifier(u: nat) { 0xE0 <= u <= 0xE7 }

  predicate ShiftHeld(held: set<nat>) { LEFT_SHIFT in held || RIGHT_SHIFT in held }

  /** The character a usage produces; the empty string for keys that print nothing. */
  function Legend(u: nat, shift: bool): string {
    if 0x04 <= u <= 0x1D then [(u - 0x04 + (if shift then 'A' else 'a') as int) as char]
    else if 0x1E <= u <= 0x27 then [(if shift then "!@#$%^&*()" else "1234567890")[u - 0x1E]]
    else if 0x2C <= u <= 0x31 then [(if shift then " _+{}|" else " -=[]\\")[u - 0x2C]]
    else if 0x33 <= u <= 0x38 then [(if shift then ":\"~<>?" else ";'`,./")[u - 0x33]]
    else ""
  }

  /** A key prints when it goes down, not while it is already down. */
  function Press(k: Keyboard, e: KeyEvent): Keyboard {
    match e
    case Down(u) =>
      if u in k.held then k
      else Keyboard(k.held + {u}, if IsModifier(u) then k.text else k.text + Legend(u, ShiftHeld(k.held)))
    case Up(u) => k.(held := k.held - {u})
  }

  function Feed(k: Keyboard, es: seq<KeyEvent>): Keyboard
    decreases |es|
  {
    if es == [] then k else Feed(Press(k, es[0]), es[1..])
  }

  lemma {:induction false} FeedAppend(k: Keyboard, a: seq<KeyEvent>, b: seq<KeyEvent>)
    ensures Feed(k, a + b) == Feed(Feed(k, a), b)
    decreases |a|
  {
    if a == [] {
      assert a + b == b;
    } else {
      assert (a + b)[1..] == a[1..] + b;
      FeedAppend(Press(k, a[0]), a[1..], b);
    }
  }

  /** Unfolds a feed of up to four events. */
  lemma FeedOne(k: Keyboard, e: KeyEvent, rest: seq<KeyEvent>)
    ensures Feed(k, [e] + rest) == Feed(Press(k, e), rest)
  {
    assert ([e] + rest)[1..] == rest;
  }
}
