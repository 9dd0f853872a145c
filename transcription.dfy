/** The transcription state machine of the keyboard page: how one key press
    changes the accumulated text, and the guarded reset of that text. The text
    is only ever extended at its end or shortened at its end; there is no caret
    and no selection. */
module Transcription {
  import opened KeyMaps

  predicate IsBackspace(key: string) { key == "backspace" || key == "Backspace" }
  predicate IsEnter(key: string) { key == "enter" || key == "Enter" }
  predicate IsSpace(key: string) { key == " " }

  /** Keys handled before the map is consulted. */
  predicate IsSpecial(key: string) { IsBackspace(key) || IsEnter(key) || IsSpace(key) }

  /** The text after a key press, and whether the press was consumed
      (`preventDefault` was called). */
  datatype Outcome = Outcome(text: string, consumed: bool)

  /** One key press applied to the current text. */
  function KeyPress(m: KeyMap, key: string, text: string): (r: Outcome)
    // the event is consumed exactly when a branch fires
    ensures r.consumed <==> IsSpecial(key) || Mapped(m, key)
    // a key that is not consumed leaves the text alone
    ensures !r.consumed ==> r.text == text
    // Backspace drops exactly the last character, and nothing on empty text
    ensures IsBackspace(key) ==> r.text <= text && |r.text| == if text == "" then 0 else |text| - 1
    // Enter and space append exactly one character, whatever the map says about them
    ensures IsEnter(key) ==> r.text == text + "\n"
    ensures IsSpace(key) ==> r.text == text + " "
    // any other key appends its entry's value (nothing when the value is empty)
    ensures forall i :: 0 <= i < |m| && m[i].0 == key && !IsSpecial(key) ==> r.text == text + m[i].1
    // only Backspace can shorten the text
    ensures !IsBackspace(key) ==> text <= r.text
  {
    if IsBackspace(key) then
      Outcome(if |text| > 0 then text[..|text| - 1] else text, true)
    else if IsEnter(key) then
      Outcome(text + "\n", true)
    else if IsSpace(key) then
      Outcome(text + " ", true)
    else
      match Lookup(m, key)
      case Some(v) => Outcome(text + v, true)
      case None => Outcome(text, false)
  }

  /** The text after pressing `keys` in order, starting from `text`. */
  function Run(m: KeyMap, keys: seq<string>, text: string): string
    decreases |keys|
  {
    if keys == [] then text else Run(m, keys[1..], KeyPress(m, keys[0], text).text)
  }

  /** `n` presses of Backspace. */
  function Backspaces(n: nat): (r: seq<string>)
    ensures |r| == n && forall i :: 0 <= i < n ==> r[i] == "Backspace"
  {
    if n == 0 then [] else Backspaces(n - 1) + ["Backspace"]
  }

  /** Pressing `a` and then `b` is pressing `a + b`. */
  lemma {:induction false} RunAppend(m: KeyMap, a: seq<string>, b: seq<string>, text: string)
    ensures Run(m, a + b, text) == Run(m, b, Run(m, a, text))
    decreases |a|
  {
    if a != [] {
      assert (a + b)[1..] == a[1..] + b;
      RunAppend(m, a[1..], b, KeyPress(m, a[0], text).text);
    } else {
      assert a + b == b;
    }
  }

  /** Without Backspace the text only grows: the old text stays a prefix. */
  lemma {:induction false} RunWithoutBackspaceExtends(m: KeyMap, keys: seq<string>, text: string)
    requires forall i :: 0 <= i < |keys| ==> !IsBackspace(keys[i])
    ensures text <= Run(m, keys, text)
    decreases |keys|
  {
    if keys != [] {
      var next := KeyPress(m, keys[0], text).text;
      RunWithoutBackspaceExtends(m, keys[1..], next);
    }
  }

  /** `n` Backspaces remove the last `n` characters, stopping at the empty text. */
  lemma {:induction false} RunBackspaces(m: KeyMap, n: nat, text: string)
    ensures Run(m, Backspaces(n), text) == text[..if n <= |text| then |text| - n else 0]
  {
    if n > 0 {
      RunBackspaces(m, n - 1, text);
      RunAppend(m, Backspaces(n - 1), ["Backspace"], text);
      var mid := Run(m, Backspaces(n - 1), text);
      assert Run(m, ["Backspace"], mid) == KeyPress(m, "Backspace", mid).text;
    }
  }

  /** A key that is not special and whose entry holds a single character. */
  ghost predicate TypesOneChar(m: KeyMap, key: string) {
    !IsSpecial(key) && exists i :: 0 <= i < |m| && m[i].0 == key && |m[i].1| == 1
  }

  /** Typing keys that each produce one character extends the text by one
      character per key. */
  lemma {:induction false} RunOneCharKeys(m: KeyMap, keys: seq<string>, text: string)
    requires forall i :: 0 <= i < |keys| ==> TypesOneChar(m, keys[i])
    ensures text <= Run(m, keys, text) && |Run(m, keys, text)| == |text| + |keys|
    decreases |keys|
  {
    if keys != [] {
      assert TypesOneChar(m, keys[0]);
      var next := KeyPress(m, keys[0], text).text;
      assert text <= next && |next| == |text| + 1;
      RunOneCharKeys(m, keys[1..], next);
    }
  }

  /** Backspace is the inverse of typing one-character keys: typing `keys` and
      then pressing Backspace as many times restores the text. */
  lemma DeletingUndoesTyping(m: KeyMap, keys: seq<string>, text: string)
    requires forall i :: 0 <= i < |keys| ==> TypesOneChar(m, keys[i])
    ensures Run(m, keys + Backspaces(|keys|), text) == text
  {
    RunAppend(m, keys, Backspaces(|keys|), text);
    RunOneCharKeys(m, keys, text);
    RunBackspaces(m, |keys|, Run(m, keys, text));
  }

  /** Backspace removes one character, not one key's worth of text: after
      typing a key mapped to the two-character "لا", one Backspace leaves "ل". */
  lemma BackspaceSplitsLamAlef(m: KeyMap, key: string, text: string)
    requires !IsSpecial(key)
    requires (key, "لا") in m
    ensures Run(m, [key, "Backspace"], text) == text + "ل"
  {
    var typed := KeyPress(m, key, text).text;
    assert typed == text + "لا";
    assert [key, "Backspace"][1..] == ["Backspace"];
    assert Run(m, [key, "Backspace"], text) == Run(m, ["Backspace"], typed);
    assert Run(m, ["Backspace"], typed) == KeyPress(m, "Backspace", typed).text;
    assert typed[..|typed| - 1] == text + "ل";
  }

  /** The Clear button: nothing on empty text, otherwise the text is emptied
      when the user confirms and kept when they do not. */
  function Clear(text: string, confirmed: bool): (r: string)
    ensures r == "" || r == text
    ensures r == "" <==> text == "" || confirmed
  {
    if |text| == 0 then text
    else if confirmed then ""
    else text
  }

  /** Clearing twice with the same answer is clearing once, and once the text
      has been cleared every later Clear leaves it empty. */
  lemma ClearIdempotent(text: string, confirmed: bool, again: bool)
    ensures Clear(Clear(text, confirmed), confirmed) == Clear(text, confirmed)
    ensures confirmed ==> Clear(Clear(text, confirmed), again) == ""
  {
  }
}
