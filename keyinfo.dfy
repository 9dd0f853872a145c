/** The "Pressed: … → …" feedback line: which Arabic text a key stands for,
    with the two function-key sentinels given readable labels. */
module KeyInfo {
  import opened KeyMaps
  import opened Transcription

  const NotMapped: string := "Not mapped"
  const DeleteLabel: string := "← Delete"
  const EnterLabel: string := "↵ Enter"

  /** How a mapped value is shown: the sentinels "Backspace" and "\n" get a
      label, every other value is shown as it is. */
  function Shown(arabic: string): string
  {
    if arabic == "Backspace" then DeleteLabel
    else if arabic == "\n" then EnterLabel
    else arabic
  }

  /** `m[key] || m[displayKey] || 'Not mapped'`, as shown to the user. */
  function Label(m: KeyMap, key: string, displayKey: string): (r: string)
    ensures r != ""
    ensures !Mapped(m, key) && !Mapped(m, displayKey) ==> r == NotMapped
    ensures forall i :: 0 <= i < |m| && m[i].0 == key && m[i].1 == "Backspace" ==> r == DeleteLabel
    ensures forall i :: 0 <= i < |m| && m[i].0 == key && m[i].1 == "\n" ==> r == EnterLabel
    ensures forall i :: 0 <= i < |m| && m[i].0 == key && m[i].1 !in {"", "Backspace", "\n"} ==> r == m[i].1
    // the display key is consulted only when the key itself is not mapped
    ensures forall i :: 0 <= i < |m| && m[i].0 == displayKey && m[i].1 != "" && !Mapped(m, key) ==> r == Shown(m[i].1)
  {
    var arabic :=
      match Lookup(m, key)
      case Some(v) => v
      case None =>
        match Lookup(m, displayKey)
        case Some(v) => v
        case None => NotMapped;
    Shown(arabic)
  }

  /** The feedback line and the key press agree: a press that is not consumed
      is always reported as "Not mapped", and a consumed press of an ordinary
      key reports the text it appended (under its label). */
  lemma LabelAgreesWithKeyPress(m: KeyMap, key: string, text: string)
    ensures !KeyPress(m, key, text).consumed ==> Label(m, key, key) == NotMapped
    ensures KeyPress(m, key, text).consumed && !IsSpecial(key) ==>
      exists v :: KeyPress(m, key, text).text == text + v && Label(m, key, key) == Shown(v)
  {
    if KeyPress(m, key, text).consumed && !IsSpecial(key) {
      var v := Lookup(m, key).value;
      assert KeyPress(m, key, text).text == text + v;
    }
  }
}
