/** The page's mutable state: the text typed so far (`currentText`), changed
    in place by the key handler and the Clear button. */
module Session {
  import opened KeyMaps
  import opened Transcription
  import opened KeyInfo

  class KeyboardSession {
    var text: string

    constructor ()
      ensures text == ""
    {
      text := "";
    }

    /** `handleKeyPress`: computes the feedback label, then applies the first
        branch that fires (Backspace, Enter, space, a truthy map entry) and
        reports whether the event was consumed. */
    method HandleKeyPress(m: KeyMap, key: string) returns (consumed: bool, info: string)
      modifies this
      ensures info == Label(m, key, key)
      ensures Outcome(text, consumed) == KeyPress(m, key, old(text))
      ensures consumed <==> IsSpecial(key) || Mapped(m, key)
      ensures !consumed ==> text == old(text)
    {
      info := Label(m, key, key);
      consumed := false;
      if key == "backspace" || key == "Backspace" {
        consumed := true;
        if |text| > 0 {
          text := text[..|text| - 1];
        }
      } else if key == "enter" || key == "Enter" {
        consumed := true;
        text := text + "\n";
      } else if key == " " {
        consumed := true;
        text := text + " ";
      } else {
        var value := Lookup(m, key);
        if value.Some? {
          consumed := true;
          text := text + value.value;
        }
      }
    }

    /** `clearText`: on empty text nothing happens and the user is not asked;
        otherwise the text is emptied when the user confirms. `asked` tells
        whether the confirmation dialog was shown, `cleared` whether the text
        was emptied (and the "Text cleared" notice shown). */
    method ClearText(confirmed: bool) returns (asked: bool, cleared: bool)
      modifies this
      ensures text == Clear(old(text), confirmed)
      ensures asked <==> old(text) != ""
      ensures cleared <==> asked && confirmed
      ensures !cleared ==> text == old(text)
    {
      asked, cleared := false, false;
      if |text| == 0 {
        return;
      }
      asked := true;
      if confirmed {
        text := "";
        cleared := true;
      }
    }

    /** The guard of `copyToClipboard`: empty text is never handed to the
        clipboard; otherwise the whole text is. */
    method CopyRequest() returns (r: Option<string>)
      ensures r.None? <==> text == ""
      ensures r.Some? ==> r.value == text
    {
      if |text| == 0 {
        return None;
      }
      r := Some(text);
    }
  }
}
