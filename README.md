# Arabic virtual keyboard: transcription model

This project models the core of a browser page that turns Latin-keyboard key
presses into Arabic text (`script.js`). The page keeps one piece of state,
the text typed so far (`currentText`). Each key press either drops the last
character (Backspace), appends a newline (Enter), appends a space, appends the
Arabic text the key map gives for the key, or does nothing. The press is
consumed (`preventDefault`) exactly when one of those branches fires. The
Clear button empties the text, but only after the user confirms. The page
also shows a feedback label for each key, and a grid listing the map's letter
keys.

Modules:

- `KeyMaps` (`keymap.dfy`): the key map as a sequence of (key, value) entries
  with unique keys. The sequence keeps the object's iteration order. It also
  has property access (`Get`) and the truthiness test `if (arabicKeyMap[key])`
  (`Lookup`, where an empty-string value counts as unmapped).
- `Transcription` (`transcription.dfy`): `KeyPress`, the effect of one key
  press on the text plus whether it was consumed; `Run`, a sequence of key
  presses; `Clear`, the guarded reset; and lemmas that relate them.
- `KeyInfo` (`keyinfo.dfy`): the label computed by `updateKeyInfo`.
- `KeyGrid` (`keygrid.dfy`): the filter of `displayKeyMapping` against
  `arabicKeyOrder`, as a loop and as a specification function.
- `Session` (`session.dfy`): the class `KeyboardSession`. Its field `text` is
  `currentText`, and its methods `HandleKeyPress`, `ClearText` and
  `CopyRequest` change or read it in place. Each method is proved against the
  pure functions above.

The behaviour follows the code. The code has no caret, no selection and no
reverse (Arabic to English) map, and text is only appended or truncated at the
end. Backspace, Enter and space are always handled as editing keys, before
the map is consulted. The label lookup tries `key` and then `displayKey`; the
key handler passes the same string for both.

## Model

| member | source | states |
|---|---|---|
| KeyMaps.Get | script.js:72-74 | property access finds a value exactly when the key has an entry, and the value found is that entry's value |
| KeyMaps.GetEntry | script.js:72-74 | when keys are unique, looking up any entry's key yields that entry's value |
| KeyMaps.Lookup | script.js:72-74 | the truthiness test succeeds exactly when the key's entry holds a non-empty string, and then yields that string |
| Transcription.KeyPress | script.js:54-78 | consumed iff the key is special or has a truthy entry; unconsumed presses leave the text unchanged; Backspace leaves a prefix one character shorter (unchanged on empty text); Enter appends exactly a newline and space exactly a space, whatever the map says; any other key appends its entry's value; only Backspace shortens the text |
| Transcription.RunAppend | script.js:54-78 | handling key presses one after another composes: pressing `a` then `b` gives the same text as pressing `a + b` |
| Transcription.RunWithoutBackspaceExtends | script.js:66-74 | with no Backspace among the keys, the old text stays a prefix of the new text |
| Transcription.RunBackspaces | script.js:61-65 | n Backspaces remove exactly the last n characters, stopping at the empty text |
| Transcription.RunOneCharKeys | script.js:72-74 | typing keys whose entries hold one character each keeps the old text as a prefix and adds one character per key |
| Transcription.DeletingUndoesTyping | script.js:61-74 | typing one-character keys and then pressing Backspace as many times restores the original text |
| Transcription.BackspaceSplitsLamAlef | script.js:61-74 | Backspace removes one character, not one key's output: after typing a key mapped to "لا", one Backspace leaves "ل" |
| Transcription.Clear | script.js:115-125 | the result is either empty or the old text, and it is empty exactly when the text was already empty or the user confirmed |
| Transcription.ClearIdempotent | script.js:115-125 | clearing twice with the same answer equals clearing once; after a confirmed clear, every later clear leaves the text empty |
| KeyInfo.Label | script.js:86-88 | never empty; "Not mapped" when neither key is mapped; "← Delete" for the value "Backspace"; "↵ Enter" for "\n"; otherwise the key's value; the display key is used only when the key is unmapped |
| KeyInfo.LabelAgreesWithKeyPress | script.js:58-75 | an unconsumed key press is always reported as "Not mapped"; a consumed ordinary key is reported under the label of the text it appended |
| KeyGrid.DisplayedMembers | script.js:25-29 | an entry is shown exactly when it is in the map and its value is in `arabicKeyOrder` |
| KeyGrid.DisplayedInOrder | script.js:25-29 | the grid is a subsequence of the map's entries, so it keeps their iteration order |
| KeyGrid.DisplayedUniqueKeys | script.js:25-29 | each key appears on the grid at most once |
| KeyGrid.LettersAreArabic | script.js:9 | every displayable letter is non-empty and starts with a character of the Arabic block |
| KeyGrid.FunctionKeysOffGrid | script.js:26-29 | entries whose values are "Backspace", newline, space or empty are never shown on the grid |
| KeyGrid.DisplayKeyMapping | script.js:22-38 | the loop builds exactly the filtered entries: the displayable ones, in map order, each key once |
| Session.KeyboardSession.constructor | script.js:19 | the text starts empty |
| Session.KeyboardSession.HandleKeyPress | script.js:54-78 | computes the key's label, and sets the new text and the consumed flag to exactly what `KeyPress` gives for the old text |
| Session.KeyboardSession.ClearText | script.js:115-125 | the new text is `Clear(old text, answer)`; the user is asked only when the text is non-empty; the text is cleared only when asked and confirmed |
| Session.KeyboardSession.CopyRequest | script.js:93-99 | empty text is never handed to the clipboard; otherwise the whole current text is |

## Left out

- Loading the key map (`loadArabicKeyMap`, script.js:3-6) is network I/O and JSON parsing. The map is a parameter of every operation instead.
- DOM lookups, the grid's `innerHTML` and `appendChild`, and `updateDisplay` (script.js:12-16, 23, 31-37, 81-83) are presentation only. Only the grid's filter decision is modelled.
- The template string of the feedback line (`Pressed: "…" → "…"`, script.js:89) is presentation. `HandleKeyPress` returns the label that goes into it.
- Event-listener wiring and `init` (script.js:42-51, 128-135) are browser event plumbing and async startup. `Run` stands for a sequence of handled key events.
- `copyToClipboard` (script.js:93-112) uses the clipboard API, promises, `setTimeout` and `alert`. Only its empty-text guard and the text it would copy are modelled, in `CopyRequest`.
- The `confirm` and `alert` dialogs are external. The user's answer is the `confirmed` parameter of `ClearText`.
- `arabicAlphabetOrder2` (script.js:8) is never used.
- JavaScript strings are sequences of UTF-16 code units. The model's text is a sequence of Unicode characters. The two agree for the Arabic letters involved, which all lie in the Basic Multilingual Plane. A character outside that plane would be split in half by `slice(0, -1)`, and the model does not capture that.
- Property lookup on a plain object also finds inherited members (for example `constructor`). The model looks only at the map's own entries, so the case where a key identifier names an `Object.prototype` member is not captured.
- Map values are taken to be strings, as the JSON resource holds. Non-string JSON values and their truthiness are not modelled.
