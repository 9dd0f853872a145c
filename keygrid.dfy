/** Which entries of the key map appear on the visual keyboard grid: only
    those whose Arabic value is one of the letters of `ArabicKeyOrder`, in the
    map's own iteration order. Function-key entries (Backspace, Enter, space)
    are thereby left off the grid. */
module KeyGrid {
  import opened KeyMaps

  /** The displayable Arabic letters, in keyboard order; "لا" is the one
      two-character entry. */
  const ArabicKeyOrder: seq<string> := [
    "ء", "آ", "ا", "أ", "إ", "ب", "ت", "ث", "ج", "ح", "خ", "د", "ذ", "ر", "ز", "س",
    "ش", "ص", "ض", "ظ", "ط", "ع", "غ", "ف", "ق", "ك", "ل", "م", "ن", "ه", "ة", "و",
    "ؤ", "ي", "ى", "ئ", "لا"]

  /** `arabicKeyOrder.includes(arKey)` */
  predicate OnGrid(e: Entry) { e.1 in ArabicKeyOrder }

  /** The entries shown on the grid, as a filter over the map's entries. */
  function Displayed(s: seq<Entry>): seq<Entry>
  {
    if s == [] then []
    else Displayed(s[..|s| - 1]) + (if OnGrid(s[|s| - 1]) then [s[|s| - 1]] else [])
  }

  /** `r` is `s` with some entries left out and the rest kept in order. */
  predicate IsSubsequence(r: seq<Entry>, s: seq<Entry>)
    decreases |s|
  {
    if r == [] then true
    else if s == [] then false
    else if r[|r| - 1] == s[|s| - 1] then IsSubsequence(r[..|r| - 1], s[..|s| - 1])
    else IsSubsequence(r, s[..|s| - 1])
  }

  /** An entry is shown exactly when it is in the map and its value is a
      displayable letter. */
  lemma {:induction false} DisplayedMembers(s: seq<Entry>)
    ensures forall e :: e in Displayed(s) <==> e in s && OnGrid(e)
  {
    if s != [] {
      var init := s[..|s| - 1];
      DisplayedMembers(init);
      assert s == init + [s[|s| - 1]];
    }
  }

  /** The grid keeps the map's iteration order. */
  lemma {:induction false} DisplayedInOrder(s: seq<Entry>)
    ensures IsSubsequence(Displayed(s), s)
  {
    if s != [] {
      var init, last := s[..|s| - 1], s[|s| - 1];
      DisplayedInOrder(init);
      if OnGrid(last) {
        var d := Displayed(s);
        assert d[..|d| - 1] == Displayed(init);
      } else {
        DisplayedMembers(init);
        var d := Displayed(init);
        assert Displayed(s) == d + [] == d;
        if d != [] {
          assert d[|d| - 1] in d;
          assert d[|d| - 1] != last;
          assert IsSubsequence(d, s) == IsSubsequence(d, init);
        }
      }
    }
  }

  /** Every key appears on the grid at most once. */
  lemma {:induction false} DisplayedUniqueKeys(s: seq<Entry>)
    requires UniqueKeys(s)
    ensures UniqueKeys(Displayed(s))
  {
    if s != [] {
      var init, last := s[..|s| - 1], s[|s| - 1];
      DisplayedUniqueKeys(init);
      DisplayedMembers(init);
      var d := Displayed(init);
      forall i | 0 <= i < |d|
        ensures d[i].0 != last.0
      {
        assert d[i] in init;
      }
    }
  }

  /** Every displayable letter starts with a character of the Arabic block. */
  lemma LettersAreArabic()
    ensures forall k :: 0 <= k < |ArabicKeyOrder| ==> |ArabicKeyOrder[k]| > 0 && '\U{0600}' <= ArabicKeyOrder[k][0] <= '\U{06FF}'
  {
  }

  /** None of the function-key values is a displayable letter. */
  lemma FunctionKeysOffGrid(key: string)
    ensures !OnGrid((key, "Backspace")) && !OnGrid((key, "\n")) && !OnGrid((key, " ")) && !OnGrid((key, ""))
  {
    LettersAreArabic();
  }

  /** The loop of `displayKeyMapping`: walk the entries in order, skip those
      that are not displayable, and collect the rest. */
  method DisplayKeyMapping(m: KeyMap) returns (grid: seq<Entry>)
    ensures grid == Displayed(m)
    ensures forall e :: e in grid <==> e in m && OnGrid(e)
    ensures IsSubsequence(grid, m) && UniqueKeys(grid)
  {
    grid := [];
    for i := 0 to |m|
      invariant grid == Displayed(m[..i])
    {
      assert m[..i + 1][..i] == m[..i];
      if !(m[i].1 in ArabicKeyOrder) {
        continue;
      }
      grid := grid + [m[i]];
    }
    assert m[..|m|] == m;
    DisplayedMembers(m);
    DisplayedInOrder(m);
    DisplayedUniqueKeys(m);
  }
}
