/** The English-to-Arabic key map: a flat dictionary from a key identifier
    (the browser's `KeyboardEvent.key`, such as "a", "Enter" or "Backspace")
    to the text that key produces. It is a plain object decoded from JSON, so
    its keys are unique and its entries have an iteration order; both are kept
    by modelling it as a sequence of (key, value) entries without repeated keys. */
module KeyMaps {

  datatype Option<+T> = None | Some(value: T)

  /** One entry of the map: (English key identifier, Arabic value). */
  type Entry = (string, string)

  /** No key occurs in two entries. */
  predicate UniqueKeys(m: seq<Entry>) {
    forall i, j :: 0 <= i < j < |m| ==> m[i].0 != m[j].0
  }

  /** A key map in its iteration order. */
  type KeyMap = m: seq<Entry> | UniqueKeys(m) witness []

  /** The key has an entry in the map, whatever its value. */
  ghost predicate HasKey(m: seq<Entry>, key: string) {
    exists i :: 0 <= i < |m| && m[i].0 == key
  }

  /** `m[key]` is truthy: the key has an entry whose value is not the empty string. */
  ghost predicate Mapped(m: seq<Entry>, key: string) {
    exists i :: 0 <= i < |m| && m[i].0 == key && m[i].1 != ""
  }

  /** Property access `m[key]`: the value of the (first) entry for `key`,
      or None when the object has no such property. */
  function Get(m: seq<Entry>, key: string): (r: Option<string>)
    ensures r.None? <==> !HasKey(m, key)
    ensures r.Some? ==> exists i :: 0 <= i < |m| && m[i] == (key, r.value)
  {
    if m == [] then None
    else if m[0].0 == key then Some(m[0].1)
    else
      var r := Get(m[1..], key);
      assert r.Some? ==> exists i :: 0 <= i < |m[1..]| && m[1..][i] == (key, r.value);
      assert HasKey(m[1..], key) ==> HasKey(m, key);
      assert HasKey(m, key) && m[0].0 != key ==> HasKey(m[1..], key) by {
        if HasKey(m, key) && m[0].0 != key {
          var i :| 0 <= i < |m| && m[i].0 == key;
          assert m[1..][i - 1].0 == key;
        }
      }
      r
  }

  /** In a map without repeated keys, looking up an entry's key yields that
      entry's value (the entry `Get` finds can only be that one). */
  lemma GetEntry(m: seq<Entry>, i: nat)
    requires UniqueKeys(m)
    requires i < |m|
    ensures Get(m, m[i].0) == Some(m[i].1)
  {
  }

  /** The truthiness test `if (m[key])` together with the value it found:
      Some(v) exactly when the key's entry holds a non-empty string v. */
  function Lookup(m: KeyMap, key: string): (r: Option<string>)
    ensures r.Some? <==> Mapped(m, key)
    ensures r.Some? ==> r.value != ""
    ensures forall i :: 0 <= i < |m| && m[i].0 == key && m[i].1 != "" ==> r == Some(m[i].1)
  {
    var r := match Get(m, key)
      case Some(v) => if v != "" then Some(v) else None
      case None => None;
    assert forall i :: 0 <= i < |m| && m[i].0 == key ==> Get(m, key) == Some(m[i].1) by {
      forall i | 0 <= i < |m| && m[i].0 == key
        ensures Get(m, key) == Some(m[i].1)
      {
        GetEntry(m, i);
      }
    }
    r
  }
}
