/** The code table: a Python dict from extension characters to decimal codes, kept as its
    list of items in insertion order so that the first-match reverse lookup of
    `get_key_from_value` can be stated. */
module Codes {
  import opened Outcomes

  /** One `key: code` item of the table. */
  type Entry = (string, int)

  /** A dict never holds the same key twice. */
  ghost predicate KeysDistinct(t: seq<Entry>)
  {
    forall i, j :: 0 <= i < j < |t| ==> t[i].0 != t[j].0
  }

  /** The items of a code table in insertion order. Keys are strings because a table loaded
      from JSON may have keys of any length; the built-in table has one-character keys. */
  type CodeTable = t: seq<Entry> | KeysDistinct(t) witness []

  /** No two keys share a code, so the reverse lookup is unambiguous. */
  ghost predicate Injective(t: seq<Entry>)
  {
    forall i, j :: 0 <= i < j < |t| ==> t[i].1 != t[j].1
  }

  /** Every code has exactly two decimal digits, the only codes that survive being written
      as one byte and read back. */
  ghost predicate TwoDigitCodes(t: seq<Entry>)
  {
    forall i :: 0 <= i < |t| ==> 10 <= t[i].1 < 100
  }

  /** Every key is one character, as in the built-in table. */
  ghost predicate SingleCharKeys(t: seq<Entry>)
  {
    forall i :: 0 <= i < |t| ==> |t[i].0| == 1
  }

  /** `code[key]`: the code stored under `key`, or None where Python raises KeyError. */
  function Lookup(t: seq<Entry>, key: string): (r: Option<int>)
    ensures r.None? <==> forall i :: 0 <= i < |t| ==> t[i].0 != key
    ensures r.Some? ==> exists i :: 0 <= i < |t| && t[i] == (key, r.value)
  {
    if |t| == 0 then None
    else if t[0].0 == key then Some(t[0].1)
    else
      var r := Lookup(t[1..], key);
      assert forall i :: 1 <= i < |t| ==> t[i] == t[1..][i - 1];
      r
  }

  /** `get_key_from_value(code, value)`: the first key, in insertion order, whose code is
      `value`, or None if no key has that code. */
  function KeyFor(t: seq<Entry>, value: int): (r: Option<string>)
    ensures r.None? <==> forall i :: 0 <= i < |t| ==> t[i].1 != value
    ensures r.Some? ==>
      exists i :: 0 <= i < |t| && t[i] == (r.value, value) && forall j :: 0 <= j < i ==> t[j].1 != value
  {
    if |t| == 0 then None
    else if t[0].1 == value then Some(t[0].0)
    else
      var r := KeyFor(t[1..], value);
      assert forall i :: 1 <= i < |t| ==> t[i] == t[1..][i - 1];
      r
  }

  /** Looking up the key stored at position `i` finds the code stored with it. */
  lemma LookupAt(t: CodeTable, i: nat)
    requires i < |t|
    ensures Lookup(t, t[i].0) == Some(t[i].1)
  {
    var r := Lookup(t, t[i].0);
    var j :| 0 <= j < |t| && t[j] == (t[i].0, r.value);
    assert j == i;
  }

  /** In a table where no two keys share a code, the reverse lookup of a key's code gives
      back that key. */
  lemma KeyForInvertsLookup(t: CodeTable, key: string)
    requires Injective(t)
    requires Lookup(t, key).Some?
    ensures KeyFor(t, Lookup(t, key).value) == Some(key)
  {
    var code := Lookup(t, key).value;
    var i :| 0 <= i < |t| && t[i] == (key, code);
    var r := KeyFor(t, code);
    assert t[i].1 == code;
    var j :| 0 <= j < |t| && t[j] == (r.value, code) && forall m :: 0 <= m < j ==> t[m].1 != code;
    assert j == i;
  }

  /** The keys of the table used when no code file is given or the given one cannot be
      loaded, one character each, in insertion order. */
  const DefaultKeys: string := "qwertyuioasdfghjklzxcvbnmp0123456789"

  /** The codes of the built-in table: `DefaultCodes[i]` is the code of `DefaultKeys[i]`. */
  const DefaultCodes: seq<int> :=
    [11, 21, 31, 41, 51, 61, 71, 81, 91, 12, 22, 32, 42, 52, 62, 72, 82, 92,
     13, 23, 33, 43, 53, 63, 73, 83, 93, 10, 20, 30, 40, 50, 60, 70, 80, 90]

  /** The items of the built-in table, in insertion order. */
  const DefaultItems: seq<Entry> :=
    seq(|DefaultKeys|, i requires 0 <= i < |DefaultKeys| => ([DefaultKeys[i]], DefaultCodes[i]))

  /** Keys of one character each are distinct when their characters are. */
  lemma SingleCharKeysDistinct(t: seq<Entry>, ks: string)
    requires |t| == |ks|
    requires forall i :: 0 <= i < |t| ==> t[i].0 == [ks[i]]
    requires forall i, j :: 0 <= i < j < |ks| ==> ks[i] != ks[j]
    ensures KeysDistinct(t)
  {
    forall i, j | 0 <= i < j < |t|
      ensures t[i].0 != t[j].0
    {
      assert t[i].0[0] == ks[i] && t[j].0[0] == ks[j];
    }
  }

  /** The built-in table's key characters are all different. */
  lemma DefaultKeyCharsDistinct()
    ensures forall i, j :: 0 <= i < j < |DefaultKeys| ==> DefaultKeys[i] != DefaultKeys[j]
  {
  }

  /** The built-in table's keys are all different, so it is a dict's item list. */
  lemma DefaultKeysDistinct()
    ensures KeysDistinct(DefaultItems)
  {
    DefaultKeyCharsDistinct();
    SingleCharKeysDistinct(DefaultItems, DefaultKeys);
  }

  /** The table used when no code file is given or the given one cannot be loaded. */
  const DefaultTable: CodeTable := (DefaultKeysDistinct(); DefaultItems)

  /** Every built-in code has two decimal digits. */
  lemma DefaultCodesTwoDigit()
    ensures TwoDigitCodes(DefaultItems)
  {
  }

  /** The 36 built-in codes are pairwise distinct. */
  lemma DefaultCodesDistinct()
    ensures forall i, j :: 0 <= i < j < |DefaultCodes| ==> DefaultCodes[i] != DefaultCodes[j]
  {
  }

  /** No two built-in items share a code. */
  lemma DefaultCodesInjective()
    ensures Injective(DefaultItems)
  {
    DefaultCodesDistinct();
  }

  /** Looking up a key of the built-in table finds the code listed for it. */
  lemma DefaultLookup(i: nat)
    requires i < |DefaultKeys|
    ensures Lookup(DefaultTable, [DefaultKeys[i]]) == Some(DefaultCodes[i])
  {
    LookupAt(DefaultTable, i);
  }

  /** The built-in table has 36 one-character keys, its codes all have two decimal digits,
      and no two keys share a code. */
  lemma DefaultTableWellFormed()
    ensures |DefaultTable| == 36
    ensures SingleCharKeys(DefaultTable)
    ensures TwoDigitCodes(DefaultTable)
    ensures Injective(DefaultTable)
  {
    DefaultCodesTwoDigit();
    DefaultCodesInjective();
  }
}
