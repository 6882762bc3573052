/** The values a YAML document loads into, and the Python `dict` operations
    the configuration code performs on them. */
module Values {
  import opened Wrappers
  import opened Strings

  /** A loaded YAML value. A mapping keeps its entries in insertion order,
      as a Python `dict` does. */
  datatype Value =
    | VNull
    | VBool(b: bool)
    | VInt(i: int)
    | VStr(s: string)
    | VList(items: seq<Value>)
    | VMap(entries: seq<(string, Value)>)

  type Entries = seq<(string, Value)>

  /** What reading a file gives: no file, a read error, or its text. */
  datatype Source = Missing | Unreadable | Contents(text: string)

  // ---------------------------------------------------------------------------
  // Mappings as entry lists
  // ---------------------------------------------------------------------------

  function Keys(entries: Entries): set<string> {
    set k | 0 <= k < |entries| :: entries[k].0
  }

  lemma KeysCons(e: (string, Value), tail: Entries)
    ensures Keys([e] + tail) == {e.0} + Keys(tail)
  {
    var r := [e] + tail;
    assert r[0] == e;
    forall k | k in Keys(r) ensures k in {e.0} + Keys(tail) {
      var i :| 0 <= i < |r| && r[i].0 == k;
      if i > 0 { assert r[i] == tail[i - 1]; }
    }
    forall k | k in Keys(tail) ensures k in Keys(r) {
      var i :| 0 <= i < |tail| && tail[i].0 == k;
      assert r[i + 1] == tail[i];
    }
  }

  lemma KeysSplit(entries: Entries)
    requires |entries| > 0
    ensures Keys(entries) == {entries[0].0} + Keys(entries[1..])
  {
    KeysCons(entries[0], entries[1..]);
    assert [entries[0]] + entries[1..] == entries;
  }

  /** No key appears twice, which holds of every Python `dict`. */
  predicate UniqueKeys(entries: Entries) {
    forall i, j :: 0 <= i < j < |entries| ==> entries[i].0 != entries[j].0
  }

  /** `d.get(k)`: the value stored under `k`, or `None`. */
  function Lookup(entries: Entries, k: string): (r: Option<Value>)
    ensures r.Some? <==> k in Keys(entries)
    ensures r.Some? ==> exists i :: 0 <= i < |entries| && entries[i] == (k, r.value)
  {
    if |entries| == 0 then None
    else if entries[0].0 == k then Some(entries[0].1)
    else
      var r := Lookup(entries[1..], k);
      KeysSplit(entries);
      LookupTailWitness(entries, k, r);
      r
  }

  lemma LookupTailWitness(entries: Entries, k: string, r: Option<Value>)
    requires |entries| > 0
    requires r.Some? ==> exists i :: 0 <= i < |entries[1..]| && entries[1..][i] == (k, r.value)
    ensures r.Some? ==> exists i :: 0 <= i < |entries| && entries[i] == (k, r.value)
  {
    if r.Some? {
      var i :| 0 <= i < |entries[1..]| && entries[1..][i] == (k, r.value);
      assert entries[i + 1] == (k, r.value);
    }
  }

  /** `d[k] = v`: an existing key keeps its position and takes the new value;
      a new key is appended. */
  function SetKey(entries: Entries, k: string, v: Value): (r: Entries)
    ensures Keys(r) == Keys(entries) + {k}
    ensures Lookup(r, k) == Some(v)
    ensures forall k' :: k' != k ==> Lookup(r, k') == Lookup(entries, k')
    ensures UniqueKeys(entries) ==> UniqueKeys(r)
  {
    if |entries| == 0 then
      KeysCons((k, v), []);
      assert [(k, v)] + [] == [(k, v)];
      [(k, v)]
    else if entries[0].0 == k then
      SetKeyHere(entries, v);
      [(k, v)] + entries[1..]
    else
      var tail := SetKey(entries[1..], k, v);
      SetKeyLater(entries, k, v, tail);
      [entries[0]] + tail
  }

  /** `SetKey`'s contract when the first entry holds the key. */
  lemma SetKeyHere(entries: Entries, v: Value)
    requires |entries| > 0
    ensures var k, r := entries[0].0, [(entries[0].0, v)] + entries[1..];
      && Keys(r) == Keys(entries) + {k}
      && Lookup(r, k) == Some(v)
      && (forall k' :: k' != k ==> Lookup(r, k') == Lookup(entries, k'))
      && (UniqueKeys(entries) ==> UniqueKeys(r))
  {
    var k, r := entries[0].0, [(entries[0].0, v)] + entries[1..];
    KeysCons((k, v), entries[1..]);
    KeysSplit(entries);
    assert r[1..] == entries[1..];
    if UniqueKeys(entries) {
      forall i, j | 0 <= i < j < |r| ensures r[i].0 != r[j].0 {
        assert r[j] == entries[j];
        if i > 0 { assert r[i] == entries[i]; }
      }
    }
  }

  /** `SetKey`'s contract when the key lies further on, given the contract
      for the rest of the entries. */
  lemma SetKeyLater(entries: Entries, k: string, v: Value, tail: Entries)
    requires |entries| > 0 && entries[0].0 != k
    requires Keys(tail) == Keys(entries[1..]) + {k}
    requires Lookup(tail, k) == Some(v)
    requires forall k' :: k' != k ==> Lookup(tail, k') == Lookup(entries[1..], k')
    requires UniqueKeys(entries[1..]) ==> UniqueKeys(tail)
    ensures var r := [entries[0]] + tail;
      && Keys(r) == Keys(entries) + {k}
      && Lookup(r, k) == Some(v)
      && (forall k' :: k' != k ==> Lookup(r, k') == Lookup(entries, k'))
      && (UniqueKeys(entries) ==> UniqueKeys(r))
  {
    var r := [entries[0]] + tail;
    assert r[1..] == tail;
    KeysCons(entries[0], tail);
    KeysSplit(entries);
    if UniqueKeys(entries) {
      assert UniqueKeys(entries[1..]) by {
        forall i, j | 0 <= i < j < |entries[1..]| ensures entries[1..][i].0 != entries[1..][j].0 {
          assert entries[1..][i] == entries[i + 1] && entries[1..][j] == entries[j + 1];
        }
      }
    }
    ConsUnique(entries, tail);
  }

  lemma ConsUnique(entries: Entries, tail: Entries)
    requires |entries| > 0
    requires UniqueKeys(entries) ==> UniqueKeys(tail)
    requires UniqueKeys(entries) ==> entries[0].0 !in Keys(tail)
    ensures UniqueKeys(entries) ==> UniqueKeys([entries[0]] + tail)
  {
    if UniqueKeys(entries) {
      var r := [entries[0]] + tail;
      forall i, j | 0 <= i < j < |r| ensures r[i].0 != r[j].0 {
        if i == 0 {
          assert r[j] == tail[j - 1];
          assert r[j].0 in Keys(tail);
        } else {
          assert r[i] == tail[i - 1] && r[j] == tail[j - 1];
        }
      }
    }
  }

  /** `key in value` where `value` is a mapping. */
  predicate HasKey(v: Value, k: string) {
    v.VMap? && k in Keys(v.entries)
  }

  // ---------------------------------------------------------------------------
  // Python truthiness, hashing and `str()`
  // ---------------------------------------------------------------------------

  /** `bool(v)`: `None`, `False`, `0` and empty strings, lists and mappings are false. */
  predicate Truthy(v: Value) {
    match v
    case VNull => false
    case VBool(b) => b
    case VInt(i) => i != 0
    case VStr(s) => |s| > 0
    case VList(items) => |items| > 0
    case VMap(entries) => |entries| > 0
  }

  /** `a or b` */
  function Or(a: Value, b: Value): (r: Value)
    ensures Truthy(a) ==> r == a
    ensures !Truthy(a) ==> r == b
  {
    if Truthy(a) then a else b
  }

  /** Lists and mappings cannot be used as `dict` keys. */
  predicate Hashable(v: Value) {
    !v.VList? && !v.VMap?
  }

  /** `str(v)`, as an f-string or `str.format` renders it. */
  function Display(v: Value): string
    decreases v, 2
  {
    match v
    case VStr(s) => s
    case _ => Repr(v)
  }

  /** `repr(v)`. Strings are quoted with single quotes; Python's choice of
      double quotes and its escapes are not modelled. */
  function Repr(v: Value): string
    decreases v, 1
  {
    match v
    case VNull => "None"
    case VBool(b) => if b then "True" else "False"
    case VInt(i) => IntToString(i)
    case VStr(s) => "'" + s + "'"
    case VList(items) => "[" + ReprItems(v, 0) + "]"
    case VMap(entries) => "{" + ReprEntries(v, 0) + "}"
  }

  function ReprItems(v: Value, i: nat): string
    requires v.VList? && i <= |v.items|
    decreases v, 0, |v.items| - i
  {
    if i == |v.items| then ""
    else
      (if i > 0 then ", " else "") + Repr(v.items[i]) + ReprItems(v, i + 1)
  }

  function ReprEntries(v: Value, i: nat): string
    requires v.VMap? && i <= |v.entries|
    decreases v, 0, |v.entries| - i
  {
    if i == |v.entries| then ""
    else
      var e := v.entries[i];
      assert e < v;
      (if i > 0 then ", " else "") + "'" + e.0 + "': " + Repr(e.1) + ReprEntries(v, i + 1)
  }
}
