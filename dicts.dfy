/**
 * Python values and the `LookupDict` tables built from dictionary literals.
 *
 * A table is the literal's list of (key, code) pairs in source order, so that
 * the reverse lookup, a list comprehension over `items()`, sees the same order.
 */
module Dicts {
  import opened Wrappers

  /** A value held by a heat-pump attribute, a wanted-state entry or a table key.
      Python's None is `Nil`. Numbers are counted in half units, so the int 24
      is `Num(48)` and the float 24.5 is `Num(49)`. */
  datatype Value = Nil | Str(s: string) | Num(halves: int)

  /** The Python exceptions the modelled code can raise. */
  datatype Error = IndexError | KeyError | ValueError | TypeError | NameError

  /** Python truthiness: None, the empty string and zero are false. */
  predicate Truthy(v: Value) {
    match v
    case Nil => false
    case Str(s) => s != ""
    case Num(h) => h != 0
  }

  /** Python's `int(v)`: a number is truncated toward zero; a string is not
      parsed (see README) and None raises. */
  function IntOf(v: Value): (r: Result<Value, Error>)
    ensures r.Ok? <==> v.Num?
    ensures r.Ok? ==> r.value.Num? && r.value.halves % 2 == 0
    ensures r.Ok? && v.halves >= 0 ==> 0 <= v.halves - r.value.halves <= 1
    ensures r.Ok? && v.halves < 0 ==> 0 <= r.value.halves - v.halves <= 1
    ensures v.Num? && v.halves % 2 == 0 ==> r == Ok(v)
  {
    match v
    case Nil => Err(TypeError)
    case Str(_) => Err(ValueError)
    case Num(h) => Ok(Num(if h >= 0 then h / 2 * 2 else -((-h) / 2 * 2)))
  }

  /** One `key: code` pair of a dictionary literal. */
  datatype Entry = Entry(key: Value, code: int)

  type Table = seq<Entry>

  /** `[k for k, v in t.items() if v == c]`: the keys whose code is `c`, in order. */
  function KeysWithCode(t: Table, c: int): (ks: seq<Value>)
    ensures forall k :: k in ks ==> exists i :: 0 <= i < |t| && t[i] == Entry(k, c)
    ensures forall i :: 0 <= i < |t| && t[i].code == c ==> t[i].key in ks
    ensures |ks| > 0 ==> exists i :: 0 <= i < |t| && t[i] == Entry(ks[0], c) &&
                                     forall j :: 0 <= j < i ==> t[j].code != c
  {
    if t == [] then []
    else
      var rest := KeysWithCode(t[1..], c);
      assert forall i :: 1 <= i < |t| ==> t[i] == t[1..][i - 1];
      if t[0].code == c then [t[0].key] + rest else rest
  }

  /** `t[k]`: the code of key `k`, or None where Python raises KeyError. A
      dict literal keeps the last of repeated keys where this takes the
      first; no table repeats a key, so the two agree. */
  function Get(t: Table, k: Value): Option<int> {
    if t == [] then None
    else if t[0].key == k then Some(t[0].code)
    else Get(t[1..], k)
  }

  /** `t[k]` finds a code exactly when some entry has key `k`, and the code it
      finds is that of the first such entry. */
  lemma {:induction false} GetMeaning(t: Table, k: Value)
    ensures Get(t, k).Some? <==> exists i :: 0 <= i < |t| && t[i].key == k
    ensures Get(t, k).Some? ==> exists i :: 0 <= i < |t| && t[i] == Entry(k, Get(t, k).value) &&
                                            forall j :: 0 <= j < i ==> t[j].key != k
  {
    if t != [] && t[0].key != k {
      GetMeaning(t[1..], k);
      assert forall i :: 1 <= i < |t| ==> t[i] == t[1..][i - 1];
      if Get(t, k).Some? {
        var i :| 0 <= i < |t[1..]| && t[1..][i] == Entry(k, Get(t, k).value) &&
                 forall j :: 0 <= j < i ==> t[1..][j].key != k;
        assert t[i + 1] == Entry(k, Get(t, k).value);
      }
    }
  }

  /** No two entries share a key or a code: the table is a bijection between
      its keys and its codes. */
  predicate Injective(t: Table) {
    forall i, j :: 0 <= i < j < |t| ==> t[i].key != t[j].key && t[i].code != t[j].code
  }

  /** Every code of the table is below `bound`. */
  predicate CodesBelow(t: Table, bound: int) {
    forall i :: 0 <= i < |t| ==> 0 <= t[i].code < bound
  }

  /** In an injective table each entry is found in both directions: the reverse
      comprehension holds exactly its key, and subscripting its key gives its code. */
  lemma {:induction false} EntryRoundTrip(t: Table, i: int)
    requires Injective(t) && 0 <= i < |t|
    ensures KeysWithCode(t, t[i].code) == [t[i].key]
    ensures Get(t, t[i].key) == Some(t[i].code)
  {
    if i > 0 {
      assert Injective(t[1..]) by {
        forall a, b | 0 <= a < b < |t[1..]|
          ensures t[1..][a].key != t[1..][b].key && t[1..][a].code != t[1..][b].code
        {
          assert t[1..][a] == t[a + 1] && t[1..][b] == t[b + 1];
        }
      }
      EntryRoundTrip(t[1..], i - 1);
      assert t[1..][i - 1] == t[i];
    }
  }
}
