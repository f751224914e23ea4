/**
 * The scraper's result: a Python dict from category key to a list of date
 * strings. Python dicts remember insertion order, and assigning to a key that
 * is already present keeps that key's original position, so the model keeps
 * the key order beside the map.
 */
module OrderedDict {

  /** No element of s occurs twice. */
  predicate Distinct(s: seq<string>) {
    forall i, j :: 0 <= i < j < |s| ==> s[i] != s[j]
  }

  /** keys lists the dictionary's keys in insertion order; entries holds the values. */
  datatype Dict = Dict(keys: seq<string>, entries: map<string, seq<string>>) {

    /** Every key listed exactly once, and exactly the keys of the map. */
    ghost predicate Valid() {
      Distinct(keys) && (forall k :: k in entries <==> k in keys)
    }
  }

  /** The empty dict `{}`. */
  const Empty: Dict := Dict([], map[])

  /**
   * `d[k] = v`: k is bound to v and every other binding stays; a key that is
   * already present keeps its place in the order, a new key goes to the end.
   */
  function Put(d: Dict, k: string, v: seq<string>): (r: Dict)
    requires d.Valid()
    ensures r.Valid()
    ensures k in r.entries && r.entries[k] == v
    ensures forall k' :: k' != k ==> (k' in r.entries <==> k' in d.entries)
    ensures forall k' :: k' != k && k' in d.entries ==> r.entries[k'] == d.entries[k']
    ensures k in d.entries ==> r.keys == d.keys
    ensures k !in d.entries ==> r.keys == d.keys + [k]
  {
    if k in d.entries then Dict(d.keys, d.entries[k := v])
    else Dict(d.keys + [k], d.entries[k := v])
  }

  /** `d[k].append(x)`: x is added to the end of k's list, nothing else changes. */
  function AppendTo(d: Dict, k: string, x: string): (r: Dict)
    requires d.Valid() && k in d.entries
    ensures r.Valid()
    ensures r.keys == d.keys
    ensures r.entries.Keys == d.entries.Keys
    ensures r.entries[k] == d.entries[k] + [x]
    ensures forall k' :: k' != k && k' in d.entries ==> r.entries[k'] == d.entries[k']
  {
    Dict(d.keys, d.entries[k := d.entries[k] + [x]])
  }

  /**
   * The elements of s in order of first occurrence, each once: the key order
   * a dict ends up with when the keys of s are assigned one after another.
   */
  function Dedup(s: seq<string>): (r: seq<string>)
    ensures Distinct(r)
    ensures forall x :: x in r <==> x in s
  {
    if s == [] then []
    else
      var init := Dedup(s[..|s| - 1]);
      var x := s[|s| - 1];
      assert forall y :: y in s <==> y in s[..|s| - 1] || y == x;
      if x in s[..|s| - 1] then init else init + [x]
  }
}
