/**
 * check_tomorrow_matches: the categories of the stored schedule whose date
 * list contains tomorrow's date string, compared by plain string equality.
 * Tomorrow's date is an input here, already formatted as the schedule writes
 * its dates.
 */
module Notifier {
  import opened OrderedDict

  /** The elements of a occur in b in the same order (not necessarily adjacent). */
  predicate IsSubsequence(a: seq<string>, b: seq<string>) {
    a == [] || (b != [] && if a[0] == b[0] then IsSubsequence(a[1..], b[1..]) else IsSubsequence(a, b[1..]))
  }

  lemma {:induction false} SubsequenceExtendRight(a: seq<string>, b: seq<string>, x: string)
    requires IsSubsequence(a, b)
    ensures IsSubsequence(a, b + [x])
  {
    if a != [] {
      assert (b + [x])[1..] == b[1..] + [x];
      if a[0] == b[0] {
        SubsequenceExtendRight(a[1..], b[1..], x);
      } else {
        SubsequenceExtendRight(a, b[1..], x);
      }
    }
  }

  lemma {:induction false} SubsequenceExtendBoth(a: seq<string>, b: seq<string>, x: string)
    requires IsSubsequence(a, b)
    ensures IsSubsequence(a + [x], b + [x])
  {
    if b == [] {
      assert a == [];
    } else if a == [] {
      assert (b + [x])[1..] == b[1..] + [x];
      if b[0] != x {
        SubsequenceExtendBoth(a, b[1..], x);
        assert a + [x] == [x];
      }
    } else if a[0] == b[0] {
      assert (b + [x])[1..] == b[1..] + [x];
      SubsequenceExtendBoth(a[1..], b[1..], x);
      assert (a + [x])[1..] == a[1..] + [x];
    } else {
      assert (b + [x])[1..] == b[1..] + [x];
      SubsequenceExtendBoth(a, b[1..], x);
    }
  }

  /** The keys of ks, in the order of ks, whose date list in entries contains day. */
  function MatchingKeys(ks: seq<string>, entries: map<string, seq<string>>, day: string): (r: seq<string>)
    requires forall k :: k in ks ==> k in entries
    ensures forall k :: k in r ==> k in ks && day in entries[k]
  {
    if ks == [] then []
    else
      var r := MatchingKeys(ks[..|ks| - 1], entries, day);
      var k := ks[|ks| - 1];
      if day in entries[k] then r + [k] else r
  }

  /**
   * The matching keys are each matching key once, no other key, in the order
   * of ks, and nothing when no list contains day.
   */
  lemma {:induction false} MatchingKeysSpec(ks: seq<string>, entries: map<string, seq<string>>, day: string)
    requires forall k :: k in ks ==> k in entries
    ensures var r := MatchingKeys(ks, entries, day);
      && (forall k :: k in r <==> k in ks && day in entries[k])
      && (r == [] <==> forall k :: k in ks ==> day !in entries[k])
      && IsSubsequence(r, ks)
      && (Distinct(ks) ==> Distinct(r))
  {
    if ks != [] {
      var init := ks[..|ks| - 1];
      var k := ks[|ks| - 1];
      var r := MatchingKeys(init, entries, day);
      MatchingKeysSpec(init, entries, day);
      assert init + [k] == ks;
      assert forall k' :: k' in ks <==> k' in init || k' == k;
      assert Distinct(ks) ==> Distinct(init) && k !in init;
      if day in entries[k] {
        SubsequenceExtendBoth(r, init, k);
      } else {
        SubsequenceExtendRight(r, init, k);
      }
    }
  }

  /**
   * The matched categories of a schedule: every category whose list contains
   * day, once each, in the schedule's key order.
   */
  function Matches(d: Dict, day: string): (r: seq<string>)
    requires d.Valid()
    ensures forall k :: k in r <==> k in d.entries && day in d.entries[k]
    ensures IsSubsequence(r, d.keys) && Distinct(r)
  {
    MatchingKeysSpec(d.keys, d.entries, day);
    MatchingKeys(d.keys, d.entries, day)
  }

  /** The loop of check_tomorrow_matches over the schedule's entries. */
  method CheckMatches(d: Dict, tomorrow: string) returns (matched: seq<string>)
    requires d.Valid()
    ensures matched == Matches(d, tomorrow)
  {
    matched := [];
    var i := 0;
    while i < |d.keys|
      invariant 0 <= i <= |d.keys|
      invariant matched == MatchingKeys(d.keys[..i], d.entries, tomorrow)
    {
      assert d.keys[..i + 1][..i] == d.keys[..i];
      var key := d.keys[i];
      var dates := d.entries[key];
      if tomorrow in dates {
        matched := matched + [key];
      }
      i := i + 1;
    }
    assert d.keys[..i] == d.keys;
  }
}
