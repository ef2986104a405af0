/**
  Properties of the map's operations stated on their specification functions:
  what a later Contains or Lookup sees after Add, Set, Replace or Rename, and
  how the operations compose.
*/
module ConstantTimeMapProperties {
  import opened ConstantTimeMap

  /** Two entry lists whose entries agree, position by position, on whether they match key have the same first match. */
  lemma FirstMatchFollowsMatches(m1: seq<seq<bv8>>, m2: seq<seq<bv8>>, keySize: int, key: seq<bv8>)
    requires |m1| == |m2|
    requires forall i :: 0 <= i < |m1| ==> (Matches(m1[i], keySize, key) <==> Matches(m2[i], keySize, key))
    ensures FirstMatch(m1, keySize, key) == FirstMatch(m2, keySize, key)
  {
    // FirstMatch's contract determines its result from the match pattern alone
  }

  /** Set changes no key, so after it the same entry is the first match of every key. */
  lemma SetKeepsFirstMatches(m: seq<seq<bv8>>, keySize: int, valSize: int, key: seq<bv8>, val: seq<bv8>, k: seq<bv8>)
    requires AllFit(m, keySize, valSize)
    requires |key| == keySize && |val| == valSize
    ensures FirstMatch(SetValues(m, keySize, key, val), keySize, k) == FirstMatch(m, keySize, k)
  {
    var r := SetValues(m, keySize, key, val);
    forall i | 0 <= i < |m|
      ensures r[i][..keySize] == m[i][..keySize]
    {
      if Matches(m[i], keySize, key) {
        assert (key + val)[..keySize] == key;
      }
    }
    FirstMatchFollowsMatches(r, m, keySize, k);
  }

  /** After Set(key, val) on a map holding key, Lookup(key) finds val. */
  lemma SetThenLookup(m: seq<seq<bv8>>, keySize: int, valSize: int, key: seq<bv8>, val: seq<bv8>)
    requires AllFit(m, keySize, valSize)
    requires |key| == keySize && |val| == valSize
    requires HasKey(m, keySize, key)
    ensures var r := SetValues(m, keySize, key, val);
      HasKey(r, keySize, key) && ValueOf(r[FirstMatch(r, keySize, key)], keySize) == val
  {
    SetKeepsFirstMatches(m, keySize, valSize, key, val, key);
    var f := FirstMatch(m, keySize, key);
    assert (key + val)[keySize..] == val;
  }

  /** Set is idempotent: setting the same value twice is the same as setting it once. */
  lemma SetIdempotent(m: seq<seq<bv8>>, keySize: int, valSize: int, key: seq<bv8>, val: seq<bv8>)
    requires AllFit(m, keySize, valSize)
    requires |key| == keySize && |val| == valSize
    ensures SetValues(SetValues(m, keySize, key, val), keySize, key, val) == SetValues(m, keySize, key, val)
  {
    var r := SetValues(m, keySize, key, val);
    forall i | 0 <= i < |m| && Matches(m[i], keySize, key)
      ensures Matches(r[i], keySize, key)
    {
      assert (key + val)[..keySize] == key;
    }
  }

  /**
    Add does not deduplicate: an appended entry never becomes the first match
    of a key already present, and it is the first match of its own key when
    that key was absent.
  */
  lemma AddThenFirstMatch(m: seq<seq<bv8>>, keySize: int, key: seq<bv8>, val: seq<bv8>, k: seq<bv8>)
    requires 0 <= keySize == |key|
    ensures HasKey(m, keySize, k) ==> FirstMatch(m + [key + val], keySize, k) == FirstMatch(m, keySize, k)
    ensures !HasKey(m, keySize, k) && k == key ==> FirstMatch(m + [key + val], keySize, k) == |m|
    ensures !HasKey(m, keySize, k) && k != key ==> !HasKey(m + [key + val], keySize, k)
  {
    var m' := m + [key + val];
    assert (key + val)[..keySize] == key;
    assert forall j :: 0 <= j < |m| ==> m'[j] == m[j];
    var f := FirstMatch(m, keySize, k);
    var f' := FirstMatch(m', keySize, k);
    if f < |m| {
      assert Matches(m'[f], keySize, k);
    } else if k == key {
      assert Matches(m'[|m|], keySize, k);
    }
  }

  /** The number of entries of m whose key is key. */
  function CountKey(m: seq<seq<bv8>>, keySize: int, key: seq<bv8>): (c: nat)
    ensures c <= |m|
    ensures c == 0 <==> !HasKey(m, keySize, key)
  {
    if m == [] then 0
    else
      assert forall j :: 1 <= j < |m| ==> m[1..][j - 1] == m[j];
      (if Matches(m[0], keySize, key) then 1 else 0) + CountKey(m[1..], keySize, key)
  }

  /**
    Add counts duplicates: appending key ++ val adds one more entry with key
    even when key is already present, and leaves the count of every other
    key unchanged. So Len, which grows by one on every Add, counts each
    duplicate.
  */
  lemma {:induction false} AddCountsDuplicates(m: seq<seq<bv8>>, keySize: int, key: seq<bv8>, val: seq<bv8>, k: seq<bv8>)
    requires 0 <= keySize == |key|
    ensures CountKey(m + [key + val], keySize, k) == CountKey(m, keySize, k) + (if k == key then 1 else 0)
  {
    assert (key + val)[..keySize] == key;
    if m == [] {
      assert [] + [key + val] == [key + val];
    } else {
      assert (m + [key + val])[1..] == m[1..] + [key + val];
      AddCountsDuplicates(m[1..], keySize, key, val, k);
    }
  }

  /** Replace of a present key leaves newKey present, and Lookup(newKey) finds val when newKey was absent before. */
  lemma ReplaceThenLookup(m: seq<seq<bv8>>, keySize: int, valSize: int, oldKey: seq<bv8>, newKey: seq<bv8>, val: seq<bv8>)
    requires AllFit(m, keySize, valSize)
    requires |oldKey| == keySize && |newKey| == keySize && |val| == valSize
    requires HasKey(m, keySize, oldKey)
    ensures var r := ReplaceFirst(m, keySize, oldKey, newKey + val);
      HasKey(r, keySize, newKey) &&
      (!HasKey(m, keySize, newKey) ==> ValueOf(r[FirstMatch(r, keySize, newKey)], keySize) == val)
  {
    var f := FirstMatch(m, keySize, oldKey);
    var r := ReplaceFirst(m, keySize, oldKey, newKey + val);
    assert (newKey + val)[..keySize] == newKey && (newKey + val)[keySize..] == val;
    assert Matches(r[f], keySize, newKey);
  }

  /**
    Replace rewrites only the first matching entry: it becomes e, and every
    other entry, later duplicates included, is unchanged.
  */
  lemma ReplaceTouchesOnlyFirstMatch(m: seq<seq<bv8>>, keySize: int, oldKey: seq<bv8>, e: seq<bv8>)
    ensures var f := FirstMatch(m, keySize, oldKey); var r := ReplaceFirst(m, keySize, oldKey, e);
      |r| == |m| &&
      (f < |m| ==> r[f] == e) &&
      (forall j :: 0 <= j < |m| && j != f ==> r[j] == m[j])
  {
  }

  /** Renaming a key to one that is absent and back restores the map. */
  lemma RenameRoundTrip(m: seq<seq<bv8>>, keySize: int, valSize: int, a: seq<bv8>, b: seq<bv8>)
    requires AllFit(m, keySize, valSize)
    requires |a| == keySize && |b| == keySize
    requires !HasKey(m, keySize, b)
    ensures RenameFirst(RenameFirst(m, keySize, a, b), keySize, b, a) == m
  {
    var f := FirstMatch(m, keySize, a);
    if f < |m| {
      var m' := RenameFirst(m, keySize, a, b);
      assert m'[f] == b + m[f][keySize..];
      assert (b + m[f][keySize..])[..keySize] == b;
      assert Matches(m'[f], keySize, b);
      assert FirstMatch(m', keySize, b) == f;
      assert (b + m[f][keySize..])[keySize..] == m[f][keySize..];
      assert a + m[f][keySize..] == m[f];
    }
  }

  /**
    Rename of a present key leaves newKey present, and when newKey was absent
    before, Lookup(newKey) finds the value the first entry with oldKey had.
  */
  lemma RenameThenLookup(m: seq<seq<bv8>>, keySize: int, valSize: int, oldKey: seq<bv8>, newKey: seq<bv8>)
    requires AllFit(m, keySize, valSize)
    requires |oldKey| == keySize && |newKey| == keySize
    requires HasKey(m, keySize, oldKey)
    ensures var r := RenameFirst(m, keySize, oldKey, newKey);
      HasKey(r, keySize, newKey) &&
      (!HasKey(m, keySize, newKey) ==>
        ValueOf(r[FirstMatch(r, keySize, newKey)], keySize) == ValueOf(m[FirstMatch(m, keySize, oldKey)], keySize))
  {
    var f := FirstMatch(m, keySize, oldKey);
    var r := RenameFirst(m, keySize, oldKey, newKey);
    var tail := m[f][keySize..];
    assert (newKey + tail)[..keySize] == newKey && (newKey + tail)[keySize..] == tail;
    assert Matches(r[f], keySize, newKey);
    if !HasKey(m, keySize, newKey) {
      assert forall j :: 0 <= j < |m| && j != f ==> r[j] == m[j];
      assert FirstMatch(r, keySize, newKey) == f;
    }
  }

  /** Rename keeps the value of the renamed entry. */
  lemma RenameKeepsValue(m: seq<seq<bv8>>, keySize: int, valSize: int, oldKey: seq<bv8>, newKey: seq<bv8>)
    requires AllFit(m, keySize, valSize)
    requires |oldKey| == keySize && |newKey| == keySize
    requires HasKey(m, keySize, oldKey)
    ensures var f := FirstMatch(m, keySize, oldKey); var r := RenameFirst(m, keySize, oldKey, newKey);
      Matches(r[f], keySize, newKey) && ValueOf(r[f], keySize) == ValueOf(m[f], keySize) && AllFit(r, keySize, valSize)
  {
    var f := FirstMatch(m, keySize, oldKey);
    var tail := m[f][keySize..];
    assert (newKey + tail)[..keySize] == newKey && (newKey + tail)[keySize..] == tail;
  }
}
