/**
  Client code that drives a Map through the cases of the repository's own
  test tables (one byte of key, one byte of value) and the set-like use with
  values of zero bytes. Each assertion follows from the methods' contracts.
*/
module ConstantTimeMapScenarios {
  import opened ConstantTimeMap

  /** A map of one-byte keys and values holding the given (key, value) pairs, in order. */
  method Build(pairs: seq<(bv8, bv8)>) returns (m: Map)
    ensures fresh(m) && m.Valid() && m.keySize == 1 && m.valSize == 1
    ensures |m.entries| == |pairs|
    ensures forall i :: 0 <= i < |pairs| ==> m.entries[i] == [pairs[i].0, pairs[i].1]
  {
    m := new Map.New(1, 1);
    for i := 0 to |pairs|
      invariant m.Valid() && m.keySize == 1 && m.valSize == 1
      invariant |m.entries| == i
      invariant forall j :: 0 <= j < i ==> m.entries[j] == [pairs[j].0, pairs[j].1]
    {
      var key: seq<bv8> := [pairs[i].0];
      var val: seq<bv8> := [pairs[i].1];
      assert key + val == [pairs[i].0, pairs[i].1];
      m.Add(key, val);
    }
  }

  /** Add appends without deduplicating (map_test.go:40). */
  method AddDuplicate()
  {
    var m := Build([(0xa5, 0x5a)]);
    var key: seq<bv8> := [0xa5];
    var val: seq<bv8> := [0x5a];
    m.Add(key, val);
    assert key + val == [0xa5, 0x5a];
    assert m.entries == [[0xa5, 0x5a], [0xa5, 0x5a]];
    assert m.Len() == 2;
  }

  /**
    Set on two entries with the same key: the code sets both. The test table
    row at map_test.go:60 expects [[0xa5, 0xff], [0xa5, 0x5a]] instead.
  */
  method SetDuplicates()
  {
    var m := Build([(0xa5, 0x5a), (0xa5, 0x5a)]);
    var key: seq<bv8> := [0xa5];
    var val: seq<bv8> := [0xff];
    assert Matches(m.entries[0], 1, key) && Matches(m.entries[1], 1, key);
    var found, _, _ := m.Set(key, val);
    assert found == 1;
    assert key + val == [0xa5, 0xff];
    assert m.entries == [[0xa5, 0xff], [0xa5, 0xff]];
    assert m.entries != [[0xa5, 0xff], [0xa5, 0x5a]];
  }

  /** Set on a key that is absent changes nothing and returns 0 (map_test.go:57). */
  method SetAbsent()
  {
    var m := Build([(0, 0)]);
    var key: seq<bv8> := [0xa5];
    assert m.entries[0][..1] == [0] != key;
    var found, _, _ := m.Set(key, [0xff]);
    assert found == 0;
    assert m.entries == [[0, 0]];
  }

  /** Replace and Rename rewrite only the first of two duplicates (map_test.go:80, map_test.go:100). */
  method ReplaceAndRenameDuplicates()
  {
    var oldKey: seq<bv8> := [0xa5];
    var newKey: seq<bv8> := [0x5a];
    var val: seq<bv8> := [0xff];

    var m := Build([(0xa5, 0x5a), (0xa5, 0x5a)]);
    assert Matches(m.entries[0], 1, oldKey);
    var found, _, _ := m.Replace(oldKey, newKey, val);
    assert found == 1;
    assert newKey + val == [0x5a, 0xff];
    assert m.entries == [[0x5a, 0xff], [0xa5, 0x5a]];

    var n := Build([(0xa5, 0x5a), (0xa5, 0x5a)]);
    assert Matches(n.entries[0], 1, oldKey);
    var renamed, _, _ := n.Rename(oldKey, newKey);
    assert renamed == 1;
    assert newKey + [0x5a] == [0x5a, 0x5a];
    assert n.entries == [[0x5a, 0x5a], [0xa5, 0x5a]];
  }

  /** Contains and Lookup; Lookup of a duplicated key yields the first value (map_test.go:143-147). */
  method ContainsAndLookup()
  {
    var key: seq<bv8> := [0xa5];
    var buf := new bv8[1];
    buf[0] := 0;

    var empty := Build([]);
    var found, _, _ := empty.Lookup(key, buf);
    assert found == 0 && buf[..] == [0];

    var m := Build([(0xa5, 0x11), (0xa5, 0x22)]);
    assert Matches(m.entries[0], 1, key);
    var present, _ := m.Contains(key);
    assert present == 1;
    var looked, _, _ := m.Lookup(key, buf);
    assert looked == 1;
    assert buf[..] == [0x11];
  }

  /** With values of zero bytes the map is a set of keys. */
  method KeySet()
  {
    var m := new Map.New(1, 0);
    var key: seq<bv8> := [0x01];
    m.Add(key, []);
    assert Matches(m.entries[0], 1, key);
    var found, _ := m.Contains(key);
    assert found == 1;
    var other, _ := m.Contains([0x02]);
    assert other == 0;
  }
}
