/**
  A constant-time key/value map: an ordered list of fixed-length entries,
  each the bytes of a key followed by the bytes of its value. Every
  operation that looks at keys scans all entries with the two primitives of
  module Subtle and never leaves the loop early; a running 0/1 flag masks
  the gate so that only the first match in storage order is acted on.
*/
module ConstantTimeMap {
  import opened Subtle

  /** Whether e has the layout `key ++ val` for the given sizes. */
  predicate Fits(e: seq<bv8>, keySize: int, valSize: int)
  {
    0 <= keySize && 0 <= valSize && |e| == keySize + valSize
  }

  /** Whether every entry of m has the layout `key ++ val`. */
  predicate AllFit(m: seq<seq<bv8>>, keySize: int, valSize: int)
  {
    forall i :: 0 <= i < |m| ==> Fits(m[i], keySize, valSize)
  }

  /** Whether the key region of entry e is key. */
  predicate Matches(e: seq<bv8>, keySize: int, key: seq<bv8>)
  {
    0 <= keySize <= |e| && e[..keySize] == key
  }

  /** Whether some entry of m has key as its key. */
  predicate HasKey(m: seq<seq<bv8>>, keySize: int, key: seq<bv8>)
  {
    exists i :: 0 <= i < |m| && Matches(m[i], keySize, key)
  }

  /** The index of the first entry, in storage order, whose key is key; |m| when there is none. */
  function FirstMatch(m: seq<seq<bv8>>, keySize: int, key: seq<bv8>): (f: nat)
    ensures f <= |m|
    ensures f < |m| <==> HasKey(m, keySize, key)
    ensures f < |m| ==> Matches(m[f], keySize, key)
    ensures forall j :: 0 <= j < f ==> !Matches(m[j], keySize, key)
  {
    if m == [] then 0
    else if Matches(m[0], keySize, key) then 0
    else
      var f := 1 + FirstMatch(m[1..], keySize, key);
      assert forall j :: 1 <= j < |m| ==> m[1..][j - 1] == m[j];
      f
  }

  /**
    The entries after Set(key, val) as map.go writes it: EVERY entry whose
    key is key becomes key ++ val; all other entries are unchanged.
  */
  function SetValues(m: seq<seq<bv8>>, keySize: int, key: seq<bv8>, val: seq<bv8>): (r: seq<seq<bv8>>)
    ensures |r| == |m|
    ensures forall i :: 0 <= i < |m| && Matches(m[i], keySize, key) ==> r[i] == key + val
    ensures forall i :: 0 <= i < |m| && !Matches(m[i], keySize, key) ==> r[i] == m[i]
  {
    if m == [] then []
    else
      var e := if Matches(m[0], keySize, key) then m[0][..keySize] + val else m[0];
      [e] + SetValues(m[1..], keySize, key, val)
  }

  /** The entries after the first entry whose key is key has been overwritten by e. */
  function ReplaceFirst(m: seq<seq<bv8>>, keySize: int, key: seq<bv8>, e: seq<bv8>): seq<seq<bv8>>
  {
    var f := FirstMatch(m, keySize, key);
    if f < |m| then m[f := e] else m
  }

  /** The entries after the key region of the first entry whose key is oldKey has been set to newKey. */
  function RenameFirst(m: seq<seq<bv8>>, keySize: int, oldKey: seq<bv8>, newKey: seq<bv8>): seq<seq<bv8>>
  {
    var f := FirstMatch(m, keySize, oldKey);
    if f < |m| then m[f := newKey + m[f][keySize..]] else m
  }

  /** The value region of entry e. */
  function ValueOf(e: seq<bv8>, keySize: int): seq<bv8>
    requires 0 <= keySize <= |e|
  {
    e[keySize..]
  }

  class Map {
    /** The entries, in storage order; duplicates by key are kept. */
    var entries: seq<seq<bv8>>
    const keySize: int
    const valSize: int

    /** Every entry has exactly keySize + valSize bytes. */
    ghost predicate Valid()
      reads this
    {
      AllFit(entries, keySize, valSize)
    }

    /** An empty map for keys of keySize bytes and values of valSize bytes. */
    constructor New(keySize: int, valSize: int)
      ensures Valid()
      ensures entries == [] && this.keySize == keySize && this.valSize == valSize
    {
      this.keySize := keySize;
      this.valSize := valSize;
      entries := [];
    }

    /**
      An empty map whose backing storage is reserved for capacity entries;
      reserving storage cannot be observed here, so it is New with a
      capacity that must not be negative.
    */
    constructor NewWithCapacity(keySize: int, valSize: int, capacity: int)
      requires capacity >= 0
      ensures Valid()
      ensures entries == [] && this.keySize == keySize && this.valSize == valSize
    {
      this.keySize := keySize;
      this.valSize := valSize;
      entries := [];
    }

    /** The number of entries; duplicate keys are each counted. */
    function Len(): nat
      reads this
    {
      |entries|
    }

    /** Appends key ++ val as the last entry, without looking for an entry with the same key. */
    method Add(key: seq<bv8>, val: seq<bv8>)
      requires Valid()
      requires |key| == keySize
      requires |val| == valSize
      modifies this
      ensures Valid()
      ensures entries == old(entries) + [key + val]
      ensures Len() == old(Len()) + 1
    {
      var entry := key + val;
      entries := entries + [entry];
    }

    /**
      Sets to val the value of every entry whose key is key and returns 1 if
      there was one, else 0. The code does not mask the gate with the running
      flag, so later duplicates are set too (as its doc comment says); the
      table row at map_test.go:60 expects only the first one to change.
    */
    method Set(key: seq<bv8>, val: seq<bv8>) returns (found: bv64, ghost compares: nat, ghost copies: nat)
      requires Valid()
      requires |key| == keySize
      requires |val| == valSize
      modifies this
      ensures Valid()
      ensures found == 0 || found == 1
      ensures found == 1 <==> HasKey(old(entries), keySize, key)
      ensures entries == SetValues(old(entries), keySize, key, val)
      ensures Len() == old(Len())
      ensures compares == Len() && copies == Len()
    {
      ghost var r := SetValues(entries, keySize, key, val);
      ghost var f := FirstMatch(entries, keySize, key);
      var v: bv64 := 0;
      compares, copies := 0, 0;
      for i := 0 to |entries|
        invariant |entries| == |old(entries)|
        invariant forall j :: 0 <= j < i ==> entries[j] == r[j]
        invariant forall j :: i <= j < |entries| ==> entries[j] == old(entries)[j]
        invariant v == 0 || v == 1
        invariant v == 1 <==> f < i
        invariant compares == i && copies == i
      {
        var entry := entries[i];
        var vv := ConstantTimeCompare(entry[..keySize], key);
        compares := compares + 1;
        entry := entry[..keySize] + ConstantTimeCopy(vv, entry[keySize..], val);
        copies := copies + 1;
        assert entry == r[i] by {
          if vv == 0 { assert entries[i][..keySize] + entries[i][keySize..] == entries[i]; }
        }
        entries := entries[i := entry];
        v := v | vv;
      }
      assert entries == r;
      found := v;
    }

    /**
      Overwrites the first entry whose key is oldKey with newKey ++ val and
      returns 1 if there was one, else 0; later duplicates are untouched.
    */
    method Replace(oldKey: seq<bv8>, newKey: seq<bv8>, val: seq<bv8>) returns (found: bv64, ghost compares: nat, ghost copies: nat)
      requires Valid()
      requires |oldKey| == keySize
      requires |newKey| == keySize
      requires |val| == valSize
      modifies this
      ensures Valid()
      ensures found == 0 || found == 1
      ensures found == 1 <==> HasKey(old(entries), keySize, oldKey)
      ensures entries == ReplaceFirst(old(entries), keySize, oldKey, newKey + val)
      ensures Len() == old(Len())
      ensures compares == Len() && copies == 2 * Len()
    {
      ghost var f := FirstMatch(entries, keySize, oldKey);
      var v: bv64 := 0;
      compares, copies := 0, 0;
      for i := 0 to |entries|
        invariant |entries| == |old(entries)|
        invariant forall j :: 0 <= j < i && j != f ==> entries[j] == old(entries)[j]
        invariant f < i ==> entries[f] == newKey + val
        invariant forall j :: i <= j < |entries| ==> entries[j] == old(entries)[j]
        invariant v == 0 || v == 1
        invariant v == 1 <==> f < i
        invariant compares == i && copies == 2 * i
      {
        var entry := entries[i];
        // Go's `cmp &^ v`: the gate opens only at the first match
        var vv := ConstantTimeCompare(entry[..keySize], oldKey) & (v ^ 0xFFFF_FFFF_FFFF_FFFF);
        compares := compares + 1;
        entry := ConstantTimeCopy(vv, entry[..keySize], newKey) + entry[keySize..];
        entry := entry[..keySize] + ConstantTimeCopy(vv, entry[keySize..], val);
        copies := copies + 2;
        entries := entries[i := entry];
        v := v | vv;
      }
      assert entries == ReplaceFirst(old(entries), keySize, oldKey, newKey + val);
      found := v;
    }

    /**
      Sets the key of the first entry whose key is oldKey to newKey, keeping
      its value, and returns 1 if there was one, else 0.
    */
    method Rename(oldKey: seq<bv8>, newKey: seq<bv8>) returns (found: bv64, ghost compares: nat, ghost copies: nat)
      requires Valid()
      requires |oldKey| == keySize
      requires |newKey| == keySize
      modifies this
      ensures Valid()
      ensures found == 0 || found == 1
      ensures found == 1 <==> HasKey(old(entries), keySize, oldKey)
      ensures entries == RenameFirst(old(entries), keySize, oldKey, newKey)
      ensures Len() == old(Len())
      ensures compares == Len() && copies == Len()
    {
      ghost var f := FirstMatch(entries, keySize, oldKey);
      var v: bv64 := 0;
      compares, copies := 0, 0;
      for i := 0 to |entries|
        invariant |entries| == |old(entries)|
        invariant forall j :: 0 <= j < i && j != f ==> entries[j] == old(entries)[j]
        invariant f < i ==> entries[f] == newKey + old(entries)[f][keySize..]
        invariant forall j :: i <= j < |entries| ==> entries[j] == old(entries)[j]
        invariant v == 0 || v == 1
        invariant v == 1 <==> f < i
        invariant compares == i && copies == i
      {
        var entry := entries[i];
        var vv := ConstantTimeCompare(entry[..keySize], oldKey) & (v ^ 0xFFFF_FFFF_FFFF_FFFF);
        compares := compares + 1;
        entry := ConstantTimeCopy(vv, entry[..keySize], newKey) + entry[keySize..];
        copies := copies + 1;
        entries := entries[i := entry];
        v := v | vv;
      }
      assert entries == RenameFirst(old(entries), keySize, oldKey, newKey);
      found := v;
    }

    /** 1 if some entry has key as its key, else 0; the whole list is scanned either way. */
    method Contains(key: seq<bv8>) returns (found: bv64, ghost compares: nat)
      requires Valid()
      requires |key| == keySize
      ensures found == 0 || found == 1
      ensures found == 1 <==> HasKey(entries, keySize, key)
      ensures compares == Len()
    {
      ghost var f := FirstMatch(entries, keySize, key);
      var v: bv64 := 0;
      compares := 0;
      for i := 0 to |entries|
        invariant v == 0 || v == 1
        invariant v == 1 <==> f < i
        invariant compares == i
      {
        v := v | ConstantTimeCompare(entries[i][..keySize], key);
        compares := compares + 1;
      }
      found := v;
    }

    /**
      Copies into val the value of the first entry whose key is key and
      returns 1 if there was one; otherwise returns 0 and val keeps its bytes.
      The map itself is not changed.
    */
    method Lookup(key: seq<bv8>, val: array<bv8>) returns (found: bv64, ghost compares: nat, ghost copies: nat)
      requires Valid()
      requires |key| == keySize
      requires val.Length == valSize
      modifies val
      ensures found == 0 || found == 1
      ensures found == 1 <==> HasKey(entries, keySize, key)
      ensures found == 1 ==> val[..] == ValueOf(entries[FirstMatch(entries, keySize, key)], keySize)
      ensures found == 0 ==> val[..] == old(val[..])
      ensures compares == Len() && copies == Len()
    {
      ghost var f := FirstMatch(entries, keySize, key);
      var v: bv64 := 0;
      compares, copies := 0, 0;
      for i := 0 to |entries|
        invariant v == 0 || v == 1
        invariant v == 1 <==> f < i
        invariant f < i ==> val[..] == ValueOf(entries[f], keySize)
        invariant f >= i ==> val[..] == old(val[..])
        invariant compares == i && copies == i
      {
        var entry := entries[i];
        var vv := ConstantTimeCompare(entry[..keySize], key) & (v ^ 0xFFFF_FFFF_FFFF_FFFF);
        compares := compares + 1;
        ConstantTimeCopyInto(vv, val, entry[keySize..]);
        copies := copies + 1;
        v := v | vv;
      }
      found := v;
    }
  }
}
