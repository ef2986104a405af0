# ctmap in Dafny

A model of `ctmap`, a constant-time key/value map written in Go. The map
stores an ordered list of fixed-length entries. Each entry is the bytes of a
key followed by the bytes of its value. The key and value sizes are fixed
when the map is created. `Add` appends an entry and never deduplicates.

`Set`, `Replace`, `Rename`, `Contains` and `Lookup` each scan every entry.
They use two primitives from Go's `crypto/subtle` package:

- a 0/1 equality test (`ConstantTimeCompare`);
- a copy gated on a 0/1 flag (`ConstantTimeCopy`).

`Replace`, `Rename` and `Lookup` also carry a running flag `v`. Their gate
`vv = cmp &^ v` makes them act only on the first match in storage order.

Files:

- `subtle.dfy` (module `Subtle`): the two primitives. Their bodies follow
  Go's branch-free algorithms. Their contracts are what the map relies on:
  compare returns 1 iff the byte strings are equal, and copy yields the
  source when the flag is 1 and keeps the destination when it is 0.
- `ctmap.dfy` (module `ConstantTimeMap`): the specification functions
  (`Matches`, `HasKey`, `FirstMatch`, `SetValues`, `ReplaceFirst`,
  `RenameFirst`) and the class `Map`. The class's field `entries: seq<seq<bv8>>`
  is reassigned by the methods. Each scan is a `for` loop that mirrors the
  Go loop, and its invariants tie the partial result to the specification.
  Go's `int` flags are `bv64` values, so `&^` and `|` are real bitwise
  operations. `x &^ v` is written `x & (v ^ 0xFFFF_FFFF_FFFF_FFFF)`.
- `ctmap_properties.dfy`: lemmas about how the operations compose. They say
  which entry `Lookup` finds after `Add`, `Set`, `Replace` or `Rename`, that
  `Add` adds one more entry even for a key already present, that `Set` is
  idempotent, and that `Rename` to an absent key and back restores the map.
- `ctmap_scenarios.dfy`: client methods that replay rows of the Go test
  tables through the class contracts.

Invariant `Valid()`: every entry is exactly `keySize + valSize` bytes long.
Every method keeps it. Every scan keeps the number of entries, and `Add`
increases it by one. Every scan method returns ghost counts of its primitive
calls. The counts are a fixed function of `Len()` (one compare per entry, and
one or two copies per entry). This is how the model states that the loop
never exits early, whatever matches.

`Set` follows map.go rather than its test. Its code has no `&^ v` mask, and
its doc comment (map.go:78-79) says every duplicate gets the value. The model
sets every matching entry. The test table row at map_test.go:60 expects only
the first duplicate to change. `SetDuplicates` in `ctmap_scenarios.dfy` shows
the model's outcome on that row.

The key and value sizes are `int`, as in Go. With a negative key size, every
key check fails, so only `Len` can be called, as in Go, where every other
operation panics. With a negative value size, `Add`, `Set`, `Replace` and
`Lookup` cannot be called, so the map stays empty. `Contains` and `Rename`
check only key sizes, so they can still be called and return 0, as in Go.

## Model

`Len` itself carries no contract. Its meaning is stated by the contracts of
`Add` (`Len` grows by one), of `Set`, `Replace` and `Rename` (`Len` is
unchanged) and by `AddCountsDuplicates`. `Subtle.XorAccumulate` and
`Subtle.ConstantTimeByteEq` are the helpers behind the
`Subtle.ConstantTimeCompare` row. `Subtle.KeepMask`, `Subtle.Blend` and
`Subtle.BlendAll` are the helpers behind the `Subtle.ConstantTimeCopy` row.
These helpers model the primitives' documented algorithms, not map.go.

| member | source | states |
|---|---|---|
| `Subtle.ConstantTimeCompare` | map.go:92 | the compare primitive returns 0 or 1, and 1 exactly when the two byte strings are equal (unequal lengths give 0) |
| `Subtle.ConstantTimeCopy` | map.go:93 | the copy primitive, with flag 0 or 1 on equal-length strings, yields the source when the flag is 1 and the unchanged destination when it is 0 |
| `Subtle.ConstantTimeCopyInto` | map.go:193 | the in-place copy into a caller's buffer leaves exactly the bytes `ConstantTimeCopy` gives for the old buffer contents |
| `ConstantTimeMap.FirstMatch` | map.go:119-127 | the entry the `&^ v` gate selects: an index at most `Len`, below `Len` iff some entry has the key; that entry has the key and no earlier one does |
| `ConstantTimeMap.SetValues` | map.go:89-96 | Set's effect on the entries: same count; every entry whose key region is `key` becomes `key ++ val`; every other entry is unchanged |
| `ConstantTimeMap.Map.New` | map.go:25-30 | a new map is empty and keeps the given key and value sizes |
| `ConstantTimeMap.Map.NewWithCapacity` | map.go:41-48 | same as `New` for any capacity that is not negative |
| `ConstantTimeMap.Map.Add` | map.go:56-72 | requires key and value of the configured sizes; appends `key ++ val` as the new last entry; earlier entries unchanged; `Len` grows by one; entry layout kept |
| `ConstantTimeMap.Map.Set` | map.go:74-98 | returns 0 or 1, and 1 iff some entry had the key; the new entries are `SetValues` of the old ones; `Len` unchanged; one compare and one copy per entry |
| `ConstantTimeMap.Map.Replace` | map.go:100-129 | returns 1 iff some entry had `oldKey`, else 0; only the first such entry becomes `newKey ++ val`, all others unchanged; one compare and two copies per entry |
| `ConstantTimeMap.Map.Rename` | map.go:131-154 | returns 1 iff some entry had `oldKey`, else 0; only the first such entry gets `newKey` as its key, keeping its value; one compare and one copy per entry |
| `ConstantTimeMap.Map.Contains` | map.go:156-171 | returns 0 or 1, and 1 iff some entry's key region is `key`; the map is not changed; one compare per entry |
| `ConstantTimeMap.Map.Lookup` | map.go:173-198 | returns 1 iff some entry has the key, else 0; on 1 the buffer holds the value of the first such entry, on 0 it keeps its bytes; the map is not changed; one compare and one copy per entry |
| `ConstantTimeMapProperties.FirstMatchFollowsMatches` | map.go:121-126 | which entry is the first match depends only on which entries match the key |
| `ConstantTimeMapProperties.SetKeepsFirstMatches` | map.go:91-95 | Set rewrites no key region, so every key has the same first match afterwards |
| `ConstantTimeMapProperties.SetThenLookup` | map.go:89-97 | after Set of a present key, Lookup of that key finds the new value |
| `ConstantTimeMapProperties.SetIdempotent` | map.go:89-97 | setting the same value twice gives the same entries as setting it once |
| `ConstantTimeMapProperties.AddCountsDuplicates` | map.go:50-54 | `Len` counts each duplicate: Add of a key already present adds one more entry with that key, so `Len` grows by one (Add's contract) whether or not the key was present; counts of other keys are unchanged |
| `ConstantTimeMapProperties.AddThenFirstMatch` | map.go:56-72 | Add does not deduplicate: an existing key keeps its first match; a new key's first match is the appended entry; other absent keys stay absent |
| `ConstantTimeMapProperties.ReplaceThenLookup` | map.go:119-128 | after Replace of a present key, `newKey` is present, and when it was absent before, Lookup of it finds `val` |
| `ConstantTimeMapProperties.ReplaceTouchesOnlyFirstMatch` | map.go:104-105 | Replace overwrites exactly the first matching entry; every other entry, later duplicates included, is unchanged |
| `ConstantTimeMapProperties.RenameRoundTrip` | map.go:145-153 | renaming a key to one not present and back gives the original entries |
| `ConstantTimeMapProperties.RenameThenLookup` | map.go:145-153 | after Rename of a present key, `newKey` is present, and when it was absent before, Lookup of it finds the value the first entry with `oldKey` had |
| `ConstantTimeMapProperties.RenameKeepsValue` | map.go:131-135 | the renamed entry has the new key, the same value and the same layout |

## Left out

- `Delete` and `Range`: the tests call them (map_test.go:163-227), but map.go has no source for them, so they are not part of this model.
- crypto/subtle is not part of this model. `Subtle` stands in for it with the documented algorithms, and only its contracts matter to the map.
- The constant-time guarantee itself, meaning instruction timing and memory-access patterns, cannot be expressed. The model states only that every scan makes the same number of primitive calls for any key and value contents.
- `NewWithCapacity`: preallocating storage is not observable in the model, so the capacity is only checked for being non-negative. A negative capacity makes Go's `make` panic.
- Panics on wrongly sized arguments are preconditions, not error values. So is ConstantTimeCopy's undefined behaviour for flags other than 0 or 1.
- Entries are values that the methods reassign. Go overwrites each entry's byte slice in place. The model does not capture two entries sharing backing bytes, which can only happen when a map is built by hand, as the tests do.
- `Len` returns an unbounded `nat`. Go's `int` cannot overflow there in practice.
