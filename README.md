# int-int-map in Dafny

A model of `IntIntMap`, a PHP hash map from int keys to int values. The map
keeps all of its data inside one block of shared memory that the caller
allocates ahead of time. The block is split into slots of two platform
integers each, 16 bytes on a 64-bit build. The first integer of a slot is the
"normalised" key and the second is the value. A slot whose normalised key is 0
is empty. Collisions are resolved by linear probing: the probe starts at
`abs(key) % capacity` and wraps round once. The map never deletes, so the first
empty slot on a key's path ends the search.

The project has three layers:

- **Byte layer.** `Ints` holds the 8-byte two's-complement codec that
  `pack('Q')` and `unpack('Q')` apply. `SlotCodec` holds the slot layout and the
  write of one slot into the block.
- **Specification layer.** `Keys` covers validation, normalisation and the hash.
  `Probing` defines the probe path and the probe. `Table` defines `put` and
  `get` as functions over the decoded slots. It also defines the table
  invariant that probing without deletion maintains, and proves the map's
  promises about it.
- **Object layer.** `MapNodes.MapNode`, `IndexedNodes.IndexedNode` and
  `IntIntMaps.IntIntMap` are classes, as in the source. The memory block is an
  `array<byte>` that `put` changes in place. Each method is proved against the
  specification layer through `Slots()`, which is the block decoded slot by slot.

The source's exceptions become values of `Errors.Error`, returned in a `Result`.
The constructor checks the block before building the map, so it is modelled as
`IntIntMap.Open`, which returns the error or a new map. `Open` calls a
constructor whose precondition is that the checks passed.

## Model

| member | source | states |
|---|---|---|
| IntIntMaps.CapacityFor | app/src/IntIntMap.php:22-35 | If the declared size differs from the block's real size, the result is the size-mismatch error. If the block is smaller than one slot, it is the not-enough-memory error. Otherwise the capacity is the number of whole 16-byte slots that fit, and it is at least 1. |
| IntIntMaps.IntIntMap.constructor | app/src/IntIntMap.php:22-35 | Builds a map over the given block with item size 2 * PHP_INT_SIZE. Its capacity is the one `CapacityFor` computes, and the map is valid. |
| IntIntMaps.IntIntMap.Open | app/src/IntIntMap.php:22-35 | Fails with exactly the error `CapacityFor` reports. On success it returns a fresh, valid map over the given block. |
| IntIntMaps.IntIntMap.Put | app/src/IntIntMap.php:43-63 | The result and the new decoded slots are those of `PutSpec` on the old slots. On failure no byte of the block changes. On success the block equals the old block with only the probed slot's 16 bytes replaced by the packed (normalised key, value). |
| IntIntMaps.IntIntMap.Get | app/src/IntIntMap.php:70-81 | The result is `GetSpec` of the current slots. The block is not written. |
| IntIntMaps.IntIntMap.GetIndexedNodeByKey | app/src/IntIntMap.php:83-108 | Returns null exactly when the probe finds no slot that is empty or holds the key. Otherwise it returns the slot the probe picks, as a fresh node holding that slot's decoded contents. |
| IntIntMaps.IntIntMap.PackItem | app/src/IntIntMap.php:115-118 | Produces 16 bytes that decode back to the node's normalised key and value. An empty node's value packs as 0, the way pack() treats null. |
| IntIntMaps.IntIntMap.UnpackItem | app/src/IntIntMap.php:120-125 | Returns a fresh node holding the entry the 16 bytes decode to. |
| IntIntMaps.IntIntMap.ReadNode | app/src/IntIntMap.php:169-180 | Returns a fresh node that equals the decoded slot `index`. |
| IntIntMaps.IntIntMap.ShmopWrite | app/src/IntIntMap.php:162 | Only the bytes from `offset` up to `offset` plus the length of `data` change, and they become `data`. |
| IntIntMaps.IntIntMap.WriteIndexedNode | app/src/IntIntMap.php:156-167 | The block becomes the old block with the node's slot overwritten by the packed node. The decoded slots are the old ones with that single slot replaced. |
| IntIntMaps.ModCollisionScenario | app/tests/unit/IntIntMapTest.php:78-118 | On a zeroed ten-slot block, put(0, 2) and put(10, 3) both return null, then get(0) is 2 and get(10) is 3; all four results are in the contract. |
| Keys.ValidateKey | app/src/IntIntMap.php:187-198 | No error exactly when the key is neither PHP_INT_MAX nor PHP_INT_MIN. The error names PHP_INT_MAX - 1 or PHP_INT_MIN + 1 as the bound. |
| Keys.NormalizeKey | app/src/IntIntMap.php:127-130 | A normalised key is never 0, so it never looks like an empty slot. It is positive exactly when the key is non-negative. For any key other than PHP_INT_MIN it is never PHP_INT_MIN; PHP_INT_MIN itself maps to itself, and `Keys.ValidateKey` rejects it before any caller normalises it. |
| Keys.DenormalizeNormalize | app/src/IntIntMap.php:127-130 | Normalisation of a valid key can be undone. |
| Keys.NormalizeDenormalize | app/src/IntIntMap.php:127-130 | Every non-empty normalised key other than PHP_INT_MIN is the normal form of some valid key. |
| Keys.NormalizeInjective | app/src/IntIntMap.php:127-130 | Two keys have the same normal form exactly when they are equal. |
| Keys.KeyHash | app/src/IntIntMap.php:110-113 | The hash of the raw key is a slot index below the capacity. |
| Keys.SignCollision | app/tests/unit/IntIntMapTest.php:36-76 | A key and its negation start their probe at the same slot. This is what the names of the two sign-collision tests intend. The keys those tests use, 1 and -2, do not collide in a ten-slot table: they start at slots 1 and 2. |
| Ints.DecodeEncodeUnsigned | app/src/IntIntMap.php:115-125 | Decoding an n-byte little-endian encoding returns the number that was encoded. |
| Ints.EncodeDecodeUnsigned | app/src/IntIntMap.php:115-125 | Re-encoding any byte string's value gives back the same bytes. |
| Ints.EncodeInt64 | app/src/IntIntMap.php:132-141 | pack with format 'Q' on a 64-bit build gives 8 bytes, and the top bit of the last byte is set exactly when the number is negative. That the bytes lose nothing is carried by `Ints.DecodeEncodeInt64` and `Ints.EncodeDecodeInt64`. |
| Ints.DecodeInt64 | app/src/IntIntMap.php:144-153 | unpack with format 'Q' reads any 8 bytes as an int64, with no failure path, and the result is negative exactly when the top bit of the last byte is set. That it inverts pack is carried by `Ints.DecodeEncodeInt64` and `Ints.EncodeDecodeInt64`. |
| Ints.DecodeEncodeInt64 | app/src/IntIntMap.php:115-125 | Unpacking a packed int64 gives it back, negative values included. |
| Ints.EncodeDecodeInt64 | app/src/IntIntMap.php:115-125 | Every 8-byte pattern is the packing of the int64 it unpacks to. |
| Ints.DecodeZeroInt64 | app/src/IntIntMap.php:120-125 | Eight zero bytes unpack to 0. |
| SlotCodec.PackEntry | app/src/IntIntMap.php:115-118 | A slot image is 16 bytes. The sign of the normalised key is the top bit of byte 7 and the sign of the value is the top bit of byte 15, so the key comes first. That the image loses nothing is carried by `SlotCodec.UnpackPack` and `SlotCodec.PackUnpack`. |
| SlotCodec.UnpackEntry | app/src/IntIntMap.php:120-125 | Any 16 bytes decode to an entry, with no failure path. The key's sign is read from byte 7 and the value's from byte 15. That it inverts packing is carried by `SlotCodec.UnpackPack` and `SlotCodec.PackUnpack`. |
| SlotCodec.UnpackPack | app/src/IntIntMap.php:115-125 | Unpacking a packed (normalised key, value) pair gives back the same pair. |
| SlotCodec.PackUnpack | app/src/IntIntMap.php:115-125 | Every 16-byte slot image is the packing of the pair it unpacks to. |
| SlotCodec.UnpackZero | app/src/IntIntMap.php:120-125 | Sixteen zero bytes unpack to the empty slot (0, 0). |
| SlotCodec.MemoryOffset | app/src/IntIntMap.php:182-185 | The offset is a multiple of the item size, and dividing it by the item size gives back the slot index. |
| SlotCodec.Splice | app/src/IntIntMap.php:162 | The length is kept, the written range holds the data, and every byte outside that range is unchanged. |
| SlotCodec.DecodeSplice | app/src/IntIntMap.php:156-167 | Writing one slot's bytes changes that slot's decoded entry to the data's entry, and leaves every other slot's entry as it was. |
| SlotCodec.DecodeZeroBuffer | app/tests/unit/IntIntMapTest.php:14-19 | A freshly created, zeroed block decodes to all-empty slots. |
| Probing.Candidates | app/src/IntIntMap.php:89-93 | The candidate list for a key hashing to `index` has one entry per slot, starts at `index`, and names only slots of the table. That every slot appears exactly once, in wrap-around order from `index`, is carried by `Probing.CandidatesArePermutation`. |
| Probing.Range | app/src/IntIntMap.php:89-93 | For lo < hi, `range(lo, hi - 1)` has hi - lo elements, and element i is lo + i. Both calls in the source meet lo < hi: the first because the hash is below the capacity, the second because it runs only when the hash is positive. |
| Probing.CandidatesArePermutation | app/src/IntIntMap.php:89-93 | The candidate list has one entry per slot. Entry i is (hash + i) % capacity. The entries are pairwise distinct, so every slot appears exactly once. |
| Probing.FirstStop | app/src/IntIntMap.php:95-105 | The result is the first candidate position whose slot is empty or holds the key. No earlier candidate stops, and if the result is none then no candidate stops. |
| Probing.KeyCandidates | app/src/IntIntMap.php:85-93 | The probe path of a key has one entry per slot, each a valid slot index. |
| Probing.Probe | app/src/IntIntMap.php:83-108 | A slot the probe returns is in range, and it is either empty or holds the key. |
| Probing.ProbeNoneIff | app/src/IntIntMap.php:83-108 | The probe returns null exactly when every slot holds some other key. |
| Probing.ProbeAt | app/src/IntIntMap.php:95-105 | If a candidate position stops the probe and no earlier one does, the probe returns that candidate. |
| Probing.PassedStep | app/src/IntIntMap.php:95-105 | One more candidate that does not stop the probe extends the prefix of candidates that do not stop it. |
| Probing.ProbeMiss | app/src/IntIntMap.php:107 | If no candidate stops the probe, the probe returns null. |
| Probing.ProbeAfterWrite | app/src/IntIntMap.php:53-60 | Writing the key into the slot the probe found keeps the probe at that slot. |
| Probing.ProbeStable | app/src/IntIntMap.php:83-108 | Suppose the probe for a key found a slot. Writing into any other slot leaves the probe's result unchanged, as long as the write does not turn a slot that let the probe pass into one that stops it. |
| Table.GetSpec | app/src/IntIntMap.php:70-81 | `get` fails exactly when the key is PHP_INT_MAX or PHP_INT_MIN; on a full table it answers null rather than throwing. A value it returns is the value stored in the probed slot under the key. |
| Table.PutSpec | app/src/IntIntMap.php:43-63 | `put` as a function of the slots. It keeps the number of slots. |
| Table.EmptyIsWellFormed | app/tests/unit/IntIntMapTest.php:14-19 | A table of empty slots satisfies the table invariant. |
| Table.KeysAreUnique | app/src/IntIntMap.php:43-63 | In a table satisfying the invariant, no key is held by two slots. |
| Table.GetStored | app/src/IntIntMap.php:70-81 | In a table satisfying the invariant, get of a stored key returns its value. |
| Table.GetAbsent | app/src/IntIntMap.php:70-81 | In any table, get of a key that no slot holds returns null, even when its probe passes occupied slots. |
| Table.GetMeansStored | app/src/IntIntMap.php:70-81 | In a table satisfying the invariant, get(key) is v exactly when some slot holds (key, v). |
| Table.ReservedKeysRejected | app/src/IntIntMap.php:187-198 | put and get fail with a key error exactly when the key is reserved. They report the max or min bound, and put then writes nothing. |
| Table.PutFullIff | app/src/IntIntMap.php:47-51 | put fails with "Capacity is over" exactly when every slot holds some other key. A failed put writes nothing. |
| Table.PutWritesOneSlot | app/src/IntIntMap.php:53-62 | A successful put changes exactly one slot, the probed one, to (normalised key, value). |
| Table.PutReturnsPrevious | app/src/IntIntMap.php:53-62 | put returns null for a key not yet stored, and the stored value for a key that is present. |
| Table.PutThenGet | app/src/IntIntMap.php:43-81 | After a successful put(key, v), get(key) is v in every table. |
| Table.PutPreservesWellFormed | app/src/IntIntMap.php:43-63 | put keeps the table invariant. |
| Table.PutOtherKey | app/tests/unit/IntIntMapTest.php:36-118 | A put of one key leaves get of every other key as it was. |
| Table.Occupied | app/src/IntIntMap.php:47-51 | The number of occupied slots is at most the number of slots. |
| Table.OccupiedUpdate | app/src/IntIntMap.php:53-60 | Overwriting a slot changes the occupied count by the emptiness of the old and new entries. |
| Table.OccupiedBelowFull | app/src/IntIntMap.php:47-51 | Some slot is empty exactly when the occupied count is below the capacity. |
| Table.OccupiedNone | app/tests/unit/IntIntMapTest.php:14-19 | A table of empty slots has no occupied slot. |
| Table.PutAll | app/tests/unit/IntIntMapTest.php:126-129 | A sequence of puts that stops at the first exception. It keeps the number of slots and counts the successful puts. |
| Table.PutFresh | app/src/IntIntMap.php:43-63 | A new key put into a table with a free slot succeeds with null. It takes one more slot, keeps the invariant, and is readable afterwards. Every slot holding another key is left unchanged. |
| Table.PutAllFresh | app/tests/unit/IntIntMapTest.php:120-130 | Distinct new keys put one after another all succeed while a slot is free. The first put after that fails with "Capacity is over". Every key put is readable, and every other key reads as before. |
| Table.PutAllFreshStep | app/tests/unit/IntIntMapTest.php:120-130 | The inductive step of `PutAllFresh`. Take a table with a free slot and a first item whose key is new and differs from every later key. If a batch outcome for the later items, starting from the table after the first put, has the `PutAllFresh` facts, then that outcome with one more success has them for the whole batch. |
| Table.PutAllFreshOthers | app/tests/unit/IntIntMapTest.php:120-130 | Under the premises of `PutAllFreshStep`, every valid key outside the puts that succeeded reads the same after the batch as before it. |
| Table.PutAllFreshStored | app/tests/unit/IntIntMapTest.php:120-130 | Under the premises of `PutAllFreshStep`, every key among the puts that succeeded reads back with its own value after the batch. |
| Table.CapacityExhausted | app/tests/unit/IntIntMapTest.php:120-130 | On an empty table, putting one more distinct key than there are slots fails with "Capacity is over" on the last put. The first `capacity` puts succeed and stay readable. |
| Table.ModCollision | app/tests/unit/IntIntMapTest.php:78-118 | On ten empty slots, keys 0 and 10 hash to the same slot. put(0, 2) and put(10, 3) both return null, and then get(0) is 2 and get(10) is 3. |
| MapNodes.Entry.Value | app/src/MapNode.php:21-28 | An entry's value is null exactly when the entry is empty; otherwise it is the stored value. |
| MapNodes.MapNode.constructor | app/src/MapNode.php:10-14 | The node holds the given normalised key and value. |
| MapNodes.MapNode.GetValue | app/src/MapNode.php:21-28 | Returns null exactly when the normalised key is 0; otherwise it returns the value field. |
| MapNodes.MapNode.IsEmpty | app/src/MapNode.php:30-33 | A node is empty exactly when its normalised key is 0. |
| MapNodes.MapNode.UpdateKey | app/src/MapNode.php:35-38 | Sets the normalised key and leaves the value unchanged. |
| MapNodes.MapNode.UpdateValue | app/src/MapNode.php:40-43 | Sets the value and leaves the normalised key unchanged. |
| IndexedNodes.IndexedNode.constructor | app/src/IndexedNode.php:10-14 | The indexed node pairs the given slot index with the given node. |

## Left out

- The shared-memory primitives are not modelled as calls. `shmop_size(shm_id)` becomes the length of the `array<byte>`.
- `shmop_read` becomes a slice of that array.
- `shmop_write` becomes `IntIntMap.ShmopWrite`, an in-place copy into the array.
- Their failure results are not modelled. These are `shmop_read` returning false, which raises "Error during node reading", and `shmop_write` writing fewer bytes than the item size, which raises "Error during node writing". The model has no such path: a read or write of a slot inside the block always succeeds.
- `ftok`, `shmop_open` and `shmop_delete` are left out, because they only create or remove the block. A freshly created block is taken to be zero bytes, which `SlotCodec.DecodeZeroBuffer` turns into a table of empty slots.
- PHP_INT_SIZE is fixed at 8. The 32-bit branch of `getPackFormat` and `getUnpackFormat` (format `I`) and their "not implemented" exception for other sizes are not modelled.
- `pack('Q')` uses the machine's byte order. The model fixes one byte order, little-endian. A big-endian build differs only in the bytes each slot holds: no property depends on the order beyond encode and decode agreeing.
- The exception messages are not built as strings. Each exception is an `Errors.Error`. The key errors carry the bound as a number (PHP_INT_MAX - 1, PHP_INT_MIN + 1) rather than the formatted message.
- Exception classes (RuntimeException, OverflowException, InvalidArgumentException) are not distinguished beyond the `Error` constructor.
- `MapNode::getNormalizedKey`, `IndexedNode::getIndex` and `IndexedNode::getNode` are functions that read a field. They carry no contract of their own. The index and node of an `IndexedNode` are `const` fields, because the source never reassigns them.
- Concurrent use of one block by several processes is not modelled. Each method runs alone on the block.
- The complexity promises (O(1) without collisions) are not modelled.
- `app/example.php` and the PHPUnit scaffolding are not part of this model, and neither is reading the command line or printing. The scenario of `app/example.php`, lines 7-30, which opens a one-slot block and runs put(k, v) then get(k), is an instance of `Table.PutThenGet`. The unit tests' scenarios appear as `Table.ModCollision`, `Table.CapacityExhausted` and `IntIntMaps.ModCollisionScenario`.
- IntIntMaps.CapacityFor: the capacity is the exact number of whole slots, `size / 16` in integers. The source computes `(int)floor($size / $this->itemSize)`. In PHP that division gives a float whenever 16 does not divide the size, and from 2^53 bytes up the float is rounded. For such blocks the source's capacity can be one more than the model's. For example, a size of 2^54 + 15 gives 2^50 + 1 in PHP and 2^50 in the model. Floating-point rounding is not modelled.
- Probing.Candidates: the candidate list is a sequence of any length, so `IntIntMaps.IntIntMap.GetIndexedNodeByKey`, `Put` and `Get` succeed for every capacity. The source builds the list with `range()` as a PHP array of one element per slot. For a very large block, such as the "~100GB" block the constructor's comment mentions (about 6e9 slots), that array runs into `memory_limit` or the engine's maximum array size, and put and get fail there. The model has no memory limit.
- Table.GetMeansStored: the independence properties need the table invariant `Table.WellFormed` as a precondition. These are `GetMeansStored`, `GetStored`, `KeysAreUnique`, `PutReturnsPrevious`, `PutOtherKey` and `PutAllFresh`. The source relies on the block only ever being written by `put`. `EmptyIsWellFormed` and `PutPreservesWellFormed` show that every table built that way satisfies the invariant. `PutThenGet` and `GetAbsent` need no invariant.
