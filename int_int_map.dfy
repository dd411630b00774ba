/**
 * IntIntMap: an open-addressing hash table from int64 keys to int64 values
 * that lives entirely inside a caller-supplied block of bytes. Each method
 * is proved against the table specification of module Table, read through
 * the block's slot decoding.
 */
module IntIntMaps {
  import opened Ints
  import opened Wrappers
  import opened Errors
  import opened MapNodes
  import opened IndexedNodes
  import opened SlotCodec
  import opened Keys
  import opened Probing
  import opened Table

  /**
   * The constructor's checks: the declared size must be the block's real
   * size, and the block must hold at least one slot. The capacity is the
   * number of whole slots that fit.
   */
  function CapacityFor(realSize: nat, size: int): (r: Result<nat, Error>)
    ensures realSize != size ==> r == Failure(SizeMismatch)
    ensures realSize == size && size < ITEM_SIZE ==> r == Failure(NotEnoughMemory)
    ensures r.Ok? <==> realSize == size && size >= ITEM_SIZE
    ensures r.Ok? ==> r.value >= 1 && r.value * ITEM_SIZE <= size < (r.value + 1) * ITEM_SIZE
  {
    if realSize != size then Failure(SizeMismatch)
    else if size / ITEM_SIZE < 1 then Failure(NotEnoughMemory)
    else Ok(size / ITEM_SIZE)
  }

  class IntIntMap {
    /** The shared memory block; its length is what shmop_size reports. */
    const shm: array<byte>
    const capacity: nat
    const itemSize: nat

    ghost predicate Valid()
      reads this
    {
      itemSize == ITEM_SIZE && capacity >= 1 && capacity * ITEM_SIZE <= shm.Length
    }

    /** The slots, as the block's bytes decode right now. */
    ghost function Slots(): (s: seq<Entry>)
      reads this, shm
      requires Valid()
      ensures |s| == capacity
    {
      DecodeSlots(shm[..], capacity)
    }

    /** The part of the constructor that runs once its checks have passed. */
    constructor (shm: array<byte>, size: int)
      requires CapacityFor(shm.Length, size).Ok?
      ensures Valid() && this.shm == shm
      ensures capacity == CapacityFor(shm.Length, size).value
    {
      this.shm := shm;
      this.itemSize := 2 * PHP_INT_SIZE;
      this.capacity := size / (2 * PHP_INT_SIZE);
    }

    /** new IntIntMap(shm, size): throws on a size mismatch or a block too small for one slot. */
    static method Open(shm: array<byte>, size: int) returns (r: Result<IntIntMap, Error>)
      ensures r.Failure? ==> CapacityFor(shm.Length, size) == Failure(r.error)
      ensures r.Ok? ==> CapacityFor(shm.Length, size) == Ok(r.value.capacity)
      ensures r.Ok? ==> fresh(r.value) && r.value.Valid() && r.value.shm == shm
    {
      var checked := CapacityFor(shm.Length, size);
      if checked.Failure? {
        return Failure(checked.error);
      }
      var table := new IntIntMap(shm, size);
      return Ok(table);
    }

    /** put: store `value` under `key` and return the value it replaced, if any. */
    method Put(key: Int64, value: Int64) returns (r: Result<Option<Int64>, Error>)
      requires Valid()
      modifies shm
      ensures Valid()
      ensures PutOutcome(r, Slots()) == PutSpec(old(Slots()), key, value)
      ensures r.Failure? ==> shm[..] == old(shm[..])
      ensures r.Ok? ==> ValidKey(key) && Probe(old(Slots()), key).Some?
      ensures r.Ok? ==> shm[..] == WriteSlot(old(shm[..]), capacity, Probe(old(Slots()), key).value,
                                             PackEntry(NormalizeKey(key), value))
    {
      var invalid := ValidateKey(key);
      if invalid.Some? {
        return Failure(invalid.value);
      }
      var indexedNode := GetIndexedNodeByKey(key);
      if indexedNode.None? {
        return Failure(CapacityOver);
      }
      var node := indexedNode.value.GetNode();
      var previousValue := node.GetValue();
      node.UpdateKey(NormalizeKey(key));
      node.UpdateValue(value);
      WriteIndexedNode(indexedNode.value);
      return Ok(previousValue);
    }

    /** get: the value stored under `key`, if any. It never writes to the block. */
    method Get(key: Int64) returns (r: Result<Option<Int64>, Error>)
      requires Valid()
      ensures r == GetSpec(Slots(), key)
    {
      var invalid := ValidateKey(key);
      if invalid.Some? {
        return Failure(invalid.value);
      }
      var indexedNode := GetIndexedNodeByKey(key);
      if indexedNode.None? {
        return Ok(None);
      }
      return Ok(indexedNode.value.GetNode().GetValue());
    }

    /**
     * getIndexedNodeByKey: walk the candidate slots in probe order and return
     * the first that is empty or holds the key, with the node read from it.
     */
    method GetIndexedNodeByKey(key: Int64) returns (r: Option<IndexedNode>)
      requires Valid() && ValidKey(key)
      ensures r.None? <==> Probe(Slots(), key).None?
      ensures r.Some? ==> Probe(Slots(), key) == Some(r.value.index)
      ensures r.Some? ==> fresh(r.value) && fresh(r.value.node)
      ensures r.Some? ==> 0 <= r.value.index < capacity && r.value.node.View() == Slots()[r.value.index]
    {
      ghost var slots := Slots();
      var index := KeyHash(key, capacity);
      var normalizedKey := NormalizeKey(key);
      var indexCandidates := Range(index, capacity);
      if index > 0 {
        indexCandidates := indexCandidates + Range(0, index);
      } else {
        CandidatesFromZero(capacity);
      }
      ghost var cands := KeyCandidates(slots, key);
      assert indexCandidates == cands;
      var i := 0;
      while i < |indexCandidates|
        invariant 0 <= i <= |indexCandidates|
        invariant Slots() == slots
        invariant Passed(slots, key, i)
      {
        var indexCandidate := indexCandidates[i];
        var node := ReadNode(indexCandidate);
        if node.IsEmpty() {
          ProbeAt(slots, key, i);
          var found := new IndexedNode(indexCandidate, node);
          return Some(found);
        }
        if node.GetNormalizedKey() == normalizedKey {
          ProbeAt(slots, key, i);
          var found := new IndexedNode(indexCandidate, node);
          return Some(found);
        }
        PassedStep(slots, key, i);
        i := i + 1;
      }
      ProbeMiss(slots, key);
      return None;
    }

    /** packItem: the node's key and value as slot bytes; an empty node's value packs as 0. */
    function PackItem(node: MapNode): (data: seq<byte>)
      reads node
      ensures |data| == ITEM_SIZE
      ensures UnpackEntry(data) == Entry(node.normalizedKey, node.GetValue().GetOr(0))
    {
      UnpackPack(node.GetNormalizedKey(), node.GetValue().GetOr(0));
      PackEntry(node.GetNormalizedKey(), node.GetValue().GetOr(0))
    }

    /** unpackItem: a fresh node holding the entry that `binary` decodes to. */
    method UnpackItem(binary: seq<byte>) returns (node: MapNode)
      requires |binary| == ITEM_SIZE
      ensures fresh(node) && node.View() == UnpackEntry(binary)
    {
      var entry := UnpackEntry(binary);
      node := new MapNode(entry.normalizedKey, entry.value);
    }

    /** readNode: read slot `index` of the block into a fresh node. */
    method ReadNode(index: nat) returns (node: MapNode)
      requires Valid() && index < capacity
      ensures fresh(node) && node.View() == Slots()[index]
    {
      var offset := MemoryOffset(index);
      var data := shm[offset..offset + itemSize];
      node := UnpackItem(data);
    }

    /** shmop_write: copy `data` into the block at `offset`, leaving every other byte as it was. */
    method ShmopWrite(data: seq<byte>, offset: nat)
      requires offset + |data| <= shm.Length
      modifies shm
      ensures shm[..] == Splice(old(shm[..]), offset, data)
    {
      forall t | 0 <= t < |data| {
        shm[offset + t] := data[t];
      }
      assert shm[..] == Splice(old(shm[..]), offset, data);
    }

    /** writeIndexedNode: write the node back over the bytes of its slot, and nothing else. */
    method WriteIndexedNode(indexedNode: IndexedNode)
      requires Valid() && 0 <= indexedNode.index < capacity
      modifies shm
      ensures Valid()
      ensures shm[..] == WriteSlot(old(shm[..]), capacity, indexedNode.index, PackItem(indexedNode.node))
      ensures Slots() == old(Slots())[indexedNode.index :=
        Entry(indexedNode.node.normalizedKey, indexedNode.node.GetValue().GetOr(0))]
    {
      var offset := MemoryOffset(indexedNode.GetIndex());
      var data := PackItem(indexedNode.GetNode());
      ghost var before := shm[..];
      SlotFits(indexedNode.index, capacity);
      ShmopWrite(data, offset);
      DecodeSplice(before, capacity, indexedNode.index, data);
    }
  }

  /**
   * A ten-slot block of zero bytes: put(0, 2) and put(10, 3) return none
   * although both keys hash to slot 0; get(0) is then 2 and get(10) is 3.
   */
  method ModCollisionScenario() returns (put1: Result<Option<Int64>, Error>, put2: Result<Option<Int64>, Error>,
                                         first: Result<Option<Int64>, Error>, second: Result<Option<Int64>, Error>)
    ensures put1 == Ok(None) && put2 == Ok(None)
    ensures first == Ok(Some(2)) && second == Ok(Some(3))
  {
    var shm := new byte[10 * ITEM_SIZE](_ => 0);
    var created := IntIntMap.Open(shm, shm.Length);
    assert created.Ok?;
    var table := created.value;
    DecodeZeroBuffer(shm[..], table.capacity);
    ModCollision(table.Slots());
    put1 := table.Put(0, 2);
    put2 := table.Put(10, 3);
    first := table.Get(0);
    second := table.Get(10);
  }
}
