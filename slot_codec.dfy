/**
 * The binary layout of the table inside the shared block: slot `i` occupies
 * bytes [i * ITEM_SIZE, (i + 1) * ITEM_SIZE); within a slot, the normalised
 * key comes first and the value second, each as an 8-byte int64.
 */
module SlotCodec {
  import opened Ints
  import opened MapNodes

  /** Bytes per slot: two platform integers (2 * PHP_INT_SIZE), the key and then the value. */
  const ITEM_SIZE: nat := 16

  /**
   * packItem: the slot image of a (normalised key, value) pair. The key's sign
   * sits in byte 7 and the value's in byte 15; UnpackPack and PackUnpack say
   * that the image loses nothing.
   */
  function PackEntry(normalizedKey: Int64, value: Int64): (bs: seq<byte>)
    ensures |bs| == ITEM_SIZE
    ensures normalizedKey < 0 <==> bs[PHP_INT_SIZE - 1] >= 128
    ensures value < 0 <==> bs[ITEM_SIZE - 1] >= 128
  {
    EncodeInt64(normalizedKey) + EncodeInt64(value)
  }

  /**
   * unpackItem: every 16-byte pattern decodes to some entry; there is no
   * failure path. The key is read from bytes 0..7 and the value from 8..15.
   */
  function UnpackEntry(bs: seq<byte>): (e: Entry)
    requires |bs| == ITEM_SIZE
    ensures e.normalizedKey < 0 <==> bs[PHP_INT_SIZE - 1] >= 128
    ensures e.value < 0 <==> bs[ITEM_SIZE - 1] >= 128
  {
    Entry(DecodeInt64(bs[..PHP_INT_SIZE]), DecodeInt64(bs[PHP_INT_SIZE..]))
  }

  lemma {:induction false} UnpackPack(normalizedKey: Int64, value: Int64)
    ensures UnpackEntry(PackEntry(normalizedKey, value)) == Entry(normalizedKey, value)
  {
    var bs := PackEntry(normalizedKey, value);
    assert bs[..PHP_INT_SIZE] == EncodeInt64(normalizedKey);
    assert bs[PHP_INT_SIZE..] == EncodeInt64(value);
    DecodeEncodeInt64(normalizedKey);
    DecodeEncodeInt64(value);
  }

  lemma {:induction false} PackUnpack(bs: seq<byte>)
    requires |bs| == ITEM_SIZE
    ensures PackEntry(UnpackEntry(bs).normalizedKey, UnpackEntry(bs).value) == bs
  {
    EncodeDecodeInt64(bs[..PHP_INT_SIZE]);
    EncodeDecodeInt64(bs[PHP_INT_SIZE..]);
    assert bs == bs[..PHP_INT_SIZE] + bs[PHP_INT_SIZE..];
  }

  /** All-zero bytes are the empty slot (0, 0). */
  lemma {:induction false} UnpackZero(bs: seq<byte>)
    requires |bs| == ITEM_SIZE
    requires forall i :: 0 <= i < |bs| ==> bs[i] == 0
    ensures UnpackEntry(bs) == Entry(0, 0) && UnpackEntry(bs).IsEmpty()
  {
    DecodeZeroInt64(bs[..PHP_INT_SIZE]);
    DecodeZeroInt64(bs[PHP_INT_SIZE..]);
  }

  /** getMemoryOffset: where slot `index` starts; the index can be read back from it. */
  function MemoryOffset(index: nat): (offset: nat)
    ensures offset % ITEM_SIZE == 0 && offset / ITEM_SIZE == index
  {
    index * ITEM_SIZE
  }

  /** The bytes of slot `index`. */
  function SlotBytes(buffer: seq<byte>, index: nat): (bs: seq<byte>)
    requires MemoryOffset(index) + ITEM_SIZE <= |buffer|
    ensures |bs| == ITEM_SIZE
  {
    buffer[MemoryOffset(index)..MemoryOffset(index) + ITEM_SIZE]
  }

  /** The first `capacity` slots of a buffer, decoded. */
  function DecodeSlots(buffer: seq<byte>, capacity: nat): (slots: seq<Entry>)
    requires capacity * ITEM_SIZE <= |buffer|
    ensures |slots| == capacity
  {
    seq(capacity, i requires 0 <= i < capacity => UnpackEntry(SlotBytes(buffer, i)))
  }

  /** `buffer` with `data` written over it from `offset` on: what shmop_write does. */
  function Splice(buffer: seq<byte>, offset: nat, data: seq<byte>): (r: seq<byte>)
    requires offset + |data| <= |buffer|
    ensures |r| == |buffer|
    ensures r[offset..offset + |data|] == data
    ensures forall t :: 0 <= t < |buffer| && (t < offset || offset + |data| <= t) ==> r[t] == buffer[t]
  {
    buffer[..offset] + data + buffer[offset + |data|..]
  }

  /** Slot `index` of a table of `capacity` slots lies inside the table's bytes. */
  lemma {:induction false} SlotFits(index: nat, capacity: nat)
    requires index < capacity
    ensures MemoryOffset(index) + ITEM_SIZE <= capacity * ITEM_SIZE
  {
  }

  /** The buffer after slot `index` is overwritten with `data`. */
  function WriteSlot(buffer: seq<byte>, capacity: nat, index: nat, data: seq<byte>): (r: seq<byte>)
    requires capacity * ITEM_SIZE <= |buffer| && index < capacity && |data| == ITEM_SIZE
    ensures |r| == |buffer|
  {
    SlotFits(index, capacity);
    Splice(buffer, MemoryOffset(index), data)
  }

  /** Writing one slot's bytes changes that slot's decoding and no other. */
  lemma {:induction false} DecodeSplice(buffer: seq<byte>, capacity: nat, index: nat, data: seq<byte>)
    requires capacity * ITEM_SIZE <= |buffer|
    requires index < capacity && |data| == ITEM_SIZE
    ensures DecodeSlots(WriteSlot(buffer, capacity, index, data), capacity)
         == DecodeSlots(buffer, capacity)[index := UnpackEntry(data)]
  {
    var after := WriteSlot(buffer, capacity, index, data);
    forall j | 0 <= j < capacity
      ensures DecodeSlots(after, capacity)[j] == DecodeSlots(buffer, capacity)[index := UnpackEntry(data)][j]
    {
      if j != index {
        assert SlotBytes(after, j) == SlotBytes(buffer, j) by {
          forall t | 0 <= t < ITEM_SIZE
            ensures SlotBytes(after, j)[t] == SlotBytes(buffer, j)[t]
          {
            assert j < index || index < j;
          }
        }
      }
    }
  }

  /** A zeroed block reads as a table of empty slots. */
  lemma {:induction false} DecodeZeroBuffer(buffer: seq<byte>, capacity: nat)
    requires capacity * ITEM_SIZE <= |buffer|
    requires forall t :: 0 <= t < |buffer| ==> buffer[t] == 0
    ensures forall i :: 0 <= i < capacity ==> DecodeSlots(buffer, capacity)[i] == Entry(0, 0)
  {
    forall i | 0 <= i < capacity
      ensures DecodeSlots(buffer, capacity)[i] == Entry(0, 0)
    {
      UnpackZero(SlotBytes(buffer, i));
    }
  }
}
