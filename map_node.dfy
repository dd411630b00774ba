/**
 * MapNode: one decoded slot of the table, a normalised key and a value.
 * A normalised key of 0 is the only sign that a slot is empty.
 */
module MapNodes {
  import opened Ints
  import opened Wrappers

  /** The value held by a node, as read from or written to the buffer. */
  datatype Entry = Entry(normalizedKey: Int64, value: Int64) {

    predicate IsEmpty() {
      normalizedKey == 0
    }

    /** The value a caller sees: none for an empty slot, whatever bytes the value field holds. */
    function Value(): (r: Option<Int64>)
      ensures r.None? <==> IsEmpty()
      ensures r.Some? ==> r.value == value
    {
      if IsEmpty() then None else Some(value)
    }
  }

  class MapNode {
    var normalizedKey: Int64
    var value: Int64

    constructor (normalizedKey: Int64, value: Int64)
      ensures this.normalizedKey == normalizedKey && this.value == value
    {
      this.normalizedKey := normalizedKey;
      this.value := value;
    }

    /** The node's fields as a value. */
    function View(): Entry
      reads this
    {
      Entry(normalizedKey, value)
    }

    function GetNormalizedKey(): Int64
      reads this
    {
      normalizedKey
    }

    /** getValue(): null exactly when the node is empty, the stored value otherwise. */
    function GetValue(): (r: Option<Int64>)
      reads this
      ensures r.None? <==> normalizedKey == 0
      ensures r.Some? ==> r.value == value
    {
      View().Value()
    }

    predicate IsEmpty()
      reads this
      ensures IsEmpty() <==> normalizedKey == 0
    {
      View().IsEmpty()
    }

    method UpdateKey(normalizedKey: Int64)
      modifies this
      ensures this.normalizedKey == normalizedKey
      ensures value == old(value)
    {
      this.normalizedKey := normalizedKey;
    }

    method UpdateValue(value: Int64)
      modifies this
      ensures this.value == value
      ensures normalizedKey == old(normalizedKey)
    {
      this.value := value;
    }
  }
}
