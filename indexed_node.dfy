/**
 * IndexedNode: the answer of a probe, a slot index together with the node
 * read from that slot. Both are fixed at construction; the node is shared by
 * reference, so changes made to it through `node` are visible to whoever
 * writes the pair back.
 */
module IndexedNodes {
  import opened MapNodes

  class IndexedNode {
    const index: int
    const node: MapNode

    constructor (index: int, node: MapNode)
      ensures this.index == index && this.node == node
    {
      this.index := index;
      this.node := node;
    }

    function GetIndex(): int
      reads this
    {
      index
    }

    function GetNode(): MapNode
      reads this
    {
      node
    }
  }
}
