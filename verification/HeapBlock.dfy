/** The `block` struct, which the server and the client declare alike. */
module HeapBlock {
  import opened Common

  /** A block on the heap: its number and bytes are fixed when it is made, its flag is updated in place. */
  class CachedBlock {
    const blockNum: uint32
    const data: Chunk
    var isOld: bool

    constructor (blockNum: uint32, data: Chunk, isOld: bool)
      ensures this.blockNum == blockNum && this.data == data && this.isOld == isOld
    {
      this.blockNum, this.data, this.isOld := blockNum, data, isOld;
    }
  }
}
