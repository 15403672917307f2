// The structures of src/external/uthash.h, instantiated at the allocation entry
// of src/interpret.c. An element and the handle embedded in it are one object.
module Handles {

  type Byte = b: nat | b < 256

  // The bytes a key pointer designates; their number is keylen.
  type Key = seq<Byte>

  // HASH_FUNCTION: any function of the key bytes.
  type HashFn = Key -> nat

  class Element {
    const key: Key

    var isLeaking: bool
    var allocSize: nat
    var traces: seq<nat>

    var tbl: Table?
    var prev: Element?
    var next: Element?
    var hhPrev: Element?
    var hhNext: Element?
    var hashv: nat

    constructor (key: Key, allocSize: nat)
      ensures this.key == key && isLeaking && this.allocSize == allocSize && traces == []
    {
      this.key := key;
      this.isLeaking, this.allocSize, this.traces := true, allocSize, [];
      tbl, prev, next, hhPrev, hhNext, hashv := null, null, null, null, null, 0;
    }
  }

  // One slot of the bucket array.
  datatype BucketSlot = BucketSlot(hhHead: Element?, count: nat, expandMult: nat)

  class Table {
    var buckets: array<BucketSlot>
    var numBuckets: nat
    var log2NumBuckets: nat
    var numItems: nat
    var tail: Element
    var idealChainMaxlen: nat
    var nonidealItems: nat
    var ineffExpands: nat
    var noexpand: bool

    // HASH_MAKE_TABLE
    constructor (head: Element)
      ensures fresh(buckets) && buckets.Length == numBuckets == 32 && log2NumBuckets == 5
      ensures forall b :: 0 <= b < buckets.Length ==> buckets[b] == BucketSlot(null, 0, 0)
      ensures tail == head && numItems == idealChainMaxlen == nonidealItems == ineffExpands == 0 && !noexpand
    {
      buckets := new BucketSlot[32](_ => BucketSlot(null, 0, 0));
      numBuckets, log2NumBuckets := 32, 5;
      tail := head;
      numItems, idealChainMaxlen, nonidealItems, ineffExpands, noexpand := 0, 0, 0, 0, false;
    }
  }
}
