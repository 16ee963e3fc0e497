/** The dense id arena of `crates/hir-expand/src/arena.rs`. */
module Arenas {
  /** Ids are 32-bit: the cast of the length wraps. */
  const ID_SPACE: nat := 0x1_0000_0000

  class Arena<T> {
    var data: seq<T>

    constructor ()
      ensures data == []
    {
      data := [];
    }

    method Alloc(value: T) returns (id: nat)
      modifies this
      ensures data == old(data) + [value]
      ensures id == |old(data)| % ID_SPACE
    {
      id := |data| % ID_SPACE;
      data := data + [value];
    }
  }
}
