/** Record identifiers: the address of a block and the index of an item in it. */
module Rids {

  datatype Rid = Rid(addr: int, idx: int)

  const NULL_RID := Rid(-1, 0)
}
