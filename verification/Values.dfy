/** Addresses and tagged values shared by all the data structures. */
module Values {

  // The null offset. No allocated block has it.
  const NIL: nat := 0

  // A cross-pool pointer: which pool, and the offset inside it.
  datatype Addr = Addr(poolIdx: int, offset: nat)

  const NULL_ADDR: Addr := Addr(-1, NIL)

  datatype ValKind = IntVal | StrVal | ChainVal | MapVal | SetVal

  // A tagged value; `value` is the address of the record that holds it.
  datatype Val = Val(kind: ValKind, value: Addr)

  // The size of a value record in bytes.
  const VAL_SIZE: nat := 12
}
