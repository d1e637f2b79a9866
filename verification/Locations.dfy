/** Target memory by the word, and where a cursor finds a register's value. */
module Locations {
  import opened Machine

  /** The words that can be read. */
  type Memory = map<word, word>

  function Load(mem: Memory, addr: word): Option<word> {
    if addr in mem then Some(mem[addr]) else None
  }

  /** Where the cursor says a register's value is. */
  datatype Loc = Null | Value(v: word) | Mem(addr: word) | Unmodelled

  function Fetch(mem: Memory, l: Loc): Option<word> {
    match l
    case Value(v) => Some(v)
    case Mem(addr) => Load(mem, addr)
    case Null | Unmodelled => None
  }
}
