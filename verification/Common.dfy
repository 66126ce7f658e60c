/**
 What several parts of the model share: optional values, 32-bit words and pages.
 */
module Common {

  datatype Option<+T> = None | Some(value: T)

  /** The number of values of a 32-bit word. */
  const WORD := 0x1_0000_0000

  /** Pages in the 32-bit address space, and bytes in a page. */
  const PAGES := 0x10_0000
  const PAGE_SIZE := 4096

  /** 32-bit unsigned decrement. */
  function Dec(x: nat): nat {
    if x == 0 then WORD - 1 else x - 1
  }
}
