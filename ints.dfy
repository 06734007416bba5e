/** Integer helpers shared by both tree modules. */
module Ints {

  /** std::max on integers. */
  function Max(a: int, b: int): int
  {
    if a < b then b else a
  }
}
