/** What both kinds of search tree share: the two sides of a node and the order of keys. */
module TreeOrder {

  /** The two mirror images of every operation are one definition that takes a side. */
  datatype Side = Left | Right

  function Flip(s: Side): Side {
    if s.Left? then Right else Left
  }

  /**
    The comparator of the identifier map: negative when `a` comes first, that is, when `a` is
    the larger.
   */
  function Compare(a: int, b: int): int {
    if a > b then -1 else if a < b then 1 else 0
  }
}
