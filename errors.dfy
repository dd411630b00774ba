/** The exceptions the map raises, one constructor per throw site. */
module Errors {

  datatype Error =
    /** RuntimeException 'Passed memory block size does not match real size'. */
    | SizeMismatch
    /** RuntimeException 'Not enough memory to keep at least one item'. */
    | NotEnoughMemory
    /** InvalidArgumentException "Max key is <maxKey>". */
    | MaxKeyExceeded(maxKey: int)
    /** InvalidArgumentException "Min key is <minKey>". */
    | MinKeyExceeded(minKey: int)
    /** OverflowException 'Capacity is over'. */
    | CapacityOver
}
