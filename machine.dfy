/** Machine-level vocabulary shared by the models: the 32-bit `int` of the
    sources, the conversion of an `int` to `std::size_t`, and the outcome of
    a call that may throw a standard exception. */
module Machine {

  /** The sources' `int`. */
  newtype int32 = x: int | -0x8000_0000 <= x < 0x8000_0000

  const SizeModulus: int := 0x1_0000_0000_0000_0000

  /** A signed value converted to the 64-bit unsigned `std::size_t`: negative
      values wrap around to very large ones. */
  function ToSize(x: int): (r: nat)
    requires -SizeModulus / 2 <= x < SizeModulus / 2
    ensures r < SizeModulus
    ensures x >= 0 ==> r == x
    ensures x < 0 ==> r >= SizeModulus / 2
  {
    if x < 0 then x + SizeModulus else x
  }

  /** The standard exceptions the modelled code throws, with their `what()`. */
  datatype Exception = OutOfRange | InvalidArgument(what: string) | RuntimeError(what: string)

  /** A call either returns a value or throws. */
  datatype Result<T> = Ok(value: T) | Throws(ex: Exception)
}
