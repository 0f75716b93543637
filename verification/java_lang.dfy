/** The few pieces of Java's value semantics the set relies on: the 32-bit
    `int` (with its wrap-around), possibly-null references, and the
    NullPointerException raised by dereferencing a null `next` link. */
module JavaLang {

  /** `Integer.MIN_VALUE` and `Integer.MAX_VALUE`. */
  const MIN_INT: int := -0x8000_0000
  const MAX_INT: int := 0x7fff_ffff

  /** Number of distinct `int` values; `int` arithmetic is modulo this. */
  const TWO_32: int := 0x1_0000_0000

  /** Java's primitive `int`. */
  type int32 = x: int | MIN_INT <= x <= MAX_INT

  /** The two's-complement result of an `int` computation whose exact value is `x`
      (what `AtomicInteger.incrementAndGet`/`decrementAndGet` store). */
  function Wrap32(x: int): (r: int32)
    ensures MIN_INT <= x <= MAX_INT ==> r == x
    ensures (r - x) % TWO_32 == 0
  {
    (x - MIN_INT) % TWO_32 + MIN_INT
  }

  /** Adding `d` to a wrapped `int` is the same as wrapping the exact sum:
      counting up and down in `int` tracks the exact count modulo 2^32. */
  lemma WrapAdd(x: int, d: int)
    ensures Wrap32(Wrap32(x) + d) == Wrap32(x + d)
  {
  }

  /** A Java reference that may be `null`. */
  datatype Option<+T> = None | Some(value: T)

  /** The outcome of a Java computation that either returns normally or
      throws `NullPointerException` by following a null link. */
  datatype Result<+R> = Ok(value: R) | NullPointerException
}
