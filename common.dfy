/** Values shared by every part of the model: optional values (Java's nullable
    references), the error codes the services raise, and Java's 32-bit `int`. */
module Common {

  /** A nullable Java reference: `None` stands for `null`. */
  datatype Option<+T> = None | Some(value: T)

  /** The error codes a service call can end with. `NotFound`, `BadRequest` and
      `InvalidPermission` are the application's own codes; `Internal` stands for
      an unchecked exception the code does not catch (a null dereference, a lazy
      load of a missing row, a storage failure). */
  datatype ErrorCode = NotFound | BadRequest | InvalidPermission | Internal

  /** The outcome of a call that returns a value or throws. */
  datatype Result<+T> = Ok(value: T) | Err(code: ErrorCode)

  /** The outcome of a call that returns nothing or throws. */
  datatype Outcome = Pass | Fail(code: ErrorCode)

  /** Java's `int` (and `Integer`) range. */
  const INT_MIN: int := -0x8000_0000
  const INT_MAX: int := 0x7FFF_FFFF

  predicate InInt32(x: int) {
    INT_MIN <= x <= INT_MAX
  }

  /** Two's-complement wrap-around of a mathematical integer into the `int`
      range, as Java's `+`, `-` and `+=` on `int` do: whole periods of 2^32
      are taken off or added until the value fits. */
  function Wrap32(x: int): (r: int)
    ensures InInt32(r)
    ensures InInt32(x) ==> r == x
    decreases if x > INT_MAX then x else if x < INT_MIN then -x else 0
  {
    if x > INT_MAX then Wrap32(x - 0x1_0000_0000)
    else if x < INT_MIN then Wrap32(x + 0x1_0000_0000)
    else x
  }

  /** The wrapped value is congruent to the integer modulo 2^32. */
  lemma {:induction false} Wrap32Congruent(x: int)
    ensures (Wrap32(x) - x) % 0x1_0000_0000 == 0
    decreases if x > INT_MAX then x else if x < INT_MIN then -x else 0
  {
    if x > INT_MAX {
      Wrap32Congruent(x - 0x1_0000_0000);
    } else if x < INT_MIN {
      Wrap32Congruent(x + 0x1_0000_0000);
    }
  }

  /** One period past the top comes back at the bottom, and back. */
  lemma Wrap32OnePeriod(x: int)
    requires InInt32(x)
    ensures Wrap32(x + 0x1_0000_0000) == x && Wrap32(x - 0x1_0000_0000) == x
  {
  }
}
