/** Types shared by every module of the model. */
module Common {

  /** A byte of a stream: compared and copied, never combined bitwise. */
  newtype byte = x: int | 0 <= x < 0x100

  /** A byte of a secret, where the program works on its bits. */
  type octet = bv8

  datatype Option<+T> = None | Some(value: T)

  datatype Result<+T, +E> = Ok(value: T) | Err(error: E)

  function Min(a: int, b: int): int {
    if a <= b then a else b
  }

  function Max(a: int, b: int): int {
    if a <= b then b else a
  }

  lemma Associate<T>(a: seq<T>, b: seq<T>, c: seq<T>)
    ensures a + (b + c) == a + b + c
  {
  }
}
