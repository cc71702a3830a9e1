/** Small value types shared by the picker modules. */
module Base {

  datatype Option<T> = None | Some(value: T)

  datatype Result<T, E> = Ok(value: T) | Err(error: E)

  /** What the operating system answers when asked to start a process.
      Starting processes is outside the model, so the answer is an input
      to every operation that spawns; `cause` is the text of the OS error. */
  datatype SpawnOutcome = Started | SpawnFailed(cause: string)

  predicate StartsWith(s: string, prefix: string)
  {
    |prefix| <= |s| && s[..|prefix|] == prefix
  }

  const U32Limit: nat := 0x1_0000_0000

  /** Rust's `u32`. */
  type U32 = x: int | 0 <= x < 0x1_0000_0000

  /** Rust's `n as u32` on a `usize`: keeps the low 32 bits. */
  function Wrap(n: nat): (r: U32)
    ensures r <= n
    ensures n < U32Limit ==> r == n
  {
    n % U32Limit
  }

  /** `(0..n).map(|i| i as u32)`: the identity projection over `n` candidates. */
  function Identity(n: nat): (r: seq<U32>)
    ensures |r| == n
    ensures forall i :: 0 <= i < n ==> r[i] == Wrap(i)
  {
    seq(n, i requires 0 <= i < n => Wrap(i))
  }
}
