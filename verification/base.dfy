/** Small shared vocabulary: optional values for Java's nullable references,
    results for methods that throw, Java's signed byte, and two string helpers. */
module Base {

  /** A Java reference that may be null. */
  datatype Option<+T> = None | Some(value: T)

  /** The outcome of a Java method that either returns or throws. */
  datatype Result<+T, +E> = Ok(value: T) | Err(error: E)

  /** Java's `byte`: a signed 8-bit integer. */
  newtype byte = b: int | -128 <= b < 128

  /** `String.startsWith`. */
  predicate StartsWith(s: string, prefix: string) {
    |prefix| <= |s| && s[..|prefix|] == prefix
  }

  /** `String.repeat` on a one-character string. */
  function Repeat(c: char, n: nat): (r: string)
    ensures |r| == n
    ensures forall i :: 0 <= i < n ==> r[i] == c
  {
    if n == 0 then "" else Repeat(c, n - 1) + [c]
  }
}
