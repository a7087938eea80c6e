/** Shared vocabulary of the tailer model: file bytes, the two line-ending
    bytes, the byte-to-char cast and an optional value. */
module Common {

  /** One byte of a file, as returned by a single-byte read (0..255). */
  newtype byte = x: int | 0 <= x < 256

  /** Line feed: the only byte that terminates a line. */
  const LF: byte := 10

  /** Carriage return: held back, and dropped when it precedes a line feed. */
  const CR: byte := 13

  /** The `(char) ch` cast applied to every byte appended to a line: the
      character whose code is the byte value (no charset decoding). */
  function AsChar(b: byte): (c: char)
    ensures c as int == b as int
  {
    (b as int) as char
  }

  /** The absent-or-present value used where the source returns `null`. */
  datatype Option<+T> = None | Some(value: T)

  /** A line budget that is not positive allows no line at all. */
  function Max0(n: int): (r: nat)
    ensures n <= 0 ==> r == 0
    ensures n > 0 ==> r == n
  {
    if n > 0 then n else 0
  }

  /** No line feed occurs in `data` at or after index `from`. */
  predicate NoLineFeedFrom(data: seq<byte>, from: nat)
  {
    forall k :: from <= k < |data| ==> data[k] != LF
  }
}
