/** The machine word, and sequences put together. */
module Basics {

  // The range of `size_t`, `unsigned long` and `uint64_t`.
  const WORD: int := 0x1_0000_0000_0000_0000

  lemma Associative<T>(a: seq<T>, b: seq<T>, c: seq<T>)
    ensures a + (b + c) == (a + b) + c
    ensures a + [] == a && [] + c == c
  {
  }
}
