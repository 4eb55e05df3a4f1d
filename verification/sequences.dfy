/** Small facts about sequence concatenation, stated once and used by the
    array, batch and mapping modules. */
module Sequences {
  lemma ConcatAssoc<T>(a: seq<T>, b: seq<T>, c: seq<T>)
    ensures (a + b) + c == a + (b + c)
  {
  }

  lemma ConcatIndex<T>(x: seq<T>, y: seq<T>, n: int)
    requires 0 <= n < |y|
    ensures |x| + n < |x + y| && (x + y)[|x| + n] == y[n]
  {
  }

  lemma DropConcat<T>(x: seq<T>, y: seq<T>, n: int)
    requires 0 <= n <= |x|
    ensures (x + y)[n..] == x[n..] + y
  {
  }
}
