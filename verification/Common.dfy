// What several modules share.

module Common {
  datatype Option<+T> = None | Some(value: T)

  // The largest value of the source's int32_t and int.
  const INT_MAX := 0x7FFF_FFFF

  // Two to the power n.
  function Two(n: nat): (p: nat)
    ensures p >= 1
  {
    if n == 0 then 1 else 2 * Two(n - 1)
  }

  lemma ConcatAssoc<T>(a: seq<T>, b: seq<T>, c: seq<T>)
    ensures a + b + c == a + (b + c)
  {
  }
}
