/** The results that stand for the optional values and the exceptions of the server. */
module Wrappers {

  datatype Option<+T> = None | Some(value: T)

  datatype Result<+T, +E> = Ok(value: T) | Err(error: E)

  function Prepend<T>(a: seq<T>, b: Option<seq<T>>): Option<seq<T>> {
    if b.Some? then Some(a + b.value) else None
  }

  lemma PrependTwice<T>(a: seq<T>, b: seq<T>, c: Option<seq<T>>)
    ensures Prepend(a, Prepend(b, c)) == Prepend(a + b, c)
  {
    if c.Some? {
      assert a + (b + c.value) == a + b + c.value;
    }
  }
}
