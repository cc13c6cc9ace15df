/** What several modules share. */
module Common {

  datatype Option<T> = None | Some(value: T)

  type byte = n: nat | n < 256

  lemma Associative<T>(a: seq<T>, b: seq<T>, c: seq<T>)
    ensures a + b + c == a + (b + c)
  {
  }
}
