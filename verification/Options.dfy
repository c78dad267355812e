/** Optional values, results, and a map without one of its keys, shared by the models. */
module Options {
  datatype Option<T> = None | Some(value: T)

  datatype Result<T, E> = Ok(value: T) | Err(error: E)

  function WithoutKey<V>(m: map<nat, V>, k: nat): (r: map<nat, V>)
    ensures forall x :: x in r <==> x in m && x != k
    ensures forall x :: x in r ==> r[x] == m[x]
  {
    map x | x in m && x != k :: m[x]
  }
}
