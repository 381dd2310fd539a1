// Shared failure-carrying datatypes and facts about collections.
module Wrappers {
  datatype Option<+T> = None | Some(value: T)

  datatype Result<+T, +E> = Ok(value: T) | Err(error: E)

  lemma ElementOf<T>(s: set<T>) returns (x: T)
    requires s != {}
    ensures x in s
  {
    x :| x in s;
  }

  // One element further through a map.
  lemma OneLess<K, V>(m: map<K, V>, todo: set<K>, k: K)
    requires k in todo && k in m
    ensures k !in m - todo && m - (todo - {k}) == (m - todo)[k := m[k]]
  {
  }

  lemma ConcatAssociative<T>(a: seq<T>, b: seq<T>, c: seq<T>)
    ensures (a + b) + c == a + (b + c)
  {
  }
}
