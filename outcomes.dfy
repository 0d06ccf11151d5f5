/** Wrapper datatypes that model Java's nullable references and thrown exceptions. */
module Outcomes {

  /** A Java reference that may be null: None stands for null. */
  datatype Option<+T> = None | Some(value: T)

  /** A call that either returns a value or throws. */
  datatype Result<+R, +E> = Success(value: R) | Failure(error: E)

  /** A void call that either completes or throws. */
  datatype Outcome<+E> = Pass | Fail(error: E)

  /** Map lookup in the style of java.util.Map.get: absent keys give null. */
  function Get<K, V>(m: map<K, V>, k: K): (r: Option<V>)
    ensures r.Some? <==> k in m
    ensures r.Some? ==> r.value == m[k]
  {
    if k in m then Some(m[k]) else None
  }
}
