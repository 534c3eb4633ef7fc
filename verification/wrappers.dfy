/** Failure-carrying wrappers shared by the whole model. */
module Wrappers {

  /** A value that may be absent; `None` stands for Python's `None`. */
  datatype Option<+T> = None | Some(value: T)

  /** The exceptions the modelled code raises and never catches. */
  datatype Exception =
    | IndexError                      // a list index past the end, as in `h.split(',')[1]`
    | ValueError                      // `int(s)` on a non-numeric string; `list.remove` of an absent item
    | AttributeError                  // an attribute looked up on `None`
    | ReferencePropertyResolveError   // following a reference to an entity that is no longer stored
    | BadValueError                   // a value a datastore property does not accept
    | UnicodeEncodeError              // non-ASCII text where `hashlib` or `hmac` needs bytes (a ValueError)

  /** The result of evaluating a Python expression that may raise. */
  datatype Py<+T> = Ok(value: T) | Raise(exc: Exception)

  /** Look a key up in a table: the datastore's `get_by_id`. */
  function Lookup<K, V>(m: map<K, V>, k: K): (r: Option<V>)
    ensures r.Some? <==> k in m
    ensures r.Some? ==> r.value == m[k]
  {
    if k in m then Some(m[k]) else None
  }
}
