/** Python's `None`-or-value, as used for an argument that may be absent. */
module Optional {

  datatype Option<+T> = None | Some(value: T)

  /** The later of two assignments to the same variable: a later `Some`
      overwrites, a later `None` (no assignment) keeps the earlier value. */
  function Later<T>(earlier: Option<T>, later: Option<T>): (r: Option<T>)
    ensures later.Some? ==> r == later
    ensures later.None? ==> r == earlier
  {
    if later.Some? then later else earlier
  }

  /** Three assignments in a row: only the order matters, not the grouping. */
  lemma LaterAssociative<T>(a: Option<T>, b: Option<T>, c: Option<T>)
    ensures Later(Later(a, b), c) == Later(a, Later(b, c))
  {
  }
}
