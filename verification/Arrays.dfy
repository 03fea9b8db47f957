/** Arrays that are filled from the front and grow as `realloc` grows them. */
module Arrays {

  /** A larger array to which the elements so far have moved. */
  method Reallocate<T>(from: array<T>, capacity: nat, filler: T) returns (to: array<T>)
    requires from.Length <= capacity
    ensures fresh(to) && to.Length == capacity && to[..from.Length] == from[..]
  {
    to := new T[capacity](i => filler);
    forall i | 0 <= i < from.Length {
      to[i] := from[i];
    }
  }

  /** One more element behind the first `size`. */
  method Store<T>(a: array<T>, size: nat, x: T)
    requires size < a.Length
    modifies a
    ensures a[..size + 1] == old(a[..size]) + [x]
  {
    a[size] := x;
  }
}
