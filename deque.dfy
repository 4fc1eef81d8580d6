/** Membership in the body deque (`elementInDeque`). */
module Deque {

  /** Linear search of `deque` for `elem`, front to back. */
  method ElementInDeque<T(==)>(elem: T, deque: seq<T>) returns (found: bool)
    ensures found <==> elem in deque
  {
    var i := 0;
    while i < |deque|
      invariant 0 <= i <= |deque|
      invariant forall j :: 0 <= j < i ==> deque[j] != elem
    {
      if deque[i] == elem {
        return true;
      }
      i := i + 1;
    }
    return false;
  }
}
