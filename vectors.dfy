/**
 The part of `std::vector<int>` that the generators use: a growable list of
 ints that `push_back` extends at the end.
 */
module Vectors {

  class Vector {
    var elems: seq<int>

    /** An empty vector, as `vector<int> numbers;` declares it. */
    constructor ()
      ensures elems == []
    {
      elems := [];
    }

    /** `push_back(x)`: appends `x` and changes nothing else. */
    method PushBack(x: int)
      modifies this
      ensures elems == old(elems) + [x]
    {
      elems := elems + [x];
    }
  }
}
