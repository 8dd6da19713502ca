/** The vector helpers of `util_std.hpp`: membership, minimum and maximum,
    and the in-place edits `vec_remove`, `vec_extend` and `vec_insert`. */
module StdVectors {
  /** `in_vector`: scans from the front and stops at the first match. */
  method InVector<T(==)>(val: T, vec: seq<T>) returns (found: bool)
    ensures found <==> val in vec
  {
    for i := 0 to |vec|
      invariant val !in vec[..i]
    {
      if val == vec[i] {
        return true;
      }
    }
    return false;
  }

  /** `get_min_in_vector`: reading `vec[0]` first, it needs a non-empty
      vector. */
  method GetMinInVector(vec: seq<real>) returns (minVal: real)
    requires |vec| > 0
    ensures minVal in vec
    ensures forall i :: 0 <= i < |vec| ==> minVal <= vec[i]
  {
    minVal := vec[0];
    for i := 0 to |vec|
      invariant minVal in vec
      invariant forall j :: 0 <= j < i ==> minVal <= vec[j]
    {
      if vec[i] < minVal {
        minVal := vec[i];
      }
    }
  }

  /** `get_max_in_vector`, the mirror image of `get_min_in_vector`. */
  method GetMaxInVector(vec: seq<real>) returns (maxVal: real)
    requires |vec| > 0
    ensures maxVal in vec
    ensures forall i :: 0 <= i < |vec| ==> vec[i] <= maxVal
  {
    maxVal := vec[0];
    for i := 0 to |vec|
      invariant maxVal in vec
      invariant forall j :: 0 <= j < i ==> vec[j] <= maxVal
    {
      if vec[i] > maxVal {
        maxVal := vec[i];
      }
    }
  }

  /** `s` without its element at `pos`; the later elements move down one. */
  function Removed<T>(s: seq<T>, pos: nat): (r: seq<T>)
    requires pos < |s|
    ensures |r| == |s| - 1
    ensures forall i :: 0 <= i < pos ==> r[i] == s[i]
    ensures forall i :: pos <= i < |r| ==> r[i] == s[i + 1]
  {
    s[..pos] + s[pos + 1..]
  }

  /** `s` with `val` placed at `index`; the later elements move up one. */
  function Inserted<T>(s: seq<T>, index: nat, val: T): (r: seq<T>)
    requires index <= |s|
    ensures |r| == |s| + 1 && r[index] == val
    ensures forall i :: 0 <= i < index ==> r[i] == s[i]
    ensures forall i :: index < i < |r| ==> r[i] == s[i - 1]
  {
    s[..index] + [val] + s[index..]
  }

  /** Removing what was just inserted gives the vector back. */
  lemma RemoveInserted<T>(s: seq<T>, index: nat, val: T)
    requires index <= |s|
    ensures Removed(Inserted(s, index, val), index) == s
  {
    var r := Removed(Inserted(s, index, val), index);
    assert forall i :: 0 <= i < |s| ==> r[i] == s[i];
  }

  /** Inserting back what was removed gives the vector back. */
  lemma InsertRemoved<T>(s: seq<T>, pos: nat)
    requires pos < |s|
    ensures Inserted(Removed(s, pos), pos, s[pos]) == s
  {
    var r := Inserted(Removed(s, pos), pos, s[pos]);
    assert forall i :: 0 <= i < |s| ==> r[i] == s[i];
  }

  /** The edits change the multiset of elements by exactly one. */
  lemma EditCounts<T>(s: seq<T>, index: nat, val: T)
    requires index < |s|
    ensures multiset(Inserted(s, index, val)) == multiset(s) + multiset{val}
    ensures multiset(Removed(s, index)) == multiset(s) - multiset{s[index]}
  {
    assert s == s[..index] + s[index..];
    assert s[index..] == [s[index]] + s[index + 1..];
  }

  /** A `std::vector<T>` that the edit helpers take by reference. */
  class Vector<T> {
    var elems: seq<T>

    constructor(init: seq<T>)
      ensures elems == init
    {
      elems := init;
    }

    /** `vec_remove(vec, pos)`: erasing at `pos` needs a valid position. */
    method Remove(pos: nat)
      requires pos < |elems|
      modifies this
      ensures elems == Removed(old(elems), pos)
    {
      elems := elems[..pos] + elems[pos + 1..];
    }

    /** `vec_extend(vec, vec_add)`: appends the other vector at the end. */
    method Extend(vecAdd: seq<T>)
      modifies this
      ensures elems == old(elems) + vecAdd
    {
      elems := elems + vecAdd;
    }

    /** `vec_insert(vec, index, val)`: inserts before position `index`,
        which may be the end. */
    method Insert(index: int, val: T)
      requires 0 <= index <= |elems|
      modifies this
      ensures elems == Inserted(old(elems), index, val)
    {
      elems := elems[..index] + [val] + elems[index..];
    }
  }
}
