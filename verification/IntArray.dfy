/** The growing integer array (src/utils/c_int_array.c). */
module IntArray {

  const MAX_SIZE: nat := 5000
  const MEMORY_INCREMENT: nat := 15

  /** What an array pointer stands for. */
  datatype Numbers = Null | Has(items: seq<int>)

  /** Numbers added one by one: once the array is full the pointer is NULL, and stays so. */
  function AddAll(n: Numbers, xs: seq<int>): Numbers {
    if n.Null? || (xs != [] && |n.items| + |xs| > MAX_SIZE) then Null else Has(n.items + xs)
  }

  lemma AddAllConcat(n: Numbers, xs: seq<int>, ys: seq<int>)
    ensures AddAll(AddAll(n, xs), ys) == AddAll(n, xs + ys)
  {
  }

  /** The numbers behind a pointer. */
  function Behind(a: CmonIntArray?): Numbers
    reads a, if a == null then {} else {a.arr}
    requires a != null ==> a.Valid()
  {
    if a == null then Null else Has(a.Items())
  }

  class CmonIntArray {
    var len: nat
    const arr: array<int>

    predicate Valid()
      reads this
    {
      len <= arr.Length && 0 < arr.Length
    }

    function Items(): seq<int>
      reads this, arr
      requires Valid()
    {
      arr[..len]
    }

    constructor (size: nat)
      requires size > 0
      ensures Valid() && fresh(arr) && arr.Length == size && Items() == []
    {
      arr := new int[size];
      len := 0;
    }

    /** `cmon_int_arr_new(size)`: NULL for a size of 0. */
    static method New(size: nat) returns (a: CmonIntArray?)
      ensures a == null <==> size == 0
      ensures a != null ==> fresh(a) && fresh(a.arr) && a.Valid() && a.Items() == [] && a.arr.Length == size
    {
      if size == 0 { return null; }
      a := new CmonIntArray(size);
    }

    /** `cmon_int_arr_add(arr, x)`: the array with `x` behind its items, in place or moved to a
        larger one; NULL when there is no array or it holds 5000 items. */
    static method Add(a: CmonIntArray?, x: int) returns (b: CmonIntArray?)
      requires a != null ==> a.Valid()
      modifies a, if a == null then {} else {a.arr}
      ensures b != null ==> b.Valid()
      ensures Behind(b) == AddAll(old(Behind(a)), [x])
      ensures b != null && b != a ==> fresh(b) && fresh(b.arr)
    {
      if a == null { return null; }
      if a.len + 1 > MAX_SIZE { return null; }
      if a.arr.Length < a.len + 1 {
        b := New(a.arr.Length + MEMORY_INCREMENT);
        b.len := a.len + 1;
        for i := 0 to a.len
          invariant a.Valid() && a.len == old(a.len) && b.len == a.len + 1
          invariant a.Items() == old(a.Items()) && b.arr[..i] == a.arr[..i]
        {
          b.arr[i] := a.arr[i];
        }
        b.arr[a.len] := x;
        assert b.arr[..a.len] == old(a.Items());
      } else {
        a.arr[a.len] := x;
        a.len := a.len + 1;
        b := a;
      }
    }
  }
}
