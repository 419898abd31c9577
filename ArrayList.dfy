/** The growable array list of myarraylist.java (Trie.java nests a copy of the
    same class, MyArrayList, which is modelled by this one as well). */
module ArrayList {
  import opened Failures

  /** Capacity of a new list. */
  const DefaultCapacity: nat := 10

  class MyArrayList<T> {
    /** The backing buffer; an empty (Java `null`) slot is `None`. */
    var data: array<Option<T>>
    var size: nat

    /** The elements in the order they were added. */
    ghost var Contents: seq<T>
    ghost var Repr: set<object>

    ghost predicate Valid()
      reads this, Repr
    {
      Repr == {this, data} &&
      DefaultCapacity <= data.Length &&
      size <= data.Length &&
      |Contents| == size &&
      forall i :: 0 <= i < size ==> data[i] == Some(Contents[i])
    }

    constructor()
      ensures Valid() && fresh(Repr)
      ensures Contents == [] && data.Length == DefaultCapacity
    {
      data := new Option<T>[DefaultCapacity](_ => None);
      size := 0;
      Contents := [];
      Repr := {this, data};
    }

    /** Appends `value`, doubling the buffer first exactly when it is full. */
    method Add(value: T)
      requires Valid()
      modifies Repr
      ensures Valid() && fresh(Repr - old(Repr))
      ensures Contents == old(Contents) + [value]
      ensures data.Length == if old(size) == old(data.Length) then 2 * old(data.Length) else old(data.Length)
    {
      if size == data.Length {
        Grow();
      }
      data[size] := Some(value);
      size := size + 1;
      Contents := Contents + [value];
    }

    /** Returns the element added `index`-th, or throws for an index outside
        [0, size). */
    method Get(index: int) returns (r: Result<T>)
      requires Valid()
      ensures 0 <= index < |Contents| ==> r == Ok(Contents[index])
      ensures !(0 <= index < |Contents|) ==> r == Err(IndexOutOfRange(index))
    {
      if index < 0 || index >= size {
        return Err(IndexOutOfRange(index));
      }
      r := Ok(data[index].value);
    }

    method Size() returns (n: nat)
      requires Valid()
      ensures n == |Contents|
    {
      n := size;
    }

    method IsEmpty() returns (b: bool)
      requires Valid()
      ensures b <==> Contents == []
    {
      b := size == 0;
    }

    /** Replaces the buffer by one twice as long holding the same first `size`
        slots. */
    method Grow()
      requires Valid()
      modifies this
      ensures Valid() && fresh(data) && fresh(Repr - old(Repr))
      ensures data.Length == 2 * old(data.Length)
      ensures size == old(size) && Contents == old(Contents)
      ensures data[..size] == old(data[..size])
    {
      var newCapacity := data.Length * 2;
      var newData := new Option<T>[newCapacity](_ => None);
      for i := 0 to size
        modifies newData
        invariant forall k :: 0 <= k < i ==> newData[k] == data[k]
      {
        newData[i] := data[i];
      }
      data := newData;
      Repr := {this, data};
    }
  }

  /** A list holds one element per `Add`, in call order; the eleventh `Add`
      doubles the buffer from the default capacity 10 to 20. */
  method ArrayListScenario()
  {
    var list := new MyArrayList<int>();
    var empty := list.IsEmpty();
    assert empty;
    var k := 0;
    while k < 11
      invariant 0 <= k <= 11
      invariant list.Valid() && fresh(list.Repr)
      invariant list.Contents == seq(k, i => 100 + i)
      invariant list.data.Length == if k <= DefaultCapacity then DefaultCapacity else 2 * DefaultCapacity
    {
      list.Add(100 + k);
      k := k + 1;
    }
    assert list.data.Length == 20;
    var n := list.Size();
    assert n == 11;
    var x := list.Get(10);
    assert x == Ok(110);
    var y := list.Get(11);
    assert y == Err(IndexOutOfRange(11));
  }
}
