/**
 * Storage: the recycling queue the labeller keeps its points, hole lists and region
 * records in. `Reset` forgets the elements without discarding them; `Grow` hands out
 * the next recycled element exactly as it was left, and allocates a new one only when
 * every recycled element is in use.
 */
module Storage {

  datatype Option<T> = None | Some(value: T)

  class FastQueue<T> {
    /** Every element allocated so far; those at `size` and beyond wait to be recycled. */
    var data: seq<T>
    var size: nat

    ghost predicate Valid()
      reads this
    {
      size <= |data|
    }

    /** The elements in use. */
    function Items(): seq<T>
      requires Valid()
      reads this
    {
      data[..size]
    }

    constructor ()
      ensures Valid() && data == [] && Items() == []
    {
      data, size := [], 0;
    }

    /** Empties the queue; the elements are kept for recycling. */
    method Reset()
      requires Valid()
      modifies this
      ensures Valid() && Items() == [] && data == old(data)
    {
      size := 0;
    }

    /**
     * Appends one element and returns it: the recycled element at position `size`,
     * unchanged, or `blank` when there is none left to recycle.
     */
    method Grow(blank: T) returns (item: T)
      requires Valid()
      modifies this
      ensures Valid()
      ensures item == if old(size) < |old(data)| then old(data)[old(size)] else blank
      ensures Items() == old(Items()) + [item]
      ensures data == if old(size) < |old(data)| then old(data) else old(data) + [blank]
    {
      if size == |data| {
        data := data + [blank];
      }
      item := data[size];
      size := size + 1;
    }

    /** Replaces element `i` in use by `v`. */
    method Set(i: nat, v: T)
      requires Valid() && i < size
      modifies this
      ensures Valid() && size == old(size)
      ensures Items() == old(Items())[i := v]
      ensures data[size..] == old(data)[size..]
    {
      data := data[i := v];
    }

    /** Grows the queue by one element and makes it `v`. */
    method Add(v: T)
      requires Valid()
      modifies this
      ensures Valid() && Items() == old(Items()) + [v]
    {
      var item := Grow(v);
      Set(size - 1, v);
    }

    /** Element `index`, or `None` where the queue refuses the index as out of bounds. */
    function Get(index: int): (r: Option<T>)
      requires Valid()
      reads this
      ensures r.Some? <==> 0 <= index < size
      ensures r.Some? ==> r.value == Items()[index]
    {
      if 0 <= index < size then Some(data[index]) else None
    }
  }
}
