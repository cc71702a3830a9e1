/** The index projection: a list model that maps a position in the shown
    list to the original index of a candidate, and hands the UI reusable
    `Index` wrapper objects, taken from a pool when one is available. */
module IndexList {
  import opened Base

  /** One `items_changed(position, removed, added)` signal of a list model. */
  datatype ItemsChanged = ItemsChanged(position: U32, removed: U32, added: U32)

  /** The row length a listener keeps after applying one signal to the
      length it knew before. */
  function ListenerLength(known: int, change: ItemsChanged): int
  {
    known - change.removed + change.added
  }

  /** The wrapper object the UI binds to one row; its index is overwritten
      in place when the wrapper is reused. */
  class Index {
    var index: U32

    constructor (index: U32)
      ensures this.index == index
    {
      this.index := index;
    }
  }

  class ListModel {
    /** Position -> original index. */
    var items: seq<U32>
    /** Wrappers ready for reuse; `pop` takes the last one. */
    var pool: seq<Index>
    /** Every `items_changed` signal emitted so far. */
    ghost var emitted: seq<ItemsChanged>
    /** Every wrapper handed out by `Item`; nothing ever returns one to the pool. */
    ghost var handedOut: set<Index>

    /** No wrapper sits twice in the pool, and none that the UI holds is in it. */
    ghost predicate Valid()
      reads this
    {
      && (forall i, j :: 0 <= i < j < |pool| ==> pool[i] != pool[j])
      && (forall i :: 0 <= i < |pool| ==> pool[i] !in handedOut)
    }

    constructor ()
      ensures Valid()
      ensures items == [] && pool == [] && emitted == [] && handedOut == {}
    {
      items := [];
      pool := [];
      emitted := [];
      handedOut := {};
    }

    /** `n_items`: the length of the mapping, cast to `u32`. */
    function NItems(): (n: U32)
      reads this
      ensures n <= |items|
      ensures |items| < U32Limit ==> n == |items|
    {
      Wrap(|items|)
    }

    /** `item(position)`: no row past the end; otherwise a wrapper carrying
        the original index at that position, popped from the pool if it has
        one, freshly made if not. */
    method Item(position: U32) returns (r: Option<Index>)
      requires Valid()
      modifies this, pool
      ensures Valid()
      ensures items == old(items) && emitted == old(emitted)
      ensures r.None? <==> position >= |items|
      ensures r.None? ==> pool == old(pool) && handedOut == old(handedOut)
      ensures r.Some? ==> r.value.index == items[position]
      ensures r.Some? ==> r.value !in old(handedOut) && handedOut == old(handedOut) + {r.value}
      ensures r.Some? && old(pool) != [] ==>
        && r.value == old(pool)[|old(pool)| - 1]
        && pool == old(pool)[..|old(pool)| - 1]
      ensures r.Some? && old(pool) == [] ==> fresh(r.value) && pool == []
      ensures forall w :: w in pool ==> w.index == old(w.index)
    {
      if position >= |items| {
        return None;
      }
      var index := items[position];
      if |pool| > 0 {
        var wrapper := pool[|pool| - 1];
        pool := pool[..|pool| - 1];
        wrapper.index := index;
        handedOut := handedOut + {wrapper};
        r := Some(wrapper);
      } else {
        var wrapper := new Index(index);
        handedOut := handedOut + {wrapper};
        r := Some(wrapper);
      }
    }

    /** `set_indecies`: replace the mapping wholesale and emit one signal
        saying that, at position 0, no row was removed and the new length
        was added. */
    method SetIndices(indices: seq<U32>)
      requires Valid()
      modifies this
      ensures Valid()
      ensures items == indices
      ensures pool == old(pool) && handedOut == old(handedOut)
      ensures emitted == old(emitted) + [ItemsChanged(0, 0, Wrap(|indices|))]
    {
      items := indices;
      emitted := emitted + [ItemsChanged(0, 0, Wrap(|items|))];
    }
  }

  /** The signal `SetIndices` emits reports zero removed rows, so a listener
      that tracks the length by the signals ends at the new length exactly
      when the old mapping was empty. */
  lemma SetIndicesSignalTracksLength(oldLength: nat, indices: seq<U32>)
    requires oldLength < U32Limit && |indices| < U32Limit
    ensures ListenerLength(oldLength, ItemsChanged(0, 0, Wrap(|indices|))) == oldLength + |indices|
    ensures ListenerLength(oldLength, ItemsChanged(0, 0, Wrap(|indices|))) == |indices| <==> oldLength == 0
  {
  }

  /** Two wrappers taken in a row are different objects, and each carries
      the index of its own position: reusing a wrapper leaves no trace of
      the index it carried before. */
  method TwoRowsNeverAlias(list: ListModel, p: U32, q: U32) returns (a: Option<Index>, b: Option<Index>)
    requires list.Valid()
    modifies list, list.pool
    ensures list.Valid() && list.items == old(list.items)
    ensures a.Some? <==> p < |list.items|
    ensures b.Some? <==> q < |list.items|
    ensures a.Some? && b.Some? ==> a.value != b.value
    ensures a.Some? && b.Some? ==> a.value.index == list.items[p] && b.value.index == list.items[q]
  {
    a := list.Item(p);
    b := list.Item(q);
  }
}
