/**
 * Typed indices: an append-only vector `TyVec<I, T>` that is indexed by a
 * strong index type `I` instead of a bare position, so that indices of
 * different arenas cannot be mixed up.
 */
module Tyndex {
  import opened Wrappers

  /**
   * What the `Tyndex` trait's `from_index` and `to_index` are taken to
   * satisfy: converting a position to an index and back gives the position.
   * The trait itself does not state this; every `TyVec` is built under it.
   */
  ghost predicate IsTyndex<I>(fromIndex: nat -> I, toIndex: I -> nat) {
    forall i: nat {:trigger fromIndex(i)} :: toIndex(fromIndex(i)) == i
  }

  /** The canonical index type: a newtype over `nat`. */
  newtype Ix = i: int | 0 <= i

  function IxFromIndex(i: nat): Ix {
    i as Ix
  }

  function IxToIndex(ix: Ix): nat {
    ix as nat
  }

  /** `Ix` meets the index assumption. */
  lemma IxIsTyndex()
    ensures IsTyndex(IxFromIndex, IxToIndex)
  {
  }

  class TyVec<I(!new), T> {
    /** The underlying `Vec<T>`. */
    var raw: seq<T>
    /** `I::from_index` */
    const fromIndex: nat -> I
    /** `I::to_index` */
    const toIndex: I -> nat

    ghost predicate Valid() {
      IsTyndex(fromIndex, toIndex)
    }

    /** `TyVec::from_raw`: wraps the given vector as it is. */
    constructor FromRaw(raw: seq<T>, fromIndex: nat -> I, toIndex: I -> nat)
      requires IsTyndex(fromIndex, toIndex)
      ensures Valid()
      ensures this.raw == raw
      ensures this.fromIndex == fromIndex && this.toIndex == toIndex
    {
      this.raw := raw;
      this.fromIndex := fromIndex;
      this.toIndex := toIndex;
    }

    /** `TyVec::len`: the length, as an index; it converts back to the number of elements. */
    function Len(): (n: I)
      requires Valid()
      reads this
      ensures n == fromIndex(|raw|) && toIndex(n) == |raw|
    {
      fromIndex(|raw|)
    }

    /** `Index::index`: the element at `to_index(i)`; `None` stands for the out-of-range panic. */
    function Index(i: I): (r: Option<T>)
      reads this
      ensures r.Some? <==> toIndex(i) < |raw|
      ensures r.Some? ==> r.value == raw[toIndex(i)]
    {
      if toIndex(i) < |raw| then Some(raw[toIndex(i)]) else None
    }

    /**
     * `TyVec::push_and_idx`: appends `v` and returns the index it now has,
     * `from_index` of the old length.
     */
    method PushAndIdx(v: T) returns (i: I)
      requires Valid()
      modifies this
      ensures Valid()
      ensures raw == old(raw) + [v]
      ensures i == fromIndex(|old(raw)|) && toIndex(i) == |old(raw)|
      ensures Index(i) == Some(v)
      ensures forall j: I :: old(Index(j)).Some? ==> Index(j) == old(Index(j))
    {
      i := Len();
      raw := raw + [v];
    }

    /**
     * A write through `IndexMut::index_mut`: `raw[to_index(i)] = v`. Only that
     * position changes; `ok` is false for the out-of-range panic, which
     * changes nothing.
     */
    method IndexMut(i: I, v: T) returns (ok: bool)
      requires Valid()
      modifies this
      ensures Valid()
      ensures ok <==> toIndex(i) < |old(raw)|
      ensures raw == if ok then old(raw)[toIndex(i) := v] else old(raw)
      ensures ok ==> Index(i) == Some(v)
      ensures forall j: I :: toIndex(j) != toIndex(i) ==> Index(j) == old(Index(j))
    {
      ok := toIndex(i) < |raw|;
      if ok {
        raw := raw[toIndex(i) := v];
      }
    }

    /** `TyVec::enum_ref`: every element paired with its index, in order of position. */
    function EnumRef(): (r: seq<(I, T)>)
      reads this
      ensures |r| == |raw|
      ensures forall k :: 0 <= k < |r| ==> r[k].0 == fromIndex(k) && r[k].1 == raw[k]
    {
      seq(|raw|, k requires 0 <= k < |raw| reads this => (fromIndex(k), raw[k]))
    }

    /**
     * Each pair `enum_ref` yields reads back through `index`: its index
     * converts to its position and indexes its element.
     */
    lemma EnumRefIndexes(k: nat)
      requires Valid()
      requires k < |raw|
      ensures toIndex(EnumRef()[k].0) == k
      ensures Index(EnumRef()[k].0) == Some(EnumRef()[k].1)
    {
    }
  }

  /** Two pushes onto a fresh vector hand out two indices that read back what was pushed. */
  method PushTwice<T>(a: T, b: T) returns (ia: Ix, ib: Ix)
    ensures ia == 0 && ib == 1
  {
    IxIsTyndex();
    var v := new TyVec<Ix, T>.FromRaw([], IxFromIndex, IxToIndex);
    ia := v.PushAndIdx(a);
    ib := v.PushAndIdx(b);
    assert v.Index(ia) == Some(a) && v.Index(ib) == Some(b);
    var all := v.EnumRef();
    assert all == [(ia, a), (ib, b)];
  }
}
