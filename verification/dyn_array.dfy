/**
 * The growable array of `c-impl/include/stx/stx/dyn_array.h`.  In C the
 * length and capacity sit in a header just before the elements; here an
 * array is its elements as a sequence plus its capacity.  The allocator
 * behind the array is reduced to whether an allocation succeeds.
 */
module DynArray {
  import opened Wrappers

  /** `ARRAY_INITIAL_CAPACITY`, used by the `array` macro. */
  const InitialCapacity: nat := 16

  /** The largest `size_t`, which `h->len - 1` becomes when the length is 0. */
  const SizeMax: nat := 0xFFFF_FFFF_FFFF_FFFF

  datatype Array<T> = Array(items: seq<T>, capacity: nat)

  /** The header invariant: the capacity is positive and the length never exceeds it. */
  predicate Valid<T>(a: Array<T>) {
    0 < a.capacity && |a.items| <= a.capacity
  }

  /**
   * `array_init`: an empty array with the requested capacity, or NULL
   * (`None`) when the allocator refuses the block.
   */
  function ArrayInit<T>(capacity: nat, granted: bool): (r: Option<Array<T>>)
    ensures r.Some? <==> granted
    ensures r.Some? ==> |r.value.items| == 0 && r.value.capacity == capacity
    ensures r.Some? && capacity > 0 ==> Valid(r.value)
  {
    if granted then Some(Array([], capacity)) else None
  }

  /** The `array` macro: `array_init` with the initial capacity of 16. */
  function ArrayNew<T>(granted: bool): (r: Option<Array<T>>)
    ensures r.Some? <==> granted
    ensures r.Some? ==> Valid(r.value) && |r.value.items| == 0 && r.value.capacity == InitialCapacity
  {
    ArrayInit(InitialCapacity, granted)
  }

  /**
   * `array_ensure_capacity`: keeps the capacity while it exceeds
   * `len + 1`, and doubles it otherwise.  Elements are carried over by the
   * resize.  Either way the slot at index `len` is then in bounds.
   */
  function EnsureCapacity<T>(a: Array<T>): (r: Array<T>)
    requires Valid(a)
    ensures Valid(r) && r.items == a.items
    ensures |r.items| < r.capacity
    ensures r.capacity == a.capacity <==> a.capacity > |a.items| + 1
    ensures r.capacity != a.capacity ==> r.capacity == 2 * a.capacity
  {
    if a.capacity > |a.items| + 1 then a else a.(capacity := a.capacity * 2)
  }

  /** `array_append`: one more element, equal to `v`, after all the old ones. */
  function Append<T>(a: Array<T>, v: T): (r: Array<T>)
    requires Valid(a)
    ensures Valid(r)
    ensures |r.items| == |a.items| + 1
    ensures r.items[|a.items|] == v
    ensures r.items[..|a.items|] == a.items
    ensures r.capacity >= a.capacity
  {
    var b := EnsureCapacity(a);
    b.(items := b.items + [v])
  }

  /**
   * `array_remove`: removing the last element only shrinks the length;
   * removing any other element moves the last one into its slot.  The index
   * is not checked against the length: with two or more elements, an index
   * past the end still shortens the array, and the last element's copy
   * lands in a spare slot, so that element is lost.  With `i == len - 1`
   * compared in `size_t`, a length-0 array would wrap its length, so the
   * index `SIZE_MAX` is excluded there; an index past the capacity would
   * write outside the block and is excluded too.
   */
  function Remove<T>(a: Array<T>, i: nat): (r: Array<T>)
    requires Valid(a)
    requires (|a.items| == 0 ==> i < SizeMax) && (|a.items| >= 2 ==> i < a.capacity)
    ensures Valid(r) && r.capacity == a.capacity
    ensures i >= |a.items| && |a.items| <= 1 ==> r == a
    ensures i >= |a.items| && |a.items| >= 2 ==> r.items == a.items[..|a.items| - 1]
    ensures i < |a.items| ==> |r.items| == |a.items| - 1
    ensures i < |a.items| - 1 ==> r.items[i] == a.items[|a.items| - 1]
    ensures forall k :: 0 <= k < |r.items| && k != i ==> r.items[k] == a.items[k]
  {
    var n := |a.items|;
    if n > 0 && i == n - 1 then
      a.(items := a.items[..n - 1])
    else if n > 1 then
      if i < n then a.(items := a.items[..i] + [a.items[n - 1]] + a.items[i + 1..n - 1])
      else a.(items := a.items[..n - 1])
    else
      a
  }

  /** Removal takes exactly the element at `i` out of the array's multiset of elements. */
  lemma RemoveTakesElement<T>(a: Array<T>, i: nat)
    requires Valid(a) && i < |a.items|
    ensures multiset(Remove(a, i).items) == multiset(a.items) - multiset{a.items[i]}
  {
    var n := |a.items|;
    if i == n - 1 {
      assert a.items == a.items[..n - 1] + [a.items[n - 1]];
    } else {
      var x, y, z, w := a.items[..i], [a.items[i]], a.items[i + 1..n - 1], [a.items[n - 1]];
      assert a.items == x + y + z + w;
      assert Remove(a, i).items == x + w + z;
      assert multiset(a.items) == multiset(x) + multiset(y) + multiset(z) + multiset(w);
      assert multiset(x + w + z) == multiset(x) + multiset(w) + multiset(z);
    }
  }

  /** `array_pop_back`: drops the last element and touches nothing else. */
  function PopBack<T>(a: Array<T>): (r: Array<T>)
    requires Valid(a) && |a.items| > 0
    ensures Valid(r) && r.capacity == a.capacity
    ensures |r.items| == |a.items| - 1
    ensures forall k :: 0 <= k < |r.items| ==> r.items[k] == a.items[k]
  {
    a.(items := a.items[..|a.items| - 1])
  }

  /** Popping what was just appended gives back the old elements. */
  lemma PopBackUndoesAppend<T>(a: Array<T>, v: T)
    requires Valid(a)
    ensures PopBack(Append(a, v)).items == a.items
  {
  }

  /** `n` appends of the same value, one after another. */
  function AppendMany<T>(a: Array<T>, v: T, n: nat): (r: Array<T>)
    requires Valid(a)
    ensures Valid(r)
    decreases n
  {
    if n == 0 then a else AppendMany(Append(a, v), v, n - 1)
  }

  /** After `n` appends of `v` the array holds the old elements followed by `n` copies of `v`. */
  lemma {:induction false} AppendManyContents<T>(a: Array<T>, v: T, n: nat)
    requires Valid(a)
    decreases n
    ensures var r := AppendMany(a, v, n);
            && |r.items| == |a.items| + n
            && r.items[..|a.items|] == a.items
            && forall k :: |a.items| <= k < |r.items| ==> r.items[k] == v
  {
    if n > 0 {
      var b := Append(a, v);
      AppendManyContents(b, v, n - 1);
      var r := AppendMany(b, v, n - 1);
      assert r.items[..|a.items|] == r.items[..|b.items|][..|a.items|];
    }
  }

  /** The array test: a fresh array filled by 100 appends of one value has length 100 and holds that value throughout. */
  lemma HundredAppends<T>(v: T)
    ensures var r := AppendMany(ArrayNew<T>(true).value, v, 100);
            |r.items| == 100 && forall k :: 0 <= k < 100 ==> r.items[k] == v
  {
    AppendManyContents(ArrayNew<T>(true).value, v, 100);
  }
}
