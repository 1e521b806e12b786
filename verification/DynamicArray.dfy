/** The growable array of the compiler: growth, in-place shifting, and what it all costs. */
module DynamicArray {

  /** `max(((c+1)*3) >> 1, 8)`. */
  function GrowFormula(c: nat): (g: nat)
    ensures g > c && if c <= 4 then g == 8 else 3 * c + 2 <= 2 * g <= 3 * c + 3
  {
    var g := (c + 1) * 3 / 2;
    if g > 8 then g else 8
  }

  class Array<T(0)> {
    var data: array<T>
    var count: nat
    var capacity: nat
    /** Elements copied by reallocations so far; each copies the whole of the old storage. */
    ghost var moved: nat

    ghost predicate Valid()
      reads this
    {
      count <= capacity == data.Length
    }

    /** The sequence the array stands for. */
    ghost function Contents(): seq<T>
      reads this, data
      requires Valid()
    {
      data[..count]
    }

    constructor (initialCapacity: nat)
      ensures Valid() && fresh(data) && Contents() == [] && capacity == initialCapacity && moved == 0
    {
      data := new T[initialCapacity];
      count, capacity, moved := 0, initialCapacity, 0;
    }

    /** Changes the capacity; what does not fit is cut off. */
    method SetCapacity(newCapacity: nat)
      requires Valid()
      modifies this
      ensures Valid() && capacity == newCapacity && (data == old(data) || fresh(data))
      ensures count == if newCapacity < old(count) then newCapacity else old(count)
      ensures Contents() == old(Contents())[..count]
      ensures moved == old(moved) + if newCapacity == old(capacity) then 0 else old(capacity)
      decreases if newCapacity < count then 3 else 0
    {
      if newCapacity == capacity {
        return;
      }
      if newCapacity < count {
        Resize(newCapacity);
      }
      var newData := new T[newCapacity];
      for i := 0 to count
        invariant newData[..i] == data[..i]
        modifies newData
      {
        newData[i] := data[i];
      }
      data := newData;
      moved := moved + capacity;
      capacity := newCapacity;
    }

    method Grow(minCapacity: nat)
      requires Valid()
      modifies this
      ensures Valid() && (data == old(data) || fresh(data)) && count == old(count) && Contents() == old(Contents())
      ensures capacity == if GrowFormula(old(capacity)) < minCapacity then minCapacity else GrowFormula(old(capacity))
      ensures moved == old(moved) + old(capacity)
      decreases 1
    {
      var newCapacity := GrowFormula(capacity);
      if newCapacity < minCapacity {
        newCapacity := minCapacity;
      }
      SetCapacity(newCapacity);
    }

    /** New elements beyond the old count have whatever the storage holds. */
    method Resize(newCount: nat)
      requires Valid()
      modifies this
      ensures Valid() && (data == old(data) || fresh(data)) && count == newCount
      ensures capacity == if old(capacity) >= newCount then old(capacity)
                          else if GrowFormula(old(capacity)) < newCount then newCount else GrowFormula(old(capacity))
      ensures newCount <= old(count) ==> Contents() == old(Contents())[..newCount]
      ensures newCount > old(count) ==> Contents()[..old(count)] == old(Contents())
      ensures moved == old(moved) + if old(capacity) < newCount then old(capacity) else 0
      ensures old(capacity) >= newCount ==> data == old(data)
      decreases 2
    {
      if capacity < newCount {
        Grow(newCount);
      }
      count := newCount;
    }

    method Add(t: T)
      requires Valid()
      modifies this, data
      ensures Valid() && (data == old(data) || fresh(data)) && Contents() == old(Contents()) + [t]
      ensures Cost(count, capacity, moved) == AfterAdd(old(Cost(count, capacity, moved)))
    {
      if capacity < count + 1 {
        Grow(0);
      }
      data[count] := t;
      count := count + 1;
    }

    method AddElems(elems: seq<T>)
      requires Valid()
      modifies this, data
      ensures Valid() && (data == old(data) || fresh(data)) && Contents() == old(Contents()) + elems
      ensures var n := old(count) + |elems|;
        capacity == if old(capacity) >= n then old(capacity)
                    else if GrowFormula(old(capacity)) < n then n else GrowFormula(old(capacity))
    {
      if capacity < count + |elems| {
        Grow(count + |elems|);
      }
      ghost var before := data[..count];
      for i := 0 to |elems|
        invariant data[..count + i] == before + elems[..i]
        modifies data
      {
        data[count + i] := elems[i];
      }
      count := count + |elems|;
      assert elems[..|elems|] == elems;
    }

    method Pop() returns (t: T)
      requires Valid() && count > 0
      modifies this
      ensures Valid() && data == old(data) && Contents() == old(Contents())[..old(count) - 1] && t == old(Contents())[old(count) - 1]
    {
      count := count - 1;
      t := data[count];
    }

    /** Closes the gap by moving the tail down in place. */
    method OrderedRemove(index: nat)
      requires Valid() && index < count
      modifies this, data
      ensures Valid() && data == old(data) && capacity == old(capacity)
      ensures Contents() == old(Contents())[..index] + old(Contents())[index + 1..]
    {
      for i := index to count - 1
        invariant forall k | 0 <= k < count :: data[k] == old(data[if index <= k < i then k + 1 else k])
        modifies data
      {
        data[i] := data[i + 1];
      }
      count := count - 1;
    }

    /** Fills the gap with the last element. */
    method UnorderedRemove(index: nat)
      requires Valid() && index < count
      modifies this, data
      ensures Valid() && data == old(data) && capacity == old(capacity)
      ensures Contents() == WithoutUnordered(old(Contents()), index)
    {
      var n := count - 1;
      if index != n {
        data[index] := data[n];
      }
      var _ := Pop();
    }

    /** Opens a gap by moving the tail up in place. Injecting past the end leaves unspecified
        elements between the old end and the injected one. */
    method InjectAt(index: nat, value: T)
      requires Valid()
      modifies this, data
      ensures Valid() && (data == old(data) || fresh(data))
      ensures index <= old(count) ==> Contents() == old(Contents())[..index] + [value] + old(Contents())[index..]
      ensures index > old(count) ==> count == index + 1 && Contents()[index] == value && Contents()[..old(count)] == old(Contents())
    {
      var n := if count > index then count else index;
      Resize(n + 1);
      ghost var before := data[..count];
      MoveUp(data, index, count);
      data[index] := value;
      assert Contents() == before[..index] + [value] + before[index..n];
      if index <= old(count) {
        assert before[..index] == old(Contents())[..index] && before[index..n] == old(Contents())[index..];
      }
    }
  }

  /** Moves the elements from index up to the last but one a place further, in place. */
  method MoveUp<T>(data: array<T>, index: nat, count: nat)
    requires index < count <= data.Length
    modifies data
    ensures data[..count] == old(data[..index]) + [old(data[index])] + old(data[index..count - 1])
  {
    var i := count - 1;
    ghost var s := data[..count];
    while i > index
      invariant index <= i < count
      invariant forall k | 0 <= k <= i :: data[k] == s[k]
      invariant forall k | i < k < count :: data[k] == s[k - 1]
    {
      data[i] := data[i - 1];
      i := i - 1;
    }
    MovedUp(s, data[..count], index);
  }

  lemma MovedUp<T>(s: seq<T>, t: seq<T>, index: nat)
    requires index < |s| == |t|
    requires forall k | 0 <= k <= index :: t[k] == s[k]
    requires forall k | index < k < |s| :: t[k] == s[k - 1]
    ensures t == s[..index] + [s[index]] + s[index..|s| - 1]
  {
    forall k | index < k < |s| ensures t[k] == s[index..|s| - 1][k - index - 1] {
    }
    assert t[..index + 1] == s[..index] + [s[index]];
    assert t[index + 1..] == s[index..|s| - 1];
    assert t == t[..index + 1] + t[index + 1..];
  }

  // ----- sequences -----

  function WithoutUnordered<T>(s: seq<T>, index: nat): seq<T>
    requires index < |s|
  {
    s[index := s[|s| - 1]][..|s| - 1]
  }

  /** Unordered removal deletes exactly one element, as a multiset. */
  lemma UnorderedRemovesOne<T>(s: seq<T>, index: nat)
    requires index < |s|
    ensures multiset(WithoutUnordered(s, index)) == multiset(s) - multiset{s[index]}
  {
    var last := |s| - 1;
    var swapped := s[index := s[last]];
    WithoutLast(swapped);
    UpdatedMultiset(s, index, s[last]);
    assert swapped[last] == s[last] && WithoutUnordered(s, index) == swapped[..last];
    Cancel(multiset(swapped[..last]), multiset(s) - multiset{s[index]}, s[last]);
  }

  lemma Cancel<T>(a: multiset<T>, b: multiset<T>, x: T)
    requires a + multiset{x} == b + multiset{x}
    ensures a == b
  {
    assert a == a + multiset{x} - multiset{x} && b == b + multiset{x} - multiset{x};
  }

  lemma WithoutLast<T>(s: seq<T>)
    requires s != []
    ensures multiset(s) == multiset(s[..|s| - 1]) + multiset{s[|s| - 1]}
  {
    assert s == s[..|s| - 1] + [s[|s| - 1]];
  }

  lemma UpdatedMultiset<T>(s: seq<T>, index: nat, x: T)
    requires index < |s|
    ensures multiset(s[index := x]) == multiset(s) - multiset{s[index]} + multiset{x}
  {
  }

  /** Injecting and then removing at the same position changes nothing. */
  method InjectThenRemove<T(0)>(a: Array<T>, index: nat, value: T)
    requires a.Valid() && index <= a.count
    modifies a, a.data
    ensures a.Valid() && a.Contents() == old(a.Contents())
  {
    ghost var s := a.Contents();
    a.InjectAt(index, value);
    a.OrderedRemove(index);
    assert a.Contents() == s[..index] + s[index..];
  }

  // ----- cost -----

  datatype Cost = Cost(count: nat, capacity: nat, moved: nat)

  function AfterAdd(c: Cost): Cost {
    if c.capacity < c.count + 1
    then Cost(c.count + 1, GrowFormula(c.capacity), c.moved + c.count)
    else Cost(c.count + 1, c.capacity, c.moved)
  }

  function AfterAdds(c: Cost, n: nat): Cost {
    if n == 0 then c else AfterAdd(AfterAdds(c, n - 1))
  }

  /** However the array was first allocated, n additions to an empty array move at most 3n
      elements in all: the moves never exceed twice the capacity, which grows by half each time.
      The capacity is the first one, at most 8, or at most 3n/2. */
  lemma {:induction false} AddsAreAmortised(capacity: nat, n: nat)
    ensures var c := AfterAdds(Cost(0, capacity, 0), n);
      && c.count == n <= c.capacity + 1 && c.moved <= 3 * n && c.moved <= 2 * c.capacity && (n > 0 ==> n <= c.capacity)
      && (c.capacity == capacity || c.capacity <= 8 || 2 * c.capacity <= 3 * n)
  {
    if n > 0 {
      AddsAreAmortised(capacity, n - 1);
    }
  }

  /** Adding a sequence one element at a time. */
  method AddOneByOne<T(0)>(capacity: nat, ts: seq<T>) returns (a: Array<T>)
    ensures a.Valid() && a.Contents() == ts && a.moved <= 3 * |ts|
    ensures a.capacity == capacity || a.capacity <= 8 || 2 * a.capacity <= 3 * |ts|
  {
    a := new Array(capacity);
    for i := 0 to |ts|
      invariant a.Valid() && fresh(a) && fresh(a.data) && a.Contents() == ts[..i]
      invariant Cost(a.count, a.capacity, a.moved) == AfterAdds(Cost(0, capacity, 0), i)
    {
      a.Add(ts[i]);
    }
    AddsAreAmortised(capacity, |ts|);
  }
}
