/** The ordered array of src/impl/ordered_array.c: a fixed buffer of pointers kept
    sorted by a caller-supplied "less than". */
module OrderedArrays {

  type Order = (nat, nat) -> bool

  ghost predicate StrictWeakOrder(less: Order) {
    && (forall a, b {:trigger less(a, b)} :: less(a, b) ==> !less(b, a))
    && (forall a, b, c {:trigger less(a, b), less(b, c)} :: !less(a, b) && !less(b, c) ==> !less(a, c))
  }

  /** No later element is less than an earlier one. */
  ghost predicate Sorted(s: seq<nat>, less: Order) {
    forall i, j :: 0 <= i < j < |s| ==> !less(s[j], s[i])
  }

  ghost predicate Distinct(s: seq<nat>) {
    forall i, j :: 0 <= i < j < |s| ==> s[i] != s[j]
  }

  /** The first position whose element is not less than the item. */
  ghost function Position(s: seq<nat>, item: nat, less: Order): (k: nat)
    ensures k <= |s|
    ensures forall i :: 0 <= i < k ==> less(s[i], item)
    ensures k < |s| ==> !less(s[k], item)
  {
    if s == [] || !less(s[0], item) then 0 else 1 + Position(s[1..], item, less)
  }

  ghost function Inserted(s: seq<nat>, item: nat, less: Order): seq<nat> {
    var k := Position(s, item, less);
    s[..k] + [item] + s[k..]
  }

  ghost function Removed(s: seq<nat>, i: nat): seq<nat>
    requires i < |s|
  {
    s[..i] + s[i + 1..]
  }

  lemma InsertedElements(s: seq<nat>, item: nat, less: Order)
    ensures multiset(Inserted(s, item, less)) == multiset(s) + multiset{item}
    ensures forall x :: x in Inserted(s, item, less) <==> x == item || x in s
  {
    var k := Position(s, item, less);
    assert s == s[..k] + s[k..];
    assert forall x :: x in s <==> x in s[..k] || x in s[k..];
  }

  lemma InsertedDistinct(s: seq<nat>, item: nat, less: Order)
    requires Distinct(s) && item !in s
    ensures Distinct(Inserted(s, item, less))
  {
  }

  /** Insertion keeps the array sorted, whatever strict weak order it is sorted by. */
  lemma InsertedSorted(s: seq<nat>, item: nat, less: Order)
    requires StrictWeakOrder(less) && Sorted(s, less)
    ensures Sorted(Inserted(s, item, less), less)
  {
    var k := Position(s, item, less);
    var r := Inserted(s, item, less);
    forall i, j | 0 <= i < j < |r| ensures !less(r[j], r[i]) {
      if j == k {
        assert less(s[i], item);
      } else if i == k {
        if j > k + 1 {
          assert !less(s[j - 1], s[k]) && !less(s[k], item);
        }
      }
    }
  }

  lemma RemovedElements(s: seq<nat>, i: nat)
    requires i < |s|
    ensures multiset(Removed(s, i)) == multiset(s) - multiset{s[i]}
    ensures Distinct(s) ==> Distinct(Removed(s, i))
    ensures Distinct(s) ==> forall x :: x in Removed(s, i) <==> x in s && x != s[i]
  {
    assert s == s[..i] + [s[i]] + s[i + 1..];
    if Distinct(s) {
      RemovedMembers(s, i);
    }
  }

  lemma RemovedMembers(s: seq<nat>, i: nat)
    requires i < |s| && Distinct(s)
    ensures Distinct(Removed(s, i))
    ensures forall x :: x in Removed(s, i) <==> x in s && x != s[i]
  {
    var r := Removed(s, i);
    forall x ensures x in r <==> x in s && x != s[i] {
      if x in s && x != s[i] {
        var j :| 0 <= j < |s| && s[j] == x;
        assert j < i ==> r[j] == x;
        assert j > i ==> r[j - 1] == x;
      }
    }
  }

  lemma RemovedSorted(s: seq<nat>, i: nat, less: Order)
    requires i < |s| && Sorted(s, less)
    ensures Sorted(Removed(s, i), less)
  {
  }

  class OrderedArray {
    const slots: array<nat>
    var size: nat

    ghost predicate Valid()
      reads this
    {
      size <= slots.Length
    }

    ghost function Contents(): seq<nat>
      reads this, slots
      requires Valid()
    {
      slots[..size]
    }

    constructor (maxSize: nat)
      ensures Valid() && fresh(slots) && slots.Length == maxSize && Contents() == []
    {
      slots := new nat[maxSize](i => 0);
      size := 0;
    }

    method Insert(item: nat, less: Order)
      requires Valid() && size < slots.Length
      modifies this, slots
      ensures Valid() && size == old(size) + 1
      ensures Contents() == Inserted(old(Contents()), item, less)
    {
      ghost var was := Contents();
      var at := 0;
      while at < size && less(slots[at], item)
        invariant 0 <= at <= size
        invariant forall i :: 0 <= i < at ==> less(was[i], item)
      {
        at := at + 1;
      }
      assert at == Position(was, item, less) by { PositionUnique(was, item, less, at); }
      if at == size {
        slots[size] := item;
        size := size + 1;
      } else {
        ghost var k := at;
        var tmp := slots[at];
        slots[at] := item;
        while at < size
          invariant k <= at <= size == |was|
          invariant forall i :: 0 <= i < k ==> slots[i] == was[i]
          invariant slots[k] == item
          invariant forall i :: k < i <= at ==> slots[i] == was[i - 1]
          invariant forall i :: at < i < size ==> slots[i] == was[i]
          invariant at < size ==> tmp == was[at]
        {
          at := at + 1;
          var tmp2 := slots[at];
          slots[at] := tmp;
          tmp := tmp2;
        }
        size := size + 1;
      }
    }

    method Lookup(i: nat) returns (item: nat)
      requires Valid() && i < size
      ensures item == Contents()[i]
    {
      item := slots[i];
    }

    // The loop reads slot `size`, one past the last element, so it needs spare capacity.
    method Remove(i: nat)
      requires Valid() && i < size < slots.Length
      modifies this, slots
      ensures Valid() && size == old(size) - 1
      ensures Contents() == Removed(old(Contents()), i)
    {
      ghost var was := slots[..];
      var k := i;
      while k < size
        invariant i <= k <= size == old(size)
        invariant forall j :: 0 <= j < i ==> slots[j] == was[j]
        invariant forall j :: i <= j < k ==> slots[j] == was[j + 1]
        invariant forall j :: k <= j < slots.Length ==> slots[j] == was[j]
      {
        slots[k] := slots[k + 1];
        k := k + 1;
      }
      size := size - 1;
    }
  }

  lemma PositionUnique(s: seq<nat>, item: nat, less: Order, k: nat)
    requires k <= |s|
    requires forall i :: 0 <= i < k ==> less(s[i], item)
    requires k < |s| ==> !less(s[k], item)
    ensures k == Position(s, item, less)
  {
  }
}
