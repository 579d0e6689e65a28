/**
 The generic stack `Stack<E>` of package `Generics_4.FavorGenerics_29.GenerifyTry3A`:
 a backing array plus a count of live elements, grown on demand. A slot of the
 array holds `Some(e)` for a live element and `None` where Java has `null`.
 */
module GenerifyTry3A {
  import StackSpec

  /** The capacity the constructor allocates. */
  const DefaultInitialCapacity: nat := 16

  datatype Option<T> = None | Some(value: T)

  /** `Arrays.copyOf(original, newLength)`: a fresh array of `newLength` slots
      holding the prefix of `original` that fits, padded with `None`. */
  method CopyOf<T>(original: array<Option<T>>, newLength: nat) returns (copy: array<Option<T>>)
    ensures fresh(copy) && copy.Length == newLength
    ensures forall i :: 0 <= i < newLength && i < original.Length ==> copy[i] == original[i]
    ensures forall i :: original.Length <= i < newLength ==> copy[i] == None
  {
    copy := new Option<T>[newLength](_ => None);
    var n := if newLength < original.Length then newLength else original.Length;
    var i := 0;
    while i < n
      invariant 0 <= i <= n
      invariant forall j :: 0 <= j < i ==> copy[j] == original[j]
      invariant forall j :: i <= j < newLength ==> copy[j] == None
    {
      copy[i] := original[i];
      i := i + 1;
    }
  }

  class Stack<E> {
    var elements: array<Option<E>>
    var size: nat
    /** The live elements, bottom first: the stack as its clients see it. */
    ghost var contents: seq<E>

    /** The representation invariant: `size` is within the array, the live
        slots hold the contents in order, and no slot past `size` holds an
        element. */
    ghost predicate Valid()
      reads this, elements
    {
      size <= elements.Length &&
      |contents| == size &&
      (forall i :: 0 <= i < size ==> elements[i] == Some(contents[i])) &&
      (forall i :: size <= i < elements.Length ==> elements[i] == None)
    }

    /** A new stack is empty and has `DefaultInitialCapacity` slots. */
    constructor ()
      ensures Valid() && fresh(elements)
      ensures contents == [] && size == 0
      ensures elements.Length == DefaultInitialCapacity
    {
      elements := new Option<E>[DefaultInitialCapacity](_ => None);
      size := 0;
      contents := [];
    }

    /** Puts `e` on top, growing the array first when it is full. */
    method Push(e: E)
      requires Valid()
      modifies this, elements
      ensures Valid()
      ensures contents == StackSpec.Push(old(contents), e)
      ensures size == old(size) + 1
      ensures forall i :: 0 <= i < old(size) ==> elements[i] == old(elements[i])
      ensures elements[old(size)] == Some(e)
      ensures old(elements.Length) != old(size) ==> elements == old(elements)
      ensures old(elements.Length) == old(size) ==>
                fresh(elements) && elements.Length == 2 * old(size) + 1
    {
      EnsureCapacity();
      elements[size] := Some(e);
      size := size + 1;
      contents := contents + [e];
    }

    /** Removes and returns the top element, clearing the slot it leaves;
        on an empty stack reports `EmptyStack` and changes nothing. */
    method Pop() returns (r: StackSpec.Result<E>)
      requires Valid()
      modifies this, elements
      ensures Valid()
      ensures (contents, r) == StackSpec.Pop(old(contents))
      ensures elements == old(elements)
      ensures old(size) == 0 ==>
                r == StackSpec.Err(StackSpec.EmptyStack) && unchanged(this) && unchanged(elements)
      ensures old(size) != 0 ==>
                r == StackSpec.Ok(old(contents)[old(size) - 1]) &&
                size == old(size) - 1 && elements[size] == None &&
                forall i :: 0 <= i < elements.Length && i != size ==> elements[i] == old(elements[i])
    {
      if size == 0 {
        return StackSpec.Err(StackSpec.EmptyStack);
      }
      size := size - 1;
      var slot := elements[size];
      // Drop the stack's reference to the element it hands out.
      elements[size] := None;
      contents := contents[..size];
      r := StackSpec.Ok(slot.value);
    }

    /** True exactly when the stack holds no element. */
    method IsEmpty() returns (b: bool)
      requires Valid()
      ensures b <==> size == 0
      ensures b <==> contents == []
    {
      b := size == 0;
    }

    /** When the array is full, replaces it with a copy of length
        `2 * size + 1`; afterwards there is room for one more element. */
    method EnsureCapacity()
      requires Valid()
      modifies this
      ensures Valid()
      ensures size == old(size) && contents == old(contents)
      ensures old(elements.Length) == size ==>
                fresh(elements) && elements.Length == 2 * size + 1
      ensures old(elements.Length) != size ==> elements == old(elements)
      ensures forall i :: 0 <= i < size ==> elements[i] == old(elements[i])
      ensures elements.Length >= old(elements.Length)
      ensures size < elements.Length
    {
      if elements.Length == size {
        elements := CopyOf(elements, 2 * size + 1);
      }
    }
  }

  /** A client: three pushes, then pops and emptiness checks down to an error
      on the empty stack. */
  method Scenario() returns (first: StackSpec.Result<int>, second: StackSpec.Result<int>,
                             emptyAfterTwo: bool, third: StackSpec.Result<int>,
                             emptyAfterThree: bool, fourth: StackSpec.Result<int>)
    ensures first == StackSpec.Ok(3) && second == StackSpec.Ok(2) && !emptyAfterTwo
    ensures third == StackSpec.Ok(1) && emptyAfterThree
    ensures fourth == StackSpec.Err(StackSpec.EmptyStack)
  {
    var s := new Stack<int>();
    s.Push(1);
    s.Push(2);
    s.Push(3);
    assert s.contents == [1, 2, 3];
    first := s.Pop();
    assert s.contents == [1, 2];
    second := s.Pop();
    assert s.contents == [1];
    emptyAfterTwo := s.IsEmpty();
    third := s.Pop();
    assert s.contents == [];
    emptyAfterThree := s.IsEmpty();
    fourth := s.Pop();
  }
}
