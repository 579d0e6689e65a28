# Generic LIFO stack (`Stack<E>`, GenerifyTry3A) in Dafny

This project models the generic stack `Stack<E>` of the Effective Java example
package `Generics_4.FavorGenerics_29.GenerifyTry3A`. The stack keeps a private array
`elements` and a counter `size` of live elements. The constructor allocates
`DEFAULT_INITIAL_CAPACITY` (16) slots. `push` grows the array to `2 * size + 1`
slots when it is full, then stores the element at index `size`. `pop` throws
`EmptyStackException` on an empty stack. Otherwise it takes the top element and
sets its slot back to `null`. `isEmpty` reports `size == 0`.

Two modules:

- `StackSpec` (`stack_spec.dfy`) is the abstract view. The contents are a
  `seq<E>` with the top element last. `Push` and `Pop` give the effect of one call.
  `Pop` returns a `Result` that is either `Ok(e)` or `Err(EmptyStack)`. `Run` gives
  the effect of a whole series of calls. The lemmas state LIFO order, size
  tracking, and that a failed pop has no effect.
- `GenerifyTry3A` (`stack.dfy`) is the class `Stack<E>`. It has the fields
  `elements: array<Option<E>>` (`None` is Java's `null`) and `size: nat`, plus a
  ghost field `contents`. `Valid()` is the representation invariant:
  `size <= elements.Length`, the slots below `size` hold `contents` in order, and
  every slot from `size` on is `None`. Each mutating method keeps `Valid()` and
  ties the new `contents` to `StackSpec.Push` or `StackSpec.Pop` of the old
  contents. So the lemmas about `Run` carry over to the class's call sequences.
  `CopyOf` models `Arrays.copyOf` as a fresh array filled by a loop. `Scenario`
  is a client making three pushes, four pops and two emptiness checks; it proves
  each result from the method contracts alone.

## Model

| member | source | states |
|---|---|---|
| `StackSpec.Push` | src/main/java/Generics_4/FavorGenerics_29/GenerifyTry3A/Stack.java:30-33 | pushing `e` makes the contents one longer, with the old contents unchanged below it and `e` on top |
| `StackSpec.Pop` | src/main/java/Generics_4/FavorGenerics_29/GenerifyTry3A/Stack.java:35-46 | pop fails exactly when the contents are empty, and then returns `EmptyStack` with the contents unchanged; otherwise it returns `Ok(e)`, and pushing `e` back onto the remaining contents gives the old contents |
| `StackSpec.PushThenPop` | src/main/java/Generics_4/FavorGenerics_29/GenerifyTry3A/Stack.java:30-46 | a pop right after `push(e)` returns `e` and restores the prior contents |
| `StackSpec.Run` | src/main/java/Generics_4/FavorGenerics_29/GenerifyTry3A/Stack.java:30-46 | a series of calls yields exactly one result per pop it contains |
| `StackSpec.RunLength` | src/main/java/Generics_4/FavorGenerics_29/GenerifyTry3A/Stack.java:30-40 | suppose no prefix pops more than the stack held plus the prefix pushed; then every pop succeeds, and the final size is the initial size plus pushes minus pops |
| `StackSpec.EmptyExactlyWhenBalanced` | src/main/java/Generics_4/FavorGenerics_29/GenerifyTry3A/Stack.java:48-50 | from an empty stack, with no prefix popping more than it pushed, the stack is empty exactly when pushes equal pops |
| `StackSpec.RunAppend` | src/main/java/Generics_4/FavorGenerics_29/GenerifyTry3A/Stack.java:30-46 | running calls `a` and then calls `b` is the same as running `a + b`: same contents, and the results are concatenated |
| `StackSpec.RunPushOps` | src/main/java/Generics_4/FavorGenerics_29/GenerifyTry3A/Stack.java:30-33 | pushing `xs` one by one appends `xs` to the contents |
| `StackSpec.RunPopOps` | src/main/java/Generics_4/FavorGenerics_29/GenerifyTry3A/Stack.java:35-46 | as many pops as `xs` has elements, made on `s + xs`, return the elements of `xs` from the last to the first, all `Ok`, and leave `s` |
| `StackSpec.Lifo` | src/main/java/Generics_4/FavorGenerics_29/GenerifyTry3A/Stack.java:30-46 | pushing `e1..en` and then popping `n` times yields `en..e1` intact and restores the contents |
| `StackSpec.FailedPopIsNoOp` | src/main/java/Generics_4/FavorGenerics_29/GenerifyTry3A/Stack.java:36-38 | a pop on the empty stack reports `EmptyStack`; every later call gives the same contents and results as if that pop had not been made |
| `GenerifyTry3A.CopyOf` | src/main/java/Generics_4/FavorGenerics_29/GenerifyTry3A/Stack.java:54 | the copy is a fresh array of the requested length; it holds the original's slots at the same indices and `None` beyond the original's length |
| `GenerifyTry3A.Stack.constructor` | src/main/java/Generics_4/FavorGenerics_29/GenerifyTry3A/Stack.java:9-28 | a new stack satisfies the invariant and is empty (`size == 0`); its fresh array has `DefaultInitialCapacity` = 16 slots |
| `GenerifyTry3A.Stack.Push` | src/main/java/Generics_4/FavorGenerics_29/GenerifyTry3A/Stack.java:30-33 | keeps the invariant; the new contents are `old(contents) + [e]` and `size` rises by one; slots below the old size are unchanged and the old top slot holds `e`; the array is replaced by a fresh one of length `2*size+1` exactly when it was full |
| `GenerifyTry3A.Stack.Pop` | src/main/java/Generics_4/FavorGenerics_29/GenerifyTry3A/Stack.java:35-46 | keeps the invariant and matches `StackSpec.Pop` on the contents; empty: returns `EmptyStack` and changes neither the object nor the array; otherwise: returns the top element, `size` drops by one, the vacated slot becomes `None`, every other slot is unchanged, and the array is not reallocated |
| `GenerifyTry3A.Stack.IsEmpty` | src/main/java/Generics_4/FavorGenerics_29/GenerifyTry3A/Stack.java:48-50 | true exactly when `size == 0`, and exactly when the contents are empty; changes nothing |
| `GenerifyTry3A.Stack.EnsureCapacity` | src/main/java/Generics_4/FavorGenerics_29/GenerifyTry3A/Stack.java:52-56 | keeps the invariant, `size` and the contents; it reallocates exactly when `elements.Length == size`, to a fresh array of length `2*size+1`; the slots below `size` are unchanged; the length never decreases, and afterwards `size < elements.Length` |
| `GenerifyTry3A.Scenario` | src/main/java/Generics_4/FavorGenerics_29/GenerifyTry3A/Stack.java:30-50 | after push 1, 2, 3 on a new stack: the pops return 3 and then 2, the stack is not empty, the next pop returns 1, the stack is empty, and one more pop reports `EmptyStack` |

## Left out

- Java's 32-bit `int` is not modelled: `size` and the growth length `2 * size + 1` are unbounded `nat`, so the overflow for huge stacks is left out.
- The unchecked cast `(E[]) new Object[...]` and `@SuppressWarnings` are a Java type-erasure workaround; `array<Option<E>>` needs no counterpart.
- Garbage collection of "obsolete references" cannot be expressed; the model only states that the slot a pop vacates becomes `None`.
- A `null` element passed to `push` is not a separate case: Java's null element is covered by instantiating `E` with a type that has a null-like value. The slot itself is then `Some(that value)`, not `None`.
- `EmptyStackException` is a thrown exception in Java; here `Pop` returns `Err(EmptyStack)` instead.
- `ensureCapacity` is private in Java; Dafny has no member visibility, so `EnsureCapacity` can also be called from outside.
- Thread safety and concurrent access are not modelled; the class has no synchronization.
