/** `PooledArray<T>`: a stack kept in an array rented from the shared
    array pool.  `Index` is both the number of items and the next free
    slot; a full buffer is replaced by one twice as long. */
module Pooled {

  class PooledArray<T(0)> {
    var Buffer: array<T>
    var Index: int
    /** `default(T)`, what `Pop` and `TryPop` give on an empty stack. */
    const Default: T

    /** The index stays within the buffer, which is never empty. */
    predicate Valid()
      reads this
    {
      0 <= Index <= Buffer.Length && Buffer.Length > 0
    }

    /** The items on the stack, oldest first. */
    function Contents(): seq<T>
      reads this, Buffer
      requires Valid()
    {
      Buffer[..Index]
    }

    /** `new PooledArray<T>(cap)`: an empty stack over a buffer of `cap`
        slots. */
    constructor (cap: int, default: T)
      requires cap > 0
      ensures Valid() && Contents() == [] && Buffer.Length == cap && fresh(Buffer)
      ensures Default == default
    {
      Buffer := new T[cap];
      Index := 0;
      Default := default;
    }

    /** `Count`: the number of items on the stack. */
    function Count(): (n: int)
      reads this, Buffer
      requires Valid()
      ensures n == |Contents()| && 0 <= n <= Buffer.Length
    {
      Index
    }

    /** `Push(item)`: the item goes on top; a full buffer is first
        replaced by one twice as long. */
    method Push(item: T)
      requires Valid()
      modifies this, Buffer
      ensures Valid() && Contents() == old(Contents()) + [item]
      ensures old(Index) < old(Buffer.Length) ==> Buffer == old(Buffer)
      ensures old(Index) >= old(Buffer.Length) ==> fresh(Buffer) && Buffer.Length == 2 * old(Buffer.Length)
    {
      if Index >= Buffer.Length {
        Resize();
      }
      Buffer[Index] := item;
      Index := Index + 1;
    }

    /** `TryPop(out item)`: false with `default(T)` on an empty stack;
        otherwise the top item, taken off the stack. */
    method TryPop() returns (ok: bool, item: T)
      requires Valid()
      modifies this`Index
      ensures Valid()
      ensures ok <==> old(Index) > 0
      ensures ok ==> old(Contents()) == Contents() + [item]
      ensures !ok ==> item == Default && Contents() == old(Contents()) == []
    {
      if Index <= 0 {
        return false, Default;
      }
      Index := Index - 1;
      item := Buffer[Index];
      ok := true;
    }

    /** `Pop()`: the top item, taken off the stack; `default(T)` on an
        empty stack, which stays empty. */
    method Pop() returns (item: T)
      requires Valid()
      modifies this`Index
      ensures Valid()
      ensures old(Index) > 0 ==> old(Contents()) == Contents() + [item]
      ensures old(Index) <= 0 ==> item == Default && Contents() == old(Contents()) == []
    {
      if Index <= 0 {
        return Default;
      }
      Index := Index - 1;
      item := Buffer[Index];
    }

    /** `Resize`: a buffer twice as long, holding every slot of the old
        one at the same place (`Array.Copy`). */
    method Resize()
      requires Valid()
      modifies this`Buffer
      ensures Valid() && fresh(Buffer) && Buffer.Length == 2 * old(Buffer.Length)
      ensures Buffer[..old(Buffer.Length)] == old(Buffer[..])
      ensures Contents() == old(Contents())
    {
      var prev := Buffer;
      var next := new T[2 * prev.Length];
      var i := 0;
      while i < prev.Length
        invariant 0 <= i <= prev.Length
        invariant next[..i] == prev[..i]
      {
        next[i] := prev[i];
        i := i + 1;
      }
      assert next[..prev.Length] == prev[..];
      assert next[..Index] == prev[..Index];
      Buffer := next;
    }
  }
}
