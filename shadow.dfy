/**
 * The two small memory utilities of shoko/src/shadow.rs: a bounded stack of
 * `usize` values, and a bump arena that hands out consecutive ranges of a
 * zero-filled buffer. Only their bookkeeping is modelled: the stack's
 * contents and the arena's offset; an allocation is the position of its
 * range in the buffer.
 */
module Shadow {
  import opened Common

  /** The error `push` returns on a full stack. */
  const Overflow: string := "Shadow stack overflow"

  /** `push(value)` on a stack holding `s`: the result and the new contents. */
  function Pushed(s: seq<nat>, capacity: nat, value: nat): (Result<(), string>, seq<nat>)
  {
    if |s| >= capacity then (Err(Overflow), s) else (Ok(()), s + [value])
  }

  /** `pop()` on a stack holding `s`: the value taken from the top, and the new contents. */
  function Popped(s: seq<nat>): (Option<nat>, seq<nat>)
  {
    if s == [] then (None, s) else (Some(s[|s| - 1]), s[..|s| - 1])
  }

  /** A push never takes the stack past its capacity, and fails exactly when the stack is full. */
  lemma PushBounded(s: seq<nat>, capacity: nat, value: nat)
    requires |s| <= capacity
    ensures |Pushed(s, capacity, value).1| <= capacity
    ensures Pushed(s, capacity, value).0.Err? <==> |s| == capacity
    ensures Pushed(s, capacity, value).0.Err? ==> Pushed(s, capacity, value).1 == s
  {
  }

  /** A pop right after a successful push gives back the value and the old contents. */
  lemma PushThenPop(s: seq<nat>, capacity: nat, value: nat)
    requires |s| < capacity
    ensures Popped(Pushed(s, capacity, value).1) == (Some(value), s)
  {
    assert (s + [value])[..|s|] == s;
  }

  /** The stack after pushing `xs` in order, each push that overflows leaving it as it was. */
  function PushAll(s: seq<nat>, capacity: nat, xs: seq<nat>): seq<nat>
    decreases |xs|
  {
    if xs == [] then s else PushAll(Pushed(s, capacity, xs[0]).1, capacity, xs[1..])
  }

  /** The values of `n` pops, in the order they come out, and what is left. */
  function PopAll(s: seq<nat>, n: nat): (seq<nat>, seq<nat>)
  {
    if n == 0 || s == [] then ([], s)
    else
      var (top, rest) := Popped(s);
      var (more, left) := PopAll(rest, n - 1);
      ([top.value] + more, left)
  }

  function Reversed(xs: seq<nat>): (r: seq<nat>)
    ensures |r| == |xs|
  {
    if xs == [] then [] else Reversed(xs[1..]) + [xs[0]]
  }

  /** Pushing values that fit appends them all. */
  lemma {:induction false} PushAllFits(s: seq<nat>, capacity: nat, xs: seq<nat>)
    requires |s| + |xs| <= capacity
    ensures PushAll(s, capacity, xs) == s + xs
    decreases |xs|
  {
    if xs != [] {
      PushAllFits(s + [xs[0]], capacity, xs[1..]);
      assert s + [xs[0]] + xs[1..] == s + xs;
    }
  }

  /** Popping `|xs|` values off `s + xs` takes them out last first and leaves `s`. */
  lemma {:induction false} PopAllAppended(s: seq<nat>, xs: seq<nat>)
    ensures PopAll(s + xs, |xs|) == (Reversed(xs), s)
    decreases |xs|
  {
    if xs != [] {
      var init, last := xs[..|xs| - 1], xs[|xs| - 1];
      assert (s + xs)[..|s + xs| - 1] == s + init;
      assert Popped(s + xs) == (Some(last), s + init);
      PopAllAppended(s, init);
      ReversedSnoc(init, last);
      assert init + [last] == xs;
      assert PopAll(s + xs, |xs|) == ([last] + Reversed(init), s);
    } else {
      assert s + xs == s;
    }
  }

  lemma {:induction false} ReversedSnoc(xs: seq<nat>, x: nat)
    ensures Reversed(xs + [x]) == [x] + Reversed(xs)
    decreases |xs|
  {
    if xs != [] {
      assert (xs + [x])[1..] == xs[1..] + [x];
      ReversedSnoc(xs[1..], x);
    } else {
      assert ([] + [x])[1..] == [];
    }
  }

  /** The stack is last in, first out: pushing values that fit and popping as many gives them back reversed. */
  lemma LastInFirstOut(s: seq<nat>, capacity: nat, xs: seq<nat>)
    requires |s| + |xs| <= capacity
    ensures PopAll(PushAll(s, capacity, xs), |xs|) == (Reversed(xs), s)
  {
    PushAllFits(s, capacity, xs);
    PopAllAppended(s, xs);
  }

  /** `ShadowStack`: a stack that refuses to grow past the capacity it was made with. */
  class ShadowStack {
    var storage: seq<nat>
    const capacity: nat

    ghost predicate Valid()
      reads this
    {
      |storage| <= capacity
    }

    /** `new(capacity)`: an empty stack. */
    constructor (capacity: nat)
      ensures this.capacity == capacity && storage == [] && Valid()
    {
      this.capacity := capacity;
      storage := [];
    }

    /** `push(value)`: the overflow error on a full stack, which is left as it was; otherwise `value` goes on top. */
    method Push(value: nat) returns (r: Result<(), string>)
      modifies this
      ensures (r, storage) == Pushed(old(storage), capacity, value)
      ensures old(Valid()) ==> Valid()
    {
      if |storage| >= capacity {
        return Err(Overflow);
      }
      storage := storage + [value];
      r := Ok(());
    }

    /** `pop()`: the top value, removed, or `None` on an empty stack. */
    method Pop() returns (r: Option<nat>)
      modifies this
      ensures (r, storage) == Popped(old(storage))
      ensures old(Valid()) ==> Valid()
    {
      if storage == [] {
        return None;
      }
      r := Some(storage[|storage| - 1]);
      storage := storage[..|storage| - 1];
    }
  }

  /** `alloc(size)` at `offset` in a buffer of `length` bytes: the range's start, if it fits, and the new offset. */
  function Allocated(offset: nat, length: nat, size: nat): (Option<nat>, nat)
  {
    if offset + size > length then (None, offset) else (Some(offset), offset + size)
  }

  /** An allocation that fits lies inside the buffer, starts at the old offset and moves the offset past it. */
  lemma AllocWithin(offset: nat, length: nat, size: nat)
    requires offset <= length
    ensures Allocated(offset, length, size).1 <= length
    ensures Allocated(offset, length, size).0.Some? <==> offset + size <= length
    ensures Allocated(offset, length, size).0.Some? ==>
      Allocated(offset, length, size).0.value == offset && Allocated(offset, length, size).1 == offset + size
    ensures Allocated(offset, length, size).0.None? ==> Allocated(offset, length, size).1 == offset
  {
  }

  /** The results of allocating `sizes` in order from `offset`, and the final offset. */
  function AllocAll(offset: nat, length: nat, sizes: seq<nat>): (seq<Option<nat>>, nat)
    decreases |sizes|
  {
    if sizes == [] then ([], offset)
    else
      var (r, next) := Allocated(offset, length, sizes[0]);
      var (rs, last) := AllocAll(next, length, sizes[1..]);
      ([r] + rs, last)
  }

  /**
   * Allocations from one arena never overlap: every range handed out lies
   * between the starting offset and the final one, each starts where the
   * earlier ones ended, and two of them share no byte.
   */
  lemma {:induction false} AllocDisjoint(offset: nat, length: nat, sizes: seq<nat>)
    requires offset <= length
    ensures var (rs, last) := AllocAll(offset, length, sizes);
      |rs| == |sizes| && offset <= last <= length &&
      (forall i :: 0 <= i < |rs| && rs[i].Some? ==> offset <= rs[i].value && rs[i].value + sizes[i] <= last) &&
      (forall i, j :: 0 <= i < j < |rs| && rs[i].Some? && rs[j].Some? ==> rs[i].value + sizes[i] <= rs[j].value)
    decreases |sizes|
  {
    if sizes != [] {
      var (r, next) := Allocated(offset, length, sizes[0]);
      AllocDisjoint(next, length, sizes[1..]);
      var (rs, last) := AllocAll(next, length, sizes[1..]);
      assert AllocAll(offset, length, sizes) == ([r] + rs, last);
      var all := [r] + rs;
      forall i, j | 0 <= i < j < |all| && all[i].Some? && all[j].Some?
        ensures all[i].value + sizes[i] <= all[j].value
      {
        if i == 0 {
          assert all[j] == rs[j - 1] && sizes[j] == sizes[1..][j - 1];
        } else {
          assert all[i] == rs[i - 1] && sizes[i] == sizes[1..][i - 1];
          assert all[j] == rs[j - 1];
        }
      }
      forall i | 0 <= i < |all| && all[i].Some?
        ensures offset <= all[i].value && all[i].value + sizes[i] <= last
      {
        if i > 0 {
          assert all[i] == rs[i - 1] && sizes[i] == sizes[1..][i - 1];
        }
      }
    }
  }

  /**
   * `SecureArena`: a zero-filled buffer of `length` bytes and the offset of
   * its first free byte.
   */
  class SecureArena {
    const length: nat
    var offset: nat

    ghost predicate Valid()
      reads this
    {
      offset <= length
    }

    /** `with_capacity(size)`: a buffer of `size` bytes, nothing allocated. */
    constructor WithCapacity(size: nat)
      ensures length == size && offset == 0 && Valid()
    {
      length := size;
      offset := 0;
    }

    /** `alloc(size)`: `None`, with nothing changed, when the range would run past the buffer; else its start, and the offset moves past it. */
    method Alloc(size: nat) returns (r: Option<nat>)
      modifies this
      ensures (r, offset) == Allocated(old(offset), length, size)
      ensures old(Valid()) ==> Valid()
    {
      if offset + size > length {
        return None;
      }
      r := Some(offset);
      offset := offset + size;
    }

    /** `reset()`: the whole buffer is free again. */
    method Reset()
      modifies this
      ensures offset == 0 && Valid()
    {
      offset := 0;
    }
  }
}
