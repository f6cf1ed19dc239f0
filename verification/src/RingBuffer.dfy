/** Fixed-size ring buffer with FIFO overwrite. */
module RingBufferModule {

  /** The last `k` elements. */
  function Last<T>(s: seq<T>, k: nat): seq<T> {
    if |s| <= k then s else s[|s| - k..]
  }

  /** What a ring of the given capacity holds after one more element: the newest ones, oldest first. */
  function Push<T>(ring: seq<T>, capacity: nat, x: T): seq<T> {
    Last(ring + [x], capacity)
  }

  /** Pushing onto the last `capacity` elements of a stream gives the last `capacity` elements of the longer stream. */
  lemma PushLast<T>(s: seq<T>, capacity: nat, x: T)
    ensures Push(Last(s, capacity), capacity, x) == Last(s + [x], capacity)
  {
  }

  lemma NextPosition(h: nat, c: nat)
    requires h < c
    ensures (h + 1) % c == if h + 1 == c then 0 else h + 1
  {
    if h + 1 == c {
      assert (1 * c) % c == 0;
    }
  }

  /** `contents` is laid out in the buffer `b`: from 0 while filling, from `head` around once full. */
  ghost predicate Laid<T>(b: seq<T>, head: nat, size: nat, contents: seq<T>) {
    && size <= |b| && head < |b|
    && (size < |b| ==> head == size && contents == b[..size])
    && (size == |b| ==> contents == b[head..] + b[..head])
  }

  lemma LaidAfterAdd<T>(b: seq<T>, head: nat, size: nat, contents: seq<T>, x: T)
    requires Laid(b, head, size, contents)
    ensures Laid(b[head := x], (head + 1) % |b|, if size < |b| then size + 1 else size, Push(contents, |b|, x))
  {
    NextPosition(head, |b|);
    var next := (head + 1) % |b|;
    if size < |b| {
      assert b[head := x][..size + 1] == contents + [x];
    } else {
      assert b[head := x][next..] + b[head := x][..next] == b[head + 1..] + b[..head] + [x];
    }
  }

  class RingBuffer<T> {
    const capacity: nat
    const buffer: array<T>
    /** Next position to be written. */
    var head: nat
    var size: nat
    /** The elements held, oldest first. */
    ghost var Contents: seq<T>

    ghost predicate Valid()
      reads this, buffer
    {
      0 < capacity == buffer.Length && Laid(buffer[..], head, size, Contents)
    }

    constructor (capacity: nat, filler: T)
      requires capacity > 0
      ensures Valid() && Contents == [] && this.capacity == capacity && fresh(buffer)
    {
      this.capacity := capacity;
      buffer := new T[capacity](_ => filler);
      head, size, Contents := 0, 0, [];
    }

    method Add(element: T)
      requires Valid()
      modifies this, buffer
      ensures Valid() && Contents == Push(old(Contents), capacity, element)
    {
      LaidAfterAdd(buffer[..], head, size, Contents, element);
      buffer[head] := element;
      head := (head + 1) % capacity;
      if size < capacity {
        size := size + 1;
      }
      Contents := Push(Contents, capacity, element);
    }

    predicate IsFull()
      requires Valid()
      reads this, buffer
      ensures IsFull() <==> |Contents| == capacity
    {
      size == capacity
    }

    /** The element the next overwrite replaces. */
    function PeekOldest(): (x: T)
      requires Valid() && size > 0
      reads this, buffer
      ensures Contents != [] && x == Contents[0]
    {
      if size < capacity then buffer[0] else buffer[head]
    }

    /** All elements held, in buffer order. */
    method Snapshot() returns (out: seq<T>)
      requires Valid()
      ensures multiset(out) == multiset(Contents) && |out| == |Contents|
    {
      out := [];
      for i := 0 to size
        invariant out == buffer[..i]
      {
        out := out + [buffer[i]];
      }
      if size == capacity {
        assert buffer[..size] == buffer[..head] + buffer[head..];
      }
    }
  }
}
