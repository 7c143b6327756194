/** The bounded ring behind every queue of the gateway: it refuses when full and never overwrites. */
module Ring {
  import opened Common

  /** Position `i` of a ring of `n`, for positions less than two turns round. */
  function Wrap(i: nat, n: nat): (r: nat)
    requires i < 2 * n
    ensures r < n
  {
    if i < n then i else i - n
  }

  lemma Multiples(q: nat, n: nat)
    requires q >= 2
    ensures q * n >= 2 * n
  {
    assert (q - 2) * n >= 0;
  }

  lemma WrapIsModulo(i: nat, n: nat)
    requires i < 2 * n
    ensures Wrap(i, n) == i % n
  {
    var q, r := i / n, i % n;
    assert i == q * n + r && 0 <= r < n;
    if q >= 2 {
      Multiples(q, n);
    } else if q == 1 {
      assert i == n + r;
    }
  }

  /** `count` elements of `b` read round the end from `head`. */
  function Unrolled<T>(b: seq<T>, head: nat, count: nat): (r: seq<T>)
    requires head < |b| && count <= |b|
    ensures |r| == count
    ensures forall i {:trigger r[i]} | 0 <= i < count :: r[i] == b[Wrap(head + i, |b|)]
    decreases count
  {
    if count == 0 then [] else Unrolled(b, head, count - 1) + [b[Wrap(head + count - 1, |b|)]]
  }

  lemma {:induction false} WriteAtTail<T>(b: seq<T>, head: nat, count: nat, x: T)
    requires head < |b| && count < |b|
    ensures Unrolled(b[Wrap(head + count, |b|) := x], head, count + 1) == Unrolled(b, head, count) + [x]
  {
  }

  lemma {:induction false} DropHead<T>(b: seq<T>, head: nat, count: nat)
    requires head < |b| && 0 < count <= |b|
    ensures Unrolled(b, Wrap(head + 1, |b|), count - 1) == Unrolled(b, head, count)[1..]
    ensures Unrolled(b, head, count)[0] == b[head]
  {
  }

  class Ring<T> {
    const buffer: array<T>
    var head: nat
    var tail: nat
    var count: nat

    ghost predicate Valid()
      reads this, buffer
    {
      && head < buffer.Length && count <= buffer.Length
      && tail == Wrap(head + count, buffer.Length)
    }

    ghost function Contents(): (s: seq<T>)
      requires Valid()
      reads this, buffer
      ensures |s| == count
    {
      Unrolled(buffer[..], head, count)
    }

    constructor (capacity: nat, filler: T)
      requires capacity > 0
      ensures Valid() && fresh(buffer) && buffer.Length == capacity && Contents() == []
    {
      buffer := new T[capacity](_ => filler);
      head, tail, count := 0, 0, 0;
    }

    method Push(x: T) returns (ok: bool)
      requires Valid()
      modifies this, buffer
      ensures Valid()
      ensures ok == (|old(Contents())| < buffer.Length)
      ensures Contents() == if ok then old(Contents()) + [x] else old(Contents())
    {
      if count >= buffer.Length {
        return false;
      }
      WriteAtTail(buffer[..], head, count, x);
      WrapIsModulo(tail + 1, buffer.Length);
      buffer[tail] := x;
      tail := (tail + 1) % buffer.Length;
      count := count + 1;
      ok := true;
    }

    method Pop() returns (x: Option<T>)
      requires Valid()
      modifies this
      ensures Valid()
      ensures x == if old(Contents()) == [] then None else Some(old(Contents())[0])
      ensures Contents() == if x == None then old(Contents()) else old(Contents())[1..]
    {
      if count == 0 {
        return None;
      }
      DropHead(buffer[..], head, count);
      WrapIsModulo(head + 1, buffer.Length);
      x := Some(buffer[head]);
      head := (head + 1) % buffer.Length;
      count := count - 1;
    }
  }
}
