/**
 A kernel `kfifo` of pointers, as the driver declares its two queues with
 `DECLARE_KFIFO_PTR(..., struct adc_sample *)`: a ring of `size` slots with a
 free-running `in` counter (where the next element is written) and `out`
 counter (where the next element is read). The number of stored elements is
 `in - out`; slot `k` of the queue lives at `data[(out + k) % size]`.

 Pointers into the sample pool are modelled as pool indices; `NULL` is -1.
 */
module KFifo {

  type Ptr = int

  const NULL: Ptr := -1

  function Min(a: nat, b: nat): nat {
    if a <= b then a else b
  }

  /** A multiple of `m` strictly between `-m` and `m` is zero. */
  lemma MultipleBetween(k: int, m: int)
    requires 0 < m && 0 - m < k * m < m
    ensures k == 0
  {
  }

  /** Two counters less than `m` apart land in different ring slots. */
  lemma SlotsDiffer(a: nat, b: nat, m: nat)
    requires 0 < m && a < b < a + m
    ensures a % m != b % m
  {
    assert a == (a / m) * m + a % m;
    assert b == (b / m) * m + b % m;
    if a % m == b % m {
      assert (b / m - a / m) * m == b - a;
      MultipleBetween(b / m - a / m, m);
    }
  }

  /** The ring slot of the element `k` places after the counter value `base`. */
  function Slot(base: nat, k: nat, size: nat): (i: nat)
    requires 0 < size
    ensures i < size
  {
    (base + k) % size
  }

  class Fifo {
    /** The queue's elements, oldest first. */
    ghost var Contents: seq<Ptr>

    const size: nat
    const data: array<Ptr>
    var inCount: nat
    var outCount: nat

    ghost predicate Valid()
      reads this, data
    {
      && 0 < size
      && data.Length == size
      && outCount <= inCount
      && inCount - outCount <= size
      && |Contents| == inCount - outCount
      && forall k {:trigger Slot(outCount, k, size)} :: 0 <= k < |Contents| ==> Contents[k] == data[Slot(outCount, k, size)]
    }

    /** `kfifo_alloc`: an empty queue with room for `n` pointers. */
    constructor (n: nat)
      requires 0 < n
      ensures Valid() && fresh(data)
      ensures size == n && Contents == []
    {
      size := n;
      data := new Ptr[n](_ => NULL);
      inCount, outCount := 0, 0;
      Contents := [];
    }

    /** `kfifo_len`: the number of stored pointers. */
    function Len(): (n: nat)
      requires Valid()
      reads this, data
      ensures n == |Contents| && n <= size
    {
      inCount - outCount
    }

    /** `kfifo_reset`: both counters back to zero, so the queue is empty. */
    method Reset()
      requires Valid()
      modifies this
      ensures Valid() && Contents == []
    {
      inCount, outCount := 0, 0;
      Contents := [];
    }

    /** `kfifo_put`: appends `x` and returns 1, or returns 0 when the queue is full. */
    method Put(x: Ptr) returns (n: nat)
      requires Valid()
      modifies this, data
      ensures Valid()
      ensures n == (if |old(Contents)| < size then 1 else 0)
      ensures Contents == if n == 1 then old(Contents) + [x] else old(Contents)
    {
      if inCount - outCount >= size {
        return 0;
      }
      ghost var was := Contents;
      data[Slot(inCount, 0, size)] := x;
      forall k | 0 <= k < |was|
        ensures was[k] == data[Slot(outCount, k, size)]
      {
        SlotsDiffer(outCount + k, inCount, size);
      }
      assert Slot(outCount, |was|, size) == Slot(inCount, 0, size);
      inCount := inCount + 1;
      Contents := Contents + [x];
      n := 1;
    }

    /**
     `kfifo_get`: removes the oldest pointer and returns it with 1, or returns 0
     and `NULL` when the queue is empty.
     */
    method Get() returns (n: nat, x: Ptr)
      requires Valid()
      modifies this
      ensures Valid()
      ensures n == (if old(Contents) == [] then 0 else 1)
      ensures n == 0 ==> x == NULL && Contents == old(Contents)
      ensures n == 1 ==> x == old(Contents)[0] && Contents == old(Contents)[1..]
    {
      if inCount == outCount {
        return 0, NULL;
      }
      ghost var was := Contents;
      x := data[Slot(outCount, 0, size)];
      outCount := outCount + 1;
      Contents := Contents[1..];
      n := 1;
      forall k | 0 <= k < |Contents|
        ensures Contents[k] == data[Slot(outCount, k, size)]
      {
        assert Slot(outCount, k, size) == Slot(outCount - 1, k + 1, size);
      }
    }

    /** `kfifo_peek`: the oldest pointer, without removing it. */
    method Peek() returns (n: nat, x: Ptr)
      requires Valid()
      ensures n == (if Contents == [] then 0 else 1)
      ensures n == 0 ==> x == NULL
      ensures n == 1 ==> x == Contents[0]
    {
      if inCount == outCount {
        return 0, NULL;
      }
      x := data[Slot(outCount, 0, size)];
      n := 1;
    }

    /**
     `kfifo_out`: removes up to `count` of the oldest pointers, returning how
     many were removed and the removed pointers in queue order.
     */
    method Out(count: nat) returns (n: nat, buf: seq<Ptr>)
      requires Valid()
      modifies this
      ensures Valid()
      ensures n == Min(count, |old(Contents)|)
      ensures buf == old(Contents)[..n]
      ensures Contents == old(Contents)[n..]
    {
      n := Min(count, inCount - outCount);
      buf := [];
      var i := 0;
      while i < n
        invariant 0 <= i <= n
        invariant buf == Contents[..i]
      {
        buf := buf + [data[Slot(outCount, i, size)]];
        i := i + 1;
      }
      outCount := outCount + n;
      Contents := Contents[n..];
      forall k | 0 <= k < |Contents|
        ensures Contents[k] == data[Slot(outCount, k, size)]
      {
        assert Slot(outCount, k, size) == Slot(outCount - n, k + n, size);
      }
    }

    /**
     `kfifo_in`: appends as many of `buf`'s pointers as there is room for, in
     order, and returns how many were appended.
     */
    method In(buf: seq<Ptr>) returns (n: nat)
      requires Valid()
      modifies this, data
      ensures Valid()
      ensures n == Min(|buf|, size - |old(Contents)|)
      ensures Contents == old(Contents) + buf[..n]
    {
      n := Min(|buf|, size - (inCount - outCount));
      var i := 0;
      while i < n
        invariant 0 <= i <= n
        invariant inCount == old(inCount) && outCount == old(outCount) && Contents == old(Contents)
        invariant forall k :: 0 <= k < |Contents| ==> Contents[k] == data[Slot(outCount, k, size)]
        invariant forall k :: 0 <= k < i ==> data[Slot(inCount, k, size)] == buf[k]
      {
        ghost var slot := Slot(inCount, i, size);
        forall k | 0 <= k < |Contents|
          ensures data[Slot(outCount, k, size)] == Contents[k] && Slot(outCount, k, size) != slot
        {
          SlotsDiffer(outCount + k, inCount + i, size);
        }
        forall k | 0 <= k < i
          ensures data[Slot(inCount, k, size)] == buf[k] && Slot(inCount, k, size) != slot
        {
          SlotsDiffer(inCount + k, inCount + i, size);
        }
        data[Slot(inCount, i, size)] := buf[i];
        i := i + 1;
      }
      ghost var was := Contents;
      inCount := inCount + n;
      Contents := Contents + buf[..n];
      forall k | 0 <= k < |Contents|
        ensures Contents[k] == data[Slot(outCount, k, size)]
      {
        if k >= |was| {
          assert Slot(outCount, k, size) == Slot(inCount - n, k - |was|, size);
        }
      }
    }
  }
}
