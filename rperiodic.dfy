/**
 The periodic SPI sampler driver: a pool of eight 24-byte sample records and
 two kfifos of pointers into that pool. `free_fifo` holds records that may be
 filled and `rx_fifo` holds filled records waiting for a reader. The high
 resolution timer fills one free record per tick and queues it on `rx_fifo`.
 `read` drains `rx_fifo` into the caller's buffer and gives the records back
 to `free_fifo`.

 Each entry point is one atomic method of `Driver`. A pointer into the pool is
 the record's index (see module KFifo). The ghost sequence `leaked` records the
 handles that `spp_async_tx` takes from `free_fifo`. That function hands the
 record to nobody, and the SPI completion callback only logs, so those handles
 never come back. `State()` gives the three places as a `Queues` value; each
 entry point moves it by one pure transition (`Leak`, `Enqueue`, `Tick`,
 `Drain`), and the `...KeepsPartition` lemmas show that each transition keeps
 every handle of the pool in exactly one place (`Partitioned`).
 */
module Rperiodic {
  import opened KFifo
  import opened Spp

  const ADC_MAX_SAMPLES: nat := 8
  /** `sizeof(struct adc_sample)`. */
  const SAMPLE_SIZE: nat := 24
  /** The bytes of the whole pool, records laid out one after another. */
  const POOL_BYTES: nat := 192
  /** The pool is eight records of 24 bytes, one after another. */
  lemma PoolLayout()
    ensures POOL_BYTES == ADC_MAX_SAMPLES * SAMPLE_SIZE
  {
  }

  /** `unsigned int` counters wrap modulo 2^32. */
  const U32_MOD: nat := 0x1_0000_0000

  // Linux error numbers; the driver returns them negated.
  const EBADF: int := 9
  const EAGAIN: int := 11
  const EFAULT: int := 14
  const EINVAL: int := 22

  const POLLIN: bv32 := 0x0001
  const POLLRDNORM: bv32 := 0x0040

  /** `HRTIMER_RESTART`: the timer callback asks to be run again. */
  const HRTIMER_RESTART: int := 1

  /** The handles `0 .. n - 1`, in index order. */
  function Handles(n: nat): (s: seq<Ptr>)
    ensures |s| == n && forall i :: 0 <= i < n ==> s[i] == i
  {
    if n == 0 then [] else Handles(n - 1) + [n - 1]
  }

  /** The handles of the pool, in index order. */
  const AllHandles: seq<Ptr> := Handles(ADC_MAX_SAMPLES)

  /**
   One more put of `spp_free_fifo_init` on a queue of eight slots that
   started with `was`: handle `i` is appended unless the queue is full.
   */
  lemma PutStep(was: seq<Ptr>, i: nat)
    requires i < ADC_MAX_SAMPLES
    ensures var before := (was + AllHandles[..i])[..Min(ADC_MAX_SAMPLES, |was| + i)];
      && |before| == Min(ADC_MAX_SAMPLES, |was| + i)
      && (was + AllHandles[..i + 1])[..Min(ADC_MAX_SAMPLES, |was| + i + 1)]
         == if |before| < ADC_MAX_SAMPLES then before + [i] else before
  {
    assert AllHandles[..i + 1] == AllHandles[..i] + [i];
    if |was| + i < ADC_MAX_SAMPLES {
      assert (was + AllHandles[..i + 1])[..|was| + i + 1] == (was + AllHandles[..i])[..|was| + i] + [i];
    } else {
      assert (was + AllHandles[..i + 1])[..ADC_MAX_SAMPLES] == (was + AllHandles[..i])[..ADC_MAX_SAMPLES];
    }
  }

  /** The period as stored by `ktime_set(secs, nsecs)`; the conversion itself is not modelled. */
  datatype Ktime = KtimeSet(secs: int, nsecs: int)

  /**
   What a `read` call does: it returns `ret` having written `copied` to the
   caller's buffer, or it sleeps on the wait queue until a tick makes
   `rx_fifo` non-empty and then retries.
   */
  datatype ReadResult = Returned(ret: int, copied: seq<bv8>) | Sleeping

  /** Every entry of `s` is the index of a record of the pool. */
  predicate InPool(s: seq<Ptr>) {
    forall k :: 0 <= k < |s| ==> 0 <= s[k] < ADC_MAX_SAMPLES
  }

  /** A record after `memset(r, c, sizeof(*r))`. */
  function Filled(c: bv8): (r: seq<bv8>)
    ensures |r| == SAMPLE_SIZE
  {
    seq(SAMPLE_SIZE, _ => c)
  }

  /** The 24 bytes of record `h` in the pool's memory `mem`. */
  function Record(mem: seq<bv8>, h: Ptr): (r: seq<bv8>)
    requires |mem| == POOL_BYTES && 0 <= h < ADC_MAX_SAMPLES
    ensures |r| == SAMPLE_SIZE
  {
    mem[SAMPLE_SIZE * h .. SAMPLE_SIZE * h + SAMPLE_SIZE]
  }

  /** The pool's memory after `memset` of record `h` with `c`. */
  function Fill(mem: seq<bv8>, h: Ptr, c: bv8): (m: seq<bv8>)
    requires |mem| == POOL_BYTES && 0 <= h < ADC_MAX_SAMPLES
    ensures |m| == POOL_BYTES
  {
    mem[..SAMPLE_SIZE * h] + Filled(c) + mem[SAMPLE_SIZE * h + SAMPLE_SIZE..]
  }

  /** Filling record `h` sets every byte of `h` to `c` and leaves every other record as it was. */
  lemma FillRecord(mem: seq<bv8>, h: Ptr, c: bv8, g: Ptr)
    requires |mem| == POOL_BYTES && 0 <= h < ADC_MAX_SAMPLES && 0 <= g < ADC_MAX_SAMPLES
    ensures Record(Fill(mem, h, c), g) == if g == h then Filled(c) else Record(mem, g)
  {
    var m := Fill(mem, h, c);
    if g == h {
      assert m[SAMPLE_SIZE * h .. SAMPLE_SIZE * h + SAMPLE_SIZE] == Filled(c);
    } else {
      forall j | SAMPLE_SIZE * g <= j < SAMPLE_SIZE * g + SAMPLE_SIZE
        ensures m[j] == mem[j]
      {
        if g < h {
          assert j < SAMPLE_SIZE * h;
        } else {
          assert SAMPLE_SIZE * h + SAMPLE_SIZE <= j;
        }
      }
    }
  }

  /** The records that the handles `hs` point to, in order. */
  function Records(mem: seq<bv8>, hs: seq<Ptr>): (rs: seq<seq<bv8>>)
    requires |mem| == POOL_BYTES && InPool(hs)
    ensures |rs| == |hs|
    ensures forall k :: 0 <= k < |hs| ==> rs[k] == Record(mem, hs[k])
  {
    seq(|hs|, k requires 0 <= k < |hs| => Record(mem, hs[k]))
  }

  /**
   The pool's memory after the sampling step of a tick: the record at the
   head of `free` is filled with `c`; with `free` empty nothing is written.
   */
  function Sampled(mem: seq<bv8>, free: seq<Ptr>, c: bv8): (m: seq<bv8>)
    requires |mem| == POOL_BYTES && InPool(free)
    ensures |m| == POOL_BYTES
  {
    if free == [] then mem else Fill(mem, free[0], c)
  }

  /** The bytes of consecutive records, as they land one after another in the reader's buffer. */
  function Flatten(rs: seq<seq<bv8>>): (bytes: seq<bv8>)
    ensures (forall i :: 0 <= i < |rs| ==> |rs[i]| == SAMPLE_SIZE) ==> |bytes| == SAMPLE_SIZE * |rs|
  {
    if rs == [] then [] else rs[0] + Flatten(rs[1..])
  }

  /** Copying one more record appends its bytes. */
  lemma {:induction false} FlattenSnoc(rs: seq<seq<bv8>>, r: seq<bv8>)
    ensures Flatten(rs + [r]) == Flatten(rs) + r
  {
    if rs == [] {
      assert [] + [r] == [r];
      assert Flatten([r][1..]) == [];
    } else {
      assert (rs + [r])[1..] == rs[1..] + [r];
      FlattenSnoc(rs[1..], r);
    }
  }

  /** Record `k` of a run of 24-byte records sits at bytes `24 * k .. 24 * k + 24` of the run. */
  lemma {:induction false} FlattenChunk(rs: seq<seq<bv8>>, k: nat)
    requires forall i :: 0 <= i < |rs| ==> |rs[i]| == SAMPLE_SIZE
    requires k < |rs|
    ensures SAMPLE_SIZE * k + SAMPLE_SIZE <= |Flatten(rs)|
    ensures Flatten(rs)[SAMPLE_SIZE * k .. SAMPLE_SIZE * k + SAMPLE_SIZE] == rs[k]
  {
    var rest := Flatten(rs[1..]);
    assert Flatten(rs) == rs[0] + rest;
    if k > 0 {
      FlattenChunk(rs[1..], k - 1);
      var at := SAMPLE_SIZE * (k - 1);
      assert SAMPLE_SIZE * k == SAMPLE_SIZE + at;
      assert (rs[0] + rest)[SAMPLE_SIZE + at .. SAMPLE_SIZE + at + SAMPLE_SIZE] == rest[at .. at + SAMPLE_SIZE];
    }
  }

  /** The records of one more handle are the records so far and that handle's record. */
  lemma RecordsSnoc(mem: seq<bv8>, hs: seq<Ptr>, i: nat)
    requires |mem| == POOL_BYTES && InPool(hs) && i < |hs|
    ensures Records(mem, hs[..i + 1]) == Records(mem, hs[..i]) + [Record(mem, hs[i])]
  {
    var longer, shorter := Records(mem, hs[..i + 1]), Records(mem, hs[..i]);
    forall k | 0 <= k < i
      ensures longer[k] == shorter[k]
    {
      assert hs[..i + 1][k] == hs[..i][k];
    }
  }

  /** Copying the record of one more handle appends that record's bytes. */
  lemma CopiedSnoc(mem: seq<bv8>, hs: seq<Ptr>, i: nat)
    requires |mem| == POOL_BYTES && InPool(hs) && i < |hs|
    ensures Flatten(Records(mem, hs[..i + 1])) == Flatten(Records(mem, hs[..i])) + Record(mem, hs[i])
  {
    RecordsSnoc(mem, hs, i);
    FlattenSnoc(Records(mem, hs[..i]), Record(mem, hs[i]));
  }

  /** The `k`-th 24 bytes handed to the reader are the record of the `k`-th handle. */
  lemma CopiedRecord(mem: seq<bv8>, hs: seq<Ptr>, k: nat)
    requires |mem| == POOL_BYTES && InPool(hs) && k < |hs|
    ensures |Flatten(Records(mem, hs))| == SAMPLE_SIZE * |hs|
    ensures Flatten(Records(mem, hs))[SAMPLE_SIZE * k .. SAMPLE_SIZE * k + SAMPLE_SIZE] == Record(mem, hs[k])
  {
    FlattenChunk(Records(mem, hs), k);
  }

  /**
   The index of the first record in `i..n` whose copy to the reader fails, or
   `n` when every copy succeeds.
   */
  function FirstFailure(ok: nat -> bool, i: nat, n: nat): (j: nat)
    requires i <= n
    ensures i <= j <= n
    ensures forall k :: i <= k < j ==> ok(k)
    ensures j < n ==> !ok(j)
    decreases n - i
  {
    if i == n then n else if !ok(i) then i else FirstFailure(ok, i + 1, n)
  }

  /** Each handle occurs at most once in `Handles(n)`, and nothing outside `0 .. n - 1` occurs. */
  lemma {:induction false} HandleOnce(n: nat, x: Ptr)
    ensures multiset(Handles(n))[x] <= 1
    ensures (x < 0 || n <= x) ==> multiset(Handles(n))[x] == 0
  {
    if n > 0 {
      HandleOnce(n - 1, x);
      assert multiset(Handles(n)) == multiset(Handles(n - 1)) + multiset{n - 1};
    }
  }

  /** A value at two positions of a sequence occurs at least twice in it. */
  lemma TwoOccurrences(s: seq<Ptr>, i: nat, j: nat)
    requires i < j < |s| && s[i] == s[j]
    ensures multiset(s)[s[i]] >= 2
  {
    assert s == s[..i] + [s[i]] + s[i + 1..j] + [s[j]] + s[j + 1..];
  }

  /**
   When a sequence holds exactly the pool's handles, each once, every entry is
   a valid handle, no handle occurs twice, and it is eight long.
   */
  lemma {:induction false} PartitionFacts(s: seq<Ptr>)
    requires multiset(s) == multiset(AllHandles)
    ensures |s| == ADC_MAX_SAMPLES
    ensures InPool(s)
    ensures forall i, j :: 0 <= i < j < |s| ==> s[i] != s[j]
  {
    assert |multiset(s)| == |s|;
    forall k | 0 <= k < |s|
      ensures 0 <= s[k] < ADC_MAX_SAMPLES
    {
      assert s[k] in multiset(s);
      HandleOnce(ADC_MAX_SAMPLES, s[k]);
    }
    forall i, j | 0 <= i < j < |s|
      ensures s[i] != s[j]
    {
      if s[i] == s[j] {
        TwoOccurrences(s, i, j);
        HandleOnce(ADC_MAX_SAMPLES, s[i]);
        assert false;
      }
    }
  }

  /**
   Where the pool's handles are: queued on `free_fifo`, queued on `rx_fifo`,
   or taken by `spp_async_tx` and never returned.
   */
  datatype Queues = Queues(freeFifo: seq<Ptr>, rxFifo: seq<Ptr>, leaked: seq<Ptr>)

  /** The handles of all three places, `free_fifo` first. */
  function Everything(q: Queues): seq<Ptr> {
    q.freeFifo + q.rxFifo + q.leaked
  }

  /** How many times handle `h` occurs across the three places. */
  function Occurrences(q: Queues, h: Ptr): nat {
    multiset(Everything(q))[h]
  }

  /** Every handle of the pool is in exactly one of the three places, once, and nothing else is. */
  ghost predicate Partitioned(q: Queues) {
    forall h :: Occurrences(q, h) == if 0 <= h < ADC_MAX_SAMPLES then 1 else 0
  }

  /** Each handle of the pool occurs once in the list of all handles, and nothing else occurs. */
  lemma AllHandlesOnce(h: Ptr)
    ensures multiset(AllHandles)[h] == if 0 <= h < ADC_MAX_SAMPLES then 1 else 0
  {
    HandleOnce(ADC_MAX_SAMPLES, h);
    if 0 <= h < ADC_MAX_SAMPLES {
      assert AllHandles[h] in multiset(AllHandles);
    }
  }

  /** The three places hold each handle once exactly when together they are a permutation of the pool. */
  lemma PartitionedIsPermutation(q: Queues)
    ensures Partitioned(q) <==> multiset(Everything(q)) == multiset(AllHandles)
  {
    if Partitioned(q) {
      forall h
        ensures multiset(Everything(q))[h] == multiset(AllHandles)[h]
      {
        AllHandlesOnce(h);
        assert Occurrences(q, h) == if 0 <= h < ADC_MAX_SAMPLES then 1 else 0;
      }
    }
    if multiset(Everything(q)) == multiset(AllHandles) {
      forall h
        ensures Occurrences(q, h) == if 0 <= h < ADC_MAX_SAMPLES then 1 else 0
      {
        AllHandlesOnce(h);
      }
    }
  }

  /**
   The queues after `spp_async_tx`: the head of `free_fifo`, if there is one,
   is taken for the SPI transfer and leaks.
   */
  function Leak(q: Queues): (r: Queues)
    ensures q.freeFifo == [] ==> r == q
    ensures q.freeFifo != [] ==> r.freeFifo == q.freeFifo[1..] && r.rxFifo == q.rxFifo && r.leaked == q.leaked + [q.freeFifo[0]]
  {
    if q.freeFifo == [] then q else Queues(q.freeFifo[1..], q.rxFifo, q.leaked + [q.freeFifo[0]])
  }

  /**
   The queues after the sampling step of a tick: the head of `free_fifo`, if
   there is one, goes to the tail of `rx_fifo`, or is dropped when `rx_fifo`
   is full.
   */
  function Enqueue(q: Queues): (r: Queues)
    ensures q.freeFifo == [] ==> r == q
    ensures q.freeFifo != [] ==> r.freeFifo == q.freeFifo[1..] && r.leaked == q.leaked
    ensures q.freeFifo != [] && |q.rxFifo| < ADC_MAX_SAMPLES ==> r.rxFifo == q.rxFifo + [q.freeFifo[0]]
    ensures q.freeFifo != [] && |q.rxFifo| >= ADC_MAX_SAMPLES ==> r.rxFifo == q.rxFifo
  {
    if q.freeFifo == [] then q
    else Queues(q.freeFifo[1..], if |q.rxFifo| < ADC_MAX_SAMPLES then q.rxFifo + [q.freeFifo[0]] else q.rxFifo, q.leaked)
  }

  /**
   The queues after one timer tick: the first free handle leaks and the
   second, if there is one, is queued for the reader.
   */
  function Tick(q: Queues): (r: Queues)
    ensures |q.freeFifo| == 0 ==> r == q
    ensures |q.freeFifo| == 1 ==> r == Queues([], q.rxFifo, q.leaked + [q.freeFifo[0]])
    ensures |q.freeFifo| >= 2 ==>
      && r.freeFifo == q.freeFifo[2..]
      && r.leaked == q.leaked + [q.freeFifo[0]]
      && r.rxFifo == (if |q.rxFifo| < ADC_MAX_SAMPLES then q.rxFifo + [q.freeFifo[1]] else q.rxFifo)
  {
    Enqueue(Leak(q))
  }

  /**
   The queues after `spp_read` has taken the first `n` handles of `rx_fifo`:
   they go onto `free_fifo` as far as its eight slots have room.
   */
  function Drain(q: Queues, n: nat): (r: Queues)
    requires n <= |q.rxFifo| && |q.freeFifo| <= ADC_MAX_SAMPLES
    ensures r.rxFifo == q.rxFifo[n..] && r.leaked == q.leaked
    ensures r.freeFifo == q.freeFifo + q.rxFifo[..Min(n, ADC_MAX_SAMPLES - |q.freeFifo|)]
  {
    Queues(q.freeFifo + q.rxFifo[..n][..Min(n, ADC_MAX_SAMPLES - |q.freeFifo|)], q.rxFifo[n..], q.leaked)
  }

  /**
   While every handle is in exactly one place, the two queues hold at most
   eight handles between them, so all of `rx_fifo` would fit on `free_fifo`.
   */
  lemma QueuesFit(q: Queues)
    requires Partitioned(q)
    ensures |q.freeFifo| + |q.rxFifo| + |q.leaked| == ADC_MAX_SAMPLES
    ensures |q.rxFifo| <= ADC_MAX_SAMPLES - |q.freeFifo|
  {
    PartitionedIsPermutation(q);
    PartitionFacts(Everything(q));
  }

  /** Rearranging the handles among the three places keeps each handle in exactly one place. */
  lemma SameHandles(q: Queues, r: Queues)
    requires Partitioned(q) && multiset(Everything(r)) == multiset(Everything(q))
    ensures Partitioned(r)
  {
    forall h
      ensures Occurrences(r, h) == if 0 <= h < ADC_MAX_SAMPLES then 1 else 0
    {
      assert Occurrences(r, h) == Occurrences(q, h);
    }
  }

  /** `spp_async_tx` keeps every handle in exactly one place. */
  lemma LeakKeepsPartition(q: Queues)
    requires Partitioned(q)
    ensures Partitioned(Leak(q))
  {
    LeakMoves(q);
    SameHandles(q, Leak(q));
  }

  /** Taking the head of `free_fifo` for the transfer moves it, it does not lose it. */
  lemma LeakMoves(q: Queues)
    ensures multiset(Everything(Leak(q))) == multiset(Everything(q))
  {
    if q.freeFifo != [] {
      var r := Leak(q);
      assert q.freeFifo == [q.freeFifo[0]] + r.freeFifo;
    }
  }

  /**
   The sampling step keeps every handle in exactly one place, and it never
   finds `rx_fifo` full, so it never drops a handle.
   */
  lemma EnqueueKeepsPartition(q: Queues)
    requires Partitioned(q)
    ensures q.freeFifo != [] ==> |q.rxFifo| < ADC_MAX_SAMPLES
    ensures Partitioned(Enqueue(q))
  {
    QueuesFit(q);
    EnqueueMoves(q);
    SameHandles(q, Enqueue(q));
  }

  /** Queueing the head of `free_fifo` on a `rx_fifo` with room moves it, it does not lose it. */
  lemma EnqueueMoves(q: Queues)
    requires q.freeFifo != [] ==> |q.rxFifo| < ADC_MAX_SAMPLES
    ensures multiset(Everything(Enqueue(q))) == multiset(Everything(q))
  {
    if q.freeFifo != [] {
      var r := Enqueue(q);
      assert q.freeFifo == [q.freeFifo[0]] + r.freeFifo;
      assert r.rxFifo == q.rxFifo + [q.freeFifo[0]];
    }
  }

  /** A tick keeps every handle in exactly one place. */
  lemma TickKeepsPartition(q: Queues)
    requires Partitioned(q)
    ensures Partitioned(Tick(q))
  {
    LeakKeepsPartition(q);
    EnqueueKeepsPartition(Leak(q));
  }

  /**
   `spp_read` keeps every handle in exactly one place: the taken handles
   always fit on `free_fifo`, so none is dropped, and the two queues hold as
   many handles as before.
   */
  lemma DrainKeepsPartition(q: Queues, n: nat)
    requires Partitioned(q) && n <= |q.rxFifo| && |q.freeFifo| <= ADC_MAX_SAMPLES
    ensures n <= ADC_MAX_SAMPLES - |q.freeFifo|
    ensures Drain(q, n).freeFifo == q.freeFifo + q.rxFifo[..n]
    ensures |Drain(q, n).freeFifo| + |Drain(q, n).rxFifo| == |q.freeFifo| + |q.rxFifo|
    ensures Partitioned(Drain(q, n))
  {
    QueuesFit(q);
    DrainMoves(q, n);
    SameHandles(q, Drain(q, n));
  }

  /** Moving a prefix of `rx_fifo` onto `free_fifo` keeps the handles in the same order. */
  lemma DrainMoves(q: Queues, n: nat)
    requires n <= |q.rxFifo| <= ADC_MAX_SAMPLES - |q.freeFifo|
    ensures Drain(q, n).freeFifo == q.freeFifo + q.rxFifo[..n]
    ensures Everything(Drain(q, n)) == Everything(q)
  {
    var r := Drain(q, n);
    assert r.freeFifo == q.freeFifo + q.rxFifo[..n];
    assert q.rxFifo == q.rxFifo[..n] + q.rxFifo[n..];
    assert r.freeFifo + r.rxFifo == q.freeFifo + q.rxFifo;
  }

  /** After set-up every handle is on `free_fifo`, once. */
  lemma InitialPartition()
    ensures Partitioned(Queues(AllHandles, [], []))
  {
    var q := Queues(AllHandles, [], []);
    assert Everything(q) == AllHandles;
    PartitionedIsPermutation(q);
  }

  /** Once all eight handles have leaked, both queues are empty for good. */
  lemma PoolExhausted(q: Queues)
    requires Partitioned(q) && |q.leaked| == ADC_MAX_SAMPLES
    ensures q.freeFifo == [] && q.rxFifo == []
    ensures Tick(q) == q
  {
    QueuesFit(q);
  }

  /**
   A leaked handle is on neither queue. Since no transition ever removes a
   handle from `leaked`, a handle that `spp_async_tx` took never comes back.
   */
  lemma LeakedStayOut(q: Queues, h: Ptr)
    requires Partitioned(q) && h in q.leaked
    ensures h !in q.freeFifo && h !in q.rxFifo
  {
    PartitionedIsPermutation(q);
    PartitionFacts(Everything(q));
    var s := Everything(q);
    var j :| 0 <= j < |q.leaked| && q.leaked[j] == h;
    assert s[|q.freeFifo| + |q.rxFifo| + j] == h;
    forall i | 0 <= i < |q.freeFifo|
      ensures q.freeFifo[i] != h
    {
      assert s[i] == q.freeFifo[i];
    }
    forall i | 0 <= i < |q.rxFifo|
      ensures q.rxFifo[i] != h
    {
      assert s[|q.freeFifo| + i] == q.rxFifo[i];
    }
  }

  /**
   As written, a tick that finds a free handle loses one: the two queues hold
   one handle fewer afterwards, whether or not a record was queued.
   */
  lemma TickLosesHandle(q: Queues)
    requires Partitioned(q) && q.freeFifo != []
    ensures |Tick(q).freeFifo| + |Tick(q).rxFifo| == |q.freeFifo| + |q.rxFifo| - 1
    ensures |Tick(q).leaked| == |q.leaked| + 1
  {
    LeakKeepsPartition(q);
    EnqueueKeepsPartition(Leak(q));
  }

  /**
   The tick as evidently intended: the SPI transfer works on the driver's own
   `tx`/`rx` buffers and needs no record of the pool, so only the sampling
   step takes a free handle.
   */
  function IntendedTick(q: Queues): (r: Queues)
    ensures r.leaked == q.leaked
  {
    Enqueue(q)
  }

  /**
   The intended tick moves one handle from `free_fifo` to `rx_fifo` and loses
   none, so with nothing leaked at set-up the two queues hold all eight
   handles forever.
   */
  lemma IntendedTickConserves(q: Queues)
    requires Partitioned(q)
    ensures Partitioned(IntendedTick(q))
    ensures |IntendedTick(q).freeFifo| + |IntendedTick(q).rxFifo| == |q.freeFifo| + |q.rxFifo|
    ensures q.leaked == [] ==> |IntendedTick(q).freeFifo| + |IntendedTick(q).rxFifo| == ADC_MAX_SAMPLES
  {
    EnqueueKeepsPartition(q);
    QueuesFit(q);
  }

  /** `write` on the device always fails with `-EBADF`: samples flow one way only. */
  function Write(count: nat): (ret: int)
    ensures ret < 0 && ret == -EBADF
  {
    -EBADF
  }

  class Driver {
    /** `free_fifo` and `rx_fifo`, both allocated with room for `ADC_MAX_SAMPLES` pointers. */
    const free: Fifo
    const rx: Fifo
    /** The memory of `samples[ADC_MAX_SAMPLES]`, 24 bytes per record. */
    const samples: array<bv8>
    var period: Ktime
    /** `nr_ticks`, bumped by every timer tick. */
    var nrTicks: nat
    /** The tick counter kept as a `static unsigned` inside `timer_handler`, starting at 1. */
    var counter: nat
    /** Whether the hrtimer is armed. */
    var timerActive: bool
    /** Handles removed by `spp_async_tx`, in the order they were removed. */
    ghost var leaked: seq<Ptr>

    ghost predicate Valid()
      reads this, free, free.data, rx, rx.data
    {
      && free != rx && free.data != rx.data
      && free.Valid() && rx.Valid()
      && free.size == ADC_MAX_SAMPLES && rx.size == ADC_MAX_SAMPLES
      && samples.Length == POOL_BYTES
      && nrTicks < U32_MOD && counter < U32_MOD
      && InPool(free.Contents) && InPool(rx.Contents)
    }

    /** Where the pool's handles are now. */
    ghost function State(): Queues
      reads this, free, rx
    {
      Queues(free.Contents, rx.Contents, leaked)
    }

    /**
     The driver's invariant from set-up on: the queues are well formed and
     every handle of the pool is in exactly one place.
     */
    ghost predicate Conserved()
      reads this, free, free.data, rx, rx.data
    {
      Valid() && Partitioned(State())
    }

    /**
     The FIFO part of the device set-up: both queues allocated with room for
     eight pointers, `rx_fifo` emptied and `free_fifo` loaded with the whole
     pool. The driver's other state starts zeroed, as a static structure does.
     */
    constructor ()
      ensures Conserved()
      ensures State() == Queues(AllHandles, [], [])
      ensures nrTicks == 0 && counter == 1 && period == KtimeSet(0, 0) && !timerActive
      ensures samples[..] == seq(POOL_BYTES, _ => 0)
      ensures fresh(free) && fresh(free.data) && fresh(rx) && fresh(rx.data) && fresh(samples)
    {
      rx := new Fifo(ADC_MAX_SAMPLES);
      free := new Fifo(ADC_MAX_SAMPLES);
      samples := new bv8[POOL_BYTES](_ => 0);
      period := KtimeSet(0, 0);
      nrTicks, counter := 0, 1;
      timerActive := false;
      leaked := [];
      new;
      RxFifoInit();
      FreeFifoInit();
      assert AllHandles[..ADC_MAX_SAMPLES] == AllHandles;
      assert State() == Queues(AllHandles, [], []);
      InitialPartition();
    }

    /**
     `spp_free_fifo_init`: puts the handles 0..7 on `free_fifo` in index
     order. Each put that finds the queue full is dropped, so the queue ends up
     full, holding its old contents followed by the first handles that fit.
     */
    method FreeFifoInit()
      requires Valid()
      modifies free, free.data
      ensures Valid()
      ensures free.Contents == (old(free.Contents) + AllHandles)[..ADC_MAX_SAMPLES]
      ensures old(free.Contents) == [] ==> free.Contents == AllHandles
    {
      ghost var was := free.Contents;
      var i := 0;
      while i < ADC_MAX_SAMPLES
        invariant 0 <= i <= ADC_MAX_SAMPLES
        invariant Valid()
        invariant free.Contents == (was + AllHandles[..i])[..Min(ADC_MAX_SAMPLES, |was| + i)]
      {
        var rv := free.Put(i);
        PutStep(was, i);
        i := i + 1;
      }
      assert AllHandles[..ADC_MAX_SAMPLES] == AllHandles;
      var n, head := free.Peek();
    }

    /** `spp_rx_fifo_init`: `kfifo_reset` empties `rx_fifo`. */
    method RxFifoInit()
      requires Valid()
      modifies rx
      ensures Valid()
      ensures rx.Contents == []
    {
      rx.Reset();
    }

    /**
     The queue effect of `spp_async_tx`: it takes the head of `free_fifo` for
     an SPI transfer and returns `spi_async`'s status (`spiStatus`), or returns
     -1 when `free_fifo` is empty. The taken handle is never given back.
     */
    method AsyncTx(spiStatus: int) returns (rv: int)
      requires Conserved()
      modifies this, free
      ensures Conserved()
      ensures State() == Leak(old(State()))
      ensures rv == if old(free.Contents) == [] then -1 else spiStatus
      ensures nrTicks == old(nrTicks) && counter == old(counter)
      ensures period == old(period) && timerActive == old(timerActive)
    {
      ghost var q := State();
      var n, r := free.Get();
      if n == 0 {
        assert State() == q;
        return -1;
      }
      leaked := leaked + [r];
      rv := spiStatus;
      assert State() == Leak(q);
      LeakKeepsPartition(q);
    }

    /** `memset(&samples[h], c, sizeof(struct adc_sample))`: record `h` becomes `c` throughout. */
    method Memset(h: Ptr, c: bv8)
      requires samples.Length == POOL_BYTES && 0 <= h < ADC_MAX_SAMPLES
      modifies samples
      ensures samples[..] == Fill(old(samples[..]), h, c)
    {
      var k := 0;
      while k < SAMPLE_SIZE
        invariant 0 <= k <= SAMPLE_SIZE
        invariant forall i :: 0 <= i < POOL_BYTES ==>
          samples[i] == if SAMPLE_SIZE * h <= i < SAMPLE_SIZE * h + k then c else old(samples[i])
      {
        samples[SAMPLE_SIZE * h + k] := c;
        k := k + 1;
      }
      ghost var m := Fill(old(samples[..]), h, c);
      assert samples[..] == m;
    }

    /**
     The sampling step of a tick: takes the head of `free_fifo`, fills that
     record with `c` and queues it on `rx_fifo` (a put that finds `rx_fifo`
     full drops it). With `free_fifo` empty this is an overrun and nothing
     changes. Returns whether a handle was taken.
     */
    method TakeSample(c: bv8) returns (taken: bool)
      requires Valid()
      modifies free, free.data, rx, rx.data, samples
      ensures Valid()
      ensures taken == (old(free.Contents) != [])
      ensures State() == Enqueue(old(State()))
      ensures samples[..] == Sampled(old(samples[..]), old(free.Contents), c)
    {
      var n, r := free.Get();
      if n < 1 {
        // fifo overrun
        return false;
      }
      Memset(r, c);
      ghost var mem := samples[..];
      n := rx.Put(r);
      assert samples[..] == mem;
      return true;
    }

    /**
     `timer_handler`: one tick. It bumps `nr_ticks`, runs `spp_async_tx`
     (which leaks the head of `free_fifo`), and then takes the next free
     handle. If there is none, the tick is an overrun and no record or queue
     changes. Otherwise the record is filled with the low byte of `counter`
     and queued on `rx_fifo`; a put that finds `rx_fifo` full drops it. The
     static `counter` is bumped whatever happened, and the timer restarts.
     */
    method TimerHandler(spiStatus: int) returns (restart: int)
      requires Conserved()
      modifies this, free, free.data, rx, rx.data, samples
      ensures Conserved()
      ensures restart == HRTIMER_RESTART
      ensures nrTicks == (old(nrTicks) + 1) % U32_MOD
      ensures counter == (old(counter) + 1) % U32_MOD
      ensures period == old(period) && timerActive == old(timerActive)
      ensures State() == Tick(old(State()))
      ensures samples[..] == Sampled(old(samples[..]), Leak(old(State())).freeFifo, (old(counter) % 256) as bv8)
    {
      ghost var q := State();
      var c := counter;
      ghost var mem := samples[..];
      nrTicks := (nrTicks + 1) % U32_MOD;
      assert State() == q;
      var rv := AsyncTx(spiStatus);
      assert samples[..] == mem;
      var taken := TakeSample((c % 256) as bv8);
      counter := (c + 1) % U32_MOD;
      restart := HRTIMER_RESTART;
      assert State() == Tick(q);
      TickKeepsPartition(q);
    }

    /**
     `spp_read`. A request shorter than one record fails with `-EINVAL`. It
     then takes up to `min(count / 24, 8)` handles from the head of
     `rx_fifo`. If there are none, a non-blocking reader gets `-EAGAIN`, and a
     blocking one sleeps until a tick queues a record; an interrupted sleep
     (`waitRet`, the result of `wait_event_interruptible`) is returned as is.
     Otherwise the records are copied out in queue order until a copy fails
     (`copyOk(i)` tells whether `copy_to_user` of the i-th record succeeds),
     the call returns the bytes copied or `-EFAULT`, and every taken handle
     goes back onto `free_fifo`: while every handle is in exactly one place,
     there is always room for them.
     */
    method Read(count: nat, nonblock: bool, waitRet: int, copyOk: nat -> bool) returns (res: ReadResult)
      requires Conserved()
      modifies free, free.data, rx
      ensures Conserved()
      ensures samples[..] == old(samples[..])
      ensures count < SAMPLE_SIZE ==> res == Returned(-EINVAL, []) && State() == old(State())
      ensures SAMPLE_SIZE <= count && old(rx.Contents) == [] ==>
        && res == (if nonblock then Returned(-EAGAIN, []) else if waitRet != 0 then Returned(waitRet, []) else Sleeping)
        && State() == old(State())
      ensures SAMPLE_SIZE <= count && old(rx.Contents) != [] ==>
        var n := Min(Min(count / SAMPLE_SIZE, ADC_MAX_SAMPLES), |old(rx.Contents)|);
        var taken := old(rx.Contents)[..n];
        var good := FirstFailure(copyOk, 0, n);
        && 0 < n
        && State() == Drain(old(State()), n)
        && free.Contents == old(free.Contents) + taken
        && res == Returned(if good == n then SAMPLE_SIZE * n else -EFAULT, Flatten(Records(samples[..], taken[..good])))
    {
      if count < SAMPLE_SIZE {
        return Returned(-EINVAL, []);
      }
      var nrSample := Min(count / SAMPLE_SIZE, ADC_MAX_SAMPLES);
      var n, smp := rx.Out(nrSample);
      if n == 0 {
        if nonblock {
          return Returned(-EAGAIN, []);
        }
        if waitRet != 0 {
          return Returned(waitRet, []);
        }
        return Sleeping;
      }
      assert free.Contents == old(free.Contents) && smp == old(rx.Contents)[..n];
      DrainKeepsPartition(old(State()), n);
      res := GiveBack(smp, copyOk);
    }

    /**
     The second half of `spp_read`, once `smp` holds the handles taken from
     `rx_fifo`: copy their records out and put all of them back on
     `free_fifo` as far as there is room (a short `kfifo_in` only logs a
     warning).
     */
    method GiveBack(smp: seq<Ptr>, copyOk: nat -> bool) returns (res: ReadResult)
      requires Valid() && InPool(smp)
      modifies free, free.data
      ensures Valid()
      ensures free.Contents == old(free.Contents) + smp[..Min(|smp|, ADC_MAX_SAMPLES - |old(free.Contents)|)]
      ensures var good := FirstFailure(copyOk, 0, |smp|);
        res == Returned(if good == |smp| then SAMPLE_SIZE * |smp| else -EFAULT, Flatten(Records(samples[..], smp[..good])))
    {
      var ret, copied := CopyOut(smp, copyOk);
      var moved := free.In(smp);
      return Returned(ret, copied);
    }

    /**
     The copy-out loop of `spp_read`: copies the records `smp` points to into
     the reader's buffer in order, and stops at the first `copy_to_user` that
     fails. It returns 24 bytes per record when every copy succeeds and
     `-EFAULT` otherwise, with the bytes of the records copied before the
     failure.
     */
    method CopyOut(smp: seq<Ptr>, copyOk: nat -> bool) returns (ret: int, copied: seq<bv8>)
      requires samples.Length == POOL_BYTES && InPool(smp)
      ensures var good := FirstFailure(copyOk, 0, |smp|);
        && ret == (if good == |smp| then SAMPLE_SIZE * |smp| else -EFAULT)
        && copied == Flatten(Records(samples[..], smp[..good]))
    {
      ghost var mem := samples[..];
      ret, copied := 0, [];
      var i := 0;
      while i < |smp|
        invariant 0 <= i <= |smp|
        invariant forall k :: 0 <= k < i ==> copyOk(k)
        invariant ret == SAMPLE_SIZE * i
        invariant copied == Flatten(Records(mem, smp[..i]))
      {
        if !copyOk(i) {
          assert FirstFailure(copyOk, 0, |smp|) == i;
          ret := -EFAULT;
          return;
        }
        var r := samples[SAMPLE_SIZE * smp[i] .. SAMPLE_SIZE * smp[i] + SAMPLE_SIZE];
        CopiedSnoc(mem, smp, i);
        copied := copied + r;
        ret := ret + SAMPLE_SIZE;
        i := i + 1;
      }
      assert smp[..i] == smp;
    }

    /** `spp_poll`: readable exactly when `rx_fifo` is non-empty. */
    method Poll() returns (mask: bv32)
      requires Valid()
      ensures mask != 0 <==> rx.Contents != []
      ensures mask == 0 || mask == POLLIN | POLLRDNORM
    {
      if rx.Len() != 0 {
        return POLLIN | POLLRDNORM;
      }
      return 0;
    }

    /**
     `spp_ioctl`. `SPPIOC_START` arms the timer and `SPPIOC_STOP` cancels it.
     `SPPIOC_SPARAMS` copies a `spp_conf` from the caller (`copyOk` tells
     whether `copy_from_user` succeeds, `conf` is the caller's structure) and
     stores the new period, or fails with `-EFAULT`. Any other command fails
     with `-EINVAL`. No command touches the queues or the records.
     */
    method Ioctl(cmd: u32, copyOk: bool, conf: SppConf) returns (ret: int)
      requires Conserved()
      modifies this
      ensures Conserved()
      ensures nrTicks == old(nrTicks) && counter == old(counter) && leaked == old(leaked)
      ensures cmd == SPPIOC_START ==> ret == 0 && timerActive && period == old(period)
      ensures cmd == SPPIOC_STOP ==> ret == 0 && !timerActive && period == old(period)
      ensures cmd == SPPIOC_SPARAMS ==>
        && timerActive == old(timerActive)
        && (if copyOk then ret == 0 && period == KtimeSet(conf.secs, conf.nsecs)
            else ret == -EFAULT && period == old(period))
      ensures cmd !in {SPPIOC_START, SPPIOC_STOP, SPPIOC_SPARAMS} ==>
        ret == -EINVAL && timerActive == old(timerActive) && period == old(period)
    {
      CommandsDistinct();
      if cmd == SPPIOC_START {
        timerActive := true;
      } else if cmd == SPPIOC_STOP {
        timerActive := false;
      } else if cmd == SPPIOC_SPARAMS {
        if !copyOk {
          return -EFAULT;
        }
        period := KtimeSet(conf.secs, conf.nsecs);
      } else {
        return -EINVAL;
      }
      return 0;
    }
  }

  /**
   Four ticks after set-up, with no reader, use up all eight free handles but
   queue only four records: each tick loses one handle to `spp_async_tx`.
   */
  method FourTicksLeakFour() returns (freeLen: nat, rxLen: nat)
    ensures freeLen == 0 && rxLen == 4
  {
    var d := new Driver();
    var t := 0;
    while t < 4
      invariant 0 <= t <= 4
      invariant d.Conserved()
      invariant d.free.Contents == AllHandles[2 * t..]
      invariant |d.rx.Contents| == t
    {
      var restart := d.TimerHandler(0);
      t := t + 1;
    }
    freeLen, rxLen := d.free.Len(), d.rx.Len();
  }
}
