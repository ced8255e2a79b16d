# Periodic SPI sampler: buffer bookkeeping and ioctl encoding

This project models the kernel driver for a daisy chain of TI ADS1271 ADCs on
an SPI bus. The driver keeps a fixed pool of eight 24-byte sample records and
passes pointers to them between two kfifos:

- `free_fifo` holds records that may be filled;
- `rx_fifo` holds filled records waiting for a reader.

A high-resolution timer runs one tick per period. Each tick:

1. starts an SPI transfer, taking one record from `free_fifo`;
2. fills the next free record with the low byte of a tick counter;
3. queues that record on `rx_fifo`.

`read` drains `rx_fifo` into the caller's buffer and gives the records back to
`free_fifo`. `poll` reports whether a record is waiting. `write` always fails.
`ioctl` starts the timer, stops it, or sets its period. The three ioctl command
numbers come from the Linux asm-generic `_IOC` encoding.

The model has three modules:

- `Spp` (`spp.dfy`): the user-space interface.
  - The `_IOC`/`_IO`/`_IOW` encoding and decoding of command numbers, on `bv32`.
  - The layout of `struct spp_conf`.
  - The three command numbers, proved equal to the constants that the user
    tool hard-codes.
- `KFifo` (`kfifo.dfy`): a kfifo of pointers, as the class `Fifo`.
  - It has an array of slots and free-running `in`/`out` counters.
  - A ghost `Contents` sequence says what the ring holds.
  - It provides `kfifo_put`, `kfifo_get`, `kfifo_peek`, `kfifo_out`,
    `kfifo_in`, `kfifo_reset` and `kfifo_len`.
- `Rperiodic` (`rperiodic.dfy`): the driver, as the class `Driver`.
  - It has the two fifos, the pool's memory as a flat `array<bv8>` of 192
    bytes, `nr_ticks`, the static tick `counter`, the period and whether the
    timer is armed. A pointer to a record is its index 0..7.
  - Each entry point is one atomic method. Each method states its effect on
    the handles with a pure transition on a `Queues` value: `Leak`,
    `Enqueue`, `Tick` or `Drain`. It states its effect on memory with `Fill`
    or `Sampled`.
  - The `...KeepsPartition` lemmas prove that each transition keeps every
    handle of the pool in exactly one of three places: `free_fifo`,
    `rx_fifo`, or the ghost list `leaked` (`Partitioned`).
  - `Driver.Conserved()` is the driver's invariant: the queues are well
    formed and `Partitioned(State())` holds. The constructor establishes it.
    `AsyncTx`, `TimerHandler`, `Read` and `Ioctl` keep it, each through its
    `...KeepsPartition` lemma. `FreeFifoInit` and `RxFifoInit` are set-up
    helpers and only keep the queues well formed.

The driver as written leaks records. `spp_async_tx` takes the head of
`free_fifo` for the SPI transfer, and nothing ever gives it back: the SPI
completion callback only logs. So one tick that finds two free records uses up
both, and only one of them reaches `rx_fifo`. The model keeps this behaviour.
`leaked` records the lost handles. `FourTicksLeakFour` shows that four ticks
after set-up, with no reader, leave `free_fifo` empty and only four records
queued. `PoolExhausted` shows that once all eight handles have leaked, every
later tick is an overrun.

Foreign calls are parameters of the methods:

- `copy_to_user` success per record: `copyOk: nat -> bool`;
- `copy_from_user` success: `copyOk: bool`;
- the caller's `spp_conf`;
- the result of `wait_event_interruptible`: `waitRet`;
- the `O_NONBLOCK` flag: `nonblock`;
- the status returned by `spi_async`: `spiStatus`.

## Model

| member | source | states |
|---|---|---|
| Spp.Ioc | spp.h:14-16 | when each field fits its slot, decoding the packed command recovers direction, type, number and size |
| Spp.IocOfDecoded | spp.h:14-16 | every 32-bit command number is the encoding of its own four decoded fields |
| Spp.IocInjective | spp.h:14-16 | two encodings of fitting fields are equal exactly when all four fields are equal |
| Spp.Io | spp.h:14-15 | `_IO` gives direction none, size 0, and the given type and number |
| Spp.Iow | spp.h:16 | `_IOW` gives direction write, and the given type, number and size |
| Spp.StructSize | spp.h:7-10 | a structure of 8-byte fields is 8 bytes per field |
| Spp.Offset | spp.h:7-10 | each field starts at a multiple of 8 and ends inside the structure |
| Spp.SppConfLayout | spp.h:7-10 | `spp_conf` is 16 bytes, with `secs` at offset 0 and `nsecs` at offset 8 |
| Spp.MagicValue | spp.h:12 | `SPP_MAGIC` (`'\\'`) is 0x5c |
| Spp.CommandNumbers | spp.h:14-16 | START is 0x5c01, STOP is 0x5c02 and SPARAMS is 0x40105c03, the numbers the user tool hard-codes (ioctl/ioctl.go:31-33) |
| Spp.CommandFields | spp.h:12-16 | decoding each command gives type 0x5c and number 1, 2 or 3; START and STOP have direction none and size 0; SPARAMS has direction write and size 16 |
| Spp.CommandsDistinct | spp.h:14-16 | the three command numbers are pairwise distinct, so the `switch` in rperiodic.c:181-198 takes one branch per command |
| KFifo.SlotsDiffer | rperiodic.c:43-44 | two counter values less than the ring size apart map to different slots |
| KFifo.Fifo.constructor | rperiodic.c:237 | `kfifo_alloc` gives an empty queue of the requested size |
| KFifo.Fifo.Len | rperiodic.c:160 | `kfifo_len` is the number of queued pointers, at most the size |
| KFifo.Fifo.Reset | rperiodic.c:73 | `kfifo_reset` empties the queue |
| KFifo.Fifo.Put | rperiodic.c:61 | `kfifo_put` appends and returns 1 when there is room, and otherwise returns 0 and changes nothing |
| KFifo.Fifo.Get | rperiodic.c:93 | `kfifo_get` removes and returns the oldest pointer with 1, or returns 0 on an empty queue and changes nothing |
| KFifo.Fifo.Peek | rperiodic.c:66 | `kfifo_peek` returns the oldest pointer and removes nothing |
| KFifo.Fifo.Out | rperiodic.c:124 | `kfifo_out` removes `min(count, len)` pointers from the head and returns them in queue order |
| KFifo.Fifo.In | rperiodic.c:149 | `kfifo_in` appends as many pointers as there is room for, in order, and returns how many |
| Rperiodic.Handles | rperiodic.c:59-60 | the handle list has length n, and entry i is handle i |
| Rperiodic.FillRecord | rperiodic.c:99 | after `memset` of record h with c, record h is c throughout and every other record is unchanged |
| Rperiodic.Flatten | rperiodic.c:138-147 | copying out k records of 24 bytes gives 24·k bytes |
| Rperiodic.FlattenSnoc | rperiodic.c:141-146 | copying one more record appends exactly its bytes |
| Rperiodic.FlattenChunk | rperiodic.c:141-145 | record k of the copied run sits at bytes 24·k to 24·k+24 of the reader's buffer |
| Rperiodic.RecordsSnoc | rperiodic.c:138-139 | the records of one more handle are the records so far followed by that handle's record |
| Rperiodic.CopiedSnoc | rperiodic.c:138-146 | one more loop round appends that handle's record to the copied bytes |
| Rperiodic.CopiedRecord | rperiodic.c:138-146 | the k-th 24 bytes handed to the reader are the record of the k-th handle taken from `rx_fifo` |
| Rperiodic.FirstFailure | rperiodic.c:138-144 | the index of the first failing copy: every earlier copy succeeds, and the copy at the index fails unless it is the end |
| Rperiodic.PutStep | rperiodic.c:59-61 | one more put of the set-up loop appends handle i unless the queue already holds eight |
| Rperiodic.HandleOnce | rperiodic.c:59-61 | each handle occurs at most once in the initial list, and nothing outside 0..n-1 occurs |
| Rperiodic.PartitionFacts | rperiodic.c:31-32 | a sequence holding each pool handle once is 8 long, holds only valid handles, and has no repeats |
| Rperiodic.Tick | rperiodic.c:87-100 | a tick leaks the first free handle and queues the second, if there is one |
| Rperiodic.PoolLayout | rperiodic.c:27-32 | the pool's 192 bytes are eight records of 24 bytes |
| Rperiodic.AllHandlesOnce | rperiodic.c:59-61 | each of the handles 0..7 occurs once in the initial list, and nothing else occurs |
| Rperiodic.PartitionedIsPermutation | rperiodic.c:31-32 | the three places hold each handle of the pool once exactly when together they are a permutation of 0..7 |
| Rperiodic.SameHandles | rperiodic.c:43-44 | moving handles between the three places without losing or copying any keeps each in exactly one place |
| Rperiodic.QueuesFit | rperiodic.c:149-150 | len(free) + len(rx) + leaked = 8, so all of `rx_fifo` would fit on `free_fifo` |
| Rperiodic.LeakMoves | rperiodic.c:310 | `Leak`, the effect of `spp_async_tx`, moves the head of `free_fifo` to `leaked` and loses no handle |
| Rperiodic.LeakKeepsPartition | rperiodic.c:295-312 | `spp_async_tx` keeps every handle in exactly one place |
| Rperiodic.EnqueueMoves | rperiodic.c:93-100 | `Enqueue`, the sampling step, moves the head of `free_fifo` onto an `rx_fifo` with room and loses no handle |
| Rperiodic.EnqueueKeepsPartition | rperiodic.c:93-100 | the sampling step never finds `rx_fifo` full, so it drops no handle, and it keeps every handle in exactly one place |
| Rperiodic.TickKeepsPartition | rperiodic.c:76-107 | a whole tick keeps every handle in exactly one place |
| Rperiodic.DrainMoves | rperiodic.c:124-149 | `Drain`, the queue effect of `read`, moves the first n handles of `rx_fifo` onto `free_fifo` in order when they fit |
| Rperiodic.DrainKeepsPartition | rperiodic.c:149-150 | the taken handles always fit, so the "not enough room" warning cannot fire; len(free) + len(rx) is kept; every handle stays in exactly one place |
| Rperiodic.InitialPartition | rperiodic.c:54-74 | after set-up every handle is on `free_fifo`, once |
| Rperiodic.PoolExhausted | rperiodic.c:93-97 | once all eight handles have leaked, both queues are empty and every later tick changes no queue |
| Rperiodic.LeakedStayOut | rperiodic.c:295-312 | a leaked handle is on neither queue; since no transition removes a handle from `leaked`, it never comes back |
| Rperiodic.TickLosesHandle | rperiodic.c:87-100 | as written, a tick that finds a free handle leaves the two queues one handle shorter and `leaked` one longer |
| Rperiodic.IntendedTick | rperiodic.c:93-100 | the intended tick takes only the sampling step's handle and leaks nothing |
| Rperiodic.IntendedTickConserves | rperiodic.c:93-100 | the intended tick keeps every handle in exactly one place and keeps len(free) + len(rx), which is 8 when nothing has leaked |
| Rperiodic.Write | rperiodic.c:165-169 | `write` always fails with `-EBADF` |
| Rperiodic.Driver.constructor | rperiodic.c:237-252 | after set-up `free_fifo` holds handles 0..7 in index order, `rx_fifo` is empty, nothing has leaked, `Conserved()` holds, `counter` is 1, `nr_ticks` is 0, and the timer is not armed |
| Rperiodic.Driver.FreeFifoInit | rperiodic.c:54-69 | the eight puts leave the old contents followed by the handles in index order, cut at the size; from empty this is exactly 0..7 |
| Rperiodic.Driver.RxFifoInit | rperiodic.c:71-74 | `rx_fifo` becomes empty |
| Rperiodic.Driver.AsyncTx | rperiodic.c:302-327 | returns -1 and changes nothing when `free_fifo` is empty; otherwise it removes exactly the head, records it as leaked and returns the SPI status; it keeps `Conserved()` |
| Rperiodic.Driver.Memset | rperiodic.c:99 | the pool's memory becomes `Fill(old, h, c)` |
| Rperiodic.Driver.TakeSample | rperiodic.c:93-100 | the queues move by `Enqueue` and the memory by `Sampled`: an overrun changes neither; otherwise only the taken record changes |
| Rperiodic.Driver.TimerHandler | rperiodic.c:76-107 | `nr_ticks` and `counter` both go up by one modulo 2^32 whatever happens; the queues move by `Tick`; only the queued record is filled with `counter mod 256`; the result is `HRTIMER_RESTART`; it keeps `Conserved()` |
| Rperiodic.Driver.Read | rperiodic.c:109-153 | `count < 24` gives `-EINVAL`; an empty `rx_fifo` gives `-EAGAIN`, the wait's error, or a sleep, all with no change; otherwise n = min(count/24, 8, len rx) handles leave the head of `rx_fifo` in order and all n are appended to `free_fifo` (under `Conserved()` there is always room), and the call returns 24·n with the records in order, or `-EFAULT` with the records copied before the failure |
| Rperiodic.Driver.GiveBack | rperiodic.c:138-152 | copies out the records and appends the handles to `free_fifo` as far as there is room, even after a failed copy |
| Rperiodic.Driver.CopyOut | rperiodic.c:138-147 | returns 24 bytes per record when every copy succeeds and `-EFAULT` at the first failure, with the bytes of the records copied before it |
| Rperiodic.Driver.Poll | rperiodic.c:155-163 | the mask `POLLIN` joined with `POLLRDNORM` exactly when `rx_fifo` is non-empty, 0 otherwise |
| Rperiodic.Driver.Ioctl | rperiodic.c:171-201 | START arms the timer and STOP disarms it; SPARAMS stores the period, or fails with `-EFAULT` when the copy fails; any other command gives `-EINVAL`; no command touches the queues, the records or the counters; it keeps `Conserved()` |
| Rperiodic.FourTicksLeakFour | rperiodic.c:76-107 | four ticks after set-up, with no reader, use up all eight free handles but queue only four |

## Findings

| source | as written | input that shows it | evidently intended | confidence | as-written member | corrected member |
|---|---|---|---|---|---|---|
| rperiodic.c:310 | `spp_async_tx` takes the head of `free_fifo` with `kfifo_get`, and nothing gives it back; the completion callback at rperiodic.c:295-300 only logs | four ticks after set-up with no reader: `free_fifo` is empty and only four records are queued; after eight handles leak every tick is an overrun | the transfer uses the static `tx`/`rx` buffers, so a tick should take only the sampling step's record, keeping len(free) + len(rx) = 8 | high, not executed | Rperiodic.TickLosesHandle | Rperiodic.IntendedTickConserves |

The driver model follows the code as written: `Driver.TimerHandler` moves the
queues by `Tick`, not by `IntendedTick`. `FourTicksLeakFour` and
`PoolExhausted` show the consequences.

## Left out

- Module and driver registration, `misc_register`, the `file_operations` wiring, `spp_open` and `spp_close`: kernel plumbing with no effect on the bookkeeping.
- The error paths of `spp_dev_init`: a failing `kfifo_alloc` or `misc_register` is not modelled, because the allocation is assumed to succeed. `kfifo_free` at teardown is left out too.
- SPI bus setup and transfer (`spp_spi_setup`, `spi_async`, `spp_sync_tx`) and the hex dump in `spp_spi_complete`: these are calls into hardware. Only the queue effect of `spp_async_tx` is modelled, and `spi_async`'s status is a parameter.
- Arming, cancelling and forwarding the hrtimer, and the arithmetic of `ktime_set`: these are kernel time services. The period is stored as the pair passed to `ktime_set`, and "armed" is a boolean.
- Sleeping and waking on the wait queue, and any interleaving of tick, SPI completion and read. Each entry point is one atomic step. A blocking read of an empty `rx_fifo` is reported as `Sleeping`, with no change, instead of the later retry.
- The static scratch array `smp[]` of `spp_read`. The model passes the taken handles as a sequence, so its sharing between concurrent readers is not captured.
- `printk` diagnostics and `kfifo_avail`. The `kfifo_peek` at the end of `spp_free_fifo_init` is kept, but only to feed a `printk`.
- Rperiodic.Driver.CopyOut: a `copy_to_user` that copies part of a record before failing is modelled as copying none of it. The parameter `copyOk` says only whether each whole copy succeeds.
- KFifo.Fifo: the `in`/`out` counters are unbounded rather than 32-bit. Their wrap-around is harmless because the ring size, a power of two, divides 2^32. The rounding of `kfifo_alloc` sizes up to a power of two does not arise, because 8 already is one.
- The run / in-flight state machine, sequence numbers, overrun statistics and teardown wait: none of these exists in the driver's code, so they are not modelled. The code also does not reset the queues on START and does not return transferred records on completion. The model follows the code, including the leak described above.
- ioctl/ioctl.go as a program: it is a syscall wrapper and a demonstration. Only its constants and its struct layout are used, as the values the encoding must produce.
