# nulll: a throttled null device, modelled in Dafny

`nulll` is a Linux character device that behaves like `/dev/null` but keeps
count. Every write is thrown away, and its length is added to a cumulative
counter, `written`. A module parameter, `capacity`, is set once at load time;
`0` means no limit. While a limit is set, a write that would take `written`
past `capacity` is refused whole with `-ENOSPC`. Reads always return end of
file. `lseek` always moves the file position to 0. The `BLKGETSIZE64` ioctl
copies the current counter to the caller.

The model has two modules:

- `Nulll` (`nulll.dfy`) holds the device.
  - `Device` is a class with a `const capacity` (never assigned after
    construction) and a mutable `written`.
  - `OpenFile` is a class holding the per-open-file position `f_pos`.
  - `Read`, `Write`, `Lseek` and `Ioctl` model the four file operations.
    The bodies of `Write` and `Ioctl` are each one critical section. `Read`
    and `Lseek` take no lock.
  - `Write` and `Ioctl` are proved against the pure functions
    `WriteTransition` and `IoctlReply`.
  - Results are an `Outcome`: either `Success(n)` or `Failure(errno)`, where
    errno is `ERESTARTSYS`, `ENOSPC`, `EFAULT` or `ENOIOCTLCMD`. `Code()`
    gives the C return value as a 64-bit signed integer, using the Linux
    numbers 512, 28, 14 and 515. A count of 2^63 or more comes out negative,
    as the `ssize_t` result of `nulll_write` does.
  - `BLKGETSIZE64` is `_IOR(0x12, 114, size_t)`. The model uses `0x80081272`,
    its value on x86-64 and arm64. Other architectures encode the direction
    bits differently; powerpc64, for example, gives `0x40081272`.
- `NulllTraces` (`traces.dfy`) runs the device over a sequence of calls. The
  mutex serialises concurrent callers, so every concurrent execution is one
  such sequence, and the lemmas hold for every sequence. This module states the
  whole-run properties:
  - the capacity bound;
  - exact accounting with no lost updates;
  - queries agree with each other while no write comes between them;
  - "T one-byte writers against capacity T - 1" gives exactly T - 1
    successes and one `ENOSPC`;
  - the capacity-100 walk-through.

  `RunDevice` drives the `Device` and `OpenFile` methods through a sequence
  of calls. It is proved to give the same replies, counter and position as
  `Run`, so the whole-run lemmas also describe the class.

Environment decisions are boolean parameters:

- `interrupted`: whether `mutex_lock_interruptible` returned non-zero.
- `fault`: whether `copy_to_user` failed.

**Overflow.** `unsigned long` is modelled as 64 bits. The sum
`written + size` wraps modulo 2^64 (`AddULong`) in both the check
(nulll.c:49) and the update (nulll.c:54), exactly as the C code does. The
model makes this choice:

- The capacity bound `capacity != 0 ==> written <= capacity` is proved
  unconditionally.
- Exact accounting modulo 2^64 is proved for every run. The counter equals
  the start value plus the accepted sizes, modulo 2^64.
- Monotonic growth, and the accepted sizes summing to at most the capacity,
  are proved only for runs in which the start value plus the accepted sizes
  stays below 2^64. This is a precondition of those lemmas, not of the
  operations.
- `WrapLetsCounterShrink` shows that the wrap really does make the counter go
  down. Two examples:
  - a write of `2^64 - 5` bytes is accepted at `written = 10` with
    `capacity = 100`, and leaves `written = 5`;
  - with `capacity = 2^64 - 1`, a full counter wraps back to 0 on a one-byte
    write.
- `AcceptedCanExceedCapacity` shows the same at the level of a run. Writes of
  10 and 2^64 - 5 bytes at capacity 100 are both accepted, so the accepted
  sizes sum to more than the capacity.

One would expect `written` never to decrease and the accepted writes never to
add up past the capacity. The code does not guarantee either once the sum
wraps, and this model follows the code.

## Model

| member | source | states |
|---|---|---|
| `Nulll.AddULong` | nulll.c:49-54 | `unsigned long` addition: the true sum when it fits in 64 bits; otherwise the sum minus 2^64, which is smaller than either operand |
| `Nulll.Errno.Number` | nulll.c:45-90 | the errno of each error exit (`ERESTARTSYS` 512, `ENOSPC` 28, `EFAULT` 14, `ENOIOCTLCMD` 515) is positive and below 4096, so its negation is read as an error return |
| `Nulll.Outcome.Code` | nulll.c:42-62 | the C return value is a 64-bit signed integer: an error exit returns the negated errno; a success returns the count's bit pattern as `ssize_t`, which is the count itself when it is below 2^63 |
| `Nulll.CodeDetermines` | nulll.c:42-94 | while counts stay below 2^63, the return values tell apart every exit path: equal codes only for equal outcomes; a code is non-negative exactly for a success below 2^63 |
| `Nulll.HugeWriteLooksLikeNoSpace` | nulll.c:50-56 | an accepted write of 2^64 - 28 bytes returns -28, the same value as the `-ENOSPC` exit |
| `Nulll.WriteTransition` | nulll.c:40-63 | an interrupted lock wait gives `-ERESTARTSYS` and leaves the counter alone; a refused admission (limit set, wrapped sum over capacity) gives `-ENOSPC` and leaves the counter alone; otherwise the result is `size` and the counter becomes `written + size` mod 2^64; with a limit set, `written <= capacity` is preserved |
| `Nulll.WriteAllOrNothing` | nulll.c:49-56 | a write is accepted whole (result `size`, counter advanced by `size`) or fails without changing the counter |
| `Nulll.WriteGrowsWithoutOverflow` | nulll.c:49-54 | when `written + size < 2^64`, the write succeeds iff it is not interrupted and (no limit or `written + size <= capacity`), adds exactly `size` on success, and the counter never decreases |
| `Nulll.WrapLetsCounterShrink` | nulll.c:49-54 | with the wrap-around, a huge write is admitted and the counter goes from 10 down to 5; at capacity 2^64 - 1 a full counter wraps to 0 |
| `Nulll.IoctlReply` | nulll.c:70-95 | any command other than `BLKGETSIZE64` gives `-ENOIOCTLCMD`; an interrupted `BLKGETSIZE64` gives `-ERESTARTSYS`; a faulting copy gives `-EFAULT`; nothing is delivered on these paths; success (0) happens exactly when none of them applies, and then delivers the counter unchanged |
| `Nulll.Device.constructor` | nulll.c:26-31 | the device starts with the given capacity and `written = 0`, satisfying the capacity bound |
| `Nulll.Device.Read` | nulll.c:35-38 | returns 0 whatever the file, size and offset; it has no modifies clause, so neither the counter nor the file position changes |
| `Nulll.Device.Write` | nulll.c:40-63 | the result and the new counter are those of `WriteTransition` for the old counter; `off` and the file play no part; the capacity is a constant; the capacity bound is preserved |
| `Nulll.Device.Lseek` | nulll.c:65-68 | sets the file position to 0 and returns 0 whatever the offset and origin; it may modify only the file, so the counter is unchanged |
| `Nulll.Device.Ioctl` | nulll.c:70-95 | the result and the delivered value are those of `IoctlReply` for the current counter; it has no modifies clause, so no state changes on any path |
| `Nulll.QueryTwice` | nulll.c:76-88 | two `BLKGETSIZE64` queries, with no interruption or fault and only a read between them, deliver the same value, which is the current counter |
| `Nulll.CapacityHundred` | nulll.c:49-56 | at capacity 100, using only the method contracts: writes of 60, 50, 40 and 1 give 60, `-ENOSPC`, 40 and `-ENOSPC`, and the size query then delivers 100 |
| `NulllTraces.Step` | nulll.c:35-95 | only a write can change the counter; only `lseek` changes the position, and it sets it to 0; read and lseek return 0; whatever a query delivers is the counter before the call; the capacity bound is preserved by every call |
| `NulllTraces.RunDevice` | nulll.c:35-95 | calling the device's `Write`, `Read`, `Lseek` and `Ioctl` methods in sequence gives exactly the replies, final counter and final file position of `Run` from the device's old state |
| `NulllTraces.RunKeepsBound` | nulll.c:49-54 | with a limit set, no sequence of writes, reads, seeks and queries takes the counter past the capacity |
| `NulllTraces.RunAccountingMod` | nulll.c:44-56 | for every run, the final counter is the start value plus the sizes of exactly the writes that returned success, modulo 2^64: no update is lost or counted twice |
| `NulllTraces.RunAccounting` | nulll.c:44-56 | when the start value plus the accepted sizes stays below 2^64, the final counter equals that sum exactly, so the counter never decreases |
| `NulllTraces.AcceptedWithinCapacity` | nulll.c:49-54 | from a fresh device with a limit, when the accepted sizes do not overflow, they sum to at most the capacity and a size query then delivers exactly that sum |
| `NulllTraces.AcceptedCanExceedCapacity` | nulll.c:49-54 | with the wrap, writes of 10 and 2^64 - 5 bytes at capacity 100 are both accepted; their sizes sum to 2^64 + 5 and the counter ends at 5 |
| `NulllTraces.QueriesWithoutWritesAgree` | nulll.c:76-88 | in a run with no writes, the counter stays as it was and every successful query delivers that same value |
| `NulllTraces.UnitWritersFillCapacity` | nulll.c:44-56 | `n` one-byte writers against a limit below 2^64 - 1 with `w` already written: exactly `min(n, capacity - w)` succeed, the rest fail with `-ENOSPC`, and the counter ends at `w` plus the successes |
| `NulllTraces.OneWriterTooMany` | nulll.c:44-56 | `T` one-byte writers against capacity `T - 1`: `T - 1` successes, exactly one `-ENOSPC`, and a size query afterwards delivers `T - 1` |
| `NulllTraces.CapacityHundredRun` | nulll.c:40-95 | the capacity-100 sequence (write 60, 50, 40 and 1, then query) replies 60, `-ENOSPC`, 40, `-ENOSPC` and then 0 with 100 delivered, and ends with the counter at 100 |

## Left out

- Module and device registration (`misc_register`, `misc_deregister`, the `file_operations` and `miscdevice` tables, `module_init`, `module_exit`, nulll.c:97-135): these are host plumbing with no accounting behaviour.
- The `module_param` and `MODULE_*` declarations and `printk` logging (nulll.c:22-28, 114, 118, 131): `capacity` is a constructor argument instead.
- The mutex and real concurrency: `mutex_init`, `mutex_lock_interruptible`, `mutex_unlock` and `mutex_destroy` are not modelled. Each critical section is one atomic method. An interrupted lock wait is the `interrupted` flag. Interleavings are represented only by the call order of a run.
- The ordering of `mutex_init` after `misc_register` at load time (nulll.c:113, 120): this is part of registration, which is left out.
- `copy_to_user` (nulll.c:82): it is a call into the kernel. Its failure is the `fault` flag. A faulting copy is modelled as delivering nothing, so the partial copy it may leave behind is not modelled.
- The user buffers of read and write: they are never read or filled.
- `Nulll.CodeDetermines`: it distinguishes the exit paths only while counts stay below 2^63. A larger accepted write returns a negative value that can equal an error return, as `HugeWriteLooksLikeNoSpace` shows for `-ENOSPC`.
- `NulllTraces.RunAccounting`: it requires that the start counter plus the accepted write sizes stays below 2^64. Past that point the wrap makes the counter go down, as `WrapLetsCounterShrink` shows. `RunAccountingMod` covers every run modulo 2^64.
- `NulllTraces.AcceptedWithinCapacity`: it requires that the accepted sizes do not overflow. Without that, their sum can exceed the capacity, as `AcceptedCanExceedCapacity` shows.
- `NulllTraces.UnitWritersFillCapacity`: it requires `capacity < 2^64 - 1`. At the largest capacity, a full counter wraps on the next write, as `WrapLetsCounterShrink` shows.
- The kernel's own limit on a single write (`MAX_RW_COUNT` in the VFS layer): it is not in the device code, so `size` ranges over every `size_t`.
