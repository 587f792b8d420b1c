# z_thpool in Dafny

A model of the core of z_thpool, a small worker-pool library for embedded
Linux. Callers hand the pool a callback and an argument pointer. The pool
stores them as a fixed-size record in a bounded byte ring buffer (the
"kfifo"). Worker threads take records out in FIFO order and run them.

The model has four modules:

- `Machine` (machine.dfy): the C integer types `uint8_t`, `int32_t` and
  `uint32_t` and the bit operators `&`, `|` and `>>`, written over unbounded
  integers. `Wrap` is the wrap-around of a `uint32_t`. There are lemmas that
  link masking to remainders and `x & (x - 1) == 0` to powers of two.
- `ZTool` (z_tool.dfy): the helpers of `inc/z_tool.h`. These are `MIN`/`MAX`,
  the alignment macros, and `Z_TOOL_roundup_pow_of_two`. The round-up is
  proved to be the least power of two at least `n` for `1 <= n <= 2^31`. It
  is 1 for `n == 0` and 0 (32-bit wrap) for every `n` above `2^31`.
- `ZKfifo` (z_kfifo.dfy): `struct z_kfifo_struct` as the class `KFifo`. It has
  a byte array, a size, and the free-running cursors `in` and `out` (named
  `inCursor`/`outCursor`, because `in` is a Dafny keyword). `Valid()` says:
  - the size is 0 or a power of two;
  - a non-empty ring has storage behind it;
  - `in - out` (mod 2^32) is at most the size.

  The ghost function `Contents()` is the stored bytes, oldest first. These
  are the bytes at slots `(out + i) mod size`. `In`, `Out` and `OutCheck`
  copy in two segments, byte by byte, as the two `memcpy` calls do. Each is
  proved against `Contents()`: `In` appends, `Out` removes from the front,
  and `OutCheck` leaves the ring as it was.
- `ZThpool` (z_thpool.dfy): the singleton manager `gs_thpool_mng` as the
  class `ThreadPoolManager`, with the threads abstracted away. Each locked
  region of the source is one method. A work record `{cb, p_arg}` is
  `Msg(cb, arg)`, its two pointers as addresses. The record's bytes are its
  little-endian image, and R = `sizeof(struct z_thpool_msg_struct)` is twice
  the pointer width (8 or 16). A ghost queue of records is tied to the fifo's
  bytes by `QueueValid()`, and so are `pub_bytes`/`sub_bytes`, which run in
  step with the fifo's `in`/`out`.

The model follows what the code does, including where that differs from
what its declarations suggest:

- `inc/z_thpool.h:11` calls `msg_node_max` the maximum number of message
  nodes in the pool, but the queue can hold more records than that.
  `z_thpool_start` asks for `R * msg_node_max` bytes, and `z_kfifo_malloc`
  rounds that up to a power of two. So for 0 < D and R * D <= 2^31, a pool
  configured for D records accepts between D and 2D - 1 records before
  refusing (`QueueCapacity`, `AddUntilRefused`). It accepts exactly D when D
  is a power of two, because R * D is then already a power of two
  (`ExactCapacity`). For D = 100 it accepts 128 (`TestCapacity`). Larger
  products are covered by the last bullet below.
- `z_thpool_start` does not validate its configuration. A thread count of 0
  starts a pool with no workers.
- When a worker fails to spawn, the rollback as written never finishes (see
  Findings). `Start`, `Launch`, `Run`, `Rollback` and `ThpoolTest` use the
  corrected spawn loop. A ghost count `live` of running workers is kept
  beside `th_run_nums`: a successful spawn adds one, a worker leaving takes
  one off, and `Valid()` requires `th_run_nums == live`. So the drain is
  proved to end because every decrement belongs to a worker that is live.
- `sizeof(struct z_thpool_msg_struct) * msg_node_max` is computed in
  `size_t`. `z_kfifo_malloc` takes a `uint32_t`, so the product is truncated
  to 32 bits when it is passed (`QueueBytes`). On LP64 the product itself
  does not overflow; on a 32-bit target it wraps. Either way the fifo is
  asked for the product mod 2^32. A request above 2^31 that is not a power
  of two rounds to 0. The fifo then has size 0 and transfers nothing.

Outside inputs are parameters:

- `allocOk` says whether `malloc` returns storage.
- `spawn(i)` is the return code of creating the i-th worker thread.
- `w` / `wordBytes` is `sizeof(void *)` (4 or 8).
- `longSize` is `sizeof(long)`.

## Model

| member | source | states |
|---|---|---|
| `ZTool.Min` | inc/z_tool.h:60 | the result is one of the two arguments and no larger than either |
| `ZTool.Max` | inc/z_tool.h:61 | the result is one of the two arguments and no smaller than either |
| `ZTool.AlignUp` | inc/z_tool.h:49 | a multiple of the alignment, at least num and below num + align; equal to num exactly when num is already aligned |
| `ZTool.AlignDown` | inc/z_tool.h:51 | a multiple of the alignment, at most num and above num - align |
| `ZTool.AlignSys` | inc/z_tool.h:54 | ALIGN_SYS is ALIGN_UP with the alignment sizeof(long) |
| `ZTool.RoundupPowOfTwo` | inc/z_tool.h:72-81 | 1 for 0; for 1 <= n <= 2^31 a power of two p with n <= p < 2n; 0 for every n above 2^31 (the 32-bit `n + 1` wraps) |
| `ZTool.SmearFrom` | inc/z_tool.h:75-79 | the or-shift steps only set bits: the result is at least the input, and 0 stays 0 |
| `ZTool.Smear` | inc/z_tool.h:75-79 | the five or-shift steps (`n >> 1` to `n >> 16`) turn a uint32_t into all ones up to and including its highest set bit, 2^bitlength - 1 |
| `ZTool.SmearFromStart` | inc/z_tool.h:75-79 | each step doubles the run of set top bits until it covers the whole bit length, so five steps suffice for 32 bits |
| `ZTool.SmearPlusOne` | inc/z_tool.h:74-80 | adding one to the smeared n - 1 gives the next power of two above n - 1 below 2^31, and 0 from 2^31 on |
| `ZTool.RoundupIsLeast` | inc/z_tool.h:72-81 | no power of two at least n lies below the rounded value: it is the least one |
| `ZTool.RoundupIsUnique` | inc/z_tool.h:72-81 | the rounded value is the only power of two in [n, 2n) |
| `ZTool.RoundupKeepsPowerOfTwo` | inc/z_tool.h:72-81 | a power of two is returned unchanged |
| `ZTool.RoundupExamples` | inc/z_tool.h:72-81 | 100 rounds to 128 and 64 stays 64 |
| `Machine.PowerOfTwoByMask` | src/z_kfifo.c:19 | for positive x, `x & (x - 1) == 0` holds exactly when x is a power of two |
| `Machine.MaskIsMod` | src/z_kfifo.c:51 | for a power of two d, `c & (d - 1)` is c modulo d |
| `ZKfifo.MaskOfPredecessor` | src/z_kfifo.c:19 | the rounding test `size & (size - 1)` on a uint32_t is zero exactly for 0 and the powers of two |
| `ZKfifo.AllocSize` | src/z_kfifo.c:19-21 | the size malloc'd: 0 or a power of two; 0 and powers of two unchanged; otherwise the least power of two above it up to 2^31, and 0 beyond |
| `ZKfifo.CursorsAgree` | src/z_kfifo.c:51 | `out` plus the 32-bit stored length lands on the same slot as `in`, although both cursors wrap |
| `ZKfifo.MaskedOffset` | src/z_kfifo.c:51 | `in & (size - 1)` is the slot just after the stored bytes, and `size - off` does not wrap |
| `ZKfifo.AdvanceIn` | src/z_kfifo.c:59 | moving `in` forward by n (mod 2^32) lengthens `in - out` by n |
| `ZKfifo.AdvanceOut` | src/z_kfifo.c:78 | moving `out` forward by n (mod 2^32) shortens `in - out` by n |
| `ZKfifo.RingAppend` | src/z_kfifo.c:51-58 | the head copy at the masked offset and the tail copy at slot 0 leave the old stored bytes in place and append the new ones behind them |
| `ZKfifo.CopyInPlan` | src/z_kfifo.c:50-58 | the two copies of `z_kfifo_in`, with the offset and first-segment length computed as in the source, append n bytes to the ring |
| `ZKfifo.RingRead` | src/z_kfifo.c:69-77 | the head copy from the masked offset and the tail copy from slot 0 deliver the oldest n bytes in order and touch nothing else of the destination |
| `ZKfifo.RingAdvance` | src/z_kfifo.c:78 | advancing `out` by n drops exactly the first n stored bytes |
| `ZKfifo.Memcpy` | src/z_kfifo.c:55 | the destination holds the source bytes at the target range and is unchanged elsewhere |
| `ZKfifo.KFifo.Valid` | inc/z_kfifo.h:9-14 | the size is 0 or a power of two, a non-empty ring has at least size bytes of storage, and `in - out` (mod 2^32) is at most the size |
| `ZKfifo.KFifo.DataLen` | src/z_kfifo.c:107-110 | in - out mod 2^32 (no contract of its own; DataLenReachesIn, Valid, Space and Contents state its meaning) |
| `ZKfifo.KFifo.DataLenReachesIn` | src/z_kfifo.c:107-110 | the stored length `in - out` (mod 2^32) is the distance that takes `out` to `in`, across the 32-bit wrap (its bound by the size is part of `Valid`) |
| `ZKfifo.KFifo.Space` | src/z_kfifo.c:101-104 | free space plus stored length is the size, in every valid state |
| `ZKfifo.KFifo.Contents` | inc/z_kfifo.h:9-14 | the abstract queue has exactly data_len bytes |
| `ZKfifo.KFifo.constructor` | src/z_kfifo.c:124-125 | a zeroed struct is a valid empty ring of size 0 |
| `ZKfifo.KFifo.Init` | src/z_kfifo.c:6-11 | storage and size are taken as given and both cursors reset to 0; a consistent pair gives a valid empty ring |
| `ZKfifo.KFifo.Malloc` | src/z_kfifo.c:14-33 | on success returns 0 with a fresh buffer of the rounded size and an empty ring; on allocation failure returns -1 and leaves {NULL, 0, 0, 0} |
| `ZKfifo.KFifo.Free` | src/z_kfifo.c:36-42 | from any state, every field becomes NULL/0 and the ring is valid and empty, so a second free changes nothing |
| `ZKfifo.KFifo.CopyIn` | src/z_kfifo.c:51-58 | after the two copies the ring read from `out` for data_len + n bytes is the old contents followed by the n new bytes |
| `ZKfifo.KFifo.In` | src/z_kfifo.c:45-61 | transfers n = min(space, len) bytes (0 for a null source), advances `in` by n mod 2^32, returns n, and the contents become old contents ++ data[..n] |
| `ZKfifo.KFifo.OutCheck` | src/z_kfifo.c:83-98 | returns n = min(data_len, len) (0 for a null destination); the destination's first n bytes are the oldest n stored bytes; the ring is unchanged |
| `ZKfifo.KFifo.Out` | src/z_kfifo.c:64-80 | returns n = min(data_len, len) oldest bytes in order, advances `out` by n mod 2^32, and the contents become old contents[n..] |
| `ZKfifo.FillSequential` | src/z_kfifo.c:119-121 | the test input holds 0, 1, ..., n - 1 |
| `ZKfifo.WriteReadRound` | src/z_kfifo.c:133-172 | on an empty ring of n bytes, writing n returns n, reading n returns the same bytes in order (whether or not `compare` is set), and the ring is empty again |
| `ZKfifo.KfifoTest` | src/z_kfifo.c:113-183 | the self-test returns 0 whenever allocation succeeds (every mismatch branch is unreachable) and (uint32_t)-1 when it fails |
| `ZThpool.WordLimit` | src/z_thpool.c:13-16 | a w-byte pointer holds 256^w values, which is 2^(8w) |
| `ZThpool.EncodeMsg` | src/z_thpool.c:13-16 | the image of a record is R = 2 * sizeof(void *) bytes, cb first, then p_arg |
| `ZThpool.DecodeMsg` | src/z_thpool.c:99 | the record read from R bytes has two pointers that each fit in a pointer |
| `ZThpool.DecodeEncodeWord` | src/z_thpool.c:99 | a pointer copied into bytes and back is the same pointer |
| `ZThpool.EncodeDecodeWord` | src/z_thpool.c:99 | any pointer-sized bytes are the image of the pointer they hold |
| `ZThpool.DecodeEncodeMsg` | src/z_thpool.c:158-161 | a record copied into the fifo's bytes and read back is the record written |
| `ZThpool.EncodeDecodeMsg` | src/z_thpool.c:99 | any R bytes are the image of the record they decode to |
| `ZThpool.EncodeAllAppend` | src/z_thpool.c:161 | appending a record to the queue appends its R bytes to the byte image |
| `ZThpool.EncodeAllFront` | src/z_thpool.c:99 | the first R bytes of a non-empty queue's image are its oldest record, the rest the image of the others |
| `ZThpool.FrontRecord` | src/z_thpool.c:93-99 | with at least R bytes queued there is a first record, and the R bytes that come out decode to it |
| `ZThpool.QueueBytes` | src/z_thpool.c:206 | the requested fifo size is R * msg_node_max whenever that fits in 32 bits |
| `ZThpool.AllocHoldsWholeRecords` | src/z_thpool.c:206 | whatever msg_node_max is, the fifo z_thpool_start allocates (R * msg_node_max wrapped to 32 bits, then rounded up) is a whole number of records |
| `ZThpool.StepKeepsAlignment` | src/z_kfifo.c:59 | a cursor that is a multiple of R stays one after advancing by R with the 32-bit wrap |
| `ZThpool.AdmittedBelowCapacity` | src/z_thpool.c:153-156 | with k records queued, the space check admits one more exactly when k < size / R |
| `ZThpool.QueueCapacity` | src/z_thpool.c:206 | for 0 < m and R * m <= 2^31 the allocated fifo is a multiple of R holding m to 2m - 1 records |
| `ZThpool.ExactCapacity` | src/z_thpool.c:206 | for msg_node_max a power of two with R * msg_node_max below 2^32, the fifo is not rounded: it has exactly R * msg_node_max bytes and holds exactly msg_node_max records |
| `ZThpool.PowerOfTwoBlocks` | src/z_kfifo.c:19-21 | a product of two powers of two is left unrounded by the allocation and splits into exactly m blocks of r |
| `ZThpool.TestCapacity` | src/z_thpool.c:342 | the test configuration of 100 records gets room for 128, for 4- and 8-byte pointers |
| `ZThpool.FirstFailure` | src/z_thpool.c:217-225 | the first failing spawn index: every spawn before it succeeds, and it fails unless it is the end |
| `ZThpool.WrapUndoesIncrement` | src/z_thpool.c:100-108 | th_busy_nums++ followed by th_busy_nums-- gives back the value, even across the 32-bit wrap |
| `ZThpool.ThreadPoolManager.R` | src/z_thpool.c:13-16 | R = sizeof(struct z_thpool_msg_struct) is 8 or 16 and a power of two |
| `ZThpool.ThreadPoolManager.QueueValid` | src/z_thpool.c:19-32 | the fifo is a valid ring whose bytes are exactly the images of the queued records, oldest first, pub_bytes/sub_bytes equal the fifo's `in`/`out`, and the fifo's size and both cursors are multiples of R |
| `ZThpool.ThreadPoolManager.RecordsNeverStraddle` | src/z_kfifo.c:51-73 | masking by the fifo size never splits a record: from the slot `in & (size - 1)` or `out & (size - 1)`, all R bytes of a record lie before the end of the buffer |
| `ZThpool.ThreadPoolManager.Valid` | src/z_thpool.c:19-32 | QueueValid, th_run_nums is the number of live workers, start_flag is 0 or 1, a stopped pool has no storage and no live worker, and a started pool has th_run_flag set |
| `ZThpool.ThreadPoolManager.constructor` | src/z_thpool.c:35 | the zero-initialised static manager is valid, stopped and has an empty queue |
| `ZThpool.ThreadPoolManager.ZeroAll` | src/z_thpool.c:192 | the memset leaves every counter, flag and fifo field 0 and an empty queue |
| `ZThpool.ThreadPoolManager.CountersTrackQueue` | src/z_thpool.c:101-166 | pub_bytes - sub_bytes (mod 2^32) is R times the number of queued records |
| `ZThpool.ThreadPoolManager.UsedCache` | src/z_thpool.c:306 | data_len / R by integer division: the number of whole records in the fifo, with fewer than R bytes left over |
| `ZThpool.ThreadPoolManager.UsedCacheCounts` | src/z_thpool.c:306 | the used-cache count is the number of queued records and at most size / R |
| `ZThpool.ThreadPoolManager.ShellShow` | src/z_thpool.c:302-316 | of the reported figures, "use cache nums" is the number of queued records and at most size / R; pub_bytes - sub_bytes (mod 2^32) is that count times R; "create nums" is the number of live workers |
| `ZThpool.ThreadPoolManager.AddWork` | src/z_thpool.c:139-174 | returns 0 exactly when cb and p_arg are non-null, the pool is started and at least R bytes are free; then the record is appended and pub_bytes grows by R; otherwise returns -1 with queue, pub_bytes and `in` unchanged |
| `ZThpool.ThreadPoolManager.PushRecord` | src/z_thpool.c:158-165 | with R bytes free, `z_kfifo_in` takes the whole record, so the "Failed to write" branch is dead, and the queue gains the record; `in` stays a multiple of R |
| `ZThpool.ThreadPoolManager.DequeueStep` | src/z_thpool.c:88-102 | run by one of the live workers; fires exactly when th_run_flag is set and at least R bytes are queued; then removes the oldest record, th_busy_nums + 1, sub_bytes + R; otherwise changes nothing |
| `ZThpool.ThreadPoolManager.PopRecord` | src/z_thpool.c:99 | `z_kfifo_out` of R bytes yields the oldest record and removes it from the queue; `out` stays a multiple of R |
| `ZThpool.ThreadPoolManager.CallbackDone` | src/z_thpool.c:107-109 | th_busy_nums goes down by one (mod 2^32) |
| `ZThpool.ThreadPoolManager.MsgRead` | src/z_thpool.c:84-110 | one pass of a live worker after the wait: the oldest record is taken when the pool runs and one is queued, and th_busy_nums ends where it started |
| `ZThpool.ThreadPoolManager.Start` | src/z_thpool.c:181-247 | with the corrected spawn loop: a started pool gives -1 and no change. Otherwise: on allocation failure -1 and stopped; when every spawn succeeds 0, started, running, th_run_nums == max_thread_nums, empty fifo of the rounded size; at a failed spawn its code, stopped, no live worker, fifo freed |
| `ZThpool.ThreadPoolManager.Launch` | src/z_thpool.c:205-228 | with the corrected spawn loop: a failed fifo allocation returns -1 with the pool stopped; otherwise the spawn outcome as for Start |
| `ZThpool.ThreadPoolManager.Run` | src/z_thpool.c:212-240 | with the corrected spawn loop and the fifo allocated: all spawns succeed and the pool is started, or the first failure's code is returned with the pool rolled back to zero live workers |
| `ZThpool.ThreadPoolManager.Rollback` | src/z_thpool.c:232-240 | after the corrected spawn loop, when th_run_nums equals the live workers: clears th_run_flag, lets every live worker leave (th_run_nums and the live count reach 0) and frees the fifo |
| `ZThpool.ThreadPoolManager.WorkersLeave` | src/z_thpool.c:122-129 | only live workers leave, and only once th_run_flag is 0 (their `while (th_run_flag)` loop has ended); each one leaving z_thpool_proc takes th_run_nums and the live count down by one |
| `ZThpool.ThreadPoolManager.SpawnWorkers` | src/z_thpool.c:217-225 | the loop as written: all spawns succeed with th_run_nums == max_nums workers live, or at the first failure k the code is returned with k workers live but th_run_nums == k + 1 |
| `ZThpool.ThreadPoolManager.SpawnWorkersWithUndo` | src/z_thpool.c:217-225 | the corrected loop: th_run_nums always equals the live workers, max_nums on success and k at the first failure k |
| `ZThpool.ThreadPoolManager.RollbackAsWritten` | src/z_thpool.c:232-238 | after the loop as written fails and every live worker leaves, th_run_nums is still 1 |
| `ZThpool.ThreadPoolManager.Exit` | src/z_thpool.c:253-282 | a stopped pool is left unchanged; a started one ends with every live worker gone, the fifo freed and the whole manager zero |
| `ZThpool.SpawnFailureExample` | src/z_thpool.c:216-238 | with one worker configured and its spawn failing, no worker runs yet th_run_nums stays 1 |
| `ZThpool.AddUntilRefused` | src/z_thpool.c:153-156 | with no dequeues, a started empty pool accepts exactly size / R records, in order, and then refuses |
| `ZThpool.AddOneMore` | src/z_thpool.c:153-165 | with k copies of a record queued in a started pool, add_work takes one more exactly when k < size / R, and otherwise leaves the queue as it was |
| `ZThpool.AddAfterExit` | src/z_thpool.c:253-282 | after z_thpool_exit, z_thpool_add_work returns -1 whatever the start did |
| `ZThpool.AddTask` | src/z_thpool.c:358 | a started pool below capacity takes the record; a stopped pool refuses it |
| `ZThpool.AddTasks` | src/z_thpool.c:357-363 | a started pool with room takes every task, in order; a stopped pool takes none |
| `ZThpool.ThpoolTest` | src/z_thpool.c:340-380 | with the corrected spawn loop, the pool test returns 0, and all 100 tasks are queued exactly when the start succeeds |

## Findings

| source | as written | input that shows it | evidently intended | confidence | as-written member | corrected member |
|---|---|---|---|---|---|---|
| src/z_thpool.c:216-238 | `th_run_nums++` runs before each spawn and is not undone when the spawn fails. The error2 drain then waits for `th_run_nums` to reach 0, but only the spawned workers can decrement it. It stops at 1, so `z_thpool_start` never returns. | max_thread_nums = 1 and the first `pthread_create` fails (e.g. EAGAIN) | take the failed worker back off `th_run_nums` so that the drain ends once every spawned worker has left | high; not executed | `ZThpool.SpawnFailureExample` | `ZThpool.ThreadPoolManager.SpawnWorkersWithUndo` |

## Left out

- Threads, mutexes and condition variables are left out. Each locked region
  is one atomic method, and the `pthread_cond_wait` loop of
  `z_thpool_msg_read` is not modelled. So the model says nothing about
  interleavings, lost wake-ups, or the global `gs_thpool_mutex` that
  `z_thpool_exit` and `z_thpool_cmd_shell_show` lock in place of the
  manager's own mutex.
- Thread creation (`z_thpool_create_thread`, attributes, stack size, `prctl`)
  is the `spawn` parameter. The worker loop `z_thpool_proc` appears only
  through its exit step, `WorkersLeave`.
- The `usleep` polling of the drain loops in `z_thpool_start` and
  `z_thpool_exit` is collapsed into the workers leaving one after another.
- The callback call `msg.cb(msg.p_arg)` is an event outside the model.
  Records are opaque pointer pairs.
- A null `struct z_kfifo_struct *` is left out: a method's receiver is never
  null. A null source or destination buffer is modelled with `array?`.
- Overlapping `memcpy` arguments (source or destination inside the fifo's own
  storage) are excluded by a precondition, since C leaves them undefined.
- `z_thpool_cmd_shell_show` is modelled as the figures it gathers
  (`ShellShow`). The table printing, `inc/z_debug.h` logging and
  `fprintf(stderr, ...)` messages are output only.
- The handle-based `z_thpool_create`/`destroy` used by `src/test.c` is not
  part of this model; `src/test.c` is an interactive CLI driver.
- `z_thpool_test`'s `sleep` waits and printing, and the argument values
  after processing, are left out.
- `ZTool.AlignUp`, `ZTool.AlignDown`, `ZTool.AlignSys`: computed on unbounded
  naturals. The wrap of `num + (align - num % align)` in the operand's C type
  near its maximum is not modelled.
- `ZTool.Min`, `ZTool.Max`: stated on integers. The C usual arithmetic
  conversions of mixed operand types are not modelled.
