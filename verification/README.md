# NVMe watchdog: adaptive timeout predictor

A Dafny model of the kernel thread in `drivers/nvme/host/watchdog.c`. The
thread probes NVMe devices round-robin with an invalid admin command and
picks each probe's timeout with a small table-driven predictor. The model
covers four parts:

- the discretiser: `get_idx`, its four wrappers, and the IOPS bounds built
  from `max_kiops`;
- the predictor: the `q_table` value table, `infer_timeout` (an argmax that
  prefers the longest timeout on ties) and `feedback` (a fixed-point
  temporal-difference update of one cell);
- the round-robin cursor `get_next_nvme_dev`;
- one iteration of the loop in `watchdog_fn`, as a pure step function.

The model uses exact integers. Where the C code depends on fixed widths, the
model writes that out:
- `unsigned long` deltas wrap (`CInt.Sub64`, `CInt.Wrap64`);
- `unsigned long` and `long` values narrowed to `int` keep their low 32 bits
  (`CInt.Narrow32`, the behaviour gcc documents);
- `/` truncates toward zero (`CInt.TDiv`);
- `>>= 4` on a signed `int` rounds toward minus infinity (`Discretiser.Sar4`).

The `feedback` arithmetic is not given `requires` bounds. Instead the model
proves a reachable-state invariant (`Predictor.Bounded`): from the all-zero
table, every cell stays a multiple of 300000 and at most 10^8 in magnitude.
Within that invariant no `int` expression of the update with the corrected
guard overflows (`Predictor.FeedbackWithinInt`). The guard as written still
overflows there on every cell whose descaled value is negative (see
Findings).

Kernel services become inputs of the step (`Watchdog.Observation`): the
counters from `part_stat_get2`, the return code of `nvme_submit_user_cmd`,
the nanoseconds measured with `ktime_get`, and the result of re-opening the
device path after `msleep(4000)`. The slots produced by `parse_device_list`
and `validate_device_list` are given to `Watchdog.Init` as a sequence of
alive flags.

Files:
- `cint.dfy`: C integer semantics.
- `optional.dfy`: `Option`, used for NULL.
- `discretiser.dfy`: `get_idx` and the bounds.
- `predictor.dfy`: the table, `infer_timeout`, `feedback` and the invariant.
- `pool.dfy`: the cursor.
- `watchdog.dfy`: the loop step.

Points where the code's behaviour is easy to misread:
- Request sizes are compared against `{8, 32, 128}` in **bytes**
  (`size = Δsectors * 512 / iops`), so typical 4 KiB writes fall in the last
  size bucket.
- The cursor runs modulo `num_devices`, and `num_devices` never shrinks. A
  slot whose device could not be opened at start-up, or was closed after a
  failure, stays in the rotation. Selecting it makes an idle cycle that only
  advances the cursor.
- `prev_stats` is one snapshot shared by all devices. Each cycle's deltas are
  taken against the counters of the device probed in the previous cycle, and
  they wrap when those counters are larger.
- IOPS is the per-cycle delta of write requests, and the bounds are
  `[R/256, R/16]` with `R = max_kiops * 1000`.
- The overflow guard of `feedback` is always true in exact integers, and its
  own subtraction overflows (see Findings). The step uses the corrected guard.
  The correction agrees with the exact-integer reading of the code on every
  reachable cell; the C text itself is undefined behaviour on the cells
  where the guard's subtraction overflows.

## Model

| member | source | states |
|---|---|---|
| CInt.TDiv | drivers/nvme/host/watchdog.c:158-159 | C division by a positive constant: the remainder lies strictly within one divisor of zero and has the sign of the dividend |
| CInt.TDivTDiv | drivers/nvme/host/watchdog.c:158-159 | the chained truncations `x / b / c` equal one truncation by `b * c`, for either sign of `x` |
| CInt.Sub64 | drivers/nvme/host/watchdog.c:223 | `unsigned long` subtraction is the exact difference when no borrow occurs, and the difference plus 2^64 otherwise |
| CInt.Wrap64 | drivers/nvme/host/watchdog.c:228 | an `unsigned long` result is congruent to the exact one modulo 2^64 and equals it when it fits |
| CInt.Narrow32 | drivers/nvme/host/watchdog.c:139-141 | narrowing to `int` lands in the 32-bit range, is congruent modulo 2^32, and is the identity on values that fit |
| Discretiser.ScanFrom | drivers/nvme/host/watchdog.c:113-118 | the resumed scan stops at the first bound above `val`, or at `num - 1`, and every bound it passed is at most `val` |
| Discretiser.GetIdx | drivers/nvme/host/watchdog.c:112-120 | the result is in `[0, num-1]`; it is the smallest index below `num - 1` whose bound exceeds `val`, and `num - 1` when there is none |
| Discretiser.GetIdxMonotone | drivers/nvme/host/watchdog.c:112-120 | the bucket is non-decreasing in the value, for any bounds |
| Discretiser.GetIdxInterval | drivers/nvme/host/watchdog.c:112-120 | with ascending bounds, bucket `k` holds exactly the values in `[bound[k-1], bound[k])`, and the outer buckets are open-ended (both directions) |
| Discretiser.InflightIdx | drivers/nvme/host/watchdog.c:122-124 | two buckets: 0 exactly below 13 outstanding requests |
| Discretiser.SizeIdx | drivers/nvme/host/watchdog.c:126-128 | four buckets split at 8, 32 and 128, with each bucket's exact interval |
| Discretiser.IopsIdx | drivers/nvme/host/watchdog.c:129-131 | three buckets; with ascending bounds, the exact interval of each |
| Discretiser.LatIdx | drivers/nvme/host/watchdog.c:133-135 | four latency buckets split at 1, 4 and 16 ms, with each bucket's exact interval |
| Discretiser.Sar4 | drivers/nvme/host/watchdog.c:185 | the arithmetic shift by four is floor division by 16 |
| Discretiser.SpecMaxIops | drivers/nvme/host/watchdog.c:176 | the `long` product stored in an `int` is in range and equals `max_kiops * 1000` when that fits |
| Discretiser.IopsBounds | drivers/nvme/host/watchdog.c:176-186 | two bounds; for `R >= 0` they are `R/256` and `R/16`, non-negative and ascending |
| Predictor.AllCells | drivers/nvme/host/watchdog.c:110 | the cells of the 3 x 4 x 2 x 4 array are exactly the valid coordinates |
| Predictor.ZeroTable | drivers/nvme/host/watchdog.c:110 | the initial table has every valid cell, each holding 0 |
| Predictor.Discretise | drivers/nvme/host/watchdog.c:139-141 | the three narrowed bucket indices are always a valid load state |
| Predictor.ScanDown | drivers/nvme/host/watchdog.c:145-150 | the downward scan, which replaces the candidate only on a strictly larger value, ends on a maximum that is strictly above every later index |
| Predictor.ArgMax | drivers/nvme/host/watchdog.c:142-151 | the result is a maximum of the row, and the largest index among the ties |
| Predictor.InferTimeout | drivers/nvme/host/watchdog.c:137-152 | the returned cell (`*max_loc`) lies in the discretised state, and its action is the returned index, a best action with ties going to the largest index |
| Predictor.BestActionUnique | drivers/nvme/host/watchdog.c:142-151 | the tie-broken best action is unique, so the argmax is the only possible answer |
| Predictor.UniformRowPredictsWorst | drivers/nvme/host/watchdog.c:142-151 | a row with all values equal, like every row of the zero table, yields action 3 (the 1000 ms timeout) |
| Predictor.TimeoutMs | drivers/nvme/host/watchdog.c:232-236 | actions 0-2 get the smallest latency of the next bucket (`ms - 1` is still in the action's bucket, `ms` is in the next), which is `lat_bound[action]`, above every latency in the action's bucket or a lower one; action 3 gets 1000 ms |
| Predictor.Descale | drivers/nvme/host/watchdog.c:158 | `val` is the cell truncated to units of 10^6 |
| Predictor.Bootstrap | drivers/nvme/host/watchdog.c:159 | the bootstrap term is `8 * cur_q` truncated to units of 10^7 |
| Predictor.Increment | drivers/nvme/host/watchdog.c:159 | `diff` is a multiple of 300000, positive exactly when the target exceeds `val`, and zero exactly when they are equal |
| Predictor.GuardAsWrittenAlwaysHolds | drivers/nvme/host/watchdog.c:160 | the guard as written holds for every `val` and `diff` in exact integers, so the skip branch is dead |
| Predictor.UpdateAsWritten | drivers/nvme/host/watchdog.c:158-161 | as written, the cell always gets `diff` added |
| Predictor.GuardAsWrittenOverflows | drivers/nvme/host/watchdog.c:160 | after one misprediction on a fresh cell, the cell is -3000000 and `INT_MAX - val` for it is outside the `int` range |
| Predictor.FitsAfterAddMeaning | drivers/nvme/host/watchdog.c:160 | the corrected guard computes only in-range differences and holds exactly when `cell + diff` fits in `int` |
| Predictor.Update | drivers/nvme/host/watchdog.c:158-161 | the corrected update adds `diff` exactly when the sum fits and keeps an in-range cell in range; the change is a multiple of 300000 and never moves away from the target |
| Predictor.Feedback | drivers/nvme/host/watchdog.c:156-165 | no effect with a NULL `prev_loc`; otherwise only the referenced cell changes, and it gets the update |
| Predictor.ZeroTableBounded | drivers/nvme/host/watchdog.c:110 | the initial table satisfies the reachable-table invariant |
| Predictor.UpdateTermsBounded | drivers/nvme/host/watchdog.c:158-159 | within the invariant, `val` is in `[-100, 100]` and the bootstrap term is in `[-80, 80]` |
| Predictor.UpdateStaysBounded | drivers/nvme/host/watchdog.c:158-161 | cells within 10^8 stay within 10^8 after an update with a reward in `[-10, 10]` |
| Predictor.UpdateStaysOnGrid | drivers/nvme/host/watchdog.c:158-161 | the update changes a cell by a multiple of 300000 (`ALPHA * CALIBRATION`), so a cell that is a multiple of 300000 stays one |
| Predictor.FeedbackPreservesBounded | drivers/nvme/host/watchdog.c:156-165 | `feedback` keeps the invariant: all cells are multiples of 300000 and within 10^8 |
| Predictor.FeedbackWithinInt | drivers/nvme/host/watchdog.c:158-161 | within the invariant, `8 * cur_q`, every intermediate of `diff`, and the new cell fit in `int`, and the corrected guard lets the update through |
| Predictor.UpdateAsWrittenAgrees | drivers/nvme/host/watchdog.c:158-161 | within the invariant, the corrected update equals the update as written |
| Predictor.UpdateSign | drivers/nvme/host/watchdog.c:158-161 | within the invariant, the cell strictly rises iff the target exceeds `val`, is unchanged iff they are equal, and falls iff the target is below |
| Predictor.UpdateApproachesTarget | drivers/nvme/host/watchdog.c:158-161 | the descaled cell moves toward the target without passing it |
| Predictor.UpdatesToTarget | drivers/nvme/host/watchdog.c:156-165 | repeated updates with a fixed reward and bootstrap value reach the target in finitely many steps |
| Pool.NextDev | drivers/nvme/host/watchdog.c:88-93 | with no devices the cursor is unchanged; otherwise it moves to the next slot cyclically |
| Pool.VisitsInOrder | drivers/nvme/host/watchdog.c:88-93 | the j-th of the first n calls returns `cur + 1 + j` reduced modulo n |
| Pool.RoundRobinVisitsEachOnce | drivers/nvme/host/watchdog.c:88-93 | n consecutive calls return every slot exactly once and end on the starting slot |
| Watchdog.MakeConfig | drivers/nvme/host/watchdog.c:320-322 | the configured `timeout_ms` is kept as is, and `rl_on` holds iff it is 0; the IOPS bounds are `[R/256, R/16]` for an in-range `R >= 0` |
| Watchdog.Sample | drivers/nvme/host/watchdog.c:223-229 | `iops` is the wrapped delta of write requests; `inflight` is the current queue depth; `size` is 0 without writes and otherwise the wrapped byte delta divided by `iops`, rounded down, which is the average write size in bytes when the byte delta does not wrap |
| Watchdog.Choose | drivers/nvme/host/watchdog.c:222-242 | fixed mode uses `timeout_ms` and no cell; adaptive mode picks the best cell of the sampled state, and its timeout is `lat_bound[idx]` for idx < 3 and 1000 ms for idx 3 |
| Watchdog.ObservedIdx | drivers/nvme/host/watchdog.c:246-248 | the measured duration falls in the latency bucket of its whole milliseconds while those fit in `int`; from 2^31 ms to 2^32 ms the narrowed value is negative and lands in bucket 0 |
| Watchdog.Judge | drivers/nvme/host/watchdog.c:257-284 | an interrupted probe with a failed re-open loses the device; a re-validated one is a misprediction in adaptive mode; a completed probe compares the predicted and observed buckets |
| Watchdog.RewardOf | drivers/nvme/host/watchdog.c:257-284 | 10 for a hit, -5 for an overshoot, -10 for an undershoot or a stall, otherwise 0 |
| Watchdog.Init | drivers/nvme/host/watchdog.c:172-177 | the loop starts from the zero table, cursor 0, the all-zero `prev_stats` snapshot, no feedback context, a zero previous reward and zero counters, and satisfies the invariant |
| Watchdog.Step | drivers/nvme/host/watchdog.c:200-297 | a probe is issued exactly when a device list exists and the next slot is open; only then does `count` grow, by one; no slot is ever reopened |
| Watchdog.StepWithoutDeviceList | drivers/nvme/host/watchdog.c:200-203 | without a device list a cycle changes nothing |
| Watchdog.StepOnEmptySlot | drivers/nvme/host/watchdog.c:204-207 | a NULL slot changes only the cursor and issues no probe |
| Watchdog.StepOnLiveSlot | drivers/nvme/host/watchdog.c:257-295 | a probed cycle increments `count` by one and replaces the snapshot and `prev_loc`; only the probed slot can close, and it closes exactly on an interrupted probe whose re-open fails |
| Watchdog.StepFixedMode | drivers/nvme/host/watchdog.c:240-242 | in fixed mode every probe uses `timeout_ms`, the table is not written, no context is kept and no outcome counter moves |
| Watchdog.FixedModeIgnoresTable | drivers/nvme/host/watchdog.c:222-242 | in fixed mode the cycle does not depend on the table's contents |
| Watchdog.StepRewards | drivers/nvme/host/watchdog.c:257-284 | each outcome's reward and the one counter it increments, including the interrupted cases |
| Watchdog.StepDelayedUpdate | drivers/nvme/host/watchdog.c:285-295 | the previous cell, and only it, is updated with the previous reward, bootstrapped by this cycle's best value; this cycle's cell sets the timeout |
| Watchdog.HitRaisesCellNextCycle | drivers/nvme/host/watchdog.c:273-287 | after a hit on a cell whose descaled value is below 10, the next probed cycle strictly raises that cell when the cell chosen in that cycle, whose value is the bootstrap `cur_q`, is non-negative |
| Watchdog.StepPreservesInv | drivers/nvme/host/watchdog.c:204-297 | every cycle keeps the invariant: bounded table, cursor on a slot, valid context, `good + bad + some_bad <= count` |
| Watchdog.Run | drivers/nvme/host/watchdog.c:200-304 | any number of cycles keeps the invariant and the number of slots |
| Watchdog.RunKeepsClosedSlotsClosed | drivers/nvme/host/watchdog.c:265-267 | once a slot is NULL, no later cycle probes it |
| Watchdog.ReachableStates | drivers/nvme/host/watchdog.c:200-304 | from start-up, every cell stays a multiple of 300000 within 10^8 and fits in `int`; the cursor stays on a slot; `good + bad + some_bad <= count` |

## Left out

- Module parameters and boilerplate, and starting and stopping the thread
  (`module_param`, `kthread_run`, `kthread_stop`, `kthread_should_stop`).
  This is kernel plumbing. `timeout_ms`, `max_kiops` and an empty
  `device_list` enter through `Watchdog.MakeConfig`. The stop signal is the
  end of the observation sequence given to `Watchdog.Run`.
- `parse_device_list` and `validate_device_list` are C string handling and
  file-open checks. Their result is the slot sequence given to
  `Watchdog.Init`. An unopenable name still occupies a slot, and the model
  keeps that slot.
- `remove_cur_dev` is never called.
- The kernel calls `filp_open`, `filp_close`, `nvme_find_get_ns`,
  `disk_to_dev`, `part_stat_get2`, `nvme_submit_user_cmd`, `ktime_get`,
  `msleep` and `msecs_to_jiffies`. Their results are fields of
  `Watchdog.Observation`, and timeouts are in milliseconds. The closing of
  handles when the loop ends is not modelled.
- `printk` logging is not modelled. Neither are the `#if 0` block, the
  commented-out statistics, and the `first` flag, which only they read.
- Signed overflow in `max_kiops * 1000`, which is computed in `long`:
  `Discretiser.SpecMaxIops` requires that the product fits in `long`.
- `Predictor.Update`: states the corrected guard, not the guard as written
  (see Findings). `Predictor.UpdateAsWrittenAgrees` proves that the two agree
  on every cell reachable from the zero table.
- Overflow of the `long` counters `good`, `bad`, `some_bad` and `count` is not
  modelled. They grow by one per cycle.

## Findings

| source | as written | input that shows it | evidently intended | confidence | as-written member | corrected member |
|---|---|---|---|---|---|---|
| drivers/nvme/host/watchdog.c:160 | the guard tests `INT_MAX - val > diff` or `INT_MIN - val < diff`; in exact integers this holds for all `val` and `diff`, and `INT_MAX - val` is a signed overflow whenever `val < 0` | one misprediction (reward -10) on a fresh cell makes it -3000000; the next `feedback` on that cell has `val = -3` and evaluates `INT_MAX + 3` | apply `diff` only when `*prev_loc + diff` fits in `int`, decided without overflowing | not executed; the arithmetic is proved | Predictor.GuardAsWrittenOverflows | Predictor.Update |
