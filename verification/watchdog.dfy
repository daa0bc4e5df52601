/**
  One iteration of the loop of `watchdog_fn` as a pure step function. The
  kernel calls the loop makes (reading the disk counters, submitting the
  probe command, timing it, sleeping, re-opening the device) are replaced by
  their results, which the step takes as an `Observation`.
 */
module Watchdog {
  import opened CInt
  import opened Optional
  import opened Discretiser
  import opened Predictor
  import opened Pool

  /** The probe's return code for an interrupted command, `-EINTR`. */
  const Interrupted: int := -4
  const SectorSize: int := 512
  const NsPerMs: int := 1_000_000

  /** The five counters `part_stat_get2` fills in: outstanding requests,
      then cumulative write requests, write sectors, read requests and read
      sectors. */
  datatype Stats = Stats(inflight: u64, writeIos: u64, writeSectors: u64, readIos: u64, readSectors: u64)

  const ZeroStats: Stats := Stats(0, 0, 0, 0, 0)

  /** The module parameters as the loop sees them. */
  datatype Config = Config(timeoutMs: int, noDeviceList: bool, iopsBound: seq<int>)

  /** `rl_on`, set by `watchdog_mod_init`: adaptive mode is on exactly when
      no fixed timeout is configured. */
  predicate RlOn(cfg: Config) {
    cfg.timeoutMs == 0
  }

  /** The configuration `watchdog_fn` works with, including the IOPS bounds
      derived from `max_kiops`. */
  function MakeConfig(timeoutMs: int, maxKiops: int, deviceListEmpty: bool): (cfg: Config)
    requires -0x8000_0000_0000_0000 <= maxKiops * 1000 < 0x8000_0000_0000_0000
    ensures |cfg.iopsBound| == NumIops - 1
    ensures cfg.timeoutMs == timeoutMs
    ensures RlOn(cfg) <==> timeoutMs == 0
    ensures cfg.noDeviceList == deviceListEmpty
    ensures 0 <= maxKiops * 1000 <= IntMax ==>
      cfg.iopsBound == [maxKiops * 1000 / 256, maxKiops * 1000 / 16]
  {
    Config(timeoutMs, deviceListEmpty, IopsBounds(SpecMaxIops(maxKiops)))
  }

  /** Telemetry of one cycle: write requests since the previous snapshot,
      the current queue depth and the average write size in bytes. */
  datatype Telemetry = Telemetry(iops: u64, inflight: u64, size: u64)

  /** The derivation of `iops`, `inflight` and `size` (`unsigned long`
      arithmetic, so the deltas wrap when a counter is below the snapshot):
      `size` is the wrapped byte delta divided by `iops`, rounded down, which
      is the exact average whenever the byte delta does not wrap. */
  function Sample(prev: Stats, cur: Stats): (tel: Telemetry)
    ensures tel.inflight == cur.inflight
    ensures prev.writeIos <= cur.writeIos ==> tel.iops == cur.writeIos - prev.writeIos
    ensures cur.writeIos < prev.writeIos ==> tel.iops == cur.writeIos - prev.writeIos + TwoTo64
    ensures tel.iops == 0 ==> tel.size == 0
    ensures var bytes := Wrap64(Sub64(cur.writeSectors, prev.writeSectors) * SectorSize);
      tel.iops > 0 ==> tel.size * tel.iops <= bytes < tel.size * tel.iops + tel.iops
    ensures var bytes := (cur.writeSectors - prev.writeSectors) * SectorSize;
      0 <= bytes < TwoTo64 && tel.iops > 0 ==>
        tel.size * tel.iops <= bytes < tel.size * tel.iops + tel.iops
  {
    var iops := Sub64(cur.writeIos, prev.writeIos);
    var size := if iops == 0 then 0 else Wrap64(Sub64(cur.writeSectors, prev.writeSectors) * SectorSize) / iops;
    Telemetry(iops, cur.inflight, size)
  }

  /** What the cycle decides before the probe: the table cell it relies on
      (`loc`), the predicted latency bucket and the timeout in milliseconds. */
  datatype Plan = Plan(loc: Option<Cell>, timeoutIdx: int, timeoutMs: int)

  /** Timeout selection: the predictor's choice in adaptive mode, the
      configured timeout otherwise. */
  function Choose(cfg: Config, t: Table, prev: Stats, cur: Stats): (p: Plan)
    requires WellFormed(t) && |cfg.iopsBound| == NumIops - 1
    ensures !RlOn(cfg) ==> p == Plan(None, 0, cfg.timeoutMs)
    ensures RlOn(cfg) ==> p.loc.Some? && p.loc.value.Valid()
    ensures RlOn(cfg) ==> p.timeoutIdx == p.loc.value.action
    ensures RlOn(cfg) ==> IsBestAction(t, p.loc.value.load, p.timeoutIdx)
    ensures RlOn(cfg) ==> var tel := Sample(prev, cur);
      p.loc.value.load == Discretise(cfg.iopsBound, tel.iops, tel.inflight, tel.size)
    ensures RlOn(cfg) && p.timeoutIdx < NumLat - 1 ==> p.timeoutMs == LatBound[p.timeoutIdx]
    ensures RlOn(cfg) && p.timeoutIdx == NumLat - 1 ==> p.timeoutMs == WorstLat
  {
    if RlOn(cfg) then
      var tel := Sample(prev, cur);
      var loc := InferTimeout(t, cfg.iopsBound, tel.iops, tel.inflight, tel.size);
      Plan(Some(loc), loc.action, TimeoutMs(loc.action))
    else
      Plan(None, 0, cfg.timeoutMs)
  }

  /** The latency bucket of the measured probe: `time_diff / 1000000` in
      `long long`, passed to the `int` parameter of `get_lat_idx`. Whole
      milliseconds beyond `IntMax` wrap to a negative `int`, which lands in
      bucket 0. */
  function ObservedIdx(elapsedNs: s64): (r: nat)
    ensures r < NumLat
    ensures 0 <= elapsedNs < NsPerMs ==> r == 0
    ensures NsPerMs <= elapsedNs < 4 * NsPerMs ==> r == 1
    ensures 4 * NsPerMs <= elapsedNs < 16 * NsPerMs ==> r == 2
    ensures 16 * NsPerMs <= elapsedNs < NsPerMs * (IntMax + 1) ==> r == 3
    ensures NsPerMs * (IntMax + 1) <= elapsedNs < NsPerMs * TwoTo32 ==> r == 0
  {
    LatIdx(Narrow32(TDiv(elapsedNs, NsPerMs)))
  }

  /** How a probed cycle is judged. */
  datatype Verdict =
    | Hit         // observed bucket equals the prediction
    | Undershoot  // the prediction was a shorter bucket than observed
    | Overshoot   // the prediction was a longer bucket than observed
    | Stalled     // interrupted, but the device re-validates (adaptive mode)
    | Lost        // interrupted and the device no longer opens
    | Unjudged    // fixed mode: nothing to judge

  /** The reward classification after the probe. */
  function Judge(rlOn: bool, ret: int, revalidated: bool, predicted: int, observed: int): (v: Verdict)
    ensures ret == Interrupted && !revalidated <==> v == Lost
    ensures v == Stalled <==> ret == Interrupted && revalidated && rlOn
    ensures v in {Hit, Undershoot, Overshoot} <==> ret != Interrupted && rlOn
    ensures v == Hit ==> predicted == observed
    ensures v == Undershoot ==> predicted < observed
    ensures v == Overshoot ==> predicted > observed
  {
    if ret == Interrupted then
      if !revalidated then Lost
      else if rlOn then Stalled
      else Unjudged
    else if !rlOn then Unjudged
    else if predicted == observed then Hit
    else if predicted < observed then Undershoot
    else Overshoot
  }

  /** The reward recorded for the next cycle's update. */
  function RewardOf(v: Verdict): (r: int)
    ensures r in {RewardCorrect, RewardSomeCorrect, RewardNotCorrect, 0}
    ensures r == RewardCorrect <==> v == Hit
    ensures r == RewardSomeCorrect <==> v == Overshoot
    ensures r == RewardNotCorrect <==> v == Undershoot || v == Stalled
  {
    match v
    case Hit => RewardCorrect
    case Overshoot => RewardSomeCorrect
    case Undershoot => RewardNotCorrect
    case Stalled => RewardNotCorrect
    case Lost => 0
    case Unjudged => 0
  }

  /** The loop's state: the value table, the cursor `cur_idx`, which slots
      still hold an open device, the counter snapshot `prev_stats` (one for
      all devices), the feedback context `prev_loc`/`prev_reward` and the
      outcome counters. */
  datatype State = State(
    table: Table,
    cur: int,
    slots: seq<bool>,
    prevStats: Stats,
    prevLoc: Option<Cell>,
    prevReward: int,
    good: int,
    bad: int,
    someBad: int,
    count: int)

  /** The result of one cycle: the next state and the timeout handed to the
      probe command, if one was issued. */
  datatype Cycle = Cycle(next: State, probeTimeoutMs: Option<int>)

  /** Whether slot `i` holds an open device (`devs[i] != NULL`). */
  predicate Live(slots: seq<bool>, i: int) {
    0 <= i < |slots| && slots[i]
  }

  /** What every state of the loop satisfies. */
  ghost predicate Inv(cfg: Config, w: State) {
    && Bounded(w.table)
    && |cfg.iopsBound| == NumIops - 1
    && |w.slots| <= MaxDevices
    && 0 <= w.cur && (|w.slots| > 0 ==> w.cur < |w.slots|)
    && (w.prevLoc.Some? ==> w.prevLoc.value.Valid() && RlOn(cfg))
    && w.prevReward in {RewardCorrect, RewardSomeCorrect, RewardNotCorrect, 0}
    && 0 <= w.good && 0 <= w.bad && 0 <= w.someBad
    && w.good + w.bad + w.someBad <= w.count
    && (!RlOn(cfg) ==> w.prevReward == 0 && w.good == 0 && w.bad == 0 && w.someBad == 0)
  }

  /** The state when the loop starts: `slots` are the validated device names
      in order, `true` where the device could be opened. */
  function Init(cfg: Config, slots: seq<bool>): (w: State)
    requires |slots| <= MaxDevices && |cfg.iopsBound| == NumIops - 1
    ensures Inv(cfg, w)
    ensures forall c :: c in w.table ==> w.table[c] == 0
    ensures w.slots == slots && w.cur == 0 && w.prevLoc == None && w.count == 0
    ensures w.prevStats == ZeroStats && w.prevReward == 0
    ensures w.good == 0 && w.bad == 0 && w.someBad == 0
  {
    ZeroTableBounded();
    State(ZeroTable(), 0, slots, ZeroStats, None, 0, 0, 0, 0, 0)
  }

  /** What the kernel hands one cycle: the counters read for the selected
      device, the probe's return code, the probe's duration in nanoseconds
      and, for an interrupted probe, whether the device path still opens. */
  datatype Observation = Observation(stats: Stats, ret: int, elapsedNs: s64, revalidated: bool)

  /** Whether the cycle from `w` finds a device to probe. */
  predicate Probes(cfg: Config, w: State)
    requires 0 <= w.cur
  {
    !cfg.noDeviceList && Live(w.slots, NextDev(w.cur, |w.slots|))
  }

  /** One iteration of the loop: a probe is issued exactly when a device
      list was given and the next slot holds an open device; only such a
      cycle counts, and no slot is ever reopened. */
  function Step(cfg: Config, w: State, obs: Observation): (c: Cycle)
    requires Inv(cfg, w)
    ensures c.probeTimeoutMs.Some? <==> Probes(cfg, w)
    ensures c.next.count == w.count + (if c.probeTimeoutMs.Some? then 1 else 0)
    ensures |c.next.slots| == |w.slots|
    ensures forall i :: Live(c.next.slots, i) ==> Live(w.slots, i)
  {
    if cfg.noDeviceList then Cycle(w, None)
    else
      var idx := NextDev(w.cur, |w.slots|);
      if !Live(w.slots, idx) then Cycle(w.(cur := idx), None)
      else
        var plan := Choose(cfg, w.table, w.prevStats, obs.stats);
        var observed := if RlOn(cfg) then ObservedIdx(obs.elapsedNs) else 0;
        var verdict := Judge(RlOn(cfg), obs.ret, obs.revalidated, plan.timeoutIdx, observed);
        var table :=
          if RlOn(cfg) then Feedback(w.table, w.prevLoc, w.table[plan.loc.value], w.prevReward)
          else w.table;
        var next := State(
          table,
          idx,
          if verdict == Lost then w.slots[idx := false] else w.slots,
          obs.stats,
          plan.loc,
          RewardOf(verdict),
          w.good + (if verdict == Hit then 1 else 0),
          w.bad + (if verdict == Undershoot || verdict == Stalled then 1 else 0),
          w.someBad + (if verdict == Overshoot then 1 else 0),
          w.count + 1);
        Cycle(next, Some(plan.timeoutMs))
  }

  /** With no device list the loop only sleeps. */
  lemma StepWithoutDeviceList(cfg: Config, w: State, obs: Observation)
    requires Inv(cfg, w) && cfg.noDeviceList
    ensures Step(cfg, w, obs) == Cycle(w, None)
  {
  }

  /** A cycle whose slot has no open device issues no probe and changes
      nothing but the cursor. */
  lemma StepOnEmptySlot(cfg: Config, w: State, obs: Observation)
    requires Inv(cfg, w) && !cfg.noDeviceList && !Probes(cfg, w)
    ensures Step(cfg, w, obs) == Cycle(w.(cur := NextDev(w.cur, |w.slots|)), None)
  {
  }

  /** A probed cycle counts once, replaces the snapshot and the feedback
      context with this cycle's, and closes the slot exactly when the probe
      was interrupted and the device no longer opens. */
  lemma StepOnLiveSlot(cfg: Config, w: State, obs: Observation)
    requires Inv(cfg, w) && Probes(cfg, w)
    ensures var c, idx := Step(cfg, w, obs), NextDev(w.cur, |w.slots|);
      && c.probeTimeoutMs.Some?
      && c.next.cur == idx
      && c.next.count == w.count + 1
      && c.next.prevStats == obs.stats
      && c.next.prevLoc == Choose(cfg, w.table, w.prevStats, obs.stats).loc
      && |c.next.slots| == |w.slots|
      && (forall i :: 0 <= i < |w.slots| && i != idx ==> c.next.slots[i] == w.slots[i])
      && (c.next.slots[idx] <==> !(obs.ret == Interrupted && !obs.revalidated))
  {
  }

  /** In fixed mode every probe uses the configured timeout, the table is
      untouched and no outcome is scored. */
  lemma StepFixedMode(cfg: Config, w: State, obs: Observation)
    requires Inv(cfg, w) && !RlOn(cfg)
    ensures var c := Step(cfg, w, obs);
      && (Probes(cfg, w) ==> c.probeTimeoutMs == Some(cfg.timeoutMs))
      && c.next.table == w.table
      && c.next.prevLoc == None && c.next.prevReward == 0
      && c.next.good == w.good && c.next.bad == w.bad && c.next.someBad == w.someBad
  {
  }

  /** In fixed mode the table is not even read: a cycle from the same state
      with any other table does exactly the same. */
  lemma FixedModeIgnoresTable(cfg: Config, w: State, obs: Observation, t: Table)
    requires Inv(cfg, w) && Inv(cfg, w.(table := t)) && !RlOn(cfg)
    ensures var c := Step(cfg, w, obs);
      Step(cfg, w.(table := t), obs) == c.(next := c.next.(table := t))
  {
  }

  /** The reward classification of a probed adaptive cycle and the counter
      it increments. */
  lemma StepRewards(cfg: Config, w: State, obs: Observation)
    requires Inv(cfg, w) && Probes(cfg, w) && RlOn(cfg)
    ensures var c := Step(cfg, w, obs);
      var predicted, observed := c.next.prevLoc.value.action, ObservedIdx(obs.elapsedNs);
      var same := c.next.good == w.good && c.next.bad == w.bad && c.next.someBad == w.someBad;
      && c.next.prevLoc.Some?
      && (obs.ret != Interrupted && predicted == observed ==>
            c.next.prevReward == RewardCorrect && c.next.good == w.good + 1
            && c.next.bad == w.bad && c.next.someBad == w.someBad)
      && (obs.ret != Interrupted && predicted < observed ==>
            c.next.prevReward == RewardNotCorrect && c.next.bad == w.bad + 1
            && c.next.good == w.good && c.next.someBad == w.someBad)
      && (obs.ret != Interrupted && predicted > observed ==>
            c.next.prevReward == RewardSomeCorrect && c.next.someBad == w.someBad + 1
            && c.next.good == w.good && c.next.bad == w.bad)
      && (obs.ret == Interrupted && obs.revalidated ==>
            c.next.prevReward == RewardNotCorrect && c.next.bad == w.bad + 1
            && c.next.good == w.good && c.next.someBad == w.someBad)
      && (obs.ret == Interrupted && !obs.revalidated ==> c.next.prevReward == 0 && same)
  {
  }

  /** The delayed update of an adaptive cycle: this cycle's cell is the best
      of its row and sets the timeout; the previous cycle's cell, and no
      other, is updated with the previous reward, bootstrapped by the value
      of this cycle's cell. */
  lemma StepDelayedUpdate(cfg: Config, w: State, obs: Observation)
    requires Inv(cfg, w) && Probes(cfg, w) && RlOn(cfg)
    ensures var c := Step(cfg, w, obs);
      && c.next.prevLoc.Some?
      && var loc := c.next.prevLoc.value;
      && loc.Valid()
      && IsBestAction(w.table, loc.load, loc.action)
      && c.probeTimeoutMs == Some(TimeoutMs(loc.action))
      && (w.prevLoc.None? ==> c.next.table == w.table)
      && (forall d :: d in w.table && Some(d) != w.prevLoc ==> c.next.table[d] == w.table[d])
      && (w.prevLoc.Some? ==>
            c.next.table[w.prevLoc.value]
            == Update(w.table[w.prevLoc.value], w.table[loc], w.prevReward))
  {
  }

  /** A correct prediction on a cell whose descaled value is below the
      reward raises that cell on the next probed cycle, provided the cell
      chosen in that cycle, whose value bootstraps the update, is not
      negative. */
  lemma HitRaisesCellNextCycle(cfg: Config, w: State, obs: Observation)
    requires Inv(cfg, w) && Probes(cfg, w) && RlOn(cfg)
    requires w.prevLoc.Some? && w.prevReward == RewardCorrect
    requires Descale(w.table[w.prevLoc.value]) < RewardCorrect
    requires w.table[Choose(cfg, w.table, w.prevStats, obs.stats).loc.value] >= 0
    ensures Step(cfg, w, obs).next.table[w.prevLoc.value] > w.table[w.prevLoc.value]
  {
    var curQ := w.table[Choose(cfg, w.table, w.prevStats, obs.stats).loc.value];
    UpdateSign(w.table[w.prevLoc.value], curQ, RewardCorrect);
  }

  /** Every cycle keeps the invariant. */
  lemma StepPreservesInv(cfg: Config, w: State, obs: Observation)
    requires Inv(cfg, w)
    ensures Inv(cfg, Step(cfg, w, obs).next)
  {
    if Probes(cfg, w) && RlOn(cfg) {
      var loc := Choose(cfg, w.table, w.prevStats, obs.stats).loc.value;
      FeedbackPreservesBounded(w.table, w.prevLoc, w.table[loc], w.prevReward);
    }
  }

  /** The loop run over a sequence of cycles. */
  function Run(cfg: Config, w: State, obs: seq<Observation>): (r: State)
    requires Inv(cfg, w)
    ensures Inv(cfg, r)
    ensures |r.slots| == |w.slots|
    decreases |obs|
  {
    if |obs| == 0 then w
    else
      StepPreservesInv(cfg, w, obs[0]);
      Run(cfg, Step(cfg, w, obs[0]).next, obs[1..])
  }

  /** A slot whose device was closed is never probed again. */
  lemma {:induction false} RunKeepsClosedSlotsClosed(cfg: Config, w: State, obs: seq<Observation>, i: int)
    requires Inv(cfg, w) && !Live(w.slots, i)
    ensures !Live(Run(cfg, w, obs).slots, i)
    ensures |Run(cfg, w, obs).slots| == |w.slots|
    decreases |obs|
  {
    if |obs| > 0 {
      StepPreservesInv(cfg, w, obs[0]);
      RunKeepsClosedSlotsClosed(cfg, Step(cfg, w, obs[0]).next, obs[1..], i);
    }
  }

  /** From the start state, whatever the kernel reports: every table cell
      stays a multiple of 300000 within 10^8 in magnitude, so no `int`
      expression of the corrected update overflows; the cursor stays on a slot; and
      `good + bad + some_bad <= count`. */
  lemma {:induction false} ReachableStates(cfg: Config, slots: seq<bool>, obs: seq<Observation>)
    requires |slots| <= MaxDevices && |cfg.iopsBound| == NumIops - 1
    ensures var r := Run(cfg, Init(cfg, slots), obs);
      && (forall c :: c in r.table ==> -CellBound <= r.table[c] <= CellBound && r.table[c] % Quantum == 0)
      && (|slots| > 0 ==> 0 <= r.cur < |slots|)
      && r.good + r.bad + r.someBad <= r.count
      && (forall c :: c in r.table ==> InInt(r.table[c]))
  {
  }
}
