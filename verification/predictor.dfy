/**
  The adaptive timeout predictor: a value table over discretised load states
  and latency actions, `infer_timeout` (an argmax that prefers the longest
  timeout on ties) and `feedback` (a fixed-point temporal-difference update
  of one cell).
 */
module Predictor {
  import opened CInt
  import opened Optional
  import opened Discretiser

  const Alpha: int := 3
  const Gamma: int := 8
  const Calibration: int := 100000
  const RewardCorrect: int := 10
  const RewardSomeCorrect: int := -5
  const RewardNotCorrect: int := -10
  /** Worst-case timeout in milliseconds. */
  const WorstLat: int := 1000

  /** Every increment is a multiple of this. */
  const Quantum: int := 300000
  /** Magnitude no cell ever exceeds when the table starts from zero. */
  const CellBound: int := 100_000_000

  /** Bucket coordinates of one cycle's telemetry. */
  datatype LoadState = LoadState(iops: int, size: int, inflight: int) {
    predicate Valid() {
      0 <= iops < NumIops && 0 <= size < NumSize && 0 <= inflight < NumInflight
    }
  }

  /** A position in `q_table[iops][size][inflight][action]`; this is what the
      source's `int*` into the table points at. */
  datatype Cell = Cell(load: LoadState, action: int) {
    predicate Valid() {
      load.Valid() && 0 <= action < NumLat
    }
  }

  type Table = map<Cell, int>

  /** The table has exactly the cells of the 3 x 4 x 2 x 4 array. */
  ghost predicate WellFormed(t: Table) {
    forall c: Cell :: c in t <==> c.Valid()
  }

  function AllCells(): (cells: set<Cell>)
    ensures forall c: Cell :: c in cells <==> c.Valid()
  {
    var cells := set i, s, f, a | 0 <= i < NumIops && 0 <= s < NumSize
                    && 0 <= f < NumInflight && 0 <= a < NumLat
                    :: Cell(LoadState(i, s, f), a);
    assert forall c: Cell | c.Valid() :: c == Cell(LoadState(c.load.iops, c.load.size, c.load.inflight), c.action);
    cells
  }

  /** `q_table` as initialised: all zero. */
  function ZeroTable(): (t: Table)
    ensures WellFormed(t)
    ensures forall c :: c in t ==> t[c] == 0
  {
    map c | c in AllCells() :: 0
  }

  /** The three `get_*_idx` calls of `infer_timeout`; each `unsigned long`
      argument is narrowed to the `int` parameter of the wrapper. */
  function Discretise(iopsBound: seq<int>, iops: u64, inflight: u64, size: u64): (s: LoadState)
    requires |iopsBound| == NumIops - 1
    ensures s.Valid()
    ensures InInt(inflight) ==> (s.inflight == 0 <==> inflight < 13)
    ensures InInt(size) ==> (s.size == 0 <==> size < 8) && (s.size == 3 <==> 128 <= size)
  {
    LoadState(IopsIdx(iopsBound, Narrow32(iops)), SizeIdx(Narrow32(size)), InflightIdx(Narrow32(inflight)))
  }

  /** The four action cells of one load state, by action index. */
  function Row(t: Table, s: LoadState): (row: seq<int>)
    requires WellFormed(t) && s.Valid()
    ensures |row| == NumLat
    ensures forall a :: 0 <= a < NumLat ==> row[a] == t[Cell(s, a)]
  {
    [t[Cell(s, 0)], t[Cell(s, 1)], t[Cell(s, 2)], t[Cell(s, 3)]]
  }

  /** The loop of `infer_timeout` from index `i` downwards, with `best` the
      candidate so far: it is replaced only by a strictly larger value. */
  function ScanDown(row: seq<int>, i: int, best: nat): (r: nat)
    requires -1 <= i < best < |row|
    requires forall j :: i < j < |row| ==> row[j] <= row[best]
    requires forall j :: best < j < |row| ==> row[j] < row[best]
    ensures r <= best
    ensures forall j :: 0 <= j < |row| ==> row[j] <= row[r]
    ensures forall j :: r < j < |row| ==> row[j] < row[r]
    decreases i + 1
  {
    if i < 0 then best
    else if row[best] < row[i] then ScanDown(row, i - 1, i)
    else ScanDown(row, i - 1, best)
  }

  /** The index of a maximum of `row`, the largest one among ties. */
  function ArgMax(row: seq<int>): (r: nat)
    requires |row| >= 1
    ensures r < |row|
    ensures forall j :: 0 <= j < |row| ==> row[j] <= row[r]
    ensures forall j :: r < j < |row| ==> row[j] < row[r]
  {
    ScanDown(row, |row| - 2, |row| - 1)
  }

  /** An action whose cell is a maximum of its row and strictly above every
      cell with a larger action index. */
  ghost predicate IsBestAction(t: Table, s: LoadState, a: int)
    requires WellFormed(t) && s.Valid()
  {
    && 0 <= a < NumLat
    && (forall b :: 0 <= b < NumLat ==> t[Cell(s, b)] <= t[Cell(s, a)])
    && (forall b :: a < b < NumLat ==> t[Cell(s, b)] < t[Cell(s, a)])
  }

  /** `infer_timeout`: the returned cell is `*max_loc`, its action is the
      returned index. */
  function InferTimeout(t: Table, iopsBound: seq<int>, iops: u64, inflight: u64, size: u64): (loc: Cell)
    requires WellFormed(t) && |iopsBound| == NumIops - 1
    ensures loc.Valid()
    ensures loc.load == Discretise(iopsBound, iops, inflight, size)
    ensures IsBestAction(t, loc.load, loc.action)
  {
    var s := Discretise(iopsBound, iops, inflight, size);
    Cell(s, ArgMax(Row(t, s)))
  }

  /** At most one action is best, so the argmax is the only answer. */
  lemma BestActionUnique(t: Table, s: LoadState, a: int, b: int)
    requires WellFormed(t) && s.Valid()
    requires IsBestAction(t, s, a) && IsBestAction(t, s, b)
    ensures a == b
  {
    var va, vb := t[Cell(s, a)], t[Cell(s, b)];
    assert va <= vb && vb <= va;
    assert a < b ==> vb < va;
    assert b < a ==> va < vb;
  }

  /** A row with no preference, such as every row of the initial table,
      selects the longest timeout. */
  lemma UniformRowPredictsWorst(t: Table, iopsBound: seq<int>, iops: u64, inflight: u64, size: u64)
    requires WellFormed(t) && |iopsBound| == NumIops - 1
    requires forall a :: 0 <= a < NumLat ==>
      t[Cell(Discretise(iopsBound, iops, inflight, size), a)] == t[Cell(Discretise(iopsBound, iops, inflight, size), 0)]
    ensures InferTimeout(t, iopsBound, iops, inflight, size).action == NumLat - 1
  {
  }

  /** The timeout applied for an action, in milliseconds: the upper latency
      bound of its bucket, or the worst-case ceiling for the last bucket. */
  function TimeoutMs(action: int): (ms: int)
    requires 0 <= action < NumLat
    ensures action < NumLat - 1 ==> forall lat :: LatIdx(lat) <= action ==> lat < ms
    ensures action < NumLat - 1 ==> LatIdx(ms) == action + 1
    ensures action < NumLat - 1 ==> LatIdx(ms - 1) == action
    ensures action == NumLat - 1 ==> ms == WorstLat
  {
    if action < NumLat - 1 then LatBound[action] else WorstLat
  }

  /** `val = *prev_loc / CALIBRATION / 10`: the cell in units of 10^6. */
  function Descale(cell: int): (v: int)
    ensures v == TDiv(cell, 1_000_000)
  {
    TDivTDiv(cell, Calibration, 10);
    TDiv(TDiv(cell, Calibration), 10)
  }

  /** `GAMMA * cur_q / CALIBRATION / 100`: the discounted bootstrap value. */
  function Bootstrap(curQ: int): (g: int)
    ensures g == TDiv(Gamma * curQ, 10_000_000)
  {
    TDivTDiv(Gamma * curQ, Calibration, 100);
    TDiv(TDiv(Gamma * curQ, Calibration), 100)
  }

  /** `diff`: the increment of the update, of the sign of the gap between the
      target `reward + Bootstrap(curQ)` and the descaled cell. */
  function Increment(cell: int, curQ: int, reward: int): (diff: int)
    ensures diff % Quantum == 0
    ensures diff > 0 <==> reward + Bootstrap(curQ) > Descale(cell)
    ensures diff == 0 <==> reward + Bootstrap(curQ) == Descale(cell)
  {
    Alpha * (reward + Bootstrap(curQ) - Descale(cell)) * Calibration
  }

  /** The guard of `feedback` as written, read in exact integers. */
  predicate GuardAsWritten(val: int, diff: int) {
    IntMax - val > diff || IntMin - val < diff
  }

  /** The guard as written can only fail if `IntMax <= IntMin`: its skip
      branch is dead. */
  lemma GuardAsWrittenAlwaysHolds(val: int, diff: int)
    ensures GuardAsWritten(val, diff)
  {
  }

  /** The update of `feedback` exactly as written: because of the dead
      guard it always adds `diff`. */
  function UpdateAsWritten(cell: int, curQ: int, reward: int): (r: int)
    ensures r == cell + Increment(cell, curQ, reward)
  {
    var val := Descale(cell);
    var diff := Increment(cell, curQ, reward);
    if GuardAsWritten(val, diff) then cell + diff else cell
  }

  /** The guard evaluates `INT_MAX - val`, which overflows `int` as soon as
      the descaled cell is negative. One misprediction on a fresh cell
      already gets there: the cell becomes -3000000, whose descaled value is
      -3, so the next `feedback` on that cell overflows in its guard. */
  lemma GuardAsWrittenOverflows()
    ensures UpdateAsWritten(0, 0, RewardNotCorrect) == -3_000_000
    ensures Descale(-3_000_000) == -3
    ensures !InInt(IntMax - Descale(-3_000_000))
  {
  }

  /** The evidently intended guard: `cell + diff` fits in `int`, decided
      without computing the sum (for `int` operands every subtraction here
      stays in range). */
  predicate FitsAfterAdd(cell: int, diff: int) {
    if diff >= 0 then cell <= IntMax - diff else IntMin - diff <= cell
  }

  lemma FitsAfterAddMeaning(cell: int, diff: int)
    requires InInt(cell) && InInt(diff)
    ensures diff >= 0 ==> InInt(IntMax - diff)
    ensures diff < 0 ==> InInt(IntMin - diff)
    ensures FitsAfterAdd(cell, diff) <==> InInt(cell + diff)
  {
  }

  /** The new value of the cell that `feedback` writes, with the guard
      corrected: the increment is applied exactly when the sum fits in `int`,
      so a cell in range never leaves it; when applied it moves the cell
      toward the target. */
  function Update(cell: int, curQ: int, reward: int): (r: int)
    ensures InInt(cell) ==> InInt(r)
    ensures InInt(cell + Increment(cell, curQ, reward)) ==> r == cell + Increment(cell, curQ, reward)
    ensures InInt(cell) && !InInt(cell + Increment(cell, curQ, reward)) ==> r == cell
    ensures (r - cell) % Quantum == 0
    ensures r > cell ==> reward + Bootstrap(curQ) > Descale(cell)
    ensures r < cell ==> reward + Bootstrap(curQ) < Descale(cell)
  {
    var diff := Increment(cell, curQ, reward);
    if FitsAfterAdd(cell, diff) then cell + diff else cell
  }

  /** `feedback(prev_loc, cur_q, reward)`: nothing happens without a previous
      cell; otherwise that cell, and only that cell, is updated. */
  function Feedback(t: Table, prevLoc: Option<Cell>, curQ: int, reward: int): (r: Table)
    requires WellFormed(t)
    requires prevLoc.Some? ==> prevLoc.value.Valid()
    ensures WellFormed(r)
    ensures prevLoc.None? ==> r == t
    ensures forall c :: c in t && prevLoc != Some(c) ==> r[c] == t[c]
    ensures prevLoc.Some? ==> r[prevLoc.value] == Update(t[prevLoc.value], curQ, reward)
  {
    match prevLoc
    case None => t
    case Some(c) => t[c := Update(t[c], curQ, reward)]
  }

  /** The invariant of every table the watchdog can reach from `ZeroTable`:
      each cell is a multiple of `Quantum` and at most `CellBound` in
      magnitude. */
  ghost predicate Bounded(t: Table) {
    && WellFormed(t)
    && forall c :: c in t ==> -CellBound <= t[c] <= CellBound && t[c] % Quantum == 0
  }

  lemma ZeroTableBounded()
    ensures Bounded(ZeroTable())
  {
  }

  /** Bounds of the two truncated quotients for inputs within the invariant. */
  lemma UpdateTermsBounded(cell: int, curQ: int)
    requires -CellBound <= cell <= CellBound && -CellBound <= curQ <= CellBound
    ensures -100 <= Descale(cell) <= 100
    ensures -80 <= Bootstrap(curQ) <= 80
  {
  }

  /** From a cell and a bootstrap value within the bound and a reward of the
      source's range, the update stays within the bound: the update keeps
      seven tenths of the cell and adds at most `Quantum * 90`. */
  lemma {:induction false} UpdateStaysBounded(cell: int, curQ: int, reward: int)
    requires -CellBound <= cell <= CellBound && -CellBound <= curQ <= CellBound
    requires -10 <= reward <= 10
    ensures -CellBound <= Update(cell, curQ, reward) <= CellBound
  {
    UpdateTermsBounded(cell, curQ);
    var v := Descale(cell);
    if cell >= 0 {
      assert 0 <= cell - 1_000_000 * v < 1_000_000;
    } else {
      assert -1_000_000 < cell - 1_000_000 * v <= 0;
    }
  }

  /** The update moves a cell by a multiple of `Quantum`, so a cell on that
      grid stays on it. */
  lemma UpdateStaysOnGrid(cell: int, curQ: int, reward: int)
    requires cell % Quantum == 0
    ensures Update(cell, curQ, reward) % Quantum == 0
  {
    var k := (Update(cell, curQ, reward) - cell) / Quantum;
    assert Update(cell, curQ, reward) == Quantum * (cell / Quantum + k);
  }

  /** `feedback` keeps the invariant when `cur_q` is itself a table value and
      the reward is one of the source's rewards. */
  lemma {:induction false} FeedbackPreservesBounded(t: Table, prevLoc: Option<Cell>, curQ: int, reward: int)
    requires Bounded(t)
    requires prevLoc.Some? ==> prevLoc.value.Valid()
    requires -CellBound <= curQ <= CellBound
    requires -10 <= reward <= 10
    ensures Bounded(Feedback(t, prevLoc, curQ, reward))
  {
    if prevLoc.Some? {
      var c := prevLoc.value;
      UpdateStaysBounded(t[c], curQ, reward);
      UpdateStaysOnGrid(t[c], curQ, reward);
      var r := Feedback(t, prevLoc, curQ, reward);
      assert r == t[c := Update(t[c], curQ, reward)];
    }
  }

  /** Within the invariant, every `int` expression of `feedback` with the
      corrected guard is in range, so the exact-integer reading above is the
      C reading, and the guard always lets the update through. */
  lemma {:induction false} FeedbackWithinInt(cell: int, curQ: int, reward: int)
    requires -CellBound <= cell <= CellBound && -CellBound <= curQ <= CellBound
    requires -10 <= reward <= 10
    ensures InInt(Gamma * curQ)
    ensures InInt(reward + Bootstrap(curQ) - Descale(cell))
    ensures InInt(Alpha * (reward + Bootstrap(curQ) - Descale(cell)))
    ensures InInt(Increment(cell, curQ, reward))
    ensures InInt(cell + Increment(cell, curQ, reward))
    ensures FitsAfterAdd(cell, Increment(cell, curQ, reward))
  {
  }

  /** On every reachable cell the corrected update and the update as
      written agree, so the correction changes no behaviour the watchdog can
      reach; it only removes the overflow from the guard. */
  lemma {:induction false} UpdateAsWrittenAgrees(cell: int, curQ: int, reward: int)
    requires -CellBound <= cell <= CellBound && -CellBound <= curQ <= CellBound
    requires -10 <= reward <= 10
    ensures UpdateAsWritten(cell, curQ, reward) == Update(cell, curQ, reward)
  {
  }

  /** Within the invariant the cell rises exactly when the target exceeds its
      descaled value, and stays put exactly when they are equal. */
  lemma {:induction false} UpdateSign(cell: int, curQ: int, reward: int)
    requires -CellBound <= cell <= CellBound && -CellBound <= curQ <= CellBound
    requires -10 <= reward <= 10
    ensures Update(cell, curQ, reward) > cell <==> reward + Bootstrap(curQ) > Descale(cell)
    ensures Update(cell, curQ, reward) == cell <==> reward + Bootstrap(curQ) == Descale(cell)
    ensures Update(cell, curQ, reward) < cell <==> reward + Bootstrap(curQ) < Descale(cell)
  {
  }

  /** The update moves the descaled cell toward the target
      `reward + Bootstrap(curQ)` without passing it. */
  lemma {:induction false} UpdateApproachesTarget(cell: int, curQ: int, reward: int)
    ensures var target, v := reward + Bootstrap(curQ), Descale(cell);
      var v' := Descale(Update(cell, curQ, reward));
      && (v < target ==> v <= v' <= target)
      && (target < v ==> target <= v' <= v)
      && (v == target ==> v' == v)
  {
  }

  /** `n` successive updates of one cell with the same bootstrap value and
      reward. */
  function Iterate(cell: int, curQ: int, reward: int, n: nat): int
    decreases n
  {
    if n == 0 then cell else Iterate(Update(cell, curQ, reward), curQ, reward, n - 1)
  }

  /** How far the cell still is from the grid range whose descaled value is
      the target; zero once it is there. */
  function Gap(cell: int, target: int): int {
    var v := Descale(cell);
    if v < target then 1_000_000 * (target + 1) - cell
    else if target < v then cell - 1_000_000 * (target - 1)
    else 0
  }

  /** The number of repeated updates after which the descaled cell equals
      the target: with a fixed reward and bootstrap value the update
      converges in finitely many steps. */
  function UpdatesToTarget(cell: int, curQ: int, reward: int): (n: nat)
    requires -CellBound <= cell <= CellBound && -CellBound <= curQ <= CellBound
    requires -10 <= reward <= 10
    ensures Descale(Iterate(cell, curQ, reward, n)) == reward + Bootstrap(curQ)
    decreases Gap(cell, reward + Bootstrap(curQ))
  {
    var target := reward + Bootstrap(curQ);
    if Descale(cell) == target then 0
    else
      var cell' := Update(cell, curQ, reward);
      UpdateStaysBounded(cell, curQ, reward);
      UpdateApproachesTarget(cell, curQ, reward);
      FeedbackWithinInt(cell, curQ, reward);
      GapShrinks(cell, cell', target);
      1 + UpdatesToTarget(cell', curQ, reward)
  }

  lemma GapShrinks(cell: int, cell': int, target: int)
    requires Descale(cell) != target
    requires cell' == cell + Quantum * (target - Descale(cell))
    requires Descale(cell) < target ==> Descale(cell') <= target
    requires target < Descale(cell) ==> target <= Descale(cell')
    ensures 0 <= Gap(cell', target) < Gap(cell, target)
  {
  }
}
