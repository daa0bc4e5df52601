/**
  The state discretiser of the watchdog: `get_idx` and its four wrappers,
  which turn a raw integer into a bucket index by scanning an array of bounds,
  and the derivation of the IOPS bounds from the rated peak throughput.
 */
module Discretiser {
  import opened CInt

  const NumLat: int := 4
  const NumIops: int := 3
  const NumSize: int := 4
  const NumInflight: int := 2

  /** Latency bounds in milliseconds. */
  const LatBound: seq<int> := [1, 4, 16]
  /** Request-size bounds; the caller compares them against bytes. */
  const SizeBound: seq<int> := [8, 32, 128]
  /** Outstanding-request bound. */
  const InflightBound: seq<int> := [13]

  ghost predicate Ascending(bound: seq<int>) {
    forall j, k :: 0 <= j < k < |bound| ==> bound[j] <= bound[k]
  }

  /** The scan of `get_idx` resumed at position `i`: every bound before `i`
      has already been found not to exceed `val`. */
  function ScanFrom(bound: seq<int>, num: int, val: int, i: nat): (r: nat)
    requires num - 1 <= |bound|
    requires i == 0 || i <= num - 1
    requires forall j :: 0 <= j < i ==> bound[j] <= val
    ensures i <= r
    ensures r == 0 || r <= num - 1
    ensures forall j :: 0 <= j < r ==> bound[j] <= val
    ensures r < num - 1 ==> val < bound[r]
    decreases num - i
  {
    if i < num - 1 && bound[i] <= val then ScanFrom(bound, num, val, i + 1)
    else i
  }

  /** `get_idx(bound, num, val)`: the first position below `num - 1` whose
      bound exceeds `val`, or `num - 1` when there is none. */
  function GetIdx(bound: seq<int>, num: int, val: int): (r: nat)
    requires num - 1 <= |bound|
    ensures num >= 1 ==> r <= num - 1
    ensures num <= 1 ==> r == 0
    ensures forall j :: 0 <= j < r ==> bound[j] <= val
    ensures r < num - 1 ==> val < bound[r]
  {
    ScanFrom(bound, num, val, 0)
  }

  /** A larger value never lands in a smaller bucket; this holds for any
      bounds, ascending or not, because the result is a first position. */
  lemma GetIdxMonotone(bound: seq<int>, num: int, v1: int, v2: int)
    requires num - 1 <= |bound|
    requires v1 <= v2
    ensures GetIdx(bound, num, v1) <= GetIdx(bound, num, v2)
  {
  }

  /** With ascending bounds, bucket `k` is exactly the half-open interval
      `[bound[k-1], bound[k])`, the outer buckets being unbounded. */
  lemma GetIdxInterval(bound: seq<int>, num: int, val: int, k: int)
    requires 1 <= num <= |bound| + 1
    requires Ascending(bound[..num - 1])
    requires 0 <= k <= num - 1
    ensures GetIdx(bound, num, val) == k
        <==> (k == 0 || bound[k - 1] <= val) && (k == num - 1 || val < bound[k])
  {
  }

  function InflightIdx(inflight: int): (r: nat)
    ensures r < NumInflight
    ensures r == 0 <==> inflight < 13
  {
    GetIdx(InflightBound, NumInflight, inflight)
  }

  function SizeIdx(size: int): (r: nat)
    ensures r < NumSize
    ensures r == 0 <==> size < 8
    ensures r == 1 <==> 8 <= size < 32
    ensures r == 2 <==> 32 <= size < 128
    ensures r == 3 <==> 128 <= size
  {
    GetIdx(SizeBound, NumSize, size)
  }

  function IopsIdx(iopsBound: seq<int>, iops: int): (r: nat)
    requires |iopsBound| == NumIops - 1
    ensures r < NumIops
    ensures r == 0 <==> iops < iopsBound[0]
    ensures r == 2 ==> iopsBound[1] <= iops
    ensures iopsBound[0] <= iopsBound[1] ==> (r == 1 <==> iopsBound[0] <= iops < iopsBound[1])
  {
    GetIdx(iopsBound, NumIops, iops)
  }

  function LatIdx(lat: int): (r: nat)
    ensures r < NumLat
    ensures r == 0 <==> lat < 1
    ensures r == 1 <==> 1 <= lat < 4
    ensures r == 2 <==> 4 <= lat < 16
    ensures r == 3 <==> 16 <= lat
  {
    GetIdx(LatBound, NumLat, lat)
  }

  /** `x >>= 4` on a signed `int`: gcc shifts arithmetically, which rounds
      toward minus infinity. */
  function Sar4(x: int): (r: int)
    ensures 16 * r <= x < 16 * r + 16
  {
    x / 16
  }

  /** `spec_max_iops = max_kiops * 1000`: a `long` product stored in an
      `int`. The product itself must not overflow `long`. */
  function SpecMaxIops(maxKiops: int): (r: int)
    requires -0x8000_0000_0000_0000 <= maxKiops * 1000 < 0x8000_0000_0000_0000
    ensures InInt(r)
    ensures InInt(maxKiops * 1000) ==> r == maxKiops * 1000
  {
    Narrow32(maxKiops * 1000)
  }

  /** The IOPS bounds built before the loop: `spec_max_iops / 16` goes in the
      upper slot and is then shifted right by four for the lower slot. */
  function IopsBounds(specMaxIops: int): (b: seq<int>)
    ensures |b| == NumIops - 1
    ensures 0 <= specMaxIops ==> b[0] == specMaxIops / 256 && b[1] == specMaxIops / 16
    ensures 0 <= specMaxIops ==> 0 <= b[0] <= b[1]
  {
    TDivTDiv(specMaxIops, 16, 16);
    var upper := TDiv(specMaxIops, 16);
    [Sar4(upper), upper]
  }
}
