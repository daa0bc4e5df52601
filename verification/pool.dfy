/**
  The device pool's round-robin cursor, `get_next_nvme_dev`. The cursor runs
  modulo `num_devices`, the number of slots fixed at start-up; a slot whose
  device is gone stays in the rotation.
 */
module Pool {

  const MaxDevices: int := 32

  /** `x mod n` for `0 <= x < 2 * n`, written without division. */
  function Reduce(x: int, n: int): int {
    if x < n then x else x - n
  }

  /** `get_next_nvme_dev`: the cursor after the call, which is also what the
      call returns. */
  function NextDev(cur: int, numDevices: int): (r: int)
    requires 0 <= cur && 0 <= numDevices
    ensures numDevices == 0 ==> r == cur
    ensures 0 < numDevices ==> 0 <= r < numDevices
    ensures 0 < numDevices && cur < numDevices ==> r == Reduce(cur + 1, numDevices)
  {
    if numDevices > 0 then (cur + 1) % numDevices else cur
  }

  /** The results of `k` consecutive calls starting from cursor `cur`. */
  function Visits(cur: int, numDevices: int, k: nat): (v: seq<int>)
    requires 0 <= cur && 0 <= numDevices
    ensures |v| == k
    decreases k
  {
    if k == 0 then []
    else
      var next := NextDev(cur, numDevices);
      [next] + Visits(next, numDevices, k - 1)
  }

  /** The `j`-th of the first `n` calls returns `cur + 1 + j` reduced
      modulo `n`. */
  lemma {:induction false} VisitsInOrder(cur: int, n: int, k: nat)
    requires 0 <= cur < n && k <= n
    ensures forall j :: 0 <= j < k ==> Visits(cur, n, k)[j] == Reduce(cur + 1 + j, n)
    decreases k
  {
    if k > 0 {
      var next := NextDev(cur, n);
      VisitsInOrder(next, n, k - 1);
      var v := Visits(cur, n, k);
      forall j | 0 <= j < k
        ensures v[j] == Reduce(cur + 1 + j, n)
      {
        if j > 0 {
          assert v[j] == Visits(next, n, k - 1)[j - 1];
        }
      }
    }
  }

  /** `n` consecutive calls return every slot index exactly once and leave
      the cursor where it started. */
  lemma {:induction false} RoundRobinVisitsEachOnce(cur: int, n: int)
    requires 0 <= cur < n
    ensures forall j, j' :: 0 <= j < j' < n ==> Visits(cur, n, n)[j] != Visits(cur, n, n)[j']
    ensures forall i :: 0 <= i < n ==> i in Visits(cur, n, n)
    ensures Visits(cur, n, n)[n - 1] == cur
  {
    VisitsInOrder(cur, n, n);
    var v := Visits(cur, n, n);
    forall i | 0 <= i < n
      ensures i in v
    {
      var j := if i > cur then i - cur - 1 else i + n - cur - 1;
      assert v[j] == i;
    }
  }
}
