/**
 * ProxyVerifier (daili2/proxy_manager.py): the validity decision of
 * `verify_proxy` and the completion loop of `run`. The network probes, the
 * clock and the thread pool are inputs: each probe is the boolean "answered
 * 200", the elapsed time is given, and the pool's completions arrive in a
 * given order, with the moments `stop()` is called given as flags.
 */
module Verifier {
  import opened Wrappers
  import opened Proxy

  /** The five sites every proxy is tried against. */
  const TestUrls: seq<string> := [
    "http://www.baidu.com",
    "http://www.qq.com",
    "http://www.163.com",
    "http://www.sohu.com",
    "http://www.sina.com.cn"
  ]

  /** A proxy is valid when at least this many of the sites answer. */
  const MinSuccesses: nat := 2

  /** How many probes succeeded. */
  function Successes(probes: seq<bool>): (n: nat)
    ensures n <= |probes|
    ensures n == 0 <==> forall i :: 0 <= i < |probes| ==> !probes[i]
    decreases |probes|
  {
    if probes == [] then 0
    else Successes(probes[..|probes| - 1]) + (if probes[|probes| - 1] then 1 else 0)
  }

  /** One more successful probe never makes a proxy invalid. */
  lemma {:induction false} SuccessesMonotone(a: seq<bool>, b: seq<bool>)
    requires |a| == |b| && forall i :: 0 <= i < |a| ==> a[i] ==> b[i]
    ensures Successes(a) <= Successes(b)
    decreases |a|
  {
    if a != [] {
      SuccessesMonotone(a[..|a| - 1], b[..|b| - 1]);
    }
  }

  /**
   * `verify_proxy`: with `setupFails` an exception before the probes, which
   * the outer `except` turns into `(False, 0.0)`; otherwise each probe that
   * answered adds one, and the proxy is valid with the elapsed time iff at
   * least two did.
   */
  method VerifyProxy(setupFails: bool, probes: seq<bool>, elapsed: real) returns (valid: bool, responseTime: real)
    requires |probes| == |TestUrls|
    ensures valid <==> !setupFails && Successes(probes) >= MinSuccesses
    ensures responseTime == if valid then elapsed else 0.0
  {
    if setupFails {
      return false, 0.0;
    }
    var successCount := 0;
    for i := 0 to |probes|
      invariant successCount == Successes(probes[..i])
      invariant 0 <= successCount <= i <= |TestUrls|
    {
      assert probes[..i + 1][..i] == probes[..i];
      if probes[i] {
        successCount := successCount + 1;
      }
    }
    assert probes[..|probes|] == probes;
    if successCount >= MinSuccesses {
      return true, elapsed;
    }
    return false, 0.0;
  }

  // ---------------------------------------------------------------------
  // run
  // ---------------------------------------------------------------------

  /** What `future.result()` gave for one proxy: its result, or an exception. */
  datatype Outcome = Done(valid: bool, responseTime: Option<real>) | Raised

  /** The signals `run` emits, in order. */
  datatype Event =
    | Update(ip: string, port: int, valid: bool, responseTime: real)
    | Progress(percent: int)
    | Finished

  /** `int(verified / total * 100)`, in integer arithmetic. */
  function Percent(verified: nat, total: nat): (p: int)
    requires total > 0
    ensures 0 <= p
    ensures verified <= total ==> p <= 100
    ensures verified == total ==> p == 100
  {
    PercentBounds(verified, total);
    verified * 100 / total
  }

  lemma PercentBounds(verified: nat, total: nat)
    requires total > 0
    ensures verified <= total ==> verified * 100 / total <= 100
    ensures verified == total ==> verified * 100 / total == 100
  {
    MulDiv(total, 100);
    if verified <= total {
      MulMonotone(100, verified, total);
      DivMonotone(verified * 100, total * 100, total);
    }
  }

  lemma DivMonotone(x: nat, y: nat, t: nat)
    requires t > 0 && x <= y
    ensures x / t <= y / t
  {
    var qx, qy := x / t, y / t;
    assert x == t * qx + x % t;
    assert y == t * qy + y % t;
    if qx > qy {
      MulMonotone(t, qy + 1, qx);
    }
  }

  lemma MulDiv(t: nat, q: nat)
    requires t > 0
    ensures t * q / t == q
  {
    var d, m := t * q / t, t * q % t;
    assert t * q == t * d + m && 0 <= m < t;
    assert t * (q - d) == m;
    SmallMultiple(t, q - d);
  }

  /** A multiple of `t` strictly between `-t` and `t` is zero. */
  lemma SmallMultiple(t: int, k: int)
    requires t > 0 && 0 <= t * k < t
    ensures k == 0
  {
  }

  lemma MulMonotone(t: nat, a: nat, b: nat)
    requires a <= b
    ensures t * a <= t * b
  {
  }

  lemma PercentMonotone(a: nat, b: nat, total: nat)
    requires total > 0 && a <= b
    ensures Percent(a, total) <= Percent(b, total)
  {
    MulMonotone(100, a, b);
    DivMonotone(a * 100, b * 100, total);
  }

  /** The completion order of the pool: every submitted proxy exactly once. */
  predicate IsOrder(order: seq<nat>, n: nat) {
    && |order| == n
    && (forall k :: 0 <= k < |order| ==> order[k] < n)
    && (forall k, l :: 0 <= k < l < |order| ==> order[k] != order[l])
  }

  /** The first completion at which `stop()` has been called, or the number of completions. */
  function FirstStop(stops: seq<bool>): (h: nat)
    ensures h <= |stops|
    ensures h < |stops| ==> stops[h]
    ensures forall k :: 0 <= k < h ==> !stops[k]
    decreases |stops|
  {
    if stops == [] then 0
    else if stops[0] then 0
    else 1 + FirstStop(stops[1..])
  }

  /** How many completions `run` handles before it sees `is_running` false. */
  function Handled(stops: seq<bool>, running: bool): (h: nat)
    ensures h <= |stops|
    ensures h < |stops| ==> stops[h] || !running
    ensures forall k :: 0 <= k < h ==> !stops[k]
  {
    if running then FirstStop(stops) else 0
  }

  /** How many of the first `k` completions returned a result. */
  function DoneCount(order: seq<nat>, outcomes: seq<Outcome>, k: nat): (c: nat)
    requires k <= |order| && forall j :: 0 <= j < |order| ==> order[j] < |outcomes|
    ensures c <= k
  {
    if k == 0 then 0
    else DoneCount(order, outcomes, k - 1) + (if outcomes[order[k - 1]].Done? then 1 else 0)
  }

  /** The signals of the `k`-th completion: its update and the new progress, or nothing when it raised. */
  function StepEvents(list: seq<Pair>, order: seq<nat>, outcomes: seq<Outcome>, k: nat): seq<Event>
    requires k < |order| && |outcomes| == |list| && forall j :: 0 <= j < |order| ==> order[j] < |outcomes|
    requires |list| > 0
  {
    var p := list[order[k]];
    match outcomes[order[k]]
    case Raised => []
    case Done(valid, rt) =>
      [Update(p.ip, p.port, valid, if rt.None? then 0.0 else rt.value),
       Progress(Percent(DoneCount(order, outcomes, k + 1), |list|))]
  }

  /** The signals of the first `k` completions. */
  function Steps(list: seq<Pair>, order: seq<nat>, outcomes: seq<Outcome>, k: nat): seq<Event>
    requires k <= |order| && |outcomes| == |list| && forall j :: 0 <= j < |order| ==> order[j] < |outcomes|
    requires |order| > 0 ==> |list| > 0
  {
    if k == 0 then [] else Steps(list, order, outcomes, k - 1) + StepEvents(list, order, outcomes, k - 1)
  }

  /** The signals never include `finished` before the end. */
  lemma {:induction false} StepsNotFinished(list: seq<Pair>, order: seq<nat>, outcomes: seq<Outcome>, k: nat)
    requires k <= |order| && |outcomes| == |list| && forall j :: 0 <= j < |order| ==> order[j] < |outcomes|
    requires |order| > 0 ==> |list| > 0
    ensures forall e :: e in Steps(list, order, outcomes, k) ==> !e.Finished?
  {
    if k > 0 {
      StepsNotFinished(list, order, outcomes, k - 1);
    }
  }

  /** Every progress value in `ev` lies in `[lo, hi]`. */
  predicate ProgressWithin(ev: seq<Event>, lo: int, hi: int) {
    forall i :: 0 <= i < |ev| && ev[i].Progress? ==> lo <= ev[i].percent <= hi
  }

  /** The progress values in `ev` never go down. */
  predicate ProgressNonDecreasing(ev: seq<Event>) {
    forall i, j :: 0 <= i < j < |ev| && ev[i].Progress? && ev[j].Progress? ==> ev[i].percent <= ev[j].percent
  }

  lemma WithinAppend(prev: seq<Event>, step: seq<Event>, lo: int, mid: int, hi: int)
    requires ProgressWithin(prev, lo, mid) && ProgressWithin(step, mid, hi) && lo <= mid <= hi
    ensures ProgressWithin(prev + step, lo, hi)
    ensures ProgressNonDecreasing(prev) && ProgressNonDecreasing(step) ==> ProgressNonDecreasing(prev + step)
  {
    var ev := prev + step;
    assert forall i :: 0 <= i < |prev| ==> ev[i] == prev[i];
    assert forall i :: |prev| <= i < |ev| ==> ev[i] == step[i - |prev|];
  }

  /** The signals of one completion: no progress, or a single value, the new share. */
  lemma StepProgress(list: seq<Pair>, order: seq<nat>, outcomes: seq<Outcome>, k: nat)
    requires IsOrder(order, |list|) && |outcomes| == |list| && k < |order|
    ensures var p := Percent(DoneCount(order, outcomes, k + 1), |list|);
      var step := StepEvents(list, order, outcomes, k);
      ProgressWithin(step, p, p) && ProgressNonDecreasing(step)
  {
  }

  /**
   * Every progress value is in [0, 100] and none exceeds the share handled
   * so far; and the values never go down.
   */
  lemma {:induction false} ProgressBounded(list: seq<Pair>, order: seq<nat>, outcomes: seq<Outcome>, k: nat)
    requires IsOrder(order, |list|) && |outcomes| == |list| && k <= |order|
    ensures |list| > 0 ==> Percent(DoneCount(order, outcomes, k), |list|) <= 100
    ensures |list| > 0 ==> ProgressWithin(Steps(list, order, outcomes, k), 0, Percent(DoneCount(order, outcomes, k), |list|))
    ensures ProgressNonDecreasing(Steps(list, order, outcomes, k))
  {
    if k > 0 {
      ProgressBounded(list, order, outcomes, k - 1);
      var lo, hi := DoneCount(order, outcomes, k - 1), DoneCount(order, outcomes, k);
      assert hi <= k <= |list|;
      PercentMonotone(lo, hi, |list|);
      StepProgress(list, order, outcomes, k - 1);
      WithinAppend(Steps(list, order, outcomes, k - 1), StepEvents(list, order, outcomes, k - 1),
        0, Percent(lo, |list|), Percent(hi, |list|));
    }
  }

  /** When every proxy returned a result, the last progress emitted is 100. */
  lemma {:induction false} DoneCountAll(order: seq<nat>, outcomes: seq<Outcome>, k: nat)
    requires k <= |order| && forall j :: 0 <= j < |order| ==> order[j] < |outcomes|
    requires forall i :: 0 <= i < |outcomes| ==> outcomes[i].Done?
    ensures DoneCount(order, outcomes, k) == k
  {
    if k > 0 {
      DoneCountAll(order, outcomes, k - 1);
    }
  }

  lemma ProgressReachesHundred(list: seq<Pair>, order: seq<nat>, outcomes: seq<Outcome>)
    requires IsOrder(order, |list|) && |outcomes| == |list| && |list| > 0
    requires forall i :: 0 <= i < |outcomes| ==> outcomes[i].Done?
    ensures var ev := Steps(list, order, outcomes, |order|);
      |ev| > 0 && ev[|ev| - 1] == Progress(100)
  {
    DoneCountAll(order, outcomes, |order|);
  }

  /** Each handled completion that returned a result emits exactly one update. */
  lemma {:induction false} UpdatesCounted(list: seq<Pair>, order: seq<nat>, outcomes: seq<Outcome>, k: nat)
    requires k <= |order| && |outcomes| == |list| && forall j :: 0 <= j < |order| ==> order[j] < |outcomes|
    requires |order| > 0 ==> |list| > 0
    ensures |Steps(list, order, outcomes, k)| == 2 * DoneCount(order, outcomes, k)
  {
    if k > 0 {
      UpdatesCounted(list, order, outcomes, k - 1);
    }
  }

  class ProxyVerifier {
    var proxyList: seq<Pair>
    var maxWorkers: int
    var proxyType: string
    var isRunning: bool
    var verifiedCount: nat
    var totalCount: nat

    /** `ProxyVerifier(proxy_list, max_workers, proxy_type)`; only `proxy[:2]` of each entry is used. */
    constructor (proxyList: seq<Pair>, maxWorkers: int, proxyType: string)
      ensures this.proxyList == proxyList && this.maxWorkers == maxWorkers && this.proxyType == proxyType
      ensures isRunning && verifiedCount == 0 && totalCount == |proxyList|
    {
      this.proxyList := proxyList;
      this.maxWorkers := maxWorkers;
      this.proxyType := proxyType;
      isRunning := true;
      verifiedCount := 0;
      totalCount := |proxyList|;
    }

    /** `stop()`: the loop leaves at its next check. */
    method Stop()
      modifies this
      ensures !isRunning
      ensures proxyList == old(proxyList) && verifiedCount == old(verifiedCount) && totalCount == old(totalCount)
      ensures maxWorkers == old(maxWorkers) && proxyType == old(proxyType)
    {
      isRunning := false;
    }

    /**
     * `run`: completions are taken in `order`; `stops[k]` says that `stop()`
     * was called before the `k`-th check of `is_running`. Each result
     * emits its update and then, with `verified_count` one higher, the
     * progress; an exception emits nothing; at the first check that finds
     * the flag down the loop ends, and `finished` is emitted once.
     */
    method Run(order: seq<nat>, outcomes: seq<Outcome>, stops: seq<bool>) returns (events: seq<Event>)
      requires IsOrder(order, |proxyList|) && |outcomes| == |proxyList| && |stops| == |proxyList|
      requires verifiedCount == 0 && totalCount == |proxyList|
      modifies this
      ensures proxyList == old(proxyList) && totalCount == old(totalCount)
      ensures var h := Handled(stops, old(isRunning));
        && events == Steps(proxyList, order, outcomes, h) + [Finished]
        && verifiedCount == DoneCount(order, outcomes, h)
      ensures isRunning <==> old(isRunning) && FirstStop(stops) == |stops|
    {
      events := [];
      var k := 0;
      ghost var h := Handled(stops, isRunning);
      while k < |order|
        invariant k <= h <= |order|
        decreases |order| - k
        invariant isRunning == old(isRunning) && proxyList == old(proxyList) && totalCount == |proxyList|
        invariant events == Steps(proxyList, order, outcomes, k)
        invariant verifiedCount == DoneCount(order, outcomes, k)
      {
        if stops[k] {
          Stop();
        }
        if !isRunning {
          break;
        }
        var i := order[k];
        match outcomes[i] {
          case Raised =>
          case Done(valid, rt) =>
            var responseTime := if rt.None? then 0.0 else rt.value;
            events := events + [Update(proxyList[i].ip, proxyList[i].port, valid, responseTime)];
            verifiedCount := verifiedCount + 1;
            events := events + [Progress(verifiedCount * 100 / totalCount)];
        }
        k := k + 1;
      }
      events := events + [Finished];
    }
  }

  /** The trace of `run` ends with its single `finished`. */
  lemma FinishedOnce(list: seq<Pair>, order: seq<nat>, outcomes: seq<Outcome>, k: nat)
    requires IsOrder(order, |list|) && |outcomes| == |list| && k <= |order|
    ensures var ev := Steps(list, order, outcomes, k) + [Finished];
      ev[|ev| - 1] == Finished && forall i :: 0 <= i < |ev| - 1 ==> !ev[i].Finished?
  {
    StepsNotFinished(list, order, outcomes, k);
    var steps := Steps(list, order, outcomes, k);
    assert forall i :: 0 <= i < |steps| ==> steps[i] in steps;
  }
}
