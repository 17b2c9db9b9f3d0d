/** The closed-loop benchmark's `main` (bench_tendermint.go): `concurrency`
    workers share one atomic counter, each claiming the next index and, while
    it is below `total`, submitting `makeTx(index)`; successful submissions
    put their latency on a channel; the collector sums and counts them, sorts
    them and reports the mean and the nearest-rank p50, p95 and p99.

    The atomic fetch-and-increment is the single indivisible `Claim`; a
    schedule of worker steps stands for any interleaving of the goroutines. */
module BenchRun {
  import opened GoBytes
  import opened Results
  import Rpc
  import BenchTx

  const INT32_MIN := -0x8000_0000
  const INT32_MAX := 0x7fff_ffff

  type int32 = x: int | INT32_MIN <= x <= INT32_MAX

  /** Two's-complement wrap-around of an int32 addition. */
  function Wrap32(x: int): (r: int32)
    ensures INT32_MIN <= x <= INT32_MAX ==> r == x
    ensures (r - x) % 0x1_0000_0000 == 0
  {
    (x - INT32_MIN) % 0x1_0000_0000 + INT32_MIN
  }

  /** Whether the submission of index `k` succeeds. */
  predicate Succeeds(net: Rpc.Network, host: seq<byte>, prefix: seq<byte>, k: int)
  {
    BenchTx.BroadcastTxCommit(net, host, BenchTx.MakeTx(prefix, k)) == Pass
  }

  /** `Succeeds` as a function of the index alone. */
  function Succeeding(net: Rpc.Network, host: seq<byte>, prefix: seq<byte>): int -> bool
  {
    k => Succeeds(net, host, prefix, k)
  }

  /** The latencies on the channel once indices 0..n-1 have been submitted:
      one for each success, none for a failure, in index order. */
  function Successes(net: Rpc.Network, host: seq<byte>, prefix: seq<byte>, lat: int -> nat, n: nat): (r: seq<nat>)
    ensures |r| <= n
  {
    if n == 0 then []
    else Successes(net, host, prefix, lat, n - 1)
         + (if Succeeds(net, host, prefix, n - 1) then [lat(n - 1)] else [])
  }

  /** The payloads of indices 0..n-1, in index order. */
  function Payloads(prefix: seq<byte>, n: nat): (r: seq<seq<byte>>)
    ensures |r| == n
  {
    if n == 0 then [] else Payloads(prefix, n - 1) + [BenchTx.MakeTx(prefix, n - 1)]
  }

  /** Position k of the payloads holds `makeTx(k)`. */
  lemma {:induction false} PayloadAt(prefix: seq<byte>, n: nat)
    ensures forall k | 0 <= k < n :: Payloads(prefix, n)[k] == BenchTx.MakeTx(prefix, k)
  {
    if n > 0 {
      var front := Payloads(prefix, n - 1);
      PayloadAt(prefix, n - 1);
      assert Payloads(prefix, n) == front + [BenchTx.MakeTx(prefix, n - 1)];
      forall k | 0 <= k < n - 1
        ensures Payloads(prefix, n)[k] == BenchTx.MakeTx(prefix, k)
      {
        assert Payloads(prefix, n)[k] == front[k];
      }
    }
  }

  /** No index is processed twice: the payloads are pairwise distinct. */
  lemma PayloadsDistinct(prefix: seq<byte>, n: nat)
    ensures forall j, k | 0 <= j < k < n :: Payloads(prefix, n)[j] != Payloads(prefix, n)[k]
  {
    PayloadAt(prefix, n);
    forall j, k | 0 <= j < k < n
      ensures Payloads(prefix, n)[j] != Payloads(prefix, n)[k]
    {
      if Payloads(prefix, n)[j] == Payloads(prefix, n)[k] {
        BenchTx.MakeTxInjective(prefix, j, k);
      }
    }
  }

  /** Submitting index n next adds index n's sample exactly when its
      submission succeeds. */
  lemma SuccessesNext(net: Rpc.Network, host: seq<byte>, prefix: seq<byte>, lat: int -> nat, n: nat)
    ensures Successes(net, host, prefix, lat, n + 1) == Successes(net, host, prefix, lat, n)
      + (if BenchTx.BroadcastTxCommit(net, host, BenchTx.MakeTx(prefix, n)) == Pass then [lat(n)] else [])
  {
  }

  /** `Successes` is `Samples` for the node's verdicts on the payloads. */
  lemma {:induction false} SuccessesAreSamples(net: Rpc.Network, host: seq<byte>, prefix: seq<byte>, lat: int -> nat, n: nat)
    ensures Successes(net, host, prefix, lat, n) == Samples(Succeeding(net, host, prefix), lat, n)
  {
    if n > 0 {
      SuccessesAreSamples(net, host, prefix, lat, n - 1);
      assert Succeeding(net, host, prefix)(n - 1) == Succeeds(net, host, prefix, n - 1);
    }
  }

  /** The same latencies, where `ok(k)` says whether index k's submission succeeds: one for each
      success, none for a failure, in index order. `Successes` repeats this
      recursion without the function parameter so that `ClosedLoop.Valid()`
      holds no lambda; `SuccessesAreSamples` equates the two. */
  function Samples(ok: int -> bool, lat: int -> nat, n: nat): seq<nat>
  {
    if n == 0 then []
    else Samples(ok, lat, n - 1) + (if ok(n - 1) then [lat(n - 1)] else [])
  }

  function Sum(s: seq<nat>): nat
  {
    if s == [] then 0 else Sum(s[..|s| - 1]) + s[|s| - 1]
  }

  /** The sum splits over a concatenation. */
  lemma {:induction false} SumConcat(a: seq<nat>, b: seq<nat>)
    ensures Sum(a + b) == Sum(a) + Sum(b)
  {
    if b != [] {
      var c := b[..|b| - 1];
      SumConcat(a, c);
      assert (a + b)[..|a + b| - 1] == a + c;
    } else {
      assert a + b == a;
    }
  }

  /** Taking one element out lowers the sum by that element. */
  lemma SumRemove(p: seq<nat>, x: nat, q: seq<nat>)
    ensures Sum(p + [x] + q) == Sum(p + q) + x
  {
    SumConcat(p + [x], q);
    SumConcat(p, [x]);
    SumConcat(p, q);
  }

  /** Removing the same element from two equal multisets leaves them equal. */
  lemma MultisetCancel(m: multiset<nat>, n: multiset<nat>, x: nat)
    requires m + multiset{x} == n + multiset{x}
    ensures m == n
  {
    forall y
      ensures m[y] == n[y]
    {
      assert (m + multiset{x})[y] == (n + multiset{x})[y];
    }
  }

  /** The multiset of a sequence with one element taken out. */
  lemma MultisetRemove(p: seq<nat>, x: nat, q: seq<nat>)
    ensures multiset(p + [x] + q) == multiset(p + q) + multiset{x}
  {
    assert multiset(p + [x] + q) == multiset(p + [x]) + multiset(q);
    assert multiset(p + [x]) == multiset(p) + multiset{x};
    assert multiset(p + q) == multiset(p) + multiset(q);
  }

  /** The last element of `a` also occurs in `b`, and what is left of each
      is again the same multiset. */
  lemma TakeLast(a: seq<nat>, b: seq<nat>) returns (front: seq<nat>, x: nat, p: seq<nat>, q: seq<nat>)
    requires a != [] && multiset(a) == multiset(b)
    ensures a == front + [x] && b == p + [x] + q
    ensures |front| < |a| && multiset(front) == multiset(p + q)
  {
    x, front := a[|a| - 1], a[..|a| - 1];
    assert a == front + [x] + [];
    MultisetRemove(front, x, []);
    assert front + [] == front;
    assert x in multiset(b);
    var i :| 0 <= i < |b| && b[i] == x;
    p, q := b[..i], b[i + 1..];
    assert b == p + [x] + q;
    MultisetRemove(p, x, q);
    MultisetCancel(multiset(front), multiset(p + q), x);
  }

  /** The sum ignores order: it depends only on the multiset of samples,
      so the order in which latencies reach the channel does not change it. */
  lemma {:induction false} SumPermutation(a: seq<nat>, b: seq<nat>)
    requires multiset(a) == multiset(b)
    ensures Sum(a) == Sum(b)
    decreases |a|
  {
    if a != [] {
      var front, x, p, q := TakeLast(a, b);
      SumPermutation(front, p + q);
      SumRemove(p, x, q);
      assert a[..|a| - 1] == front;
    } else {
      assert |b| == |multiset(b)| == 0;
    }
  }

  ghost predicate Sorted(s: seq<nat>)
  {
    forall k, l | 0 <= k < l < |s| :: s[k] <= s[l]
  }

  /** The samples are those of the successful indices: there are at most n,
      and none exactly when no index below n succeeds. */
  lemma {:induction false} SamplesCount(ok: int -> bool, lat: int -> nat, n: nat)
    ensures |Samples(ok, lat, n)| <= n
    ensures Samples(ok, lat, n) == [] <==> forall k | 0 <= k < n :: !ok(k)
  {
    if n > 0 {
      SamplesCount(ok, lat, n - 1);
    }
  }

  /** The indices below n whose submission succeeds. */
  ghost function SucceededBelow(ok: int -> bool, n: nat): set<int>
  {
    set k | 0 <= k < n && ok(k)
  }

  /** One sample per successful submission: the number of samples is the
      number of indices below n whose submission succeeds. */
  lemma {:induction false} SamplesPerSuccess(ok: int -> bool, lat: int -> nat, n: nat)
    ensures |Samples(ok, lat, n)| == |SucceededBelow(ok, n)|
  {
    if n > 0 {
      SamplesPerSuccess(ok, lat, n - 1);
      CountStep(SucceededBelow(ok, n - 1), SucceededBelow(ok, n), n - 1, ok(n - 1));
    } else {
      assert SucceededBelow(ok, n) == {};
    }
  }

  lemma CountStep(below: set<int>, now: set<int>, m: int, grows: bool)
    requires m !in below
    requires forall k :: k in now <==> k in below || (grows && k == m)
    ensures |now| == |below| + (if grows then 1 else 0)
  {
    var grown := if grows then below + {m} else below;
    forall k
      ensures k in now <==> k in grown
    {
    }
    assert now == grown;
  }

  /** When every submission succeeds, every index contributes its latency,
      in index order. */
  lemma {:induction false} AllSucceed(ok: int -> bool, lat: int -> nat, n: nat)
    requires forall k | 0 <= k < n :: ok(k)
    ensures |Samples(ok, lat, n)| == n
    ensures forall k | 0 <= k < n :: Samples(ok, lat, n)[k] == lat(k)
  {
    if n > 0 {
      AllSucceed(ok, lat, n - 1);
    }
  }

  /** A set of worker ids drawn from 0..n-1 has at most n members. */
  lemma {:induction false} WorkerSetBound(s: set<int>, n: nat)
    requires forall w | w in s :: 0 <= w < n
    ensures |s| <= n
  {
    if n > 0 {
      var smaller := s - {n - 1};
      WorkerSetBound(smaller, n - 1);
      assert s <= smaller + {n - 1};
    } else {
      assert forall w :: w !in s;
      assert s == {};
    }
  }

  /** The bookkeeping of the claims: `sent` claims were made, `submitted`
      of them below `total` and one by each retired worker, and no worker
      retires while an index below `total` is unclaimed. */
  ghost predicate Claims(total: int, concurrency: int, sent: int, exited: set<int>, submitted: nat)
  {
    && 0 <= total && (concurrency > 0 ==> total + concurrency <= INT32_MAX)
    && (forall w | w in exited :: 0 <= w < concurrency)
    && submitted == (if sent <= total then sent else total)
    && sent == submitted + |exited|
    && (exited != {} ==> submitted == total)
  }

  /** A running worker's next claim does not reach the int32 maximum; at or
      past `total` it retires the worker, below it it submits index `sent`. */
  lemma ClaimsNext(total: int, concurrency: int, sent: int, exited: set<int>, submitted: nat, w: int)
    requires Claims(total, concurrency, sent, exited, submitted)
    requires 0 <= w < concurrency && w !in exited
    ensures sent < INT32_MAX
    ensures sent >= total ==> Claims(total, concurrency, sent + 1, exited + {w}, submitted)
    ensures sent < total ==> submitted == sent && Claims(total, concurrency, sent + 1, exited, submitted + 1)
  {
    WorkerSetBound(exited + {w}, concurrency);
    assert |exited + {w}| == |exited| + 1;
  }

  /** The state `main` shares between its workers and its collector. */
  class ClosedLoop {
    const net: Rpc.Network
    const host: seq<byte>
    const prefix: seq<byte>
    const lat: int -> nat     // the latency `time.Since` measures for an index
    const total: int          // -n
    const concurrency: int    // -c
    var sent: int32           // the atomic counter
    var exited: set<int>      // workers that have returned
    var submitted: seq<seq<byte>> // payloads submitted, in claim order
    var channel: seq<nat>     // latCh
    var errors: nat           // error lines printed

    /** Index k is claimed k-th and submitted as `makeTx(k)`; every claim
        either submits an index below `total` or retires a worker. */
    ghost predicate Valid()
      reads this
    {
      && Claims(total, concurrency, sent, exited, |submitted|)
      && submitted == Payloads(prefix, |submitted|)
      && channel == Successes(net, host, prefix, lat, |submitted|)
      && errors + |channel| == |submitted|
    }

    /** The state before any worker starts. `make(chan, n)` panics for a
        negative n, and the counter is an int32. A `concurrency` of zero or
        less starts no worker at all. */
    constructor (net: Rpc.Network, host: seq<byte>, prefix: seq<byte>, lat: int -> nat, total: int, concurrency: int)
      requires 0 <= total && (concurrency > 0 ==> total + concurrency <= INT32_MAX)
      ensures Valid()
      ensures this.net == net && this.host == host && this.prefix == prefix && this.lat == lat
      ensures this.total == total && this.concurrency == concurrency
      ensures sent == 0 && exited == {} && submitted == [] && channel == [] && errors == 0
    {
      this.net, this.host, this.prefix, this.lat := net, host, prefix, lat;
      this.total, this.concurrency := total, concurrency;
      sent, exited, submitted, channel, errors := 0, {}, [], [], 0;
    }

    /** `int(atomic.AddInt32(&sent, 1)) - 1`: the counter goes one up, with
        int32 wrap-around, and the index is the new value less one; below
        the maximum that is the old value. */
    method Claim() returns (idx: int)
      modifies this`sent
      ensures sent == Wrap32(old(sent) + 1) && idx == sent - 1
      ensures old(sent) < INT32_MAX ==> sent == old(sent) + 1 && idx == old(sent)
    {
      sent := Wrap32(sent + 1);
      idx := sent - 1;
    }

    /** One pass of worker `w`'s loop: claim an index; at or past `total` the
        worker returns, otherwise it submits that index and either hands its
        latency to the channel or prints an error line. */
    method Step(w: int)
      requires Valid() && 0 <= w < concurrency && w !in exited
      modifies this
      ensures Valid()
      ensures sent == old(sent) + 1
      ensures old(sent) >= total ==> exited == old(exited) + {w} && submitted == old(submitted)
      ensures old(sent) < total ==>
        exited == old(exited) && submitted == old(submitted) + [BenchTx.MakeTx(prefix, old(sent))]
    {
      ClaimsNext(total, concurrency, sent, exited, |submitted|, w);
      var idx := Claim();
      if idx >= total {
        exited := exited + {w};
        return;
      }
      Submit(idx);
    }

    /** The rest of the pass for a claimed index below `total`: build its
        payload, submit it, and count an error or hand on the latency. */
    method Submit(idx: int)
      requires 0 <= idx == |submitted| < total
      requires Claims(total, concurrency, sent, exited, idx + 1)
      requires submitted == Payloads(prefix, idx)
      requires channel == Successes(net, host, prefix, lat, idx) && errors + |channel| == idx
      modifies this`submitted, this`channel, this`errors
      ensures Valid()
      ensures submitted == old(submitted) + [BenchTx.MakeTx(prefix, idx)]
    {
      SuccessesNext(net, host, prefix, lat, idx);
      var tx := BenchTx.MakeTx(prefix, idx);
      submitted := submitted + [tx];
      assert submitted == Payloads(prefix, idx + 1);
      var outcome := BenchTx.BroadcastTxCommit(net, host, tx);
      if outcome.Fail? {
        errors := errors + 1;
      } else {
        channel := channel + [lat(idx)];
      }
      assert channel == Successes(net, host, prefix, lat, idx + 1);
    }

    /** Any interleaving: the workers named by `schedule` take one step each
        in turn; a name that is not a running worker does nothing. */
    method Drive(schedule: seq<int>)
      requires Valid()
      modifies this
      ensures Valid()
      ensures old(exited) <= exited
      ensures old(submitted) <= submitted
    {
      for j := 0 to |schedule|
        invariant Valid()
        invariant old(exited) <= exited
        invariant old(submitted) <= submitted
      {
        var w := schedule[j];
        if 0 <= w < concurrency && w !in exited {
          Step(w);
        }
      }
    }

    /** Runs the workers to completion, worker 0 first, then worker 1, and so
        on (one of the interleavings `Drive` allows). */
    method Finish()
      requires Valid()
      modifies this
      ensures Valid()
      ensures forall w :: w in exited <==> 0 <= w < concurrency
      ensures concurrency > 0 ==> |submitted| == total
      ensures concurrency <= 0 ==> submitted == old(submitted)
      ensures concurrency > 0 ==>
        submitted == Payloads(prefix, total) && channel == Samples(Succeeding(net, host, prefix), lat, total)
    {
      var w := 0;
      while w < concurrency
        invariant Valid() && 0 <= w && (w <= concurrency || w == 0)
        invariant forall v | 0 <= v < w :: v in exited
        invariant w > 0 ==> |submitted| == total
        invariant concurrency <= 0 ==> submitted == old(submitted)
      {
        while w !in exited
          invariant Valid()
          invariant forall v | 0 <= v < w :: v in exited
          invariant w > 0 ==> |submitted| == total
          decreases total - |submitted| + (if w in exited then 0 else 1)
        {
          Step(w);
        }
        w := w + 1;
      }
      SuccessesAreSamples(net, host, prefix, lat, |submitted|);
    }
  }

  /** A claim made when the counter stands at its maximum yields a negative
      index, which the `idx >= total` guard lets through for every
      non-negative total: the worker goes on submitting. */
  lemma ClaimPastMaximum(total: int)
    requires total >= 0
    ensures Wrap32(INT32_MAX + 1) == INT32_MIN
    ensures Wrap32(INT32_MAX + 1) - 1 < 0 <= total
  {
  }

  /** The collector loop over the closed channel: append each latency, add
      it to `sum` and count it. */
  method Collect(ch: seq<nat>) returns (latencies: seq<nat>, sum: nat, count: nat)
    ensures latencies == ch && sum == Sum(ch) && count == |ch|
  {
    latencies, sum, count := [], 0, 0;
    for i := 0 to |ch|
      invariant latencies == ch[..i] && sum == Sum(ch[..i]) && count == i
    {
      assert ch[..i + 1][..i] == ch[..i];
      latencies := latencies + [ch[i]];
      sum := sum + ch[i];
      count := count + 1;
    }
    assert ch[..|ch|] == ch;
  }

  /** `sort.Slice(latencies, less)`: ascending, in place. */
  method SortInPlace(a: array<nat>)
    modifies a
    ensures Sorted(a[..])
    ensures multiset(a[..]) == old(multiset(a[..]))
  {
    for i := 0 to a.Length
      invariant Sorted(a[..i])
      invariant multiset(a[..]) == old(multiset(a[..]))
    {
      InsertNext(a, i);
    }
    assert a[..a.Length] == a[..];
  }

  /** One insertion step: `a[i]` moves left past every greater element, so
      the sorted prefix grows by one. */
  method InsertNext(a: array<nat>, i: int)
    requires 0 <= i < a.Length && Sorted(a[..i])
    modifies a
    ensures Sorted(a[..i + 1])
    ensures multiset(a[..]) == old(multiset(a[..]))
    ensures a[i + 1..] == old(a[i + 1..])
  {
    var j := i;
    while j > 0 && a[j - 1] > a[j]
      invariant 0 <= j <= i
      invariant forall k, l | 0 <= k < l <= i && k != j && l != j :: a[k] <= a[l]
      invariant forall k, l | 0 <= k < j < l <= i :: a[k] <= a[l]
      invariant forall l | j < l <= i :: a[j] <= a[l]
      invariant multiset(a[..]) == old(multiset(a[..]))
      invariant a[i + 1..] == old(a[i + 1..])
    {
      Swap(a, j - 1, j);
      j := j - 1;
    }
  }

  /** Exchanges two adjacent elements; the contents stay a permutation. */
  method Swap(a: array<nat>, i: int, j: int)
    requires 0 <= i < j < a.Length && j == i + 1
    modifies a
    ensures a[..] == old(a[..])[i := old(a[j])][j := old(a[i])]
    ensures multiset(a[..]) == old(multiset(a[..]))
  {
    a[i], a[j] := a[j], a[i];
  }

  /** What `main` reports. */
  datatype Summary =
    | NoSuccess
    | Stats(sorted: seq<nat>, avg: nat, p50: nat, p95: nat, p99: nat)

  /** For at least one sample the three ranks are ordered and in range. */
  lemma PercentileRanks(count: int)
    requires count >= 1
    ensures 0 <= count / 2 <= count * 95 / 100 <= count * 99 / 100 < count
  {
  }

  /** Every sample lies between the least and the greatest, so does the mean. */
  lemma {:induction false} SumBounds(s: seq<nat>, lo: nat, hi: nat)
    requires forall k | 0 <= k < |s| :: lo <= s[k] <= hi
    ensures lo * |s| <= Sum(s) <= hi * |s|
  {
    if s != [] {
      SumBounds(s[..|s| - 1], lo, hi);
      assert lo * |s| == lo * (|s| - 1) + lo;
      assert hi * |s| == hi * (|s| - 1) + hi;
    }
  }

  lemma MeanBounds(sum: nat, count: nat, lo: nat, hi: nat)
    requires count >= 1 && lo * count <= sum <= hi * count
    ensures lo <= sum / count <= hi
  {
    var q := sum / count;
    assert q * count <= sum < (q + 1) * count;
  }

  /** After sorting, the first element is the least sample and the last the
      greatest. */
  lemma SortedExtremes(samples: seq<nat>, sorted: seq<nat>)
    requires |samples| >= 1 && Sorted(sorted) && multiset(sorted) == multiset(samples)
    ensures |sorted| == |samples|
    ensures forall k | 0 <= k < |samples| :: sorted[0] <= samples[k] <= sorted[|sorted| - 1]
  {
    assert |sorted| == |multiset(sorted)| == |multiset(samples)| == |samples|;
    forall k | 0 <= k < |samples|
      ensures sorted[0] <= samples[k] <= sorted[|sorted| - 1]
    {
      assert samples[k] in multiset(samples);
      assert samples[k] in multiset(sorted);
    }
  }

  /** `s` reports the samples: their ascending permutation, the samples at
      the nearest ranks n/2, floor(0.95 n) and floor(0.99 n), which are ordered
      and at most the greatest sample, and the truncated mean, which lies
      between the least and the greatest sample. */
  ghost predicate Summarizes(s: Summary, samples: seq<nat>)
  {
    var n := |samples|;
    && s.Stats? && n >= 1
    && |s.sorted| == n
    && Sorted(s.sorted) && multiset(s.sorted) == multiset(samples)
    && s.p50 == s.sorted[n / 2]
    && s.p95 == s.sorted[n * 95 / 100]
    && s.p99 == s.sorted[n * 99 / 100]
    && s.p50 <= s.p95 <= s.p99 <= s.sorted[n - 1]
    && s.avg == Sum(samples) / n
    && (forall k | 0 <= k < n :: s.sorted[0] <= samples[k] <= s.sorted[n - 1])
    && s.sorted[0] <= s.avg <= s.sorted[n - 1]
  }

  /** The statistics part of `main`: nothing at all for zero samples;
      otherwise sort, take the nearest-rank samples at count/2,
      floor(0.95 count) and floor(0.99 count), and the truncated mean. */
  method Summarize(latencies: seq<nat>, sum: nat, count: nat) returns (s: Summary)
    requires count == |latencies| && sum == Sum(latencies)
    ensures s == NoSuccess <==> count == 0
    ensures s.Stats? ==> Summarizes(s, latencies)
  {
    if count == 0 {
      return NoSuccess;
    }
    var a := new nat[count](k requires 0 <= k < count => latencies[k]);
    assert a[..] == latencies;
    SortInPlace(a);
    var sorted := a[..];
    PercentileRanks(count);
    var p50 := sorted[count / 2];
    var p95 := sorted[count * 95 / 100];
    var p99 := sorted[count * 99 / 100];
    var avg := sum / count;
    SortedExtremes(latencies, sorted);
    SumBounds(latencies, sorted[0], sorted[count - 1]);
    MeanBounds(sum, count, sorted[0], sorted[count - 1]);
    s := Stats(sorted, avg, p50, p95, p99);
  }

  /** `main` after flag parsing: start the workers, let them all return,
      collect the channel and summarize. */
  method Benchmark(net: Rpc.Network, host: seq<byte>, prefix: seq<byte>, lat: int -> nat, total: int, concurrency: int)
    returns (s: Summary)
    requires 0 <= total && (concurrency > 0 ==> total + concurrency <= INT32_MAX)
    ensures s == NoSuccess <==>
      concurrency <= 0 || forall k | 0 <= k < total :: !Succeeds(net, host, prefix, k)
    ensures s.Stats? ==>
      concurrency > 0 && Summarizes(s, Samples(Succeeding(net, host, prefix), lat, total))
  {
    var run := new ClosedLoop(net, host, prefix, lat, total, concurrency);
    run.Finish();
    var ok := Succeeding(net, host, prefix);
    SuccessesAreSamples(net, host, prefix, lat, |run.submitted|);
    SamplesCount(ok, lat, |run.submitted|);
    forall k
      ensures ok(k) == Succeeds(net, host, prefix, k)
    {
    }
    var latencies, sum, count := Collect(run.channel);
    s := Summarize(latencies, sum, count);
  }
}
