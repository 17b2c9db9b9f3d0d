/** The open-loop benchmark's `main` (kvbench/main.go): two seed writes, one
    detached `postTx` per timer tick carrying the tick counter as 8
    little-endian bytes under key `acc2`, and the final read-back that sums
    the queried value as consecutive 8-byte little-endian words. */
module KvRun {
  import opened GoBytes
  import LittleEndian
  import Rpc
  import KvClient

  const ACC1_SEED := Ascii("acc1=10000000")
  const ACC2_SEED := Ascii("acc2=0")
  const ACC2_KEY := Ascii("acc2=")
  const QUERY_KEY := Ascii("acc2")

  /** The payload of the tick whose counter value is `v`. */
  function TickPayload(v: uint64): seq<byte>
  {
    ACC2_KEY + LittleEndian.LE8(v)
  }

  /** The payloads of `n` ticks that follow a counter value of `start`. */
  function TickPayloads(start: uint64, n: nat): (r: seq<seq<byte>>)
    ensures |r| == n
  {
    seq(n, k => TickPayload((start + k + 1) % U64))
  }

  /** One more tick appends the payload of the next counter value. */
  lemma TickPayloadsNext(start: uint64, n: nat)
    ensures TickPayloads(start, n + 1) == TickPayloads(start, n) + [TickPayload((start + n + 1) % U64)]
  {
    assert TickPayloads(start, n + 1)[..n] == TickPayloads(start, n);
  }

  /** The consecutive whole 8-byte little-endian words of `s`, front to back;
      fewer than 8 trailing bytes are not a word. */
  function Words(s: seq<byte>): seq<uint64>
    decreases |s|
  {
    if |s| < 8 then [] else [LittleEndian.Uint64(s)] + Words(s[8..])
  }

  /** The mathematical sum of the words. */
  function Total(ws: seq<uint64>): nat
  {
    if ws == [] then 0 else Total(ws[..|ws| - 1]) + ws[|ws| - 1]
  }

  /** The uint64 sum of the words of `s`, wrapping modulo 2^64. */
  function WordSum(s: seq<byte>): uint64
  {
    Total(Words(s)) % U64
  }

  /** The sum read front to back: nothing for fewer than 8 bytes, otherwise
      the first word plus the sum of the rest, modulo 2^64. */
  lemma WordSumFront(s: seq<byte>)
    ensures |s| < 8 ==> WordSum(s) == 0
    ensures |s| >= 8 ==> WordSum(s) == (LittleEndian.Uint64(s) + WordSum(s[8..])) % U64
  {
    if |s| >= 8 {
      TotalPrepend(LittleEndian.Uint64(s), Words(s[8..]));
      ModAdd(Total(Words(s[8..])), LittleEndian.Uint64(s));
    }
  }

  lemma {:induction false} TotalPrepend(w: uint64, ws: seq<uint64>)
    ensures Total([w] + ws) == w + Total(ws)
  {
    if ws != [] {
      var front := ws[..|ws| - 1];
      TotalPrepend(w, front);
      assert ([w] + ws)[..|ws|] == [w] + front;
    }
  }

  /** The bytes an append-style store would hold after writes carrying the
      counters `cs`, in order. */
  function Concat8(cs: seq<uint64>): seq<byte>
  {
    if cs == [] then [] else LittleEndian.LE8(cs[0]) + Concat8(cs[1..])
  }

  /** The counter values 1..n. */
  function Counters(n: nat): (r: seq<uint64>)
    requires n < U64
    ensures |r| == n
  {
    seq(n, k requires 0 <= k < n => k + 1)
  }

  /** The read-back loop of `main`: add up the whole 8-byte words of `val`
      with uint64 wrap-around, skipping a trailing partial word. */
  method SumWords(val: seq<byte>) returns (total: uint64)
    ensures total == WordSum(val)
  {
    total := 0;
    var i := 0;
    while i + 8 <= |val|
      invariant 0 <= i <= |val| && i % 8 == 0
      invariant total == Total(Words(val[..i])) % U64
    {
      WordsStep(val, i);
      total := (total + LittleEndian.Uint64(val[i..i + 8])) % U64;
      i := i + 8;
    }
    WordsIgnoreTail(val[..i], val[i..]);
    assert val[..i] + val[i..] == val;
  }

  lemma WordsStep(val: seq<byte>, i: nat)
    requires i % 8 == 0 && i + 8 <= |val|
    ensures Total(Words(val[..i + 8])) % U64
         == (Total(Words(val[..i])) % U64 + LittleEndian.Uint64(val[i..i + 8])) % U64
  {
    var ws, w := Words(val[..i]), LittleEndian.Uint64(val[i..i + 8]);
    WordsOfNext(val, i);
    TotalAppend(ws, w);
    ModAdd(Total(ws), w);
  }

  /** The words of a prefix grow by one word every 8 bytes. */
  lemma WordsOfNext(val: seq<byte>, i: nat)
    requires i % 8 == 0 && i + 8 <= |val|
    ensures Words(val[..i + 8]) == Words(val[..i]) + [LittleEndian.Uint64(val[i..i + 8])]
  {
    var chunk := val[i..i + 8];
    WordsAppend(val[..i], chunk);
    assert val[..i] + chunk == val[..i + 8];
    assert chunk[8..] == [];
    assert Words(chunk) == [LittleEndian.Uint64(chunk)];
  }

  lemma TotalAppend(ws: seq<uint64>, w: uint64)
    ensures Total(ws + [w]) == Total(ws) + w
  {
    assert (ws + [w])[..|ws|] == ws;
  }

  lemma ModAdd(a: nat, b: nat)
    ensures (a + b) % U64 == (a % U64 + b) % U64
  {
  }

  /** Splitting at a multiple of 8 splits the words. */
  lemma {:induction false} WordsAppend(a: seq<byte>, b: seq<byte>)
    requires |a| % 8 == 0
    ensures Words(a + b) == Words(a) + Words(b)
    decreases |a|
  {
    if |a| > 0 {
      WordsAppend(a[8..], b);
      assert (a + b)[8..] == a[8..] + b;
      assert (a + b)[..8] == a[..8];
    } else {
      assert a + b == b;
    }
  }

  /** The loop reads exactly |s| / 8 words, the k-th from bytes 8k..8k+8. */
  lemma {:induction false} WordsAreWholeWords(s: seq<byte>)
    ensures |Words(s)| == |s| / 8
    ensures forall k | 0 <= k < |s| / 8 :: Words(s)[k] == LittleEndian.Uint64(s[8 * k..8 * k + 8])
    decreases |s|
  {
    if |s| >= 8 {
      WordsAreWholeWords(s[8..]);
      forall k | 0 <= k < |s| / 8
        ensures Words(s)[k] == LittleEndian.Uint64(s[8 * k..8 * k + 8])
      {
        if k > 0 {
          assert s[8..][8 * (k - 1)..8 * (k - 1) + 8] == s[8 * k..8 * k + 8];
        } else {
          assert s[..8] == s[0..8][..8];
        }
      }
    }
  }

  /** Fewer than 8 trailing bytes do not change the words. */
  lemma WordsIgnoreTail(s: seq<byte>, tail: seq<byte>)
    requires |s| % 8 == 0 && |tail| < 8
    ensures Words(s + tail) == Words(s)
  {
    WordsAppend(s, tail);
    assert Words(tail) == [];
    assert Words(s) + [] == Words(s);
  }

  /** Reading back what the 8-byte encodings of `cs` concatenate to gives `cs`. */
  lemma {:induction false} WordsOfConcat8(cs: seq<uint64>)
    ensures Words(Concat8(cs)) == cs
  {
    if cs != [] {
      var e := LittleEndian.LE8(cs[0]);
      WordsOfConcat8(cs[1..]);
      assert (e + Concat8(cs[1..]))[8..] == Concat8(cs[1..]);
      assert (e + Concat8(cs[1..]))[..8] == e == e[..8];
      assert LittleEndian.Uint64(e + Concat8(cs[1..])) == LittleEndian.Uint64(e);
      LittleEndian.Uint64LE8(cs[0]);
      assert cs == [cs[0]] + cs[1..];
    }
  }

  /** The sum of the counters 1..n is n(n+1)/2. */
  lemma {:induction false} TotalOfCounters(n: nat)
    requires n < U64
    ensures 2 * Total(Counters(n)) == n * (n + 1)
  {
    if n > 0 {
      TotalOfCounters(n - 1);
      assert Counters(n)[..n - 1] == Counters(n - 1);
    }
  }

  /** A value made of the 8-byte encodings of the counters 1..n, and of
      nothing else, sums to n(n+1)/2 modulo 2^64. */
  lemma AppendedTicksSum(n: nat)
    requires n < U64
    ensures 2 * Total(Counters(n)) == n * (n + 1)
    ensures WordSum(Concat8(Counters(n))) == Total(Counters(n)) % U64
  {
    WordsOfConcat8(Counters(n));
    TotalOfCounters(n);
  }

  /** The seed write `acc2=0` stores the one byte "0". A value that kept it
      in front of the ticks' encodings would be read in words shifted by
      one byte: after one tick the sum is 304, not 1. */
  lemma SeedMisalignsWords()
    ensures WordSum(ACC2_SEED[5..] + Concat8(Counters(1))) == 304
  {
    var v := ACC2_SEED[5..] + Concat8(Counters(1));
    SeedThenOne(v);
    FirstWord304(v);
    WordSumFront(v);
    WordSumFront(v[8..]);
  }

  lemma SeedThenOne(v: seq<byte>)
    requires v == ACC2_SEED[5..] + Concat8(Counters(1))
    ensures v == [48, 1, 0, 0, 0, 0, 0, 0, 0]
  {
    assert Concat8(Counters(1)) == LittleEndian.LE8(1);
  }

  lemma FirstWord304(v: seq<byte>)
    requires v == [48, 1, 0, 0, 0, 0, 0, 0, 0]
    ensures LittleEndian.Uint64(v) == 304 && |v[8..]| < 8
  {
    var w := v[..8];
    assert w[1..][1..] == [0, 0, 0, 0, 0, 0];
    ZerosAreZero(w[1..][1..]);
    assert LittleEndian.Value(w[1..]) == 1;
    assert LittleEndian.Value(w) == 304;
  }

  lemma {:induction false} ZerosAreZero(s: seq<byte>)
    requires forall i | 0 <= i < |s| :: s[i] == 0
    ensures LittleEndian.Value(s) == 0
  {
    if s != [] {
      ZerosAreZero(s[1..]);
    }
  }

  /** A tick payload is "acc2=" and 8 bytes, 13 in all, and the 8 bytes read
      back as the counter. */
  lemma TickPayloadReadsBack(v: uint64)
    ensures |TickPayload(v)| == 13
    ensures TickPayload(v)[..5] == ACC2_KEY
    ensures LittleEndian.Uint64(TickPayload(v)[5..]) == v
  {
    assert TickPayload(v)[5..] == LittleEndian.LE8(v);
    LittleEndian.Uint64LE8(v);
  }

  /** What `main` prints at the end. */
  datatype Report = Report(sent: uint64, committed: uint64, expected: int)

  /** The state of `main` during the run: the tick counter and the payloads
      handed to detached `postTx` calls, whose results are discarded. */
  class OpenLoop {
    const net: Rpc.Network
    const host: seq<byte>
    var sent: uint64
    var posted: seq<seq<byte>>

    /** Starts the run with the two bootstrap writes. */
    constructor (net: Rpc.Network, host: seq<byte>)
      ensures this.net == net && this.host == host
      ensures sent == 0 && posted == [ACC1_SEED, ACC2_SEED]
    {
      this.net := net;
      this.host := host;
      sent := 0;
      posted := [ACC1_SEED, ACC2_SEED];
    }

    /** One timer tick: bump the counter, write it into a fresh 8-byte buffer
        and dispatch "acc2=" plus those bytes. */
    method Tick()
      modifies this
      ensures sent == (old(sent) + 1) % U64
      ensures posted == old(posted) + [TickPayload(sent)]
    {
      sent := (sent + 1) % U64;
      var buf := new byte[8];
      LittleEndian.PutUint64(buf, sent);
      assert buf[..] == buf[..8];
      var kv := ACC2_KEY + buf[..];
      posted := posted + [kv];
    }

    /** The tick loop until the deadline, which lets `ticks` ticks fire. */
    method Run(ticks: nat)
      modifies this
      ensures sent == (old(sent) + ticks) % U64
      ensures posted == old(posted) + TickPayloads(old(sent), ticks)
    {
      var n := 0;
      while n < ticks
        invariant 0 <= n <= ticks
        invariant sent == (old(sent) + n) % U64
        invariant posted == old(posted) + TickPayloads(old(sent), n)
      {
        TickPayloadsNext(old(sent), n);
        ModAdd(old(sent) + n, 1);
        Tick();
        n := n + 1;
      }
    }

    /** The read-back: query "acc2"; a failed query leaves the value nil, so
        the committed total is 0. */
    method ReadBack() returns (total: uint64)
      ensures var q := KvClient.Query(net, host, QUERY_KEY);
        total == if q.Ok? then WordSum(q.value) else 0
    {
      var q := KvClient.Query(net, host, QUERY_KEY);
      var val: seq<byte> := if q.Ok? then q.value else [];
      total := SumWords(val);
    }
  }

  /** `time.Second` in nanoseconds. */
  const SECOND := 1_000_000_000

  /** The ticker period `time.Second / time.Duration(tps)`. Go's integer
      division truncates toward zero, and a zero `tps` is a division-by-zero
      panic. The period is positive exactly for 1 <= tps <= 10^9. */
  function TickInterval(tps: int): (d: int)
    requires tps != 0
    ensures d > 0 <==> 0 < tps <= SECOND
  {
    if tps > 0 then SECOND / tps else -(SECOND / -tps)
  }

  const INT64_MIN := -0x8000_0000_0000_0000
  const INT64_MAX := 0x7fff_ffff_ffff_ffff

  /** Two's-complement wrap-around of an int64 (Go `int`) result. */
  function Wrap64(x: int): (r: int)
    ensures INT64_MIN <= r <= INT64_MAX
    ensures INT64_MIN <= x <= INT64_MAX ==> r == x
    ensures (r - x) % U64 == 0
  {
    (x - INT64_MIN) % U64 + INT64_MIN
  }

  /** `main` after flag parsing: bootstrap, `ticks` ticks (as many as fired
      within the duration), cool-down, read-back. `time.NewTicker` panics
      unless its period is positive. */
  method Benchmark(net: Rpc.Network, host: seq<byte>, tps: int, duration: int, ticks: nat)
    returns (report: Report)
    requires tps != 0 && TickInterval(tps) > 0
    ensures report.sent == ticks % U64
    ensures report.expected == Wrap64(tps * duration)
    ensures var q := KvClient.Query(net, host, QUERY_KEY);
      report.committed == if q.Ok? then WordSum(q.value) else 0
  {
    var run := new OpenLoop(net, host);
    run.Run(ticks);
    var committed := run.ReadBack();
    report := Report(run.sent, committed, Wrap64(tps * duration));
  }
}
