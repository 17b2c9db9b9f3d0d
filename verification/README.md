# Tendermint RPC load generators, modelled in Dafny

The repository holds two Go load generators for a Tendermint node's RPC
interface.

- `bench_tendermint.go` is a closed-loop benchmark. `concurrency` workers
  claim indices from one atomic int32 counter. For each index below `total`,
  a worker submits the kvstore transaction `<prefix>_<i>=<i>` through
  `/broadcast_tx_commit?tx=0x<hex>` and classifies the reply by its status
  and a substring check. Each success's latency goes to a channel. The
  collector then sums, counts and sorts the latencies and reports the mean
  and the nearest-rank p50, p95 and p99.
- `kvbench/main.go` is an open-loop benchmark. It makes two seed writes, then
  on every timer tick it writes `acc2=` followed by the tick counter as
  8 little-endian bytes. At the end it queries `acc2` and adds the value up
  as consecutive 8-byte little-endian words, with uint64 wrap-around. It
  finds the value by plain substring search for `"value":"` and base64
  decoding.

The model works on byte strings (`seq<byte>`). The Go library functions the
core calls are written out:

- `bytes.Index`, `Contains`, `Split`, `SplitN`, `strings.ReplaceAll` on one
  byte;
- `strconv.Itoa`;
- `hex.EncodeToString`;
- `base64.StdEncoding.DecodeString` (section 4 of RFC 4648);
- `binary.LittleEndian.PutUint64` and `Uint64`.

The core never calls `hex.DecodeString`, `strconv.Atoi`, `bytes.Join` or
base64 encoding.
They are written out here only as reference definitions, so that the
functions the core does call can be proved against an inverse:
- hex-decoding the `tx` parameter gives the payload back;
- `Atoi` reads both numbers in a payload back as the index;
- joining the pieces of `Split` gives the input back;
- decoding an encoded value gives the value back.

The network is a function from request (`POST url` or `GET url`) to reply
(a transport error, or a status and a body). Latencies are given per index,
and the open loop's run is given as a number of ticks.

Modules:

- `Results` holds `Option`, `Result` and `Outcome`.
- `GoBytes`, `Strconv`, `Hex`, `Base64` and `LittleEndian` model the library
  functions.
- `Rpc` builds the URLs.
- `BenchTx` holds `makeTx` and `broadcastTxCommit`.
- `BenchRun` is the closed loop's `main`.
- `KvClient` holds `postTx` and `query`.
- `KvRun` is the open loop's `main`.

The closed loop's shared state is the class `BenchRun.ClosedLoop`. Its
invariant `Valid()` says:

- the k-th claim submitted `makeTx(k)`;
- every claim at or past `total` retired a worker;
- the channel holds the latencies of the successful indices, in index order;
- errors plus samples equal submissions.

`Step` is one whole iteration of one worker's loop, taken as an indivisible
step: the claim, building the payload, the POST and the hand-off to the
channel. It keeps the invariant. `Drive` runs any schedule of such steps, so
it covers any interleaving of whole iterations. `Finish` runs every worker
to completion.

Go can also interleave inside an iteration: another worker may claim
between one worker's claim and its POST. Such a finer interleaving changes
only two things:
- the order in which payloads reach the node;
- the order in which latencies reach the channel.

Under the model's assumption that the node's answer depends only on the
request (`Rpc.Network` is a function), it changes neither which indices are
claimed nor which of them succeed. The statistics depend only on the
multiset of latencies:
- the sorted slice is determined by the multiset (`Summarizes`);
- the sum is determined by the multiset (`SumPermutation`).

That argument is not itself a proved theorem of the model.

## Model

| member | source | states |
|---|---|---|
| BenchTx.MakeTx | bench_tendermint.go:54-59 | the payload starts with the prefix and '_', and is \|prefix\| + 2 + twice the number of decimal digits long |
| BenchTx.Classify | bench_tendermint.go:80-89 | a reply is a success exactly when its status is 200, its body is non-empty and contains `"code":0`; a failure is never a transport error, and a rejection's text is as long as the body |
| BenchTx.BroadcastTxCommit | bench_tendermint.go:61-90 | the submission fails with a transport error exactly when the HTTP client does |
| BenchTx.MakeTxInjective | bench_tendermint.go:54-59 | under one prefix, equal payloads come from equal indices |
| BenchTx.KeyValueLayout | bench_tendermint.go:56-58 | `<prefix>_<key>=<val>` has the prefix, then '_', the key, '=' and the value at the positions their lengths give |
| BenchTx.MakeTxReadsBack | bench_tendermint.go:54-59 | the payload is prefix, '_', decimal i, '=', decimal i (length \|prefix\|+2+2·digits), and both numbers parse back to i |
| Strconv.FormatNat | bench_tendermint.go:56-57 | the decimal text is non-empty, all digits, without a leading zero, and its value is n |
| Strconv.AtoiItoa | bench_tendermint.go:56-57 | parsing `Itoa(i)` gives i back, so the decimal text of an index determines it |
| Strconv.ItoaInjective | bench_tendermint.go:56-57 | distinct integers have distinct decimal texts |
| Hex.Digit | bench_tendermint.go:63 | the lower-case hex digit of n reads back as n |
| Hex.EncodeToString | bench_tendermint.go:63 | the hex text is twice as long as the payload |
| Hex.DecodeEncode | bench_tendermint.go:63 | hex decoding inverts hex encoding |
| Hex.EncodeIsLowerHex | bench_tendermint.go:63 | every character of the encoding is 0-9 or a-f |
| Rpc.TxParam | bench_tendermint.go:63 | the parameter is "0x" followed by two characters per payload byte |
| Rpc.BroadcastUrl | bench_tendermint.go:63-64 | the URL starts with `http://`, the host and `/broadcast_tx_commit?tx=`, and ends in the `tx` parameter |
| Rpc.QueryUrl | kvbench/main.go:34 | the URL starts with `http://`, the host and `/abci_query?data=`, and ends in the key between double quotes |
| Rpc.TxParamDecodes | bench_tendermint.go:63-64 | the `tx` parameter is "0x" plus 2·\|tx\| hex digits, and decoding what follows "0x" returns the payload |
| Rpc.TxParamInjective | bench_tendermint.go:63-64 | distinct payloads give distinct `tx` parameters |
| Rpc.BroadcastUrlDetermines | bench_tendermint.go:64 | for a fixed host, the broadcast URL determines the payload |
| GoBytes.IndexFrom | bench_tendermint.go:85 | the result is the first occurrence of the separator at or after `from`, or -1 when there is none |
| GoBytes.Index | kvbench/main.go:44 | the result is the first occurrence of the separator, and -1 exactly when it occurs nowhere |
| GoBytes.ReplaceByteAt | bench_tendermint.go:87 | the replacement keeps the length, puts `to` at each position holding `from`, and keeps every other byte |
| BenchTx.StatusCheckedFirst | bench_tendermint.go:80-83 | an empty body or a status other than 200 is "bad HTTP" with that status, whatever the body says |
| BenchTx.BroadcastSucceedsExactly | bench_tendermint.go:72-89 | a submission succeeds exactly when the reply is a 200 with a non-empty body that contains `"code":0` |
| BenchTx.RejectionFlattensBody | bench_tendermint.go:84-88 | a 200 reply without `"code":0` is a rejection whose text has the body's length, no newline, a space wherever the body has a newline, and every other byte of the body |
| BenchTx.ReplyErrorsAreOneLine | bench_tendermint.go:81-88 | every error derived from a reply prints without a newline |
| BenchRun.Wrap32 | bench_tendermint.go:113 | an int32 result is the exact sum when that fits, and otherwise differs from it by a multiple of 2^32 |
| BenchRun.PayloadAt | bench_tendermint.go:117 | the k-th payload of a run is `makeTx(k)` |
| BenchRun.ClaimsNext | bench_tendermint.go:113-117 | a running worker's claim never reaches the int32 maximum; a claim at or past `total` retires that worker, and one below `total` is the next unsubmitted index |
| BenchRun.Successes | bench_tendermint.go:119-123 | after n submissions the channel holds at most n latencies (`SuccessesAreSamples` and `SamplesCount` give which) |
| BenchRun.ClosedLoop.constructor | bench_tendermint.go:101-108 | the run starts with the counter at 0, no submissions, an empty channel and the invariant, for any `-c`, a value of zero or less starting no worker |
| BenchRun.ClosedLoop.Claim | bench_tendermint.go:113 | the counter goes up by one with int32 wrap-around, the index is the new value less one, and below the maximum the index is the old value |
| BenchRun.ClaimPastMaximum | bench_tendermint.go:113-114 | a claim made at the int32 maximum yields a negative index, which passes the `idx >= total` guard |
| BenchRun.ClosedLoop.Step | bench_tendermint.go:112-124 | one pass of a worker keeps the invariant; at or past `total` it retires the worker and submits nothing, below `total` it submits `makeTx` of the claimed index |
| BenchRun.ClosedLoop.Submit | bench_tendermint.go:117-123 | the claimed index's payload is appended to the submissions, and its latency reaches the channel exactly when the node accepts it, otherwise the error count rises, keeping the invariant |
| BenchRun.ClosedLoop.Drive | bench_tendermint.go:108-126 | any interleaving of worker steps keeps the invariant, and never removes a submission or revives a worker |
| BenchRun.ClosedLoop.Finish | bench_tendermint.go:107-132 | when all workers have returned (and there is a worker at all), the submissions are exactly `makeTx(0..total-1)` and the channel holds exactly the latencies of the indices whose submission succeeded, one per success (`Samples` of the node's verdicts); with no worker nothing is submitted |
| BenchRun.WorkerSetBound | bench_tendermint.go:108 | at most `concurrency` workers can retire |
| BenchRun.PayloadsDistinct | bench_tendermint.go:113-117 | no index is submitted twice: the payloads submitted are pairwise distinct |
| BenchRun.SamplesCount | bench_tendermint.go:119-123 | at most one sample per index, and no samples exactly when no submission succeeds |
| BenchRun.SamplesPerSuccess | bench_tendermint.go:119-123 | the number of samples equals the number of successful submissions |
| BenchRun.AllSucceed | bench_tendermint.go:119-123 | when every submission succeeds, there are `total` samples, the k-th being index k's latency |
| BenchRun.SumPermutation | bench_tendermint.go:140-144 | the sum of the latencies depends only on their multiset, not on the order in which they reach the channel |
| BenchRun.Collect | bench_tendermint.go:140-144 | the collected slice is the channel's contents, `sum` is their sum, and `count` is their number |
| BenchRun.SortInPlace | bench_tendermint.go:151 | the array ends ascending and is a permutation of what it held |
| BenchRun.InsertNext | bench_tendermint.go:151 | moving the next element into an ascending prefix extends the ascending prefix by one and permutes the array, leaving the rest of the array as it was |
| BenchRun.Swap | bench_tendermint.go:151 | exchanging two neighbours changes only those two positions and permutes the array |
| BenchRun.SortedExtremes | bench_tendermint.go:151-155 | a sorted permutation has the same length, starts at the least sample and ends at the greatest |
| BenchRun.PercentileRanks | bench_tendermint.go:152-154 | for count ≥ 1, count/2 ≤ ⌊0.95·count⌋ ≤ ⌊0.99·count⌋ < count |
| BenchRun.SumBounds | bench_tendermint.go:142-155 | samples between lo and hi give a sum between lo·n and hi·n |
| BenchRun.MeanBounds | bench_tendermint.go:155 | the truncated mean of such a sum lies between lo and hi |
| BenchRun.Summarize | bench_tendermint.go:146-155 | no statistics exactly when count is 0; otherwise `Summarizes`: the ascending permutation of the samples, p50 ≤ p95 ≤ p99 ≤ max taken at ranks n/2, ⌊0.95n⌋, ⌊0.99n⌋, and the truncated mean Sum/n, which lies between min and max |
| BenchRun.Benchmark | bench_tendermint.go:96-155 | the run reports nothing exactly when `-c` is 0 or less or no index below `total` succeeds; otherwise the report `Summarizes` the latencies of the successful indices: sorted permutation, the three percentiles at their ranks in order, the mean Sum/n between min and max |
| KvClient.PostTx | kvbench/main.go:21-31 | `postTx` succeeds on any HTTP reply, whatever its status or body, and fails, with the client's error text, only on a transport error |
| GoBytes.Split | kvbench/main.go:44 | splitting gives at least one piece |
| GoBytes.SplitPieces | kvbench/main.go:44-45 | there are two or more pieces exactly when the separator occurs, and no piece contains the separator |
| GoBytes.JoinSplit | kvbench/main.go:44 | joining the pieces with the separator gives the input back |
| GoBytes.SplitN | kvbench/main.go:48 | splitting into at most n pieces gives between 1 and n pieces |
| GoBytes.IndexOfPrefix | kvbench/main.go:48 | the first occurrence in a prefix is the first occurrence in the whole, if it fits in the prefix, and none otherwise |
| KvClient.ExtractValue | kvbench/main.go:44-48 | "no value" exactly when `"value":"` occurs nowhere in the body, no other error, and the token never holds a '"' |
| KvClient.NoQuoteBeforeFirst | kvbench/main.go:48 | the first piece of a split at '"' into at most two holds no '"' |
| KvClient.ExtractFirstValue | kvbench/main.go:44-48 | the token runs from just after the first `"value":"` to the next '"', or to the end of the body when none follows |
| KvClient.CutAtQuote | kvbench/main.go:44-48 | since `"value":"` opens with '"', cutting at the next marker and then at the first '"' is cutting at the first '"' |
| KvClient.QueryReadsEncodedValue | kvbench/main.go:44-49 | a body with the base64 of a value after its first `"value":"`, closed by '"', decodes to that value |
| KvClient.DecodeValue | kvbench/main.go:44-49 | the body yields "no value" exactly when the marker occurs nowhere, and never a transport error |
| KvClient.Query | kvbench/main.go:33-50 | the query reports a transport error exactly when the HTTP client fails |
| Base64.DecodeString | kvbench/main.go:49 | a successful decoding yields at most three bytes per four input characters |
| Base64.DecodeQuanta | kvbench/main.go:49 | only whole four-character quanta decode, each to three bytes except the last, which gives one to three |
| Base64.CharOf | kvbench/main.go:49 | no base64 alphabet character is '=', '"', CR or LF |
| Base64.ValueOfCharOf | kvbench/main.go:49 | decoding an alphabet character inverts encoding it |
| Base64.DropNewlines | kvbench/main.go:49 | after the decoder drops CR and LF, none remain |
| Base64.DropNewlinesKeeps | kvbench/main.go:49 | text without CR or LF passes through unchanged |
| Base64.EncodeToString | kvbench/main.go:49 | the encoding is whole 4-character quanta and contains no '"', CR or LF |
| Base64.DecodeEncode | kvbench/main.go:49 | decoding the encoding of a value gives the value back |
| Base64.DecodeQuantaEncode | kvbench/main.go:49 | the quantum decoder inverts the encoder |
| Base64.DecodeQuantum1 | kvbench/main.go:49 | a final quantum "xx==" decodes to its one byte |
| Base64.DecodeQuantum2 | kvbench/main.go:49 | a final quantum "xxx=" decodes to its two bytes |
| Base64.DecodeQuantum3 | kvbench/main.go:49 | a full quantum decodes to its three bytes in front of what the rest decodes to |
| Base64.Quantum3Values | kvbench/main.go:49 | the four characters of a full quantum decode to the 6-bit groups of its bytes, which reassemble into those bytes |
| Base64.GroupsReassemble | kvbench/main.go:49 | splitting three bytes into four 6-bit groups and joining the groups back gives the bytes |
| LittleEndian.PutUint64 | kvbench/main.go:74-75 | the buffer's first 8 bytes become the little-endian encoding of v, and the rest is untouched |
| LittleEndian.Uint64Encodes | kvbench/main.go:92 | the number `Uint64` reads is the one `PutUint64` writes as exactly those 8 bytes |
| LittleEndian.ValueBytes | kvbench/main.go:92 | reading n little-endian bytes back gives the value that was written |
| LittleEndian.BytesValue | kvbench/main.go:75 | writing the value that n bytes read as gives those bytes back |
| LittleEndian.Uint64LE8 | kvbench/main.go:75-92 | `Uint64` inverts `PutUint64` |
| LittleEndian.LE8Injective | kvbench/main.go:75 | distinct counters give distinct 8-byte encodings |
| KvRun.WordSumFront | kvbench/main.go:90-93 | the sum is 0 for fewer than 8 bytes, otherwise the first word plus the sum of the rest, modulo 2^64 |
| KvRun.SeedMisalignsWords | kvbench/main.go:57-93 | a value that kept the seed's "0" in front of the first tick's 8 bytes would sum to 304, not 1 |
| KvRun.TickInterval | kvbench/main.go:61 | the ticker period `time.Second / tps`, truncated toward zero, is positive exactly for 1 ≤ tps ≤ 10^9 |
| KvRun.OpenLoop.constructor | kvbench/main.go:55-57 | the run starts with the two seed writes and the counter at 0 |
| KvRun.OpenLoop.Tick | kvbench/main.go:68-77 | a tick raises the counter by one (mod 2^64) and posts "acc2=" plus its 8 little-endian bytes |
| KvRun.TickPayloadsNext | kvbench/main.go:68-77 | one more tick appends the payload of the next counter value (mod 2^64) |
| KvRun.OpenLoop.Run | kvbench/main.go:65-82 | after n ticks the counter has risen by n and the k-th tick posted counter value old+k |
| KvRun.TickPayloadReadsBack | kvbench/main.go:73-76 | a tick payload is 13 bytes, "acc2=" then 8 bytes that read back as the counter |
| KvRun.SumWords | kvbench/main.go:90-93 | the loop's total is the uint64 sum of the whole 8-byte words of the value |
| KvRun.WordsStep | kvbench/main.go:91-92 | one iteration adds the next 8-byte word to the running total modulo 2^64 |
| KvRun.WordsOfNext | kvbench/main.go:91-92 | the words of a prefix grow by the next 8-byte word every 8 bytes |
| KvRun.WordsAreWholeWords | kvbench/main.go:91-92 | the loop reads ⌊len/8⌋ words, the k-th from bytes 8k..8k+8 |
| KvRun.WordsIgnoreTail | kvbench/main.go:91 | fewer than 8 trailing bytes do not change the words read |
| KvRun.WordsAppend | kvbench/main.go:91-92 | splitting the value at a multiple of 8 splits its words |
| KvRun.WordsOfConcat8 | kvbench/main.go:90-93 | a blob of concatenated 8-byte encodings reads back as the encoded counters |
| KvRun.TotalOfCounters | kvbench/main.go:69-93 | the counters 1..n add up to n(n+1)/2 |
| KvRun.AppendedTicksSum | kvbench/main.go:90-93 | a value made only of the 8-byte encodings of 1..n sums to n(n+1)/2 mod 2^64 |
| KvRun.OpenLoop.ReadBack | kvbench/main.go:89-93 | the committed total is the word sum of the queried value, or 0 when the query fails |
| KvRun.Benchmark | kvbench/main.go:52-96 | for a `tps` whose ticker period is positive (Go panics otherwise), the report carries the tick count, the word sum of the queried value (0 on failure) and tps·duration wrapped to an int64 |
| KvRun.Wrap64 | kvbench/main.go:95 | a Go `int` (int64) result is the exact value when that fits, and otherwise differs from it by a multiple of 2^64 |

## Left out

- Network I/O: requests are values, and the node with the HTTP client is the
  function `Rpc.Network`. Request construction errors are not modelled:
  every URL the model builds is accepted. The content-type headers, and
  reading, discarding and closing bodies, are not modelled either.
- Goroutines, `sync.WaitGroup` and the channel's close: the model runs the
  workers as a sequence of indivisible steps, each one whole loop iteration.
  `Drive` accepts any schedule of them, and `Finish` is one such schedule.
  Interleavings inside an iteration, such as a claim by another worker
  between one worker's claim and its POST, are not modelled. They reorder
  only the submissions and the hand-offs to the channel.
- BenchRun.ClosedLoop.Finish: the submissions and the channel are in claim
  order, while in Go payloads reach the node and latencies reach the channel
  in whatever order the goroutines run.
  - The statistics depend only on the multiset of samples. `Summarizes`
    fixes the sorted slice by its multiset, and `SumPermutation` proves that
    the sum ignores order.
  - That no other order changes the outcome is argued above, not proved.
- Wall-clock time: `time.Since` is the per-index parameter `lat`. For the
  open loop, the ticker and `time.After` are replaced by the number of ticks
  that fired. The 20-second sleep is not modelled.
- The throughput figure `count / avg.Seconds()` is floating point and is not
  modelled. The same goes for the report's `fmt` formatting and flag parsing.
- BenchRun.Summarize: the p95 and p99 ranks are the exact integer floors
  `count*95/100` and `count*99/100`, while Go computes them in float64
  (`int(float64(count)*0.95)`). For every count below 2^31 the two agree, and
  every count a run can reach qualifies, since count ≤ total < 2^31. The
  argument, which is not itself proved in the model:
  - The float64 constants 0.95 and 0.99 lie below their true values, by the
    relative amounts 4.7e-17 and 9e-18.
  - Both are less than 2^-54, the smallest relative half-ulp. So when the
    exact product is an integer, the float64 product rounds back to it.
  - Otherwise the exact product's fractional part is a multiple of 0.05
    (or of 0.01). Its distance to the next integer is then far larger than
    the rounding error, so truncation gives the same floor.
- BenchRun.ClosedLoop.constructor requires `total >= 0`, because `make(chan,
  n)` panics for a negative n. Any `-c` is accepted; zero or less starts no
  worker. When there is a worker, it also requires `total + concurrency` to
  fit in an int32. Past that the counter wraps, and `ClaimPastMaximum` shows
  that the wrapped claim slips past the guard. BenchRun.Benchmark requires
  the same.
- KvRun.Benchmark requires a positive ticker period (`TickInterval`). For
  `tps` 0, Go's division panics. For a negative `tps` or one above 10^9,
  `time.NewTicker` panics on a period of zero or less.
- BenchRun.Collect: `sum` is unbounded. Go's `time.Duration` is an int64,
  whose overflow is not modelled.
- KvRun.OpenLoop.ReadBack: when the base64 token is malformed, Go's decoder
  returns the bytes decoded before the error, and `main` would sum those.
  The model sums nothing, as for every other failed query.
- Strconv.Atoi has no int64 range check: it is used only as the inverse of
  `Itoa`.
- GoBytes.Split and GoBytes.SplitN require a non-empty separator. Go's
  separate behaviour for an empty separator is never used by the source.
- The bootstrap writes' results and the detached `postTx` results are
  discarded in Go. The model records the payloads posted, not the replies.
- LittleEndian.PutUint64 writes its 8 bytes in a loop that divides a
  running copy of v by 256 on each pass. Go's version is eight straight-line
  assignments `b[k] = byte(v >> 8k)`. The loop writes the same bytes in the
  same order, `b[0]` first and `b[7]` last.
- `profile.py` is a testbed provisioning script with no logic of the
  benchmarks; it is not part of this model.
- The store's semantics are not modelled. The model states the sum of
  whatever the query returns. A store that replaced the value on every write
  would return the last counter. A value holding only the ticks' 8-byte
  encodings would sum to n(n+1)/2 (`AppendedTicksSum`). The seed `acc2=0`
  stores one byte, "0", though. A value that kept it in front of the ticks'
  bytes would be read in words shifted by one byte: after one tick it sums
  to 304 (`SeedMisalignsWords`). The printed `expected≥` is only the lower
  bound tps·duration.
