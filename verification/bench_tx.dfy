/** The helpers of the closed-loop benchmark (bench_tendermint.go): the
    transaction payload `<prefix>_<i>=<i>` and one `/broadcast_tx_commit`
    call with its light-weight reading of the reply. */
module BenchTx {
  import opened GoBytes
  import opened Results
  import Strconv
  import Rpc

  const UNDERSCORE: byte := 95
  const EQUALS: byte := 61

  /** The literal the node's reply must contain for a commit to count. */
  const CODE_OK := Ascii("\"code\":0")
  const BAD_HTTP := Ascii("bad HTTP ")
  const TX_REJECTED := Ascii("tx rejected: ")

  /** Why one submission failed. */
  datatype TxError =
    | Transport(msg: seq<byte>)   // the HTTP client's own error
    | BadHttp(status: int)        // empty body or a status other than 200
    | Rejected(detail: seq<byte>) // a 200 reply without `"code":0`; the body with newlines flattened

  /** `makeTx`: the kvstore transaction `<prefix>_<i>=<i>`: the prefix, '_',
      and two copies of the decimal index around '='. */
  function MakeTx(prefix: seq<byte>, i: int): (r: seq<byte>)
    ensures |r| == |prefix| + 2 + 2 * |Strconv.Itoa(i)|
    ensures r[..|prefix|] == prefix && r[|prefix|] == UNDERSCORE
  {
    KeyValueLayout(prefix, Strconv.Itoa(i), Strconv.Itoa(i));
    prefix + [UNDERSCORE] + Strconv.Itoa(i) + [EQUALS] + Strconv.Itoa(i)
  }

  /** The reading of an HTTP reply in `broadcastTxCommit`: the status and
      the body's emptiness are checked before the body's content. */
  function Classify(status: int, body: seq<byte>): (r: Outcome<TxError>)
    ensures r == Pass <==> status == 200 && |body| > 0 && Contains(body, CODE_OK)
    ensures r.Fail? ==> !r.error.Transport?
    ensures r.Fail? && r.error.Rejected? ==> |r.error.detail| == |body|
  {
    ReplaceByteAt(body, NEWLINE, SPACE);
    if |body| == 0 || status != 200 then Fail(BadHttp(status))
    else if !Contains(body, CODE_OK) then Fail(Rejected(ReplaceByte(body, NEWLINE, SPACE)))
    else Pass
  }

  /** `broadcastTxCommit`: POST the payload as `tx=0x<hex>` and read the
      reply; a transport error is reported exactly when the HTTP client fails. */
  function BroadcastTxCommit(net: Rpc.Network, host: seq<byte>, tx: seq<byte>): (r: Outcome<TxError>)
    ensures r.Fail? && r.error.Transport? <==> net(Rpc.Post(Rpc.BroadcastUrl(host, tx))).TransportError?
  {
    match net(Rpc.Post(Rpc.BroadcastUrl(host, tx)))
    case TransportError(msg) => Fail(Transport(msg))
    case Response(status, body) => Classify(status, body)
  }

  /** The text `%v` prints for the error. */
  function ErrorText(e: TxError): seq<byte>
  {
    match e
    case Transport(msg) => msg
    case BadHttp(status) => BAD_HTTP + Strconv.Itoa(status)
    case Rejected(detail) => TX_REJECTED + detail
  }

  /** Under one prefix, distinct indices give distinct payloads. */
  lemma MakeTxInjective(prefix: seq<byte>, i: int, j: int)
    requires MakeTx(prefix, i) == MakeTx(prefix, j)
    ensures i == j
  {
    var a, b := Strconv.Itoa(i), Strconv.Itoa(j);
    KeyValueLayout(prefix, a, a);
    KeyValueLayout(prefix, b, b);
    assert |a| == |b|;
    Strconv.ItoaInjective(i, j);
  }

  /** The payload is the prefix, '_', the key's number, '=' and the value,
      and both numbers read back as the index. */
  lemma MakeTxReadsBack(prefix: seq<byte>, i: int)
    ensures var t, d := MakeTx(prefix, i), |Strconv.Itoa(i)|;
      && |t| == |prefix| + 2 + 2 * d
      && t[..|prefix|] == prefix
      && t[|prefix|] == UNDERSCORE && t[|prefix| + 1 + d] == EQUALS
      && Strconv.Atoi(t[|prefix| + 1..|prefix| + 1 + d]) == Some(i)
      && Strconv.Atoi(t[|prefix| + 2 + d..]) == Some(i)
  {
    KeyValueLayout(prefix, Strconv.Itoa(i), Strconv.Itoa(i));
    Strconv.AtoiItoa(i);
  }

  lemma KeyValueLayout(prefix: seq<byte>, key: seq<byte>, val: seq<byte>)
    ensures var t := prefix + [UNDERSCORE] + key + [EQUALS] + val;
      && |t| == |prefix| + 2 + |key| + |val|
      && t[..|prefix|] == prefix
      && t[|prefix|] == UNDERSCORE && t[|prefix| + 1 + |key|] == EQUALS
      && t[|prefix| + 1..|prefix| + 1 + |key|] == key
      && t[|prefix| + 2 + |key|..] == val
  {
    var t := prefix + [UNDERSCORE] + key + [EQUALS] + val;
    var k := |prefix| + 1;
    assert t[k..k + |key|] == key;
    assert t[k + |key| + 1..] == val;
  }

  /** An empty body or a status other than 200 is "bad HTTP", whatever the
      body says. */
  lemma StatusCheckedFirst(status: int, body: seq<byte>)
    requires |body| == 0 || status != 200
    ensures Classify(status, body) == Fail(BadHttp(status))
  {
  }

  /** A submission succeeds exactly when the reply is a 200 with a body that
      contains `"code":0` somewhere. */
  lemma BroadcastSucceedsExactly(net: Rpc.Network, host: seq<byte>, tx: seq<byte>)
    ensures BroadcastTxCommit(net, host, tx) == Pass <==>
      var reply := net(Rpc.Post(Rpc.BroadcastUrl(host, tx)));
      && reply.Response? && reply.status == 200 && |reply.body| > 0
      && exists j :: OccursAt(reply.body, CODE_OK, j)
  {
  }

  /** A well-formed reply without `"code":0` is a rejection whose text is the
      body on one line: same length, each '\n' now ' ', every other byte kept. */
  lemma RejectionFlattensBody(status: int, body: seq<byte>)
    requires status == 200 && |body| > 0 && forall j :: !OccursAt(body, CODE_OK, j)
    ensures Classify(status, body).Fail? && Classify(status, body).error.Rejected?
    ensures var d := Classify(status, body).error.detail;
      && |d| == |body|
      && (forall i | 0 <= i < |d| :: d[i] != NEWLINE)
      && (forall i | 0 <= i < |d| :: body[i] == NEWLINE ==> d[i] == SPACE)
      && (forall i | 0 <= i < |d| :: body[i] != NEWLINE ==> d[i] == body[i])
  {
    ReplaceByteAt(body, NEWLINE, SPACE);
  }

  /** Every error read from an HTTP reply prints as a single line. */
  lemma ReplyErrorsAreOneLine(status: int, body: seq<byte>)
    requires Classify(status, body).Fail?
    ensures forall i | 0 <= i < |ErrorText(Classify(status, body).error)| ::
      ErrorText(Classify(status, body).error)[i] != NEWLINE
  {
    var e := Classify(status, body).error;
    MessagesAreOneLine();
    if e.Rejected? {
      ReplaceByteAt(body, NEWLINE, SPACE);
      assert forall i | 0 <= i < |e.detail| :: e.detail[i] != NEWLINE;
    } else {
      var n := Strconv.Itoa(status);
      assert forall i | 0 <= i < |n| :: n[i] != NEWLINE by {
        if status < 0 {
          assert n[1..] == Strconv.FormatNat(-status);
        }
      }
    }
  }

  lemma MessagesAreOneLine()
    ensures forall i | 0 <= i < |BAD_HTTP| :: BAD_HTTP[i] != NEWLINE
    ensures forall i | 0 <= i < |TX_REJECTED| :: TX_REJECTED[i] != NEWLINE
  {
  }
}
