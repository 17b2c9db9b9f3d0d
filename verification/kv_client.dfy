/** The RPC helpers of the open-loop benchmark (kvbench/main.go): `postTx`,
    which only cares whether the HTTP exchange happened, and `query`, which
    pulls a base64 value out of the reply by plain substring search. */
module KvClient {
  import opened GoBytes
  import opened Results
  import Rpc
  import Base64

  /** The marker in front of the value in an `/abci_query` reply. */
  const VALUE_MARKER := Ascii("\"value\":\"")

  /** Why a query produced no value. */
  datatype QueryError =
    | Transport(msg: seq<byte>) // the HTTP client's own error
    | NoValue                   // the reply has no `"value":"`
    | BadBase64                 // the token is not valid padded base64

  /** `postTx`: POST the payload as `tx=0x<hex>`. Any HTTP reply at all,
      whatever its status or body, is a success; only the HTTP client's own
      error fails it, with that error's text. */
  function PostTx(net: Rpc.Network, host: seq<byte>, kv: seq<byte>): (r: Outcome<seq<byte>>)
    ensures r == Pass <==> net(Rpc.Post(Rpc.BroadcastUrl(host, kv))).Response?
    ensures r.Fail? ==> r.error == net(Rpc.Post(Rpc.BroadcastUrl(host, kv))).msg
  {
    match net(Rpc.Post(Rpc.BroadcastUrl(host, kv)))
    case TransportError(msg) => Fail(msg)
    case Response(_, _) => Pass
  }

  /** The token `query` hands to the base64 decoder: the second piece of the
      body split at `"value":"`, cut at its first '"'. There is none exactly
      when the marker occurs nowhere, and the token never holds a '"'. */
  function ExtractValue(body: seq<byte>): (r: Result<seq<byte>, QueryError>)
    ensures r.Err? ==> r.error == NoValue
    ensures r.Err? <==> forall j :: !OccursAt(body, VALUE_MARKER, j)
    ensures r.Ok? ==> forall k | 0 <= k < |r.value| :: r.value[k] != QUOTE
  {
    SplitPieces(body, VALUE_MARKER);
    var raw := Split(body, VALUE_MARKER);
    if |raw| < 2 then Err(NoValue)
    else
      var token := SplitN(raw[1], [QUOTE], 2)[0];
      NoQuoteBeforeFirst(raw[1], token);
      assert OccursAt(body, VALUE_MARKER, Index(body, VALUE_MARKER));
      Ok(token)
  }

  /** The piece in front of the first '"' holds no '"'. */
  lemma NoQuoteBeforeFirst(s: seq<byte>, t: seq<byte>)
    requires t == SplitN(s, [QUOTE], 2)[0]
    ensures forall k | 0 <= k < |t| :: t[k] != QUOTE
  {
    var p := Index(s, [QUOTE]);
    assert t == if p < 0 then s else s[..p];
    forall k | 0 <= k < |t|
      ensures t[k] != QUOTE
    {
      assert !OccursAt(s, [QUOTE], k);
      assert s[k..k + 1] == [s[k]];
    }
  }

  /** `query`: GET `/abci_query?data="<key>"`, extract the token and decode
      it. The HTTP status is not looked at; a transport error is reported
      exactly when the HTTP client fails. */
  function Query(net: Rpc.Network, host: seq<byte>, key: seq<byte>): (r: Result<seq<byte>, QueryError>)
    ensures r.Err? && r.error.Transport? <==> net(Rpc.Get(Rpc.QueryUrl(host, key))).TransportError?
  {
    match net(Rpc.Get(Rpc.QueryUrl(host, key)))
    case TransportError(msg) => Err(Transport(msg))
    case Response(_, body) => DecodeValue(body)
  }

  /** The part of `query` that works on the body: "no value" exactly when
      the marker occurs nowhere, and never a transport error. */
  function DecodeValue(body: seq<byte>): (r: Result<seq<byte>, QueryError>)
    ensures r == Err(NoValue) <==> forall j :: !OccursAt(body, VALUE_MARKER, j)
    ensures r.Err? ==> !r.error.Transport?
  {
    match ExtractValue(body)
    case Err(e) => Err(e)
    case Ok(token) =>
      match Base64.DecodeString(token)
      case None => Err(BadBase64)
      case Some(value) => Ok(value)
  }

  /** When the marker occurs, the token is what follows its first occurrence
      up to the next '"', or to the end of the body when no '"' follows. */
  lemma ExtractFirstValue(body: seq<byte>)
    requires Contains(body, VALUE_MARKER)
    ensures var rest := body[Index(body, VALUE_MARKER) + |VALUE_MARKER|..];
      var q := Index(rest, [QUOTE]);
      ExtractValue(body) == Ok(if q < 0 then rest else rest[..q])
  {
    var i := Index(body, VALUE_MARKER);
    var rest := body[i + |VALUE_MARKER|..];
    var m := Index(rest, VALUE_MARKER);
    var piece := if m < 0 then rest else rest[..m];
    SecondPiece(body, VALUE_MARKER);
    var raw := Split(body, VALUE_MARKER);
    assert |raw| >= 2 && raw[1] == piece;
    FirstSplitNPiece(piece, [QUOTE]);
    CutAtQuote(rest, m);
  }

  /** The second piece of a split is what follows the first occurrence of the
      separator, up to its next occurrence. */
  lemma SecondPiece(s: seq<byte>, sep: seq<byte>)
    requires |sep| > 0 && Contains(s, sep)
    ensures |Split(s, sep)| >= 2
    ensures var rest := s[Index(s, sep) + |sep|..];
      var m := Index(rest, sep);
      Split(s, sep)[1] == if m < 0 then rest else rest[..m]
  {
    var rest := s[Index(s, sep) + |sep|..];
    assert Split(s, sep)[1] == Split(rest, sep)[0];
  }

  /** The first piece of `SplitN(s, sep, 2)` is `s` up to the first `sep`. */
  lemma FirstSplitNPiece(s: seq<byte>, sep: seq<byte>)
    requires |sep| > 0
    ensures var p := Index(s, sep);
      SplitN(s, sep, 2)[0] == if p < 0 then s else s[..p]
  {
  }

  /** Cutting `rest` at the next marker and then at the first '"' cuts it at
      its first '"', since the marker itself opens with '"'. */
  lemma CutAtQuote(rest: seq<byte>, m: int)
    requires m == Index(rest, VALUE_MARKER)
    ensures var piece := if m < 0 then rest else rest[..m];
      var p, q := Index(piece, [QUOTE]), Index(rest, [QUOTE]);
      (if p < 0 then piece else piece[..p]) == (if q < 0 then rest else rest[..q])
  {
    if m >= 0 {
      var q := Index(rest, [QUOTE]);
      assert rest[m..m + |VALUE_MARKER|] == VALUE_MARKER;
      assert VALUE_MARKER[0] == QUOTE;
      assert rest[m..m + 1] == [rest[m]] == [QUOTE];
      assert OccursAt(rest, [QUOTE], m);
      IndexOfPrefix(rest, [QUOTE], m);
      if q < m {
        assert rest[..m][..q] == rest[..q];
      }
    }
  }

  /** A reply that carries the base64 encoding of a value after its first
      `"value":"` and closes it with '"' decodes to that value, whatever the
      rest of the body. */
  lemma QueryReadsEncodedValue(front: seq<byte>, value: seq<byte>, back: seq<byte>)
    requires forall j | 0 <= j < |front| ::
      !OccursAt(front + VALUE_MARKER + Base64.EncodeToString(value) + [QUOTE] + back, VALUE_MARKER, j)
    ensures DecodeValue(front + VALUE_MARKER + Base64.EncodeToString(value) + [QUOTE] + back) == Ok(value)
  {
    var enc := Base64.EncodeToString(value);
    var body := front + VALUE_MARKER + enc + [QUOTE] + back;
    assert body[|front|..|front| + |VALUE_MARKER|] == VALUE_MARKER;
    assert OccursAt(body, VALUE_MARKER, |front|);
    assert Index(body, VALUE_MARKER) == |front|;
    var rest := body[|front| + |VALUE_MARKER|..];
    assert rest == enc + [QUOTE] + back;
    assert OccursAt(rest, [QUOTE], |enc|);
    forall j | 0 <= j < |enc|
      ensures !OccursAt(rest, [QUOTE], j)
    {
      assert rest[j..j + 1] == [enc[j]] && enc[j] != QUOTE;
    }
    assert Index(rest, [QUOTE]) == |enc|;
    ExtractFirstValue(body);
    assert rest[..|enc|] == enc;
    Base64.DecodeEncode(value);
  }
}
