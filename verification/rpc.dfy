/** The HTTP conventions of a Tendermint RPC node as both benchmarks use
    them: the `tx=0x<hex>` parameter of `/broadcast_tx_commit`, the
    `data="<key>"` parameter of `/abci_query`, and the network itself,
    which the model treats as a function from request to reply. */
module Rpc {
  import opened GoBytes
  import opened Results
  import Hex

  /** One outbound HTTP request. */
  datatype Request = Post(url: seq<byte>) | Get(url: seq<byte>)

  /** What the HTTP client hands back: an error (no connection, timeout,
      malformed URL) carrying its text, or a status code and the whole body. */
  datatype Reply = TransportError(msg: seq<byte>) | Response(status: int, body: seq<byte>)

  /** The node and everything between it and the client. Every request the
      benchmarks send is distinct, so a function loses no generality. */
  type Network = Request -> Reply

  const HEX_MARKER := Ascii("0x")
  const SCHEME := Ascii("http://")
  const BROADCAST_PATH := Ascii("/broadcast_tx_commit?tx=")
  const QUERY_PATH := Ascii("/abci_query?data=")

  /** The `tx` query parameter: "0x" and the lower-case hex of the payload,
      two digits per byte. */
  function TxParam(tx: seq<byte>): (r: seq<byte>)
    ensures |r| == 2 + 2 * |tx| && r[..2] == HEX_MARKER
  {
    HEX_MARKER + Hex.EncodeToString(tx)
  }

  /** `http://<host>/broadcast_tx_commit?tx=0x<hex>`: the scheme, the host
      and the endpoint's path, then the `tx` parameter. */
  function BroadcastUrl(host: seq<byte>, tx: seq<byte>): (r: seq<byte>)
    ensures |r| == |SCHEME| + |host| + |BROADCAST_PATH| + 2 + 2 * |tx|
    ensures r[..|SCHEME| + |host| + |BROADCAST_PATH|] == SCHEME + host + BROADCAST_PATH
    ensures r[|r| - (2 + 2 * |tx|)..] == TxParam(tx)
  {
    SCHEME + host + BROADCAST_PATH + TxParam(tx)
  }

  /** `http://<host>/abci_query?data="<key>"`: the scheme, the host and
      the endpoint's path, then the key between double quotes. */
  function QueryUrl(host: seq<byte>, key: seq<byte>): (r: seq<byte>)
    ensures |r| == |SCHEME| + |host| + |QUERY_PATH| + |key| + 2
    ensures r[..|SCHEME| + |host| + |QUERY_PATH|] == SCHEME + host + QUERY_PATH
    ensures r[|r| - |key| - 2] == QUOTE && r[|r| - 1] == QUOTE
    ensures r[|r| - |key| - 1..|r| - 1] == key
  {
    SCHEME + host + QUERY_PATH + [QUOTE] + key + [QUOTE]
  }

  /** The parameter is "0x" followed by two hex digits per payload byte, and
      hex-decoding what follows "0x" gives the payload back. */
  lemma TxParamDecodes(tx: seq<byte>)
    ensures |TxParam(tx)| == 2 + 2 * |tx|
    ensures TxParam(tx)[..2] == HEX_MARKER
    ensures Hex.DecodeString(TxParam(tx)[2..]) == Some(tx)
  {
    assert TxParam(tx)[2..] == Hex.EncodeToString(tx);
    Hex.DecodeEncode(tx);
  }

  /** Distinct payloads give distinct parameters. */
  lemma TxParamInjective(tx1: seq<byte>, tx2: seq<byte>)
    requires TxParam(tx1) == TxParam(tx2)
    ensures tx1 == tx2
  {
    TxParamDecodes(tx1);
    TxParamDecodes(tx2);
  }

  /** For a fixed host the URL ends in the parameter and determines the payload. */
  lemma BroadcastUrlDetermines(host: seq<byte>, tx1: seq<byte>, tx2: seq<byte>)
    requires BroadcastUrl(host, tx1) == BroadcastUrl(host, tx2)
    ensures tx1 == tx2
  {
    var front := SCHEME + host + BROADCAST_PATH;
    assert BroadcastUrl(host, tx1)[|front|..] == TxParam(tx1);
    assert BroadcastUrl(host, tx2)[|front|..] == TxParam(tx2);
    TxParamInjective(tx1, tx2);
  }
}
