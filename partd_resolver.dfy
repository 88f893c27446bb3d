/** `DNSRequestHandler.handle` of the logging resolver: decode the question
    name, drop the datagram when the name is empty or undecodable, otherwise
    forward it unchanged to the upstream server, relay the answer to the
    client, and append one row to the CSV log whatever became of the
    exchange. Console output is not modelled, and neither is a failed
    `open` or `write` of the log: every row reaches the log. */
module PartDResolver {
  import opened PyBuiltins
  import opened Upstream
  import QueryParser
  import Utf8

  /** Caching is switched off, and no caching code exists. */
  const CacheEnabled: bool := false

  /** The columns of the log file, as its header line names them. */
  const CsvColumns: seq<string> := ["timestamp", "domain", "mode", "server_ip", "step", "response",
                                    "rtt_ms", "total_time_ms", "cache_status", "servers_visited"]

  /** One row of `dns_log.csv`, its fields in the order of the header. */
  datatype LogRow = LogRow(
    timestamp: string,
    domain: string,
    mode: string,
    serverIp: string,
    step: string,
    response: string,
    rttMs: real,
    totalTimeMs: real,
    cacheStatus: string,
    serversVisited: nat)

  /** One datagram from a client, with what its handling meets: the
      `isoformat()` timestamp read on arrival, the outcome of the upstream
      exchange, and the outcome of sending the answer back. */
  datatype Query = Query(data: seq<Byte>, timestamp: string, upstream: Outcome, replySend: SendOutcome)

  /** What handling one datagram does to the outside world: the datagram sent
      upstream (with its destination), the datagram sent to the client, the
      row appended to the log. */
  datatype Handling = Handling(forwarded: Option<Datagram>, reply: Option<seq<Byte>>, row: Option<LogRow>)

  /** The domain `parse_dns_query` reads from a datagram. */
  function Domain(data: seq<Byte>): Option<string>
  {
    QueryParser.ParseQuery(data, Utf8.Decode)
  }

  /** `f"Error: {e}"`: never mistaken for either of the other two texts. */
  function ErrorText(message: string): (r: string)
    ensures r != "Response Received" && r != "Forwarding Timed Out"
  {
    var r := "Error: " + message;
    assert r[0] == 'E';
    r
  }

  /** The response column: how the exchange ended, an exception's text
      included, and a failed reply to the client counting as an error. */
  function ResponseText(upstream: Outcome, replySend: SendOutcome): (r: string)
    ensures r == "Response Received" <==> upstream.Response? && replySend.Sent?
    ensures r == "Forwarding Timed Out" <==> upstream.Timeout?
    ensures upstream.Response? && replySend.SendFailed? ==> r == "Error: " + replySend.message
    ensures upstream.ForwardFailed? || upstream.Error? ==> r == "Error: " + upstream.message
  {
    match upstream
    case ForwardFailed(message) => ErrorText(message)
    case Response(_, _) =>
      if replySend.Sent? then "Response Received" else ErrorText(replySend.message)
    case Timeout => "Forwarding Timed Out"
    case Error(message) => ErrorText(message)
  }

  /** The round-trip time in milliseconds: measured whenever a response
      came, a failed relay to the client included, since it is set before
      that send; the placeholder 0 when no response arrived (failed
      upstream send, timeout or other error). */
  function RttMs(upstream: Outcome): (r: real)
    ensures upstream.Response? ==> r == upstream.elapsedSeconds * 1000.0
    ensures !upstream.Response? ==> r == 0.0
  {
    if upstream.Response? then upstream.elapsedSeconds * 1000.0 else 0.0
  }

  /** What handling `q` amounts to. */
  function Handle(q: Query): (r: Handling)
    ensures r.row.Some? <==> Truthy(Domain(q.data))
    ensures r.row.None? ==> r.forwarded.None? && r.reply.None?
    ensures r.forwarded.Some? <==> r.row.Some? && LeftResolver(q.upstream)
    ensures r.forwarded.Some? ==> r.forwarded.value == Datagram(q.data, UpstreamDnsServer, UpstreamDnsPort)
    ensures r.reply.Some? <==> r.row.Some? && q.upstream.Response? && q.replySend.Sent?
    ensures r.reply.Some? ==> r.reply.value == q.upstream.response
    ensures r.row.Some? ==>
      var row := r.row.value;
      row.timestamp == q.timestamp && row.domain == Domain(q.data).value &&
      row.mode == "Forwarding" && row.serverIp == UpstreamDnsServer &&
      row.step == "Forwarded to Upstream" && row.serversVisited == 1 &&
      row.cacheStatus == "MISS (Caching Disabled)" && row.totalTimeMs == row.rttMs
    ensures r.row.Some? ==>
      (r.row.value.response == "Response Received" <==> q.upstream.Response? && q.replySend.Sent?) &&
      (r.row.value.response == "Forwarding Timed Out" <==> q.upstream.Timeout?) &&
      (q.upstream.Response? && q.replySend.SendFailed? ==> r.row.value.response == "Error: " + q.replySend.message) &&
      (q.upstream.ForwardFailed? ==> r.row.value.response == "Error: " + q.upstream.message) &&
      (q.upstream.Error? ==> r.row.value.response == "Error: " + q.upstream.message)
    ensures r.row.Some? && q.upstream.Response? ==> r.row.value.rttMs == q.upstream.elapsedSeconds * 1000.0
    ensures r.row.Some? && !q.upstream.Response? ==> r.row.value.rttMs == 0.0
  {
    var domain := Domain(q.data);
    if !Truthy(domain) then Handling(None, None, None)
    else
      var forwarded := if LeftResolver(q.upstream) then Some(Datagram(q.data, UpstreamDnsServer, UpstreamDnsPort)) else None;
      var reply := if q.upstream.Response? && q.replySend.Sent? then Some(q.upstream.response) else None;
      var rtt := RttMs(q.upstream);
      var row := LogRow(q.timestamp, domain.value, "Forwarding", UpstreamDnsServer, "Forwarded to Upstream",
                        ResponseText(q.upstream, q.replySend), rtt, rtt, "MISS (Caching Disabled)", 1);
      Handling(forwarded, reply, Some(row))
  }

  /** The handler as written: the log fields start as placeholders and are
      overwritten step by step as the exchange proceeds; an exception stops
      the remaining steps of the `try` and leaves the fields set so far. */
  method HandleQuery(q: Query, log: LogFile) returns (out: Handling)
    modifies log
    ensures out == Handle(q)
    ensures log.rows == old(log.rows) + RowsOf(out)
  {
    var domain := QueryParser.ParseDnsQuery(q.data, Utf8.Decode);
    if !Truthy(domain) {
      return Handling(None, None, None);
    }

    var logMode := "Forwarding";
    var logServerIp := "N/A";
    var logStep := "N/A";
    var logResponse := "N/A";
    var logRtt: real := 0.0;
    var logTotalTime: real := 0.0;
    var logCacheStatus := "MISS";
    var logServersVisited: nat := 0;

    if !CacheEnabled {
      logCacheStatus := "MISS (Caching Disabled)";
    }

    var forwarded: Option<Datagram> := None;
    var reply: Option<seq<Byte>> := None;

    logServerIp := UpstreamDnsServer;
    logStep := "Forwarded to Upstream";
    logServersVisited := 1;
    if !LeftResolver(q.upstream) {
      logResponse := ErrorText(q.upstream.message);
    } else {
      forwarded := Some(Datagram(q.data, UpstreamDnsServer, UpstreamDnsPort));
      match q.upstream {
        case Response(response, elapsedSeconds) =>
          logRtt := elapsedSeconds * 1000.0;
          logTotalTime := logRtt;
          logResponse := "Response Received";
          match q.replySend {
            case Sent =>
              reply := Some(response);
            case SendFailed(message) =>
              logResponse := ErrorText(message);
          }
        case Timeout =>
          logResponse := "Forwarding Timed Out";
        case Error(message) =>
          logResponse := ErrorText(message);
      }
    }

    assert logResponse == ResponseText(q.upstream, q.replySend) && logRtt == RttMs(q.upstream);
    var row := LogRow(q.timestamp, domain.value, logMode, logServerIp, logStep, logResponse,
                      logRtt, logTotalTime, logCacheStatus, logServersVisited);
    log.Append(row);
    out := Handling(forwarded, reply, Some(row));
  }

  /** The rows one handling appends: none or one. */
  function RowsOf(h: Handling): seq<LogRow>
  {
    if h.row.Some? then [h.row.value] else []
  }

  /** The answers one handling sends to its client: none or one. */
  function RepliesOf(h: Handling): seq<seq<Byte>>
  {
    if h.reply.Some? then [h.reply.value] else []
  }

  /** `dns_log.csv`. At start-up it is recreated holding only its header
      line, so it holds no rows; each handled query then appends to it. */
  class LogFile {
    var rows: seq<LogRow>

    constructor ()
      ensures rows == []
    {
      rows := [];
    }

    method Append(row: LogRow)
      modifies this
      ensures rows == old(rows) + [row]
    {
      rows := rows + [row];
    }
  }

  /** The rows a run of queries leaves in the log, in arrival order. */
  function LoggedRows(queries: seq<Query>): seq<LogRow>
  {
    if queries == [] then []
    else LoggedRows(queries[..|queries| - 1]) + RowsOf(Handle(queries[|queries| - 1]))
  }

  /** The answers a run of queries sends back, in arrival order. */
  function Replies(queries: seq<Query>): seq<seq<Byte>>
  {
    if queries == [] then []
    else Replies(queries[..|queries| - 1]) + RepliesOf(Handle(queries[|queries| - 1]))
  }

  /** The domains of the queries the resolver does not drop, in arrival order. */
  function DecodedDomains(queries: seq<Query>): seq<string>
  {
    if queries == [] then []
    else
      var domain := Domain(queries[|queries| - 1].data);
      DecodedDomains(queries[..|queries| - 1]) + (if Truthy(domain) then [domain.value] else [])
  }

  /** `serve_forever`: the server handles the datagrams one after the other. */
  method Serve(queries: seq<Query>, log: LogFile) returns (replies: seq<seq<Byte>>)
    modifies log
    ensures log.rows == old(log.rows) + LoggedRows(queries)
    ensures replies == Replies(queries)
  {
    replies := [];
    var i := 0;
    while i < |queries|
      invariant 0 <= i <= |queries|
      invariant log.rows == old(log.rows) + LoggedRows(queries[..i])
      invariant replies == Replies(queries[..i])
    {
      var out := HandleQuery(queries[i], log);
      RunStep(queries, i);
      ConcatAssoc(old(log.rows), LoggedRows(queries[..i]), RowsOf(out));
      replies := replies + RepliesOf(out);
      i := i + 1;
    }
    assert queries[..i] == queries;
  }

  /** One more query adds its own row and reply after those of the earlier ones. */
  lemma RunStep(queries: seq<Query>, i: nat)
    requires i < |queries|
    ensures LoggedRows(queries[..i + 1]) == LoggedRows(queries[..i]) + RowsOf(Handle(queries[i]))
    ensures Replies(queries[..i + 1]) == Replies(queries[..i]) + RepliesOf(Handle(queries[i]))
  {
    assert queries[..i + 1][..i] == queries[..i];
  }

  /** Exactly one row per query whose domain decodes to a non-empty name, in
      the order the queries came, each naming that domain and recording the
      forwarding to the upstream server, however the exchange ended. */
  lemma {:induction false} OneRowPerDecodedQuery(queries: seq<Query>)
    ensures |LoggedRows(queries)| == |DecodedDomains(queries)|
    ensures forall k :: 0 <= k < |LoggedRows(queries)| ==>
      var row := LoggedRows(queries)[k];
      row.domain == DecodedDomains(queries)[k] &&
      row.serverIp == UpstreamDnsServer && row.serversVisited == 1
  {
    if queries != [] {
      var init := queries[..|queries| - 1];
      OneRowPerDecodedQuery(init);
    }
  }

  /** A datagram no longer than the DNS header decodes to the empty name,
      which is falsy: nothing is forwarded, answered or logged. */
  lemma ShortDatagramDropped(q: Query)
    requires |q.data| <= QueryParser.HeaderSize
    ensures Handle(q) == Handling(None, None, None)
  {
    QueryParser.ShortMessageGivesEmptyName(q.data, Utf8.Decode);
  }

  /** A name made of one length byte with nothing after it (the terminator
      follows at once) clamps to one empty label, reads as the empty name and
      is dropped like an undecodable one. */
  lemma LoneOverrunDropped(q: Query, header: seq<Byte>, n: Byte, tail: seq<Byte>)
    requires |header| == QueryParser.HeaderSize && n > 0
    requires q.data == header + [n] + [0] + tail
    ensures Handle(q) == Handling(None, None, None)
  {
    var none: seq<seq<Byte>> := [];
    var empty: seq<Byte> := [];
    QueryParser.TruncatedNameParsed(header, none, n, empty, tail, Utf8.Decode);
    assert QueryParser.EncodeLabels(none) == [];
    assert header + QueryParser.EncodeLabels(none) + [n] + empty + [0] + tail == q.data;
    assert none + [empty] == [empty];
    assert Utf8.Decode(empty) == Some("");
  }

  /** A datagram carrying a well-formed question name is logged under that
      name, its labels joined by dots, and forwarded unless the upstream
      send itself fails. */
  lemma WellFormedQueryLogged(q: Query, header: seq<Byte>, names: seq<string>, tail: seq<Byte>)
    requires |header| == QueryParser.HeaderSize && names != []
    requires forall k :: 0 <= k < |names| ==> QueryParser.ValidLabelText(names[k])
    requires q.data == header + QueryParser.EncodeLabels(QueryParser.EncodeNames(names)) + [0] + tail
    ensures Handle(q).row.Some?
    ensures Handle(q).forwarded.Some? <==> LeftResolver(q.upstream)
    ensures Handle(q).row.value.domain == Join(names, ".")
  {
    QueryParser.Utf8RoundTrip(header, names, tail);
    assert Utf8.Encode(names[0]) != [];
    JoinStartsWithFirst(names, ".");
  }
}
