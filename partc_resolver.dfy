/** `DNSRequestHandler.handle` of the starter resolver: the same decoding and
    forwarding as the logging resolver, with no log file. Its only state
    besides the sockets is the cache status, which nothing ever sets to a hit. */
module PartCResolver {
  import opened PyBuiltins
  import opened Upstream
  import QueryParser
  import Utf8

  /** What handling one datagram does: the datagram sent upstream (with its
      destination), the datagram sent to the client, the cache status it reached, and whether
      it reported a cache miss on the console. */
  datatype Exchange = Exchange(
    forwarded: Option<Datagram>,
    reply: Option<seq<Byte>>,
    cacheStatus: Option<string>,
    missReported: bool)

  /** What handling `data` amounts to, given how the upstream exchange and the
      reply to the client end. */
  function Handle(data: seq<Byte>, upstream: Outcome, replySend: SendOutcome): (r: Exchange)
    ensures r.cacheStatus.Some? <==> Truthy(QueryParser.ParseQuery(data, Utf8.Decode))
    ensures r.forwarded.Some? <==> r.cacheStatus.Some? && LeftResolver(upstream)
    ensures r.forwarded.Some? ==> r.forwarded.value == Datagram(data, UpstreamDnsServer, UpstreamDnsPort)
    ensures r.reply.Some? <==> r.forwarded.Some? && upstream.Response? && replySend.Sent?
    ensures r.reply.Some? ==> r.reply.value == upstream.response
    ensures r.cacheStatus.Some? ==> r.cacheStatus.value == "MISS"
    ensures r.missReported <==> r.cacheStatus.Some?
  {
    var domain := QueryParser.ParseQuery(data, Utf8.Decode);
    if !Truthy(domain) then Exchange(None, None, None, false)
    else
      var forwarded := if LeftResolver(upstream) then Some(Datagram(data, UpstreamDnsServer, UpstreamDnsPort)) else None;
      var reply := if upstream.Response? && replySend.Sent? then Some(upstream.response) else None;
      Exchange(forwarded, reply, Some("MISS"), true)
  }

  /** The handler as written: `try` forwards the datagram, waits for the
      answer and relays it; a failed upstream send, a timeout or any other
      error ends the attempt without a reply, and so does a failure of the
      relaying send itself. */
  method HandleQuery(data: seq<Byte>, upstream: Outcome, replySend: SendOutcome) returns (out: Exchange)
    ensures out == Handle(data, upstream, replySend)
  {
    var domain := QueryParser.ParseDnsQuery(data, Utf8.Decode);
    if !Truthy(domain) {
      return Exchange(None, None, None, false);
    }

    var cacheStatus := "MISS";
    var missReported := false;
    if cacheStatus != "HIT" {
      missReported := true;
    }

    var forwarded: Option<Datagram> := None;
    var reply: Option<seq<Byte>> := None;
    if LeftResolver(upstream) {
      forwarded := Some(Datagram(data, UpstreamDnsServer, UpstreamDnsPort));
      match upstream {
        case Response(response, _) =>
          if replySend.Sent? {
            reply := Some(response);
          }
        case Timeout =>
        case Error(_) =>
      }
    }
    out := Exchange(forwarded, reply, Some(cacheStatus), missReported);
  }
}
