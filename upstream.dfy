/** What the resolver's surroundings do with a forwarded query. The sockets
    themselves (a UDP socket with a 2-second timeout towards the upstream
    server, the server socket towards the client) and the clock are not
    modelled; what they deliver becomes an input value. */
module Upstream {
  import opened PyBuiltins

  /** The upstream server every query is forwarded to, and its port. */
  const UpstreamDnsServer: string := "8.8.8.8"
  const UpstreamDnsPort: nat := 53

  /** A datagram handed to `sendto`, with the address it is sent to. */
  datatype Datagram = Datagram(payload: seq<Byte>, host: string, port: nat)

  /** How the exchange with the upstream server ends: the send itself
      raising, so that nothing leaves the resolver, with the text of the
      exception; the bytes `recvfrom(512)` returns (the first 512 bytes of a
      longer answer) after `elapsedSeconds`, the difference of the two
      `time.time()` readings; the socket's timeout while waiting
      for the answer; or any other socket error while waiting, with the text
      of the exception. */
  datatype Outcome =
    | ForwardFailed(message: string)
    | Response(response: seq<Byte>, elapsedSeconds: real)
    | Timeout
    | Error(message: string)

  /** Whether the query reached the upstream send: every outcome but a
      failed send follows a datagram that left the resolver. */
  predicate LeftResolver(upstream: Outcome)
  {
    !upstream.ForwardFailed?
  }

  /** How sending the response back to the client ends. */
  datatype SendOutcome = Sent | SendFailed(message: string)
}
