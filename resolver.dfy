module Wrappers {
  datatype Option<+T> = None | Some(value: T)
}

/** The values the host lookup routine works on: what the platform resolver
    answers, and the per-hostname record the routine builds. */
module Resolver {
  import opened Wrappers

  /** The address family of one getaddrinfo answer entry (its element 0). */
  datatype Family = Inet | Inet6 | OtherFamily

  /** An exception raised by a resolver call: `socket.gaierror`, or any other
      exception; each carries the text that `str(e)` gives. */
  datatype Exception = GaiError(message: string) | OtherError(message: string)

  /** What one resolver call does: it returns a value or raises. */
  datatype Outcome<+T> = Returned(value: T) | Raised(exc: Exception)

  /** One getaddrinfo entry, reduced to the family and the address text
      (`addr[0]` and `addr[4][0]`). */
  type AddrInfo = (Family, string)

  /** The result dictionary of `get_host_info`; `error` is None when the
      dictionary has no "error" key. */
  datatype HostRecord = HostRecord(
    hostname: string,
    fqdn: Option<string>,
    ipv4: seq<string>,
    ipv6: seq<string>,
    error: Option<string>)

  const DnsLookupFailed: string := "DNS lookup failed"

  /** The message `gaierror("No addresses found")` carries. */
  const NoAddressesFound: string := "No addresses found"

  /** The text stored under "error" by the two `except` clauses of the routine:
      a gaierror gives "DNS lookup failed: ...", anything else "Error: ...". */
  function ErrorText(e: Exception): (r: string)
    ensures e.GaiError? <==> DnsLookupFailed <= r
    ensures |e.message| <= |r| && r[|r| - |e.message|..] == e.message
  {
    match e
    case GaiError(m) => DnsLookupFailed + ": " + m
    case OtherError(m) =>
      var r := "Error: " + m;
      assert r[0] != DnsLookupFailed[0];
      r
  }

  /** True when the call raised something other than gaierror, which no inner
      handler catches. */
  predicate Escapes<T>(o: Outcome<T>)
  {
    o.Raised? && o.exc.OtherError?
  }
}
