/** The older revision (get_host_ip.py at the repository root): one
    getaddrinfo call, its answer routed by family into ipv4 and ipv6 with
    the same guarded appends, no zone-id stripping and no fallback
    strategies; its batch driver writes the results next to where it runs. */
module LegacyHostIp {
  import opened Wrappers
  import opened Resolver
  import opened AddressLists
  import Batch
  import HostIp

  /** What the resolver does on the two calls this revision makes:
      `getfqdn`, then `getaddrinfo(hostname, None)`. */
  datatype Lookups = Lookups(fqdn: Outcome<string>, addrs: Outcome<seq<AddrInfo>>)

  /** The record this revision's `get_host_info(hostname)` returns. */
  function HostInfo(hostname: string, lk: Lookups): HostRecord
  {
    match lk.fqdn
    case Raised(e) => HostRecord(hostname, None, [], [], Some(ErrorText(e)))
    case Returned(name) =>
      match lk.addrs
      case Raised(e) => HostRecord(hostname, Some(name), [], [], Some(ErrorText(e)))
      case Returned(es) =>
        var l := Merge(ByFamily(false), NoAddresses, es);
        HostRecord(hostname, Some(name), l.ipv4, l.ipv6, None)
  }

  /** `get_host_info`: any exception ends the lookup with an error; the
      answer is routed by family only after the call returned. */
  method GetHostInfo(hostname: string, lk: Lookups) returns (info: HostRecord)
    ensures info == HostInfo(hostname, lk)
  {
    info := HostRecord(hostname, None, [], [], None);
    match lk.fqdn {
      case Raised(e) =>
        info := info.(error := Some(ErrorText(e)));
        return;
      case Returned(name) =>
        info := info.(fqdn := Some(name));
    }
    match lk.addrs {
      case Raised(e) =>
        info := info.(error := Some(ErrorText(e)));
      case Returned(es) =>
        var v4, v6 := MergeByFamily(info.ipv4, info.ipv6, es, false);
        info := info.(ipv4 := v4, ipv6 := v6);
    }
  }

  // ---------------------------------------------------------------------
  // Properties of the routine

  /** The record names the hostname exactly as given; `fqdn` stays None
      unless `getfqdn` returned. */
  lemma HostnameAndFqdn(hostname: string, lk: Lookups)
    ensures HostInfo(hostname, lk).hostname == hostname
    ensures HostInfo(hostname, lk).fqdn.Some? <==> lk.fqdn.Returned?
    ensures lk.fqdn.Returned? ==> HostInfo(hostname, lk).fqdn.value == lk.fqdn.value
  {
  }

  /** Routing: an address is in ipv4 exactly when an AF_INET entry of the
      answer carries it, and in ipv6 exactly when an AF_INET6 entry does,
      unmodified; entries of other families are ignored. */
  lemma FamilyRouting(hostname: string, lk: Lookups, x: string)
    ensures x in HostInfo(hostname, lk).ipv4 <==>
      lk.fqdn.Returned? && lk.addrs.Returned? && exists e :: e in lk.addrs.value && e.0 == Inet && e.1 == x
    ensures x in HostInfo(hostname, lk).ipv6 <==>
      lk.fqdn.Returned? && lk.addrs.Returned? && exists e :: e in lk.addrs.value && e.0 == Inet6 && e.1 == x
  {
    if lk.fqdn.Returned? && lk.addrs.Returned? {
      MergeProperties(ByFamily(false), NoAddresses, lk.addrs.value);
      ByFamilyRouting(false, lk.addrs.value, x);
    }
  }

  /** Both lists are free of duplicates and keep the first-seen order of the
      answer. */
  lemma DuplicateFreeFirstSeen(hostname: string, lk: Lookups)
    ensures NoDuplicates(HostInfo(hostname, lk).ipv4) && NoDuplicates(HostInfo(hostname, lk).ipv6)
    ensures lk.fqdn.Returned? && lk.addrs.Returned? ==>
      HostInfo(hostname, lk).ipv4 == FirstOccurrences([], Ipv4Candidates(ByFamily(false), lk.addrs.value)) &&
      HostInfo(hostname, lk).ipv6 == FirstOccurrences([], Ipv6Candidates(ByFamily(false), lk.addrs.value))
  {
    if lk.fqdn.Returned? && lk.addrs.Returned? {
      var es := lk.addrs.value;
      MergeProperties(ByFamily(false), NoAddresses, es);
      InsertAllFirstSeen([], Ipv4Candidates(ByFamily(false), es));
      InsertAllFirstSeen([], Ipv6Candidates(ByFamily(false), es));
    }
  }

  /** The error rule of this revision: `error` is set exactly when a call
      raised, and then both lists are empty; a gaierror gives a text that
      starts with "DNS lookup failed". A lookup that returns never sets
      `error`, even when no address of either family came back. */
  lemma ErrorRule(hostname: string, lk: Lookups)
    ensures HostInfo(hostname, lk).error.Some? <==> lk.fqdn.Raised? || lk.addrs.Raised?
    ensures HostInfo(hostname, lk).error.Some? ==> HostInfo(hostname, lk).ipv4 == [] && HostInfo(hostname, lk).ipv6 == []
    ensures lk.fqdn.Returned? && lk.addrs.Raised? && lk.addrs.exc.GaiError? ==>
      DnsLookupFailed <= HostInfo(hostname, lk).error.value
  {
  }

  /** Unlike the current revision, an answer with no addresses leaves both
      lists empty and no error. */
  lemma EmptyAnswerNoError(hostname: string, name: string)
    ensures var rec := HostInfo(hostname, Lookups(Returned(name), Returned([])));
      rec.ipv4 == [] && rec.ipv6 == [] && rec.error == None
    ensures var rec := HostIp.HostInfo(hostname, HostIp.Lookups(Returned(name), Returned([]), Returned([]), Returned([])));
      rec.ipv4 == [] && rec.ipv6 == [] && rec.error == Some(DnsLookupFailed + ": " + NoAddressesFound)
  {
    var current := HostIp.Lookups(Returned(name), Returned([]), Returned([]), Returned([]));
    assert HostIp.Stage(current, 1) == HostIp.Running(NoAddresses);
    assert HostIp.Stage(current, 2) == HostIp.Running(NoAddresses);
    assert HostIp.Stage(current, 3) == HostIp.Running(NoAddresses);
  }

  /** This revision keeps a zone id that the current one strips: an IPv6
      address `a%z` is stored as it is here, and as `a` by the current
      revision (for instance "fe80::1%eth0" against "fe80::1"). */
  lemma ZoneIdKept(hostname: string, name: string, a: string, z: string)
    requires '%' !in a
    ensures var es := [(Inet6, a + "%" + z)];
      && HostInfo(hostname, Lookups(Returned(name), Returned(es))).ipv6 == [a + "%" + z]
      && HostIp.HostInfo(hostname, HostIp.Lookups(Returned(name), Returned(es), Returned([]), Returned([]))).ipv6 == [a]
  {
    var ip := a + "%" + z;
    var es := [(Inet6, ip)];
    assert es[..0] == [];
    assert HostInfo(hostname, Lookups(Returned(name), Returned(es))).ipv6 == [ip] by {
      assert Ipv6Candidates(ByFamily(false), es) == [ip];
      InsertAllSnoc([], [], ip);
    }
    var current := HostIp.Lookups(Returned(name), Returned(es), Returned([]), Returned([]));
    var l := Lists([], [a]);
    assert HostIp.Stage(current, 1) == HostIp.Running(l) by {
      StripZoneAt(a, z);
      assert Ipv4Candidates(ByFamily(true), es) == [];
      assert Ipv6Candidates(ByFamily(true), es) == [a];
      InsertAllSnoc([], [], a);
    }
    assert HostIp.Stage(current, 2) == HostIp.Running(l);
    assert HostIp.Stage(current, 3) == HostIp.Running(l);
  }

  /** When the answer carries no zone ids, the current revision keeps
      everything this one finds, in the same order, and may add more from
      its fallback strategies. */
  lemma CurrentExtendsLegacy(hostname: string, lk: Lookups, current: HostIp.Lookups)
    requires current.fqdn == lk.fqdn && current.unspecified == lk.addrs
    requires lk.addrs.Returned? ==> forall e :: e in lk.addrs.value ==> '%' !in e.1
    ensures HostInfo(hostname, lk).ipv4 <= HostIp.HostInfo(hostname, current).ipv4
    ensures HostInfo(hostname, lk).ipv6 <= HostIp.HostInfo(hostname, current).ipv6
  {
    if lk.fqdn.Returned? && lk.addrs.Returned? {
      var es := lk.addrs.value;
      StripIrrelevantWithoutZones(es);
      assert HostIp.Stage(current, 1) == HostIp.Running(Merge(ByFamily(false), NoAddresses, es));
      HostIp.AppendOnly(current, 1, 3);
    }
  }

  // ---------------------------------------------------------------------
  // The batch driver

  /** `input_file.stem + "_results.json"`: a file name relative to the
      working directory. */
  function OutputFile(stem: string): (path: seq<string>)
    ensures |path| == 1 && Batch.StemOf(path[0]) == Some(stem)
  {
    Batch.ResultsFileNameRoundTrip(stem, Batch.ResultsFileName(stem));
    [Batch.ResultsFileName(stem)]
  }

  /** The loop `for hostname in hostnames: results.append(get_host_info(hostname))`. */
  method ResolveAll(hostnames: seq<string>, lookups: seq<Lookups>) returns (results: seq<HostRecord>)
    requires |lookups| == |hostnames|
    ensures |results| == |hostnames|
    ensures forall i :: 0 <= i < |hostnames| ==> results[i] == HostInfo(hostnames[i], lookups[i])
  {
    results := [];
    for i := 0 to |hostnames|
      invariant |results| == i
      invariant forall j :: 0 <= j < i ==> results[j] == HostInfo(hostnames[j], lookups[j])
    {
      var info := GetHostInfo(hostnames[i], lookups[i]);
      results := results + [info];
    }
  }

  /** `main` after its argument checks. */
  method ProcessFile(lines: seq<string>, stem: string, lookups: seq<Lookups>)
    returns (outputFile: seq<string>, results: seq<HostRecord>)
    requires |lookups| == |Batch.NonBlankLines(lines)|
    ensures outputFile == OutputFile(stem)
    ensures |results| == |Batch.NonBlankLines(lines)|
    ensures forall i :: 0 <= i < |results| ==>
      results[i] == HostInfo(Batch.NonBlankLines(lines)[i], lookups[i])
  {
    var hostnames := Batch.NonBlankLines(lines);
    results := ResolveAll(hostnames, lookups);
    outputFile := OutputFile(stem);
  }
}
