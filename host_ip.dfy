/** The current revision (src/get_host_ip.py): `get_host_info` tries three
    getaddrinfo strategies in a fixed order and folds their answers into the
    ipv4 and ipv6 lists of the record; the batch driver resolves every
    hostname of a file. */
module HostIp {
  import opened Wrappers
  import opened Resolver
  import opened AddressLists
  import Batch

  /** What the resolver does on each call `get_host_info` makes for one
      hostname: `getfqdn`, then getaddrinfo with AF_UNSPEC, AF_INET and
      AF_INET6. */
  datatype Lookups = Lookups(
    fqdn: Outcome<string>,
    unspecified: Outcome<seq<AddrInfo>>,
    inet: Outcome<seq<AddrInfo>>,
    inet6: Outcome<seq<AddrInfo>>)

  /** Where the lists stand after some of the strategies: still going, or
      stopped by an exception that no strategy's `except socket.gaierror`
      catches. */
  datatype Progress = Running(lists: Lists) | Aborted(lists: Lists, exc: Exception)

  /** The policy of strategy `k` (1, 2 or 3). */
  function StrategyPolicy(k: nat): Policy
    requires 1 <= k <= 3
  {
    if k == 1 then ByFamily(true) else if k == 2 then AllToIpv4 else AllToIpv6
  }

  /** The answer of strategy `k` (1, 2 or 3). */
  function StrategyAnswer(lk: Lookups, k: nat): Outcome<seq<AddrInfo>>
    requires 1 <= k <= 3
  {
    if k == 1 then lk.unspecified else if k == 2 then lk.inet else lk.inet6
  }

  /** One strategy's `try ... except socket.gaierror: pass` block. */
  function Attempt(pr: Progress, p: Policy, answer: Outcome<seq<AddrInfo>>): Progress
  {
    match pr
    case Aborted(_, _) => pr
    case Running(l) =>
      match answer
      case Returned(es) => Running(Merge(p, l, es))
      case Raised(e) => if e.GaiError? then pr else Aborted(l, e)
  }

  /** The progress after the first `k` strategies. */
  function Stage(lk: Lookups, k: nat): Progress
    requires k <= 3
  {
    if k == 0 then Running(NoAddresses)
    else Attempt(Stage(lk, k - 1), StrategyPolicy(k), StrategyAnswer(lk, k))
  }

  /** The record `get_host_info(hostname)` returns when the resolver behaves
      as `lk` says. */
  function HostInfo(hostname: string, lk: Lookups): HostRecord
  {
    match lk.fqdn
    case Raised(e) => HostRecord(hostname, None, [], [], Some(ErrorText(e)))
    case Returned(name) =>
      match Stage(lk, 3)
      case Aborted(l, e) => HostRecord(hostname, Some(name), l.ipv4, l.ipv6, Some(ErrorText(e)))
      case Running(l) =>
        HostRecord(hostname, Some(name), l.ipv4, l.ipv6,
          if l.ipv4 == [] && l.ipv6 == [] then Some(ErrorText(GaiError(NoAddressesFound))) else None)
  }

  /** The lists of the record are the lists the strategies left behind (none
      at all when `getfqdn` raised). */
  function FinalLists(lk: Lookups): Lists
  {
    if lk.fqdn.Raised? then NoAddresses else Stage(lk, 3).lists
  }

  /** No getaddrinfo strategy raises an exception other than gaierror. */
  predicate NoStrategyEscapes(lk: Lookups)
  {
    !Escapes(lk.unspecified) && !Escapes(lk.inet) && !Escapes(lk.inet6)
  }

  /** Nothing, `getfqdn` included, raises an exception other than gaierror. */
  predicate NothingEscapes(lk: Lookups)
  {
    !Escapes(lk.fqdn) && NoStrategyEscapes(lk)
  }

  /** Once aborted, the lookup stays aborted with the same lists. */
  lemma {:induction false} AbortedStays(lk: Lookups, k: nat)
    requires k <= 3 && Stage(lk, k).Aborted?
    ensures Stage(lk, 3) == Stage(lk, k)
    decreases 3 - k
  {
    if k < 3 {
      assert Stage(lk, k + 1) == Stage(lk, k);
      AbortedStays(lk, k + 1);
    }
  }

  // ---------------------------------------------------------------------
  // The routine itself

  /** `get_host_info`: the three strategy blocks in order, each skipped when
      getaddrinfo raises gaierror, the whole lookup abandoned when anything
      else is raised, and the "No addresses found" error when both lists
      are empty at the end. */
  method GetHostInfo(hostname: string, lk: Lookups) returns (info: HostRecord)
    ensures info == HostInfo(hostname, lk)
  {
    info := HostRecord(hostname, None, [], [], None);
    match lk.fqdn {
      case Raised(e) =>
        info := info.(error := Some(ErrorText(e)));
        return;
      case Returned(name) =>
        info := info.(fqdn := Some(name));
    }

    // Method 1: AF_UNSPEC, routed by family, zone ids removed
    match lk.unspecified {
      case Returned(es) =>
        var v4, v6 := MergeByFamily(info.ipv4, info.ipv6, es, true);
        info := info.(ipv4 := v4, ipv6 := v6);
      case Raised(e) =>
        if e.OtherError? {
          AbortedStays(lk, 1);
          info := info.(error := Some(ErrorText(e)));
          return;
        }
    }
    assert Stage(lk, 1) == Running(Lists(info.ipv4, info.ipv6));

    // Method 2: AF_INET, everything into ipv4
    match lk.inet {
      case Returned(es) =>
        var v4 := MergeIntoIpv4(info.ipv4, es);
        AllToIpv4Routing(es);
        info := info.(ipv4 := v4);
      case Raised(e) =>
        if e.OtherError? {
          AbortedStays(lk, 2);
          info := info.(error := Some(ErrorText(e)));
          return;
        }
    }
    assert Stage(lk, 2) == Running(Lists(info.ipv4, info.ipv6));

    // Method 3: AF_INET6, everything into ipv6, zone ids removed
    match lk.inet6 {
      case Returned(es) =>
        var v6 := MergeIntoIpv6(info.ipv6, es);
        AllToIpv6Routing(es);
        info := info.(ipv6 := v6);
      case Raised(e) =>
        if e.OtherError? {
          info := info.(error := Some(ErrorText(e)));
          return;
        }
    }
    assert Stage(lk, 3) == Running(Lists(info.ipv4, info.ipv6));

    if info.ipv4 == [] && info.ipv6 == [] {
      info := info.(error := Some(ErrorText(GaiError(NoAddressesFound))));
    }
  }

  // ---------------------------------------------------------------------
  // Properties of the routine

  /** The record names the hostname exactly as given, and `fqdn` stays None
      unless `getfqdn` returned. */
  lemma HostnameAndFqdn(hostname: string, lk: Lookups)
    ensures HostInfo(hostname, lk).hostname == hostname
    ensures HostInfo(hostname, lk).fqdn.Some? <==> lk.fqdn.Returned?
    ensures lk.fqdn.Returned? ==> HostInfo(hostname, lk).fqdn.value == lk.fqdn.value
    ensures HostInfo(hostname, lk).ipv4 == FinalLists(lk).ipv4
    ensures HostInfo(hostname, lk).ipv6 == FinalLists(lk).ipv6
  {
  }

  /** Append only: the lists after the first `j` strategies are prefixes of
      the lists after the first `k`, so every later strategy keeps what the
      earlier ones found, in the order they found it. */
  lemma {:induction false} AppendOnly(lk: Lookups, j: nat, k: nat)
    requires j <= k <= 3
    ensures Extends(Stage(lk, j).lists, Stage(lk, k).lists)
    decreases k
  {
    if j < k {
      AppendOnly(lk, j, k - 1);
      StageStep(lk, k);
      InsertAllProperties(Stage(lk, k - 1).lists.ipv4, Found4(lk, k));
      InsertAllProperties(Stage(lk, k - 1).lists.ipv6, Found6(lk, k));
    }
  }

  /** A strategy that raises gaierror leaves both lists as they were and
      does not stop the strategies after it. */
  lemma GaiErrorSkipped(lk: Lookups, k: nat)
    requires 1 <= k <= 3
    requires StrategyAnswer(lk, k).Raised? && StrategyAnswer(lk, k).exc.GaiError?
    ensures Stage(lk, k) == Stage(lk, k - 1)
  {
  }

  /** The lookup is still going after `k` strategies exactly when none of
      them raised anything but gaierror. */
  lemma {:induction false} RunningUnlessEscaped(lk: Lookups, k: nat)
    requires k <= 3
    ensures Stage(lk, k).Running? <==> forall j :: 1 <= j <= k ==> !Escapes(StrategyAnswer(lk, j))
    decreases k
  {
    if k > 0 {
      RunningUnlessEscaped(lk, k - 1);
      AttemptRunning(Stage(lk, k - 1), StrategyPolicy(k), StrategyAnswer(lk, k));
      if Stage(lk, k).Running? {
        forall j | 1 <= j <= k ensures !Escapes(StrategyAnswer(lk, j)) {
          if j < k {
            assert 1 <= j <= k - 1;
          }
        }
      } else if Stage(lk, k - 1).Running? {
        assert Escapes(StrategyAnswer(lk, k));
      } else {
        var j :| 1 <= j <= k - 1 && Escapes(StrategyAnswer(lk, j));
        assert 1 <= j <= k;
      }
    }
  }

  /** One strategy keeps the lookup going exactly when it was going and the
      strategy raised nothing but gaierror. */
  lemma AttemptRunning(pr: Progress, p: Policy, answer: Outcome<seq<AddrInfo>>)
    ensures Attempt(pr, p, answer).Running? <==> pr.Running? && !Escapes(answer)
  {
  }

  /** After every strategy both lists are free of duplicates and ipv6 holds
      no address with a zone id. */
  lemma {:induction false} StageInvariant(lk: Lookups, k: nat)
    requires k <= 3
    ensures ListsDuplicateFree(Stage(lk, k).lists)
    ensures forall ip :: ip in Stage(lk, k).lists.ipv6 ==> '%' !in ip
    decreases k
  {
    if k > 0 {
      StageInvariant(lk, k - 1);
      var answer := StrategyAnswer(lk, k);
      if Stage(lk, k - 1).Running? && answer.Returned? {
        MergeProperties(StrategyPolicy(k), Stage(lk, k - 1).lists, answer.value);
        StrippedIpv6Candidates(StrategyPolicy(k), answer.value);
      }
    }
  }

  /** No address is stored twice in either list, and no stored IPv6 address
      carries a zone id. */
  lemma RecordInvariant(hostname: string, lk: Lookups)
    ensures NoDuplicates(HostInfo(hostname, lk).ipv4)
    ensures NoDuplicates(HostInfo(hostname, lk).ipv6)
    ensures forall ip :: ip in HostInfo(hostname, lk).ipv6 ==> '%' !in ip
  {
    StageInvariant(lk, 3);
  }

  /** The ipv4 candidates strategy `k` contributes: those of its answer when
      it ran (no earlier strategy escaped) and returned. */
  function Found4(lk: Lookups, k: nat): seq<string>
    requires 1 <= k <= 3
  {
    var answer := StrategyAnswer(lk, k);
    if Stage(lk, k - 1).Running? && answer.Returned? then Ipv4Candidates(StrategyPolicy(k), answer.value) else []
  }

  /** The ipv6 candidates strategy `k` contributes. */
  function Found6(lk: Lookups, k: nat): seq<string>
    requires 1 <= k <= 3
  {
    var answer := StrategyAnswer(lk, k);
    if Stage(lk, k - 1).Running? && answer.Returned? then Ipv6Candidates(StrategyPolicy(k), answer.value) else []
  }

  /** Everything the first `k` strategies offered to ipv4, in order. */
  function Offered4(lk: Lookups, k: nat): seq<string>
    requires k <= 3
  {
    if k == 0 then [] else Offered4(lk, k - 1) + Found4(lk, k)
  }

  /** Everything the first `k` strategies offered to ipv6, in order. */
  function Offered6(lk: Lookups, k: nat): seq<string>
    requires k <= 3
  {
    if k == 0 then [] else Offered6(lk, k - 1) + Found6(lk, k)
  }

  lemma OfferedAll(lk: Lookups)
    ensures Offered4(lk, 3) == Found4(lk, 1) + Found4(lk, 2) + Found4(lk, 3)
    ensures Offered6(lk, 3) == Found6(lk, 1) + Found6(lk, 2) + Found6(lk, 3)
  {
    assert Offered4(lk, 1) == Found4(lk, 1);
    assert Offered6(lk, 1) == Found6(lk, 1);
  }

  lemma StageStep(lk: Lookups, k: nat)
    requires 1 <= k <= 3
    ensures Stage(lk, k).lists.ipv4 == InsertAll(Stage(lk, k - 1).lists.ipv4, Found4(lk, k))
    ensures Stage(lk, k).lists.ipv6 == InsertAll(Stage(lk, k - 1).lists.ipv6, Found6(lk, k))
  {
  }

  /** Strategy by strategy, the lists are the guarded appends of everything
      offered so far, starting from empty lists. */
  lemma {:induction false} StageFromOffered(lk: Lookups, k: nat)
    requires k <= 3
    ensures Stage(lk, k).lists.ipv4 == InsertAll([], Offered4(lk, k))
    ensures Stage(lk, k).lists.ipv6 == InsertAll([], Offered6(lk, k))
    decreases k
  {
    if k == 0 {
      assert Stage(lk, 0) == Running(NoAddresses);
      assert Offered4(lk, 0) == [] && Offered6(lk, 0) == [];
    } else {
      StageFromOffered(lk, k - 1);
      StageStep(lk, k);
      assert Offered4(lk, k) == Offered4(lk, k - 1) + Found4(lk, k);
      assert Offered6(lk, k) == Offered6(lk, k - 1) + Found6(lk, k);
      InsertAllAppend([], Offered4(lk, k - 1), Found4(lk, k));
      InsertAllAppend([], Offered6(lk, k - 1), Found6(lk, k));
    }
  }

  /** An address is in a list of the record exactly when a strategy that
      ran offered it to that list. */
  lemma StoredIffOffered(hostname: string, lk: Lookups)
    requires lk.fqdn.Returned?
    ensures forall x :: x in HostInfo(hostname, lk).ipv4 <==> x in Found4(lk, 1) || x in Found4(lk, 2) || x in Found4(lk, 3)
    ensures forall x :: x in HostInfo(hostname, lk).ipv6 <==> x in Found6(lk, 1) || x in Found6(lk, 2) || x in Found6(lk, 3)
  {
    StageFromOffered(lk, 3);
    OfferedAll(lk);
    InsertAllProperties([], Offered4(lk, 3));
    InsertAllProperties([], Offered6(lk, 3));
  }

  /** First-seen order: each list of the record is the order-preserving
      de-duplication of everything the strategies that ran offered to it,
      strategy 1's answer first, then strategy 2's, then strategy 3's. */
  lemma FirstSeenOrder(hostname: string, lk: Lookups)
    requires lk.fqdn.Returned?
    ensures HostInfo(hostname, lk).ipv4 == FirstOccurrences([], Found4(lk, 1) + Found4(lk, 2) + Found4(lk, 3))
    ensures HostInfo(hostname, lk).ipv6 == FirstOccurrences([], Found6(lk, 1) + Found6(lk, 2) + Found6(lk, 3))
  {
    StageFromOffered(lk, 3);
    OfferedAll(lk);
    InsertAllFirstSeen([], Offered4(lk, 3));
    InsertAllFirstSeen([], Offered6(lk, 3));
  }

  /** Completeness: every AF_INET address of strategy 1, zone-stripped, is
      in ipv4 and every AF_INET6 one in ipv6; every address of strategy 2 is
      in ipv4 as given; every address of strategy 3, zone-stripped, is in
      ipv6 -- for each strategy that returned and ran. */
  lemma FoundAddressesStored(hostname: string, lk: Lookups)
    requires lk.fqdn.Returned?
    ensures lk.unspecified.Returned? ==>
      forall e :: e in lk.unspecified.value ==>
        (e.0 == Inet ==> StripZone(e.1) in HostInfo(hostname, lk).ipv4) &&
        (e.0 == Inet6 ==> StripZone(e.1) in HostInfo(hostname, lk).ipv6)
    ensures !Escapes(lk.unspecified) && lk.inet.Returned? ==>
      forall e :: e in lk.inet.value ==> e.1 in HostInfo(hostname, lk).ipv4
    ensures !Escapes(lk.unspecified) && !Escapes(lk.inet) && lk.inet6.Returned? ==>
      forall e :: e in lk.inet6.value ==> StripZone(e.1) in HostInfo(hostname, lk).ipv6
  {
    StoredIffOffered(hostname, lk);
    if lk.unspecified.Returned? {
      assert Found4(lk, 1) == Ipv4Candidates(ByFamily(true), lk.unspecified.value);
      assert Found6(lk, 1) == Ipv6Candidates(ByFamily(true), lk.unspecified.value);
      ByFamilyCovers(true, lk.unspecified.value);
    }
    if !Escapes(lk.unspecified) && lk.inet.Returned? {
      assert Stage(lk, 1).Running?;
      assert Found4(lk, 2) == Ipv4Candidates(AllToIpv4, lk.inet.value);
      AllToCovers(lk.inet.value);
    }
    if !Escapes(lk.unspecified) && !Escapes(lk.inet) && lk.inet6.Returned? {
      assert Stage(lk, 1).Running?;
      assert Stage(lk, 2).Running?;
      assert Found6(lk, 3) == Ipv6Candidates(AllToIpv6, lk.inet6.value);
      AllToCovers(lk.inet6.value);
    }
  }

  /** Soundness for ipv4: every stored address is the zone-stripped address
      of an AF_INET entry of strategy 1 or an address of strategy 2. */
  lemma StoredIpv4Found(hostname: string, lk: Lookups, x: string)
    requires x in HostInfo(hostname, lk).ipv4
    ensures || (lk.unspecified.Returned? && exists e :: e in lk.unspecified.value && e.0 == Inet && StripZone(e.1) == x)
            || (lk.inet.Returned? && exists e :: e in lk.inet.value && e.1 == x)
  {
    StoredIffOffered(hostname, lk);
    if x in Found4(lk, 1) {
      ByFamilyRouting(true, lk.unspecified.value, x);
    } else if x in Found4(lk, 2) {
      var es := lk.inet.value;
      AllToIpv4Routing(es);
      var i :| 0 <= i < |Ipv4Candidates(AllToIpv4, es)| && Ipv4Candidates(AllToIpv4, es)[i] == x;
      assert es[i] in es;
    } else {
      AllToIpv6Routing(lk.inet6.value);
    }
  }

  /** Soundness for ipv6: every stored address is the zone-stripped address
      of an AF_INET6 entry of strategy 1 or of any entry of strategy 3. */
  lemma StoredIpv6Found(hostname: string, lk: Lookups, x: string)
    requires x in HostInfo(hostname, lk).ipv6
    ensures || (lk.unspecified.Returned? && exists e :: e in lk.unspecified.value && e.0 == Inet6 && StripZone(e.1) == x)
            || (lk.inet6.Returned? && exists e :: e in lk.inet6.value && StripZone(e.1) == x)
  {
    StoredIffOffered(hostname, lk);
    if x in Found6(lk, 1) {
      ByFamilyRouting(true, lk.unspecified.value, x);
    } else if x in Found6(lk, 3) {
      var es := lk.inet6.value;
      AllToIpv6Routing(es);
      var i :| 0 <= i < |Ipv6Candidates(AllToIpv6, es)| && Ipv6Candidates(AllToIpv6, es)[i] == x;
      assert es[i] in es;
    } else {
      AllToIpv4Routing(lk.inet.value);
    }
  }

  /** The error rule: both lists empty always comes with an error. When no
      strategy raises anything but gaierror, `error` is present exactly when
      both lists are empty (whatever `getfqdn` does, since its failure
      leaves both lists empty); when `getfqdn` does not raise anything else
      either, the text starts with "DNS lookup failed". */
  lemma ErrorRule(hostname: string, lk: Lookups)
    ensures HostInfo(hostname, lk).ipv4 == [] && HostInfo(hostname, lk).ipv6 == [] ==>
      HostInfo(hostname, lk).error.Some?
    ensures NoStrategyEscapes(lk) ==>
      (HostInfo(hostname, lk).error.Some? <==> HostInfo(hostname, lk).ipv4 == [] && HostInfo(hostname, lk).ipv6 == [])
    ensures NothingEscapes(lk) && HostInfo(hostname, lk).error.Some? ==>
      DnsLookupFailed <= HostInfo(hostname, lk).error.value
  {
    if NoStrategyEscapes(lk) && lk.fqdn.Returned? {
      RunningUnlessEscaped(lk, 3);
    }
  }

  /** An exception other than gaierror in strategy `k` ends the lookup: the
      error is "Error: " and its text, the lists keep what strategies before
      `k` found, and no later strategy runs. */
  lemma EscapeRecorded(hostname: string, lk: Lookups, k: nat)
    requires lk.fqdn.Returned? && 1 <= k <= 3
    requires forall j :: 1 <= j < k ==> !Escapes(StrategyAnswer(lk, j))
    requires Escapes(StrategyAnswer(lk, k))
    ensures HostInfo(hostname, lk).error == Some("Error: " + StrategyAnswer(lk, k).exc.message)
    ensures HostInfo(hostname, lk).ipv4 == Stage(lk, k - 1).lists.ipv4
    ensures HostInfo(hostname, lk).ipv6 == Stage(lk, k - 1).lists.ipv6
  {
    RunningUnlessEscaped(lk, k - 1);
    assert Stage(lk, k) == Aborted(Stage(lk, k - 1).lists, StrategyAnswer(lk, k).exc);
    AbortedStays(lk, k);
  }

  /** A literal IPv4 address: when the AF_UNSPEC lookup answers with the
      address itself (any number of times, once per socket type), the AF_INET
      lookup answers likewise (or with nothing) and AF_INET6 raises gaierror,
      the record holds exactly that address in ipv4, nothing in ipv6, and no
      error. */
  lemma LiteralIpv4(hostname: string, name: string, unspecified: seq<AddrInfo>, inet: seq<AddrInfo>, msg: string)
    requires '%' !in hostname
    requires unspecified != []
    requires forall e :: e in unspecified ==> e == (Inet, hostname)
    requires forall e :: e in inet ==> e == (Inet, hostname)
    ensures var rec := HostInfo(hostname, Lookups(Returned(name), Returned(unspecified), Returned(inet), Raised(GaiError(msg))));
      rec.ipv4 == [hostname] && rec.ipv6 == [] && rec.error == None
  {
    var lk := Lookups(Returned(name), Returned(unspecified), Returned(inet), Raised(GaiError(msg)));
    var l := Lists([hostname], []);
    LiteralMerges(hostname, unspecified, inet);
    assert Stage(lk, 1) == Running(l);
    assert Stage(lk, 2) == Running(l);
    assert Stage(lk, 3) == Running(l);
  }

  /** Strategies 1 and 2 on answers that only repeat `(AF_INET, hostname)`. */
  lemma LiteralMerges(hostname: string, unspecified: seq<AddrInfo>, inet: seq<AddrInfo>)
    requires '%' !in hostname
    requires unspecified != []
    requires forall e :: e in unspecified ==> e == (Inet, hostname)
    requires forall e :: e in inet ==> e == (Inet, hostname)
    ensures Merge(ByFamily(true), NoAddresses, unspecified) == Lists([hostname], [])
    ensures Merge(AllToIpv4, Lists([hostname], []), inet) == Lists([hostname], [])
  {
    SameInetCandidates(ByFamily(true), hostname, unspecified);
    SameInetCandidates(AllToIpv4, hostname, inet);
    var cs := Ipv4Candidates(ByFamily(true), unspecified);
    assert cs[0] in cs;
    assert cs == [hostname] + cs[1..];
    assert forall c :: c in cs[1..] ==> c in cs;
    InsertAllCons([], hostname, cs[1..]);
    assert Insert([], hostname) == [hostname];
    InsertAllPresent([hostname], cs[1..], hostname);
    InsertAllPresent([hostname], Ipv4Candidates(AllToIpv4, inet), hostname);
  }

  // ---------------------------------------------------------------------
  // The batch driver

  /** `Path(__file__).parent.parent / "results" / f"{input_file.stem}_results.json"`,
      as a sequence of path components below the project directory. */
  function OutputFile(projectDir: seq<string>, stem: string): (path: seq<string>)
    ensures |path| == |projectDir| + 2 && path[..|projectDir|] == projectDir
    ensures path[|projectDir|] == "results"
    ensures Batch.StemOf(path[|path| - 1]) == Some(stem)
  {
    Batch.ResultsFileNameRoundTrip(stem, Batch.ResultsFileName(stem));
    projectDir + ["results", Batch.ResultsFileName(stem)]
  }

  /** The loop `for hostname in hostnames: results.append(get_host_info(hostname))`,
      where `lookups[i]` is what the resolver does for the i-th call. */
  method ResolveAll(hostnames: seq<string>, lookups: seq<Lookups>) returns (results: seq<HostRecord>)
    requires |lookups| == |hostnames|
    ensures |results| == |hostnames|
    ensures forall i :: 0 <= i < |hostnames| ==> results[i] == HostInfo(hostnames[i], lookups[i])
  {
    results := [];
    for i := 0 to |hostnames|
      invariant |results| == i
      invariant forall j :: 0 <= j < i ==> results[j] == HostInfo(hostnames[j], lookups[j])
    {
      var info := GetHostInfo(hostnames[i], lookups[i]);
      results := results + [info];
    }
  }

  /** `main` after its argument checks: the hostnames of the file, one
      record per hostname in file order, and the path the records are
      written to. */
  method ProcessFile(lines: seq<string>, stem: string, projectDir: seq<string>, lookups: seq<Lookups>)
    returns (outputFile: seq<string>, results: seq<HostRecord>)
    requires |lookups| == |Batch.NonBlankLines(lines)|
    ensures outputFile == OutputFile(projectDir, stem)
    ensures |results| == |Batch.NonBlankLines(lines)|
    ensures forall i :: 0 <= i < |results| ==>
      results[i] == HostInfo(Batch.NonBlankLines(lines)[i], lookups[i])
  {
    var hostnames := Batch.NonBlankLines(lines);
    results := ResolveAll(hostnames, lookups);
    outputFile := OutputFile(projectDir, stem);
  }
}
