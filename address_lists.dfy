/** The merge-and-dedupe core shared by both revisions of `get_host_info`:
    the two address lists, the guarded append, zone-id stripping, and how a
    getaddrinfo answer is folded into the lists. */
module AddressLists {
  import opened Resolver

  /** The two lists of the result record while they are being filled. */
  datatype Lists = Lists(ipv4: seq<string>, ipv6: seq<string>)

  const NoAddresses: Lists := Lists([], [])

  predicate NoDuplicates(xs: seq<string>)
  {
    forall i, j :: 0 <= i < j < |xs| ==> xs[i] != xs[j]
  }

  predicate ListsDuplicateFree(l: Lists)
  {
    NoDuplicates(l.ipv4) && NoDuplicates(l.ipv6)
  }

  /** Both lists of `a` are prefixes of the lists of `b`: `b` was reached by
      appending only. */
  predicate Extends(a: Lists, b: Lists)
  {
    a.ipv4 <= b.ipv4 && a.ipv6 <= b.ipv6
  }

  // ---------------------------------------------------------------------
  // The guarded append `if ip not in lst: lst.append(ip)`

  function Insert(xs: seq<string>, x: string): seq<string>
  {
    if x in xs then xs else xs + [x]
  }

  /** The guarded append keeps the list in front, makes the address present,
      adds nothing else, and never creates a duplicate. */
  lemma InsertProperties(xs: seq<string>, x: string)
    ensures xs <= Insert(xs, x) && x in Insert(xs, x)
    ensures forall y :: y in Insert(xs, x) <==> y in xs || y == x
    ensures NoDuplicates(xs) ==> NoDuplicates(Insert(xs, x))
  {
  }

  /** The guarded append applied to every candidate of `cs`, in order. */
  function InsertAll(xs: seq<string>, cs: seq<string>): seq<string>
    decreases |cs|
  {
    if cs == [] then xs else Insert(InsertAll(xs, cs[..|cs| - 1]), cs[|cs| - 1])
  }

  /** The guarded appends only extend the list, keep it free of duplicates,
      and leave in it exactly what was there and the candidates. */
  lemma {:induction false} InsertAllProperties(xs: seq<string>, cs: seq<string>)
    ensures xs <= InsertAll(xs, cs)
    ensures forall y :: y in InsertAll(xs, cs) <==> y in xs || y in cs
    ensures NoDuplicates(xs) ==> NoDuplicates(InsertAll(xs, cs))
    decreases |cs|
  {
    if cs != [] {
      var init := cs[..|cs| - 1];
      InsertAllProperties(xs, init);
      InsertProperties(InsertAll(xs, init), cs[|cs| - 1]);
      assert cs == init + [cs[|cs| - 1]];
    }
  }

  /** Order-preserving de-duplication, stated independently of `InsertAll`:
      walk the candidates from the front and keep each one the first time it
      is seen. */
  function FirstOccurrences(seen: seq<string>, cs: seq<string>): seq<string>
    decreases |cs|
  {
    if cs == [] then []
    else if cs[0] in seen then FirstOccurrences(seen, cs[1..])
    else [cs[0]] + FirstOccurrences(seen + [cs[0]], cs[1..])
  }

  lemma {:induction false} InsertAllSnoc(xs: seq<string>, cs: seq<string>, c: string)
    ensures InsertAll(xs, cs + [c]) == Insert(InsertAll(xs, cs), c)
  {
    assert (cs + [c])[..|cs|] == cs;
  }

  lemma {:induction false} InsertAllCons(xs: seq<string>, c: string, cs: seq<string>)
    ensures InsertAll(xs, [c] + cs) == InsertAll(Insert(xs, c), cs)
    decreases |cs|
  {
    if cs == [] {
      assert [c] + cs == [] + [c];
      InsertAllSnoc(xs, [], c);
    } else {
      var init, last := cs[..|cs| - 1], cs[|cs| - 1];
      assert cs == init + [last];
      assert [c] + cs == ([c] + init) + [last];
      InsertAllSnoc(xs, [c] + init, last);
      InsertAllCons(xs, c, init);
      InsertAllSnoc(Insert(xs, c), init, last);
    }
  }

  /** Folding two candidate sequences one after the other is folding their
      concatenation. */
  lemma {:induction false} InsertAllAppend(xs: seq<string>, a: seq<string>, b: seq<string>)
    ensures InsertAll(xs, a + b) == InsertAll(InsertAll(xs, a), b)
    decreases |b|
  {
    if b == [] {
      assert a + b == a;
    } else {
      var init, last := b[..|b| - 1], b[|b| - 1];
      assert b == init + [last];
      assert a + b == (a + init) + [last];
      InsertAllSnoc(xs, a + init, last);
      InsertAllAppend(xs, a, init);
      InsertAllSnoc(InsertAll(xs, a), init, last);
    }
  }

  /** The guarded appends keep `xs` in front and add each new candidate at the
      place where it is first seen, once. */
  lemma {:induction false} InsertAllFirstSeen(xs: seq<string>, cs: seq<string>)
    ensures InsertAll(xs, cs) == xs + FirstOccurrences(xs, cs)
    decreases |cs|
  {
    if cs == [] {
      assert xs + [] == xs;
    } else {
      var c, rest := cs[0], cs[1..];
      assert cs == [c] + rest;
      InsertAllCons(xs, c, rest);
      InsertAllFirstSeen(Insert(xs, c), rest);
      if c in xs {
        assert FirstOccurrences(xs, cs) == FirstOccurrences(xs, rest);
      } else {
        assert FirstOccurrences(xs, cs) == [c] + FirstOccurrences(xs + [c], rest);
        var tail := FirstOccurrences(xs + [c], rest);
        assert (xs + [c]) + tail == xs + ([c] + tail);
      }
    }
  }

  // ---------------------------------------------------------------------
  // Zone-id stripping

  /** `ip.split('%')[0]`: the text before the first '%', all of it when there
      is none. */
  function StripZone(ip: string): string
    decreases |ip|
  {
    if ip == [] || ip[0] == '%' then [] else [ip[0]] + StripZone(ip[1..])
  }

  /** The three properties that single out `ip.split('%')[0]`: a prefix of
      the address, free of '%', and ending only where a '%' starts. */
  lemma {:induction false} StripZonePrefix(ip: string)
    ensures StripZone(ip) <= ip
    ensures '%' !in StripZone(ip)
    ensures |StripZone(ip)| < |ip| ==> ip[|StripZone(ip)|] == '%'
    decreases |ip|
  {
    if ip != [] && ip[0] != '%' {
      var t := ip[1..];
      StripZonePrefix(t);
      var r := StripZone(ip);
      assert r == [ip[0]] + StripZone(t);
      assert ip == [ip[0]] + t;
      if |r| < |ip| {
        assert ip[|r|] == t[|StripZone(t)|];
      }
    }
  }

  /** An address without a zone id is stored as it is. */
  lemma {:induction false} StripZoneNoZone(ip: string)
    requires '%' !in ip
    ensures StripZone(ip) == ip
    decreases |ip|
  {
    if ip != [] {
      assert ip[0] in ip;
      assert forall c :: c in ip[1..] ==> c in ip;
      StripZoneNoZone(ip[1..]);
      assert [ip[0]] + ip[1..] == ip;
    }
  }

  /** An address with a zone id is stored as the text before its first '%'. */
  lemma {:induction false} StripZoneAt(a: string, z: string)
    requires '%' !in a
    ensures StripZone(a + "%" + z) == a
    decreases |a|
  {
    var ip := a + "%" + z;
    if a == [] {
      assert ip[0] == '%';
    } else {
      assert a[0] in a;
      assert ip[1..] == a[1..] + "%" + z;
      assert forall c :: c in a[1..] ==> c in a;
      StripZoneAt(a[1..], z);
      assert [a[0]] + a[1..] == a;
    }
  }

  function StripIf(strip: bool, ip: string): string
  {
    if strip then StripZone(ip) else ip
  }

  // ---------------------------------------------------------------------
  // How one answer entry is routed

  /** How the entries of one getaddrinfo answer are folded into the lists:
      by family (strategy 1 of the current revision, with zone stripping;
      the single lookup of the old revision, without), everything into ipv4
      (strategy 2), or everything, zone-stripped, into ipv6 (strategy 3). */
  datatype Policy = ByFamily(stripZone: bool) | AllToIpv4 | AllToIpv6

  /** True when every ipv6 candidate of the policy is zone-stripped. */
  predicate StripsIpv6(p: Policy)
  {
    p != ByFamily(false)
  }

  /** The address (zero or one) that entry `e` offers to ipv4. */
  function Ipv4Of(p: Policy, e: AddrInfo): seq<string>
  {
    match p
    case ByFamily(strip) => if e.0 == Inet then [StripIf(strip, e.1)] else []
    case AllToIpv4 => [e.1]
    case AllToIpv6 => []
  }

  /** The address (zero or one) that entry `e` offers to ipv6. */
  function Ipv6Of(p: Policy, e: AddrInfo): seq<string>
  {
    match p
    case ByFamily(strip) => if e.0 == Inet6 then [StripIf(strip, e.1)] else []
    case AllToIpv4 => []
    case AllToIpv6 => [StripZone(e.1)]
  }

  /** The ipv4 candidates of an answer, in answer order. */
  function Ipv4Candidates(p: Policy, es: seq<AddrInfo>): seq<string>
    decreases |es|
  {
    if es == [] then [] else Ipv4Candidates(p, es[..|es| - 1]) + Ipv4Of(p, es[|es| - 1])
  }

  /** The ipv6 candidates of an answer, in answer order. */
  function Ipv6Candidates(p: Policy, es: seq<AddrInfo>): seq<string>
    decreases |es|
  {
    if es == [] then [] else Ipv6Candidates(p, es[..|es| - 1]) + Ipv6Of(p, es[|es| - 1])
  }

  lemma {:induction false} CandidatesMembership(p: Policy, es: seq<AddrInfo>, x: string)
    ensures x in Ipv4Candidates(p, es) <==> exists e :: e in es && x in Ipv4Of(p, e)
    ensures x in Ipv6Candidates(p, es) <==> exists e :: e in es && x in Ipv6Of(p, e)
    decreases |es|
  {
    if es != [] {
      var init, last := es[..|es| - 1], es[|es| - 1];
      assert es == init + [last];
      CandidatesMembership(p, init, x);
      forall e | e in es ensures e in init || e == last { }
    }
  }

  /** Routing by family: an address goes to ipv4 exactly when some entry of
      family AF_INET carries it, to ipv6 exactly when some AF_INET6 entry
      does; entries of other families are dropped. With `stripZone` the
      address is the one with its zone id removed, otherwise it is unmodified. */
  lemma ByFamilyRouting(strip: bool, es: seq<AddrInfo>, x: string)
    ensures x in Ipv4Candidates(ByFamily(strip), es)
        <==> exists e :: e in es && e.0 == Inet && StripIf(strip, e.1) == x
    ensures x in Ipv6Candidates(ByFamily(strip), es)
        <==> exists e :: e in es && e.0 == Inet6 && StripIf(strip, e.1) == x
  {
    CandidatesMembership(ByFamily(strip), es, x);
  }

  /** Strategy 2 sends every entry's address, unstripped and whatever its
      family, to ipv4, in answer order, and nothing to ipv6. */
  lemma {:induction false} AllToIpv4Routing(es: seq<AddrInfo>)
    ensures |Ipv4Candidates(AllToIpv4, es)| == |es|
    ensures forall i :: 0 <= i < |es| ==> Ipv4Candidates(AllToIpv4, es)[i] == es[i].1
    ensures Ipv6Candidates(AllToIpv4, es) == []
    decreases |es|
  {
    if es != [] {
      var init := es[..|es| - 1];
      AllToIpv4Routing(init);
      assert Ipv4Candidates(AllToIpv4, es) == Ipv4Candidates(AllToIpv4, init) + [es[|es| - 1].1];
      forall i | 0 <= i < |es| ensures Ipv4Candidates(AllToIpv4, es)[i] == es[i].1 {
        if i < |init| {
          assert init[i] == es[i];
        }
      }
    }
  }

  /** Strategy 3 sends every entry's address, zone-stripped and whatever its
      family, to ipv6, in answer order, and nothing to ipv4. */
  lemma {:induction false} AllToIpv6Routing(es: seq<AddrInfo>)
    ensures |Ipv6Candidates(AllToIpv6, es)| == |es|
    ensures forall i :: 0 <= i < |es| ==> Ipv6Candidates(AllToIpv6, es)[i] == StripZone(es[i].1)
    ensures Ipv4Candidates(AllToIpv6, es) == []
    decreases |es|
  {
    if es != [] {
      var init := es[..|es| - 1];
      AllToIpv6Routing(init);
      assert Ipv6Candidates(AllToIpv6, es) == Ipv6Candidates(AllToIpv6, init) + [StripZone(es[|es| - 1].1)];
      forall i | 0 <= i < |es| ensures Ipv6Candidates(AllToIpv6, es)[i] == StripZone(es[i].1) {
        if i < |init| {
          assert init[i] == es[i];
        }
      }
    }
  }

  /** Completeness of routing by family: the address of every AF_INET entry
      is an ipv4 candidate and that of every AF_INET6 entry an ipv6 one. */
  lemma ByFamilyCovers(strip: bool, es: seq<AddrInfo>)
    ensures forall e :: e in es && e.0 == Inet ==> StripIf(strip, e.1) in Ipv4Candidates(ByFamily(strip), es)
    ensures forall e :: e in es && e.0 == Inet6 ==> StripIf(strip, e.1) in Ipv6Candidates(ByFamily(strip), es)
  {
    forall e | e in es && e.0 == Inet ensures StripIf(strip, e.1) in Ipv4Candidates(ByFamily(strip), es) {
      ByFamilyRouting(strip, es, StripIf(strip, e.1));
    }
    forall e | e in es && e.0 == Inet6 ensures StripIf(strip, e.1) in Ipv6Candidates(ByFamily(strip), es) {
      ByFamilyRouting(strip, es, StripIf(strip, e.1));
    }
  }

  /** Completeness of strategies 2 and 3: every entry's address is an ipv4
      candidate of strategy 2, and its zone-stripped address an ipv6
      candidate of strategy 3. */
  lemma AllToCovers(es: seq<AddrInfo>)
    ensures forall e :: e in es ==> e.1 in Ipv4Candidates(AllToIpv4, es)
    ensures forall e :: e in es ==> StripZone(e.1) in Ipv6Candidates(AllToIpv6, es)
  {
    AllToIpv4Routing(es);
    AllToIpv6Routing(es);
    forall e | e in es
      ensures e.1 in Ipv4Candidates(AllToIpv4, es) && StripZone(e.1) in Ipv6Candidates(AllToIpv6, es)
    {
      var i :| 0 <= i < |es| && es[i] == e;
      assert Ipv4Candidates(AllToIpv4, es)[i] == e.1;
      assert Ipv6Candidates(AllToIpv6, es)[i] == StripZone(e.1);
    }
  }

  /** On an answer with no zone ids, routing by family gives the same
      candidates with or without stripping. */
  lemma {:induction false} StripIrrelevantWithoutZones(es: seq<AddrInfo>)
    requires forall e :: e in es ==> '%' !in e.1
    ensures Ipv4Candidates(ByFamily(true), es) == Ipv4Candidates(ByFamily(false), es)
    ensures Ipv6Candidates(ByFamily(true), es) == Ipv6Candidates(ByFamily(false), es)
    decreases |es|
  {
    if es != [] {
      var init, last := es[..|es| - 1], es[|es| - 1];
      assert last in es;
      assert forall e :: e in init ==> e in es;
      StripZoneNoZone(last.1);
      StripIrrelevantWithoutZones(init);
    }
  }

  /** A policy that strips zone ids offers ipv6 only addresses without '%'. */
  lemma {:induction false} StrippedIpv6Candidates(p: Policy, es: seq<AddrInfo>)
    requires StripsIpv6(p)
    ensures forall x :: x in Ipv6Candidates(p, es) ==> '%' !in x
    decreases |es|
  {
    if es != [] {
      var init, last := es[..|es| - 1], es[|es| - 1];
      StrippedIpv6Candidates(p, init);
      StripZonePrefix(last.1);
      assert Ipv6Candidates(p, es) == Ipv6Candidates(p, init) + Ipv6Of(p, last);
      assert forall x :: x in Ipv6Of(p, last) ==> x == StripZone(last.1);
    }
  }

  // ---------------------------------------------------------------------
  // Folding one answer into the lists

  /** The lists after every entry of `es` has been routed under policy `p`. */
  function Merge(p: Policy, acc: Lists, es: seq<AddrInfo>): Lists
  {
    Lists(InsertAll(acc.ipv4, Ipv4Candidates(p, es)), InsertAll(acc.ipv6, Ipv6Candidates(p, es)))
  }

  /** What a merge guarantees: it only appends, keeps the lists free of
      duplicates, and afterwards an address is in a list exactly when it was
      there before or is one of the answer's candidates for that list. */
  lemma MergeProperties(p: Policy, acc: Lists, es: seq<AddrInfo>)
    ensures Extends(acc, Merge(p, acc, es))
    ensures ListsDuplicateFree(acc) ==> ListsDuplicateFree(Merge(p, acc, es))
    ensures forall x :: x in Merge(p, acc, es).ipv4 <==> x in acc.ipv4 || x in Ipv4Candidates(p, es)
    ensures forall x :: x in Merge(p, acc, es).ipv6 <==> x in acc.ipv6 || x in Ipv6Candidates(p, es)
  {
    InsertAllProperties(acc.ipv4, Ipv4Candidates(p, es));
    InsertAllProperties(acc.ipv6, Ipv6Candidates(p, es));
  }

  /** An answer whose entries all carry the AF_INET address `h` (as for a
      literal IPv4 address, once per socket type) offers only `h`, once per
      entry, and only to ipv4, under strategies 1 and 2. */
  lemma {:induction false} SameInetCandidates(p: Policy, h: string, es: seq<AddrInfo>)
    requires p == ByFamily(true) || p == AllToIpv4
    requires '%' !in h
    requires forall e :: e in es ==> e == (Inet, h)
    ensures |Ipv4Candidates(p, es)| == |es|
    ensures forall c :: c in Ipv4Candidates(p, es) ==> c == h
    ensures Ipv6Candidates(p, es) == []
    decreases |es|
  {
    if es != [] {
      var init, last := es[..|es| - 1], es[|es| - 1];
      assert last in es;
      assert forall e :: e in init ==> e in es;
      SameInetCandidates(p, h, init);
      StripZoneNoZone(h);
      assert Ipv4Of(p, last) == [h];
      assert Ipv6Of(p, last) == [];
    }
  }

  /** Offering again an address that is already in the list changes nothing. */
  lemma {:induction false} InsertAllPresent(xs: seq<string>, cs: seq<string>, h: string)
    requires h in xs
    requires forall c :: c in cs ==> c == h
    ensures InsertAll(xs, cs) == xs
    decreases |cs|
  {
    if cs != [] {
      var init := cs[..|cs| - 1];
      assert cs[|cs| - 1] in cs;
      assert forall c :: c in init ==> c in cs;
      InsertAllPresent(xs, init, h);
    }
  }

  /** An answer of one entry offers each list what that entry offers it. */
  lemma MergeSingle(p: Policy, acc: Lists, e: AddrInfo)
    ensures Merge(p, acc, [e]) == Lists(InsertAll(acc.ipv4, Ipv4Of(p, e)), InsertAll(acc.ipv6, Ipv6Of(p, e)))
  {
    assert [e][..0] == [];
    assert Ipv4Candidates(p, [e]) == [] + Ipv4Of(p, e) == Ipv4Of(p, e);
    assert Ipv6Candidates(p, [e]) == [] + Ipv6Of(p, e) == Ipv6Of(p, e);
  }

  /** Entry `i + 1` of an answer extends the candidates of entries `..i` by
      what that entry offers. */
  lemma CandidatesStep(p: Policy, es: seq<AddrInfo>, i: nat)
    requires i < |es|
    ensures Ipv4Candidates(p, es[..i + 1]) == Ipv4Candidates(p, es[..i]) + Ipv4Of(p, es[i])
    ensures Ipv6Candidates(p, es[..i + 1]) == Ipv6Candidates(p, es[..i]) + Ipv6Of(p, es[i])
  {
    assert es[..i + 1][..i] == es[..i];
  }

  /** Appending zero or one candidate is at most one guarded append. */
  lemma InsertAllOne(xs: seq<string>, cs: seq<string>, d: seq<string>)
    requires |d| <= 1
    ensures InsertAll(xs, cs + d) == if d == [] then InsertAll(xs, cs) else Insert(InsertAll(xs, cs), d[0])
  {
    if d == [] {
      assert cs + d == cs;
    } else {
      assert d == [d[0]];
      InsertAllSnoc(xs, cs, d[0]);
    }
  }

  /** The loop over the answer of an unspecified-family lookup: each address,
      zone-stripped when `stripZone` is set, is appended to ipv4 for AF_INET
      and to ipv6 for AF_INET6 unless already there. */
  method MergeByFamily(ipv4: seq<string>, ipv6: seq<string>, es: seq<AddrInfo>, stripZone: bool)
    returns (ipv4': seq<string>, ipv6': seq<string>)
    ensures Lists(ipv4', ipv6') == Merge(ByFamily(stripZone), Lists(ipv4, ipv6), es)
  {
    ghost var p := ByFamily(stripZone);
    ipv4', ipv6' := ipv4, ipv6;
    for i := 0 to |es|
      invariant Lists(ipv4', ipv6') == Merge(p, Lists(ipv4, ipv6), es[..i])
    {
      var family, ip := es[i].0, es[i].1;
      if stripZone && '%' in ip {
        ip := StripZone(ip);
      }
      CandidatesStep(p, es, i);
      InsertAllOne(ipv4, Ipv4Candidates(p, es[..i]), Ipv4Of(p, es[i]));
      InsertAllOne(ipv6, Ipv6Candidates(p, es[..i]), Ipv6Of(p, es[i]));
      if stripZone && '%' !in es[i].1 {
        StripZoneNoZone(es[i].1);
      }
      if family == Inet && ip !in ipv4' {
        ipv4' := ipv4' + [ip];
      } else if family == Inet6 && ip !in ipv6' {
        ipv6' := ipv6' + [ip];
      }
    }
    assert es[..|es|] == es;
  }

  /** The loop of strategy 2: every address is appended to ipv4 unless
      already there. */
  method MergeIntoIpv4(ipv4: seq<string>, es: seq<AddrInfo>) returns (ipv4': seq<string>)
    ensures ipv4' == InsertAll(ipv4, Ipv4Candidates(AllToIpv4, es))
  {
    ipv4' := ipv4;
    for i := 0 to |es|
      invariant ipv4' == InsertAll(ipv4, Ipv4Candidates(AllToIpv4, es[..i]))
    {
      var ip := es[i].1;
      CandidatesStep(AllToIpv4, es, i);
      InsertAllSnoc(ipv4, Ipv4Candidates(AllToIpv4, es[..i]), ip);
      if ip !in ipv4' {
        ipv4' := ipv4' + [ip];
      }
    }
    assert es[..|es|] == es;
  }

  /** The loop of strategy 3: every address, zone-stripped, is appended to
      ipv6 unless already there. */
  method MergeIntoIpv6(ipv6: seq<string>, es: seq<AddrInfo>) returns (ipv6': seq<string>)
    ensures ipv6' == InsertAll(ipv6, Ipv6Candidates(AllToIpv6, es))
  {
    ipv6' := ipv6;
    for i := 0 to |es|
      invariant ipv6' == InsertAll(ipv6, Ipv6Candidates(AllToIpv6, es[..i]))
    {
      var ip := es[i].1;
      if '%' in ip {
        ip := StripZone(ip);
      } else {
        StripZoneNoZone(ip);
      }
      CandidatesStep(AllToIpv6, es, i);
      InsertAllSnoc(ipv6, Ipv6Candidates(AllToIpv6, es[..i]), ip);
      if ip !in ipv6' {
        ipv6' := ipv6' + [ip];
      }
    }
    assert es[..|es|] == es;
  }
}
