# host-ip: a Dafny model of the address merge-and-dedupe routine

host-ip is a batch DNS lookup utility. Each hostname from an input file is
resolved to its fully-qualified name and its IPv4 and IPv6 addresses, and
the records are written to a JSON file. The logic worth verifying is
`get_host_info`. It folds the answers of the platform resolver into two
lists, `ipv4` and `ipv6`, with an `if ip not in lst: lst.append(ip)` guard
on every append. Two revisions are modelled:

- **Current revision** (`src/get_host_ip.py`). Three getaddrinfo strategies
  run in a fixed order: AF_UNSPEC routed by family, AF_INET into ipv4, and
  AF_INET6 into ipv6. A strategy that raises `gaierror` is skipped. Zone ids
  (`%eth0`) are cut off before IPv6 addresses are stored. When both lists
  are empty at the end, `error` is "DNS lookup failed: No addresses found".
- **Old revision** (`get_host_ip.py` at the repository root). One getaddrinfo
  call, routed by family, with no zone stripping and no fallback strategies.
  Any exception sets `error`. A successful lookup never sets it.

The socket calls are not modelled. They become input values: each call
either returns a value or raises an exception, `gaierror` or any other,
with its `str(e)` text (`Resolver.Outcome`, `Resolver.Exception`). An
exception that is not gaierror escapes a strategy's `except` and reaches
the outer handler. The model does the same: the lists keep what was merged
so far, `error` becomes "Error: " plus the text, and no later strategy runs.

Modules:

- `Wrappers` (resolver.dfy): the `Option` type, used for the record's
  optional `fqdn` and `error` fields.
- `Resolver` (resolver.dfy): answer values, the record, the error texts.
- `AddressLists` (address_lists.dfy): the guarded append, the strategy
  loops, zone stripping, routing. Both revisions use it.
- `Batch` (batch.dfy): `line.strip()`, the blank-line filter and the
  results file name.
- `HostIp` (host_ip.dfy): the current revision.
- `LegacyHostIp` (legacy_host_ip.dfy): the old revision, and how it
  compares with the current one.

Each revision's `get_host_info` is a method. Its loops append to local
sequences, as the Python code appends to the dictionary's lists. The method
is proved equal to a specification function (`HostInfo`), and the lemmas
state what the source promises about that function. The dictionary is a
local value that is built and then returned. It is never an object shared
between calls, so the record is a datatype and not a class.

## Model

| member | source | states |
|---|---|---|
| Resolver.ErrorText | src/get_host_ip.py:66-69 | the error text starts with "DNS lookup failed" exactly for a gaierror, and ends with the exception's own text |
| AddressLists.InsertProperties | src/get_host_ip.py:44-45 | the guarded append keeps the old list as a prefix, the address is present afterwards, nothing else is added, and a duplicate-free list stays duplicate-free |
| AddressLists.InsertAllProperties | src/get_host_ip.py:42-45 | appending a sequence of candidates under the guard only extends the list, keeps it duplicate-free, and afterwards holds exactly the old entries and the candidates |
| AddressLists.InsertAllAppend | src/get_host_ip.py:22-58 | folding one answer and then the next is the same as folding their concatenation, so the strategies' answers combine in order |
| AddressLists.InsertAllFirstSeen | src/get_host_ip.py:24-35 | the guarded appends give the old list followed by each new candidate once, at its first occurrence, as an independent front-to-back de-duplication defines it |
| AddressLists.StripZonePrefix | src/get_host_ip.py:28-30 | `ip.split('%')[0]` is a prefix of the address with no '%' in it, and it stops only at a '%' |
| AddressLists.StripZoneNoZone | src/get_host_ip.py:29-30 | an address without '%' is stored unchanged |
| AddressLists.StripZoneAt | src/get_host_ip.py:55-56 | an address `a%z` whose `a` has no '%' is stored as `a`, whatever follows the first '%' |
| AddressLists.CandidatesMembership | src/get_host_ip.py:24-35 | an address is a candidate for a list exactly when some entry of the answer offers it to that list |
| AddressLists.ByFamilyRouting | src/get_host_ip.py:24-35 | routing by family: an address goes to ipv4 exactly when an AF_INET entry carries it and to ipv6 exactly when an AF_INET6 entry does (zone-stripped in strategy 1); other families are dropped |
| AddressLists.AllToIpv4Routing | src/get_host_ip.py:41-45 | strategy 2 offers every entry's address to ipv4, in answer order, unstripped and whatever its family, and offers nothing to ipv6 |
| AddressLists.AllToIpv6Routing | src/get_host_ip.py:51-58 | strategy 3 offers every entry's address to ipv6, in answer order and zone-stripped, and offers nothing to ipv4 |
| AddressLists.ByFamilyCovers | src/get_host_ip.py:32-35 | every AF_INET entry's address becomes an ipv4 candidate and every AF_INET6 entry's address an ipv6 candidate |
| AddressLists.AllToCovers | src/get_host_ip.py:42-58 | every entry's address becomes an ipv4 candidate of strategy 2, and its zone-stripped form an ipv6 candidate of strategy 3 |
| AddressLists.StrippedIpv6Candidates | src/get_host_ip.py:54-56 | every ipv6 candidate of strategies 1 and 3 is free of '%' |
| AddressLists.StripIrrelevantWithoutZones | src/get_host_ip.py:28-30 | when no address carries a zone id, routing with stripping and routing without it give the same candidates |
| AddressLists.MergeProperties | src/get_host_ip.py:32-35 | merging one answer only appends, keeps both lists duplicate-free, and afterwards a list holds exactly its old entries and the answer's candidates for it |
| AddressLists.SameInetCandidates | src/get_host_ip.py:24-45 | an answer whose entries all carry one AF_INET address without '%' offers that address once per entry to ipv4 and nothing to ipv6, under strategies 1 and 2 |
| AddressLists.InsertAllPresent | src/get_host_ip.py:44-45 | offering again only an address that is already in the list leaves the list unchanged |
| AddressLists.MergeSingle | src/get_host_ip.py:24-35 | merging a one-entry answer is at most one guarded append to each list, of what that entry offers |
| AddressLists.CandidatesStep | src/get_host_ip.py:24-26 | one more entry of the answer adds its own offer to the candidates so far |
| AddressLists.InsertAllOne | src/get_host_ip.py:32-35 | an entry offering zero or one address is at most one guarded append |
| AddressLists.MergeByFamily | src/get_host_ip.py:22-37 | the strategy-1 loop (and, with stripping off, the old revision's loop) computes exactly the merge of the answer, routed by family |
| AddressLists.MergeIntoIpv4 | src/get_host_ip.py:40-47 | the strategy-2 loop computes exactly the guarded appends of every address to ipv4 |
| AddressLists.MergeIntoIpv6 | src/get_host_ip.py:50-60 | the strategy-3 loop computes exactly the guarded appends of every zone-stripped address to ipv6 |
| Batch.TrimStartSuffix | src/get_host_ip.py:88 | `lstrip` leaves the suffix after the leading whitespace, and that suffix starts with a non-space |
| Batch.TrimEndPrefix | src/get_host_ip.py:88 | `rstrip` leaves the prefix before the trailing whitespace, and that prefix ends with a non-space |
| Batch.StripInfix | src/get_host_ip.py:88 | `line.strip()` is the infix between the leading and the trailing whitespace, with no whitespace at either end, and it is empty exactly for a blank line |
| Batch.StripIdempotent | src/get_host_ip.py:88 | stripping a stripped line changes nothing |
| Batch.NonBlankLines | src/get_host_ip.py:88 | the hostname filter yields no empty hostname and at most one hostname per line |
| Batch.NonBlankLinesConcat | src/get_host_ip.py:88 | the filter works line by line: the hostnames of a concatenation are the concatenated hostnames, so file order is kept |
| Batch.NonBlankLinesOfBareNames | get_host_ip.py:53 | lines that are already bare hostnames come out unchanged, duplicates included |
| Batch.NonBlankLinesMembership | src/get_host_ip.py:88 | a hostname comes out exactly when it is non-empty and some line strips to it |
| Batch.BlankAndDuplicateLines | src/get_host_ip.py:88 | on a sample file, the trailing newline is stripped, the blank line is dropped and the repeated hostname is kept twice |
| Batch.ResultsFileNameRoundTrip | get_host_ip.py:61 | the results file name is the stem followed by "_results.json", and the stem can be read back from it |
| Batch.ResultsFileNameInjective | src/get_host_ip.py:98 | two different stems never share a results file name |
| HostIp.AbortedStays | src/get_host_ip.py:68-69 | once an exception other than gaierror ends the lookup, no later strategy changes anything |
| HostIp.GetHostInfo | src/get_host_ip.py:6-71 | the routine's control flow (getfqdn, three strategy blocks, the error rule, the outer handlers) computes exactly the specification record |
| HostIp.HostnameAndFqdn | src/get_host_ip.py:8-17 | the record's hostname is the input exactly, and fqdn is set exactly when getfqdn returned, to its value |
| HostIp.AppendOnly | src/get_host_ip.py:22-60 | the lists after any number of strategies are prefixes of the lists after any later number |
| HostIp.GaiErrorSkipped | src/get_host_ip.py:36-37 | a strategy that raises gaierror leaves the progress exactly as it was |
| HostIp.RunningUnlessEscaped | src/get_host_ip.py:22-69 | the strategies keep running exactly as long as none has raised anything but gaierror |
| HostIp.AttemptRunning | src/get_host_ip.py:36-37 | one strategy block lets the lookup go on exactly when it was going and getaddrinfo raised nothing but gaierror |
| HostIp.StageInvariant | src/get_host_ip.py:22-60 | after every strategy both lists are duplicate-free, and ipv6 holds no address with '%' |
| HostIp.RecordInvariant | src/get_host_ip.py:57-58 | the record's ipv4 and ipv6 are duplicate-free, and no ipv6 entry contains '%' |
| HostIp.StageStep | src/get_host_ip.py:22-60 | each strategy's result is the guarded appends of what that strategy offers |
| HostIp.StageFromOffered | src/get_host_ip.py:22-60 | the lists after k strategies are the guarded appends, from empty lists, of everything those strategies offered |
| HostIp.StoredIffOffered | src/get_host_ip.py:32-58 | an address is in a list of the record exactly when a strategy that ran offered it to that list |
| HostIp.FirstSeenOrder | src/get_host_ip.py:22-60 | each list is the first-seen de-duplication of strategy 1's offers, then strategy 2's, then strategy 3's |
| HostIp.FoundAddressesStored | src/get_host_ip.py:32-58 | completeness: every AF_INET/AF_INET6 address of strategy 1 (stripped), every address of strategy 2, and every stripped address of strategy 3 is in its list, for each strategy that ran |
| HostIp.StoredIpv4Found | src/get_host_ip.py:32-45 | soundness: every ipv4 entry is a stripped AF_INET address of strategy 1 or an address of strategy 2 |
| HostIp.StoredIpv6Found | src/get_host_ip.py:34-58 | soundness: every ipv6 entry is a stripped AF_INET6 address of strategy 1 or a stripped address of strategy 3 |
| HostIp.ErrorRule | src/get_host_ip.py:62-69 | empty lists always come with an error; when no getaddrinfo strategy raises anything but gaierror, error is present exactly when both lists are empty, whatever getfqdn does; when getfqdn raises nothing else either, the text starts with "DNS lookup failed" |
| HostIp.EscapeRecorded | src/get_host_ip.py:68-69 | an exception other than gaierror in strategy k sets error to "Error: " and its text, and keeps the lists of the strategies before k |
| HostIp.LiteralIpv4 | src/get_host_ip.py:22-60 | a literal IPv4 address whose AF_UNSPEC answer repeats `(AF_INET, address)` any number of times, whose AF_INET answer repeats it or is empty, and whose AF_INET6 lookup raises gaierror, gives ipv4 equal to just that address, an empty ipv6 and no error |
| HostIp.LiteralMerges | src/get_host_ip.py:24-45 | on answers that only repeat `(AF_INET, address)`, strategy 1 stores the address once in ipv4 and strategy 2 then adds nothing |
| HostIp.OutputFile | src/get_host_ip.py:96-98 | the output path is the project directory, then "results", then a file whose stem reads back as the input's stem |
| HostIp.ResolveAll | src/get_host_ip.py:91-93 | one record per hostname, in order, each the record of that hostname's lookups |
| HostIp.ProcessFile | src/get_host_ip.py:84-104 | the run resolves exactly the filtered hostnames, in file order, and writes to the derived output path |
| LegacyHostIp.GetHostInfo | get_host_ip.py:6-36 | the old routine's control flow computes exactly its specification record |
| LegacyHostIp.HostnameAndFqdn | get_host_ip.py:8-17 | the hostname is the input exactly, and fqdn is set exactly when getfqdn returned |
| LegacyHostIp.FamilyRouting | get_host_ip.py:22-29 | an address is in ipv4 exactly when an AF_INET entry of a successful answer carries it, and in ipv6 exactly when an AF_INET6 entry does, unmodified; other families are ignored |
| LegacyHostIp.DuplicateFreeFirstSeen | get_host_ip.py:26-29 | both lists are duplicate-free and are the first-seen de-duplication of the answer's addresses of their family |
| LegacyHostIp.ErrorRule | get_host_ip.py:31-34 | error is set exactly when a call raised, both lists are then empty, and a gaierror gives a text starting with "DNS lookup failed" |
| LegacyHostIp.EmptyAnswerNoError | get_host_ip.py:20-29 | an empty answer gives empty lists and no error here, while the current revision reports "DNS lookup failed: No addresses found" |
| LegacyHostIp.ZoneIdKept | get_host_ip.py:24-29 | for any IPv6 address `a%z`, this revision stores it as it is, where the current revision stores `a` ("fe80::1%eth0" against "fe80::1") |
| LegacyHostIp.CurrentExtendsLegacy | src/get_host_ip.py:22-37 | with the same first answer and no zone ids, the current revision's lists start with everything the old revision finds, in the same order |
| LegacyHostIp.OutputFile | get_host_ip.py:61 | the output is the file name alone, relative to the working directory, and its stem reads back as the input's stem |
| LegacyHostIp.ResolveAll | get_host_ip.py:56-58 | one record per hostname, in order, each the record of that hostname's lookup |
| LegacyHostIp.ProcessFile | get_host_ip.py:49-67 | the run resolves exactly the filtered hostnames, in file order, and writes to the derived file name |

## Left out

- The resolver calls `socket.getfqdn` and `socket.getaddrinfo` are not modelled. They are foreign and network-bound. Their results are inputs (`Lookups`), with one answer per call. A hostname that repeats in the file may therefore get different answers.
- Exception texts (`str(e)`) are opaque strings carried by the exception value. Exceptions that are not `Exception` subclasses (for example KeyboardInterrupt) are not caught by the source and are not modelled.
- Command-line handling and file I/O are left out: `sys.argv`, the usage and file-not-found exits, opening and reading the file, `mkdir`, `json.dump` and the progress prints. The model starts from the file's lines as a sequence of strings.
- Splitting the file into lines is not modelled: iterating a text file is library behaviour.
- `Path.stem` is not modelled. Its handling of dots differs between Python versions. The stem is an input.
- `Path(__file__).parent.parent` is not modelled. It becomes the `projectDir` parameter of `HostIp.OutputFile`.
- `get_host_info` has no step that queries A/AAAA records directly (dnspython appears only in src/test_dns.py and the tests), so the model has none.
- One could expect `error` to be present exactly when both lists are empty. The code does not do that: an exception other than gaierror raised by a getaddrinfo strategy sets "Error: ..." even when earlier strategies found addresses. `HostIp.ErrorRule` therefore states the equivalence only when no strategy raises anything but gaierror.
- Strategy 2 stores addresses without zone stripping. So ipv4 is not proved free of '%', only ipv6 is.
- src/debug_host_ip.py and src/test_dns.py only print raw resolver output and are not part of this model. The tests whose outcome depends on the live resolver (localhost, google.com, cloudflare.com, address formats) are not modelled either.
