# zonefile-rs resolution engine in Dafny

This project models the resolution engine of zonefile-rs, a generator of DNS
zone files. The engine turns a decoded zone description (global defaults, forward
zones and reverse networks) into validated records:

- it checks DNS names and e-mail addresses;
- it completes relative host names to fully qualified names;
- it expands hosts into A/AAAA records and PTR candidates;
- it applies per-zone defaults;
- it names reverse zones in the IN-ADDR.ARPA octet form (section 3.5 of RFC 1035)
  and the IP6.ARPA nibble form (section 2.5 of RFC 3596);
- it gathers the PTR candidates of all forward zones into one pool and rejects
  duplicate addresses;
- it rejects overlapping reverse networks and hands each one the PTRs it contains;
- it computes the zone serial number;
- it renders the NSD zone file, including owner-name stripping, TTL omission,
  apex-first ordering, repeated-owner suppression and PTR labelling.

Modules, one per source file or concern:

| module | models |
|---|---|
| `Common` | `Option`, `Result`, `Outcome` (check passed or failed with an error), the error kinds, the integer widths `U8`…`U64`/`I64`, and the `collect`-into-`Result` helpers `MapAll` and `FirstFailure` |
| `Text` | trimming by the Unicode `White_Space` set, split/join, `split_once`, the UTF-8 byte length that Rust's `len()` reports, and decimal text of integers |
| `Net` | addresses as 4 or 16 octets, networks as address plus prefix length, containment, overlap and the network address |
| `Records` | the record structs |
| `Validation` | `validate_dns_name` and `validate_email`, each as a checking function plus a reference predicate (`IsDnsName`, `IsEmail`) |
| `Entries` | the decoded input shapes: the scalar-or-list and string-or-table unions, zones, the TTL range check, and the SRV map key check |
| `Transform` | `parse_host_str`, `parse_srv_name`, `parse_email`, the record derivations, `parse_hosts` and `parse_forward` |
| `Reverse` | `create_reverse_zone_name`, `ip_name` and `parse_reverse` |
| `Parser` | `SessionDefaults::from_raw` and the zone loop and PTR pool of `parse` |
| `Serial` | `calc_serial` and the text rules of `load_serial` and `save_serial` |
| `Sorting` | a reference sort and the string order |
| `Nsd` | the helpers of `write_nsd` |

Where the source works step by step, the model does too. These members are methods
with loops, each proved against a specification function:

- host expansion: `Transform.ParseHosts`, `Transform.ExpandAddresses`, `Transform.AddressBlock`;
- the SRV map visitor: `Entries.DecodeSrvMap`;
- PTR pool insertion: `Parser.AddPtrs`;
- the zone loop: `Parser.ResolveZones`, called by `Parser.Parse`;
- the reverse-network loop and its `extract_if` drain: `Reverse.ParseReverse`, `Reverse.Drain`;
- the NSD emission loops: `Nsd.WriteHosts`, `Nsd.WritePtrLines`.

Hash maps are modelled as sequences of pairs, in iteration order. The per-zone fields
`serial`, `email`, `nameserver` and the timers are declared on `ZoneBaseEntry`, which
`Zone` and `ReverseEntry` flatten into their `base` field (src/parser.rs:450-451,
464-465, 712-713). The model reads them from `base` (`raw.base.email`, `entry.base.serial`).
`parse_forward` and `parse_reverse` read them as `raw.email` or `entry.serial` directly
(src/transform.rs:318-333, 399-410), which does not match the field layout shown at those
lines of src/parser.rs. The model takes the flattened field to be what those reads mean.

## Model

| member | source | states |
|---|---|---|
| Validation.CheckDnsLabel | src/validation.rs:12-35 | passes iff the label is non-empty and at most 63 bytes, and is either `*` at position 0 or an ordinary label: no hyphen at either end, only alphanumerics, `-` and `_` |
| Validation.CheckDnsLabels | src/validation.rs:11-36 | passes iff every label is acceptable at its position; on failure, the error is that of the first failing label |
| Validation.ValidateDnsName | src/validation.rs:3-39 | passes iff `IsDnsName`; a name over 253 bytes fails as too long; a name of at most 253 bytes without a trailing dot fails as not fully qualified |
| Validation.WildcardOnlyLeftmost | src/validation.rs:18-26 | in an accepted name, a label containing `*` is the first label and is exactly `*` |
| Validation.AcceptedLabelsBounded | src/validation.rs:10-17 | every label of an accepted name has between 1 and 63 bytes |
| Validation.ExtraTrailingDotAccepted | src/validation.rs:10 | all trailing dots are trimmed, so an accepted name followed by one more `.` is still accepted |
| Validation.ValidateJoined | src/validation.rs:3-39 | for dot-free labels joined by `.` plus a final `.`, the verdict is exactly the label-by-label verdict |
| Validation.LeadingWildcardAccepted | src/validation.rs:121 | `*.example.com.` is accepted |
| Validation.InnerWildcardRejected | src/validation.rs:127 | `sub.*.example.com.` fails with "wildcard not leftmost" |
| Validation.PartialWildcardRejected | src/validation.rs:128 | `*sub.example.com.` fails with "wildcard not whole label" |
| Validation.EmptyLabelRejected | src/validation.rs:153 | `sub..example.com.` fails with "empty label" |
| Validation.UnqualifiedRejected | src/validation.rs:134 | `example.com` fails as not fully qualified |
| Validation.CheckLocal | src/validation.rs:52-68 | passes iff the local part is non-empty, at most 64 bytes, has no leading, trailing or doubled `.`, and uses only alphanumerics and `. + - _` |
| Validation.CheckDomainLabel | src/validation.rs:81-92 | passes iff the label is non-empty, at most 63 bytes, has no hyphen at either end, and uses only alphanumerics and `-` |
| Validation.CheckDomainLabels | src/validation.rs:80-93 | passes iff every domain label is acceptable; on failure, the error is that of the first failing label |
| Validation.ValidateEmail | src/validation.rs:41-103 | passes iff `IsEmail`: split at the first `@`, local part valid, domain dotted, every label valid, last label not all digits; over 254 bytes fails as too long; otherwise no `@` fails as missing `@` |
| Validation.TrailingDotNeverEmail | src/validation.rs:79-83 | no string ending in `.` is an accepted address |
| Validation.SecondAtRejected | src/validation.rs:90-92 | a second `@` lands in the domain and is rejected |
| Validation.ValidateEmailJoined | src/validation.rs:47-100 | for `local@l1.….ln` with a short enough text, the verdict is the local-part check, then the label checks, then the numeric-TLD rule |
| Validation.PlainEmailAccepted | src/validation.rs:172 | `admin@example.com` is accepted |
| Validation.DottedLocalAccepted | src/validation.rs:173 | `john.doe@example.com` is accepted |
| Validation.NumericTldRejected | src/validation.rs:96-100 | `user@example.123` fails because its TLD is all digits |
| Validation.UndottedDomain | src/validation.rs:74-76 | a valid local part with an undotted domain fails with "domain has no dot" |
| Validation.UndottedDomainRejected | src/validation.rs:196 | `user@example` fails with "domain has no dot" |
| Transform.ParseHostStr | src/transform.rs:19-35 | fails iff the trimmed name has no trailing dot and the zone is empty; a trimmed name ending in `.` is returned as is; `@` gives the zone; otherwise the result is `host.zone`; the result is absolute when the name or zone is |
| Transform.ParseHostStrIdempotent | src/transform.rs:22-24 | for an absolute zone without leading whitespace, completion succeeds and completing its result again changes nothing |
| Transform.ParseHostStrUnder | src/transform.rs:34 | a trimmed relative name other than `@` becomes `host.zone` |
| Transform.ParseHostStrRelative | src/transform.rs:457-460 | `host` in `example.com.` gives `host.example.com.` |
| Transform.ParseHostStrApex | src/transform.rs:463-466 | `@` in `example.com.` gives `example.com.` |
| Transform.ParseHostStrAbsolute | src/transform.rs:451-454 | `example.com.` is returned unchanged |
| Transform.ParseHostStrNoZone | src/transform.rs:475-478 | a relative name with an empty zone fails |
| Transform.ParseSrvName | src/transform.rs:37-55 | succeeds iff the trimmed name has the `_service._proto` shape and host completion succeeds, and then equals the completion; a misshapen name fails with the shape error |
| Transform.SrvNameMatchesKeyCheck | src/transform.rs:40-54 | for a trimmed name in a non-empty zone, `parse_srv_name` succeeds iff the SRV map key check passes |
| Transform.ParseSrvNameRejects | src/transform.rs:42-52 | a name failing the key check fails with the same error |
| Transform.ParseSrvNameRelative | src/transform.rs:481-484 | `_http._tcp` in `example.com.` gives `_http._tcp.example.com.` |
| Transform.ParseSrvNameNoServiceUnderscore | src/transform.rs:493-496 | `http._tcp` fails on the service underscore |
| Transform.ParseSrvNameNoProtocolUnderscore | src/transform.rs:499-502 | `_http.tcp` fails on the protocol underscore |
| Transform.ParseSrvNameNoProtocol | src/transform.rs:505-508 | `_http` fails for having too few parts |
| Transform.EscapeOneDot | src/transform.rs:62 | a local part with one `.` gets that dot escaped as `\.` |
| Transform.WithTrailingDot | src/transform.rs:64-67 | the domain ends in `.`; an absolute domain is kept as is |
| Transform.DecodeMailboxOf | src/transform.rs:62-68 | a mailbox built from a backslash-free local part decodes back to that local part and the domain |
| Transform.ParseEmail | src/transform.rs:57-73 | no `@` fails as missing `@`; a result would have to pass `validate_email` |
| Transform.ParseEmailNeverOk | src/transform.rs:68-70 | `parse_email` fails on every input (see Findings) |
| Transform.MailboxPlain | src/transform.rs:511-514 | the mailbox built for `admin@example.com` is `admin.example.com.` |
| Transform.MailboxOneDot | src/transform.rs:517-520 | the mailbox built for `a.b@domain` is `a\.b.domain.`, which covers the `john\.doe.example.com.` example |
| Transform.MailboxQualified | src/transform.rs:523-526 | an absolute domain gets no second dot: `admin.example.com.` |
| Transform.ParseEmailIntended | src/transform.rs:57-73 | corrected encoding: succeeds iff `@` is present and the address with a bare domain is accepted by `validate_email`; the result is absolute |
| Transform.ParseEmailIntendedRoundTrip | src/transform.rs:57-73 | an accepted address's mailbox decodes back to its local part and its absolute domain |
| Transform.ParseEmailIntendedAccepts | src/transform.rs:57-73 | an address the validator accepts is encoded as its mailbox name |
| Transform.MxRecordOf | src/transform.rs:86-101 | an MX entry succeeds iff its completed name is a valid DNS name; a string takes the zone TTL and priority, a table its own or the zone's |
| Transform.ParseMx | src/transform.rs:75-115 | without a zone value, default MX entries are copied with TTL and priority filled in; with one, the result is Ok iff every entry resolves, and then record i is entry i completed against the zone and validated (`MxRecordOf`), so every name is a valid DNS name |
| Transform.DefaultMxNotValidated | src/transform.rs:104-113 | a default MX name is copied without completion or validation |
| Transform.NsRecordOf | src/transform.rs:127-135 | an NS entry succeeds iff its completed name is a valid DNS name, with its own TTL or the zone's |
| Transform.ParseNs | src/transform.rs:117-151 | without a zone value, fails iff there are no default nameservers, and otherwise copies them with the zone TTL; with one, the result is Ok iff every entry resolves, and then record i is entry i completed and validated (`NsRecordOf`), so every name is a valid DNS name |
| Transform.ExplicitEmptyNameserversAccepted | src/transform.rs:124-136 | an explicitly empty nameserver list is accepted and gives no records |
| Transform.CnameRecordOf | src/transform.rs:160-168 | succeeds iff alias and target both complete; carries their completions and the entry's or zone's TTL |
| Transform.ParseCname | src/transform.rs:153-170 | Ok iff every entry resolves, and then has one record per entry, in order |
| Transform.SrvRecordOf | src/transform.rs:181-195 | succeeds iff the SRV name and the target resolve; port is copied; TTL, priority and weight come from the entry or the defaults |
| Transform.ParseSrv | src/transform.rs:172-197 | Ok iff every entry resolves, and then record i is pair i resolved by `SrvRecordOf` (owner, target, port, TTL, priority and weight), and every key has the `_service._proto` shape |
| Transform.HostParamsOf | src/transform.rs:211-219 | a bare address list has no aliases and takes the zone TTL and PTR flag |
| Transform.CompleteAliases | src/transform.rs:226-229 | Ok iff the zone is non-empty or every alias is absolute, and then holds each alias's completion, in order |
| Transform.HostRecords | src/transform.rs:220-237 | expanding a host fails iff it has addresses and some alias fails to complete |
| Transform.HostExpand | src/transform.rs:208-237 | a host fails iff its name or, when it has addresses, an alias fails to complete |
| Transform.AddressBlock | src/transform.rs:221-229 | the loop over aliases yields the host record followed by one record per completed alias, or the first alias's error |
| Transform.ExpandAddresses | src/transform.rs:220-237 | the nested loop equals the host's record specification |
| Transform.ParseHosts | src/transform.rs:199-241 | the loop over hosts equals the specification: the records of all hosts in order, or the first failure |
| Transform.ABlocksCount | src/transform.rs:220-229 | each address gives `1 + aliases` records |
| Transform.ABlocksMembers | src/transform.rs:220-229 | every record carries one of the host's addresses and its TTL, under the host name or an alias |
| Transform.HostRecordsCount | src/transform.rs:220-229 | an expanded host has `addresses × (1 + aliases)` address records |
| Transform.HostRecordsPtrs | src/transform.rs:230-236 | one PTR per address, under the host name, exactly when PTRs are on and the name does not start with `*`; none otherwise |
| Transform.HostRecordsAddresses | src/transform.rs:220-229 | every address record uses one of the host's addresses and its TTL |
| Transform.HostRecordsNames | src/transform.rs:221-228 | every address record is named by the host or by a completed alias |
| Transform.WildcardHostHasNoPtr | src/transform.rs:230 | a host whose name starts with `*` yields no PTR |
| Transform.ForwardZoneName | src/transform.rs:313-316 | the zone name ends in `.`, and an absolute name is unchanged |
| Transform.ResolveEmail | src/transform.rs:333-339 | the zone's address goes through `parse_email`; otherwise the default is used; with neither, fails as "email required" |
| Transform.OwnEmailAlwaysFails | src/transform.rs:333-334 | a zone that sets its own address always fails |
| Transform.ResolvedEmailIsDefault | src/transform.rs:333-339 | an address resolves only from the defaults, and is then the default |
| Transform.ParseForward | src/transform.rs:309-367 | Ok iff retry < refresh and the e-mail, hosts, MX, NS, CNAME and SRV stages all succeed; otherwise the error of the first stage that fails (retry, then e-mail, hosts, MX, NS, CNAME, SRV); on success, the name is absolute, every field is the zone's value or the default, retry < refresh, and hosts, MX, NS, CNAME and SRV are the results of their parsers |
| Transform.ForwardZoneHasNameserver | src/transform.rs:137-148 | a zone without its own nameservers that resolves has exactly the default nameservers, and at least one |
| Entries.ToVec | src/parser.rs:361-367 | a single value becomes a one-element list, and a list is returned unchanged |
| Entries.ToVecCanonical | src/parser.rs:361-367 | flattening is idempotent, and a single value gives length 1 |
| Entries.ToEntry | src/parser.rs:299-309 | a bare name becomes an entry with that name and no priority or TTL; a table is returned unchanged |
| Entries.ToEntryCanonical | src/parser.rs:299-309 | converting twice changes nothing, and the name is the string or the table's name |
| Entries.WithName | src/parser.rs:750-763 | the result carries the given name |
| Entries.WithNameRoundTrip | src/parser.rs:750-763 | naming and un-naming are inverse: no other field is touched |
| Entries.NormaliseZones | src/parser.rs:855-862 | no zones gives none; an array is kept; a map gives one zone per key, named by the key, with every other field carried over |
| Entries.TtlFromU32 | src/parser.rs:48-59 | accepted iff 1 ≤ v ≤ 2147483647, unchanged; zero fails as zero |
| Entries.TtlFromU64 | src/parser.rs:61-69 | accepted iff 1 ≤ v ≤ 2147483647; above fails as too large |
| Entries.TtlFromI64 | src/parser.rs:71-79 | as written: accepted iff v ≥ 0 and the value truncated to 32 bits is in range; negative fails as negative |
| Entries.TtlFromI64AcceptsWrapped | src/parser.rs:78 | 4294967297 is accepted as TTL 1 though it is out of range (see Findings) |
| Entries.TtlFromI64Checked | src/parser.rs:71-79 | corrected: accepted iff 1 ≤ v ≤ 2147483647, unchanged |
| Entries.TtlChecksAgree | src/parser.rs:48-79 | on every value that fits 32 bits, the u64 and i64 visitors give the u32 visitor's result, and the corrected i64 check gives the same verdict |
| Entries.TtlExamples | src/parser.rs:885-929 | 1, 3600 and 2147483647 are accepted; 0, 2147483648 and −1 fail with their errors |
| Entries.CheckSrvKey | src/parser.rs:250-271 | passes iff the key starts with `_`, has a `.`, and its second part starts with `_` |
| Entries.CheckSrvPair | src/parser.rs:250-283 | passes iff the key has the SRV shape and the value decoded |
| Entries.CollectSrvKeys | src/parser.rs:245-285 | the decoded map has exactly the input's keys |
| Entries.CollectSrvLast | src/parser.rs:275 | a repeated key keeps its last value |
| Entries.DecodeSrvMap | src/parser.rs:241-286 | Ok iff every entry passes, and then equals the collected map; otherwise fails with the first failing entry's 1-based index and error |
| Entries.SrvKeyAccepted | src/parser.rs:250-271 | `_http._tcp` passes |
| Entries.SrvServiceRejected | src/parser.rs:259-264 | `http._tcp` fails on the service underscore |
| Entries.SrvProtocolRejected | src/parser.rs:266-271 | `_http.tcp` fails on the protocol underscore |
| Entries.SrvSingleLabelRejected | src/parser.rs:252-257 | `_http` fails for having too few parts |
| Parser.CheckNames | src/parser.rs:679-681 | passes iff every name passes `validate_dns_name`, and otherwise reports the first failure |
| Parser.DefaultMx | src/parser.rs:683-689 | one entry per flattened default MX value, converted by `to_entry` |
| Parser.FromRaw | src/parser.rs:660-706 | fails if retry ≥ refresh; Ok iff also the address encodes and every default nameserver is valid; the serial is the given one or the generated one; the other fields are copied through |
| Parser.DefaultNamesQualified | src/parser.rs:674-681 | every accepted default nameserver is a valid absolute name, with no completion |
| Parser.DefaultEmailRejected | src/parser.rs:670-673 | defaults that set an address always fail |
| Parser.AcceptedDefaultsHaveNoEmail | src/parser.rs:670-673 | accepted defaults carry no address |
| Parser.ForwardZoneNeverResolves | src/transform.rs:333-339 | with such defaults, every forward zone fails |
| Parser.ReverseZoneNeverResolves | src/transform.rs:410-416 | with such defaults, every reverse network fails |
| Parser.PoolInsertSpec | src/parser.rs:867-872 | inserting PTRs succeeds iff their addresses are new to the pool and pairwise distinct; the pool then holds exactly the old entries plus each PTR under its address |
| Parser.DuplicateRejected | src/parser.rs:868-869 | two PTRs with one address fail as a duplicate |
| Parser.PoolInsertConcat | src/parser.rs:864-873 | inserting two batches in turn is inserting their concatenation, so the check spans zones |
| Parser.AddPtrs | src/parser.rs:867-872 | the checked-insertion loop equals the pool specification |
| Parser.Resolutions | src/parser.rs:864-865 | one `parse_forward` result per zone, in order |
| Parser.ForwardLoop | src/parser.rs:863-873 | on success, one zone is appended per input and the earlier list is kept |
| Parser.ForwardLoopPool | src/parser.rs:864-873 | when every zone resolves, the loop succeeds iff all PTRs insert, and the pool is that insertion |
| Parser.ForwardLoopFails | src/parser.rs:865 | a zone that fails fails the loop |
| Parser.ForwardLoopZones | src/parser.rs:865-866 | on success, forward zone k is zone k's resolution |
| Parser.OnlyNoZonesResolve | src/parser.rs:852-873 | with defaults that carry no address, the loop succeeds only without zones |
| Parser.OnlyNoReverseResolve | src/parser.rs:875 | with such defaults, no reverse network is accepted |
| Parser.ResolveZones | src/parser.rs:863-873 | the zone loop, run in place over a list and a pool, ends in exactly the result `ForwardLoop` specifies |
| Parser.Parse | src/parser.rs:815-877 | defaults errors come first; then the zone loop's error; when the loop succeeds, the pool is its pool and the result is Ok iff every reverse entry is accepted, otherwise the error of the first entry that fails; on success, one zone per network, each as `ZonesFor` describes |
| Reverse.ZoneLabels | src/transform.rs:252-276 | the zone has prefix/8 octet labels (IPv4) or prefix/4 nibble labels (IPv6) |
| Reverse.CreateReverseZoneName | src/transform.rs:243-282 | the name is the reversed zone labels plus the ARPA suffix; IPv4 split ≤ 4; for an aligned prefix, split plus the zone labels cover all 4 octets or 32 nibbles |
| Reverse.IpNameLabels | src/transform.rs:284-306 | an address yields `split` labels (IPv6: at most 32) |
| Reverse.IpName | src/transform.rs:284-307 | the owner label is those labels joined by `.` |
| Reverse.IntendedSplit | src/transform.rs:243-282 | corrected split: the number of units not in the zone name (IPv4 at most 4) |
| Reverse.IntendedSplitComplete | src/transform.rs:243-307 | for any contained address and any prefix, owner labels plus zone labels are the address's full reverse labels |
| Reverse.SplitAlignedAgrees | src/transform.rs:247-264 | on aligned prefixes, the code's split equals the corrected one |
| Reverse.AlignedOwnerIsFullName | src/transform.rs:243-307 | on aligned prefixes, the code's owner plus zone give the full reverse name |
| Reverse.OwnerNameJoins | src/transform.rs:284-307 | with the corrected split, `ip_name` + `.` + the zone name is the address's full reverse name under the ARPA suffix |
| Reverse.UnalignedV4LosesOctet | src/transform.rs:247-252 | as written, an unaligned IPv4 prefix covers only 3 of 4 octets (see Findings) |
| Reverse.UnalignedV6LosesNibble | src/transform.rs:264-269 | as written, an unaligned IPv6 prefix covers only 31 of 32 nibbles |
| Reverse.UnalignedExample | src/transform.rs:247-252 | in 192.168.0.0/23, the split is 1 where 2 is needed |
| Reverse.ReverseZoneNameV4Example | src/transform.rs:535-541 | 192.168.1.0/24 gives `1.168.192.in-addr.arpa.`, split 1 |
| Reverse.ReverseZoneNameV4ShortExample | src/transform.rs:544-550 | 10.0.0.0/16 gives `0.10.in-addr.arpa.`, split 2 |
| Reverse.ReverseZoneNameV6Example | src/transform.rs:553-559 | fd00:1234:5678:1::/64 gives `1.0.0.0.8.7.6.5.4.3.2.1.0.0.d.f.ip6.arpa.`, split 16 |
| Reverse.IpNameV4Examples | src/transform.rs:562-575 | 192.168.1.10 with split 1 gives `10`; 10.0.1.5 with split 2 gives `5.1` |
| Reverse.IpNameV6Example | src/transform.rs:578-583 | an address ending in `…:5` with split 4 gives `5.0.0.0` |
| Reverse.ResolveReverse | src/transform.rs:398-418 | Ok iff retry < refresh, the e-mail resolves and `parse_ns` succeeds; otherwise the error of the first of these that fails; on success, the name and split are `create_reverse_zone_name`'s, the fields are the entry's or the defaults, and NS is from `parse_ns` |
| Reverse.Drain | src/transform.rs:420-423 | takes out exactly the pooled PTRs the network contains, each once; the rest is the pool without them |
| Reverse.RemainingMembers | src/transform.rs:420-423 | after k networks, the pool holds exactly the PTRs none of them contains, unchanged |
| Reverse.AnyOverlap | src/transform.rs:382-386 | true iff some accepted network overlaps the new one |
| Reverse.OverlapsAccepted | src/transform.rs:380-397 | true iff an earlier network of the same family overlaps entry k |
| Reverse.RememberNetwork | src/transform.rs:387-395 | the accepted lists grow by entry k in its family |
| Reverse.AcceptEntry | src/transform.rs:398-439 | an accepted network's zone claims exactly the contained PTRs still pooled, and removes them |
| Reverse.ParseReverse | src/transform.rs:369-444 | Ok iff every network is non-overlapping and resolves; otherwise reports the first failure; on success, one zone per network, each with its resolution and exactly the PTRs it contains |
| Reverse.ClaimsDisjoint | src/transform.rs:420-423 | no PTR ends up in two reverse zones |
| Net.OverlapsIffContains | src/transform.rs:383 | two networks overlap iff one contains the other's address |
| Net.OverlapsSymmetric | src/transform.rs:391 | overlap is symmetric |
| Net.SharedAddressOverlaps | src/transform.rs:383 | networks sharing an address overlap |
| Net.Network | src/transform.rs:249 | the network address is of the same family and inside the network |
| Net.ContainedAgreesWithNetwork | src/transform.rs:249-257 | a contained address has the network's octets in the zone part |
| Net.ContainedAgreesOnNibbles | src/transform.rs:266-276 | a contained IPv6 address has the network's nibbles in the zone part |
| Serial.DateSeed | src/serial.rs:23 | the `YYYYMMDD00` seed fits 32 bits and ends in `00` |
| Serial.CalcSerial | src/serial.rs:15-25 | the result is ≥ the seed, greater than the old serial below the 32-bit maximum, and either old+1 (mod 2³²) or the seed |
| Serial.FirstSerialIsSeed | src/serial.rs:71-97 | from 0, the serial is the date seed, ending in `00` |
| Serial.SameDayCountsUp | src/serial.rs:99-113 | on the same day, each call adds exactly 1 |
| Serial.LargestSerialWraps | src/serial.rs:22 | from the 32-bit maximum, the wrapped `old + 1` loses to the seed |
| Serial.LoadSerialText | src/serial.rs:8-13 | the trimmed text's value when it parses as a u32, else 0 |
| Serial.SaveSerialText | src/serial.rs:27-30 | the saved text is a non-empty run of digits |
| Serial.SaveLoadRoundTrip | src/serial.rs:125-133 | loading saved text, even with surrounding whitespace, gives the serial back |
| Serial.NonNumberLoadsZero | src/serial.rs:53-60 | text with a non-digit loads as 0 |
| Sorting.StrCmpProps | src/output/nsd.rs:145 | the string order is antisymmetric, total and transitive |
| Sorting.SortBy | src/output/nsd.rs:134-135 | the sorted list is a permutation of the input |
| Sorting.SortBySorted | src/output/nsd.rs:134-135 | under a total preorder, the result is sorted |
| Sorting.SortByDistinct | src/output/nsd.rs:208-209 | sorting keeps keys distinct |
| Nsd.StripNameShape | src/output/nsd.rs:78-86 | the apex gives `@`; otherwise the name is kept or is the result plus `.zone` |
| Nsd.StripCompleted | src/output/nsd.rs:78-86 | stripping a name completed in the zone gives back the relative name |
| Nsd.CompleteStripped | src/output/nsd.rs:78-86 | completing a stripped name in the zone gives back the absolute name |
| Nsd.TtlField | src/output/nsd.rs:20-24 | the TTL text is empty iff the TTLs match, and at most 10 characters |
| Nsd.TtlFieldReadsBack | src/output/nsd.rs:23 | a printed TTL parses back to the record TTL |
| Nsd.TtlOmittedIff | src/output/nsd.rs:20-29 | the owner column has no TTL iff the TTLs match; otherwise it ends in ` TTL` |
| Nsd.TypeWidth | src/output/nsd.rs:30-31 | the type column is 7 wide unless the owner column overflows, and never wider |
| Nsd.ValueTtlUtf8Len | src/output/nsd.rs:25-30 | the owner column's byte length is the owner's plus the padding and TTL |
| Nsd.AlignedColumns | src/output/nsd.rs:25-35 | a fitting owner fills 31 characters with the TTL flush right, then the type padded to 7, then the data |
| Nsd.LineShape | src/output/nsd.rs:32-35 | a line starts with its owner and ends with its data and a newline |
| Nsd.ValueTtlStartsWithValue | src/output/nsd.rs:25-29 | the owner column starts with the owner |
| Nsd.BlankOwnerLine | src/output/nsd.rs:158-160 | a blank owner gives a line starting with a space |
| Nsd.IpCmpProps | src/output/nsd.rs:147 | the address order is antisymmetric, total and transitive |
| Nsd.RecordCmpFlip | src/output/nsd.rs:135-153 | the record comparator is antisymmetric |
| Nsd.RecordCmpTrans | src/output/nsd.rs:135-153 | the record comparator is transitive |
| Nsd.RecordLeTotalPreorder | src/output/nsd.rs:135-153 | the comparator is a total preorder |
| Nsd.ApexFirst | src/output/nsd.rs:137-143 | after sorting, every apex record precedes every other record |
| Nsd.NamesAscend | src/output/nsd.rs:144-151 | non-apex records ascend by name, then by address |
| Nsd.OwnerRecovered | src/output/nsd.rs:155-163 | the last owner written at or before a record is that record's stripped name |
| Nsd.OwnerShownOnce | src/output/nsd.rs:158-163 | a record's owner is blank iff it repeats the previous record's stripped name |
| Nsd.ApexOwnerOpens | src/output/nsd.rs:137-157 | when the apex has records, the first line's owner is `@` |
| Nsd.WriteHost | src/output/nsd.rs:157-172 | one step appends the record's line and remembers its stripped name |
| Nsd.WriteHosts | src/output/nsd.rs:155-173 | the emission loop writes one line per record, with the owner blank on repeats |
| Nsd.WriteForwardHosts | src/output/nsd.rs:134-173 | the records are sorted by the comparator (a permutation, in order) and then written |
| Nsd.PtrLeTotalPreorder | src/output/nsd.rs:209 | the PTR order is a total preorder |
| Nsd.SortedLabelable | src/output/nsd.rs:208-211 | sorting keeps every PTR labellable with the zone's split |
| Nsd.WritePtrLines | src/output/nsd.rs:210-213 | one line per PTR, owned by `ip_name(ip, split)` |
| Nsd.WritePtrs | src/output/nsd.rs:208-213 | the PTRs are sorted by address (a permutation, in order) and then written |
| Nsd.PtrsAscending | src/output/nsd.rs:208-209 | with distinct addresses, PTRs are written in strictly ascending address order |
| Nsd.SoaNameserver | src/output/nsd.rs:41-45 | with at least one nameserver, the SOA names the first one |
| Nsd.ForwardSoaNameserver | src/output/nsd.rs:41-45 | a forward zone that takes the default nameservers has an SOA nameserver, and it is the first default |
| Nsd.WriteNameservers | src/output/nsd.rs:71-73 | one NS line per nameserver, in order |

## Left out

- File I/O: reading and writing the serial file, creating the output directories, writing zone files and `zones.conf`. `load_serial` and `save_serial` are modelled on the file text.
- The clock: `calc_serial` takes year, month and day as parameters.
- The serde decoding machinery and TOML/YAML selection: the model starts from the decoded values. The `extract_location` error text is not modelled.
- Address and CIDR text parsing: addresses are octet sequences, and networks are an address plus a prefix.
- The `Net` form of the reverse block (a bare network or network list): no shown code turns it into (network, entry) pairs, so reverse input is such a list of pairs.
- Hash-map iteration order: maps are sequences in iteration order. Which overlap or duplicate is reported first depends on that order; that an error occurs does not.
- `char::is_alphanumeric` and `is_numeric`: modelled as ASCII letters and digits; other Unicode letters and digits are not accepted.
- The textual IPv6 form (`Display` of `IpAddr`) in A/AAAA lines: it is the parameter `ipText` of `Nsd.WriteHosts`.
- The SOA block text of `write_soa`, the MX, SRV and CNAME lines of `write_nsd`, and the NSD `zones.conf` text: line templates outside the modelled helpers. The first-nameserver rule and the NS lines are modelled.
- The Unbound renderer, `main.rs` and the integration fixtures: they are not part of this model.
- Sorting.SortBy: `sort_unstable_by` may order records that compare equal (two apex records, or equal name and address with different TTLs) either way; the model fixes one order. The permutation and sortedness lemmas hold for every sorted permutation.
- Serial.CalcSerial: requires year ≤ 4294 so the date seed fits 32 bits, and takes `old_serial + 1` at the 32-bit maximum as wrapping to 0, where a debug build of the code panics.
- Nsd.OwnerRecovered: assumes no stripped name is empty. An empty owner is indistinguishable from a blank one.
- Nsd.OwnerShownOnce: assumes the record's stripped name is non-empty, for the same reason.
- Reverse.IpNameLabels: requires split ≤ 4 for IPv4 addresses. Every split `create_reverse_zone_name` produces meets it; the code would index out of bounds otherwise.
- Nsd.TypeWidth: widths are counted as the code counts them. The padding of `{:width$}` counts characters, and `len()` counts UTF-8 bytes.

## Findings

| source | as written | input that shows it | evidently intended | confidence | as-written member | corrected member |
|---|---|---|---|---|---|---|
| src/transform.rs:68-70 | `parse_email` re-validates the built mailbox with `validate_email`; the mailbox has no `@`, or else ends in an empty label, so `parse_email` never succeeds | `admin@example.com` fails, where the tests at src/transform.rs:511-514 expect `admin.example.com.` | validate the address, then return the mailbox | not executed | Transform.ParseEmailNeverOk | Transform.ParseEmailIntendedRoundTrip |
| src/parser.rs:75-78 | `visit_i64` rejects only negative values and then truncates with `value as u32` before the range check | a TTL of 4294967297 (a TOML integer) is accepted as TTL 1 | reject values above 2147483647 before the cast, as `visit_u64` does | not executed | Entries.TtlFromI64AcceptsWrapped | Entries.TtlChecksAgree |
| src/transform.rs:247-252 | split is `(32 − prefix) / 8` and the zone keeps `prefix / 8` octets, so for an unaligned prefix one octet is in neither | 192.168.1.10 in 192.168.0.0/23: label `10` in `168.192.in-addr.arpa.` | split = number of octets (nibbles) not in the zone name | not executed | Reverse.UnalignedV4LosesOctet | Reverse.IntendedSplitComplete |

The corrected definitions are `Transform.ParseEmailIntended`, `Entries.TtlFromI64Checked` and
`Reverse.IntendedSplit`. The zone pipeline (`Parser.FromRaw`, `Transform.ParseForward`,
`Reverse.ResolveReverse`) keeps the code as written. Its consequences are proved as lemmas:

- `Parser.DefaultEmailRejected`: defaults that set an address always fail;
- `Parser.ForwardZoneNeverResolves`: every forward zone fails under defaults with no address;
- `Parser.OnlyNoZonesResolve`: under such defaults the zone loop succeeds only when there are no zones.

Together these mean a description with any zone cannot resolve.

## Notes on the source

- Reverse split: `create_reverse_zone_name` computes the split as `(32 − prefix) / 8` (src/transform.rs:247) and `(128 − prefix) / 4` (src/transform.rs:264). The tests at src/transform.rs:535-559 expect split 1 for /24, 2 for /16 and 16 for /64, which these formulas give. On a prefix that is not a multiple of 8 (or 4) they lose a label (see Findings).
- Nameservers: `parse_ns` fails with "needs a nameserver" only when the zone gives no value and the defaults are empty (src/transform.rs:137-140). A zone value that is an empty list goes through the map at src/transform.rs:124-136 and yields no records. `Transform.ExplicitEmptyNameserversAccepted` proves it. `write_soa` then has no first nameserver (src/output/nsd.rs:41-45).
- Mailbox encoding: the tests at src/transform.rs:511-526 expect `parse_email` to return the encoded mailbox, but the re-validation at src/transform.rs:68-70 rejects every mailbox (see Findings).
- Trailing dots: `validate_dns_name` trims every trailing dot, so `example.com..` is accepted (`Validation.ExtraTrailingDotAccepted`).
