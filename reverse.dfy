/**
 * Reverse zones: their names in the IN-ADDR.ARPA octet form (section 3.5 of
 * RFC 1035) and the IP6.ARPA nibble form (section 2.5 of RFC 3596), the
 * owner label of a PTR inside such a zone, and `parse_reverse`, which
 * rejects overlapping networks and hands every pooled PTR to the zone whose
 * network contains its address.
 */
module Reverse {
  import opened Common
  import opened Text
  import opened Net
  import opened Records
  import opened Entries
  import opened Transform

  // ------------------------------------------------------------------ naming

  /** The labels a reverse zone name is built from: the whole octets (or nibbles) under the prefix, last first. */
  function ZoneLabels(net: IpNet): (r: seq<string>)
    ensures |r| == (if net.V4Net? then net.p4 / 8 else net.p6 / 4)
  {
    match net
    case V4Net(_, p) =>
      var o := Network(net).v4;
      seq(p / 8, j requires 0 <= j < p / 8 => DecimalString(o[p / 8 - 1 - j]))
    case V6Net(_, p) =>
      var h := HexNibbles(Network(net).v6);
      seq(p / 4, j requires 0 <= j < p / 4 => [h[p / 4 - 1 - j]])
  }

  function ArpaSuffix(net: IpNet): string {
    if net.V4Net? then ".in-addr.arpa." else ".ip6.arpa."
  }

  /** `create_reverse_zone_name`: the zone name and the number of labels each PTR owner keeps. */
  function CreateReverseZoneName(net: IpNet): (r: (string, nat))
    ensures r.0 == Join(ZoneLabels(net), '.') + ArpaSuffix(net)
    ensures net.V4Net? ==> r.1 <= 4
    ensures net.V4Net? && net.p4 % 8 == 0 ==> r.1 + |ZoneLabels(net)| == 4
    ensures net.V6Net? && net.p6 % 4 == 0 ==> r.1 + |ZoneLabels(net)| == 32
  {
    var labels := ZoneLabels(net);
    match net
    case V4Net(_, p) => (Join(labels, '.') + ".in-addr.arpa.", (32 - p) / 8)
    case V6Net(_, p) => (Join(labels, '.') + ".ip6.arpa.", (128 - p) / 4)
  }

  /** The owner labels of an address: the last `split` octets (or nibbles), last first. */
  function IpNameLabels(ip: IpAddr, split: nat): (r: seq<string>)
    requires ip.V4? ==> split <= 4
    ensures |r| == (if ip.V4? then split else if split <= 32 then split else 32)
  {
    match ip
    case V4(o) => seq(split, i requires 0 <= i < split => DecimalString(o[3 - i]))
    case V6(o) =>
      var h := HexNibbles(o);
      var n := if split <= 32 then split else 32;
      seq(n, i requires 0 <= i < n => [h[31 - i]])
  }

  /** `ip_name`: the PTR owner name relative to its reverse zone. */
  function IpName(ip: IpAddr, split: nat): (r: string)
    requires ip.V4? ==> split <= 4
    ensures r == Join(IpNameLabels(ip, split), '.')
  {
    Join(IpNameLabels(ip, split), '.')
  }

  /** All labels of the full reverse name of an address, last octet (or nibble) first. */
  function FullReverseLabels(ip: IpAddr): (r: seq<string>)
    ensures |r| == (if ip.V4? then 4 else 32)
  {
    IpNameLabels(ip, if ip.V4? then 4 else 32)
  }

  /** The split the zone name calls for: the labels of the address the zone name does not hold. */
  function IntendedSplit(net: IpNet): (r: nat)
    ensures net.V4Net? ==> r <= 4
  {
    match net
    case V4Net(_, p) => 4 - p / 8
    case V6Net(_, p) => 32 - p / 4
  }

  /**
   * For a network and an address it contains, the owner labels under the
   * intended split followed by the zone's labels are exactly the address's
   * full reverse labels, whatever the prefix length.
   */
  lemma {:induction false} IntendedSplitComplete(net: IpNet, ip: IpAddr)
    requires Contains(net, ip)
    ensures IpNameLabels(ip, IntendedSplit(net)) + ZoneLabels(net) == FullReverseLabels(ip)
  {
    var own := IpNameLabels(ip, IntendedSplit(net));
    var full := FullReverseLabels(ip);
    forall i | 0 <= i < |full|
      ensures (own + ZoneLabels(net))[i] == full[i]
    {
      if net.V4Net? {
        OctetLabelAgrees(net, ip, i);
      } else {
        NibbleLabelAgrees(net, ip, i);
      }
    }
  }

  /** One label of an IPv4 address's full reverse name: from the owner name or from the zone name. */
  lemma {:induction false} OctetLabelAgrees(net: IpNet, ip: IpAddr, i: nat)
    requires net.V4Net? && Contains(net, ip) && i < 4
    ensures (IpNameLabels(ip, IntendedSplit(net)) + ZoneLabels(net))[i] == FullReverseLabels(ip)[i]
  {
    var s := IntendedSplit(net);
    if i >= s {
      ContainedAgreesWithNetwork(net, ip, net.p4 / 8 - 1 - (i - s));
    }
  }

  /** One label of an IPv6 address's full reverse name: from the owner name or from the zone name. */
  lemma {:induction false} NibbleLabelAgrees(net: IpNet, ip: IpAddr, i: nat)
    requires net.V6Net? && Contains(net, ip) && i < 32
    ensures (IpNameLabels(ip, IntendedSplit(net)) + ZoneLabels(net))[i] == FullReverseLabels(ip)[i]
  {
    var s := IntendedSplit(net);
    if i >= s {
      ContainedAgreesOnNibbles(net, ip, net.p6 / 4 - 1 - (i - s));
    }
  }

  /** On an octet-aligned IPv4 prefix, or a nibble-aligned IPv6 one, the split used agrees with the intended one. */
  lemma {:induction false} SplitAlignedAgrees(net: IpNet)
    requires net.V4Net? ==> net.p4 % 8 == 0
    requires net.V6Net? ==> net.p6 % 4 == 0
    ensures CreateReverseZoneName(net).1 == IntendedSplit(net)
  {
  }

  /** On aligned prefixes the owner name and the zone name make up the full reverse name. */
  lemma {:induction false} AlignedOwnerIsFullName(net: IpNet, ip: IpAddr)
    requires Contains(net, ip)
    requires net.V4Net? ==> net.p4 % 8 == 0
    requires net.V6Net? ==> net.p6 % 4 == 0
    ensures IpNameLabels(ip, CreateReverseZoneName(net).1) + ZoneLabels(net) == FullReverseLabels(ip)
  {
    SplitAlignedAgrees(net);
    IntendedSplitComplete(net, ip);
  }

  /**
   * The same as a name: when both parts are non-empty, the owner name, a
   * ".", and the zone name spell the full reverse name of the address.
   */
  lemma {:induction false} OwnerNameJoins(net: IpNet, ip: IpAddr)
    requires Contains(net, ip)
    requires IntendedSplit(net) >= 1 && |ZoneLabels(net)| >= 1
    ensures IpName(ip, IntendedSplit(net)) + "." + CreateReverseZoneName(net).0
            == Join(FullReverseLabels(ip), '.') + ArpaSuffix(net)
  {
    IntendedSplitComplete(net, ip);
    JoinedName(IpNameLabels(ip, IntendedSplit(net)), ZoneLabels(net), FullReverseLabels(ip), ArpaSuffix(net));
  }

  lemma {:induction false} JoinedName(own: seq<string>, zone: seq<string>, full: seq<string>, suffix: string)
    requires |own| >= 1 && |zone| >= 1 && own + zone == full
    ensures Join(own, '.') + "." + (Join(zone, '.') + suffix) == Join(full, '.') + suffix
  {
    JoinConcat(own, zone, '.');
    var x, y := Join(own, '.'), Join(zone, '.');
    assert Join(full, '.') == x + "." + y;
    assert x + "." + (y + suffix) == (x + "." + y) + suffix;
  }

  /**
   * As written, an IPv4 prefix that is not a multiple of 8 yields zone
   * labels and owner labels that together hold only three of the four octets.
   */
  lemma {:induction false} UnalignedV4LosesOctet(net: IpNet)
    requires net.V4Net? && net.p4 % 8 != 0
    ensures CreateReverseZoneName(net).1 + |ZoneLabels(net)| == 3
  {
  }

  /** As written, the same happens to one nibble of an IPv6 prefix that is not a multiple of 4. */
  lemma {:induction false} UnalignedV6LosesNibble(net: IpNet)
    requires net.V6Net? && net.p6 % 4 != 0
    ensures CreateReverseZoneName(net).1 + |ZoneLabels(net)| == 31
  {
  }

  /** 192.168.0.0/23 with 192.168.1.10: the owner "10" in zone "168.192.in-addr.arpa." drops the octet 1. */
  lemma {:induction false} UnalignedExample()
    ensures CreateReverseZoneName(V4Net([192, 168, 0, 0], 23)).1 == 1
    ensures IntendedSplit(V4Net([192, 168, 0, 0], 23)) == 2
    ensures Contains(V4Net([192, 168, 0, 0], 23), V4([192, 168, 1, 10]))
    ensures |ZoneLabels(V4Net([192, 168, 0, 0], 23))| == 2
  {
    assert 1 / Pow2(1) == 0 / Pow2(1);
  }

  // ---------------------------------------------------------------- examples

  lemma {:induction false} DecimalLiterals()
    ensures DecimalString(1) == "1" && DecimalString(5) == "5" && DecimalString(10) == "10"
    ensures DecimalString(168) == "168" && DecimalString(192) == "192"
  {
    assert DecimalString(16) == "16";
    assert DecimalString(19) == "19";
  }

  lemma {:induction false} V4ExampleLabels()
    ensures ZoneLabels(V4Net([192, 168, 1, 0], 24)) == ["1", "168", "192"]
  {
    DecimalLiterals();
    assert Network(V4Net([192, 168, 1, 0], 24)).v4[..3] == [192, 168, 1];
  }

  /** 192.168.1.0/24 is the zone "1.168.192.in-addr.arpa." and its PTR owners keep one label. */
  lemma {:induction false} ReverseZoneNameV4Example()
    ensures CreateReverseZoneName(V4Net([192, 168, 1, 0], 24)) == ("1.168.192.in-addr.arpa.", 1)
  {
    V4ExampleLabels();
    JoinThree("1", "168", "192", '.');
    assert "1" + "." + "168" == "1.168";
    assert "1.168" + "." + "192" + ".in-addr.arpa." == "1.168.192.in-addr.arpa.";
  }

  lemma {:induction false} V4ShortExampleLabels()
    ensures ZoneLabels(V4Net([10, 0, 0, 0], 16)) == ["0", "10"]
  {
    DecimalLiterals();
    assert DecimalString(0) == "0";
    assert Network(V4Net([10, 0, 0, 0], 16)).v4[..2] == [10, 0];
  }

  /** 10.0.0.0/16 is the zone "0.10.in-addr.arpa." and its PTR owners keep two labels. */
  lemma {:induction false} ReverseZoneNameV4ShortExample()
    ensures CreateReverseZoneName(V4Net([10, 0, 0, 0], 16)) == ("0.10.in-addr.arpa.", 2)
  {
    V4ShortExampleLabels();
    JoinTwo("0", "10", '.');
    assert "0" + "." + "10" + ".in-addr.arpa." == "0.10.in-addr.arpa.";
  }

  /** The network fd00:1234:5678:1::/64: the first 64 bits of the address are fd00:1234:5678:1. */
  predicate InV6Example(a: seq<U8>) {
    && |a| == 16
    && a[0] == 0xfd && a[1] == 0x00 && a[2] == 0x12 && a[3] == 0x34
    && a[4] == 0x56 && a[5] == 0x78 && a[6] == 0x00 && a[7] == 0x01
  }

  lemma {:induction false} V6ExampleNibbles(a: seq<U8>)
    requires InV6Example(a)
    ensures var h := HexNibbles(Network(V6Net(a, 64)).v6);
      && h[0] == 'f' && h[1] == 'd' && h[2] == '0' && h[3] == '0' && h[4] == '1' && h[5] == '2' && h[6] == '3' && h[7] == '4'
      && h[8] == '5' && h[9] == '6' && h[10] == '7' && h[11] == '8' && h[12] == '0' && h[13] == '0' && h[14] == '0' && h[15] == '1'
  {
    var o := Network(V6Net(a, 64)).v6;
    assert o[..8] == a[..8];
    var h := HexNibbles(o);
    assert h[0] == HexDigit(15) && h[1] == HexDigit(13);
    assert h[4] == HexDigit(1) && h[5] == HexDigit(2) && h[6] == HexDigit(3) && h[7] == HexDigit(4);
    assert h[8] == HexDigit(5) && h[9] == HexDigit(6) && h[10] == HexDigit(7) && h[11] == HexDigit(8);
  }

  lemma {:induction false} V6ExampleLabels(a: seq<U8>)
    requires InV6Example(a)
    ensures ZoneLabels(V6Net(a, 64)) == ["1", "0", "0", "0"] + ["8", "7", "6", "5"] + ["4", "3", "2", "1"] + ["0", "0", "d", "f"]
  {
    var net := V6Net(a, 64);
    var h := HexNibbles(Network(net).v6);
    V6ExampleNibbles(a);
    var labels := ZoneLabels(net);
    assert labels == seq(16, j requires 0 <= j < 16 => [h[15 - j]]);
    assert labels == [[h[15]], [h[14]], [h[13]], [h[12]], [h[11]], [h[10]], [h[9]], [h[8]],
                      [h[7]], [h[6]], [h[5]], [h[4]], [h[3]], [h[2]], [h[1]], [h[0]]];
  }

  /** The four groups of nibble labels, joined. */
  lemma {:induction false} V6ExampleJoin()
    ensures Join(["1", "0", "0", "0"] + ["8", "7", "6", "5"] + ["4", "3", "2", "1"] + ["0", "0", "d", "f"], '.')
            == "1.0.0.0" + "." + "8.7.6.5" + "." + "4.3.2.1" + "." + "0.0.d.f"
  {
    JoinFourGroups(["1", "0", "0", "0"], ["8", "7", "6", "5"], ["4", "3", "2", "1"], ["0", "0", "d", "f"], '.');
    V6GroupJoins();
  }

  lemma {:induction false} V6GroupJoins()
    ensures Join(["1", "0", "0", "0"], '.') == "1.0.0.0" && Join(["8", "7", "6", "5"], '.') == "8.7.6.5"
    ensures Join(["4", "3", "2", "1"], '.') == "4.3.2.1" && Join(["0", "0", "d", "f"], '.') == "0.0.d.f"
  {
    JoinFour("1", "0", "0", "0", '.');
    JoinFour("8", "7", "6", "5", '.');
    JoinFour("4", "3", "2", "1", '.');
    JoinFour("0", "0", "d", "f", '.');
  }

  /**
   * Every address of fd00:1234:5678:1::/64 taken as the network gives the zone
   * "1.0.0.0.8.7.6.5.4.3.2.1.0.0.d.f.ip6.arpa.", whose PTR owners keep 16 nibbles.
   */
  lemma {:induction false} ReverseZoneNameV6Example(a: seq<U8>)
    requires InV6Example(a)
    ensures CreateReverseZoneName(V6Net(a, 64)) == ("1.0.0.0.8.7.6.5.4.3.2.1.0.0.d.f.ip6.arpa.", 16)
  {
    V6ExampleLabels(a);
    V6ExampleJoin();
    V6ZoneLiteral();
  }

  lemma {:induction false} V6ZoneLiteral()
    ensures "1.0.0.0" + "." + "8.7.6.5" + "." + "4.3.2.1" + "." + "0.0.d.f" + ".ip6.arpa."
            == "1.0.0.0.8.7.6.5.4.3.2.1.0.0.d.f.ip6.arpa."
  {
    assert "1.0.0.0" + "." + "8.7.6.5" == "1.0.0.0.8.7.6.5";
    assert "1.0.0.0.8.7.6.5" + "." + "4.3.2.1" == "1.0.0.0.8.7.6.5.4.3.2.1";
    assert "1.0.0.0.8.7.6.5.4.3.2.1" + "." + "0.0.d.f" == "1.0.0.0.8.7.6.5.4.3.2.1.0.0.d.f";
  }

  /** An IPv6 address ending in the octets 00 05, as fd00:1234:5678:1::5 does, with split 4 is owned by "5.0.0.0". */
  lemma {:induction false} IpNameV6Example(ip: IpAddr)
    requires ip.V6? && ip.v6[14] == 0 && ip.v6[15] == 5
    ensures IpName(ip, 4) == "5.0.0.0"
  {
    var h := HexNibbles(ip.v6);
    assert h[2 * 15 + 1] == '5' && h[2 * 15] == '0';
    assert h[2 * 14 + 1] == '0' && h[2 * 14] == '0';
    assert IpNameLabels(ip, 4) == ["5", "0", "0", "0"];
    JoinFour("5", "0", "0", "0", '.');
  }

  /** 192.168.1.10 with split 1 is owned by "10"; 10.0.1.5 with split 2 by "5.1". */
  lemma {:induction false} IpNameV4Examples()
    ensures IpName(V4([192, 168, 1, 10]), 1) == "10"
    ensures IpName(V4([10, 0, 1, 5]), 2) == "5.1"
  {
    DecimalLiterals();
    assert IpNameLabels(V4([192, 168, 1, 10]), 1) == ["10"];
    assert IpNameLabels(V4([10, 0, 1, 5]), 2) == ["5", "1"];
    JoinTwo("5", "1", '.');
  }

  // ----------------------------------------------------------- zone defaults

  /**
   * The zone-level part of one reverse entry: name, split, timers, e-mail and
   * nameservers. It succeeds exactly when the timers, the e-mail and the
   * nameservers do, and otherwise fails with the first of their errors.
   */
  function ResolveReverse(net: IpNet, entry: ReverseEntry, d: SessionDefaults): (r: Result<(ZoneBase, nat)>)
    ensures var refresh := entry.base.refresh.GetOr(d.refresh);
      var retry := entry.base.retry.GetOr(d.retry);
      && (retry >= refresh ==> r == Err(RetryNotBelowRefresh))
      && (retry < refresh && entry.base.email.None? && d.email.None? ==> r == Err(EmailRequired))
    ensures var early := entry.base.retry.GetOr(d.retry) < entry.base.refresh.GetOr(d.refresh);
      var email := ResolveEmail(entry.base.email, d.email);
      var ns := ParseNs(entry.base.nameserver, CreateReverseZoneName(net).0, entry.base.ttl.GetOr(d.ttl), d.nameserver);
      && (r.Ok? <==> early && email.Ok? && ns.Ok?)
      && (early && email.Err? ==> r == Err(email.error))
      && (early && email.Ok? && ns.Err? ==> r == Err(ns.error))
    ensures r.Ok? ==> var b := r.value.0;
      && (b.name, r.value.1) == CreateReverseZoneName(net)
      && b.serial == entry.base.serial.GetOr(d.serial)
      && b.expire == entry.base.expire.GetOr(d.expire)
      && b.nrcTtl == entry.base.nrcTtl.GetOr(d.nrcTtl)
      && b.refresh == entry.base.refresh.GetOr(d.refresh)
      && b.retry == entry.base.retry.GetOr(d.retry)
      && b.ttl == entry.base.ttl.GetOr(d.ttl)
      && b.retry < b.refresh
      && entry.base.email.None? && d.email == Some(b.email)
      && ParseNs(entry.base.nameserver, b.name, b.ttl, d.nameserver) == Ok(b.nameserver)
  {
    var (name, split) := CreateReverseZoneName(net);
    var e := entry.base;
    var serial := e.serial.GetOr(d.serial);
    var expire := e.expire.GetOr(d.expire);
    var nrcTtl := e.nrcTtl.GetOr(d.nrcTtl);
    var refresh := e.refresh.GetOr(d.refresh);
    var retry := e.retry.GetOr(d.retry);
    var ttl := e.ttl.GetOr(d.ttl);
    ResolvedEmailIsDefault(e.email, d.email);
    if retry >= refresh then Err(RetryNotBelowRefresh)
    else
      match ResolveEmail(e.email, d.email)
      case Err(err) => Err(err)
      case Ok(email) =>
        match ParseNs(e.nameserver, name, ttl, d.nameserver)
        case Err(err) => Err(err)
        case Ok(ns) => Ok((ZoneBase(serial, name, email, expire, ns, nrcTtl, refresh, retry, ttl), split))
  }

  // ------------------------------------------------------------ PTR claiming

  /** The pool without the addresses `net` contains. */
  function Unclaimed(pool: map<IpAddr, PtrRecord>, net: IpNet): map<IpAddr, PtrRecord> {
    map ip | ip in pool && !Contains(net, ip) :: pool[ip]
  }

  /** `extract_if` with the containment test: the PTRs at the addresses `net` contains, and the rest of the pool. */
  method Drain(pool: map<IpAddr, PtrRecord>, net: IpNet)
    returns (ptr: seq<PtrRecord>, rest: map<IpAddr, PtrRecord>, ghost claimed: seq<IpAddr>)
    ensures rest == Unclaimed(pool, net)
    ensures |ptr| == |claimed|
    ensures forall k :: 0 <= k < |claimed| ==> claimed[k] in pool && Contains(net, claimed[k]) && ptr[k] == pool[claimed[k]]
    ensures forall ip :: ip in pool && Contains(net, ip) ==> ip in claimed
    ensures forall a, b :: 0 <= a < b < |claimed| ==> claimed[a] != claimed[b]
  {
    var matching := set ip | ip in pool.Keys && Contains(net, ip);
    var todo := matching;
    ptr, rest, claimed := [], pool, [];
    while todo != {}
      invariant Drained(pool, matching, todo, ptr, rest, claimed)
      decreases |todo|
    {
      ptr, rest, todo, claimed := DrainOne(pool, matching, todo, ptr, rest, claimed);
    }
  }

  /**
   * The state of the drain loop: every matching address is either still to
   * do or claimed once, with its PTR taken and its entry gone from `rest`.
   */
  ghost predicate Drained(pool: map<IpAddr, PtrRecord>, matching: set<IpAddr>, todo: set<IpAddr>,
                          ptr: seq<PtrRecord>, rest: map<IpAddr, PtrRecord>, claimed: seq<IpAddr>)
  {
    && matching <= pool.Keys
    && todo <= matching
    && (forall ip :: ip in matching ==> ip in todo || ip in claimed)
    && |ptr| == |claimed|
    && (forall k :: 0 <= k < |claimed| ==> claimed[k] in matching && ptr[k] == pool[claimed[k]] && claimed[k] !in todo)
    && (forall a, b :: 0 <= a < b < |claimed| ==> claimed[a] != claimed[b])
    && rest == map ip | ip in pool && ip !in claimed :: pool[ip]
  }

  /** One pass of the drain loop: one address still to do is claimed. */
  method DrainOne(pool: map<IpAddr, PtrRecord>, matching: set<IpAddr>, todo: set<IpAddr>,
                  ptr: seq<PtrRecord>, rest: map<IpAddr, PtrRecord>, ghost claimed: seq<IpAddr>)
    returns (ptr': seq<PtrRecord>, rest': map<IpAddr, PtrRecord>, todo': set<IpAddr>, ghost claimed': seq<IpAddr>)
    requires todo != {} && Drained(pool, matching, todo, ptr, rest, claimed)
    ensures Drained(pool, matching, todo', ptr', rest', claimed') && |todo'| < |todo|
  {
    var ip :| ip in todo;
    ptr' := ptr + [pool[ip]];
    claimed' := claimed + [ip];
    rest' := rest - {ip};
    todo' := todo - {ip};
  }

  /** What is left of the pool after the networks of the first `k` entries have claimed their addresses. */
  function Remaining(pool: map<IpAddr, PtrRecord>, entries: seq<(IpNet, ReverseEntry)>, k: nat): map<IpAddr, PtrRecord>
    requires k <= |entries|
  {
    if k == 0 then pool else Unclaimed(Remaining(pool, entries, k - 1), entries[k - 1].0)
  }

  /** An address stays in the pool exactly while no earlier network contains it, with its PTR unchanged. */
  lemma {:induction false} RemainingMembers(pool: map<IpAddr, PtrRecord>, entries: seq<(IpNet, ReverseEntry)>, k: nat, ip: IpAddr)
    requires k <= |entries|
    ensures ip in Remaining(pool, entries, k) <==> ip in pool && forall j :: 0 <= j < k ==> !Contains(entries[j].0, ip)
    ensures ip in Remaining(pool, entries, k) ==> Remaining(pool, entries, k)[ip] == pool[ip]
  {
    if k > 0 {
      RemainingMembers(pool, entries, k - 1, ip);
    }
  }

  /** The network of entry `k` overlaps the network of an earlier entry. */
  ghost predicate OverlapsEarlier(entries: seq<(IpNet, ReverseEntry)>, k: nat)
    requires k < |entries|
  {
    exists j :: 0 <= j < k && Overlaps(entries[j].0, entries[k].0)
  }

  /** Entry `k` is accepted: no overlap with an earlier network, and its zone data resolves. */
  ghost predicate EntryOk(entries: seq<(IpNet, ReverseEntry)>, d: SessionDefaults, k: nat)
    requires k < |entries|
  {
    !OverlapsEarlier(entries, k) && ResolveReverse(entries[k].0, entries[k].1, d).Ok?
  }

  /** The error entry `k` fails with, when it fails. */
  function EntryError(entries: seq<(IpNet, ReverseEntry)>, d: SessionDefaults, k: nat): Error
    requires k < |entries|
  {
    var res := ResolveReverse(entries[k].0, entries[k].1, d);
    if exists j :: 0 <= j < k && Overlaps(entries[j].0, entries[k].0) then NetworksOverlap
    else if res.Err? then res.error
    else NetworksOverlap
  }

  /** Whether some network of `accepted` overlaps `net`. */
  method AnyOverlap(accepted: seq<IpNet>, net: IpNet) returns (b: bool)
    ensures b <==> exists i :: 0 <= i < |accepted| && Overlaps(accepted[i], net)
  {
    var i := 0;
    while i < |accepted|
      invariant 0 <= i <= |accepted|
      invariant forall m :: 0 <= m < i ==> !Overlaps(accepted[m], net)
    {
      if Overlaps(accepted[i], net) {
        return true;
      }
      i := i + 1;
    }
    return false;
  }

  /** The networks of the first `k` entries that belong to one family, in entry order: the source's `net4` or `net6`. */
  function Family(entries: seq<(IpNet, ReverseEntry)>, k: nat, v4: bool): (r: seq<IpNet>)
    requires k <= |entries|
    ensures |r| <= k
  {
    if k == 0 then []
    else Family(entries, k - 1, v4) + (if entries[k - 1].0.V4Net? == v4 then [entries[k - 1].0] else [])
  }

  /** Every earlier network of the family is in the family's list. */
  lemma {:induction false} FamilyHas(entries: seq<(IpNet, ReverseEntry)>, k: nat, v4: bool, j: nat)
    requires j < k <= |entries| && entries[j].0.V4Net? == v4
    ensures entries[j].0 in Family(entries, k, v4)
  {
    if j < k - 1 {
      FamilyHas(entries, k - 1, v4, j);
    }
  }

  /** Every network in the family's list is an earlier entry's. */
  lemma {:induction false} FamilyFrom(entries: seq<(IpNet, ReverseEntry)>, k: nat, v4: bool, i: nat) returns (j: nat)
    requires k <= |entries| && i < |Family(entries, k, v4)|
    ensures j < k && entries[j].0 == Family(entries, k, v4)[i]
  {
    var prev := Family(entries, k - 1, v4);
    if i < |prev| {
      j := FamilyFrom(entries, k - 1, v4, i);
    } else {
      j := k - 1;
    }
  }

  /** Checking a network against its own family's list finds exactly the overlaps with earlier entries. */
  lemma {:induction false} FamilyCheck(entries: seq<(IpNet, ReverseEntry)>, k: nat)
    requires k < |entries|
    ensures var fam := Family(entries, k, entries[k].0.V4Net?);
      (exists i :: 0 <= i < |fam| && Overlaps(fam[i], entries[k].0)) <==> OverlapsEarlier(entries, k)
  {
    var net := entries[k].0;
    var fam := Family(entries, k, net.V4Net?);
    if exists j :: 0 <= j < k && Overlaps(entries[j].0, net) {
      var j :| 0 <= j < k && Overlaps(entries[j].0, net);
      FamilyHas(entries, k, net.V4Net?, j);
      var i :| 0 <= i < |fam| && fam[i] == entries[j].0;
      assert Overlaps(fam[i], net);
    }
    if exists i :: 0 <= i < |fam| && Overlaps(fam[i], net) {
      var i :| 0 <= i < |fam| && Overlaps(fam[i], net);
      var j := FamilyFrom(entries, k, net.V4Net?, i);
      assert Overlaps(entries[j].0, net);
    }
  }

  /** `ptr` holds, without repetition, the pool's PTRs at the addresses `claimed`, all inside `net`. */
  ghost predicate ClaimsOf(ptr: seq<PtrRecord>, claimed: seq<IpAddr>, pool: map<IpAddr, PtrRecord>, net: IpNet) {
    && |ptr| == |claimed|
    && (forall m :: 0 <= m < |claimed| ==> claimed[m] in pool && Contains(net, claimed[m]) && ptr[m] == pool[claimed[m]])
    && (forall a, b :: 0 <= a < b < |claimed| ==> claimed[a] != claimed[b])
  }

  /** The zone data of every entry, resolved against the defaults, in entry order. */
  ghost function ReverseResolutions(entries: seq<(IpNet, ReverseEntry)>, d: SessionDefaults): (rs: seq<Result<(ZoneBase, nat)>>)
    ensures |rs| == |entries|
  {
    seq(|entries|, k requires 0 <= k < |entries| => ResolveReverse(entries[k].0, entries[k].1, d))
  }

  /**
   * Zone `k` is what entry `k` yields: its network overlaps no earlier one,
   * the zone's base and split are the entry's resolved data `rs[k]`, and the
   * zone holds exactly the pool's PTRs whose addresses its network contains.
   */
  ghost predicate ZoneFor(entries: seq<(IpNet, ReverseEntry)>, rs: seq<Result<(ZoneBase, nat)>>, pool: map<IpAddr, PtrRecord>,
                          zone: ReverseZone, claimed: seq<IpAddr>, k: nat)
    requires k < |entries| && k < |rs|
  {
    && !OverlapsEarlier(entries, k)
    && rs[k] == Ok((zone.base, zone.split))
    && ClaimsOf(zone.ptr, claimed, pool, entries[k].0)
    && (forall ip :: ip in pool && Contains(entries[k].0, ip) ==> ip in claimed)
  }

  /** Every zone so far is what its entry yields (stated for the last zone and, recursively, the ones before). */
  ghost predicate ZonesFor(entries: seq<(IpNet, ReverseEntry)>, rs: seq<Result<(ZoneBase, nat)>>, pool: map<IpAddr, PtrRecord>,
                           zones: seq<ReverseZone>, claims: seq<seq<IpAddr>>)
    decreases |zones|
  {
    && |zones| == |claims| <= |entries| == |rs|
    && (|zones| > 0 ==>
          && ZonesFor(entries, rs, pool, zones[..|zones| - 1], claims[..|claims| - 1])
          && ZoneFor(entries, rs, pool, zones[|zones| - 1], claims[|claims| - 1], |zones| - 1))
  }

  /** Zone `k` is what entry `k` yields. */
  lemma {:induction false} ZonesForAt(entries: seq<(IpNet, ReverseEntry)>, rs: seq<Result<(ZoneBase, nat)>>,
                                      pool: map<IpAddr, PtrRecord>, zones: seq<ReverseZone>, claims: seq<seq<IpAddr>>, k: nat)
    requires ZonesFor(entries, rs, pool, zones, claims) && k < |zones|
    ensures k < |entries| == |rs| && ZoneFor(entries, rs, pool, zones[k], claims[k], k)
  {
    var n := |zones| - 1;
    if k < n {
      ZonesForAt(entries, rs, pool, zones[..n], claims[..n], k);
      assert zones[..n][k] == zones[k] && claims[..n][k] == claims[k];
    }
  }

  lemma {:induction false} ZonesForSnoc(entries: seq<(IpNet, ReverseEntry)>, rs: seq<Result<(ZoneBase, nat)>>,
                     pool: map<IpAddr, PtrRecord>, zones: seq<ReverseZone>, claims: seq<seq<IpAddr>>,
                     zone: ReverseZone, claimed: seq<IpAddr>)
    requires ZonesFor(entries, rs, pool, zones, claims) && |zones| < |entries|
    requires ZoneFor(entries, rs, pool, zone, claimed, |zones|)
    ensures ZonesFor(entries, rs, pool, zones + [zone], claims + [claimed])
  {
    var zs, cs := zones + [zone], claims + [claimed];
    assert zs[..|zones|] == zones && cs[..|claims|] == claims;
  }

  /**
   * `parse_reverse`: one reverse zone per entry, in entry order. Each network
   * must not overlap an earlier one; the zone's data is resolved against the
   * defaults; then every pooled PTR whose address the network contains moves
   * out of the pool into the zone. The first entry that fails decides the
   * error. `claims` names, per zone, the pool addresses it took.
   */
  method ParseReverse(entries: seq<(IpNet, ReverseEntry)>, d: SessionDefaults, pool: map<IpAddr, PtrRecord>)
    returns (r: Result<seq<ReverseZone>>, ghost claims: seq<seq<IpAddr>>)
    ensures r.Ok? <==> forall k :: 0 <= k < |entries| ==> EntryOk(entries, d, k)
    ensures r.Err? ==> exists k :: FirstFailureAt(entries, d, k, r.error)
    ensures r.Ok? ==> |r.value| == |entries| && ZonesFor(entries, ReverseResolutions(entries, d), pool, r.value, claims)
  {
    ghost var rs := ReverseResolutions(entries, d);
    var zones: seq<ReverseZone> := [];
    var net4: seq<IpNet> := [];
    var net6: seq<IpNet> := [];
    var ptrs := pool;
    claims := [];
    var k := 0;
    while k < |entries|
      invariant 0 <= k <= |entries| && |zones| == k
      invariant ZonesFor(entries, rs, pool, zones, claims)
      invariant net4 == Family(entries, k, true) && net6 == Family(entries, k, false)
      invariant ptrs == Remaining(pool, entries, k)
    {
      var (net, entry) := entries[k];
      var overlap := OverlapsAccepted(entries, k, net4, net6);
      if overlap {
        Fails(entries, d, pool, zones, claims, NetworksOverlap);
        return Err(NetworksOverlap), claims;
      }
      net4, net6 := RememberNetwork(entries, k, net4, net6);
      var resolved := ResolveReverse(net, entry, d);
      assert rs[k] == resolved;
      if resolved.Err? {
        Fails(entries, d, pool, zones, claims, resolved.error);
        return Err(resolved.error), claims;
      }
      var zone, rest, claimed := AcceptEntry(entries, rs, pool, k, resolved.value, ptrs);
      ZonesForSnoc(entries, rs, pool, zones, claims, zone, claimed);
      zones := zones + [zone];
      claims := claims + [claimed];
      ptrs := rest;
      k := k + 1;
    }
    AllAccepted(entries, d, pool, zones, claims);
    return Ok(zones), claims;
  }

  /** Entry `k` is the first that fails, and it fails with `e`. */
  ghost predicate FirstFailureAt(entries: seq<(IpNet, ReverseEntry)>, d: SessionDefaults, k: nat, e: Error) {
    && k < |entries|
    && !EntryOk(entries, d, k)
    && e == EntryError(entries, d, k)
    && forall j :: 0 <= j < k ==> EntryOk(entries, d, j)
  }

  lemma {:induction false} Fails(entries: seq<(IpNet, ReverseEntry)>, d: SessionDefaults, pool: map<IpAddr, PtrRecord>,
              zones: seq<ReverseZone>, claims: seq<seq<IpAddr>>, e: Error)
    requires ZonesFor(entries, ReverseResolutions(entries, d), pool, zones, claims) && |zones| < |entries|
    requires !EntryOk(entries, d, |zones|) && e == EntryError(entries, d, |zones|)
    ensures FirstFailureAt(entries, d, |zones|, e)
    ensures !forall k :: 0 <= k < |entries| ==> EntryOk(entries, d, k)
  {
    FirstFailureAll(entries, d, pool, zones, claims);
  }

  /** The accepted network joins the list of its family. */
  method RememberNetwork(entries: seq<(IpNet, ReverseEntry)>, k: nat, net4: seq<IpNet>, net6: seq<IpNet>)
    returns (next4: seq<IpNet>, next6: seq<IpNet>)
    requires k < |entries| && net4 == Family(entries, k, true) && net6 == Family(entries, k, false)
    ensures next4 == Family(entries, k + 1, true) && next6 == Family(entries, k + 1, false)
  {
    next4, next6 := net4, net6;
    if entries[k].0.V4Net? {
      next4 := net4 + [entries[k].0];
    } else {
      next6 := net6 + [entries[k].0];
    }
  }

  /** The source's overlap check: the entry's network against the accepted networks of its family. */
  method OverlapsAccepted(entries: seq<(IpNet, ReverseEntry)>, k: nat, net4: seq<IpNet>, net6: seq<IpNet>) returns (b: bool)
    requires k < |entries| && net4 == Family(entries, k, true) && net6 == Family(entries, k, false)
    ensures b <==> OverlapsEarlier(entries, k)
  {
    FamilyCheck(entries, k);
    if entries[k].0.V4Net? {
      b := AnyOverlap(net4, entries[k].0);
    } else {
      b := AnyOverlap(net6, entries[k].0);
    }
  }

  /** Builds the zone of an accepted entry, draining its PTRs from what is left of the pool. */
  method AcceptEntry(entries: seq<(IpNet, ReverseEntry)>, ghost rs: seq<Result<(ZoneBase, nat)>>,
                     pool: map<IpAddr, PtrRecord>, k: nat, resolved: (ZoneBase, nat), ptrs: map<IpAddr, PtrRecord>)
    returns (zone: ReverseZone, rest: map<IpAddr, PtrRecord>, ghost claimed: seq<IpAddr>)
    requires k < |entries| == |rs| && !OverlapsEarlier(entries, k)
    requires rs[k] == Ok(resolved)
    requires ptrs == Remaining(pool, entries, k)
    ensures ZoneFor(entries, rs, pool, zone, claimed, k)
    ensures rest == Remaining(pool, entries, k + 1)
  {
    var ptr;
    ptr, rest, claimed := Drain(ptrs, entries[k].0);
    zone := ReverseZone(resolved.0, ptr, resolved.1);
    ClaimsFromRemaining(pool, entries, k, ptr, claimed);
  }

  lemma {:induction false} FirstFailureAll(entries: seq<(IpNet, ReverseEntry)>, d: SessionDefaults, pool: map<IpAddr, PtrRecord>,
                     zones: seq<ReverseZone>, claims: seq<seq<IpAddr>>)
    requires ZonesFor(entries, ReverseResolutions(entries, d), pool, zones, claims)
    ensures forall j :: 0 <= j < |zones| ==> EntryOk(entries, d, j)
  {
    var rs := ReverseResolutions(entries, d);
    forall j | 0 <= j < |zones|
      ensures EntryOk(entries, d, j)
    {
      ZonesForAt(entries, rs, pool, zones, claims, j);
      assert rs[j] == ResolveReverse(entries[j].0, entries[j].1, d);
    }
  }

  lemma {:induction false} AllAccepted(entries: seq<(IpNet, ReverseEntry)>, d: SessionDefaults, pool: map<IpAddr, PtrRecord>,
                    zones: seq<ReverseZone>, claims: seq<seq<IpAddr>>)
    requires ZonesFor(entries, ReverseResolutions(entries, d), pool, zones, claims) && |zones| == |entries|
    ensures forall k :: 0 <= k < |entries| ==> EntryOk(entries, d, k)
  {
    FirstFailureAll(entries, d, pool, zones, claims);
  }

  /**
   * What entry `k` drains from the remaining pool is what it would take from
   * the whole pool: no address it contains was claimed before, since that
   * would make its network overlap an earlier one.
   */
  lemma {:induction false} ClaimsFromRemaining(pool: map<IpAddr, PtrRecord>, entries: seq<(IpNet, ReverseEntry)>, k: nat,
                            ptr: seq<PtrRecord>, claimed: seq<IpAddr>)
    requires k < |entries| && !OverlapsEarlier(entries, k)
    requires ClaimsOf(ptr, claimed, Remaining(pool, entries, k), entries[k].0)
    requires forall ip :: ip in Remaining(pool, entries, k) && Contains(entries[k].0, ip) ==> ip in claimed
    ensures ClaimsOf(ptr, claimed, pool, entries[k].0)
    ensures forall ip :: ip in pool && Contains(entries[k].0, ip) ==> ip in claimed
  {
    forall m | 0 <= m < |claimed|
      ensures claimed[m] in pool && ptr[m] == pool[claimed[m]]
    {
      RemainingMembers(pool, entries, k, claimed[m]);
    }
    forall ip | ip in pool && Contains(entries[k].0, ip)
      ensures ip in claimed
    {
      RemainingMembers(pool, entries, k, ip);
      forall j | 0 <= j < k
        ensures !Contains(entries[j].0, ip)
      {
        if Contains(entries[j].0, ip) {
          SharedAddressOverlaps(entries[j].0, entries[k].0, ip);
          assert false;
        }
      }
    }
  }

  /** Accepted networks never share an address, so no PTR is claimed by two zones. */
  lemma {:induction false} ClaimsDisjoint(entries: seq<(IpNet, ReverseEntry)>, rs: seq<Result<(ZoneBase, nat)>>,
                       pool: map<IpAddr, PtrRecord>, zones: seq<ReverseZone>, claims: seq<seq<IpAddr>>,
                       i: nat, j: nat, ip: IpAddr)
    requires ZonesFor(entries, rs, pool, zones, claims)
    requires i < j < |zones| && ip in claims[i]
    ensures ip !in claims[j]
  {
    if ip in claims[j] {
      ZonesForAt(entries, rs, pool, zones, claims, i);
      ZonesForAt(entries, rs, pool, zones, claims, j);
      assert Contains(entries[i].0, ip) && Contains(entries[j].0, ip);
      SharedAddressOverlaps(entries[i].0, entries[j].0, ip);
      assert false;
    }
  }
}
