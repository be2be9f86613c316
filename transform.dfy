/**
 * The normaliser and record derivation for forward zones: FQDN completion,
 * SRV owner names, the SOA mailbox encoding, the MX/NS/CNAME/SRV pipelines,
 * host expansion into address and PTR records, and the per-zone defaulting
 * of `parse_forward`.
 */
module Transform {
  import opened Common
  import opened Text
  import opened Validation
  import opened Net
  import opened Records
  import opened Entries

  // ---------------------------------------------------------- FQDN completion

  /** Completion of an already trimmed host name. */
  function CompleteTrimmed(host: string, zone: string): (r: Result<string>)
    ensures r.Err? <==> !EndsWith(host, '.') && |zone| == 0
    ensures r.Err? ==> r.error == HostNotFqdn
    ensures r.Ok? && EndsWith(host, '.') ==> r.value == host
    ensures r.Ok? && !EndsWith(host, '.') ==> r.value == (if host == "@" then zone else host + "." + zone)
    ensures r.Ok? && (EndsWith(host, '.') || EndsWith(zone, '.')) ==> EndsWith(r.value, '.')
  {
    if EndsWith(host, '.') then Ok(host)
    else if |zone| == 0 then Err(HostNotFqdn)
    else if host == "@" then Ok(zone)
    else
      var full := host + "." + zone;
      assert full[|full| - 1] == zone[|zone| - 1];
      Ok(full)
  }

  /** `parse_host_str`: complete a possibly relative host name against `zone`. */
  function ParseHostStr(name: string, zone: string): (r: Result<string>)
    ensures r.Err? <==> !EndsWith(Trim(name), '.') && |zone| == 0
    ensures r.Err? ==> r.error == HostNotFqdn
    ensures r.Ok? && EndsWith(Trim(name), '.') ==> r.value == Trim(name)
    ensures r.Ok? && !EndsWith(Trim(name), '.') ==>
      r.value == (if Trim(name) == "@" then zone else Trim(name) + "." + zone)
    ensures r.Ok? && (EndsWith(Trim(name), '.') || EndsWith(zone, '.')) ==> EndsWith(r.value, '.')
  {
    CompleteTrimmed(Trim(name), zone)
  }

  /** A zone name fit for completion: it ends in "." and does not start with whitespace. */
  predicate CleanZone(zone: string) {
    EndsWith(zone, '.') && !IsWhitespace(zone[0])
  }

  /** Completing an already completed name changes nothing. */
  lemma {:induction false} ParseHostStrIdempotent(name: string, zone: string)
    requires CleanZone(zone)
    ensures ParseHostStr(name, zone).Ok?
    ensures ParseHostStr(ParseHostStr(name, zone).value, zone) == ParseHostStr(name, zone)
  {
    var host := Trim(name);
    var v := ParseHostStr(name, zone).value;
    if EndsWith(host, '.') {
      TrimIdempotent(name);
    } else if host == "@" {
      TrimOfTrimmed(zone);
    } else {
      assert v == host + "." + zone;
      assert v[|v| - 1] == zone[|zone| - 1];
      assert v[0] == if |host| > 0 then host[0] else '.';
      TrimOfTrimmed(v);
    }
  }

  /** A name without surrounding whitespace, not ending in "." and not "@", goes under the zone. */
  lemma {:induction false} ParseHostStrUnder(host: string, zone: string)
    requires Trim(host) == host && !EndsWith(host, '.') && host != "@" && |zone| > 0
    ensures ParseHostStr(host, zone) == Ok(host + "." + zone)
  {
  }

  lemma {:induction false} HostLiteral()
    ensures Trim("host") == "host" && !EndsWith("host", '.')
  {
    TrimOfTrimmed("host");
  }

  lemma {:induction false} HostIsNotApex()
    ensures "host" != "@"
  {
  }

  lemma {:induction false} HostUnderExample()
    ensures "host" + "." + "example.com." == "host.example.com."
  {
  }

  /** A relative name is put under the zone. */
  lemma {:induction false} ParseHostStrRelative()
    ensures ParseHostStr("host", "example.com.") == Ok("host.example.com.")
  {
    HostLiteral();
    HostIsNotApex();
    HostUnderExample();
    ParseHostStrUnder("host", "example.com.");
  }

  lemma {:induction false} ApexLiteral()
    ensures Trim("@") == "@" && !EndsWith("@", '.')
  {
    TrimOfTrimmed("@");
  }

  /** "@" stands for the zone itself. */
  lemma {:induction false} ParseHostStrApex()
    ensures ParseHostStr("@", "example.com.") == Ok("example.com.")
  {
    ApexLiteral();
  }

  /** A name ending in "." is kept as it is, whatever the zone. */
  lemma {:induction false} ParseHostStrAbsolute()
    ensures ParseHostStr("example.com.", "zone.com.") == Ok("example.com.")
  {
    TrimOfTrimmed("example.com.");
  }

  /** A relative name cannot be completed without a zone. */
  lemma {:induction false} ParseHostStrNoZone()
    ensures ParseHostStr("host", "") == Err(HostNotFqdn)
  {
    HostLiteral();
  }

  // -------------------------------------------------------------- SRV names

  /** `parse_srv_name`: the "_service._proto" shape check on the trimmed name, then completion. */
  function ParseSrvName(name: string, zone: string): (r: Result<string>)
    ensures r.Ok? <==> SrvShaped(Trim(name)) && ParseHostStr(name, zone).Ok?
    ensures r.Ok? ==> r == ParseHostStr(name, zone)
    ensures !SrvShaped(Trim(name)) ==> r == Err(CheckSrvKey(Trim(name)).error)
  {
    var srvName := Trim(name);
    match CheckSrvKey(srvName)
    case Fail(e) => Err(e)
    case Pass =>
      TrimIdempotent(name);
      ParseHostStr(srvName, zone)
  }

  /** On a name without surrounding whitespace the SRV-map key check and this check agree. */
  lemma {:induction false} SrvNameMatchesKeyCheck(name: string, zone: string)
    requires Trim(name) == name && |zone| > 0
    ensures ParseSrvName(name, zone).Ok? <==> CheckSrvKey(name).Pass?
  {
  }

  /** A name whose shape check fails is refused with that check's error. */
  lemma {:induction false} ParseSrvNameRejects(name: string, zone: string)
    requires Trim(name) == name && CheckSrvKey(name).Fail?
    ensures ParseSrvName(name, zone) == Err(CheckSrvKey(name).error)
  {
  }

  lemma {:induction false} SrvLiterals()
    ensures Trim("_http._tcp") == "_http._tcp"
  {
    TrimOfTrimmed("_http._tcp");
  }

  lemma {:induction false} SrvUnderExample()
    ensures !EndsWith("_http._tcp", '.')
    ensures "_http._tcp" + "." + "example.com." == "_http._tcp.example.com."
  {
  }

  lemma {:induction false} SrvNotApex()
    ensures "_http._tcp" != "@"
  {
  }

  /** A relative "_service._proto" name is put under the zone. */
  lemma {:induction false} ParseSrvNameRelative()
    ensures ParseSrvName("_http._tcp", "example.com.") == Ok("_http._tcp.example.com.")
  {
    SrvKeyAccepted();
    SrvLiterals();
    SrvUnderExample();
    SrvNotApex();
    ParseHostStrUnder("_http._tcp", "example.com.");
  }

  lemma {:induction false} NoServiceUnderscoreLiteral()
    ensures Trim("http._tcp") == "http._tcp"
  {
    TrimOfTrimmed("http._tcp");
  }

  lemma {:induction false} NoProtocolUnderscoreLiteral()
    ensures Trim("_http.tcp") == "_http.tcp"
  {
    TrimOfTrimmed("_http.tcp");
  }

  lemma {:induction false} NoProtocolLiteral()
    ensures Trim("_http") == "_http"
  {
    TrimOfTrimmed("_http");
  }

  /** A service label without its leading "_" is refused. */
  lemma {:induction false} ParseSrvNameNoServiceUnderscore()
    ensures ParseSrvName("http._tcp", "example.com.") == Err(SrvServiceUnderscore)
  {
    SrvServiceRejected();
    NoServiceUnderscoreLiteral();
    ParseSrvNameRejects("http._tcp", "example.com.");
  }

  /** A protocol label without its leading "_" is refused. */
  lemma {:induction false} ParseSrvNameNoProtocolUnderscore()
    ensures ParseSrvName("_http.tcp", "example.com.") == Err(SrvProtocolUnderscore)
  {
    SrvProtocolRejected();
    NoProtocolUnderscoreLiteral();
    ParseSrvNameRejects("_http.tcp", "example.com.");
  }

  /** A name without a protocol label is refused. */
  lemma {:induction false} ParseSrvNameNoProtocol()
    ensures ParseSrvName("_http", "example.com.") == Err(SrvTooFewParts)
  {
    SrvSingleLabelRejected();
    NoProtocolLiteral();
    ParseSrvNameRejects("_http", "example.com.");
  }

  // ------------------------------------------------------------ SOA mailbox

  /** Every "." of a mailbox local part written as "\." (the escape of section 5.1 of RFC 1035). */
  function EscapeLocal(local: string): (r: string)
    ensures '.' !in local ==> r == local
  {
    if |local| == 0 then []
    else (if local[0] == '.' then ['\\', '.'] else [local[0]]) + EscapeLocal(local[1..])
  }

  function WithTrailingDot(s: string): (r: string)
    ensures EndsWith(r, '.')
    ensures EndsWith(s, '.') ==> r == s
  {
    if EndsWith(s, '.') then s else s + "."
  }

  /** The mailbox as a domain name (section 3.3.13 of RFC 1035): escaped local part, ".", then the domain. */
  function MailboxOf(local: string, domain: string): (r: string)
    ensures EndsWith(r, '.')
  {
    EscapeLocal(local) + "." + WithTrailingDot(domain)
  }

  /** Reads a mailbox name back: the local part up to the first unescaped ".", unescaped, then the rest. */
  function DecodeMailbox(m: string): (string, string)
  {
    if |m| == 0 then ([], [])
    else if m[0] == '.' then ([], m[1..])
    else if m[0] == '\\' && |m| >= 2 && m[1] == '.' then
      var rest := DecodeMailbox(m[2..]);
      (['.'] + rest.0, rest.1)
    else
      var rest := DecodeMailbox(m[1..]);
      ([m[0]] + rest.0, rest.1)
  }

  /** Decoding undoes the encoding whenever the local part holds no backslash. */
  lemma {:induction false} DecodeMailboxOf(local: string, tail: string)
    requires '\\' !in local
    ensures DecodeMailbox(EscapeLocal(local) + "." + tail) == (local, tail)
  {
    var m := EscapeLocal(local) + "." + tail;
    if |local| == 0 {
      assert m == "." + tail;
      assert m[1..] == tail;
    } else {
      DecodeMailboxOf(local[1..], tail);
      var rest := EscapeLocal(local[1..]) + "." + tail;
      if local[0] == '.' {
        assert m == ['\\', '.'] + rest;
        assert m[2..] == rest;
      } else {
        assert m == [local[0]] + rest;
        assert m[1..] == rest;
      }
      assert local == [local[0]] + local[1..];
    }
  }

  /**
   * `parse_email`, as written: split at the first "@", build the mailbox
   * name, then run the address validator on that mailbox name.
   */
  function ParseEmail(raw: string): (r: Result<string>)
    ensures '@' !in raw ==> r == Err(MailboxMissingAt)
    ensures r.Ok? ==> IsEmail(r.value)
  {
    match SplitOnce(raw, '@')
    case None => Err(MailboxMissingAt)
    case Some((local, domain)) =>
      var email := MailboxOf(local, domain);
      match ValidateEmail(email)
      case Fail(e) => Err(e)
      case Pass => Ok(email)
  }

  /** The mailbox name always ends in ".", which the address validator never accepts. */
  lemma {:induction false} ParseEmailNeverOk(raw: string)
    ensures ParseEmail(raw).Err?
  {
    if '@' in raw {
      var (local, domain) := SplitOnce(raw, '@').value;
      TrailingDotNeverEmail(MailboxOf(local, domain));
    }
  }

  /** The mailbox the source's tests expect for a plain address. */
  lemma {:induction false} MailboxPlain()
    ensures MailboxOf("admin", "example.com") == "admin.example.com."
  {
    assert '.' !in "admin";
    assert !EndsWith("example.com", '.');
    assert "admin" + "." + ("example.com" + ".") == "admin.example.com.";
  }

  /** A single dot between two dot-free parts is escaped. */
  lemma {:induction false} EscapeOneDot(a: string, b: string)
    requires '.' !in a && '.' !in b
    ensures EscapeLocal(a + "." + b) == a + "\\." + b
  {
    if |a| == 0 {
      assert a + "." + b == ['.'] + b;
      assert (['.'] + b)[1..] == b;
    } else {
      var s := a + "." + b;
      assert s[0] == a[0] && a[0] != '.';
      assert s[1..] == a[1..] + "." + b;
      EscapeOneDot(a[1..], b);
      assert EscapeLocal(s) == [a[0]] + (a[1..] + "\\." + b);
      assert a == [a[0]] + a[1..];
    }
  }

  /** The mailbox of a local part with one dot. */
  lemma {:induction false} MailboxOneDot(a: string, b: string, domain: string)
    requires '.' !in a && '.' !in b
    ensures MailboxOf(a + "." + b, domain) == a + "\\." + b + "." + WithTrailingDot(domain)
  {
    EscapeOneDot(a, b);
  }

  /** A domain that already ends in "." gets no second one. */
  lemma {:induction false} MailboxQualified()
    ensures MailboxOf("admin", "example.com.") == "admin.example.com."
  {
    assert '.' !in "admin";
    assert EndsWith("example.com.", '.');
    assert "admin" + "." + "example.com." == "admin.example.com.";
  }

  /** The domain without one trailing ".". */
  function BareDomain(domain: string): (r: string)
    ensures EndsWith(domain, '.') ==> r + "." == domain
    ensures !EndsWith(domain, '.') ==> r == domain
  {
    if EndsWith(domain, '.') then domain[..|domain| - 1] else domain
  }

  /**
   * The mailbox construction with the validation the tests expect: the
   * address itself (with any trailing dot of the domain dropped) is
   * validated, then encoded.
   */
  function ParseEmailIntended(raw: string): (r: Result<string>)
    ensures '@' !in raw ==> r == Err(MailboxMissingAt)
    ensures r.Ok? ==> EndsWith(r.value, '.')
    ensures r.Ok? <==> ('@' in raw &&
      var (local, domain) := SplitOnce(raw, '@').value;
      IsEmail(local + "@" + BareDomain(domain)))
  {
    match SplitOnce(raw, '@')
    case None => Err(MailboxMissingAt)
    case Some((local, domain)) =>
      match ValidateEmail(local + "@" + BareDomain(domain))
      case Fail(e) => Err(e)
      case Pass => Ok(MailboxOf(local, domain))
  }

  /** An accepted address has no backslash in its local part. */
  lemma {:induction false} AcceptedLocalHasNoBackslash(local: string, domain: string)
    requires '@' !in local && IsEmail(local + "@" + domain)
    ensures '\\' !in local
  {
    assert local + "@" + domain == local + ['@'] + domain;
    SplitOnceAt(local, domain, '@');
    assert LocalOk(local);
  }

  /** An accepted address encodes to a mailbox that decodes back to its local part and domain. */
  lemma {:induction false} ParseEmailIntendedRoundTrip(raw: string)
    requires ParseEmailIntended(raw).Ok?
    ensures '@' in raw
    ensures var (local, domain) := SplitOnce(raw, '@').value;
      DecodeMailbox(ParseEmailIntended(raw).value) == (local, WithTrailingDot(domain))
  {
    var (local, domain) := SplitOnce(raw, '@').value;
    AcceptedLocalHasNoBackslash(local, BareDomain(domain));
    assert ParseEmailIntended(raw).value == MailboxOf(local, domain);
    DecodeMailboxOf(local, WithTrailingDot(domain));
  }

  /** An address the validator accepts is encoded as its mailbox name. */
  lemma {:induction false} ParseEmailIntendedAccepts(local: string, domain: string)
    requires '@' !in local && ValidateEmail(local + "@" + BareDomain(domain)) == Pass
    ensures ParseEmailIntended(local + "@" + domain) == Ok(MailboxOf(local, domain))
  {
    assert local + "@" + domain == local + ['@'] + domain;
    SplitOnceAt(local, domain, '@');
  }

  // --------------------------------------------------------------- MX and NS

  /** One MX value of a zone: complete, validate, and fill TTL and priority from the zone defaults. */
  function MxRecordOf(v: StringOrTable<MxEntry>, zone: string, ttl: U32, prio: U16): (r: Result<MxRecord>)
    ensures r.Ok? <==> ParseHostStr(MxName(v), zone).Ok? && IsDnsName(ParseHostStr(MxName(v), zone).value)
    ensures r.Ok? ==> r.value.name == ParseHostStr(MxName(v), zone).value
    ensures r.Ok? && v.Entry? ==> r.value.ttl == ttl && r.value.prio == prio
    ensures r.Ok? && v.Table? ==> r.value.ttl == v.table.ttl.GetOr(ttl) && r.value.prio == v.table.prio.GetOr(prio)
    ensures r.Ok? ==> IsDnsName(r.value.name)
  {
    var (name, t, p) := match v
      case Entry(e) => (e, ttl, prio)
      case Table(m) => (m.name, m.ttl.GetOr(ttl), m.prio.GetOr(prio));
    match ParseHostStr(name, zone)
    case Err(e) => Err(e)
    case Ok(fqdn) =>
      match ValidateDnsName(fqdn)
      case Fail(e) => Err(e)
      case Pass => Ok(MxRecord(fqdn, t, p))
  }

  function MxName(v: StringOrTable<MxEntry>): string {
    match v
    case Entry(e) => e
    case Table(m) => m.name
  }

  /** A default MX entry copied as it is, without completion or validation. */
  function MxFromDefault(e: MxEntry, ttl: U32, prio: U16): MxRecord {
    MxRecord(e.name, e.ttl.GetOr(ttl), e.prio.GetOr(prio))
  }

  /** Every listed mail exchanger, in order, or the first error among them. */
  function MxRecords(vs: seq<StringOrTable<MxEntry>>, zone: string, ttl: U32, prio: U16): (r: Result<seq<MxRecord>>)
    ensures r.Ok? <==> forall i :: 0 <= i < |vs| ==> MxRecordOf(vs[i], zone, ttl, prio).Ok?
    ensures r.Ok? ==> |r.value| == |vs| && forall i :: 0 <= i < |vs| ==> r.value[i] == MxRecordOf(vs[i], zone, ttl, prio).value
  {
    MapAll(vs, (e: StringOrTable<MxEntry>) => MxRecordOf(e, zone, ttl, prio))
  }

  /** `parse_mx`: the zone's own mail exchangers, each completed and validated, or else the defaults as they are. */
  function ParseMx(raw: Option<SingleOrVec<StringOrTable<MxEntry>>>, zone: string, ttl: U32, prio: U16,
                   defaults: seq<MxEntry>): (r: Result<seq<MxRecord>>)
    ensures raw.None? ==> r.Ok? && |r.value| == |defaults|
                          && forall i :: 0 <= i < |defaults| ==> r.value[i] == MxFromDefault(defaults[i], ttl, prio)
    ensures raw.Some? ==> var vs := ToVec(raw.value);
      && (r.Ok? <==> forall i :: 0 <= i < |vs| ==> MxRecordOf(vs[i], zone, ttl, prio).Ok?)
      && (r.Ok? ==> |r.value| == |vs| && forall i :: 0 <= i < |vs| ==> r.value[i] == MxRecordOf(vs[i], zone, ttl, prio).value)
      && (r.Ok? ==> forall i :: 0 <= i < |vs| ==> IsDnsName(r.value[i].name))
  {
    match raw
    case Some(v) => MxRecords(ToVec(v), zone, ttl, prio)
    case None => Ok(seq(|defaults|, i requires 0 <= i < |defaults| => MxFromDefault(defaults[i], ttl, prio)))
  }

  /** Default MX names reach the zone unvalidated: even a name that is not a DNS name is copied. */
  lemma {:induction false} DefaultMxNotValidated(zone: string, ttl: U32, prio: U16)
    ensures ParseMx(None, zone, ttl, prio, [MxEntry("mail", None, None)]) == Ok([MxRecord("mail", ttl, prio)])
    ensures !IsDnsName("mail")
  {
    var r := ParseMx(None, zone, ttl, prio, [MxEntry("mail", None, None)]);
    assert r.value[0] == MxRecord("mail", ttl, prio);
    assert r.value == [MxRecord("mail", ttl, prio)];
    assert !EndsWith("mail", '.');
  }

  function NsName(v: StringOrTable<NameserverEntry>): string {
    match v
    case Entry(e) => e
    case Table(n) => n.name
  }

  /** One NS value of a zone: complete, validate, and fill the TTL. */
  function NsRecordOf(v: StringOrTable<NameserverEntry>, zone: string, ttl: U32): (r: Result<NsRecord>)
    ensures r.Ok? <==> ParseHostStr(NsName(v), zone).Ok? && IsDnsName(ParseHostStr(NsName(v), zone).value)
    ensures r.Ok? ==> r.value.name == ParseHostStr(NsName(v), zone).value
    ensures r.Ok? ==> r.value.ttl == (if v.Table? then v.table.ttl.GetOr(ttl) else ttl)
    ensures r.Ok? ==> IsDnsName(r.value.name)
  {
    var (name, t) := match v
      case Entry(e) => (e, ttl)
      case Table(n) => (n.name, n.ttl.GetOr(ttl));
    match ParseHostStr(name, zone)
    case Err(e) => Err(e)
    case Ok(fqdn) =>
      match ValidateDnsName(fqdn)
      case Fail(e) => Err(e)
      case Pass => Ok(NsRecord(fqdn, t))
  }

  /** Every listed nameserver, in order, or the first error among them. */
  function NsRecords(vs: seq<StringOrTable<NameserverEntry>>, zone: string, ttl: U32): (r: Result<seq<NsRecord>>)
    ensures r.Ok? <==> forall i :: 0 <= i < |vs| ==> NsRecordOf(vs[i], zone, ttl).Ok?
    ensures r.Ok? ==> |r.value| == |vs| && forall i :: 0 <= i < |vs| ==> r.value[i] == NsRecordOf(vs[i], zone, ttl).value
  {
    MapAll(vs, (e: StringOrTable<NameserverEntry>) => NsRecordOf(e, zone, ttl))
  }

  /** `parse_ns`: the zone's own nameservers, or else the defaults, which must not be empty. */
  function ParseNs(raw: Option<SingleOrVec<StringOrTable<NameserverEntry>>>, zone: string, ttl: U32,
                   defaults: seq<string>): (r: Result<seq<NsRecord>>)
    ensures raw.None? ==> (r.Err? <==> |defaults| == 0)
    ensures raw.None? && |defaults| == 0 ==> r == Err(NoNameserver)
    ensures raw.None? && r.Ok? ==> |r.value| == |defaults|
                                   && forall i :: 0 <= i < |defaults| ==> r.value[i] == NsRecord(defaults[i], ttl)
    ensures raw.Some? ==> var vs := ToVec(raw.value);
      && (r.Ok? <==> forall i :: 0 <= i < |vs| ==> NsRecordOf(vs[i], zone, ttl).Ok?)
      && (r.Ok? ==> |r.value| == |vs| && forall i :: 0 <= i < |vs| ==> r.value[i] == NsRecordOf(vs[i], zone, ttl).value)
      && (r.Ok? ==> forall i :: 0 <= i < |vs| ==> IsDnsName(r.value[i].name))
  {
    match raw
    case Some(v) => NsRecords(ToVec(v), zone, ttl)
    case None =>
      if |defaults| == 0 then Err(NoNameserver)
      else Ok(seq(|defaults|, i requires 0 <= i < |defaults| => NsRecord(defaults[i], ttl)))
  }

  /** A zone that lists an explicitly empty set of nameservers is accepted with none. */
  lemma {:induction false} ExplicitEmptyNameserversAccepted(zone: string, ttl: U32, defaults: seq<string>)
    ensures ParseNs(Some(Multiple([])), zone, ttl, defaults) == Ok([])
  {
  }

  // ------------------------------------------------------------ CNAME and SRV

  /** One CNAME pair: both the alias name and its target are completed; neither is validated. */
  function CnameRecordOf(p: (string, StringOrTable<CnameEntry>), zone: string, ttl: U32): (r: Result<CnameRecord>)
    ensures r.Ok? <==> ParseHostStr(p.0, zone).Ok? && ParseHostStr(CnameTarget(p.1), zone).Ok?
    ensures r.Ok? ==> r.value.name == ParseHostStr(p.0, zone).value
                      && r.value.target == ParseHostStr(CnameTarget(p.1), zone).value
                      && r.value.ttl == (if p.1.Table? then p.1.table.ttl.GetOr(ttl) else ttl)
  {
    match ParseHostStr(p.0, zone)
    case Err(e) => Err(e)
    case Ok(name) =>
      var (host, t) := match p.1
        case Entry(e) => (e, ttl)
        case Table(c) => (c.target, c.ttl.GetOr(ttl));
      match ParseHostStr(host, zone)
      case Err(e) => Err(e)
      case Ok(target) => Ok(CnameRecord(name, target, t))
  }

  function CnameTarget(v: StringOrTable<CnameEntry>): string {
    match v
    case Entry(e) => e
    case Table(c) => c.target
  }

  /** `parse_cname`: one record per pair, or the first failure. */
  function ParseCname(raw: Option<seq<(string, StringOrTable<CnameEntry>)>>, zone: string, ttl: U32)
    : (r: Result<seq<CnameRecord>>)
    ensures var ps := raw.GetOr([]);
      && (r.Ok? <==> forall i :: 0 <= i < |ps| ==> CnameRecordOf(ps[i], zone, ttl).Ok?)
      && (r.Ok? ==> |r.value| == |ps| && forall i :: 0 <= i < |ps| ==> r.value[i] == CnameRecordOf(ps[i], zone, ttl).value)
  {
    MapAll(raw.GetOr([]), (p: (string, StringOrTable<CnameEntry>)) => CnameRecordOf(p, zone, ttl))
  }

  /** One SRV pair: owner through the SRV name rule, target completed, defaults filled in. */
  function SrvRecordOf(p: (string, SrvEntry), zone: string, ttl: U32, prio: U16, weight: U16): (r: Result<SrvRecord>)
    ensures r.Ok? <==> ParseSrvName(p.0, zone).Ok? && ParseHostStr(p.1.target, zone).Ok?
    ensures r.Ok? ==> && r.value.name == ParseSrvName(p.0, zone).value
                      && r.value.target == ParseHostStr(p.1.target, zone).value
                      && r.value.port == p.1.port
                      && r.value.ttl == p.1.ttl.GetOr(ttl)
                      && r.value.prio == p.1.prio.GetOr(prio)
                      && r.value.weight == p.1.weight.GetOr(weight)
  {
    match ParseSrvName(p.0, zone)
    case Err(e) => Err(e)
    case Ok(name) =>
      match ParseHostStr(p.1.target, zone)
      case Err(e) => Err(e)
      case Ok(target) =>
        Ok(SrvRecord(name, target, p.1.ttl.GetOr(ttl), p.1.prio.GetOr(prio), p.1.weight.GetOr(weight), p.1.port))
  }

  /** Every SRV pair, in order, or the first error among them. */
  function SrvRecords(ps: seq<(string, SrvEntry)>, zone: string, ttl: U32, prio: U16, weight: U16): (r: Result<seq<SrvRecord>>)
    ensures r.Ok? <==> forall i :: 0 <= i < |ps| ==> SrvRecordOf(ps[i], zone, ttl, prio, weight).Ok?
    ensures r.Ok? ==> |r.value| == |ps| && forall i :: 0 <= i < |ps| ==> r.value[i] == SrvRecordOf(ps[i], zone, ttl, prio, weight).value
  {
    MapAll(ps, (p: (string, SrvEntry)) => SrvRecordOf(p, zone, ttl, prio, weight))
  }

  /** `parse_srv`: one record per pair, or the first failure. */
  function ParseSrv(raw: Option<seq<(string, SrvEntry)>>, zone: string, ttl: U32, prio: U16, weight: U16)
    : (r: Result<seq<SrvRecord>>)
    ensures var ps := raw.GetOr([]);
      && (r.Ok? <==> forall i :: 0 <= i < |ps| ==> SrvRecordOf(ps[i], zone, ttl, prio, weight).Ok?)
      && (r.Ok? ==> |r.value| == |ps| && forall i :: 0 <= i < |ps| ==> r.value[i] == SrvRecordOf(ps[i], zone, ttl, prio, weight).value)
      && (r.Ok? ==> forall i :: 0 <= i < |ps| ==> SrvShaped(Trim(ps[i].0)))
  {
    SrvRecords(raw.GetOr([]), zone, ttl, prio, weight)
  }

  // --------------------------------------------------------- host expansion

  /** The addresses, aliases, TTL and PTR flag of one host, with the zone's values filled in. */
  datatype HostParams = HostParams(ips: seq<IpAddr>, aliases: seq<string>, ttl: U32, withPtr: bool)

  function HostParamsOf(v: HostValue, ttl: U32, withPtr: bool): (r: HostParams)
    ensures v.Ip? ==> r == HostParams(ToVec(v.ips), [], ttl, withPtr)
  {
    match v
    case Ip(ips) => HostParams(ToVec(ips), [], ttl, withPtr)
    case Host(e) =>
      HostParams(ToVec(e.ip), if e.alias.Some? then ToVec(e.alias.value) else [], e.ttl.GetOr(ttl), e.withPtr.GetOr(withPtr))
  }

  /** Name completion against one zone, as a function value for `MapAll`. */
  function Complete(zone: string): string -> Result<string> {
    name => ParseHostStr(name, zone)
  }

  /** The alias names of a host, each completed against the zone, or the first that cannot be. */
  function CompleteAliases(aliases: seq<string>, zone: string): (r: Result<seq<string>>)
    ensures r.Ok? <==> |zone| > 0 || forall k :: 0 <= k < |aliases| ==> EndsWith(Trim(aliases[k]), '.')
    ensures r.Ok? ==> |r.value| == |aliases|
                      && forall k :: 0 <= k < |aliases| ==> r.value[k] == ParseHostStr(aliases[k], zone).value
    ensures r.Err? ==> r.error == HostNotFqdn
  {
    MapAll(aliases, Complete(zone))
  }

  /** The address records of the aliases for one address, in alias order. */
  function AliasRecords(names: seq<string>, ip: IpAddr, ttl: U32): (r: seq<ARecord>)
    ensures |r| == |names|
    ensures forall k :: 0 <= k < |names| ==> r[k] == ARecord(names[k], ip, ttl)
  {
    seq(|names|, k requires 0 <= k < |names| => ARecord(names[k], ip, ttl))
  }

  /** The address records of one address: the host itself, then each alias. */
  function IpBlock(fqdn: string, ip: IpAddr, names: seq<string>, ttl: U32): seq<ARecord> {
    [ARecord(fqdn, ip, ttl)] + AliasRecords(names, ip, ttl)
  }

  /** The address records of all addresses of a host, address by address. */
  function ABlocks(fqdn: string, ips: seq<IpAddr>, names: seq<string>, ttl: U32): seq<ARecord> {
    if |ips| == 0 then []
    else ABlocks(fqdn, ips[..|ips| - 1], names, ttl) + IpBlock(fqdn, ips[|ips| - 1], names, ttl)
  }

  /** A host gets PTR candidates only with the PTR flag set and a name not starting with "*". */
  predicate EmitsPtr(fqdn: string, withPtr: bool) { withPtr && !StartsWith(fqdn, '*') }

  function PtrsFor(fqdn: string, ips: seq<IpAddr>, ttl: U32): (r: seq<PtrRecord>)
    ensures |r| == |ips|
  {
    seq(|ips|, i requires 0 <= i < |ips| => PtrRecord(fqdn, ips[i], ttl))
  }

  /**
   * The records of one completed host name: an address record for the name
   * and one per alias for each address, and a PTR candidate per address when
   * the host emits PTRs. Aliases are only completed when the host has at
   * least one address.
   */
  function HostRecords(fqdn: string, p: HostParams, zone: string): (r: Result<(seq<ARecord>, seq<PtrRecord>)>)
    ensures r.Err? <==> |p.ips| > 0 && CompleteAliases(p.aliases, zone).Err?
  {
    if |p.ips| == 0 then Ok(([], []))
    else
      match CompleteAliases(p.aliases, zone)
      case Err(e) => Err(e)
      case Ok(names) =>
        Ok((ABlocks(fqdn, p.ips, names, p.ttl), if EmitsPtr(fqdn, p.withPtr) then PtrsFor(fqdn, p.ips, p.ttl) else []))
  }

  /** The records one host yields. */
  function HostExpand(host: (string, HostValue), zone: string, ttl: U32, withPtr: bool)
    : (r: Result<(seq<ARecord>, seq<PtrRecord>)>)
    ensures r.Err? <==> (ParseHostStr(host.0, zone).Err?
                         || var p := HostParamsOf(host.1, ttl, withPtr); |p.ips| > 0 && CompleteAliases(p.aliases, zone).Err?)
    ensures r.Err? ==> r.error == HostNotFqdn
  {
    match ParseHostStr(host.0, zone)
    case Err(e) => Err(e)
    case Ok(fqdn) => HostRecords(fqdn, HostParamsOf(host.1, ttl, withPtr), zone)
  }

  /** The records of a sequence of hosts, host by host, or the first failure. */
  function HostsSpec(hosts: seq<(string, HostValue)>, zone: string, ttl: U32, withPtr: bool)
    : (r: Result<(seq<ARecord>, seq<PtrRecord>)>)
  {
    if |hosts| == 0 then Ok(([], []))
    else
      match HostsSpec(hosts[..|hosts| - 1], zone, ttl, withPtr)
      case Err(e) => Err(e)
      case Ok((a, p)) =>
        match HostExpand(hosts[|hosts| - 1], zone, ttl, withPtr)
        case Err(e) => Err(e)
        case Ok((a', p')) => Ok((a + a', p + p'))
  }

  /** Once a prefix of the hosts fails, the whole sequence fails with that error. */
  lemma {:induction false} HostsSpecErrSticky(hosts: seq<(string, HostValue)>, n: nat, zone: string, ttl: U32, withPtr: bool)
    requires n <= |hosts| && HostsSpec(hosts[..n], zone, ttl, withPtr).Err?
    ensures HostsSpec(hosts, zone, ttl, withPtr) == HostsSpec(hosts[..n], zone, ttl, withPtr)
    decreases |hosts| - n
  {
    if n < |hosts| {
      assert hosts[..n + 1][..n] == hosts[..n];
      HostsSpecErrSticky(hosts, n + 1, zone, ttl, withPtr);
    } else {
      assert hosts[..n] == hosts;
    }
  }

  /** A failing host after a successful prefix makes the whole sequence fail with its error. */
  lemma {:induction false} HostsSpecFailsAt(hosts: seq<(string, HostValue)>, h: nat, zone: string, ttl: U32, withPtr: bool)
    requires h < |hosts| && HostsSpec(hosts[..h], zone, ttl, withPtr).Ok?
    requires HostExpand(hosts[h], zone, ttl, withPtr).Err?
    ensures HostsSpec(hosts, zone, ttl, withPtr) == Err(HostExpand(hosts[h], zone, ttl, withPtr).error)
  {
    assert hosts[..h + 1][..h] == hosts[..h];
    HostsSpecErrSticky(hosts, h + 1, zone, ttl, withPtr);
  }

  /** A successful host extends the records of the hosts before it. */
  lemma {:induction false} HostsSpecStep(hosts: seq<(string, HostValue)>, h: nat, zone: string, ttl: U32, withPtr: bool)
    requires h < |hosts| && HostsSpec(hosts[..h], zone, ttl, withPtr).Ok?
    requires HostExpand(hosts[h], zone, ttl, withPtr).Ok?
    ensures HostsSpec(hosts[..h + 1], zone, ttl, withPtr) ==
      Ok((HostsSpec(hosts[..h], zone, ttl, withPtr).value.0 + HostExpand(hosts[h], zone, ttl, withPtr).value.0,
          HostsSpec(hosts[..h], zone, ttl, withPtr).value.1 + HostExpand(hosts[h], zone, ttl, withPtr).value.1))
  {
    assert hosts[..h + 1][..h] == hosts[..h];
  }

  lemma {:induction false} AliasRecordsSnoc(names: seq<string>, n: string, ip: IpAddr, ttl: U32)
    ensures AliasRecords(names + [n], ip, ttl) == AliasRecords(names, ip, ttl) + [ARecord(n, ip, ttl)]
  {
  }

  /** The alias loop of `parse_hosts`: the records of one address, or the first alias that cannot be completed. */
  method AddressBlock(fqdn: string, ip: IpAddr, aliases: seq<string>, zone: string, ttl: U32)
    returns (r: Result<seq<ARecord>>)
    ensures r.Err? <==> CompleteAliases(aliases, zone).Err?
    ensures r.Err? ==> r.error == CompleteAliases(aliases, zone).error
    ensures r.Ok? ==> r.value == IpBlock(fqdn, ip, CompleteAliases(aliases, zone).value, ttl)
  {
    var records := [ARecord(fqdn, ip, ttl)];
    ghost var names: seq<string> := [];
    var k := 0;
    while k < |aliases|
      invariant 0 <= k <= |aliases|
      invariant CompletedUpTo(aliases, zone, k, names)
      invariant records == [ARecord(fqdn, ip, ttl)] + AliasRecords(names, ip, ttl)
    {
      var name := ParseHostStr(aliases[k], zone);
      if name.Err? {
        AliasesFailAt(aliases, k, zone, names);
        return Err(name.error);
      }
      AliasRecordsSnoc(names, name.value, ip, ttl);
      records := records + [ARecord(name.value, ip, ttl)];
      names := names + [name.value];
      k := k + 1;
    }
    AliasesAllComplete(aliases, zone, names);
    return Ok(records);
  }

  /** The first `k` aliases complete to `names`. */
  ghost predicate CompletedUpTo(aliases: seq<string>, zone: string, k: nat, names: seq<string>) {
    k <= |aliases| && |names| == k && forall j :: 0 <= j < k ==> ParseHostStr(aliases[j], zone) == Ok(names[j])
  }

  /** Aliases that all complete give the completed names. */
  lemma {:induction false} AliasesAllComplete(aliases: seq<string>, zone: string, names: seq<string>)
    requires CompletedUpTo(aliases, zone, |aliases|, names)
    ensures CompleteAliases(aliases, zone) == Ok(names)
  {
    var r := CompleteAliases(aliases, zone);
    assert forall j :: 0 <= j < |aliases| ==> Complete(zone)(aliases[j]).Ok?;
    assert r.Ok?;
    assert |r.value| == |names|;
    forall j | 0 <= j < |names|
      ensures r.value[j] == names[j]
    {
      assert ParseHostStr(aliases[j], zone) == Ok(names[j]);
    }
    assert r.value == names;
  }

  /** An alias that cannot be completed, after a prefix that can, makes the whole alias list fail with its error. */
  lemma {:induction false} AliasesFailAt(aliases: seq<string>, k: nat, zone: string, names: seq<string>)
    requires k < |aliases| && CompletedUpTo(aliases, zone, k, names)
    requires ParseHostStr(aliases[k], zone).Err?
    ensures CompleteAliases(aliases, zone) == Err(ParseHostStr(aliases[k], zone).error)
  {
    assert Complete(zone)(aliases[k]).Err?;
  }

  lemma {:induction false} ABlocksSnoc(fqdn: string, ips: seq<IpAddr>, i: nat, names: seq<string>, ttl: U32)
    requires i < |ips|
    ensures ABlocks(fqdn, ips[..i + 1], names, ttl) == ABlocks(fqdn, ips[..i], names, ttl) + IpBlock(fqdn, ips[i], names, ttl)
  {
    assert ips[..i + 1][..i] == ips[..i];
  }

  lemma {:induction false} PtrsForSnoc(fqdn: string, ips: seq<IpAddr>, i: nat, ttl: U32)
    requires i < |ips|
    ensures PtrsFor(fqdn, ips[..i + 1], ttl) == PtrsFor(fqdn, ips[..i], ttl) + [PtrRecord(fqdn, ips[i], ttl)]
  {
  }

  /** The address loop of `parse_hosts` for one completed host name. */
  method ExpandAddresses(fqdn: string, p: HostParams, zone: string) returns (r: Result<(seq<ARecord>, seq<PtrRecord>)>)
    ensures r == HostRecords(fqdn, p, zone)
  {
    var ips, aliases, ttl, withPtr := p.ips, p.aliases, p.ttl, p.withPtr;
    var aRecords: seq<ARecord> := [];
    var ptrRecords: seq<PtrRecord> := [];
    var i := 0;
    while i < |ips|
      invariant 0 <= i <= |ips|
      invariant i > 0 ==> CompleteAliases(aliases, zone).Ok?
      invariant i > 0 ==> aRecords == ABlocks(fqdn, ips[..i], CompleteAliases(aliases, zone).value, ttl)
      invariant i == 0 ==> aRecords == []
      invariant EmitsPtr(fqdn, withPtr) ==> ptrRecords == PtrsFor(fqdn, ips[..i], ttl)
      invariant !EmitsPtr(fqdn, withPtr) ==> ptrRecords == []
    {
      var block := AddressBlock(fqdn, ips[i], aliases, zone, ttl);
      if block.Err? {
        return Err(block.error);
      }
      ABlocksSnoc(fqdn, ips, i, CompleteAliases(aliases, zone).value, ttl);
      aRecords := aRecords + block.value;
      if EmitsPtr(fqdn, withPtr) {
        PtrsForSnoc(fqdn, ips, i, ttl);
        ptrRecords := ptrRecords + [PtrRecord(fqdn, ips[i], ttl)];
      }
      i := i + 1;
    }
    assert ips[..i] == ips;
    return Ok((aRecords, ptrRecords));
  }

  /** `parse_hosts`: every host's records, host after host, or the first failure. */
  method ParseHosts(raw: Option<seq<(string, HostValue)>>, zone: string, ttl: U32, withPtr: bool)
    returns (r: Result<(seq<ARecord>, seq<PtrRecord>)>)
    ensures r == HostsSpec(raw.GetOr([]), zone, ttl, withPtr)
  {
    var hosts := raw.GetOr([]);
    var aRecords: seq<ARecord> := [];
    var ptrRecords: seq<PtrRecord> := [];
    var h := 0;
    while h < |hosts|
      invariant 0 <= h <= |hosts|
      invariant HostsSpec(hosts[..h], zone, ttl, withPtr) == Ok((aRecords, ptrRecords))
    {
      var (hostname, value) := hosts[h];
      var parsed := ParseHostStr(hostname, zone);
      if parsed.Err? {
        HostsSpecFailsAt(hosts, h, zone, ttl, withPtr);
        return Err(parsed.error);
      }
      var block := ExpandAddresses(parsed.value, HostParamsOf(value, ttl, withPtr), zone);
      if block.Err? {
        HostsSpecFailsAt(hosts, h, zone, ttl, withPtr);
        return Err(block.error);
      }
      HostsSpecStep(hosts, h, zone, ttl, withPtr);
      aRecords := aRecords + block.value.0;
      ptrRecords := ptrRecords + block.value.1;
      h := h + 1;
    }
    assert hosts[..h] == hosts;
    return Ok((aRecords, ptrRecords));
  }

  /** Each address yields one record for the host and one per alias. */
  lemma {:induction false} ABlocksCount(fqdn: string, ips: seq<IpAddr>, names: seq<string>, ttl: U32)
    ensures |ABlocks(fqdn, ips, names, ttl)| == |ips| * (1 + |names|)
  {
    if |ips| > 0 {
      ABlocksCount(fqdn, ips[..|ips| - 1], names, ttl);
      assert |ips| * (1 + |names|) == (|ips| - 1) * (1 + |names|) + (1 + |names|);
    }
  }

  /** Every address record of a host carries one of its addresses and is named by the host or one of its aliases. */
  lemma {:induction false} ABlocksMembers(fqdn: string, ips: seq<IpAddr>, names: seq<string>, ttl: U32, rec: ARecord)
    requires rec in ABlocks(fqdn, ips, names, ttl)
    ensures rec.ip in ips && rec.ttl == ttl
    ensures rec.name == fqdn || rec.name in names
  {
    var init := ips[..|ips| - 1];
    if rec in ABlocks(fqdn, init, names, ttl) {
      ABlocksMembers(fqdn, init, names, ttl, rec);
    } else {
      var block := IpBlock(fqdn, ips[|ips| - 1], names, ttl);
      assert rec in block;
      var k :| 0 <= k < |block| && block[k] == rec;
      if k > 0 {
        assert rec == ARecord(names[k - 1], ips[|ips| - 1], ttl);
      }
    }
  }

  /** One host yields |ips| * (1 + |aliases|) address records. */
  lemma {:induction false} HostRecordsCount(fqdn: string, p: HostParams, zone: string)
    requires HostRecords(fqdn, p, zone).Ok?
    ensures |HostRecords(fqdn, p, zone).value.0| == |p.ips| * (1 + |p.aliases|)
  {
    if |p.ips| > 0 {
      ABlocksCount(fqdn, p.ips, CompleteAliases(p.aliases, zone).value, p.ttl);
    }
  }

  /**
   * The PTR candidates of one host are named by the host itself (never by an
   * alias), one per address in address order, and exist exactly when the host
   * emits PTRs.
   */
  lemma {:induction false} HostRecordsPtrs(fqdn: string, p: HostParams, zone: string)
    requires HostRecords(fqdn, p, zone).Ok?
    ensures var ptrs := HostRecords(fqdn, p, zone).value.1;
      && |ptrs| == (if EmitsPtr(fqdn, p.withPtr) then |p.ips| else 0)
      && forall i :: 0 <= i < |ptrs| ==> ptrs[i] == PtrRecord(fqdn, p.ips[i], p.ttl)
  {
  }

  /** Every address record of a host is for one of its addresses, with its TTL. */
  lemma {:induction false} HostRecordsAddresses(fqdn: string, p: HostParams, zone: string, rec: ARecord)
    requires HostRecords(fqdn, p, zone).Ok? && rec in HostRecords(fqdn, p, zone).value.0
    ensures rec.ip in p.ips && rec.ttl == p.ttl
  {
    ABlocksMembers(fqdn, p.ips, CompleteAliases(p.aliases, zone).value, p.ttl, rec);
  }

  /** Every address record of a host is named by the host or by one of its completed aliases. */
  lemma {:induction false} HostRecordsNames(fqdn: string, p: HostParams, zone: string, rec: ARecord)
    requires HostRecords(fqdn, p, zone).Ok? && rec in HostRecords(fqdn, p, zone).value.0
    ensures rec.name == fqdn || exists k :: 0 <= k < |p.aliases| && rec.name == ParseHostStr(p.aliases[k], zone).value
  {
    var names := CompleteAliases(p.aliases, zone).value;
    ABlocksMembers(fqdn, p.ips, names, p.ttl, rec);
    if rec.name != fqdn {
      var k :| 0 <= k < |names| && names[k] == rec.name;
    }
  }

  /** A wildcard host never yields PTR candidates, whatever its flag says. */
  lemma {:induction false} WildcardHostHasNoPtr(host: (string, HostValue), zone: string, ttl: U32, withPtr: bool)
    requires HostExpand(host, zone, ttl, withPtr).Ok?
    requires StartsWith(ParseHostStr(host.0, zone).value, '*')
    ensures HostExpand(host, zone, ttl, withPtr).value.1 == []
  {
  }

  // ------------------------------------------------------------ forward zones

  /** The zone name with a trailing "." added when missing. */
  function ForwardZoneName(name: string): (r: string)
    ensures EndsWith(r, '.')
    ensures EndsWith(name, '.') ==> r == name
  {
    WithTrailingDot(name)
  }

  /** The zone's e-mail, or else the default; with neither, an error. */
  function ResolveEmail(email: Option<string>, default: Option<string>): (r: Result<string>)
    ensures email.None? && default.None? ==> r == Err(EmailRequired)
    ensures email.None? && default.Some? ==> r == Ok(default.value)
    ensures email.Some? ==> r == ParseEmail(email.value)
  {
    match email
    case Some(mail) => ParseEmail(mail)
    case None =>
      match default
      case Some(d) => Ok(d)
      case None => Err(EmailRequired)
  }

  /** A zone that names its own e-mail never resolves, because the mailbox construction never succeeds. */
  lemma {:induction false} OwnEmailAlwaysFails(email: string, default: Option<string>)
    ensures ResolveEmail(Some(email), default).Err?
  {
    ParseEmailNeverOk(email);
  }

  /** An e-mail address resolves only from the defaults, since a zone's own address never does. */
  lemma {:induction false} ResolvedEmailIsDefault(email: Option<string>, default: Option<string>)
    ensures ResolveEmail(email, default).Ok? ==> email.None? && default == Some(ResolveEmail(email, default).value)
  {
    if email.Some? {
      OwnEmailAlwaysFails(email.value, default);
    }
  }

  /**
   * `parse_forward`: zone values override the session defaults, then every
   * record set is derived. It succeeds exactly when every stage does, and
   * otherwise fails with the error of the first stage that fails.
   */
  function ParseForward(raw: Zone, d: SessionDefaults): (r: Result<(ForwardZone, seq<PtrRecord>)>)
    ensures var refresh := raw.base.refresh.GetOr(d.refresh);
      var retry := raw.base.retry.GetOr(d.retry);
      && (retry >= refresh ==> r == Err(RetryNotBelowRefresh))
      && (retry < refresh && raw.base.email.None? && d.email.None? ==> r == Err(EmailRequired))
    ensures var name := ForwardZoneName(raw.name);
      var ttl := raw.base.ttl.GetOr(d.ttl);
      var early := raw.base.retry.GetOr(d.retry) < raw.base.refresh.GetOr(d.refresh);
      var email := ResolveEmail(raw.base.email, d.email);
      var hosts := HostsSpec(raw.hosts.GetOr([]), name, ttl, raw.withPtr.GetOr(d.withPtr));
      var mx := ParseMx(raw.mx, name, ttl, raw.mxPrio.GetOr(d.mxPrio), d.mx);
      var ns := ParseNs(raw.base.nameserver, name, ttl, d.nameserver);
      var cname := ParseCname(raw.cname, name, ttl);
      var srv := ParseSrv(raw.srv, name, ttl, raw.srvPrio.GetOr(d.srvPrio), raw.srvWeight.GetOr(d.srvWeight));
      && (r.Ok? <==> early && email.Ok? && hosts.Ok? && mx.Ok? && ns.Ok? && cname.Ok? && srv.Ok?)
      && (early && email.Err? ==> r == Err(email.error))
      && (early && email.Ok? && hosts.Err? ==> r == Err(hosts.error))
      && (early && email.Ok? && hosts.Ok? && mx.Err? ==> r == Err(mx.error))
      && (early && email.Ok? && hosts.Ok? && mx.Ok? && ns.Err? ==> r == Err(ns.error))
      && (early && email.Ok? && hosts.Ok? && mx.Ok? && ns.Ok? && cname.Err? ==> r == Err(cname.error))
      && (early && email.Ok? && hosts.Ok? && mx.Ok? && ns.Ok? && cname.Ok? && srv.Err? ==> r == Err(srv.error))
    ensures r.Ok? ==> var z := r.value.0; var b := z.base;
      && b.name == ForwardZoneName(raw.name) && EndsWith(b.name, '.')
      && b.serial == raw.base.serial.GetOr(d.serial)
      && b.expire == raw.base.expire.GetOr(d.expire)
      && b.nrcTtl == raw.base.nrcTtl.GetOr(d.nrcTtl)
      && b.refresh == raw.base.refresh.GetOr(d.refresh)
      && b.retry == raw.base.retry.GetOr(d.retry)
      && b.ttl == raw.base.ttl.GetOr(d.ttl)
      && b.retry < b.refresh
      && raw.base.email.None? && d.email == Some(b.email)
      && HostsSpec(raw.hosts.GetOr([]), b.name, b.ttl, raw.withPtr.GetOr(d.withPtr)) == Ok((z.hosts, r.value.1))
      && ParseMx(raw.mx, b.name, b.ttl, raw.mxPrio.GetOr(d.mxPrio), d.mx) == Ok(z.mx)
      && ParseNs(raw.base.nameserver, b.name, b.ttl, d.nameserver) == Ok(b.nameserver)
      && ParseCname(raw.cname, b.name, b.ttl) == Ok(z.cname)
      && ParseSrv(raw.srv, b.name, b.ttl, raw.srvPrio.GetOr(d.srvPrio), raw.srvWeight.GetOr(d.srvWeight)) == Ok(z.srv)
  {
    var zoneName := ForwardZoneName(raw.name);
    var serial := raw.base.serial.GetOr(d.serial);
    var expire := raw.base.expire.GetOr(d.expire);
    var mxPrio := raw.mxPrio.GetOr(d.mxPrio);
    var nrcTtl := raw.base.nrcTtl.GetOr(d.nrcTtl);
    var refresh := raw.base.refresh.GetOr(d.refresh);
    var retry := raw.base.retry.GetOr(d.retry);
    var srvPrio := raw.srvPrio.GetOr(d.srvPrio);
    var srvWeight := raw.srvWeight.GetOr(d.srvWeight);
    var ttl := raw.base.ttl.GetOr(d.ttl);
    var withPtr := raw.withPtr.GetOr(d.withPtr);
    ResolvedEmailIsDefault(raw.base.email, d.email);
    if retry >= refresh then Err(RetryNotBelowRefresh)
    else
      match ResolveEmail(raw.base.email, d.email)
      case Err(e) => Err(e)
      case Ok(email) =>
        match HostsSpec(raw.hosts.GetOr([]), zoneName, ttl, withPtr)
        case Err(e) => Err(e)
        case Ok((hosts, ptr)) =>
          match ParseMx(raw.mx, zoneName, ttl, mxPrio, d.mx)
          case Err(e) => Err(e)
          case Ok(mx) =>
            match ParseNs(raw.base.nameserver, zoneName, ttl, d.nameserver)
            case Err(e) => Err(e)
            case Ok(ns) =>
              match ParseCname(raw.cname, zoneName, ttl)
              case Err(e) => Err(e)
              case Ok(cname) =>
                match ParseSrv(raw.srv, zoneName, ttl, srvPrio, srvWeight)
                case Err(e) => Err(e)
                case Ok(srv) =>
                  Ok((ForwardZone(ZoneBase(serial, zoneName, email, expire, ns, nrcTtl, refresh, retry, ttl),
                                  mx, hosts, cname, srv), ptr))
  }

  /** Without its own nameservers, an accepted zone has the defaults' nameservers, so at least one. */
  lemma {:induction false} ForwardZoneHasNameserver(raw: Zone, d: SessionDefaults)
    requires ParseForward(raw, d).Ok? && raw.base.nameserver.None?
    ensures |ParseForward(raw, d).value.0.base.nameserver| == |d.nameserver| >= 1
  {
  }
}
