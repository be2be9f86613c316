/**
 * The decoded input schema and the checks the decoder applies while
 * building it: the polymorphic unions and their flattening, the TTL range
 * check, and the SRV map key check. Maps of the input are sequences of
 * (key, value) pairs in iteration order.
 */
module Entries {
  import opened Common
  import opened Text
  import opened Net
  import opened Records

  // ------------------------------------------------------------------ unions

  /** A value that may be written once or as a list. */
  datatype SingleOrVec<T> = Single(one: T) | Multiple(many: seq<T>)

  /** A value that may be written as a bare string or as a table. */
  datatype StringOrTable<T> = Entry(text: string) | Table(table: T)

  /** `to_vec`: the canonical list form. */
  function ToVec<T>(v: SingleOrVec<T>): (r: seq<T>)
    ensures v.Single? ==> r == [v.one]
    ensures v.Multiple? ==> r == v.many
  {
    match v
    case Single(x) => [x]
    case Multiple(xs) => xs
  }

  /** Flattening is a normal form: a list written as a list flattens to the same list. */
  lemma {:induction false} ToVecCanonical<T>(v: SingleOrVec<T>)
    ensures ToVec(Multiple(ToVec(v))) == ToVec(v)
    ensures v.Single? ==> |ToVec(v)| == 1
  {
  }

  // ----------------------------------------------------------------- entries

  datatype NameserverEntry = NameserverEntry(name: string, ttl: Option<U32>)
  datatype MxEntry = MxEntry(name: string, prio: Option<U16>, ttl: Option<U32>)
  datatype HostEntry = HostEntry(ip: SingleOrVec<IpAddr>, alias: Option<SingleOrVec<string>>,
                                 ttl: Option<U32>, withPtr: Option<bool>)
  datatype HostValue = Ip(ips: SingleOrVec<IpAddr>) | Host(entry: HostEntry)
  datatype CnameEntry = CnameEntry(target: string, ttl: Option<U32>)
  datatype SrvEntry = SrvEntry(target: string, port: U16, ttl: Option<U32>, prio: Option<U16>, weight: Option<U16>)

  /** `to_entry`: a bare MX name becomes an entry without priority or TTL. */
  function ToEntry(v: StringOrTable<MxEntry>): (r: MxEntry)
    ensures v.Entry? ==> r.name == v.text && r.prio.None? && r.ttl.None?
    ensures v.Table? ==> r == v.table
  {
    match v
    case Entry(s) => MxEntry(s, None, None)
    case Table(e) => e
  }

  /** Converting an already converted entry changes nothing. */
  lemma {:induction false} ToEntryCanonical(v: StringOrTable<MxEntry>)
    ensures ToEntry(Table(ToEntry(v))) == ToEntry(v)
    ensures ToEntry(v).name == (if v.Entry? then v.text else v.table.name)
  {
  }

  /** The fields shared by forward and reverse zones; all optional. */
  datatype ZoneBaseEntry = ZoneBaseEntry(
    serial: Option<U32>,
    email: Option<string>,
    expire: Option<U32>,
    nameserver: Option<SingleOrVec<StringOrTable<NameserverEntry>>>,
    nrcTtl: Option<U32>,
    refresh: Option<U32>,
    retry: Option<U32>,
    ttl: Option<U32>)

  datatype ReverseEntry = ReverseEntry(base: ZoneBaseEntry)

  /** A forward zone as written in the array form, with its name. */
  datatype Zone = Zone(
    base: ZoneBaseEntry,
    name: string,
    mx: Option<SingleOrVec<StringOrTable<MxEntry>>>,
    mxPrio: Option<U16>,
    srvPrio: Option<U16>,
    srvWeight: Option<U16>,
    withPtr: Option<bool>,
    hosts: Option<seq<(string, HostValue)>>,
    cname: Option<seq<(string, StringOrTable<CnameEntry>)>>,
    srv: Option<seq<(string, SrvEntry)>>)

  /** A forward zone as written in the map form, named by its key. */
  datatype ZoneWithoutName = ZoneWithoutName(
    base: ZoneBaseEntry,
    mx: Option<SingleOrVec<StringOrTable<MxEntry>>>,
    mxPrio: Option<U16>,
    srvPrio: Option<U16>,
    srvWeight: Option<U16>,
    withPtr: Option<bool>,
    hosts: Option<seq<(string, HostValue)>>,
    cname: Option<seq<(string, StringOrTable<CnameEntry>)>>,
    srv: Option<seq<(string, SrvEntry)>>)

  datatype Zones = ZoneMap(entries: seq<(string, ZoneWithoutName)>) | ZoneArray(zones: seq<Zone>)

  /** The `defaults` table as written; absent scalars already hold their built-in defaults. */
  datatype RawDefaults = RawDefaults(
    serial: Option<U32>,
    email: Option<string>,
    expire: U32,
    mx: Option<SingleOrVec<StringOrTable<MxEntry>>>,
    mxPrio: U16,
    nameserver: Option<SingleOrVec<string>>,
    nrcTtl: U32,
    refresh: U32,
    retry: U32,
    srvPrio: U16,
    srvWeight: U16,
    ttl: U32,
    withPtr: bool)

  /** The resolved session-wide defaults every zone falls back to. */
  datatype SessionDefaults = SessionDefaults(
    serial: U32,
    email: Option<string>,
    expire: U32,
    mx: seq<MxEntry>,
    mxPrio: U16,
    nameserver: seq<string>,
    nrcTtl: U32,
    refresh: U32,
    retry: U32,
    srvPrio: U16,
    srvWeight: U16,
    ttl: U32,
    withPtr: bool)

  /** The resolved SOA-level data of a zone. */
  datatype ZoneBase = ZoneBase(
    serial: U32,
    name: string,
    email: string,
    expire: U32,
    nameserver: seq<NsRecord>,
    nrcTtl: U32,
    refresh: U32,
    retry: U32,
    ttl: U32)

  datatype ForwardZone = ForwardZone(base: ZoneBase, mx: seq<MxRecord>, hosts: seq<ARecord>,
                                     cname: seq<CnameRecord>, srv: seq<SrvRecord>)

  /** A reverse zone: its claimed PTRs and how many address labels each PTR owner carries. */
  datatype ReverseZone = ReverseZone(base: ZoneBase, ptr: seq<PtrRecord>, split: nat)

  /** `with_name`: a map-form zone becomes an array-form zone named `name`. */
  function WithName(z: ZoneWithoutName, name: string): (r: Zone)
    ensures r.name == name
  {
    Zone(z.base, name, z.mx, z.mxPrio, z.srvPrio, z.srvWeight, z.withPtr, z.hosts, z.cname, z.srv)
  }

  /** The fields of a zone other than its name. */
  function Unnamed(z: Zone): ZoneWithoutName {
    ZoneWithoutName(z.base, z.mx, z.mxPrio, z.srvPrio, z.srvWeight, z.withPtr, z.hosts, z.cname, z.srv)
  }

  /** Naming carries every other field over untouched, and the two forms are interchangeable. */
  lemma {:induction false} WithNameRoundTrip(z: ZoneWithoutName, name: string, zone: Zone)
    ensures Unnamed(WithName(z, name)) == z
    ensures WithName(Unnamed(zone), zone.name) == zone
  {
  }

  /** Zone normalisation: one zone per array element, or one per map key named by the key. */
  function NormaliseZones(zones: Option<Zones>): (r: seq<Zone>)
    ensures zones.None? ==> r == []
    ensures zones.Some? && zones.value.ZoneArray? ==> r == zones.value.zones
    ensures zones.Some? && zones.value.ZoneMap? ==>
      var m := zones.value.entries;
      |r| == |m| && forall i :: 0 <= i < |m| ==> r[i].name == m[i].0 && Unnamed(r[i]) == m[i].1
  {
    match zones
    case None => []
    case Some(ZoneArray(a)) => a
    case Some(ZoneMap(m)) => seq(|m|, i requires 0 <= i < |m| => WithName(m[i].1, m[i].0))
  }

  // --------------------------------------------------------------------- TTL

  const MaxTtl: int := 2147483647

  /** The range a TTL must fall in: at least one second and at most 2^31 - 1. */
  predicate TtlInRange(v: int) { 1 <= v <= MaxTtl }

  /** The TTL check for an unsigned 32-bit input. */
  function TtlFromU32(v: U32): (r: Result<U32>)
    ensures r.Ok? <==> TtlInRange(v)
    ensures r.Ok? ==> r.value == v
    ensures v == 0 ==> r == Err(TtlZero)
  {
    if v == 0 then Err(TtlZero)
    else if v > MaxTtl then Err(TtlTooLarge)
    else Ok(v)
  }

  /** The TTL check for an unsigned 64-bit input. */
  function TtlFromU64(v: U64): (r: Result<U32>)
    ensures r.Ok? <==> TtlInRange(v)
    ensures r.Ok? ==> r.value == v
    ensures v > MaxTtl ==> r == Err(TtlTooLarge)
  {
    if v > MaxTtl then Err(TtlTooLarge) else TtlFromU32(v)
  }

  /** `value as u32` on a non-negative 64-bit value: the low 32 bits. */
  function TruncateToU32(v: nat): U32 { v % 0x1_0000_0000 }

  /**
   * The TTL check for a signed 64-bit input, as written: only negativity is
   * checked before the value is truncated to 32 bits.
   */
  function TtlFromI64(v: I64): (r: Result<U32>)
    ensures r.Ok? <==> v >= 0 && TtlInRange(TruncateToU32(v))
    ensures v < 0 ==> r == Err(TtlNegative)
  {
    if v < 0 then Err(TtlNegative) else TtlFromU32(TruncateToU32(v))
  }

  /** The truncation lets 2^32 + 1 through as a TTL of one second. */
  lemma {:induction false} TtlFromI64AcceptsWrapped()
    ensures TtlFromI64(0x1_0000_0001) == Ok(1)
    ensures !TtlInRange(0x1_0000_0001)
  {
  }

  /** The signed check with the range test applied before narrowing. */
  function TtlFromI64Checked(v: I64): (r: Result<U32>)
    ensures r.Ok? <==> TtlInRange(v)
    ensures r.Ok? ==> r.value == v
    ensures v < 0 ==> r == Err(TtlNegative)
  {
    if v < 0 then Err(TtlNegative) else if v > MaxTtl then Err(TtlTooLarge) else TtlFromU32(v)
  }

  /** All three widths agree with each other wherever the input value is the same. */
  lemma {:induction false} TtlChecksAgree(v: U32)
    ensures TtlFromU64(v) == TtlFromU32(v)
    ensures TtlFromI64Checked(v).Ok? == TtlFromU32(v).Ok?
    ensures TtlFromI64(v) == TtlFromU32(v)
  {
  }

  /** The decoder's own test values. */
  lemma {:induction false} TtlExamples()
    ensures TtlFromU64(1) == Ok(1) && TtlFromU64(3600) == Ok(3600) && TtlFromU64(2147483647) == Ok(2147483647)
    ensures TtlFromU64(0) == Err(TtlZero)
    ensures TtlFromU64(2147483648) == Err(TtlTooLarge)
    ensures TtlFromI64(-1) == Err(TtlNegative)
  {
  }

  // ------------------------------------------------------------- SRV map keys

  /** The SRV owner-name shape check: at least two dot-separated parts, the first two starting with "_". */
  function CheckSrvKey(key: string): (r: Outcome)
    ensures r.Pass? <==> SrvShaped(key)
  {
    var parts := Split(key, '.');
    SrvKeyParts(key);
    if |parts| < 2 then Fail(SrvTooFewParts)
    else if !StartsWith(parts[0], '_') then Fail(SrvServiceUnderscore)
    else if !StartsWith(parts[1], '_') then Fail(SrvProtocolUnderscore)
    else Pass
  }

  /** The shape stated on characters: "_service._proto" followed by anything. */
  predicate SrvShaped(key: string) {
    && StartsWith(key, '_')
    && '.' in key
    && StartsWith(SplitOnce(key, '.').value.1, '_')
  }

  /** How the first two parts of a split relate to the text around the first dot. */
  lemma {:induction false} SrvKeyParts(key: string)
    ensures var parts := Split(key, '.');
      && (|parts| >= 2 <==> '.' in key)
      && (StartsWith(parts[0], '_') <==> StartsWith(key, '_'))
      && ('.' in key ==> (StartsWith(parts[1], '_') <==> StartsWith(SplitOnce(key, '.').value.1, '_')))
  {
    if '.' in key {
      var (a, b) := SplitOnce(key, '.').value;
      SplitPrefix(a, b, '.');
      FirstPartStarts(a, '.', '_');
      FirstPartStarts(b, '.', '_');
      if |a| == 0 {
        assert key[0] == '.';
      } else {
        assert key[0] == a[0];
      }
    } else {
      SplitWithoutSep(key, '.');
    }
  }

  /** The first part of a split starts with a non-separator `c` iff the text does. */
  lemma {:induction false} FirstPartStarts(s: string, sep: char, c: char)
    requires c != sep
    ensures StartsWith(Split(s, sep)[0], c) <==> StartsWith(s, c)
  {
  }

  /** The check a key and its decoded value go through, in the decoder's order. */
  function CheckSrvPair(p: (string, Option<SrvEntry>)): (r: Outcome)
    ensures r.Pass? <==> SrvShaped(p.0) && p.1.Some?
  {
    match CheckSrvKey(p.0)
    case Fail(e) => Fail(e)
    case Pass => if p.1.None? then Fail(SrvValueMalformed) else Pass
  }

  /** The map built from accepted pairs: a later duplicate key replaces the earlier value. */
  function CollectSrv(pairs: seq<(string, Option<SrvEntry>)>): (m: map<string, SrvEntry>)
    requires forall i :: 0 <= i < |pairs| ==> pairs[i].1.Some?
  {
    if |pairs| == 0 then map[]
    else CollectSrv(pairs[..|pairs| - 1])[pairs[|pairs| - 1].0 := pairs[|pairs| - 1].1.value]
  }

  /** The collected map has exactly the keys of the input. */
  lemma {:induction false} CollectSrvKeys(pairs: seq<(string, Option<SrvEntry>)>, key: string)
    requires forall i :: 0 <= i < |pairs| ==> pairs[i].1.Some?
    ensures key in CollectSrv(pairs) <==> exists i :: 0 <= i < |pairs| && pairs[i].0 == key
  {
    if |pairs| > 0 {
      var n := |pairs| - 1;
      var init := pairs[..n];
      CollectSrvKeys(init, key);
      if pairs[n].0 != key {
        if i :| 0 <= i < |pairs| && pairs[i].0 == key {
          assert init[i].0 == key;
        }
        if i :| 0 <= i < |init| && init[i].0 == key {
          assert pairs[i].0 == key;
        }
      }
    }
  }

  /** The last pair with a key decides its value: a later duplicate replaces an earlier one. */
  lemma {:induction false} CollectSrvLast(pairs: seq<(string, Option<SrvEntry>)>, key: string, i: nat)
    requires forall k :: 0 <= k < |pairs| ==> pairs[k].1.Some?
    requires i < |pairs| && pairs[i].0 == key && forall j :: i < j < |pairs| ==> pairs[j].0 != key
    ensures key in CollectSrv(pairs) && CollectSrv(pairs)[key] == pairs[i].1.value
  {
    var n := |pairs| - 1;
    if i < n {
      var init := pairs[..n];
      assert init[i] == pairs[i];
      CollectSrvLast(init, key, i);
    }
  }

  /**
   * The SRV map visitor: reads pairs in order with a running 1-based index,
   * rejects the first key of the wrong shape or value that does not decode,
   * and otherwise inserts every pair.
   */
  method DecodeSrvMap(pairs: seq<(string, Option<SrvEntry>)>) returns (r: Result<map<string, SrvEntry>>)
    ensures r.Ok? <==> forall i :: 0 <= i < |pairs| ==> CheckSrvPair(pairs[i]).Pass?
    ensures r.Ok? ==> r.value == CollectSrv(pairs)
    ensures r.Err? ==> exists k :: 0 <= k < |pairs| && CheckSrvPair(pairs[k]).Fail?
                                   && r.error == InSrvEntry(k + 1, CheckSrvPair(pairs[k]).error)
                                   && forall j :: 0 <= j < k ==> CheckSrvPair(pairs[j]).Pass?
  {
    var entries: map<string, SrvEntry> := map[];
    var index := 0;
    while index < |pairs|
      invariant 0 <= index <= |pairs|
      invariant forall j :: 0 <= j < index ==> CheckSrvPair(pairs[j]).Pass?
      invariant entries == CollectSrv(pairs[..index])
    {
      var (key, value) := pairs[index];
      var check := CheckSrvPair(pairs[index]);
      if check.Fail? {
        SrvFailsAt(pairs, index);
        return Err(InSrvEntry(index + 1, check.error));
      }
      CollectSrvStep(pairs, index);
      entries := entries[key := value.value];
      index := index + 1;
    }
    assert pairs[..index] == pairs;
    return Ok(entries);
  }

  /** Collecting one more accepted pair stores its value under its key. */
  lemma {:induction false} CollectSrvStep(pairs: seq<(string, Option<SrvEntry>)>, k: nat)
    requires k < |pairs| && forall j :: 0 <= j <= k ==> pairs[j].1.Some?
    ensures CollectSrv(pairs[..k + 1]) == CollectSrv(pairs[..k])[pairs[k].0 := pairs[k].1.value]
  {
    assert pairs[..k + 1][..k] == pairs[..k];
  }

  /** The first failing pair decides the error, reported with its one-based position. */
  lemma {:induction false} SrvFailsAt(pairs: seq<(string, Option<SrvEntry>)>, k: nat)
    requires k < |pairs| && CheckSrvPair(pairs[k]).Fail?
    requires forall j :: 0 <= j < k ==> CheckSrvPair(pairs[j]).Pass?
    ensures !(forall i :: 0 <= i < |pairs| ==> CheckSrvPair(pairs[i]).Pass?)
    ensures exists i :: 0 <= i < |pairs| && CheckSrvPair(pairs[i]).Fail?
                        && InSrvEntry(k + 1, CheckSrvPair(pairs[k]).error) == InSrvEntry(i + 1, CheckSrvPair(pairs[i]).error)
                        && forall j :: 0 <= j < i ==> CheckSrvPair(pairs[j]).Pass?
  {
  }

  /** Test vector of the source: a service and a protocol label, both with "_", are accepted. */
  lemma {:induction false} SrvKeyAccepted()
    ensures CheckSrvKey("_http._tcp") == Pass
  {
    SplitJoin(["_http", "_tcp"], '.');
    assert Join(["_http", "_tcp"], '.') == "_http._tcp";
  }

  /** Test vector of the source: a service label without "_" is rejected. */
  lemma {:induction false} SrvServiceRejected()
    ensures CheckSrvKey("http._tcp") == Fail(SrvServiceUnderscore)
  {
    SplitJoin(["http", "_tcp"], '.');
    assert Join(["http", "_tcp"], '.') == "http._tcp";
  }

  /** Test vector of the source: a protocol label without "_" is rejected. */
  lemma {:induction false} SrvProtocolRejected()
    ensures CheckSrvKey("_http.tcp") == Fail(SrvProtocolUnderscore)
  {
    SplitJoin(["_http", "tcp"], '.');
    assert Join(["_http", "tcp"], '.') == "_http.tcp";
  }

  /** Test vector of the source: a key with a single label is rejected. */
  lemma {:induction false} SrvSingleLabelRejected()
    ensures CheckSrvKey("_http") == Fail(SrvTooFewParts)
  {
    SplitWithoutSep("_http", '.');
  }
}
