/**
 * The decoder-side pipeline: the session defaults built from the raw
 * `defaults` table (`from_raw`), the cross-zone PTR pool that rejects a second
 * PTR for the same address, and `parse`, which resolves every forward zone,
 * pools their PTRs and hands the pool to the reverse zones.
 */
module Parser {
  import opened Common
  import opened Text
  import opened Validation
  import opened Net
  import opened Records
  import opened Entries
  import opened Transform
  import opened Reverse

  // ---------------------------------------------------------------- defaults

  /** The default nameservers are checked one by one, as written: the first that fails decides the error. */
  function CheckNames(names: seq<string>): (r: Outcome)
    ensures r.Pass? <==> forall i :: 0 <= i < |names| ==> ValidateDnsName(names[i]).Pass?
    ensures r.Fail? ==> exists i :: 0 <= i < |names| && ValidateDnsName(names[i]) == r
                                    && forall j :: 0 <= j < i ==> ValidateDnsName(names[j]).Pass?
  {
    FirstFailure(names, ValidateDnsName)
  }

  /** The default nameservers as a list: absent means none. */
  function DefaultNames(raw: RawDefaults): seq<string> {
    if raw.nameserver.Some? then ToVec(raw.nameserver.value) else []
  }

  /** The default MX entries as a list, each bare name made into an entry. */
  function DefaultMx(raw: RawDefaults): (r: seq<MxEntry>)
    ensures var ms := if raw.mx.Some? then ToVec(raw.mx.value) else [];
      |r| == |ms| && forall i :: 0 <= i < |ms| ==> r[i] == ToEntry(ms[i])
  {
    var ms := if raw.mx.Some? then ToVec(raw.mx.value) else [];
    seq(|ms|, i requires 0 <= i < |ms| => ToEntry(ms[i]))
  }

  /**
   * `SessionDefaults::from_raw`: the explicit serial or the generated one,
   * retry below refresh, the e-mail through the mailbox construction, every
   * default nameserver a valid DNS name exactly as written (no completion),
   * and every other value copied through.
   */
  function FromRaw(raw: RawDefaults, genSerial: U32): (r: Result<SessionDefaults>)
    ensures raw.retry >= raw.refresh ==> r == Err(RetryNotBelowRefresh)
    ensures r.Ok? <==> raw.retry < raw.refresh
                       && (raw.email.Some? ==> ParseEmail(raw.email.value).Ok?)
                       && CheckNames(DefaultNames(raw)).Pass?
    ensures raw.retry < raw.refresh && raw.email.Some? && ParseEmail(raw.email.value).Err? ==>
              r == Err(ParseEmail(raw.email.value).error)
    ensures r.Ok? ==> var d := r.value;
      && d.serial == raw.serial.GetOr(genSerial)
      && (raw.email.None? ==> d.email.None?)
      && d.nameserver == DefaultNames(raw)
      && d.mx == DefaultMx(raw)
      && d.retry < d.refresh
      && (d.expire, d.mxPrio, d.nrcTtl, d.refresh, d.retry) == (raw.expire, raw.mxPrio, raw.nrcTtl, raw.refresh, raw.retry)
      && (d.srvPrio, d.srvWeight, d.ttl, d.withPtr) == (raw.srvPrio, raw.srvWeight, raw.ttl, raw.withPtr)
  {
    var serial := raw.serial.GetOr(genSerial);
    if raw.retry >= raw.refresh then Err(RetryNotBelowRefresh)
    else
      var email: Result<Option<string>> :=
        match raw.email
        case Some(e) => (match ParseEmail(e) case Ok(m) => Ok(Some(m)) case Err(err) => Err(err))
        case None => Ok(None);
      if email.Err? then Err(email.error)
      else
        var names := DefaultNames(raw);
        match CheckNames(names)
        case Fail(e) => Err(e)
        case Pass =>
          Ok(SessionDefaults(serial, email.value, raw.expire, DefaultMx(raw), raw.mxPrio, names,
                             raw.nrcTtl, raw.refresh, raw.retry, raw.srvPrio, raw.srvWeight, raw.ttl, raw.withPtr))
  }

  /** Accepted default nameservers are valid DNS names used as written, so each is already fully qualified. */
  lemma {:induction false} DefaultNamesQualified(raw: RawDefaults, genSerial: U32, i: nat)
    requires FromRaw(raw, genSerial).Ok? && i < |FromRaw(raw, genSerial).value.nameserver|
    ensures IsDnsName(FromRaw(raw, genSerial).value.nameserver[i])
    ensures EndsWith(FromRaw(raw, genSerial).value.nameserver[i], '.')
  {
    var n := FromRaw(raw, genSerial).value.nameserver[i];
    assert ValidateDnsName(n).Pass?;
  }

  /** Since the mailbox construction never succeeds, defaults that carry an e-mail are always rejected. */
  lemma {:induction false} DefaultEmailRejected(raw: RawDefaults, genSerial: U32)
    requires raw.email.Some?
    ensures FromRaw(raw, genSerial).Err?
  {
    ParseEmailNeverOk(raw.email.value);
  }

  /** So accepted defaults never hold an e-mail. */
  lemma {:induction false} AcceptedDefaultsHaveNoEmail(raw: RawDefaults, genSerial: U32)
    requires FromRaw(raw, genSerial).Ok?
    ensures FromRaw(raw, genSerial).value.email.None?
  {
    if raw.email.Some? {
      DefaultEmailRejected(raw, genSerial);
    }
  }

  /**
   * With defaults that hold no e-mail, every forward zone fails: without an
   * e-mail of its own it has none at all, and its own e-mail never resolves.
   */
  lemma {:induction false} ForwardZoneNeverResolves(z: Zone, d: SessionDefaults)
    requires d.email.None?
    ensures ParseForward(z, d).Err?
  {
    if z.base.email.Some? {
      OwnEmailAlwaysFails(z.base.email.value, d.email);
    }
  }

  /** The same holds for every reverse zone. */
  lemma {:induction false} ReverseZoneNeverResolves(net: IpNet, entry: ReverseEntry, d: SessionDefaults)
    requires d.email.None?
    ensures ResolveReverse(net, entry, d).Err?
  {
    if entry.base.email.Some? {
      OwnEmailAlwaysFails(entry.base.email.value, d.email);
    }
  }

  // ---------------------------------------------------------------- PTR pool

  /** Checked insertion of PTR candidates, in order: an address already pooled is fatal. */
  function PoolInsert(pool: map<IpAddr, PtrRecord>, ptrs: seq<PtrRecord>): (r: Result<map<IpAddr, PtrRecord>>)
    ensures r.Err? ==> r.error == DuplicatePtr
    decreases |ptrs|
  {
    if |ptrs| == 0 then Ok(pool)
    else if ptrs[0].ip in pool then Err(DuplicatePtr)
    else PoolInsert(pool[ptrs[0].ip := ptrs[0]], ptrs[1..])
  }

  /** The candidates' addresses are new to the pool and pairwise distinct. */
  predicate FreshAddresses(pool: map<IpAddr, PtrRecord>, ptrs: seq<PtrRecord>) {
    && (forall i :: 0 <= i < |ptrs| ==> ptrs[i].ip !in pool)
    && (forall i, j :: 0 <= i < j < |ptrs| ==> ptrs[i].ip != ptrs[j].ip)
  }

  /**
   * Insertion succeeds exactly when no address repeats, within the candidates
   * or against the pool; the pool then holds every earlier entry and each
   * candidate under its own address, and nothing else.
   */
  lemma {:induction false} PoolInsertSpec(pool: map<IpAddr, PtrRecord>, ptrs: seq<PtrRecord>)
    ensures PoolInsert(pool, ptrs).Ok? <==> FreshAddresses(pool, ptrs)
    ensures PoolInsert(pool, ptrs).Ok? ==> var p := PoolInsert(pool, ptrs).value;
      && (forall ip :: ip in p <==> ip in pool || exists i :: 0 <= i < |ptrs| && ptrs[i].ip == ip)
      && (forall ip :: ip in pool ==> p[ip] == pool[ip])
      && (forall i :: 0 <= i < |ptrs| ==> p[ptrs[i].ip] == ptrs[i])
  {
    PoolInsertOk(pool, ptrs);
    if PoolInsert(pool, ptrs).Ok? {
      PoolInsertContents(pool, ptrs);
    }
  }

  lemma {:induction false} PoolInsertOk(pool: map<IpAddr, PtrRecord>, ptrs: seq<PtrRecord>)
    ensures PoolInsert(pool, ptrs).Ok? <==> FreshAddresses(pool, ptrs)
    decreases |ptrs|
  {
    if |ptrs| > 0 {
      var x := ptrs[0];
      PoolInsertOk(pool[x.ip := x], ptrs[1..]);
      if x.ip !in pool {
        FreshStep(pool, ptrs);
      }
    }
  }

  lemma {:induction false} PoolInsertContents(pool: map<IpAddr, PtrRecord>, ptrs: seq<PtrRecord>)
    requires PoolInsert(pool, ptrs).Ok?
    ensures var p := PoolInsert(pool, ptrs).value;
      && (forall ip :: ip in p <==> ip in pool || exists i :: 0 <= i < |ptrs| && ptrs[i].ip == ip)
      && (forall ip :: ip in pool ==> p[ip] == pool[ip])
      && (forall i :: 0 <= i < |ptrs| ==> p[ptrs[i].ip] == ptrs[i])
    decreases |ptrs|
  {
    if |ptrs| > 0 {
      var x := ptrs[0];
      var next := pool[x.ip := x];
      PoolInsertContents(next, ptrs[1..]);
      var p := PoolInsert(pool, ptrs).value;
      assert p == PoolInsert(next, ptrs[1..]).value && x.ip !in pool;
      forall ip | ip in pool
        ensures p[ip] == pool[ip]
      {
        assert ip != x.ip && ip in next;
      }
      forall ip
        ensures ip in p <==> ip in pool || exists i :: 0 <= i < |ptrs| && ptrs[i].ip == ip
      {
        if exists i :: 0 <= i < |ptrs| && ptrs[i].ip == ip {
          var i :| 0 <= i < |ptrs| && ptrs[i].ip == ip;
          if i > 0 {
            assert ptrs[1..][i - 1].ip == ip;
          }
        }
        if exists i :: 0 <= i < |ptrs[1..]| && ptrs[1..][i].ip == ip {
          var i :| 0 <= i < |ptrs[1..]| && ptrs[1..][i].ip == ip;
          assert ptrs[i + 1].ip == ip;
        }
      }
      forall i | 0 <= i < |ptrs|
        ensures p[ptrs[i].ip] == ptrs[i]
      {
        if i > 0 {
          assert ptrs[i] == ptrs[1..][i - 1];
        } else {
          assert x.ip in next && p[x.ip] == next[x.ip];
        }
      }
    }
  }

  /** Fresh addresses after inserting the first candidate are fresh addresses before it, and back. */
  lemma {:induction false} FreshStep(pool: map<IpAddr, PtrRecord>, ptrs: seq<PtrRecord>)
    requires |ptrs| > 0 && ptrs[0].ip !in pool
    ensures FreshAddresses(pool[ptrs[0].ip := ptrs[0]], ptrs[1..]) <==> FreshAddresses(pool, ptrs)
  {
    var next := pool[ptrs[0].ip := ptrs[0]];
    var tail := ptrs[1..];
    if FreshAddresses(next, tail) {
      forall i, j | 0 <= i < j < |ptrs|
        ensures ptrs[i].ip != ptrs[j].ip
      {
        assert ptrs[j] == tail[j - 1];
        if i > 0 {
          assert ptrs[i] == tail[i - 1];
        }
      }
      forall i | 0 <= i < |ptrs|
        ensures ptrs[i].ip !in pool
      {
        if i > 0 {
          assert ptrs[i] == tail[i - 1];
        }
      }
    }
    if FreshAddresses(pool, ptrs) {
      forall i | 0 <= i < |tail|
        ensures tail[i].ip !in next
      {
        assert tail[i] == ptrs[i + 1];
      }
      forall i, j | 0 <= i < j < |tail|
        ensures tail[i].ip != tail[j].ip
      {
        assert tail[i] == ptrs[i + 1] && tail[j] == ptrs[j + 1];
      }
    }
  }

  /** The same address twice is fatal, whether the candidates come from one zone or from two. */
  lemma {:induction false} DuplicateRejected(pool: map<IpAddr, PtrRecord>, ptrs: seq<PtrRecord>, i: nat, j: nat)
    requires i < j < |ptrs| && ptrs[i].ip == ptrs[j].ip
    ensures PoolInsert(pool, ptrs) == Err(DuplicatePtr)
  {
    PoolInsertSpec(pool, ptrs);
  }

  /** The inner loop of `parse`: each PTR of a zone goes into the pool unless its address is taken. */
  method AddPtrs(pool: map<IpAddr, PtrRecord>, ptrs: seq<PtrRecord>) returns (r: Result<map<IpAddr, PtrRecord>>)
    ensures r == PoolInsert(pool, ptrs)
  {
    var ips := pool;
    var i := 0;
    while i < |ptrs|
      invariant 0 <= i <= |ptrs|
      invariant PoolInsert(pool, ptrs) == PoolInsert(ips, ptrs[i..])
    {
      assert ptrs[i..][1..] == ptrs[i + 1..];
      var ptr := ptrs[i];
      if ptr.ip in ips {
        return Err(DuplicatePtr);
      }
      ips := ips[ptr.ip := ptr];
      i := i + 1;
    }
    return Ok(ips);
  }

  // ----------------------------------------------------------- forward zones

  /** What `parse_forward` makes of each zone: a forward zone and its PTR candidates, or an error. */
  type Resolution = Result<(ForwardZone, seq<PtrRecord>)>

  function Resolutions(zones: seq<Zone>, d: SessionDefaults): (r: seq<Resolution>)
    ensures |r| == |zones| && forall i :: 0 <= i < |zones| ==> r[i] == ParseForward(zones[i], d)
  {
    seq(|zones|, i requires 0 <= i < |zones| => ParseForward(zones[i], d))
  }

  /**
   * The forward loop of `parse` from some point on: each zone's resolution
   * must succeed, its zone is appended and its PTRs enter the pool; the
   * first failure decides.
   */
  function ForwardLoop(res: seq<Resolution>, forward: seq<ForwardZone>, pool: map<IpAddr, PtrRecord>)
    : (r: Result<(seq<ForwardZone>, map<IpAddr, PtrRecord>)>)
    ensures r.Ok? ==> |r.value.0| == |forward| + |res| && r.value.0[..|forward|] == forward
    decreases |res|
  {
    if |res| == 0 then Ok((forward, pool))
    else
      match res[0]
      case Err(e) => Err(e)
      case Ok((z, ptrs)) =>
        match PoolInsert(pool, ptrs)
        case Err(e) => Err(e)
        case Ok(next) =>
          var r := ForwardLoop(res[1..], forward + [z], next);
          assert r.Ok? ==> r.value.0[..|forward|] == (r.value.0[..|forward| + 1])[..|forward|];
          r
  }

  /** The PTR candidates of the resolutions, up to the first failure. */
  function AllPtrs(res: seq<Resolution>): seq<PtrRecord>
    decreases |res|
  {
    if |res| == 0 then []
    else
      match res[0]
      case Err(_) => []
      case Ok((_, ptrs)) => ptrs + AllPtrs(res[1..])
  }

  /** Inserting two lists is inserting their concatenation. */
  lemma {:induction false} PoolInsertConcat(pool: map<IpAddr, PtrRecord>, a: seq<PtrRecord>, b: seq<PtrRecord>)
    ensures PoolInsert(pool, a + b) == (match PoolInsert(pool, a) case Err(e) => Err(e) case Ok(p) => PoolInsert(p, b))
    decreases |a|
  {
    if |a| > 0 {
      assert (a + b)[0] == a[0] && (a + b)[1..] == a[1..] + b;
      if a[0].ip !in pool {
        PoolInsertConcat(pool[a[0].ip := a[0]], a[1..], b);
      }
    } else {
      assert a + b == b;
    }
  }

  /**
   * When every zone resolves, the loop succeeds exactly when all PTR
   * candidates of all zones, in order, go into the pool without a repeated
   * address, and the final pool is that insertion's result.
   */
  lemma {:induction false} ForwardLoopPool(res: seq<Resolution>, forward: seq<ForwardZone>, pool: map<IpAddr, PtrRecord>)
    requires forall i :: 0 <= i < |res| ==> res[i].Ok?
    ensures ForwardLoop(res, forward, pool).Ok? <==> PoolInsert(pool, AllPtrs(res)).Ok?
    ensures ForwardLoop(res, forward, pool).Ok? ==> ForwardLoop(res, forward, pool).value.1 == PoolInsert(pool, AllPtrs(res)).value
    decreases |res|
  {
    if |res| > 0 {
      var (z, ptrs) := res[0].value;
      PoolInsertConcat(pool, ptrs, AllPtrs(res[1..]));
      if PoolInsert(pool, ptrs).Ok? {
        assert forall i :: 0 <= i < |res[1..]| ==> res[1..][i] == res[i + 1];
        ForwardLoopPool(res[1..], forward + [z], PoolInsert(pool, ptrs).value);
      }
    }
  }

  /** A zone that does not resolve stops the loop. */
  lemma {:induction false} ForwardLoopFails(res: seq<Resolution>, forward: seq<ForwardZone>, pool: map<IpAddr, PtrRecord>, k: nat)
    requires k < |res| && res[k].Err?
    ensures ForwardLoop(res, forward, pool).Err?
    decreases |res|
  {
    if k > 0 && res[0].Ok? {
      var (z, ptrs) := res[0].value;
      if PoolInsert(pool, ptrs).Ok? {
        assert res[1..][k - 1] == res[k];
        ForwardLoopFails(res[1..], forward + [z], PoolInsert(pool, ptrs).value, k - 1);
      }
    }
  }

  /** The accepted forward zones are the zones' own resolutions, one per zone, in order. */
  lemma {:induction false} ForwardLoopZones(res: seq<Resolution>, forward: seq<ForwardZone>, pool: map<IpAddr, PtrRecord>, k: nat)
    requires ForwardLoop(res, forward, pool).Ok? && k < |res|
    ensures res[k].Ok? && ForwardLoop(res, forward, pool).value.0[|forward| + k] == res[k].value.0
    decreases |res|
  {
    var (z, ptrs) := res[0].value;
    var next := PoolInsert(pool, ptrs).value;
    var rest := ForwardLoop(res[1..], forward + [z], next);
    if k == 0 {
      assert rest.value.0[..|forward| + 1] == forward + [z];
      assert rest.value.0[|forward|] == (forward + [z])[|forward|];
    } else {
      assert res[1..][k - 1] == res[k];
      ForwardLoopZones(res[1..], forward + [z], next, k - 1);
    }
  }

  /** With defaults that hold no e-mail, the forward loop succeeds only on no zones at all. */
  lemma {:induction false} OnlyNoZonesResolve(zones: seq<Zone>, d: SessionDefaults, forward: seq<ForwardZone>, pool: map<IpAddr, PtrRecord>)
    requires d.email.None?
    ensures ForwardLoop(Resolutions(zones, d), forward, pool).Ok? ==> |zones| == 0
  {
    if |zones| > 0 {
      ForwardZoneNeverResolves(zones[0], d);
      ForwardLoopFails(Resolutions(zones, d), forward, pool, 0);
    }
  }

  /** And the reverse zones then succeed only on no entries at all. */
  lemma {:induction false} OnlyNoReverseResolve(reverse: seq<(IpNet, ReverseEntry)>, d: SessionDefaults)
    requires d.email.None?
    ensures |reverse| > 0 ==> !EntryOk(reverse, d, 0)
  {
    if |reverse| > 0 {
      ReverseZoneNeverResolves(reverse[0].0, reverse[0].1, d);
    }
  }

  // ------------------------------------------------------------------- parse

  /**
   * `parse`, after decoding: the session defaults, every forward zone in
   * order with its PTRs pooled, then the reverse zones drawing on that pool.
   * The first failure decides the error.
   */
  method Parse(defaults: RawDefaults, zones: Option<Zones>, reverse: seq<(IpNet, ReverseEntry)>, genSerial: U32)
    returns (r: Result<(seq<ForwardZone>, seq<ReverseZone>)>, ghost pool: map<IpAddr, PtrRecord>, ghost claims: seq<seq<IpAddr>>)
    ensures FromRaw(defaults, genSerial).Err? ==> r == Err(FromRaw(defaults, genSerial).error)
    ensures FromRaw(defaults, genSerial).Ok? ==>
      var d := FromRaw(defaults, genSerial).value;
      var loop := ForwardLoop(Resolutions(NormaliseZones(zones), d), [], map[]);
      && (loop.Err? ==> r == Err(loop.error))
      && (r.Ok? ==> loop == Ok((r.value.0, pool)))
      && (loop.Ok? ==> pool == loop.value.1)
      && (loop.Ok? ==> (r.Ok? <==> forall k :: 0 <= k < |reverse| ==> EntryOk(reverse, d, k)))
      && (loop.Ok? && r.Err? ==> exists k :: FirstFailureAt(reverse, d, k, r.error))
    ensures r.Ok? ==> |r.value.1| == |reverse| && ZonesFor(reverse, ReverseResolutions(reverse, FromRaw(defaults, genSerial).value), pool, r.value.1, claims)
    ensures r.Ok? ==> |NormaliseZones(zones)| == 0 && |reverse| == 0
  {
    pool := map[];
    claims := [];
    var dr := FromRaw(defaults, genSerial);
    if dr.Err? {
      return Err(dr.error), pool, claims;
    }
    var d := dr.value;
    var zs := NormaliseZones(zones);
    var loop := ResolveZones(zs, d);
    if loop.Err? {
      return Err(loop.error), pool, claims;
    }
    var (forward, ips) := loop.value;
    AcceptedDefaultsHaveNoEmail(defaults, genSerial);
    OnlyNoZonesResolve(zs, d, [], map[]);
    OnlyNoReverseResolve(reverse, d);
    pool := ips;
    var rev;
    rev, claims := ParseReverse(reverse, d, ips);
    if rev.Err? {
      return Err(rev.error), pool, claims;
    }
    return Ok((forward, rev.value)), pool, claims;
  }

  /**
   * The zone loop of `parse`: each zone is resolved in order, appended, and
   * its PTRs are added to the pool; the first failure ends the loop.
   */
  method ResolveZones(zs: seq<Zone>, d: SessionDefaults) returns (r: Result<(seq<ForwardZone>, map<IpAddr, PtrRecord>)>)
    ensures r == ForwardLoop(Resolutions(zs, d), [], map[])
  {
    ghost var res := Resolutions(zs, d);
    var forward: seq<ForwardZone> := [];
    var ips: map<IpAddr, PtrRecord> := map[];
    var k := 0;
    while k < |zs|
      invariant 0 <= k <= |zs|
      invariant ForwardLoop(res, [], map[]) == ForwardLoop(res[k..], forward, ips)
    {
      assert res[k..][1..] == res[k + 1..];
      var resolved := ParseForward(zs[k], d);
      assert resolved == res[k..][0];
      if resolved.Err? {
        return Err(resolved.error);
      }
      var (z, ptrs) := resolved.value;
      forward := forward + [z];
      var added := AddPtrs(ips, ptrs);
      if added.Err? {
        return Err(added.error);
      }
      ips := added.value;
      k := k + 1;
    }
    assert res[k..] == [];
    return Ok((forward, ips));
  }
}
