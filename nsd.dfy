/**
 * The NSD zone-file renderer's logic: owner names relative to the zone, the
 * column layout of a record line with its TTL omitted when it equals the
 * zone TTL, the apex-first order of address records with repeated owners
 * left blank, the PTR section in address order, and the SOA's nameserver.
 * File and directory writes, and the text of the SOA block, are outside the
 * model.
 */
module Nsd {
  import opened Common
  import opened Text
  import opened Net
  import opened Records
  import opened Entries
  import opened Transform
  import opened Reverse
  import opened Sorting

  /** `NSD_COLUMN_WIDTH`: the owner and TTL columns together, with the blank that ends them. */
  const ColumnWidth: nat := 32

  // ------------------------------------------------------------- owner names

  predicate HasSuffix(s: string, suffix: string) {
    |suffix| <= |s| && s[|s| - |suffix|..] == suffix
  }

  /**
   * `strip_name`: the owner as written in the zone file. The apex is "@",
   * a name under the zone loses ".zone", any other name stays as it is.
   */
  function StripName(name: string, zone: string): string
  {
    if name == zone then "@"
    else if HasSuffix(name, "." + zone) then name[..|name| - |zone| - 1]
    else name
  }

  /** The apex becomes "@"; any other name is kept, or loses exactly the suffix "." + zone. */
  lemma {:induction false} StripNameShape(name: string, zone: string)
    ensures name == zone ==> StripName(name, zone) == "@"
    ensures name != zone ==> StripName(name, zone) == name || StripName(name, zone) + "." + zone == name
  {
    if name != zone && HasSuffix(name, "." + zone) {
      assert name == name[..|name| - |zone| - 1] + ("." + zone);
    }
  }

  lemma {:induction false} AtIsTrimmed()
    ensures Trim("@") == "@" && !EndsWith("@", '.')
  {
    TrimOfTrimmed("@");
  }

  /**
   * Stripping undoes completion: a host written relative to the zone, or as
   * "@", is written back the same way.
   */
  lemma {:induction false} StripCompleted(host: string, zone: string)
    requires |zone| > 0 && Trim(host) == host && !EndsWith(host, '.')
    ensures ParseHostStr(host, zone).Ok?
    ensures StripName(ParseHostStr(host, zone).value, zone) == host
  {
    if host != "@" {
      var name := host + "." + zone;
      assert name != zone;
      assert name[|name| - |zone| - 1..] == "." + zone;
      assert name[..|name| - |zone| - 1] == host;
    }
  }

  /**
   * Completion undoes stripping: completing the written owner against the
   * zone gives the full name back, unless the remaining prefix would itself
   * be read differently (surrounding blanks, a trailing dot, or "@").
   */
  lemma {:induction false} CompleteStripped(name: string, zone: string)
    requires EndsWith(zone, '.') && EndsWith(name, '.') && Trim(name) == name
    requires var s := StripName(name, zone);
      name == zone || s == name || (Trim(s) == s && !EndsWith(s, '.') && s != "@")
    ensures ParseHostStr(StripName(name, zone), zone) == Ok(name)
  {
    var s := StripName(name, zone);
    if name == zone {
      AtIsTrimmed();
    } else if s != name {
      StripNameShape(name, zone);
      assert s + "." + zone == name;
    }
  }

  // -------------------------------------------------------------- line layout

  function Spaces(n: nat): (r: string)
    ensures |r| == n
  {
    seq(n, _ => ' ')
  }

  /** `{s:w$}`: `s` followed by blanks up to `w` characters; never cut. */
  function PadRight(s: string, w: int): (r: string)
    ensures |r| == (if |s| < w then w else |s|)
  {
    if |s| < w then s + Spaces(w - |s|) else s
  }

  /** Padding keeps the text in front and adds only blanks. */
  lemma {:induction false} PadRightShape(s: string, w: int)
    ensures PadRight(s, w)[..|s|] == s
    ensures forall i :: |s| <= i < |PadRight(s, w)| ==> PadRight(s, w)[i] == ' '
  {
  }

  /** The TTL column: empty when the record TTL is the zone TTL, else its decimal text. */
  function TtlField(recordTtl: U32, zoneTtl: U32): (r: string)
    ensures r == "" <==> recordTtl == zoneTtl
    ensures |r| <= 10
  {
    if recordTtl == zoneTtl then ""
    else
      DecimalStringU32Len(recordTtl);
      DecimalString(recordTtl)
  }

  /** A TTL that is written reads back as the record's own TTL. */
  lemma {:induction false} TtlFieldReadsBack(recordTtl: U32, zoneTtl: U32)
    requires recordTtl != zoneTtl
    ensures ParseU32(TtlField(recordTtl, zoneTtl)) == Some(recordTtl)
  {
    ParseDecimalString(recordTtl);
  }

  /** The owner and TTL columns of `nsd_format`: the TTL, when shown, ends at the column edge. */
  function ValueTtl(value: string, recordTtl: U32, zoneTtl: U32): string {
    var ttl := TtlField(recordTtl, zoneTtl);
    if recordTtl == zoneTtl then PadRight(value, ColumnWidth - 1)
    else PadRight(value, ColumnWidth - |ttl| - 2) + " " + ttl
  }

  /** Width of the type column: 7, less what the owner and TTL take beyond the column (in bytes). */
  function TypeWidth(valueTtl: string): (r: nat)
    ensures Utf8Len(valueTtl) <= ColumnWidth + 1 ==> r == 7
    ensures r <= 7
  {
    var over := Utf8Len(valueTtl) - ColumnWidth - 1;
    if over <= 0 then 7 else if over >= 7 then 0 else 7 - over
  }

  /** `nsd_format`: one record line. */
  function NsdFormat(value: string, recordTtl: U32, zoneTtl: U32, recordType: string, data: string): string {
    var vt := ValueTtl(value, recordTtl, zoneTtl);
    vt + " " + PadRight(recordType, TypeWidth(vt)) + " " + data + "\n"
  }

  /** The TTL is left out of the line exactly when it equals the zone TTL; otherwise it ends the TTL column. */
  lemma {:induction false} TtlOmittedIff(value: string, recordTtl: U32, zoneTtl: U32)
    ensures recordTtl == zoneTtl <==> ValueTtl(value, recordTtl, zoneTtl) == PadRight(value, ColumnWidth - 1)
    ensures recordTtl != zoneTtl ==>
      HasSuffix(ValueTtl(value, recordTtl, zoneTtl), " " + DecimalString(recordTtl))
  {
    if recordTtl != zoneTtl {
      var ttl := DecimalString(recordTtl);
      var vt := ValueTtl(value, recordTtl, zoneTtl);
      var padded := PadRight(value, ColumnWidth - 1);
      assert vt == PadRight(value, ColumnWidth - |ttl| - 2) + " " + ttl;
      assert vt[|vt| - 1] == ttl[|ttl| - 1];
      assert HasSuffix(vt, " " + ttl) by {
        assert vt[|vt| - |ttl| - 1..] == " " + ttl;
      }
      if |value| < ColumnWidth - 1 {
        PadRightShape(value, ColumnWidth - 1);
        assert padded[|padded| - 1] == ' ';
        assert vt[|vt| - 1] != ' ';
      } else {
        assert |vt| > |padded|;
      }
    }
  }

  /** Padding adds one byte per blank. */
  lemma {:induction false} PadRightUtf8Len(value: string, w: int)
    ensures Utf8Len(PadRight(value, w)) == Utf8Len(value) + |PadRight(value, w)| - |value|
  {
    var pad := Spaces(if |value| < w then w - |value| else 0);
    assert PadRight(value, w) == value + pad;
    AsciiUtf8Len(pad);
    Utf8LenConcat(value, pad);
  }

  /** A blank followed by the decimal TTL is ASCII. */
  lemma {:induction false} TtlTailUtf8Len(recordTtl: U32, zoneTtl: U32)
    ensures Utf8Len(" " + TtlField(recordTtl, zoneTtl)) == 1 + |TtlField(recordTtl, zoneTtl)|
  {
    var tail := " " + TtlField(recordTtl, zoneTtl);
    forall i | 0 <= i < |tail|
      ensures tail[i] as int < 0x80
    {
      if i > 0 {
        assert tail[i] == TtlField(recordTtl, zoneTtl)[i - 1];
      }
    }
    AsciiUtf8Len(tail);
  }

  /** Every byte of the line besides the owner is ASCII. */
  lemma {:induction false} ValueTtlUtf8Len(value: string, recordTtl: U32, zoneTtl: U32)
    ensures Utf8Len(ValueTtl(value, recordTtl, zoneTtl)) ==
      Utf8Len(value) + |ValueTtl(value, recordTtl, zoneTtl)| - |value|
  {
    var ttl := TtlField(recordTtl, zoneTtl);
    if recordTtl == zoneTtl {
      PadRightUtf8Len(value, ColumnWidth - 1);
    } else {
      var padded := PadRight(value, ColumnWidth - |ttl| - 2);
      PadRightUtf8Len(value, ColumnWidth - |ttl| - 2);
      TtlTailUtf8Len(recordTtl, zoneTtl);
      assert ValueTtl(value, recordTtl, zoneTtl) == padded + (" " + ttl);
      Utf8LenConcat(padded, " " + ttl);
    }
  }

  /** An owner that fits the column. */
  predicate Fits(value: string, recordTtl: U32, zoneTtl: U32) {
    Utf8Len(value) == |value| &&
    (if recordTtl == zoneTtl then |value| <= ColumnWidth - 1
     else |value| <= ColumnWidth - |DecimalString(recordTtl)| - 2)
  }

  /**
   * When the owner fits, the columns line up: owner and TTL fill the 31
   * characters before the column's closing blank with the TTL flush right,
   * and the record type follows, padded to 7.
   */
  lemma {:induction false} AlignedColumns(value: string, recordTtl: U32, zoneTtl: U32, recordType: string, data: string)
    requires Fits(value, recordTtl, zoneTtl)
    ensures var ttl := TtlField(recordTtl, zoneTtl);
      ValueTtl(value, recordTtl, zoneTtl) == PadRight(value, ColumnWidth - 1 - |ttl|) + ttl
    ensures |ValueTtl(value, recordTtl, zoneTtl)| == ColumnWidth - 1
    ensures NsdFormat(value, recordTtl, zoneTtl, recordType, data) ==
      ValueTtl(value, recordTtl, zoneTtl) + " " + PadRight(recordType, 7) + " " + data + "\n"
  {
    var ttl := TtlField(recordTtl, zoneTtl);
    var vt := ValueTtl(value, recordTtl, zoneTtl);
    if recordTtl != zoneTtl {
      var n := ColumnWidth - |ttl| - 2 - |value|;
      assert PadRight(value, ColumnWidth - |ttl| - 2) + " " == PadRight(value, ColumnWidth - 1 - |ttl|) by {
        assert Spaces(n) + " " == Spaces(n + 1);
      }
    }
    ValueTtlUtf8Len(value, recordTtl, zoneTtl);
  }

  /** A line starts with its owner and ends with its data and a newline. */
  lemma {:induction false} LineShape(value: string, recordTtl: U32, zoneTtl: U32, recordType: string, data: string)
    ensures var line := NsdFormat(value, recordTtl, zoneTtl, recordType, data);
      && |line| > |value| + |data| + 2
      && line[..|value|] == value
      && line[|line| - |data| - 1..] == data + "\n"
  {
    var vt := ValueTtl(value, recordTtl, zoneTtl);
    var ttl := TtlField(recordTtl, zoneTtl);
    var w := if recordTtl == zoneTtl then ColumnWidth - 1 else ColumnWidth - |ttl| - 2;
    var head := vt + " " + PadRight(recordType, TypeWidth(vt)) + " ";
    assert NsdFormat(value, recordTtl, zoneTtl, recordType, data) == head + (data + "\n");
    PadRightShape(value, w);
    ValueTtlStartsWithValue(value, recordTtl, zoneTtl);
    assert head[..|value|] == value by {
      assert head[..|vt|] == vt;
    }
  }

  lemma {:induction false} ValueTtlStartsWithValue(value: string, recordTtl: U32, zoneTtl: U32)
    ensures |ValueTtl(value, recordTtl, zoneTtl)| >= |value|
    ensures ValueTtl(value, recordTtl, zoneTtl)[..|value|] == value
  {
    var ttl := TtlField(recordTtl, zoneTtl);
    var w := if recordTtl == zoneTtl then ColumnWidth - 1 else ColumnWidth - |ttl| - 2;
    PadRightShape(value, w);
    if recordTtl != zoneTtl {
      var padded := PadRight(value, w);
      assert (padded + " " + ttl)[..|value|] == padded[..|value|];
    }
  }

  /** A line with a blank owner starts with a blank, so it belongs to the owner of the line before. */
  lemma {:induction false} BlankOwnerLine(recordTtl: U32, zoneTtl: U32, recordType: string, data: string)
    ensures NsdFormat("", recordTtl, zoneTtl, recordType, data)[0] == ' '
  {
    var ttl := TtlField(recordTtl, zoneTtl);
    var w := if recordTtl == zoneTtl then ColumnWidth - 1 else ColumnWidth - |ttl| - 2;
    PadRightShape("", w);
    assert PadRight("", w)[0] == ' ';
  }

  // ---------------------------------------------------------------- ordering

  /** `IpAddr::cmp`: every IPv4 address before every IPv6 one, then by octets. */
  function IpCmp(a: IpAddr, b: IpAddr): Ordering {
    if a.V4? && b.V6? then Less
    else if a.V6? && b.V4? then Greater
    else LexCmp(a.Octets(), b.Octets())
  }

  /** Address order is a total order. */
  lemma {:induction false} IpCmpProps(a: IpAddr, b: IpAddr, c: IpAddr)
    ensures IpCmp(a, b) == Equal <==> a == b
    ensures IpCmp(a, b) == Less <==> IpCmp(b, a) == Greater
    ensures IpCmp(a, b) == Less && IpCmp(b, c) == Less ==> IpCmp(a, c) == Less
  {
    LexCmpProps(a.Octets(), b.Octets());
    if IpCmp(a, b) == Less && IpCmp(b, c) == Less && a.V4? == c.V4? && a.V4? == b.V4? {
      LexCmpTrans(a.Octets(), b.Octets(), c.Octets());
    }
  }

  /**
   * The comparator of the address records: apex records first (in no
   * particular order among themselves), then the rest by name, then by
   * address.
   */
  function RecordCmp(a: ARecord, b: ARecord, zone: string): Ordering {
    var aApex := a.name == zone;
    var bApex := b.name == zone;
    if aApex && bApex then Equal
    else if aApex then Less
    else if bApex then Greater
    else
      var byName := StrCmp(a.name, b.name);
      if byName == Equal then IpCmp(a.ip, b.ip) else byName
  }

  function RecordLe(zone: string): (ARecord, ARecord) -> bool {
    (a: ARecord, b: ARecord) => RecordCmp(a, b, zone) != Greater
  }

  lemma {:induction false} RecordCmpFlip(a: ARecord, b: ARecord, zone: string)
    ensures RecordCmp(a, b, zone) == Greater ==> RecordCmp(b, a, zone) == Less
  {
    StrCmpProps(a.name, b.name, a.name);
    StrCmpProps(b.name, a.name, b.name);
    IpCmpProps(a.ip, b.ip, a.ip);
    IpCmpProps(b.ip, a.ip, b.ip);
  }

  lemma {:induction false} RecordCmpTrans(a: ARecord, b: ARecord, c: ARecord, zone: string)
    requires RecordCmp(a, b, zone) != Greater && RecordCmp(b, c, zone) != Greater
    ensures RecordCmp(a, c, zone) != Greater
  {
    if a.name != zone && b.name != zone && c.name != zone {
      StrCmpProps(a.name, b.name, c.name);
      StrCmpProps(b.name, c.name, a.name);
      StrCmpProps(a.name, c.name, b.name);
      IpCmpProps(a.ip, b.ip, c.ip);
      IpCmpProps(b.ip, c.ip, a.ip);
    }
  }

  /** The comparator is a total preorder, so sorting by it is well defined up to ties. */
  lemma {:induction false} RecordLeTotalPreorder(zone: string)
    ensures TotalPreorder(RecordLe(zone))
  {
    var le := RecordLe(zone);
    forall a, b
      ensures le(a, b) || le(b, a)
    {
      RecordCmpFlip(a, b, zone);
    }
    forall a, b, c | le(a, b) && le(b, c)
      ensures le(a, c)
    {
      RecordCmpTrans(a, b, c, zone);
    }
  }

  /** In any order the comparator accepts, the apex records come before all others. */
  lemma {:induction false} ApexFirst(recs: seq<ARecord>, zone: string)
    requires SortedBy(recs, RecordLe(zone))
    ensures forall i, j :: 0 <= i < j < |recs| && recs[j].name == zone ==> recs[i].name == zone
  {
    forall i, j | 0 <= i < j < |recs| && recs[j].name == zone
      ensures recs[i].name == zone
    {
      assert RecordLe(zone)(recs[i], recs[j]);
    }
  }

  /** Non-apex records come in name order, and records of one name in address order. */
  lemma {:induction false} NamesAscend(recs: seq<ARecord>, zone: string, i: nat, j: nat)
    requires SortedBy(recs, RecordLe(zone))
    requires i < j < |recs| && recs[i].name != zone && recs[j].name != zone
    ensures StrCmp(recs[i].name, recs[j].name) != Greater
    ensures recs[i].name == recs[j].name ==> IpCmp(recs[i].ip, recs[j].ip) != Greater
  {
    assert RecordLe(zone)(recs[i], recs[j]);
    StrCmpProps(recs[i].name, recs[j].name, recs[i].name);
  }

  // ------------------------------------------------------ address record lines

  /** The stripped owner of record `i`, blank when it repeats the one of the record before. */
  function Owner(recs: seq<ARecord>, zone: string, i: nat): string
    requires i < |recs|
  {
    var name := StripName(recs[i].name, zone);
    var before := if i == 0 then "" else StripName(recs[i - 1].name, zone);
    if name == before then "" else name
  }

  /** The owner a zone-file reader gives record `i`: the last owner written at or before it. */
  function InheritedOwner(recs: seq<ARecord>, zone: string, i: nat): string
    requires i < |recs|
  {
    if Owner(recs, zone, i) != "" then Owner(recs, zone, i)
    else if i == 0 then ""
    else InheritedOwner(recs, zone, i - 1)
  }

  /** Leaving repeated owners blank loses nothing: each record's owner is recovered. */
  lemma {:induction false} OwnerRecovered(recs: seq<ARecord>, zone: string, i: nat)
    requires i < |recs| && forall k :: 0 <= k <= i ==> StripName(recs[k].name, zone) != ""
    ensures InheritedOwner(recs, zone, i) == StripName(recs[i].name, zone)
  {
    if Owner(recs, zone, i) == "" && i > 0 {
      OwnerRecovered(recs, zone, i - 1);
    }
  }

  /** Only the first record of a run of equal owners shows it. */
  lemma {:induction false} OwnerShownOnce(recs: seq<ARecord>, zone: string, i: nat)
    requires 0 < i < |recs| && StripName(recs[i].name, zone) != ""
    ensures StripName(recs[i].name, zone) == StripName(recs[i - 1].name, zone) <==> Owner(recs, zone, i) == ""
  {
  }

  /** When the zone has an apex record, the host section opens with "@". */
  lemma {:induction false} ApexOwnerOpens(recs: seq<ARecord>, zone: string, k: nat)
    requires SortedBy(recs, RecordLe(zone)) && k < |recs| && recs[k].name == zone
    ensures Owner(recs, zone, 0) == "@"
  {
    ApexFirst(recs, zone);
    if k > 0 {
      assert recs[0].name == zone;
    }
  }

  function HostLine(recs: seq<ARecord>, zone: string, zoneTtl: U32, ipText: IpAddr -> string, i: nat): string
    requires i < |recs|
  {
    var rec := recs[i];
    NsdFormat(Owner(recs, zone, i), rec.ttl, zoneTtl, if rec.ip.V4? then "A" else "AAAA", ipText(rec.ip))
  }

  /** The lines of the first `n` records. */
  function HostText(recs: seq<ARecord>, zone: string, zoneTtl: U32, ipText: IpAddr -> string, n: nat): string
    requires n <= |recs|
  {
    if n == 0 then "" else HostText(recs, zone, zoneTtl, ipText, n - 1) + HostLine(recs, zone, zoneTtl, ipText, n - 1)
  }

  /**
   * The state of the emission loop after `i` records: the text written so far
   * and the owner last written.
   */
  predicate Emitted(recs: seq<ARecord>, zone: string, zoneTtl: U32, ipText: IpAddr -> string, i: nat, out: string, hostname: string)
  {
    i <= |recs|
    && out == HostText(recs, zone, zoneTtl, ipText, i)
    && hostname == if i == 0 then "" else StripName(recs[i - 1].name, zone)
  }

  /**
   * The emission loop over sorted address records, carrying the last owner
   * written. `ipText` is the address's display text.
   */
  method WriteHosts(recs: seq<ARecord>, zone: string, zoneTtl: U32, ipText: IpAddr -> string) returns (out: string)
    ensures out == HostText(recs, zone, zoneTtl, ipText, |recs|)
  {
    out := "";
    var hostname := "";
    var i := 0;
    while i < |recs|
      invariant Emitted(recs, zone, zoneTtl, ipText, i, out, hostname)
    {
      out, hostname := WriteHost(recs, zone, zoneTtl, ipText, i, out, hostname);
      i := i + 1;
    }
  }

  /**
   * One pass of the emission loop: the line of record `i`, its owner blank
   * when it repeats the last owner written, and the owner now last written.
   */
  method WriteHost(recs: seq<ARecord>, zone: string, zoneTtl: U32, ipText: IpAddr -> string, i: nat, out: string, hostname: string)
    returns (out': string, hostname': string)
    requires i < |recs| && Emitted(recs, zone, zoneTtl, ipText, i, out, hostname)
    ensures Emitted(recs, zone, zoneTtl, ipText, i + 1, out', hostname')
    ensures out' == HostText(recs, zone, zoneTtl, ipText, i + 1)
    ensures hostname' == StripName(recs[i].name, zone)
  {
    var name := StripName(recs[i].name, zone);
    // a name equal to the last one written is left blank
    var recordName := if hostname == name then "" else name;
    HostTextStep(recs, zone, zoneTtl, ipText, i, recordName, out);
    out' := out + NsdFormat(recordName, recs[i].ttl, zoneTtl, if recs[i].ip.V4? then "A" else "AAAA", ipText(recs[i].ip));
    hostname' := name;
  }

  /** One more record adds its line, with the owner the emission loop computed. */
  lemma {:induction false} HostTextStep(recs: seq<ARecord>, zone: string, zoneTtl: U32, ipText: IpAddr -> string, i: nat, owner: string, out: string)
    requires i < |recs| && owner == Owner(recs, zone, i) && out == HostText(recs, zone, zoneTtl, ipText, i)
    ensures out + NsdFormat(owner, recs[i].ttl, zoneTtl, if recs[i].ip.V4? then "A" else "AAAA", ipText(recs[i].ip))
            == HostText(recs, zone, zoneTtl, ipText, i + 1)
  {
  }

  /**
   * The address-record section of a forward zone. The source sorts with an
   * unstable sort; `SortBy` is one of the orders it may produce, and the
   * lemmas above hold for every order the comparator accepts.
   */
  method WriteForwardHosts(z: ForwardZone, ipText: IpAddr -> string) returns (out: string)
    ensures var sorted := SortBy(z.hosts, RecordLe(z.base.name));
      && multiset(sorted) == multiset(z.hosts)
      && SortedBy(sorted, RecordLe(z.base.name))
      && out == HostText(sorted, z.base.name, z.base.ttl, ipText, |sorted|)
  {
    var sorted := SortBy(z.hosts, RecordLe(z.base.name));
    RecordLeTotalPreorder(z.base.name);
    SortBySorted(z.hosts, RecordLe(z.base.name));
    out := WriteHosts(sorted, z.base.name, z.base.ttl, ipText);
  }

  // ---------------------------------------------------------------- PTR lines

  function PtrLe(): (PtrRecord, PtrRecord) -> bool {
    (a: PtrRecord, b: PtrRecord) => IpCmp(a.ip, b.ip) != Greater
  }

  lemma {:induction false} PtrLeTotalPreorder()
    ensures TotalPreorder(PtrLe())
  {
    forall a: PtrRecord, b: PtrRecord
      ensures PtrLe()(a, b) || PtrLe()(b, a)
    {
      IpCmpProps(a.ip, b.ip, a.ip);
    }
    forall a: PtrRecord, b: PtrRecord, c: PtrRecord | PtrLe()(a, b) && PtrLe()(b, c)
      ensures PtrLe()(a, c)
    {
      IpCmpProps(a.ip, b.ip, c.ip);
      IpCmpProps(b.ip, c.ip, a.ip);
      IpCmpProps(a.ip, c.ip, b.ip);
    }
  }

  function PtrIp(p: PtrRecord): IpAddr { p.ip }

  /** Every IPv4 record can be labelled, which `ip_name` needs (it panics otherwise). */
  predicate Labelable(ptrs: seq<PtrRecord>, split: nat) {
    forall i :: 0 <= i < |ptrs| ==> ptrs[i].ip.V4? ==> split <= 4
  }

  function PtrText(ptrs: seq<PtrRecord>, split: nat, zoneTtl: U32, n: nat): string
    requires n <= |ptrs| && Labelable(ptrs, split)
  {
    if n == 0 then "" else PtrText(ptrs, split, zoneTtl, n - 1) + PtrLine(ptrs[n - 1], split, zoneTtl)
  }

  lemma {:induction false} PtrTextStep(ptrs: seq<PtrRecord>, split: nat, zoneTtl: U32, i: nat, out: string)
    requires i < |ptrs| && Labelable(ptrs, split) && out == PtrText(ptrs, split, zoneTtl, i)
    ensures out + PtrLine(ptrs[i], split, zoneTtl) == PtrText(ptrs, split, zoneTtl, i + 1)
  {
  }

  /** One PTR line: the record labelled below its reverse zone. */
  function PtrLine(p: PtrRecord, split: nat, zoneTtl: U32): string
    requires p.ip.V4? ==> split <= 4
  {
    NsdFormat(IpName(p.ip, split), p.ttl, zoneTtl, "PTR", p.name)
  }

  /**
   * The PTR section of a reverse zone: its records in address order, each
   * labelled with the part of its reverse name below the zone.
   */
  method WritePtrs(z: ReverseZone) returns (out: string)
    requires Labelable(z.ptr, z.split)
    ensures var sorted := SortBy(z.ptr, PtrLe());
      && multiset(sorted) == multiset(z.ptr)
      && SortedBy(sorted, PtrLe())
      && Labelable(sorted, z.split)
      && out == PtrText(sorted, z.split, z.base.ttl, |sorted|)
  {
    var ptrs := SortBy(z.ptr, PtrLe());
    PtrLeTotalPreorder();
    SortBySorted(z.ptr, PtrLe());
    SortedLabelable(z.ptr, z.split);
    out := WritePtrLines(ptrs, z.split, z.base.ttl);
  }

  /** Sorting does not change which records there are, so they stay labelable. */
  lemma {:induction false} SortedLabelable(ptrs: seq<PtrRecord>, split: nat)
    requires Labelable(ptrs, split)
    ensures Labelable(SortBy(ptrs, PtrLe()), split)
  {
    var sorted := SortBy(ptrs, PtrLe());
    forall i | 0 <= i < |sorted| && sorted[i].ip.V4?
      ensures split <= 4
    {
      assert sorted[i] in multiset(ptrs);
    }
  }

  /** The emission loop over the sorted PTR records. */
  method WritePtrLines(ptrs: seq<PtrRecord>, split: nat, zoneTtl: U32) returns (out: string)
    requires Labelable(ptrs, split)
    ensures out == PtrText(ptrs, split, zoneTtl, |ptrs|)
  {
    out := "";
    var i := 0;
    while i < |ptrs|
      invariant i <= |ptrs|
      invariant out == PtrText(ptrs, split, zoneTtl, i)
    {
      PtrTextStep(ptrs, split, zoneTtl, i, out);
      out := out + PtrLine(ptrs[i], split, zoneTtl);
      i := i + 1;
    }
  }

  /** PTR records with distinct addresses come out in strictly ascending address order. */
  lemma {:induction false} PtrsAscending(ptrs: seq<PtrRecord>)
    requires DistinctBy(ptrs, PtrIp)
    ensures forall i, j :: 0 <= i < j < |SortBy(ptrs, PtrLe())| ==>
      IpCmp(SortBy(ptrs, PtrLe())[i].ip, SortBy(ptrs, PtrLe())[j].ip) == Less
  {
    var sorted := SortBy(ptrs, PtrLe());
    PtrLeTotalPreorder();
    SortBySorted(ptrs, PtrLe());
    SortByDistinct(ptrs, PtrLe(), PtrIp);
    forall i, j | 0 <= i < j < |sorted|
      ensures IpCmp(sorted[i].ip, sorted[j].ip) == Less
    {
      assert PtrLe()(sorted[i], sorted[j]);
      assert PtrIp(sorted[i]) != PtrIp(sorted[j]);
      IpCmpProps(sorted[i].ip, sorted[j].ip, sorted[i].ip);
    }
  }

  // ---------------------------------------------------------------------- SOA

  /** The SOA's primary nameserver: the zone's first, which must exist. */
  function SoaNameserver(base: ZoneBase): (r: string)
    requires |base.nameserver| >= 1
    ensures exists i :: 0 <= i < |base.nameserver| && base.nameserver[i].name == r
    ensures forall ns :: ns in base.nameserver[..1] ==> ns.name == r
  {
    base.nameserver[0].name
  }

  /**
   * A forward zone that takes its nameservers from the defaults has an SOA,
   * and its primary nameserver is the first default nameserver.
   */
  lemma {:induction false} ForwardSoaNameserver(raw: Zone, d: SessionDefaults)
    requires ParseForward(raw, d).Ok? && raw.base.nameserver.None?
    ensures |ParseForward(raw, d).value.0.base.nameserver| >= 1
    ensures SoaNameserver(ParseForward(raw, d).value.0.base) == d.nameserver[0]
  {
    ForwardZoneHasNameserver(raw, d);
  }

  function NsText(ns: seq<NsRecord>, zoneTtl: U32, n: nat): string
    requires n <= |ns|
  {
    if n == 0 then "" else NsText(ns, zoneTtl, n - 1) + NsdFormat("", ns[n - 1].ttl, zoneTtl, "NS", ns[n - 1].name)
  }

  /** The NS lines after the SOA: one per nameserver, in order, each with a blank owner. */
  method WriteNameservers(base: ZoneBase) returns (out: string)
    ensures out == NsText(base.nameserver, base.ttl, |base.nameserver|)
  {
    out := "";
    var i := 0;
    while i < |base.nameserver|
      invariant i <= |base.nameserver|
      invariant out == NsText(base.nameserver, base.ttl, i)
    {
      var ns := base.nameserver[i];
      out := out + NsdFormat("", ns.ttl, base.ttl, "NS", ns.name);
      i := i + 1;
    }
  }
}
