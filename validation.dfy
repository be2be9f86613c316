/**
 * The two syntax validators of the engine: DNS names (size limits of
 * section 2.3.4 of RFC 1035, trailing dot required, wildcard only as the whole
 * leftmost label) and e-mail addresses. Each validator is written as the
 * source runs it, first failing check first, and is proved equivalent to a
 * declarative description of a well-formed name or address.
 */
module Validation {
  import opened Common
  import opened Text

  const MaxNameLen: nat := 253
  const MaxLabelLen: nat := 63
  const MaxEmailLen: nat := 254
  const MaxLocalLen: nat := 64

  // ---------------------------------------------------------------- DNS names

  /** The labels the DNS-name check walks over: all trailing dots removed, then split on ".". */
  function NameLabels(name: string): seq<string> {
    Split(TrimEndChar(name, '.'), '.')
  }

  predicate IsDnsLabelChar(c: char) { IsAsciiAlnum(c) || c == '-' || c == '_' }

  /** An ordinary host label: no hyphen at either end, only alphanumerics, "-" and "_". */
  ghost predicate HostLabel(lbl: string) {
    && |lbl| >= 1
    && lbl[0] != '-' && lbl[|lbl| - 1] != '-'
    && forall k :: 0 <= k < |lbl| ==> IsDnsLabelChar(lbl[k])
  }

  /** Reference description of an acceptable label at position `i` (0 is leftmost). */
  ghost predicate DnsLabelOk(lbl: string, i: nat) {
    && 1 <= |lbl| && Utf8Len(lbl) <= MaxLabelLen
    && ((i == 0 && lbl == "*") || HostLabel(lbl))
  }

  /** Reference description of a name `validate_dns_name` accepts. */
  ghost predicate IsDnsName(name: string) {
    && Utf8Len(name) <= MaxNameLen
    && EndsWith(name, '.')
    && var labels := NameLabels(name);
       forall k :: 0 <= k < |labels| ==> DnsLabelOk(labels[k], k)
  }

  /** One turn of the label loop, with the source's order of checks. */
  function CheckDnsLabel(lbl: string, i: nat): (r: Outcome)
    ensures r.Pass? <==> DnsLabelOk(lbl, i)
  {
    if |lbl| == 0 then Fail(EmptyLabel)
    else if Utf8Len(lbl) > MaxLabelLen then Fail(LabelTooLong)
    else if '*' in lbl then
      (if i != 0 then Fail(WildcardNotLeftmost)
       else if lbl != "*" then Fail(WildcardNotWholeLabel)
       else Pass)
    else if lbl[0] == '-' || lbl[|lbl| - 1] == '-' then Fail(LabelHyphenEdge)
    else if !(forall k :: 0 <= k < |lbl| ==> IsDnsLabelChar(lbl[k])) then Fail(LabelInvalidChars)
    else Pass
  }

  /** The label loop from position `from` on: the first failing label decides the error. */
  function CheckDnsLabels(labels: seq<string>, from: nat): (r: Outcome)
    requires from <= |labels|
    ensures r.Pass? <==> forall k :: from <= k < |labels| ==> DnsLabelOk(labels[k], k)
    ensures r.Fail? ==> exists k :: from <= k < |labels| && CheckDnsLabel(labels[k], k) == r
                                    && forall j :: from <= j < k ==> DnsLabelOk(labels[j], j)
    decreases |labels| - from
  {
    if from == |labels| then Pass
    else
      match CheckDnsLabel(labels[from], from)
      case Fail(e) => Fail(e)
      case Pass => CheckDnsLabels(labels, from + 1)
  }

  /** `validate_dns_name`. */
  function ValidateDnsName(name: string): (r: Outcome)
    ensures r.Pass? <==> IsDnsName(name)
    ensures Utf8Len(name) > MaxNameLen ==> r == Fail(NameTooLong)
    ensures Utf8Len(name) <= MaxNameLen && !EndsWith(name, '.') ==> r == Fail(NotFullyQualified)
  {
    if Utf8Len(name) > MaxNameLen then Fail(NameTooLong)
    else if !EndsWith(name, '.') then Fail(NotFullyQualified)
    else CheckDnsLabels(NameLabels(name), 0)
  }

  /** In an accepted name a label holding "*" is exactly "*" and is the leftmost label. */
  lemma {:induction false} WildcardOnlyLeftmost(name: string, k: nat)
    requires IsDnsName(name) && k < |NameLabels(name)| && '*' in NameLabels(name)[k]
    ensures k == 0 && NameLabels(name)[k] == "*"
  {
    var lbl := NameLabels(name)[k];
    assert DnsLabelOk(lbl, k);
    var p :| 0 <= p < |lbl| && lbl[p] == '*';
    assert !IsDnsLabelChar(lbl[p]);
  }

  /** Labels of an accepted name are non-empty and at most 63 bytes long. */
  lemma {:induction false} AcceptedLabelsBounded(name: string, k: nat)
    requires IsDnsName(name) && k < |NameLabels(name)|
    ensures 1 <= |NameLabels(name)[k]| && Utf8Len(NameLabels(name)[k]) <= MaxLabelLen
  {
    assert DnsLabelOk(NameLabels(name)[k], k);
  }

  /**
   * Because every trailing dot is removed before splitting, a second trailing
   * dot does not change the verdict: "example.com.." passes like "example.com.".
   */
  lemma {:induction false} ExtraTrailingDotAccepted(name: string)
    requires IsDnsName(name) && Utf8Len(name) < MaxNameLen
    ensures IsDnsName(name + ".")
  {
    assert TrimEndChar(name + ".", '.') == TrimEndChar(name, '.') by {
      assert (name + ".")[..|name|] == name;
    }
    assert NameLabels(name + ".") == NameLabels(name);
    Utf8LenConcat(name, ".");
    assert Utf8Len(".") == 1 by {
      assert "."[..0] == "";
    }
  }

  /** Labels of a name built from dot-free labels and a trailing dot. */
  lemma {:induction false} LabelsOf(labels: seq<string>)
    requires |labels| >= 1 && |labels[|labels| - 1]| >= 1
    requires forall i :: 0 <= i < |labels| ==> '.' !in labels[i]
    ensures NameLabels(Join(labels, '.') + ".") == labels
  {
    var s := Join(labels, '.');
    JoinNonEmptyTail(labels);
    assert TrimEndChar(s + ".", '.') == s by {
      assert (s + ".")[..|s|] == s;
    }
    SplitJoin(labels, '.');
  }

  lemma {:induction false} JoinNonEmptyTail(labels: seq<string>)
    requires |labels| >= 1 && |labels[|labels| - 1]| >= 1
    requires forall i :: 0 <= i < |labels| ==> '.' !in labels[i]
    ensures var s := Join(labels, '.'); |s| >= 1 && s[|s| - 1] != '.'
  {
    if |labels| > 1 {
      JoinNonEmptyTail(labels[1..]);
    } else {
      var l := labels[0];
      assert l[|l| - 1] in l;
    }
  }

  /**
   * A name written as dot-free ASCII labels plus a trailing dot is judged by
   * the label loop alone.
   */
  lemma {:induction false} ValidateJoined(labels: seq<string>)
    requires |labels| >= 1 && |labels[|labels| - 1]| >= 1
    requires forall i :: 0 <= i < |labels| ==> '.' !in labels[i]
    requires 4 * |Join(labels, '.')| < MaxNameLen
    ensures ValidateDnsName(Join(labels, '.') + ".") == CheckDnsLabels(labels, 0)
  {
    LabelsOf(labels);
    Utf8LenAtMostFour(Join(labels, '.'));
    Utf8LenConcat(Join(labels, '.'), ".");
  }

  lemma {:induction false} LeadingWildcardAcceptedLabels()
    ensures CheckDnsLabels(["*", "example", "com"], 0) == Pass
  {
    AsciiUtf8Len("*"); AsciiUtf8Len("example"); AsciiUtf8Len("com");
    assert CheckDnsLabel("*", 0) == Pass;
    assert CheckDnsLabel("example", 1) == Pass;
    assert CheckDnsLabel("com", 2) == Pass;
  }

  /** Test vector of the source: a whole leftmost wildcard is accepted. */
  lemma {:induction false} LeadingWildcardAccepted()
    ensures ValidateDnsName("*.example.com.") == Pass
  {
    LeadingWildcardAcceptedLabels();
    JoinThree("*", "example", "com", '.');
    assert "*" + "." + "example" == "*.example";
    assert "*.example" + "." + "com" + "." == "*.example.com.";
    ValidateJoined(["*", "example", "com"]);
  }

  lemma {:induction false} InnerWildcardRejectedLabels()
    ensures CheckDnsLabels(["sub", "*", "example", "com"], 0) == Fail(WildcardNotLeftmost)
  {
    AsciiUtf8Len("sub"); AsciiUtf8Len("*"); AsciiUtf8Len("example"); AsciiUtf8Len("com");
    assert CheckDnsLabel("sub", 0) == Pass;
    assert CheckDnsLabel("*", 1) == Fail(WildcardNotLeftmost);
  }

  /** A wildcard below the leftmost label is rejected. */
  lemma {:induction false} InnerWildcardRejected()
    ensures ValidateDnsName("sub.*.example.com.") == Fail(WildcardNotLeftmost)
  {
    InnerWildcardRejectedLabels();
    JoinFour("sub", "*", "example", "com", '.');
    assert "sub" + "." + "*" == "sub.*";
    assert "sub.*" + "." + "example" == "sub.*.example";
    assert "sub.*.example" + "." + "com" + "." == "sub.*.example.com.";
    ValidateJoined(["sub", "*", "example", "com"]);
  }

  lemma {:induction false} PartialWildcardRejectedLabels()
    ensures CheckDnsLabels(["*sub", "example", "com"], 0) == Fail(WildcardNotWholeLabel)
  {
    AsciiUtf8Len("*sub"); AsciiUtf8Len("example"); AsciiUtf8Len("com");
    assert CheckDnsLabel("*sub", 0) == Fail(WildcardNotWholeLabel);
  }

  /** A wildcard that is only part of the leftmost label is rejected. */
  lemma {:induction false} PartialWildcardRejected()
    ensures ValidateDnsName("*sub.example.com.") == Fail(WildcardNotWholeLabel)
  {
    PartialWildcardRejectedLabels();
    JoinThree("*sub", "example", "com", '.');
    assert "*sub" + "." + "example" == "*sub.example";
    assert "*sub.example" + "." + "com" + "." == "*sub.example.com.";
    ValidateJoined(["*sub", "example", "com"]);
  }

  lemma {:induction false} EmptyLabelRejectedLabels()
    ensures CheckDnsLabels(["sub", "", "example", "com"], 0) == Fail(EmptyLabel)
  {
    AsciiUtf8Len("sub"); AsciiUtf8Len("example"); AsciiUtf8Len("com");
    assert CheckDnsLabel("sub", 0) == Pass;
    assert CheckDnsLabel("", 1) == Fail(EmptyLabel);
  }

  /** Two adjacent dots give an empty label. */
  lemma {:induction false} EmptyLabelRejected()
    ensures ValidateDnsName("sub..example.com.") == Fail(EmptyLabel)
  {
    EmptyLabelRejectedLabels();
    JoinFour("sub", "", "example", "com", '.');
    assert "sub" + "." + "" == "sub.";
    assert "sub." + "." + "example" == "sub..example";
    assert "sub..example" + "." + "com" + "." == "sub..example.com.";
    ValidateJoined(["sub", "", "example", "com"]);
  }

  lemma {:induction false} UnqualifiedRejected()
    ensures ValidateDnsName("example.com") == Fail(NotFullyQualified)
  {
    AsciiUtf8Len("example.com");
  }

  // ------------------------------------------------------------------ e-mail

  predicate IsLocalChar(c: char) { IsAsciiAlnum(c) || c == '.' || c == '+' || c == '-' || c == '_' }
  predicate IsDomainChar(c: char) { IsAsciiAlnum(c) || c == '-' }

  predicate HasDoubleDot(s: string) {
    exists k :: 0 <= k < |s| - 1 && s[k] == '.' && s[k + 1] == '.'
  }

  /** Reference description of an acceptable local part. */
  ghost predicate LocalOk(local: string) {
    && 1 <= |local| && Utf8Len(local) <= MaxLocalLen
    && local[0] != '.' && local[|local| - 1] != '.'
    && !HasDoubleDot(local)
    && forall k :: 0 <= k < |local| ==> IsLocalChar(local[k])
  }

  /** Reference description of an acceptable domain label. */
  ghost predicate DomainLabelOk(lbl: string) {
    && 1 <= |lbl| && Utf8Len(lbl) <= MaxLabelLen
    && lbl[0] != '-' && lbl[|lbl| - 1] != '-'
    && forall k :: 0 <= k < |lbl| ==> IsDomainChar(lbl[k])
  }

  /** Reference description of an acceptable domain: dotted, good labels, non-numeric top label. */
  ghost predicate DomainOk(domain: string) {
    && '.' in domain
    && var labels := Split(domain, '.');
       && (forall k :: 0 <= k < |labels| ==> DomainLabelOk(labels[k]))
       && !IsDigits(labels[|labels| - 1])
  }

  /** Reference description of an address `validate_email` accepts; it splits at the first "@". */
  ghost predicate IsEmail(email: string) {
    && Utf8Len(email) <= MaxEmailLen
    && '@' in email
    && var (local, domain) := SplitOnce(email, '@').value;
       LocalOk(local) && DomainOk(domain)
  }

  function CheckLocal(local: string): (r: Outcome)
    ensures r.Pass? <==> LocalOk(local)
  {
    if |local| == 0 then Fail(LocalEmpty)
    else if Utf8Len(local) > MaxLocalLen then Fail(LocalTooLong)
    else if local[0] == '.' || local[|local| - 1] == '.' then Fail(LocalDotEdge)
    else if HasDoubleDot(local) then Fail(LocalDoubleDot)
    else if !(forall k :: 0 <= k < |local| ==> IsLocalChar(local[k])) then Fail(LocalInvalidChars)
    else Pass
  }

  function CheckDomainLabel(lbl: string): (r: Outcome)
    ensures r.Pass? <==> DomainLabelOk(lbl)
  {
    if |lbl| == 0 then Fail(DomainEmptyLabel)
    else if Utf8Len(lbl) > MaxLabelLen then Fail(DomainLabelTooLong)
    else if lbl[0] == '-' || lbl[|lbl| - 1] == '-' then Fail(DomainLabelHyphenEdge)
    else if !(forall k :: 0 <= k < |lbl| ==> IsDomainChar(lbl[k])) then Fail(DomainLabelInvalidChars)
    else Pass
  }

  /** The domain-label loop from position `from` on. */
  function CheckDomainLabels(labels: seq<string>, from: nat): (r: Outcome)
    requires from <= |labels|
    ensures r.Pass? <==> forall k :: from <= k < |labels| ==> DomainLabelOk(labels[k])
    ensures r.Fail? ==> exists k :: from <= k < |labels| && CheckDomainLabel(labels[k]) == r
                                    && forall j :: from <= j < k ==> DomainLabelOk(labels[j])
    decreases |labels| - from
  {
    if from == |labels| then Pass
    else
      match CheckDomainLabel(labels[from])
      case Fail(e) => Fail(e)
      case Pass => CheckDomainLabels(labels, from + 1)
  }

  /** `validate_email`. */
  function ValidateEmail(email: string): (r: Outcome)
    ensures r.Pass? <==> IsEmail(email)
    ensures Utf8Len(email) > MaxEmailLen ==> r == Fail(EmailTooLong)
    ensures Utf8Len(email) <= MaxEmailLen && '@' !in email ==> r == Fail(EmailMissingAt)
  {
    if Utf8Len(email) > MaxEmailLen then Fail(EmailTooLong)
    else
      match SplitOnce(email, '@')
      case None => Fail(EmailMissingAt)
      case Some((local, domain)) =>
        match CheckLocal(local)
        case Fail(e) => Fail(e)
        case Pass =>
          if |domain| == 0 then Fail(DomainEmpty)
          else if '.' !in domain then Fail(DomainNoDot)
          else
            var labels := Split(domain, '.');
            match CheckDomainLabels(labels, 0)
            case Fail(e) => Fail(e)
            case Pass =>
              if IsDigits(labels[|labels| - 1]) then Fail(TldAllNumeric) else Pass
  }

  /**
   * No text ending in "." is an acceptable address: either it has no "@", or
   * the domain after the first "@" ends in "." and so has an empty last label.
   */
  lemma {:induction false} TrailingDotNeverEmail(s: string)
    requires EndsWith(s, '.')
    ensures !IsEmail(s)
  {
    if '@' in s {
      var (local, domain) := SplitOnce(s, '@').value;
      assert s == local + ['@'] + domain;
      assert EndsWith(domain, '.');
      SplitTrailingSep(domain, '.');
      var labels := Split(domain, '.');
      assert !DomainLabelOk(labels[|labels| - 1]);
    }
  }

  /** A second "@" lands in a domain label, whose character check rejects it. */
  lemma {:induction false} SecondAtRejected(local: string, domain: string)
    requires '@' !in local && '@' in domain
    ensures !IsEmail(local + "@" + domain)
  {
    var email := local + "@" + domain;
    SplitOnceAt(local, domain, '@');
    assert SplitOnce(email, '@') == Some((local, domain));
    SplitKeepsChar(domain, '.', '@');
    var p :| p in Split(domain, '.') && '@' in p;
    var k :| 0 <= k < |p| && p[k] == '@';
    assert !IsDomainChar(p[k]);
  }

  /** Once the text is short enough and splits at its first "@" into a local part and a dotted domain, the parts are judged in turn. */
  lemma {:induction false} ValidateEmailParts(email: string, local: string, domain: string)
    requires Utf8Len(email) <= MaxEmailLen && SplitOnce(email, '@') == Some((local, domain))
    requires '.' in domain
    ensures ValidateEmail(email) ==
      match CheckLocal(local)
      case Fail(e) => Fail(e)
      case Pass =>
        match CheckDomainLabels(Split(domain, '.'), 0)
        case Fail(e) => Fail(e)
        case Pass => if IsDigits(Split(domain, '.')[|Split(domain, '.')| - 1]) then Fail(TldAllNumeric) else Pass
  {
  }

  /** An address written as a local part, "@" and at least two dot-free labels is judged label by label. */
  lemma {:induction false} ValidateEmailJoined(local: string, labels: seq<string>)
    requires '@' !in local && |labels| >= 2
    requires forall i :: 0 <= i < |labels| ==> '.' !in labels[i]
    requires 4 * (|local| + 1 + |Join(labels, '.')|) <= MaxEmailLen
    ensures ValidateEmail(local + "@" + Join(labels, '.')) ==
      match CheckLocal(local)
      case Fail(e) => Fail(e)
      case Pass =>
        match CheckDomainLabels(labels, 0)
        case Fail(e) => Fail(e)
        case Pass => if IsDigits(labels[|labels| - 1]) then Fail(TldAllNumeric) else Pass
  {
    var domain := Join(labels, '.');
    var email := local + "@" + domain;
    Utf8LenAtMostFour(email);
    assert email == local + ['@'] + domain;
    SplitOnceAt(local, domain, '@');
    assert domain == labels[0] + ['.'] + Join(labels[1..], '.');
    assert domain[|labels[0]|] == '.';
    SplitJoin(labels, '.');
    ValidateEmailParts(email, local, domain);
  }

  lemma {:induction false} PlainEmailAcceptedParts()
    ensures CheckDomainLabels(["example", "com"], 0) == Pass
    ensures CheckLocal("admin") == Pass
  {
    AsciiUtf8Len("admin"); AsciiUtf8Len("example"); AsciiUtf8Len("com");
    assert CheckLocal("admin") == Pass;
    assert CheckDomainLabel("example") == Pass;
    assert CheckDomainLabel("com") == Pass;
  }

  /** Test vector of the source: a plain address is accepted. */
  lemma {:induction false} PlainEmailAccepted()
    ensures ValidateEmail("admin@example.com") == Pass
  {
    PlainEmailAcceptedParts();
    assert "admin" + "@" + Join(["example", "com"], '.') == "admin@example.com";
    ValidateEmailJoined("admin", ["example", "com"]);
  }

  lemma {:induction false} DottedLocalAcceptedParts()
    ensures CheckDomainLabels(["example", "com"], 0) == Pass
    ensures CheckLocal("john.doe") == Pass
  {
    AsciiUtf8Len("john.doe"); AsciiUtf8Len("example"); AsciiUtf8Len("com");
    assert !HasDoubleDot("john.doe");
    assert CheckLocal("john.doe") == Pass;
    assert CheckDomainLabel("example") == Pass;
    assert CheckDomainLabel("com") == Pass;
  }

  /** A single dot inside the local part is accepted. */
  lemma {:induction false} DottedLocalAccepted()
    ensures ValidateEmail("john.doe@example.com") == Pass
  {
    DottedLocalAcceptedParts();
    assert "john.doe" + "@" + Join(["example", "com"], '.') == "john.doe@example.com";
    ValidateEmailJoined("john.doe", ["example", "com"]);
  }

  lemma {:induction false} NumericTldRejectedParts()
    ensures CheckDomainLabels(["example", "123"], 0) == Pass
    ensures CheckLocal("user") == Pass
    ensures IsDigits(["example", "123"][1])
  {
    AsciiUtf8Len("user"); AsciiUtf8Len("example"); AsciiUtf8Len("123");
    assert CheckLocal("user") == Pass;
    assert CheckDomainLabel("example") == Pass;
    assert CheckDomainLabel("123") == Pass;
  }

  /** An all-numeric top label is rejected. */
  lemma {:induction false} NumericTldRejected()
    ensures ValidateEmail("user@example.123") == Fail(TldAllNumeric)
  {
    NumericTldRejectedParts();
    assert "user" + "@" + Join(["example", "123"], '.') == "user@example.123";
    ValidateEmailJoined("user", ["example", "123"]);
  }

  /** A non-empty domain without any dot is rejected once the local part passes. */
  lemma {:induction false} UndottedDomain(local: string, domain: string)
    requires '@' !in local && CheckLocal(local) == Pass
    requires |domain| >= 1 && '.' !in domain
    requires 4 * (|local| + 1 + |domain|) <= MaxEmailLen
    ensures ValidateEmail(local + "@" + domain) == Fail(DomainNoDot)
  {
    assert local + "@" + domain == local + ['@'] + domain;
    SplitOnceAt(local, domain, '@');
    Utf8LenAtMostFour(local + "@" + domain);
  }

  lemma {:induction false} UserLocalAccepted()
    ensures CheckLocal("user") == Pass
  {
    AsciiUtf8Len("user");
  }

  /** Test vector of the source: a domain without a dot is rejected. */
  lemma {:induction false} UndottedDomainRejected()
    ensures ValidateEmail("user@example") == Fail(DomainNoDot)
  {
    UserLocalAccepted();
    assert '@' !in "user" && '.' !in "example";
    UndottedDomain("user", "example");
    assert "user" + "@" + "example" == "user@example";
  }
}
