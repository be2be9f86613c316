/**
 * Shared vocabulary of the resolution engine: the fixed-width integer ranges
 * the Rust code uses, the error taxonomy (one constructor per `bail!` site
 * that matters to a contract), and the Option/Result/Outcome wrappers.
 */
module Common {

  type U8 = x: int | 0 <= x < 0x100
  type U16 = x: int | 0 <= x < 0x1_0000
  type U32 = x: int | 0 <= x < 0x1_0000_0000
  type U64 = x: int | 0 <= x < 0x1_0000_0000_0000_0000
  type I64 = x: int | -0x8000_0000_0000_0000 <= x < 0x8000_0000_0000_0000

  const MaxU32: int := 0xFFFF_FFFF

  datatype Option<+T> = None | Some(value: T) {
    function GetOr(default: T): T {
      match this
      case Some(v) => v
      case None => default
    }
  }

  /** Every failure the core can report. */
  datatype Error =
    // validate_dns_name
    | NameTooLong | NotFullyQualified | EmptyLabel | LabelTooLong
    | WildcardNotLeftmost | WildcardNotWholeLabel | LabelHyphenEdge | LabelInvalidChars
    // validate_email
    | EmailTooLong | EmailMissingAt | LocalEmpty | LocalTooLong | LocalDotEdge
    | LocalDoubleDot | LocalInvalidChars | DomainEmpty | DomainNoDot | DomainEmptyLabel
    | DomainLabelTooLong | DomainLabelHyphenEdge | DomainLabelInvalidChars | TldAllNumeric
    // normaliser and record derivation
    | HostNotFqdn | SrvTooFewParts | SrvServiceUnderscore | SrvProtocolUnderscore
    | MailboxMissingAt | RetryNotBelowRefresh | EmailRequired | NoNameserver
    | NetworksOverlap
    // decoder-side checks
    | TtlZero | TtlTooLarge | TtlNegative | SrvValueMalformed | InSrvEntry(index: nat, cause: Error)
    | DuplicatePtr

  datatype Result<+T> = Ok(value: T) | Err(error: Error)

  /** A check that either passes or reports why it failed (`Result<()>` in the source). */
  datatype Outcome = Pass | Fail(error: Error)

  /**
   * `iter().map(f).collect::<Result<Vec<_>>>()`: all results, or the error of
   * the first element that fails.
   */
  function MapAll<A, B>(xs: seq<A>, f: A -> Result<B>): (r: Result<seq<B>>)
    ensures r.Ok? <==> forall i :: 0 <= i < |xs| ==> f(xs[i]).Ok?
    ensures r.Ok? ==> |r.value| == |xs| && forall i :: 0 <= i < |xs| ==> r.value[i] == f(xs[i]).value
    ensures r.Err? ==> exists k :: 0 <= k < |xs| && f(xs[k]) == Err(r.error)
                                   && forall j :: 0 <= j < k ==> f(xs[j]).Ok?
  {
    if |xs| == 0 then Ok([])
    else
      match f(xs[0])
      case Err(e) => Err(e)
      case Ok(y) =>
        match MapAll(xs[1..], f)
        case Err(e) =>
          assert forall i :: 1 <= i < |xs| ==> xs[i] == xs[1..][i - 1];
          Err(e)
        case Ok(ys) => Ok([y] + ys)
  }

  /** Every check passes, or the failure of the first element that does not. */
  function FirstFailure<A>(xs: seq<A>, check: A -> Outcome): (r: Outcome)
    ensures r.Pass? <==> forall i :: 0 <= i < |xs| ==> check(xs[i]).Pass?
    ensures r.Fail? ==> exists i :: 0 <= i < |xs| && check(xs[i]) == r
                                   && forall j :: 0 <= j < i ==> check(xs[j]).Pass?
  {
    if |xs| == 0 then Pass
    else
      match check(xs[0])
      case Fail(e) => Fail(e)
      case Pass =>
        var rest := FirstFailure(xs[1..], check);
        assert forall i :: 1 <= i < |xs| ==> xs[i] == xs[1..][i - 1];
        rest
  }

  /** Concatenation of a sequence of sequences. */
  function Flatten<T>(ss: seq<seq<T>>): (r: seq<T>)
  {
    if |ss| == 0 then [] else Flatten(ss[..|ss| - 1]) + ss[|ss| - 1]
  }

  lemma {:induction false} FlattenSnoc<T>(ss: seq<seq<T>>, s: seq<T>)
    ensures Flatten(ss + [s]) == Flatten(ss) + s
  {
    assert (ss + [s])[..|ss|] == ss;
  }

  /** Every element of a flattened sequence comes from one of the parts, and vice versa. */
  lemma {:induction false} FlattenMember<T>(ss: seq<seq<T>>, x: T)
    ensures x in Flatten(ss) <==> exists i :: 0 <= i < |ss| && x in ss[i]
  {
    if |ss| > 0 {
      var init := ss[..|ss| - 1];
      FlattenMember(init, x);
      assert forall i :: 0 <= i < |init| ==> init[i] == ss[i];
      if x in Flatten(ss) && x !in ss[|ss| - 1] {
        assert x in Flatten(init);
      }
    }
  }
}
