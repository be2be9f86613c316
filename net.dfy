/**
 * Addresses and CIDR networks as the engine uses them: an IPv4 address is 4
 * octets, an IPv6 address 16 octets (network byte order), and a network is an
 * address with a prefix length. Containment and overlap are prefix
 * predicates: the first `prefix` bits agree.
 */
module Net {
  import opened Common

  type Octets4 = s: seq<U8> | |s| == 4 witness [0, 0, 0, 0]
  type Octets16 = s: seq<U8> | |s| == 16 witness [0, 0, 0, 0, 0, 0, 0, 0, 0, 0, 0, 0, 0, 0, 0, 0]
  type Prefix4 = p: int | 0 <= p <= 32
  type Prefix6 = p: int | 0 <= p <= 128

  /** `std::net::IpAddr`. */
  datatype IpAddr = V4(v4: Octets4) | V6(v6: Octets16) {
    function Octets(): (r: seq<U8>)
      ensures |r| == (if V4? then 4 else 16)
    {
      if V4? then v4 else v6
    }
  }

  /** `ipnetwork::IpNetwork`: an address (not necessarily masked) and a prefix length. */
  datatype IpNet = V4Net(a4: Octets4, p4: Prefix4) | V6Net(a6: Octets16, p6: Prefix6) {
    function Addr(): IpAddr {
      if V4Net? then V4(a4) else V6(a6)
    }
    function Prefix(): (r: nat)
      ensures r <= 8 * |Addr().Octets()|
    {
      if V4Net? then p4 else p6
    }
  }

  predicate SameFamily(a: IpAddr, b: IpAddr) { a.V4? == b.V4? }

  /** 2^k for the bit counts inside one octet. */
  function Pow2(k: nat): (r: nat)
    requires k <= 8
    ensures r >= 1
  {
    [1, 2, 4, 8, 16, 32, 64, 128, 256][k]
  }

  /** The first `n` bits of `x` and `y` agree: whole octets, then the top bits of the partial one. */
  predicate PrefixAgree(x: seq<U8>, y: seq<U8>, n: nat)
    requires |x| == |y| && n <= 8 * |x|
  {
    && (forall j :: 0 <= j < n / 8 ==> x[j] == y[j])
    && (n % 8 != 0 ==> x[n / 8] / Pow2(8 - n % 8) == y[n / 8] / Pow2(8 - n % 8))
  }

  /** `contains`: an address of the network's family whose first `prefix` bits match. */
  predicate Contains(net: IpNet, ip: IpAddr) {
    match (net, ip)
    case (V4Net(a, p), V4(o)) => PrefixAgree(a, o, p)
    case (V6Net(a, p), V6(o)) => PrefixAgree(a, o, p)
    case _ => false
  }

  function Min(a: nat, b: nat): nat { if a <= b then a else b }

  /** `overlaps`: same family, and the addresses agree on the shorter prefix. */
  predicate Overlaps(a: IpNet, b: IpNet) {
    && SameFamily(a.Addr(), b.Addr())
    && PrefixAgree(a.Addr().Octets(), b.Addr().Octets(), Min(a.Prefix(), b.Prefix()))
  }

  /** x / (a * b) == (x / a) / b. */
  lemma {:induction false} DivDiv(x: nat, a: nat, b: nat)
    requires a >= 1 && b >= 1
    ensures x / (a * b) == (x / a) / b
  {
    var q := x / a;
    var r := x % a;
    var q2 := q / b;
    var r2 := q % b;
    assert x == a * q + r;
    assert q == b * q2 + r2;
    Distribute(a, b * q2, r2);
    assert a * (b * q2) == (a * b) * q2;
    assert x == (a * b) * q2 + (a * r2 + r);
    MulBelow(a, r2, b);
    DivUnique(x, a * b, q2, a * r2 + r);
  }

  lemma {:induction false} Distribute(a: nat, u: nat, v: nat)
    ensures a * (u + v) == a * u + a * v
  {
  }

  /** a * r2 + r < a * b when r2 < b and r < a. */
  lemma {:induction false} MulBelow(a: nat, r2: nat, b: nat)
    requires r2 < b
    ensures a * r2 + a <= a * b
  {
    Distribute(a, r2, 1);
    MulMono(a, r2 + 1, b);
  }

  lemma {:induction false} MulMono(a: nat, u: nat, v: nat)
    requires u <= v
    ensures a * u <= a * v
  {
    Distribute(a, u, v - u);
  }

  lemma {:induction false} DivUnique(x: nat, d: nat, q: nat, r: nat)
    requires d >= 1 && x == d * q + r && r < d
    ensures x / d == q
  {
    var q': nat := x / d;
    var r' := x % d;
    assert x == d * q' + r';
    if q' < q {
      MulMono(d, q' + 1, q);
      Distribute(d, q', 1);
    } else if q' > q {
      MulMono(d, q + 1, q');
      Distribute(d, q, 1);
    }
  }

  /** Agreement on a prefix implies agreement on every shorter prefix. */
  lemma {:induction false} PrefixAgreeShorter(x: seq<U8>, y: seq<U8>, m: nat, n: nat)
    requires |x| == |y| && m <= n <= 8 * |x|
    requires PrefixAgree(x, y, n)
    ensures PrefixAgree(x, y, m)
  {
    if m % 8 != 0 && m / 8 == n / 8 {
      var j := m / 8;
      var a := Pow2(8 - n % 8);
      var b := Pow2(n % 8 - m % 8);
      assert Pow2(8 - m % 8) == a * b by {
        var u := m % 8;
        var v := n % 8;
        assert 1 <= u <= v <= 7;
      }
      DivDiv(x[j], a, b);
      DivDiv(y[j], a, b);
    }
  }

  /** A network contains an address iff the address lies under its prefix; overlap is that relation taken either way. */
  lemma {:induction false} OverlapsIffContains(a: IpNet, b: IpNet)
    ensures Overlaps(a, b) <==> Contains(a, b.Addr()) || Contains(b, a.Addr())
  {
    var x := a.Addr().Octets();
    var y := b.Addr().Octets();
    if SameFamily(a.Addr(), b.Addr()) {
      if Contains(b, a.Addr()) {
        PrefixAgreeShorter(y, x, Min(a.Prefix(), b.Prefix()), b.Prefix());
      }
      if Contains(a, b.Addr()) {
        PrefixAgreeShorter(x, y, Min(a.Prefix(), b.Prefix()), a.Prefix());
      }
    }
  }

  lemma {:induction false} OverlapsSymmetric(a: IpNet, b: IpNet)
    ensures Overlaps(a, b) <==> Overlaps(b, a)
  {
  }

  /** Two networks that share an address overlap, so rejecting overlaps makes PTR claims unambiguous. */
  lemma {:induction false} SharedAddressOverlaps(a: IpNet, b: IpNet, ip: IpAddr)
    requires Contains(a, ip) && Contains(b, ip)
    ensures Overlaps(a, b)
  {
    var m := Min(a.Prefix(), b.Prefix());
    PrefixAgreeShorter(a.Addr().Octets(), ip.Octets(), m, a.Prefix());
    PrefixAgreeShorter(b.Addr().Octets(), ip.Octets(), m, b.Prefix());
  }

  /** A network always contains its own address. */
  lemma {:induction false} ContainsOwnAddress(net: IpNet)
    ensures Contains(net, net.Addr())
  {
  }

  /** An octet with only its top `bits` bits kept. */
  function MaskOctet(x: U8, bits: nat): (r: U8)
    requires bits <= 8
    ensures r / Pow2(8 - bits) == x / Pow2(8 - bits)
  {
    var d := Pow2(8 - bits);
    MulDivCancel(x / d, d);
    (x / d) * d
  }

  lemma {:induction false} MulDivCancel(q: nat, d: nat)
    requires d >= 1
    ensures (q * d) / d == q
  {
    DivUnique(q * d, d, q, 0);
  }

  /** `network()`: the address with every bit past the prefix cleared. */
  function Masked(x: seq<U8>, n: nat): (r: seq<U8>)
    requires n <= 8 * |x|
    ensures |r| == |x|
    ensures forall j :: 0 <= j < n / 8 ==> r[j] == x[j]
    ensures PrefixAgree(r, x, n)
  {
    seq(|x|, j requires 0 <= j < |x| =>
      if j < n / 8 then x[j] else if j == n / 8 then MaskOctet(x[j], n % 8) else 0)
  }

  function Network(net: IpNet): (r: IpAddr)
    ensures SameFamily(r, net.Addr())
    ensures Contains(net, r)
  {
    match net
    case V4Net(a, p) => V4(Masked(a, p))
    case V6Net(a, p) => V6(Masked(a, p))
  }

  /** Every address of a network agrees with the network address on the whole octets under the prefix. */
  lemma {:induction false} ContainedAgreesWithNetwork(net: IpNet, ip: IpAddr, j: nat)
    requires Contains(net, ip) && j < net.Prefix() / 8
    ensures ip.Octets()[j] == Network(net).Octets()[j]
  {
  }

  // ------------------------------------------------------------------ nibbles

  function HexDigit(d: nat): char
    requires d < 16
  {
    "0123456789abcdef"[d]
  }

  /** `format!("{:032x}", u128::from(addr))`: two lower-case hex digits per octet, most significant first. */
  function HexNibbles(o: seq<U8>): (r: seq<char>)
    ensures |r| == 2 * |o|
    ensures forall k :: 0 <= k < |o| ==> r[2 * k] == HexDigit(o[k] / 16) && r[2 * k + 1] == HexDigit(o[k] % 16)
  {
    if |o| == 0 then [] else [HexDigit(o[0] / 16), HexDigit(o[0] % 16)] + HexNibbles(o[1..])
  }

  /** Two octet strings show the same hex digit where their octets agree on that digit. */
  lemma {:induction false} NibbleFromOctets(x: seq<U8>, y: seq<U8>, k: nat)
    requires |x| == |y| && k < 2 * |x|
    requires x[k / 2] / 16 == y[k / 2] / 16
    requires k % 2 == 1 ==> x[k / 2] == y[k / 2]
    ensures HexNibbles(x)[k] == HexNibbles(y)[k]
  {
    var j := k / 2;
    if k % 2 == 0 {
      assert k == 2 * j;
    } else {
      assert k == 2 * j + 1;
    }
  }

  /** With at least four bits of the partial octet under the prefix, its high nibble agrees. */
  lemma {:induction false} HighNibbleUnderPrefix(x: seq<U8>, y: seq<U8>, p: nat)
    requires |x| == |y| && p < 8 * |x| && PrefixAgree(x, y, p) && p % 8 >= 4
    ensures x[p / 8] / 16 == y[p / 8] / 16
  {
    PrefixAgreeShorter(x, y, 8 * (p / 8) + 4, p);
    assert Pow2(8 - 4) == 16;
  }

  /**
   * Every address of an IPv6 network agrees with the network address on the
   * whole nibbles under the prefix.
   */
  lemma {:induction false} ContainedAgreesOnNibbles(net: IpNet, ip: IpAddr, k: nat)
    requires net.V6Net? && Contains(net, ip) && k < net.Prefix() / 4
    ensures HexNibbles(ip.Octets())[k] == HexNibbles(Network(net).Octets())[k]
  {
    var p := net.p6;
    var a := net.a6;
    var x := ip.v6;
    var n := Masked(a, p);
    assert ip.Octets() == x && Network(net).Octets() == n;
    var j := k / 2;
    if j < p / 8 {
      assert x[j] == a[j] && n[j] == a[j];
    } else {
      // the high nibble of the partial octet: its top four bits are under the prefix
      assert j == p / 8 && p % 8 >= 4 && k % 2 == 0;
      HighNibbleUnderPrefix(a, x, p);
      HighNibbleUnderPrefix(n, a, p);
    }
    NibbleFromOctets(x, n, k);
  }
}
