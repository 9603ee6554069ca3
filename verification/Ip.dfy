/** IP masking (src/ip.rs). Addresses are the words `u32::from` and `u128::from` make of them. */
module Ip {
  import opened Words
  import opened PlaceValue
  import opened Bits

  datatype IpAddr = V4(v4: u32) | V6(v6: u128)

  // `Unmasked` is the source's `IpMaskMode::None`.
  datatype IpMaskMode = Unmasked | Balanced | Accurate | Full {
    /** How many leading bits of an IPv4 and of an IPv6 address survive. */
    function Prefixes(): (p: (nat, nat))
      ensures 0 < p.0 <= 32 && 0 < p.1 <= 128
    {
      match this
      case Unmasked => (32, 128)
      case Balanced => (24, 56)
      case Accurate => (28, 64)
      case Full => (32, 128)
    }
  }

  /** An IPv4-mapped IPv6 address: 80 zero bits, 16 one bits, 32 address bits
      (section 2.5.5.2 of RFC 4291). */
  predicate IsMapped(a: u128) {
    a / 0x1_0000_0000 == 0xFFFF
  }

  function ToIpv4Mapped(a: u128): Option<u32> {
    if IsMapped(a) then Some(a % 0x1_0000_0000) else None
  }

  function Canonical(ip: IpAddr): IpAddr {
    match ip
    case V4(_) => ip
    case V6(a) =>
      match ToIpv4Mapped(a)
      case Some(v4) => V4(v4)
      case None => ip
  }

  /** The mask of a `width`-bit word whose first `prefix` bits are ones. */
  function PrefixMask(prefix: nat, width: nat): nat
    requires prefix <= width
  {
    PowPositive(2, width);
    if prefix == 0 then 0 else Shl(Pow(2, width) - 1, width - prefix, width)
  }

  function MaskBits(a: nat, prefix: nat, width: nat): nat
    requires prefix <= width
  {
    And(a, PrefixMask(prefix, width))
  }

  function MaskV4(a: u32, prefix: nat): u32
    requires prefix <= 32
  {
    MaskIsRounding(a, prefix, 32);
    MaskBits(a, prefix, 32)
  }

  function MaskV6(a: u128, prefix: nat): u128
    requires prefix <= 128
  {
    MaskIsRounding(a, prefix, 128);
    MaskBits(a, prefix, 128)
  }

  function MaskIp(ip: IpAddr, mode: IpMaskMode): IpAddr {
    if mode == Unmasked then Canonical(ip)
    else
      match Canonical(ip)
      case V4(a) => V4(MaskV4(a, mode.Prefixes().0))
      case V6(a) => V6(MaskV6(a, mode.Prefixes().1))
  }

  // ---- What masking computes ----------------------------------------------

  function RoundDown(x: nat, m: nat): nat
    requires 0 < m
  {
    x / m * m
  }

  lemma WordSizes()
    ensures Pow(2, 32) == 0x1_0000_0000
    ensures Pow(2, 128) == 0x1_0000_0000_0000_0000_0000_0000_0000_0000
  {
    PowDouble(2, 8, 256);
    PowDouble(2, 16, 0x1_0000);
    PowDouble(2, 32, 0x1_0000_0000);
    PowDouble(2, 64, 0x1_0000_0000_0000_0000);
  }

  /** The shift-and-mask code rounds down to a multiple of `2^(width - prefix)`, for every prefix. */
  lemma MaskIsRounding(a: nat, prefix: nat, width: nat)
    requires prefix <= width && (width == 32 || width == 128)
    requires a < (if width == 32 then 0x1_0000_0000 else 0x1_0000_0000_0000_0000_0000_0000_0000_0000)
    ensures 0 < Pow(2, width - prefix)
    ensures MaskBits(a, prefix, width) == RoundDown(a, Pow(2, width - prefix)) <= a
  {
    WordSizes();
    var k := width - prefix;
    ShiftedOnes(width, k);
    DivMod(Pow(2, k), a);
    if prefix == 0 {
      DivModUnique(Pow(2, k), 0, a);
    } else {
      AndHighOnes(a, width, k);
    }
  }

  /** How many consecutive addresses a mode merges, in each family. */
  function GroupSize(mode: IpMaskMode): (nat, nat) {
    match mode
    case Balanced => (0x100, 0x100_0000_0000_0000_0000)
    case Accurate => (0x10, 0x1_0000_0000_0000_0000)
    case Full => (1, 1)
    case Unmasked => (1, 1)
  }

  /** The groups are what the prefixes leave open. */
  lemma GroupsFollowPrefixes(mode: IpMaskMode)
    ensures GroupSize(mode).0 == Pow(2, 32 - mode.Prefixes().0)
    ensures GroupSize(mode).1 == Pow(2, 128 - mode.Prefixes().1)
  {
    PowDouble(2, 4, 0x10);
    PowDouble(2, 8, 0x100);
    PowDouble(2, 16, 0x1_0000);
    PowDouble(2, 32, 0x1_0000_0000);
    PowAdd(2, 64, 8);
  }

  /** Every mode rounds the canonical address down to the start of its group. */
  lemma MaskIpRounds(ip: IpAddr, mode: IpMaskMode)
    ensures Canonical(ip).V4? ==>
      MaskIp(ip, mode).V4? && MaskIp(ip, mode).v4 == RoundDown(Canonical(ip).v4, GroupSize(mode).0)
    ensures Canonical(ip).V6? ==>
      MaskIp(ip, mode).V6? && MaskIp(ip, mode).v6 == RoundDown(Canonical(ip).v6, GroupSize(mode).1)
  {
    if mode != Unmasked {
      GroupsFollowPrefixes(mode);
      match Canonical(ip)
      case V4(a) => MaskIsRounding(a, mode.Prefixes().0, 32);
      case V6(a) => MaskIsRounding(a, mode.Prefixes().1, 128);
    }
  }

  /** Masking an IPv4 address clears its last octet, or its last four bits. */
  lemma MaskedV4(a: u32)
    ensures MaskIp(V4(a), Balanced) == V4(a / 0x100 * 0x100)
    ensures MaskIp(V4(a), Accurate) == V4(a / 0x10 * 0x10)
  {
    MaskIpRounds(V4(a), Balanced);
    MaskIpRounds(V4(a), Accurate);
  }

  /** Masking an IPv6 address clears its last 72 or 64 bits, unless it lies in `::ffff:0:0/96`: then the IPv4
      address it carries is masked. */
  lemma MaskedV6(a: u128, mode: IpMaskMode)
    ensures a / 0x1_0000_0000 == 0xFFFF ==> MaskIp(V6(a), mode) == MaskIp(V4(a % 0x1_0000_0000), mode)
    ensures a / 0x1_0000_0000 != 0xFFFF && mode == Balanced ==>
      MaskIp(V6(a), mode).V6? && MaskIp(V6(a), mode).v6 == a / 0x100_0000_0000_0000_0000 * 0x100_0000_0000_0000_0000
    ensures a / 0x1_0000_0000 != 0xFFFF && mode == Accurate ==>
      MaskIp(V6(a), mode).V6? && MaskIp(V6(a), mode).v6 == a / 0x1_0000_0000_0000_0000 * 0x1_0000_0000_0000_0000
  {
    MaskIpRounds(V6(a), mode);
    hide MaskV4, MaskV6;
  }

  /** `Full` and `Unmasked` agree, and change an address exactly when it is IPv4-mapped. */
  lemma FullPrecision(ip: IpAddr)
    ensures MaskIp(ip, Full) == MaskIp(ip, Unmasked)
    ensures MaskIp(ip, Full) == ip <==> !(ip.V6? && IsMapped(ip.v6))
  {
    MaskIpRounds(ip, Full);
  }

  // ---- Which addresses share a mask ----------------------------------------

  /** Same family after normalisation, and the same leading `prefix` bits. */
  predicate SameMaskClass(a: IpAddr, b: IpAddr, mode: IpMaskMode) {
    match (Canonical(a), Canonical(b))
    case (V4(x), V4(y)) => x / GroupSize(mode).0 == y / GroupSize(mode).0
    case (V6(x), V6(y)) => x / GroupSize(mode).1 == y / GroupSize(mode).1
    case _ => false
  }

  lemma RoundDownEqual(x: nat, y: nat, m: nat)
    requires 0 < m
    ensures RoundDown(x, m) == RoundDown(y, m) <==> x / m == y / m
  {
    DivModUnique(m, x / m, 0);
    DivModUnique(m, y / m, 0);
  }

  lemma SameMaskIffSameClass(a: IpAddr, b: IpAddr, mode: IpMaskMode)
    ensures MaskIp(a, mode) == MaskIp(b, mode) <==> SameMaskClass(a, b, mode)
  {
    MaskIpRounds(a, mode);
    MaskIpRounds(b, mode);
    match (Canonical(a), Canonical(b))
    case (V4(x), V4(y)) => RoundDownEqual(x, y, GroupSize(mode).0);
    case (V6(x), V6(y)) => RoundDownEqual(x, y, GroupSize(mode).1);
    case _ =>
  }

  // ---- The chain of modes --------------------------------------------------

  /** The one of two modes that keeps fewer bits. */
  function Coarser(m: IpMaskMode, n: IpMaskMode): IpMaskMode {
    if m.Prefixes().0 <= n.Prefixes().0 then m else n
  }

  lemma Regroup3(x: nat, y: nat, z: nat)
    ensures x * (y * z) == y * (x * z)
  {
  }

  lemma RoundDownTwice(x: nat, m: nat, k: nat)
    requires 0 < m && 0 < k
    ensures 0 < m * k
    ensures RoundDown(RoundDown(x, m), m * k) == RoundDown(x, m * k)
    ensures RoundDown(RoundDown(x, m * k), m) == RoundDown(x, m * k)
  {
    var q := x / m;
    DivModUnique(m, q, 0);
    DivDiv(x, m, k);
    DivDiv(RoundDown(x, m), m, k);
    var r := x / (m * k);
    DivModUnique(m, r * k, 0);
    Regroup3(r, m, k);
  }

  /** The start of a group of 2^64 or 2^72 addresses has zeros where a mapped address has ones. */
  lemma GroupStartNotMapped(x: u128, g: nat)
    requires g == 0x1_0000_0000_0000_0000 || g == 0x100_0000_0000_0000_0000
    ensures RoundDown(x, g) <= x && !IsMapped(RoundDown(x, g))
  {
    var q := x / g;
    if g == 0x1_0000_0000_0000_0000 {
      assert RoundDown(x, g) == q * 0x1_0000_0000_0000_0000;
    } else {
      assert RoundDown(x, g) == q * 0x100_0000_0000_0000_0000;
    }
  }

  /** A masked IPv6 address never turns into an IPv4-mapped one, so masking is already canonical. */
  lemma MaskedIsCanonical(ip: IpAddr, mode: IpMaskMode)
    ensures Canonical(MaskIp(ip, mode)) == MaskIp(ip, mode)
  {
    MaskIpRounds(ip, mode);
    if Canonical(ip).V6? && GroupSize(mode).1 != 1 {
      GroupStartNotMapped(Canonical(ip).v6, GroupSize(mode).1);
    }
  }

  lemma RoundDownNested(x: nat, g: nat, h: nat, k: nat)
    requires 0 < g && 0 < h && 0 < k
    requires h == g * k || g == h * k
    ensures RoundDown(RoundDown(x, g), h) == RoundDown(x, if g <= h then h else g)
  {
    if h == g * k {
      MulMonotonic(1, k, g);
      RoundDownTwice(x, g, k);
    } else {
      MulMonotonic(1, k, h);
      RoundDownTwice(x, h, k);
    }
  }

  /** Group sizes divide one another, and the coarser mode has the larger group. */
  lemma GroupsNest(m: IpMaskMode, n: IpMaskMode) returns (k4: nat, k6: nat)
    ensures var (g, h, c) := (GroupSize(m), GroupSize(n), GroupSize(Coarser(m, n)));
      0 < k4 && 0 < k6
      && (h.0 == g.0 * k4 || g.0 == h.0 * k4) && c.0 == (if g.0 <= h.0 then h.0 else g.0)
      && (h.1 == g.1 * k6 || g.1 == h.1 * k6) && c.1 == (if g.1 <= h.1 then h.1 else g.1)
  {
    var g, h := GroupSize(m), GroupSize(n);
    k4 := if g.0 <= h.0 then h.0 / g.0 else g.0 / h.0;
    k6 := if g.1 <= h.1 then h.1 / g.1 else g.1 / h.1;
  }

  /** Masking with two modes, in either order, is masking with the coarser one. */
  lemma MaskTwice(ip: IpAddr, m: IpMaskMode, n: IpMaskMode)
    ensures MaskIp(MaskIp(ip, m), n) == MaskIp(ip, Coarser(m, n))
  {
    MaskedIsCanonical(ip, m);
    MaskIpRounds(ip, m);
    MaskIpRounds(MaskIp(ip, m), n);
    MaskIpRounds(ip, Coarser(m, n));
    var k4, k6 := GroupsNest(m, n);
    match Canonical(ip)
    case V4(a) => RoundDownNested(a, GroupSize(m).0, GroupSize(n).0, k4);
    case V6(a) => RoundDownNested(a, GroupSize(m).1, GroupSize(n).1, k6);
  }

  /** A coarser mode only merges classes: it never separates what a finer one joins. */
  lemma CoarserMerges(a: IpAddr, b: IpAddr, m: IpMaskMode, n: IpMaskMode)
    requires Coarser(m, n) == n && MaskIp(a, m) == MaskIp(b, m)
    ensures MaskIp(a, n) == MaskIp(b, n)
  {
    MaskTwice(a, m, n);
    MaskTwice(b, m, n);
  }
}
