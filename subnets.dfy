/**
 * Address decomposition (`calculate_ranges` inside `calculate_subnets`).
 *
 * An address containing `-` is a range "lower-upper" whose two halves are read
 * as dot-separated integers, verbatim. Any other address is handed to Python's
 * `ipaddress.ip_network(address, strict=False)`: for an IPv4 network the result
 * is the octets of its network address followed by those of its broadcast
 * address, each printed with `str` and read back with `int`. Any failure gives
 * eight `N/A` sentinels. The eight values are stored positionally into the
 * columns `netIPOct1L, netIPOct1U, netIPOct2L, ..., netIPOct4U`, so the lower
 * octets land in the first four of those columns and the upper octets in the
 * last four.
 *
 * IPv4 addresses are numbers below 2^32. Masking with a prefix of length p
 * keeps the multiple of 2^(32-p) at or below the address (the network address);
 * setting the host bits gives the last address of that block (the broadcast
 * address).
 */
module Subnets {
  import opened Wrappers
  import opened Text
  import opened Inventory

  const TwoTo32: nat := 0x1_0000_0000

  function Pow2(n: nat): (r: nat)
    ensures r >= 1
  {
    if n == 0 then 1 else 2 * Pow2(n - 1)
  }

  // ---------------------------------------------------------------- octets

  /** The 32-bit value of four octets, most significant first. */
  function FromOctets(o: seq<nat>): nat
    requires |o| == 4
  {
    ((o[0] * 256 + o[1]) * 256 + o[2]) * 256 + o[3]
  }

  /** The four octets of a 32-bit value, most significant first. */
  function Octets(x: nat): (o: seq<nat>)
    requires x < TwoTo32
    ensures |o| == 4 && forall k :: 0 <= k < 4 ==> o[k] < 256
    ensures FromOctets(o) == x
  {
    [x / 256 / 256 / 256, x / 256 / 256 % 256, x / 256 % 256, x % 256]
  }

  /** Splitting four octets into a number and back gives the same octets. */
  lemma OctetsOfFromOctets(o: seq<nat>)
    requires |o| == 4 && forall k :: 0 <= k < 4 ==> o[k] < 256
    ensures FromOctets(o) < TwoTo32
    ensures Octets(FromOctets(o)) == o
  {
    var x := FromOctets(o);
    var x1 := (o[0] * 256 + o[1]) * 256 + o[2];
    var x2 := o[0] * 256 + o[1];
    assert x / 256 == x1 && x % 256 == o[3];
    assert x1 / 256 == x2 && x1 % 256 == o[2];
    assert x2 / 256 == o[0] && x2 % 256 == o[1];
  }

  // ---------------------------------------------------------------- parsing, as ipaddress does

  /** One octet of an IPv4 address: one to three ASCII digits, no leading zero, at most 255. */
  function ParseOctet(s: string): (r: Option<nat>)
    ensures r.Some? ==> r.value < 256
  {
    if IsDigits(s) && |s| <= 3 && (|s| == 1 || s[0] != '0') && Value(s) <= 255 then Some(Value(s))
    else None
  }

  /** `IPv4Address(s)`: exactly four dot-separated octets. */
  function ParseAddress(s: string): (r: Option<nat>)
    ensures r.Some? ==> r.value < TwoTo32
  {
    var parts := Split(s, '.');
    if |parts| != 4 then None
    else
      match (ParseOctet(parts[0]), ParseOctet(parts[1]), ParseOctet(parts[2]), ParseOctet(parts[3]))
      case (Some(a), Some(b), Some(c), Some(d)) =>
        OctetsOfFromOctets([a, b, c, d]);
        Some(FromOctets([a, b, c, d]))
      case _ => None
  }

  /** `str(IPv4Address(x))`: the octets in decimal, joined by dots. */
  function Format(x: nat): string
    requires x < TwoTo32
  {
    var o := Octets(x);
    Join('.', [Show(o[0]), Show(o[1]), Show(o[2]), Show(o[3])])
  }

  /** The netmask of prefix length p: p one bits followed by 32 - p zero bits. */
  function Netmask(p: nat): nat
    requires p <= 32
  {
    Pow2AtMost32(32 - p);
    TwoTo32 - Pow2(32 - p)
  }

  /** The hostmask of prefix length p: p zero bits followed by 32 - p one bits. */
  function Hostmask(p: nat): nat
    requires p <= 32
  {
    Pow2(32 - p) - 1
  }

  /** The least prefix length from `p` on whose netmask is `m`, if any. */
  function NetmaskPrefix(m: nat, p: nat): (r: Option<nat>)
    requires p <= 33
    ensures r.Some? ==> p <= r.value <= 32 && Netmask(r.value) == m
    ensures (exists q :: p <= q <= 32 && Netmask(q) == m) ==> r.Some?
    decreases 33 - p
  {
    if p > 32 then None
    else if Netmask(p) == m then Some(p)
    else NetmaskPrefix(m, p + 1)
  }

  /** The least prefix length from `p` on whose hostmask is `m`, if any. */
  function HostmaskPrefix(m: nat, p: nat): (r: Option<nat>)
    requires p <= 33
    ensures r.Some? ==> p <= r.value <= 32 && Hostmask(r.value) == m
    ensures (exists q :: p <= q <= 32 && Hostmask(q) == m) ==> r.Some?
    decreases 33 - p
  {
    if p > 32 then None
    else if Hostmask(p) == m then Some(p)
    else HostmaskPrefix(m, p + 1)
  }

  /**
   * The text after `/`: a decimal prefix length from 0 to 32; otherwise a
   * dotted netmask, or failing that a dotted hostmask (all-zero and all-one
   * masks read as netmasks).
   */
  function ParsePrefix(s: string): (r: Option<nat>)
    ensures r.Some? ==> r.value <= 32
  {
    if IsDigits(s) then (if Value(s) <= 32 then Some(Value(s)) else None)
    else
      match ParseAddress(s)
      case None => None
      case Some(m) =>
        match NetmaskPrefix(m, 0)
        case Some(p) => Some(p)
        case None => HostmaskPrefix(m, 0)
  }

  /** An IPv4 network as `ip_network` reads it: the address written and the prefix length. */
  datatype Network = Network(address: nat, prefixLen: nat)

  predicate ValidNetwork(net: Network)
  {
    net.address < TwoTo32 && net.prefixLen <= 32
  }

  /**
   * `ip_network(s, strict=False)` for IPv4: an address, optionally followed by
   * `/` and a prefix (a bare address is a /32). Host bits are allowed; they are
   * cleared by `NetworkAddress`.
   */
  function ParseNetwork(s: string): (r: Option<Network>)
    ensures r.Some? ==> ValidNetwork(r.value)
  {
    var pieces := Split(s, '/');
    if |pieces| > 2 then None
    else
      match (ParseAddress(pieces[0]), if |pieces| == 2 then ParsePrefix(pieces[1]) else Some(32))
      case (Some(a), Some(p)) => Some(Network(a, p))
      case _ => None
  }

  /**
   * The network address: the address with its 32 - p host bits cleared. It is
   * the multiple of 2^(32-p) at or below the address, and the block of 2^(32-p)
   * addresses it starts holds the address and fits below 2^32.
   */
  function NetworkAddress(net: Network): (n: nat)
    requires ValidNetwork(net)
    ensures n % Pow2(32 - net.prefixLen) == 0
    ensures n <= net.address < n + Pow2(32 - net.prefixLen) <= TwoTo32
  {
    BlockOfAddress(net.address, net.prefixLen);
    BlockStart(net.address, net.prefixLen)
  }

  /** The first address of the block of 2^(32-p) addresses that holds `a`. */
  function BlockStart(a: nat, p: nat): int
    requires p <= 32
  {
    a - a % Pow2(32 - p)
  }

  /** The broadcast address: the network address with every host bit set, the last address of the block. */
  function Broadcast(net: Network): (b: nat)
    requires ValidNetwork(net)
    ensures NetworkAddress(net) <= net.address <= b < TwoTo32
    ensures b - NetworkAddress(net) == Hostmask(net.prefixLen)
  {
    NetworkAddress(net) + Pow2(32 - net.prefixLen) - 1
  }

  lemma {:induction false} Pow2Add(a: nat, b: nat)
    ensures Pow2(a + b) == Pow2(a) * Pow2(b)
  {
    if a > 0 {
      Pow2Add(a - 1, b);
    }
  }

  lemma Pow2Of32()
    ensures Pow2(32) == TwoTo32
  {
    assert Pow2(4) == 16 by {
      assert Pow2(1) == 2;
      assert Pow2(2) == 4;
      assert Pow2(3) == 8;
    }
    Pow2Add(4, 4);
    Pow2Add(8, 8);
    Pow2Add(16, 16);
  }

  lemma {:induction false} Pow2AtMost32(n: nat)
    requires n <= 32
    ensures Pow2(n) <= TwoTo32
  {
    Pow2Of32();
    if n < 32 {
      Pow2Grows(n, 32);
    }
  }

  /** x <= y implies x * z <= y * z for non-negative z. */
  lemma MulMonotone(x: int, y: int, z: nat)
    requires x <= y
    ensures x * z <= y * z
  {
    assert y * z - x * z == (y - x) * z;
  }

  /** The 2^(32-p) blocks that divide the 32-bit addresses: the one holding `a` starts at a - a % 2^(32-p). */
  lemma BlockOfAddress(a: nat, p: nat)
    requires a < TwoTo32 && p <= 32
    ensures BlockStart(a, p) % Pow2(32 - p) == 0
    ensures 0 <= BlockStart(a, p) <= a < BlockStart(a, p) + Pow2(32 - p) <= TwoTo32
  {
    Pow2Add(p, 32 - p);
    Pow2Of32();
    DivideIntoBlocks(a, Pow2(32 - p), Pow2(p));
  }

  /** Among `count` blocks of `size`, the one holding `a` starts at a - a % size. */
  lemma DivideIntoBlocks(a: nat, size: nat, count: nat)
    requires size > 0 && a < count * size
    ensures (a - a % size) % size == 0
    ensures 0 <= a - a % size <= a < a - a % size + size <= count * size
  {
    var q := a / size;
    DivMod(a, size);
    MultipleMod(q, size);
    if q >= count {
      MulMonotone(count, q, size);
      assert false;
    }
    MulMonotone(q + 1, count, size);
    assert (q + 1) * size == q * size + size;
  }

  /** Division and remainder by a positive `size`. */
  lemma DivMod(a: nat, size: nat)
    requires size > 0
    ensures a == (a / size) * size + a % size && 0 <= a % size < size && a / size >= 0
  {
  }

  /** A multiple of `size` leaves no remainder. */
  lemma MultipleMod(q: nat, size: nat)
    requires size > 0
    ensures (q * size) % size == 0
  {
    var m := q * size;
    var d := q - m / size;
    assert size * d == m % size;
    if d >= 1 {
      MulMonotone(1, d, size);
    } else if d <= -1 {
      MulMonotone(d, -1, size);
    }
  }

  // ---------------------------------------------------------------- calculate_ranges

  /** The eight `N/A` sentinels of a failed decomposition. */
  const Unknown: seq<Cell> := [NA, NA, NA, NA, NA, NA, NA, NA]

  function Cells(xs: seq<nat>): seq<Cell>
  {
    seq(|xs|, k requires 0 <= k < |xs| => Num(xs[k]))
  }

  /**
   * A hyphen range: exactly two halves, each read as dot-separated integers, of
   * any count. It succeeds only with exactly one hyphen and gives at least one
   * integer per half.
   */
  function HyphenBounds(address: string): (r: Option<(seq<nat>, seq<nat>)>)
    ensures r.Some? ==> Count(address, '-') == 1 && |r.value.0| >= 1 && |r.value.1| >= 1
  {
    SplitCount(address, '-');
    var halves := Split(address, '-');
    if |halves| != 2 then None
    else
      match (ParseAll(Split(halves[0], '.')), ParseAll(Split(halves[1], '.')))
      case (Some(lower), Some(upper)) => Some((lower, upper))
      case _ => None
  }

  /**
   * A network: its network and broadcast addresses, printed and read back as
   * integers. It succeeds exactly when `ip_network` accepts the address, and
   * then gives the four octets of each.
   */
  function CidrBounds(address: string): (r: Option<(seq<nat>, seq<nat>)>)
    ensures r.Some? <==> ParseNetwork(address).Some?
    ensures r.Some? ==> var net := ParseNetwork(address).value;
      r.value == (Octets(NetworkAddress(net)), Octets(Broadcast(net)))
  {
    match ParseNetwork(address)
    case None => None
    case Some(net) =>
      ParseFormat(NetworkAddress(net));
      ParseFormat(Broadcast(net));
      match (ParseAll(Split(Format(NetworkAddress(net)), '.')), ParseAll(Split(Format(Broadcast(net)), '.')))
      case (Some(lower), Some(upper)) => Some((lower, upper))
      case _ => None
  }

  /**
   * The lower and upper integers of an address, by the branch its `-` selects.
   * Each half, when there is one, holds at least one integer; an address
   * without `-` has bounds exactly when `ip_network` accepts it.
   */
  function Bounds(address: string): (r: Option<(seq<nat>, seq<nat>)>)
    ensures r.Some? ==> |r.value.0| >= 1 && |r.value.1| >= 1
    ensures '-' !in address ==> (r.Some? <==> ParseNetwork(address).Some?)
  {
    if '-' in address then HyphenBounds(address) else CidrBounds(address)
  }

  /**
   * `calculate_ranges` as the script writes it: lower integers then upper
   * integers, or eight `N/A`. Without a hyphen it always gives eight values, the
   * same ones as the corrected `CalculateRanges`.
   */
  function RangesAsWritten(address: string): (r: seq<Cell>)
    ensures '-' !in address ==> |r| == 8 && r == CalculateRanges(address)
  {
    match Bounds(address)
    case Some((lower, upper)) => Cells(lower) + Cells(upper)
    case None => Unknown
  }

  /**
   * `calculate_ranges` with each half of a range required to hold four integers,
   * so that it always yields the eight values the eight columns take.
   */
  function CalculateRanges(address: string): (r: seq<Cell>)
    ensures |r| == 8
  {
    match Bounds(address)
    case Some((lower, upper)) => if |lower| == 4 && |upper| == 4 then Cells(lower) + Cells(upper) else Unknown
    case None => Unknown
  }

  // ---------------------------------------------------------------- properties of calculate_ranges

  /** `str` of an octet is read back by the octet rule. */
  lemma ShowOctet(v: nat)
    requires v < 256
    ensures ParseOctet(Show(v)) == Some(v)
  {
    ParseShow(v);
  }

  /** The decimal pieces of `Format(x)`, which hold no dot, slash or hyphen. */
  lemma FormatPieces(x: nat)
    requires x < TwoTo32
    ensures var o := Octets(x);
      && Split(Format(x), '.') == [Show(o[0]), Show(o[1]), Show(o[2]), Show(o[3])]
      && '/' !in Format(x) && '-' !in Format(x)
  {
    var o := Octets(x);
    var pieces := [Show(o[0]), Show(o[1]), Show(o[2]), Show(o[3])];
    forall k | 0 <= k < 4
      ensures '.' !in pieces[k] && '/' !in pieces[k] && '-' !in pieces[k]
    {
      DigitsAvoid(pieces[k], '.');
      DigitsAvoid(pieces[k], '/');
      DigitsAvoid(pieces[k], '-');
    }
    SplitJoin(pieces, '.');
    JoinAvoids(pieces, '.', '/');
    JoinAvoids(pieces, '.', '-');
  }

  /**
   * Printing an address and reading it back: as an address it is the same
   * number, and read as dot-separated integers it gives its four octets.
   */
  lemma ParseFormat(x: nat)
    requires x < TwoTo32
    ensures ParseAddress(Format(x)) == Some(x)
    ensures ParseAll(Split(Format(x), '.')) == Some(Octets(x))
  {
    var o := Octets(x);
    FormatPieces(x);
    ShowOctet(o[0]);
    ShowOctet(o[1]);
    ShowOctet(o[2]);
    ShowOctet(o[3]);
    ParseShow(o[0]);
    ParseShow(o[1]);
    ParseShow(o[2]);
    ParseShow(o[3]);
    var pieces := [Show(o[0]), Show(o[1]), Show(o[2]), Show(o[3])];
    var r := ParseAll(pieces);
    assert r.Some?;
    assert forall k :: 0 <= k < 4 ==> ParseNat(pieces[k]) == Some(o[k]);
    assert r.value == o;
  }

  /** A printed address holds dots, so it is never read as a decimal prefix length. */
  lemma FormatNotDigits(x: nat)
    requires x < TwoTo32
    ensures !IsDigits(Format(x))
  {
    FormatPieces(x);
    if IsDigits(Format(x)) {
      DigitsAvoid(Format(x), '.');
      SplitWithoutSeparator(Format(x), '.');
    }
  }

  /** A larger exponent gives at least twice the power. */
  lemma {:induction false} Pow2Grows(a: nat, b: nat)
    requires a < b
    ensures 2 * Pow2(a) <= Pow2(b)
    decreases b
  {
    if b > a + 1 {
      Pow2Grows(a, b - 1);
    }
  }

  /** A printed address after `/` is read as a netmask, and failing that as a hostmask. */
  lemma DottedPrefix(m: nat)
    requires m < TwoTo32
    ensures ParsePrefix(Format(m))
         == if NetmaskPrefix(m, 0).Some? then NetmaskPrefix(m, 0) else HostmaskPrefix(m, 0)
  {
    FormatNotDigits(m);
    ParseFormat(m);
  }

  /** Two prefix lengths with the same power 2^(32-p) are equal. */
  lemma SameBlockSize(p: nat, q: nat)
    requires p <= 32 && q <= 32 && Pow2(32 - p) == Pow2(32 - q)
    ensures p == q
  {
    if p < q {
      Pow2Grows(32 - q, 32 - p);
    } else if q < p {
      Pow2Grows(32 - p, 32 - q);
    }
  }

  /** The netmask of each prefix length is found at that length, and no earlier. */
  lemma NetmaskPrefixOf(p: nat)
    requires p <= 32
    ensures NetmaskPrefix(Netmask(p), 0) == Some(p)
  {
    assert 0 <= p <= 32 && Netmask(p) == Netmask(p);
    SameBlockSize(p, NetmaskPrefix(Netmask(p), 0).value);
  }

  /** The hostmask of each prefix length is found at that length, and no earlier. */
  lemma HostmaskPrefixOf(p: nat)
    requires p <= 32
    ensures HostmaskPrefix(Hostmask(p), 0) == Some(p)
  {
    assert 0 <= p <= 32 && Hostmask(p) == Hostmask(p);
    SameBlockSize(p, HostmaskPrefix(Hostmask(p), 0).value);
  }

  /** A printed netmask after `/` reads as its prefix length, for every length from 0 to 32. */
  lemma NetmaskRead(p: nat)
    requires p <= 32
    ensures Netmask(p) < TwoTo32
    ensures ParsePrefix(Format(Netmask(p))) == Some(p)
  {
    NetmaskPrefixOf(p);
    DottedPrefix(Netmask(p));
  }

  /** A hostmask of a length from 1 to 31 is no netmask. */
  lemma HostmaskNotNetmask(p: nat)
    requires 1 <= p <= 31
    ensures 1 <= Hostmask(p) < TwoTo32 / 2
    ensures NetmaskPrefix(Hostmask(p), 0).None?
  {
    Pow2Of32();
    Pow2Grows(32 - p, 32);
    Pow2Grows(0, 32 - p);
    var n := NetmaskPrefix(Hostmask(p), 0);
    if n.Some? && n.value >= 1 {
      Pow2Grows(32 - n.value, 32);
    }
  }

  /**
   * A printed hostmask after `/` reads as its prefix length, for every length
   * from 1 to 31; it is no netmask, so the hostmask reading applies.
   */
  lemma HostmaskRead(p: nat)
    requires 1 <= p <= 31
    ensures Hostmask(p) < TwoTo32
    ensures ParsePrefix(Format(Hostmask(p))) == Some(p)
  {
    HostmaskNotNetmask(p);
    HostmaskPrefixOf(p);
    DottedPrefix(Hostmask(p));
  }

  /**
   * The two masks that are both a netmask and a hostmask read as netmasks:
   * 0.0.0.0 as /0 and 255.255.255.255 as /32.
   */
  lemma ExtremeMasks()
    ensures ParsePrefix(Format(0)) == Some(0)
    ensures ParsePrefix(Format(TwoTo32 - 1)) == Some(32)
  {
    Pow2Of32();
    NetmaskRead(0);
    NetmaskRead(32);
  }

  /**
   * The range test the DNS and ping steps apply: a printed address is a host,
   * while an address with a prefix length and a hyphen range are ranges.
   */
  lemma RangeTest(x: nat, p: nat, lower: seq<string>, upper: seq<string>)
    requires x < TwoTo32
    ensures !IsRange(Format(x))
    ensures IsRange(Format(x) + "/" + Show(p))
    ensures IsRange(RangeText(lower, upper))
  {
    FormatPieces(x);
    assert (Format(x) + "/" + Show(p))[|Format(x)|] == '/';
    assert RangeText(lower, upper)[|Join('.', lower)|] == '-';
  }

  /**
   * The network branch: when `ip_network` accepts the address, the result is the
   * octets of the network address followed by those of the broadcast address;
   * when it rejects it, the result is eight `N/A`.
   */
  lemma CidrRanges(address: string)
    requires '-' !in address
    ensures match ParseNetwork(address)
      case Some(net) =>
        && CalculateRanges(address) == RangesAsWritten(address)
        && CalculateRanges(address) == Cells(Octets(NetworkAddress(net))) + Cells(Octets(Broadcast(net)))
      case None => CalculateRanges(address) == Unknown && RangesAsWritten(address) == Unknown
  {
  }

  /** The ranges of an accepted network address, stated for a known network. */
  lemma NetworkRanges(address: string, net: Network)
    requires '-' !in address && ParseNetwork(address) == Some(net)
    ensures ValidNetwork(net)
    ensures CalculateRanges(address) == Cells(Octets(NetworkAddress(net))) + Cells(Octets(Broadcast(net)))
  {
    CidrRanges(address);
  }

  /** `ip_network` reads a printed address followed by `/` and a decimal prefix length. */
  lemma NetworkOfPrefixedAddress(x: nat, p: nat)
    requires x < TwoTo32 && p <= 32
    ensures '-' !in Format(x) + "/" + Show(p)
    ensures ParseNetwork(Format(x) + "/" + Show(p)) == Some(Network(x, p))
  {
    FormatPieces(x);
    ParseFormat(x);
    ParseShow(p);
    SplitAfterPiece(Format(x), '/', Show(p));
    DigitsAvoid(Show(p), '/');
    DigitsAvoid(Show(p), '-');
    SplitWithoutSeparator(Show(p), '/');
    assert Format(x) + "/" + Show(p) == Format(x) + ['/'] + Show(p);
  }

  /** `ip_network` reads a bare printed address as the /32 network of that address. */
  lemma NetworkOfBareAddress(x: nat)
    requires x < TwoTo32
    ensures '-' !in Format(x)
    ensures ParseNetwork(Format(x)) == Some(Network(x, 32))
  {
    FormatPieces(x);
    ParseFormat(x);
    SplitWithoutSeparator(Format(x), '/');
  }

  /** A bare address decomposes into its own four octets, twice. */
  lemma BareHostRanges(o: seq<nat>)
    requires |o| == 4 && forall k :: 0 <= k < 4 ==> o[k] < 256
    ensures CalculateRanges(Format(FromOctets(o))) == Cells(o) + Cells(o)
  {
    OctetsOfFromOctets(o);
    var x := FromOctets(o);
    NetworkOfBareAddress(x);
    var net := Network(x, 32);
    NetworkRanges(Format(x), net);
    assert Pow2(0) == 1;
    assert NetworkAddress(net) == x;
    assert Broadcast(net) == x;
  }

  /** The octets of a network's first address followed by those of its last address. */
  function NetworkCells(net: Network): (cells: seq<Cell>)
    requires ValidNetwork(net)
    ensures |cells| == 8
  {
    Cells(Octets(NetworkAddress(net))) + Cells(Octets(Broadcast(net)))
  }

  /**
   * A printed address with a decimal prefix length spans the first to the last
   * address of its block: the address with its host bits cleared, then set.
   */
  lemma PrefixedRanges(x: nat, p: nat)
    requires x < TwoTo32 && p <= 32
    ensures CalculateRanges(Format(x) + "/" + Show(p)) == NetworkCells(Network(x, p))
  {
    NetworkOfPrefixedAddress(x, p);
    NetworkRanges(Format(x) + "/" + Show(p), Network(x, p));
  }

  /**
   * Host bits are tolerated (`strict=False`): an address with a prefix
   * decomposes exactly as the network address of its block with that prefix.
   */
  lemma HostBitsTolerated(x: nat, p: nat)
    requires x < TwoTo32 && p <= 32
    ensures var n := NetworkAddress(Network(x, p));
      CalculateRanges(Format(x) + "/" + Show(p)) == CalculateRanges(Format(n) + "/" + Show(p))
  {
    var n := NetworkAddress(Network(x, p));
    PrefixedRanges(x, p);
    PrefixedRanges(n, p);
    AlignedAddressKept(n, p);
    SameBlockSameCells(Network(x, p), Network(n, p));
  }

  /** Two networks with the same network address and prefix length span the same addresses. */
  lemma SameBlockSameCells(a: Network, b: Network)
    requires ValidNetwork(a) && ValidNetwork(b)
    requires a.prefixLen == b.prefixLen && NetworkAddress(a) == NetworkAddress(b)
    ensures NetworkCells(a) == NetworkCells(b)
  {
    assert Broadcast(a) == NetworkAddress(a) + Pow2(32 - a.prefixLen) - 1;
    assert Broadcast(b) == NetworkAddress(b) + Pow2(32 - b.prefixLen) - 1;
  }

  /** An address whose host bits are already clear is its own network address. */
  lemma AlignedAddressKept(n: nat, p: nat)
    requires n < TwoTo32 && p <= 32 && n % Pow2(32 - p) == 0
    ensures NetworkAddress(Network(n, p)) == n
  {
  }

  /** The dotted text of the address 10.0.0.0. */
  lemma FormatTen()
    ensures 167772160 < TwoTo32
    ensures Octets(167772160) == [10, 0, 0, 0]
    ensures Format(167772160) + "/" + Show(24) == "10.0.0.0/24"
  {
    assert Octets(167772160) == [10, 0, 0, 0];
    assert Show(10) == "10" && Show(0) == "0" && Show(24) == "24";
    assert Join('.', ["10", "0", "0", "0"]) == "10.0.0.0";
  }

  /** The block of 10.0.0.0/24 runs from 10.0.0.0 to 10.0.0.255. */
  lemma BlockOfTen()
    ensures NetworkAddress(Network(167772160, 24)) == 167772160
    ensures Broadcast(Network(167772160, 24)) == 167772415
  {
    assert Pow2(8) == 256 by {
      Pow2Add(4, 4);
      assert Pow2(4) == 16 by { assert Pow2(2) == 4; }
    }
  }

  /** An example: 10.0.0.0/24 spans 10.0.0.0 to 10.0.0.255. */
  lemma TenSlash24(address: string)
    requires address == "10.0.0.0/24"
    ensures CalculateRanges(address) == [Num(10), Num(0), Num(0), Num(0), Num(10), Num(0), Num(0), Num(255)]
  {
    FormatTen();
    BlockOfTen();
    PrefixedRanges(167772160, 24);
    assert Octets(167772415) == [10, 0, 0, 255];
  }

  /** A range whose halves are dot-separated digit strings. */
  function RangeText(lower: seq<string>, upper: seq<string>): string
  {
    Join('.', lower) + "-" + Join('.', upper)
  }

  /**
   * The hyphen branch: the integers of both halves, verbatim and unordered.
   * As written any number of integers per half passes; with the four-octet
   * check only two quads give integers, anything else gives eight `N/A`.
   */
  lemma HyphenRanges(lower: seq<string>, upper: seq<string>)
    requires |lower| >= 1 && |upper| >= 1
    requires forall k :: 0 <= k < |lower| ==> IsDigits(lower[k])
    requires forall k :: 0 <= k < |upper| ==> IsDigits(upper[k])
    ensures var lo, hi := ParseAll(lower).value, ParseAll(upper).value;
      && RangesAsWritten(RangeText(lower, upper)) == Cells(lo) + Cells(hi)
      && CalculateRanges(RangeText(lower, upper))
         == if |lower| == 4 && |upper| == 4 then Cells(lo) + Cells(hi) else Unknown
  {
    forall k | 0 <= k < |lower|
      ensures '.' !in lower[k] && '-' !in lower[k]
    {
      DigitsAvoid(lower[k], '.');
      DigitsAvoid(lower[k], '-');
    }
    forall k | 0 <= k < |upper|
      ensures '.' !in upper[k] && '-' !in upper[k]
    {
      DigitsAvoid(upper[k], '.');
      DigitsAvoid(upper[k], '-');
    }
    RangeTextSplits(lower, upper);
  }

  /** A range text splits back into its two halves, and each half into its pieces. */
  lemma RangeTextSplits(lower: seq<string>, upper: seq<string>)
    requires |lower| >= 1 && |upper| >= 1
    requires forall k :: 0 <= k < |lower| ==> '.' !in lower[k] && '-' !in lower[k]
    requires forall k :: 0 <= k < |upper| ==> '.' !in upper[k] && '-' !in upper[k]
    ensures '-' in RangeText(lower, upper)
    ensures Split(RangeText(lower, upper), '-') == [Join('.', lower), Join('.', upper)]
    ensures Split(Join('.', lower), '.') == lower && Split(Join('.', upper), '.') == upper
  {
    JoinAvoids(lower, '.', '-');
    JoinAvoids(upper, '.', '-');
    var text := RangeText(lower, upper);
    assert text == Join('.', lower) + ['-'] + Join('.', upper);
    SplitAfterPiece(Join('.', lower), '-', Join('.', upper));
    SplitWithoutSeparator(Join('.', upper), '-');
    SplitJoin(lower, '.');
    SplitJoin(upper, '.');
    assert text[|Join('.', lower)|] == '-';
  }

  /**
   * A range with exactly one hyphen whose halves hold a piece that `int()`
   * rejects (an empty piece, a letter, a sign) gives eight `N/A`.
   */
  lemma HyphenRejected(lower: seq<string>, upper: seq<string>)
    requires |lower| >= 1 && |upper| >= 1
    requires forall k :: 0 <= k < |lower| ==> '.' !in lower[k] && '-' !in lower[k]
    requires forall k :: 0 <= k < |upper| ==> '.' !in upper[k] && '-' !in upper[k]
    requires (exists k :: 0 <= k < |lower| && !IsDigits(lower[k])) || (exists k :: 0 <= k < |upper| && !IsDigits(upper[k]))
    ensures RangesAsWritten(RangeText(lower, upper)) == Unknown
    ensures CalculateRanges(RangeText(lower, upper)) == Unknown
  {
    RangeTextSplits(lower, upper);
  }

  /**
   * Conversely, a hyphenated address gives integers only when it is two
   * dot-separated lists of digit strings around its one hyphen; for the
   * corrected decomposition, two lists of four.
   */
  lemma HyphenAccepted(address: string)
    requires '-' in address
    ensures RangesAsWritten(address) != Unknown ==> exists lower, upper ::
      && |lower| >= 1 && |upper| >= 1
      && (forall k :: 0 <= k < |lower| ==> IsDigits(lower[k]))
      && (forall k :: 0 <= k < |upper| ==> IsDigits(upper[k]))
      && address == RangeText(lower, upper)
    ensures CalculateRanges(address) != Unknown ==> exists lower, upper ::
      && |lower| == 4 && |upper| == 4
      && (forall k :: 0 <= k < 4 ==> IsDigits(lower[k]) && IsDigits(upper[k]))
      && address == RangeText(lower, upper)
  {
    if HyphenBounds(address).Some? {
      var halves := Split(address, '-');
      HalvesText(address);
      var lower, upper := Split(halves[0], '.'), Split(halves[1], '.');
      assert address == RangeText(lower, upper);
    }
  }

  /** An address with one hyphen is the range text of the dot-separated pieces of its halves. */
  lemma HalvesText(address: string)
    requires |Split(address, '-')| == 2
    ensures var halves := Split(address, '-');
      address == RangeText(Split(halves[0], '.'), Split(halves[1], '.'))
  {
    var halves := Split(address, '-');
    JoinSplit(halves[0], '.');
    JoinSplit(halves[1], '.');
    JoinSplit(address, '-');
    assert halves == [halves[0]] + [halves[1]];
    JoinCons(halves[0], [halves[1]], '-');
  }

  /** "-1.2.3.4", whose lower half is empty, gives eight `N/A`. */
  lemma EmptyLowerHalf(address: string)
    requires address == "-1.2.3.4"
    ensures CalculateRanges(address) == Unknown && RangesAsWritten(address) == Unknown
  {
    var quad := ["1", "2", "3", "4"];
    assert Join('.', quad) == "1.2.3.4";
    assert address == RangeText([""], quad);
    HyphenRejected([""], quad);
  }

  /** "1.2.x.4-5.6.7.8", whose lower half holds a letter, gives eight `N/A`. */
  lemma LetterInRange(address: string)
    requires address == "1.2.x.4-5.6.7.8"
    ensures CalculateRanges(address) == Unknown && RangesAsWritten(address) == Unknown
  {
    var bad, quad := ["1", "2", "x", "4"], ["5", "6", "7", "8"];
    assert Join('.', bad) == "1.2.x.4";
    assert Join('.', quad) == "5.6.7.8";
    assert address == RangeText(bad, quad);
    assert bad[2][0] == 'x';
    HyphenRejected(bad, quad);
  }

  /** An address with two or more hyphens cannot be unpacked into two halves: eight `N/A`. */
  lemma ManyHyphens(address: string)
    requires Count(address, '-') >= 2
    ensures CalculateRanges(address) == Unknown
    ensures RangesAsWritten(address) == Unknown
  {
    SplitCount(address, '-');
    if '-' !in address {
      CountAbsent(address, '-');
    }
  }

  /** "not-an-ip" has two hyphens, so it gives eight `N/A` and is kept as a row like any other. */
  lemma NotAnIp(address: string)
    requires address == "not-an-ip"
    ensures CalculateRanges(address) == Unknown
  {
    assert address == "not" + ['-'] + ("an" + ['-'] + "ip");
    SplitAfterPiece("an", '-', "ip");
    SplitWithoutSeparator("ip", '-');
    SplitAfterPiece("not", '-', "an" + ['-'] + "ip");
    SplitCount(address, '-');
    ManyHyphens(address);
  }

  /** An address with fewer than three dots, such as any IPv6 form, gives eight `N/A`. */
  lemma TooFewDots(address: string)
    requires '-' !in address && Count(address, '.') < 3
    ensures CalculateRanges(address) == Unknown
  {
    var pieces := Split(address, '/');
    SplitFirstIsPrefix(address, '/');
    CountPrefix(pieces[0], address, '.');
    SplitCount(pieces[0], '.');
    CidrRanges(address);
  }

  /** The IPv6 network 2001:db8::/32 gives eight `N/A`. */
  lemma Ipv6Network(address: string)
    requires address == "2001:db8::/32"
    ensures CalculateRanges(address) == Unknown
  {
    assert '.' !in address && '-' !in address by {
      assert forall k :: 0 <= k < |address| ==> address[k] != '.' && address[k] != '-';
    }
    CountAbsent(address, '.');
    TooFewDots(address);
  }

  /**
   * Any range written as two printed quads of integers, in either order, gives
   * those eight integers: the lower quad, then the upper quad.
   */
  lemma QuadRange(lo: seq<nat>, hi: seq<nat>)
    requires |lo| == 4 && |hi| == 4
    ensures CalculateRanges(RangeText(ShowAll(lo), ShowAll(hi))) == Cells(lo) + Cells(hi)
  {
    ShownRange(lo, hi);
  }

  /**
   * A range written as two printed lists of integers: as written it gives all
   * of them, lower list first; the corrected decomposition keeps them only
   * when both lists hold four.
   */
  lemma ShownRange(lo: seq<nat>, hi: seq<nat>)
    requires |lo| >= 1 && |hi| >= 1
    ensures RangesAsWritten(RangeText(ShowAll(lo), ShowAll(hi))) == Cells(lo) + Cells(hi)
    ensures CalculateRanges(RangeText(ShowAll(lo), ShowAll(hi)))
         == if |lo| == 4 && |hi| == 4 then Cells(lo) + Cells(hi) else Unknown
  {
    ParseAllShows(lo);
    ParseAllShows(hi);
    HyphenRanges(ShowAll(lo), ShowAll(hi));
  }

  /**
   * Halves of three and five integers, 1.2.3-4.5.6.7.8: as written the eight
   * integers fill the eight columns, though the halves are not two addresses;
   * the corrected decomposition gives eight `N/A`.
   */
  lemma EightAcrossHalves(lo: seq<nat>, hi: seq<nat>)
    requires lo == [1, 2, 3] && hi == [4, 5, 6, 7, 8]
    ensures var r := RangesAsWritten(RangeText(ShowAll(lo), ShowAll(hi)));
      |r| == 8 && r == Cells(lo) + Cells(hi)
    ensures CalculateRanges(RangeText(ShowAll(lo), ShowAll(hi))) == Unknown
  {
    ShownRange(lo, hi);
  }

  /**
   * A reversed range is kept as given, not swapped: 10.0.0.9-10.0.0.5 gives
   * 9 as the last lower integer and 5 as the last upper one.
   */
  lemma ReversedRangeKept(lo: seq<nat>, hi: seq<nat>)
    requires lo == [10, 0, 0, 9] && hi == [10, 0, 0, 5]
    ensures var r := CalculateRanges(RangeText(ShowAll(lo), ShowAll(hi)));
      r[3] == Num(9) && r[7] == Num(5)
  {
    QuadRange(lo, hi);
    assert Cells(lo)[3] == Num(9) && Cells(hi)[3] == Num(5);
  }

  /**
   * As written, a range whose halves do not hold four integers each yields a
   * list of another length: "1.2.3-4.5.6.7" gives seven values, which the eight
   * columns cannot take. The corrected decomposition gives eight `N/A`.
   */
  lemma UnevenRangeAsWritten(address: string)
    requires address == "1.2.3-4.5.6.7"
    ensures |RangesAsWritten(address)| == 7
    ensures CalculateRanges(address) == Unknown
  {
    var lower, upper := ["1", "2", "3"], ["4", "5", "6", "7"];
    assert Join('.', lower) == "1.2.3" && Join('.', upper) == "4.5.6.7";
    assert RangeText(lower, upper) == address;
    HyphenRanges(lower, upper);
  }

  /** Stores eight values into the eight columns, position by position; no other column changes. */
  function StoreRanges(r: Row, cells: seq<Cell>): (s: Row)
    requires |cells| == 8
    ensures [s.netIPOct1L, s.netIPOct1U, s.netIPOct2L, s.netIPOct2U,
             s.netIPOct3L, s.netIPOct3U, s.netIPOct4L, s.netIPOct4U] == cells
    ensures s.(netIPOct1L := r.netIPOct1L, netIPOct1U := r.netIPOct1U, netIPOct2L := r.netIPOct2L,
               netIPOct2U := r.netIPOct2U, netIPOct3L := r.netIPOct3L, netIPOct3U := r.netIPOct3U,
               netIPOct4L := r.netIPOct4L, netIPOct4U := r.netIPOct4U) == r
  {
    r.(netIPOct1L := cells[0], netIPOct1U := cells[1], netIPOct2L := cells[2], netIPOct2U := cells[3],
       netIPOct3L := cells[4], netIPOct3U := cells[5], netIPOct4L := cells[6], netIPOct4U := cells[7])
  }

  /**
   * The column layout: the four lower integers go to `netIPOct1L, netIPOct1U,
   * netIPOct2L, netIPOct2U` and the four upper integers to `netIPOct3L,
   * netIPOct3U, netIPOct4L, netIPOct4U`; every other column keeps its value.
   */
  lemma ColumnLayout(r: Row, address: string)
    ensures var s := StoreRanges(r, CalculateRanges(address));
      && s.(netIPOct1L := r.netIPOct1L, netIPOct1U := r.netIPOct1U, netIPOct2L := r.netIPOct2L,
            netIPOct2U := r.netIPOct2U, netIPOct3L := r.netIPOct3L, netIPOct3U := r.netIPOct3U,
            netIPOct4L := r.netIPOct4L, netIPOct4U := r.netIPOct4U) == r
      && match Bounds(address)
         case Some((lo, hi)) =>
           if |lo| == 4 && |hi| == 4 then
             && [s.netIPOct1L, s.netIPOct1U, s.netIPOct2L, s.netIPOct2U] == Cells(lo)
             && [s.netIPOct3L, s.netIPOct3U, s.netIPOct4L, s.netIPOct4U] == Cells(hi)
           else
             s.netIPOct1L == s.netIPOct1U == s.netIPOct2L == s.netIPOct2U == NA
             && s.netIPOct3L == s.netIPOct3U == s.netIPOct4L == s.netIPOct4U == NA
         case None =>
           s.netIPOct1L == s.netIPOct1U == s.netIPOct2L == s.netIPOct2U == NA
           && s.netIPOct3L == s.netIPOct3U == s.netIPOct4L == s.netIPOct4U == NA
  {
    var cells := CalculateRanges(address);
    match Bounds(address)
    case Some((lo, hi)) =>
      if |lo| == 4 && |hi| == 4 {
        assert cells == Cells(lo) + Cells(hi);
      } else {
        assert cells == Unknown;
      }
    case None =>
      assert cells == Unknown;
  }

  /**
   * For 10.0.0.0/24 the column `netIPOct1U` holds the second lower octet (0),
   * `netIPOct3L` the first upper octet (10) and `netIPOct4U` the last upper octet (255).
   */
  lemma TenSlash24Columns(r: Row, address: string)
    requires address == "10.0.0.0/24"
    ensures var s := StoreRanges(r, CalculateRanges(address));
      && s.netIPOct1L == Num(10) && s.netIPOct1U == Num(0)
      && s.netIPOct2L == Num(0) && s.netIPOct2U == Num(0)
      && s.netIPOct3L == Num(10) && s.netIPOct3U == Num(0)
      && s.netIPOct4L == Num(0) && s.netIPOct4U == Num(255)
  {
    TenSlash24(address);
  }

  /** One row after `calculate_subnets`: its octet columns filled from its own address. */
  function SubnetRow(r: Row): (s: Row)
    ensures s.netAddress == r.netAddress
  {
    StoreRanges(r, CalculateRanges(r.netAddress))
  }

  /** Filling a row's octet columns again gives the same row: the address is never written. */
  lemma SubnetRowIdempotent(r: Row)
    ensures SubnetRow(SubnetRow(r)) == SubnetRow(r)
  {
  }

  /** `calculate_subnets`: fills the eight columns of every row, in place. */
  method CalculateSubnets(table: array<Row>)
    modifies table
    ensures forall k :: 0 <= k < table.Length ==> table[k] == SubnetRow(old(table[k]))
  {
    for k := 0 to table.Length
      invariant forall m :: 0 <= m < k ==> table[m] == SubnetRow(old(table[m]))
      invariant forall m :: k <= m < table.Length ==> table[m] == old(table[m])
    {
      table[k] := SubnetRow(table[k]);
    }
  }
}
