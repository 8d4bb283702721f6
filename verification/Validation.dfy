/**
 * IPv4 addresses, CIDR networks and the scope gates
 * (app/core/validation.py over Python's `ipaddress`).
 */
module Validation {
  import opened Wrappers
  import opened Decimal
  import opened Texts

  type Address = a: nat | a < 0x1_0000_0000

  const SPACE: nat := 0x1_0000_0000

  function PowerOfTwo(k: nat): (n: nat)
    ensures n >= 1
  {
    if k == 0 then 1 else 2 * PowerOfTwo(k - 1)
  }

  lemma {:induction false} PowerAdd(a: nat, b: nat)
    ensures PowerOfTwo(a + b) == PowerOfTwo(a) * PowerOfTwo(b)
  {
    if a != 0 {
      PowerAdd(a - 1, b);
      assert 2 * (PowerOfTwo(a - 1) * PowerOfTwo(b)) == (2 * PowerOfTwo(a - 1)) * PowerOfTwo(b);
    }
  }

  /** How many addresses a prefix of this length covers. */
  function Size(prefix: nat): (n: nat)
    requires prefix <= 32
    ensures n >= 1
  {
    PowerOfTwo(32 - prefix)
  }

  lemma SizeDividesSpace(prefix: nat)
    requires prefix <= 32
    ensures Size(prefix) * PowerOfTwo(prefix) == SPACE
  {
    PowerAdd(32 - prefix, prefix);
    CommonSizes();
  }

  lemma CommonSizes()
    ensures Size(0) == SPACE && Size(4) == 0x1000_0000 && Size(8) == 0x100_0000
    ensures Size(10) == 0x40_0000 && Size(12) == 0x10_0000 && Size(16) == 0x1_0000
  {
    assert PowerOfTwo(4) == 16;
    PowerAdd(4, 4);
    PowerAdd(8, 8);
    PowerAdd(16, 4);
    PowerAdd(16, 8);
    PowerAdd(24, 4);
    PowerAdd(16, 16);
    assert PowerOfTwo(22) == 4 * PowerOfTwo(20);
  }

  // ---------------------------------------------------------------- networks

  datatype Network = Network(base: Address, prefix: nat) {
    /** No host bits set. */
    predicate Canonical() {
      prefix <= 32 && base % Size(prefix) == 0
    }
  }

  type Cidr = n: Network | n.Canonical() witness Network(0, 32)

  function Last(n: Cidr): (a: Address)
    ensures a == n.base + Size(n.prefix) - 1
  {
    LastFits(n);
    n.base + Size(n.prefix) - 1
  }

  lemma LastFits(n: Network)
    requires n.Canonical()
    ensures n.base + Size(n.prefix) <= SPACE
  {
    SizeDividesSpace(n.prefix);
    AlignedRunFits(n.base, Size(n.prefix), PowerOfTwo(n.prefix));
  }

  lemma AlignedRunFits(base: nat, size: nat, count: nat)
    requires size > 0 && base % size == 0 && base < size * count
    ensures base + size <= size * count
  {
    var q := base / size;
    assert base == size * q;
    if q >= count {
      MulMonotone(count, q, size);
    } else {
      MulMonotone(q + 1, count, size);
    }
  }

  lemma MulMonotone(a: nat, b: nat, c: nat)
    requires a <= b
    ensures c * a <= c * b
  {
  }

  /** `address in network`. */
  predicate Contains(n: Cidr, a: Address) {
    n.base <= a <= Last(n)
  }

  /** `a.subnet_of(b)`. */
  predicate SubnetOf(a: Cidr, b: Cidr) {
    b.base <= a.base && Last(a) <= Last(b)
  }

  /** `a.overlaps(b)`: one network holds an end of the other. */
  predicate Overlaps(a: Cidr, b: Cidr) {
    Contains(a, b.base) || Contains(a, Last(b)) || Contains(b, a.base) || Contains(b, Last(a))
  }

  lemma SubnetMeansEveryAddress(a: Cidr, b: Cidr)
    ensures SubnetOf(a, b) <==> forall x: Address :: Contains(a, x) ==> Contains(b, x)
  {
    if forall x: Address :: Contains(a, x) ==> Contains(b, x) {
      assert Contains(a, a.base) && Contains(a, Last(a));
    }
  }

  lemma OverlapMeansSharedAddress(a: Cidr, b: Cidr)
    ensures Overlaps(a, b) <==> exists x: Address :: Contains(a, x) && Contains(b, x)
  {
    assert Contains(a, a.base) && Contains(a, Last(a)) && Contains(b, b.base) && Contains(b, Last(b));
  }

  /** The addresses of a network: there are `num_addresses` of them. */
  function Addresses(n: Cidr): set<Address> {
    set a: Address | Contains(n, a)
  }

  predicate InRun(from: nat, count: nat, a: Address) {
    from <= a < from + count
  }

  function Run(from: nat, count: nat): set<Address> {
    set a: Address | InRun(from, count, a)
  }

  lemma {:induction false} RunLength(from: nat, count: nat)
    requires from + count <= SPACE
    ensures |Run(from, count)| == count
  {
    if count == 0 {
      assert Run(from, 0) == {};
    } else {
      RunLength(from, count - 1);
      var last: Address := from + count - 1;
      assert Run(from, count) == Run(from, count - 1) + {last};
    }
  }

  lemma AddressCount(n: Cidr)
    ensures |Addresses(n)| == Size(n.prefix)
  {
    LastFits(n);
    RunLength(n.base, Size(n.prefix));
    assert Addresses(n) == Run(n.base, Size(n.prefix));
  }

  // ---------------------------------------------------------------- parsing

  function ParseOctet(s: string): (r: Option<nat>)
    ensures r.Some? ==> r.value < 256
  {
    if s == "" || !AllDigits(s) || |s| > 3 || (s != "0" && s[0] == '0') || Value(s) > 255 then None
    else Some(Value(s))
  }

  function FromOctets(a: nat, b: nat, c: nat, d: nat): Address
    requires a < 256 && b < 256 && c < 256 && d < 256
  {
    a * 0x100_0000 + b * 0x1_0000 + c * 0x100 + d
  }

  /** `ipaddress.IPv4Address(s)`; anything else, IPv6 included, is None. */
  function ParseAddress(s: string): Option<Address> {
    var parts := SplitOn(s, '.');
    if |parts| != 4 then None
    else
      match (ParseOctet(parts[0]), ParseOctet(parts[1]), ParseOctet(parts[2]), ParseOctet(parts[3]))
      case (Some(a), Some(b), Some(c), Some(d)) => Some(FromOctets(a, b, c, d))
      case _ => None
  }

  function Octets(a: Address): (parts: seq<string>)
    ensures |parts| == 4
  {
    var high, low := a / 0x1_0000, a % 0x1_0000;
    [Print(high / 0x100), Print(high % 0x100), Print(low / 0x100), Print(low % 0x100)]
  }

  function PrintAddress(a: Address): string {
    Join(Octets(a), ".")
  }

  lemma ParsePrintedOctet(n: nat)
    requires n < 256
    ensures ParseOctet(Print(n)) == Some(n)
  {
    ReadPrinted(n);
    PrintedLength(n);
  }

  lemma SplitPrintedAddress(a: Address)
    ensures SplitOn(PrintAddress(a), '.') == Octets(a)
  {
    var parts := Octets(a);
    forall i | 0 <= i < 4 ensures '.' !in parts[i] {
      assert parts[i] in [parts[0], parts[1], parts[2], parts[3]];
    }
    SplitJoin(parts, '.');
    assert ['.'] == ".";
  }

  lemma ParsePrintedAddress(a: Address)
    ensures ParseAddress(PrintAddress(a)) == Some(a)
  {
    SplitPrintedAddress(a);
    var high, low := a / 0x1_0000, a % 0x1_0000;
    ParsePrintedOctet(high / 0x100);
    ParsePrintedOctet(high % 0x100);
    ParsePrintedOctet(low / 0x100);
    ParsePrintedOctet(low % 0x100);
  }

  /** The prefix length `p` with `v == 255...0` (`inverted`: `0...255`), the shortest first. */
  function PrefixOfMask(v: Address, inverted: bool, from: nat): (r: Option<nat>)
    requires from <= 32
    ensures r.Some? ==> r.value <= 32
    decreases 32 - from
  {
    if v == (if inverted then Size(from) - 1 else SPACE - Size(from)) then Some(from)
    else if from == 32 then None
    else PrefixOfMask(v, inverted, from + 1)
  }

  /** A prefix length, a netmask or a hostmask, tried in that order. */
  function ParsePrefix(s: string): (r: Option<nat>)
    ensures r.Some? ==> r.value <= 32
  {
    if s != "" && AllDigits(s) && Value(s) <= 32 then Some(Value(s))
    else
      match ParseAddress(s)
      case None => None
      case Some(v) =>
        var netmask := PrefixOfMask(v, false, 0);
        if netmask.Some? then netmask else PrefixOfMask(v, true, 0)
  }

  /** Address and prefix length before host bits are looked at; no `/` means a /32. */
  function ParseParts(s: string): (r: Option<(Address, nat)>)
    ensures r.Some? ==> r.value.1 <= 32
  {
    var parts := SplitOn(s, '/');
    if |parts| > 2 then None
    else
      match (ParseAddress(parts[0]), if |parts| == 2 then ParsePrefix(parts[1]) else Some(32))
      case (Some(a), Some(p)) => Some((a, p))
      case _ => None
  }

  function Mask(a: Address, prefix: nat): (n: Cidr)
    requires prefix <= 32
    ensures n.prefix == prefix && Contains(n, a)
  {
    AlignDown(a, Size(prefix));
    Network(a - a % Size(prefix), prefix)
  }

  lemma AlignDown(a: nat, size: nat)
    requires size > 0
    ensures a % size <= a && a < a - a % size + size
    ensures (a - a % size) % size == 0
  {
    var q := a / size;
    assert a == size * q + a % size;
    MultipleHasNoRemainder(q, size);
  }

  lemma MultipleHasNoRemainder(q: nat, d: nat)
    requires d > 0
    ensures (d * q) % d == 0
  {
    var k, r := (d * q) / d, (d * q) % d;
    assert d * q == d * k + r;
    assert d * (q - k) == r;
    if q > k {
      MulMonotone(1, q - k, d);
    } else if q < k {
      MulMonotone(1, k - q, d);
    }
  }

  /** `ipaddress.ip_network(s, strict=False)` for IPv4. */
  function ParseLoose(s: string): Option<Cidr> {
    match ParseParts(s)
    case Some((a, p)) => Some(Mask(a, p))
    case None => None
  }

  datatype Refusal =
    | Empty
    | MissingPrefix
    | Invalid
    | HostBits(suggestion: Cidr)
    | Reserved
    | NotPrivate
    | OutOfScope
    | TooLarge(addresses: nat)

  /** `parse_ipv4_network(value)` with its default `strict=True`. */
  function ParseNetwork(value: string): Result<Cidr, Refusal> {
    var candidate := Strip(value);
    if candidate == "" then Failure(Empty)
    else if '/' !in candidate then Failure(MissingPrefix)
    else
      match ParseParts(candidate)
      case None => Failure(Invalid)
      case Some((a, p)) =>
        var network := Mask(a, p);
        if network.base != a then Failure(HostBits(network)) else Success(network)
  }

  /** `str(network)`. */
  function PrintNetwork(n: Cidr): string {
    PrintAddress(n.base) + "/" + Print(n.prefix)
  }

  lemma CharsOfAddress(a: Address, c: char)
    requires c in PrintAddress(a)
    ensures IsDigit(c) || c == '.'
  {
    CharsOfJoin(Octets(a), ".", c);
    if c != '.' {
      var i :| 0 <= i < 4 && c in Octets(a)[i];
      assert Octets(a)[i] in [Octets(a)[0], Octets(a)[1], Octets(a)[2], Octets(a)[3]];
    }
  }

  lemma CharsOfNetwork(n: Cidr)
    ensures PrintNetwork(n) != ""
    ensures forall i :: 0 <= i < |PrintNetwork(n)| ==>
      IsDigit(PrintNetwork(n)[i]) || PrintNetwork(n)[i] == '.' || PrintNetwork(n)[i] == '/'
  {
    forall c | c in PrintAddress(n.base) ensures IsDigit(c) || c == '.' {
      CharsOfAddress(n.base, c);
    }
  }

  lemma SplitPrintedNetwork(n: Cidr)
    ensures ParseParts(PrintNetwork(n)) == Some((n.base, n.prefix))
  {
    forall c | c in PrintAddress(n.base) ensures c != '/' {
      CharsOfAddress(n.base, c);
    }
    SplitAfterPart(PrintAddress(n.base), Print(n.prefix), '/');
    SplitWithout(Print(n.prefix), '/');
    assert ['/'] == "/";
    ParsePrintedAddress(n.base);
    ReadPrinted(n.prefix);
  }

  lemma CanonicalIsItsOwnMask(n: Cidr)
    ensures Mask(n.base, n.prefix) == n
  {
  }

  /** Printing a network and parsing it again, strictly or not, gives the network back. */
  lemma ParsePrintedNetwork(n: Cidr)
    ensures ParseNetwork(PrintNetwork(n)) == Success(n)
    ensures ParseLoose(PrintNetwork(n)) == Some(n)
  {
    CharsOfNetwork(n);
    var s := PrintNetwork(n);
    assert Strip(s) == s;
    assert s[|PrintAddress(n.base)|] == '/';
    SplitPrintedNetwork(n);
    CanonicalIsItsOwnMask(n);
  }

  lemma PrintedNetworksDiffer(a: Cidr, b: Cidr)
    ensures PrintNetwork(a) == PrintNetwork(b) <==> a == b
  {
    ParsePrintedNetwork(a);
    ParsePrintedNetwork(b);
  }

  // ---------------------------------------------------------------- gates

  function AlwaysBlocked(): seq<Cidr> {
    CommonSizes();
    [Network(0x7F00_0000, 8), Network(0xA9FE_0000, 16), Network(0xE000_0000, 4), Network(0xF000_0000, 4), Network(0, 8)]
  }

  function PrivateRanges(): seq<Cidr> {
    CommonSizes();
    [Network(0x0A00_0000, 8), Network(0xAC10_0000, 12), Network(0xC0A8_0000, 16), Network(0x6440_0000, 10)]
  }

  predicate InAny(a: Address, networks: seq<Cidr>) {
    exists i :: 0 <= i < |networks| && Contains(networks[i], a)
  }

  predicate IsBlocked(a: Address) {
    InAny(a, AlwaysBlocked())
  }

  predicate IsPrivate(a: Address) {
    InAny(a, PrivateRanges())
  }

  predicate NetworkInAllowlist(n: Cidr, allowed: seq<Cidr>) {
    exists i :: 0 <= i < |allowed| && SubnetOf(n, allowed[i])
  }

  predicate ReservedRange(n: Cidr) {
    exists i :: 0 <= i < |AlwaysBlocked()| && (SubnetOf(n, AlwaysBlocked()[i]) || Overlaps(n, AlwaysBlocked()[i]))
  }

  function CheckAllowed(network: Cidr): (r: Result<Cidr, Refusal>)
    ensures r.Success? ==> r.value == network && !ReservedRange(network) && NetworkInAllowlist(network, PrivateRanges())
  {
    if ReservedRange(network) then Failure(Reserved)
    else if !NetworkInAllowlist(network, PrivateRanges()) then Failure(NotPrivate)
    else Success(network)
  }

  /** `validate_allowed_cidr`. */
  function ValidateAllowedCidr(value: string): Result<Cidr, Refusal> {
    var network :- ParseNetwork(value);
    CheckAllowed(network)
  }

  /** `validate_scan_target`. */
  function ValidateScanTarget(value: string, allowed: seq<Cidr>, maxHosts: nat): Result<Cidr, Refusal> {
    var network :- ParseNetwork(value);
    if !NetworkInAllowlist(network, allowed) then Failure(OutOfScope)
    else if Size(network.prefix) > maxHosts then Failure(TooLarge(Size(network.prefix)))
    else Success(network)
  }

  /** What the allowlist gate lets through: wholly private, nothing reserved. */
  ghost predicate SafeRange(n: Cidr) {
    forall a: Address :: Contains(n, a) ==> IsPrivate(a) && !IsBlocked(a)
  }

  lemma CheckedIsSafe(n: Cidr)
    requires CheckAllowed(n).Success?
    ensures SafeRange(n)
  {
    forall a: Address | Contains(n, a) ensures IsPrivate(a) && !IsBlocked(a) {
      var i :| 0 <= i < |PrivateRanges()| && SubnetOf(n, PrivateRanges()[i]);
      assert Contains(PrivateRanges()[i], a);
      forall j | 0 <= j < |AlwaysBlocked()| ensures !Contains(AlwaysBlocked()[j], a) {
        OverlapMeansSharedAddress(n, AlwaysBlocked()[j]);
      }
    }
  }

  /**
   * The three gates compose: a scan target is accepted exactly when it parses to a network
   * whose every address lies in one allowlist entry and whose addresses are few enough.
   */
  lemma ScanTargetAcceptedIff(value: string, allowed: seq<Cidr>, maxHosts: nat, n: Cidr)
    ensures ValidateScanTarget(value, allowed, maxHosts) == Success(n) <==>
      && ParseNetwork(value) == Success(n)
      && (exists i :: 0 <= i < |allowed| && Addresses(n) <= Addresses(allowed[i]))
      && |Addresses(n)| <= maxHosts
  {
    AddressCount(n);
    forall i | 0 <= i < |allowed| ensures SubnetOf(n, allowed[i]) <==> Addresses(n) <= Addresses(allowed[i]) {
      SubnetMeansEveryAddress(n, allowed[i]);
      assert Addresses(n) <= Addresses(allowed[i]) <==>
        forall x: Address :: Contains(n, x) ==> Contains(allowed[i], x) by {
        assert forall x: Address :: x in Addresses(n) <==> Contains(n, x);
        assert forall x: Address :: x in Addresses(allowed[i]) <==> Contains(allowed[i], x);
      }
    }
  }

  ghost predicate InScope(n: Cidr, allowed: seq<Cidr>, maxHosts: nat) {
    && |Addresses(n)| <= maxHosts
    && forall a: Address :: Contains(n, a) ==> InAny(a, allowed) && IsPrivate(a) && !IsBlocked(a)
  }

  /** Every address of an accepted scan is allowlisted, private and not reserved. */
  lemma ScanStaysInScope(value: string, allowed: seq<Cidr>, maxHosts: nat, n: Cidr)
    requires forall entry :: entry in allowed ==> SafeRange(entry)
    requires ValidateScanTarget(value, allowed, maxHosts) == Success(n)
    ensures InScope(n, allowed, maxHosts)
  {
    AddressCount(n);
    forall a: Address | Contains(n, a) ensures InAny(a, allowed) && IsPrivate(a) && !IsBlocked(a) {
      var i :| 0 <= i < |allowed| && SubnetOf(n, allowed[i]);
      assert Contains(allowed[i], a);
      assert SafeRange(allowed[i]);
    }
  }
}
