/**
 * Which texts are addresses and networks, and which networks can be managed, in the numbers
 * themselves (app/core/validation.py).
 */
module AddressRanges {
  import opened Wrappers
  import opened Texts
  import opened Decimal
  import opened Validation

  // ---------------------------------------------------------------- addresses

  /** Four decimal numbers without leading zeros, the most significant first. */
  function DottedQuad(a: Address): string {
    Print(a / 0x100_0000) + "." + Print(a / 0x1_0000 % 0x100) + "." + Print(a / 0x100 % 0x100) + "." + Print(a % 0x100)
  }

  lemma {:induction false} CanonicalNumeral(s: string)
    requires s != "" && AllDigits(s) && (s[0] == '0' ==> s == "0")
    ensures Print(Value(s)) == s
  {
    var n := |s| - 1;
    assert s == s[..n] + [s[n]];
    if n == 0 {
      assert s[..0] == "";
    } else {
      CanonicalNumeral(s[..n]);
      NotZero(s[..n]);
    }
  }

  lemma {:induction false} NotZero(s: string)
    requires s != "" && AllDigits(s) && s[0] != '0'
    ensures Value(s) > 0
  {
    if |s| > 1 {
      NotZero(s[..|s| - 1]);
    } else {
      assert s[..0] == "";
    }
  }

  lemma OctetIff(s: string, n: nat)
    ensures ParseOctet(s) == Some(n) <==> n < 256 && s == Print(n)
  {
    if ParseOctet(s) == Some(n) {
      CanonicalNumeral(s);
    }
    if n < 256 {
      ParsePrintedOctet(n);
    }
  }

  lemma {:induction false} JoinSplit(s: string, sep: char)
    ensures Join(SplitOn(s, sep), [sep]) == s
  {
    if s != "" {
      JoinSplit(s[1..], sep);
      var rest := SplitOn(s[1..], sep);
      assert s == [s[0]] + s[1..];
      if s[0] == sep {
        assert ([""] + rest)[1..] == rest;
        assert "" + [sep] + s[1..] == [sep] + s[1..];
      } else {
        assert ([[s[0]] + rest[0]] + rest[1..])[1..] == rest[1..];
        if |rest| > 1 {
          assert [s[0]] + rest[0] + [sep] + Join(rest[1..], [sep]) == [s[0]] + (rest[0] + [sep] + Join(rest[1..], [sep]));
        }
      }
    }
  }

  lemma JoinFour(a: string, b: string, c: string, d: string)
    ensures Join([a, b, c, d], ".") == a + "." + b + "." + c + "." + d
  {
    var three, two := [b, c, d], [c, d];
    assert [a, b, c, d][1..] == three && three[1..] == two && two[1..] == [d];
    assert Join(two, ".") == c + "." + d;
    assert Join(three, ".") == b + "." + (c + "." + d);
    assert a + "." + (b + "." + (c + "." + d)) == a + "." + b + "." + c + "." + d;
  }

  lemma HighAndLow(high: nat, low: nat)
    requires high < 0x1_0000 && low < 0x1_0000
    ensures (high * 0x1_0000 + low) / 0x1_0000 == high && (high * 0x1_0000 + low) % 0x1_0000 == low
  {
  }

  lemma TwoOctets(a: nat, b: nat)
    requires a < 256 && b < 256
    ensures (a * 0x100 + b) / 0x100 == a && (a * 0x100 + b) % 0x100 == b
  {
  }

  lemma OctetsFrom(v: Address, high: nat, low: nat)
    requires v / 0x1_0000 == high && v % 0x1_0000 == low
    ensures Octets(v) == [Print(high / 0x100), Print(high % 0x100), Print(low / 0x100), Print(low % 0x100)]
  {
  }

  lemma OctetsOf(a: nat, b: nat, c: nat, d: nat)
    requires a < 256 && b < 256 && c < 256 && d < 256
    ensures Octets(FromOctets(a, b, c, d)) == [Print(a), Print(b), Print(c), Print(d)]
  {
    var high, low := a * 0x100 + b, c * 0x100 + d;
    TwoOctets(a, b);
    TwoOctets(c, d);
    HighAndLow(high, low);
    OctetsFrom(FromOctets(a, b, c, d), high, low);
  }

  lemma FirstOctet(a: Address)
    ensures a / 0x1_0000 / 0x100 == a / 0x100_0000
  {
  }

  lemma LastOctets(a: Address)
    ensures a % 0x1_0000 / 0x100 == a / 0x100 % 0x100 && a % 0x1_0000 % 0x100 == a % 0x100
  {
    var high, low := a / 0x1_0000, a % 0x1_0000;
    var y, z := low / 0x100, low % 0x100;
    assert a == (high * 0x100 + y) * 0x100 + z;
    assert a / 0x100 == high * 0x100 + y;
  }

  lemma PrintedIsDotted(a: Address)
    ensures PrintAddress(a) == DottedQuad(a)
  {
    var parts := Octets(a);
    assert parts == [parts[0], parts[1], parts[2], parts[3]];
    JoinFour(parts[0], parts[1], parts[2], parts[3]);
    FirstOctet(a);
    LastOctets(a);
  }

  /** A text is an address exactly when it is the address's dotted quad. */
  lemma ParseAddressIff(s: string, a: Address)
    ensures ParseAddress(s) == Some(a) <==> s == DottedQuad(a)
  {
    if ParseAddress(s) == Some(a) {
      var parts := SplitOn(s, '.');
      var w, x, y, z := ParseOctet(parts[0]).value, ParseOctet(parts[1]).value, ParseOctet(parts[2]).value, ParseOctet(parts[3]).value;
      OctetIff(parts[0], w);
      OctetIff(parts[1], x);
      OctetIff(parts[2], y);
      OctetIff(parts[3], z);
      OctetsOf(w, x, y, z);
      assert parts == Octets(a);
      JoinSplit(s, '.');
      assert ['.'] == ".";
    }
    PrintedIsDotted(a);
    ParsePrintedAddress(a);
  }

  // ---------------------------------------------------------------- networks

  lemma {:induction false} LongerIsSmaller(p: nat, q: nat)
    requires p < q <= 32
    ensures Size(q) < Size(p)
  {
    assert Size(q - 1) == 2 * Size(q);
    if p < q - 1 {
      LongerIsSmaller(p, q - 1);
    }
  }

  /** `v` is the mask of prefix length `p`: ones, then zeros; inverted, zeros, then ones. */
  predicate MaskOf(v: Address, inverted: bool, p: nat) {
    p <= 32 && v == if inverted then Size(p) - 1 else SPACE - Size(p)
  }

  /** A netmask, or the inverse of one that is no netmask itself. */
  ghost predicate Masks(v: Address, p: nat) {
    MaskOf(v, false, p) || (MaskOf(v, true, p) && forall q: nat :: !MaskOf(v, false, q))
  }

  lemma {:induction false} PrefixOfMaskIff(v: Address, inverted: bool, from: nat, p: nat)
    requires from <= 32
    ensures PrefixOfMask(v, inverted, from) == Some(p) <==> from <= p && MaskOf(v, inverted, p)
    decreases 32 - from
  {
    if MaskOf(v, inverted, from) {
      if from < p <= 32 {
        LongerIsSmaller(from, p);
      }
    } else if from < 32 {
      PrefixOfMaskIff(v, inverted, from + 1, p);
    }
  }

  /** A prefix length is written as a number up to 32, or as a mask. */
  lemma ParsePrefixIff(s: string, p: nat)
    ensures ParsePrefix(s) == Some(p) <==> p <= 32 && ((s != "" && AllDigits(s) && Value(s) == p) || exists v :: s == DottedQuad(v) && Masks(v, p))
  {
    if s != "" && AllDigits(s) {
      DigitsAreNoAddress(s);
    }
    forall v: Address ensures s == DottedQuad(v) <==> ParseAddress(s) == Some(v) {
      ParseAddressIff(s, v);
    }
    if ParseAddress(s).Some? {
      var v := ParseAddress(s).value;
      PrefixOfMaskIff(v, true, 0, p);
      forall q: nat ensures PrefixOfMask(v, false, 0) == Some(q) <==> MaskOf(v, false, q) {
        PrefixOfMaskIff(v, false, 0, q);
      }
    }
  }

  lemma DigitsAreNoAddress(s: string)
    requires AllDigits(s)
    ensures ParseAddress(s) == None && forall v :: s != DottedQuad(v)
  {
    SplitWithout(s, '.');
    forall v: Address ensures s != DottedQuad(v) {
      ParseAddressIff(s, v);
    }
  }

  /** A text is a network exactly when, stripped, it is the network's first address, a slash and a prefix length. */
  lemma ParseNetworkIff(value: string, n: Cidr)
    ensures ParseNetwork(value) == Success(n)
      <==> exists p :: '/' !in p && ParsePrefix(p) == Some(n.prefix) && Strip(value) == DottedQuad(n.base) + "/" + p
  {
    var s := Strip(value);
    assert ['/'] == "/";
    if ParseNetwork(value) == Success(n) {
      var parts := SplitOn(s, '/');
      JoinSplit(s, '/');
      TwoParts(s, '/');
      assert parts[1..] == [parts[1]];
      assert s == parts[0] + "/" + parts[1];
      ParseAddressIff(parts[0], n.base);
      assert '/' !in parts[1] && ParsePrefix(parts[1]) == Some(n.prefix);
    }
    if p :| '/' !in p && ParsePrefix(p) == Some(n.prefix) && s == DottedQuad(n.base) + "/" + p {
      SlashedParts(n.base, p);
      CanonicalIsItsOwnMask(n);
    }
  }

  lemma {:induction false} TwoParts(s: string, sep: char)
    requires sep in s
    ensures |SplitOn(s, sep)| >= 2
  {
    if s[0] != sep {
      TwoParts(s[1..], sep);
    }
  }

  lemma SlashedParts(a: Address, p: string)
    requires '/' !in p
    ensures SplitOn(DottedQuad(a) + "/" + p, '/') == [DottedQuad(a), p] && '/' in DottedQuad(a) + "/" + p
    ensures ParseAddress(DottedQuad(a)) == Some(a)
  {
    PrintedIsDotted(a);
    forall c | c in DottedQuad(a) ensures c != '/' {
      CharsOfAddress(a, c);
    }
    SplitAfterPart(DottedQuad(a), p, '/');
    SplitWithout(p, '/');
    assert ['/'] == "/";
    assert (DottedQuad(a) + "/" + p)[|DottedQuad(a)|] == '/';
    ParseAddressIff(DottedQuad(a), a);
  }

  /** Host bits are refused, with the network they lie in. */
  lemma HostBitsAreRefused(value: string, a: Address, prefix: nat)
    requires prefix <= 32 && Strip(value) == DottedQuad(a) + "/" + Print(prefix)
    ensures var rest := a % PowerOfTwo(32 - prefix);
      match ParseNetwork(value)
      case Success(n) => rest == 0 && n.base == a && n.prefix == prefix
      case Failure(e) => rest != 0 && e.HostBits? && e.suggestion.base == a - rest && e.suggestion.prefix == prefix
  {
    PrintedPrefix(prefix);
    SlashedParts(a, Print(prefix));
    AlignDown(a, PowerOfTwo(32 - prefix));
    assert ParseParts(Strip(value)) == Some((a, prefix));
  }

  lemma PrintedPrefix(prefix: nat)
    requires prefix <= 32
    ensures ParsePrefix(Print(prefix)) == Some(prefix) && '/' !in Print(prefix)
  {
    ReadPrinted(prefix);
  }

  // ---------------------------------------------------------------- ranges

  /** 10.0.0.0/8, 172.16.0.0/12, 192.168.0.0/16 and 100.64.0.0/10. */
  predicate PrivateAddress(a: Address) {
    || 0x0A00_0000 <= a <= 0x0AFF_FFFF || 0xAC10_0000 <= a <= 0xAC1F_FFFF
    || 0xC0A8_0000 <= a <= 0xC0A8_FFFF || 0x6440_0000 <= a <= 0x647F_FFFF
  }

  /** This network, loopback, link-local, multicast and the rest from 224.0.0.0 on. */
  predicate ReservedAddress(a: Address) {
    a <= 0x00FF_FFFF || 0x7F00_0000 <= a <= 0x7FFF_FFFF || 0xA9FE_0000 <= a <= 0xA9FE_FFFF || 0xE000_0000 <= a
  }

  lemma IsPrivateIff(a: Address)
    ensures IsPrivate(a) <==> PrivateAddress(a)
  {
    CommonSizes();
    var r := PrivateRanges();
    assert IsPrivate(a) <==> Contains(r[0], a) || Contains(r[1], a) || Contains(r[2], a) || Contains(r[3], a);
  }

  lemma IsBlockedIff(a: Address)
    ensures IsBlocked(a) <==> ReservedAddress(a)
  {
    CommonSizes();
    var r := AlwaysBlocked();
    assert IsBlocked(a) <==> Contains(r[0], a) || Contains(r[1], a) || Contains(r[2], a) || Contains(r[3], a) || Contains(r[4], a);
  }

  lemma ReservedIff(n: Cidr)
    ensures ReservedRange(n) <==> exists a: Address :: Contains(n, a) && IsBlocked(a)
  {
    var r := AlwaysBlocked();
    forall i | 0 <= i < |r| ensures (SubnetOf(n, r[i]) || Overlaps(n, r[i])) <==> exists a: Address :: Contains(n, a) && Contains(r[i], a) {
      OverlapMeansSharedAddress(n, r[i]);
    }
    if ReservedRange(n) {
      var i :| 0 <= i < |r| && (SubnetOf(n, r[i]) || Overlaps(n, r[i]));
      var a: Address :| Contains(n, a) && Contains(r[i], a);
      assert IsBlocked(a);
    }
    if a: Address :| Contains(n, a) && IsBlocked(a) {
      var i :| 0 <= i < |r| && Contains(r[i], a);
    }
  }

  /** The private ranges do not touch, so a run of private addresses is in one of them. */
  lemma OneRange(n: Cidr)
    requires forall a: Address :: Contains(n, a) ==> PrivateAddress(a)
    ensures NetworkInAllowlist(n, PrivateRanges())
  {
    CommonSizes();
    var r := PrivateRanges();
    assert Contains(n, n.base) && Contains(n, Last(n));
    IsPrivateIff(n.base);
    var i :| 0 <= i < |r| && Contains(r[i], n.base);
    assert !PrivateAddress(Last(r[i]) + 1);
    if Last(n) > Last(r[i]) {
      assert Contains(n, Last(r[i]) + 1);
    }
    assert SubnetOf(n, r[i]);
  }

  /** A network can be managed exactly when each of its addresses is private and none is reserved. */
  lemma AllowedIff(value: string, n: Cidr)
    ensures ValidateAllowedCidr(value) == Success(n) <==>
      ParseNetwork(value) == Success(n) && forall a: Address :: Contains(n, a) ==> PrivateAddress(a) && !ReservedAddress(a)
  {
    forall a: Address ensures (IsPrivate(a) <==> PrivateAddress(a)) && (IsBlocked(a) <==> ReservedAddress(a)) {
      IsPrivateIff(a);
      IsBlockedIff(a);
    }
    if CheckAllowed(n).Success? {
      CheckedIsSafe(n);
    }
    if forall a: Address :: Contains(n, a) ==> PrivateAddress(a) && !ReservedAddress(a) {
      OneRange(n);
      ReservedIff(n);
    }
  }
}
