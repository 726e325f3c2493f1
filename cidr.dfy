/**
 * IPv4 networks in the prefix notation of section 3.1 of RFC 4632 ("10.5.1.0/24"),
 * as one line of a scope file gives them to IPAddr.new, and the membership test IPAddr#===.
 */
module Cidr {
  import opened Outcomes
  import opened Strings
  import opened Decimal
  import opened IPv4

  type PrefixLen = n: nat | n <= 32

  /** A network: an address and how many of its leading bits are fixed. */
  datatype Range = Range(network: Addr, prefixLen: PrefixLen)

  function Pow2(n: nat): (r: nat)
    ensures r >= 1
  {
    if n == 0 then 1 else 2 * Pow2(n - 1)
  }

  lemma {:induction false} Pow2Add(m: nat, n: nat)
    ensures Pow2(m + n) == Pow2(m) * Pow2(n)
  {
    if m > 0 {
      Pow2Add(m - 1, n);
    }
  }

  lemma Pow2ThirtyTwo()
    ensures Pow2(32) == AddressCount
  {
    assert Pow2(8) == 0x100;
    Pow2Add(8, 8);
    Pow2Add(16, 16);
  }

  /** Number of addresses a network of this prefix length spans. */
  function BlockSize(len: PrefixLen): (b: nat)
    ensures b >= 1
  {
    Pow2(32 - len)
  }

  /** `a & netmask(len)`: the address with its 32 - len host bits cleared. */
  function Masked(a: nat, len: PrefixLen): nat {
    RoundDown(a, BlockSize(len))
  }

  /** The largest multiple of `b` that is at most `a`. */
  function RoundDown(a: nat, b: nat): nat
    requires b >= 1
  {
    a / b * b
  }

  /** IPAddr#===: `a` agrees with the network on the leading `prefixLen` bits. */
  predicate Contains(r: Range, a: Addr) {
    Masked(a, r.prefixLen) == Masked(r.network, r.prefixLen)
  }

  /** The network address and the broadcast address of a range. */
  function First(r: Range): nat {
    Masked(r.network, r.prefixLen)
  }

  function Last(r: Range): nat {
    First(r) + BlockSize(r.prefixLen) - 1
  }

  lemma DivCharacterised(a: nat, b: nat, q: nat)
    requires b >= 1
    ensures a / b == q <==> q * b <= a < q * b + b
  {
    var p, m := a / b, a % b;
    assert a == p * b + m && m < b;
    if p < q {
      MulMonotone(p + 1, q, b);
      assert (p + 1) * b == p * b + b;
    } else if q < p {
      MulMonotone(q + 1, p, b);
      assert (q + 1) * b == q * b + b;
    }
  }

  lemma MulMonotone(x: nat, y: nat, b: nat)
    requires x <= y
    ensures x * b <= y * b
  {
    var d := y - x;
    assert y * b == x * b + d * b;
  }

  lemma CancelFactor(x: nat, y: nat, b: nat)
    requires b >= 1 && x * b == y * b
    ensures x == y
  {
  }

  /** A range holds exactly the addresses from its network address to its broadcast address. */
  lemma ContainsIsInterval(r: Range, a: Addr)
    ensures Contains(r, a) <==> First(r) <= a <= Last(r)
  {
    var b := BlockSize(r.prefixLen);
    var q := r.network / b;
    assert First(r) == q * b && Last(r) == q * b + b - 1;
    assert Masked(a, r.prefixLen) == a / b * b;
    DivCharacterised(a, b, q);
    if Contains(r, a) {
      CancelFactor(a / b, q, b);
    }
  }

  /** The broadcast address of a range is still a 32-bit address. */
  lemma BlocksCoverAddressSpace(len: PrefixLen)
    ensures Pow2(len) * BlockSize(len) == AddressCount
  {
    Pow2Add(len, 32 - len);
    Pow2ThirtyTwo();
  }

  /** A block of `b` addresses that starts at a multiple of `b` below `blocks * b` ends there too. */
  lemma BlockFits(n: nat, b: nat, blocks: nat)
    requires b >= 1 && n < blocks * b
    ensures n / b * b <= n < n / b * b + b <= blocks * b
  {
    var q := n / b;
    DivCharacterised(n, b, q);
    assert q < blocks by {
      if q >= blocks {
        MulMonotone(blocks, q, b);
      }
    }
    MulMonotone(q + 1, blocks, b);
    assert (q + 1) * b == q * b + b;
  }

  lemma RangeFits(r: Range)
    ensures First(r) <= r.network <= Last(r) < AddressCount
  {
    BlocksCoverAddressSpace(r.prefixLen);
    BlockFits(r.network, BlockSize(r.prefixLen), Pow2(r.prefixLen));
  }

  /** The four boundary addresses: network and broadcast inside, their outer neighbours outside. */
  lemma RangeBoundaries(r: Range)
    ensures Last(r) < AddressCount && Contains(r, First(r) as Addr) && Contains(r, Last(r) as Addr)
    ensures First(r) > 0 ==> !Contains(r, (First(r) - 1) as Addr)
    ensures Last(r) + 1 < AddressCount ==> !Contains(r, (Last(r) + 1) as Addr)
  {
    RangeFits(r);
    ContainsIsInterval(r, First(r) as Addr);
    ContainsIsInterval(r, Last(r) as Addr);
    if First(r) > 0 {
      ContainsIsInterval(r, (First(r) - 1) as Addr);
    }
    if Last(r) + 1 < AddressCount {
      ContainsIsInterval(r, (Last(r) + 1) as Addr);
    }
  }

  /** A /32 range holds its own address only; a /0 range holds every address. */
  lemma HostAndDefaultRanges(r: Range, a: Addr)
    ensures r.prefixLen == 32 ==> (Contains(r, a) <==> a == r.network)
    ensures r.prefixLen == 0 ==> Contains(r, a)
  {
    ContainsIsInterval(r, a);
    if r.prefixLen == 32 {
      assert BlockSize(32) == 1;
    }
    if r.prefixLen == 0 {
      Pow2ThirtyTwo();
      assert r.network / AddressCount == 0;
    }
  }

  /**
   * `IPAddr.new(network.chomp)` for a scope-file line: an address in dotted-quad text,
   * optionally followed by "/" and a prefix length from 0 to 32; a bare address is a /32.
   * None is the exception IPAddr.new raises.
   */
  function ParseRange(line: string): Option<Range> {
    RangeOfText(Chomp(line))
  }

  function RangeOfText(s: string): Option<Range> {
    if '/' !in s then BareRange(s)
    else
      var k := FirstIndex(s, '/');
      PrefixedRange(s[..k], s[k + 1..])
  }

  /** A bare address stands for the /32 network of that address. */
  function BareRange(s: string): Option<Range> {
    match ParseAddress(s)
    case None => None
    case Some(a) => Some(Range(a, 32))
  }

  /** Address and prefix length on either side of the first "/" (`split('/', 2)`). */
  function PrefixedRange(addrText: string, lenText: string): Option<Range> {
    match ParseAddress(addrText)
    case None => None
    case Some(a) =>
      if IsCanonical(lenText) && Value(lenText) <= 32 then Some(Range(a, Value(lenText))) else None
  }

  /** The prefix notation of a range. */
  function RangeText(r: Range): string {
    FormatAddress(r.network) + "/" + Numeral(r.prefixLen)
  }

  /** A scope-file line holding a range in prefix notation, with any line ending, reads back as that range. */
  lemma ParseRangeText(r: Range, eol: string)
    requires IsLineEnd(eol)
    ensures ParseRange(RangeText(r) + eol) == Some(r)
    ensures Chomp(RangeText(r) + eol) == RangeText(r)
  {
    var addr := FormatAddress(r.network);
    var num := Numeral(r.prefixLen);
    var s := RangeText(r);
    FormatAddressAvoids(r.network, '/');
    FormatAddressAvoids(r.network, '\n');
    FormatAddressAvoids(r.network, '\r');
    DigitsHaveNoDot(num);
    assert '\n' !in s && '\r' !in s;
    ChompLineEnd(s, eol);
    assert s[|addr|] == '/';
    assert s[..|addr|] == addr;
    assert FirstIndex(s, '/') == |addr|;
    assert s[|addr| + 1..] == num;
    ParseFormat(r.network);
    ValueOfNumeral(r.prefixLen);
  }

  /** A line holding a bare address, with any line ending, reads back as the /32 range of that address. */
  lemma ParseBareAddress(a: Addr, eol: string)
    requires IsLineEnd(eol)
    ensures ParseRange(FormatAddress(a) + eol) == Some(Range(a, 32))
  {
    FormatAddressAvoids(a, '/');
    FormatAddressAvoids(a, '\n');
    FormatAddressAvoids(a, '\r');
    ChompLineEnd(FormatAddress(a), eol);
    ParseFormat(a);
  }

  /** The two sides of an accepted "address/length" text are the range's own texts. */
  lemma PrefixedRangeText(addrText: string, lenText: string, r: Range)
    requires PrefixedRange(addrText, lenText) == Some(r)
    ensures addrText == FormatAddress(r.network) && lenText == Numeral(r.prefixLen)
  {
    FormatParse(addrText, r.network);
    NumeralOfValue(lenText);
  }

  /** Every line that reads as a range is, once chomped, that range in one of the two notations. */
  lemma ParsedLineIsRangeText(line: string, r: Range)
    requires ParseRange(line) == Some(r)
    ensures Chomp(line) == RangeText(r) || (r.prefixLen == 32 && Chomp(line) == FormatAddress(r.network))
  {
    var s := Chomp(line);
    if '/' !in s {
      FormatParse(s, r.network);
    } else {
      var k := FirstIndex(s, '/');
      PrefixedRangeText(s[..k], s[k + 1..], r);
      assert s == s[..k] + "/" + s[k + 1..];
    }
  }

  /** A line that, once chomped, is a range in prefix notation or a bare address. */
  ghost predicate IsRangeLine(line: string) {
    (exists r: Range :: Chomp(line) == RangeText(r)) || (exists a: Addr :: Chomp(line) == FormatAddress(a))
  }

  /** IPAddr.new accepts a scope-file line exactly when it is a range line. */
  lemma ParsesIffRangeLine(line: string)
    ensures ParseRange(line).Some? <==> IsRangeLine(line)
  {
    var eol := line[|Chomp(line)|..];
    ChompSplitsLine(line);
    if ParseRange(line).Some? {
      ParsedLineIsRangeText(line, ParseRange(line).value);
    }
    if r: Range :| Chomp(line) == RangeText(r) {
      ParseRangeText(r, eol);
    }
    if a: Addr :| Chomp(line) == FormatAddress(a) {
      ParseBareAddress(a, eol);
    }
  }
}
