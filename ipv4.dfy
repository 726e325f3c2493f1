/** IPv4 addresses in dotted-quad text (Resolv::IPv4::Regex) and as 32-bit numbers. */
module IPv4 {
  import opened Outcomes
  import opened Strings
  import opened Decimal

  const AddressCount: nat := 0x1_0000_0000

  /** An IPv4 address as the unsigned 32-bit number IPAddr keeps. */
  type Addr = a: nat | a < 0x1_0000_0000

  /** The loopback text that the analyser excludes. */
  const Loopback: string := "127.0.0.1"

  /** One component of Resolv::IPv4::Regex: a numeral from 0 to 255 without leading zeros. */
  predicate IsOctetText(s: string) {
    IsCanonical(s) && Value(s) <= 255
  }

  predicate AreOctets(o: seq<nat>) {
    |o| == 4 && forall i :: 0 <= i < 4 ==> o[i] < 0x100
  }

  /** The address whose four bytes, most significant first, are `o`. */
  function FromOctets(o: seq<nat>): Addr
    requires AreOctets(o)
  {
    o[0] * 0x100_0000 + o[1] * 0x1_0000 + o[2] * 0x100 + o[3]
  }

  /** The four bytes of `a`, most significant first. */
  function Octets(a: Addr): (o: seq<nat>)
    ensures AreOctets(o)
  {
    [a / 0x100_0000, a / 0x1_0000 % 0x100, a / 0x100 % 0x100, a % 0x100]
  }

  lemma OctetsOfAddress(o: seq<nat>)
    requires AreOctets(o)
    ensures Octets(FromOctets(o)) == o
  {
    var a := FromOctets(o);
    assert a / 0x100 == o[0] * 0x1_0000 + o[1] * 0x100 + o[2];
    assert a / 0x1_0000 == o[0] * 0x100 + o[1];
    assert a / 0x100_0000 == o[0];
  }

  lemma AddressOfOctets(a: Addr)
    ensures FromOctets(Octets(a)) == a
  {
    var q1, q2, q3 := a / 0x100, a / 0x1_0000, a / 0x100_0000;
    assert q2 == q1 / 0x100;
    assert q3 == q2 / 0x100;
    assert a == q1 * 0x100 + a % 0x100;
    assert q1 == q2 * 0x100 + q1 % 0x100;
    assert q2 == q3 * 0x100 + q2 % 0x100;
  }

  /**
   * `ip =~ Resolv::IPv4::Regex` together with the address IPAddr reads from it:
   * four canonical numerals from 0 to 255 separated by dots, and nothing else.
   */
  function ParseAddress(s: string): Option<Addr> {
    var fields := Split(s, '.');
    if |fields| == 4 && forall i :: 0 <= i < 4 ==> IsOctetText(fields[i]) then
      Some(FromOctets([Value(fields[0]), Value(fields[1]), Value(fields[2]), Value(fields[3])]))
    else
      None
  }

  /** The dotted-quad text of an address (IPAddr#to_s). */
  function FormatAddress(a: Addr): string {
    var o := Octets(a);
    Join([Numeral(o[0]), Numeral(o[1]), Numeral(o[2]), Numeral(o[3])], ".")
  }

  lemma DigitsHaveNoDot(s: string)
    requires AllDigits(s)
    ensures '.' !in s && '/' !in s && '\n' !in s && '\r' !in s
  {
  }

  /** The text of an address holds only digits and dots. */
  lemma FormatAddressAvoids(a: Addr, c: char)
    requires c == '/' || c == '\n' || c == '\r'
    ensures c !in FormatAddress(a)
  {
    var o := Octets(a);
    var fields := [Numeral(o[0]), Numeral(o[1]), Numeral(o[2]), Numeral(o[3])];
    forall i | 0 <= i < 4 ensures c !in fields[i] {
      DigitsHaveNoDot(fields[i]);
    }
    JoinAvoids(fields, ".", c);
  }

  lemma NumeralIsOctet(n: nat)
    requires n < 0x100
    ensures IsOctetText(Numeral(n)) && '.' !in Numeral(n)
  {
    ValueOfNumeral(n);
    DigitsHaveNoDot(Numeral(n));
  }

  /** Every address is read back from its own text. */
  lemma ParseFormat(a: Addr)
    ensures ParseAddress(FormatAddress(a)) == Some(a)
  {
    var o := Octets(a);
    var fields := [Numeral(o[0]), Numeral(o[1]), Numeral(o[2]), Numeral(o[3])];
    forall i | 0 <= i < 4
      ensures IsOctetText(fields[i]) && '.' !in fields[i] && Value(fields[i]) == o[i]
    {
      NumeralIsOctet(o[i]);
      ValueOfNumeral(o[i]);
    }
    SplitJoin(fields, '.');
    assert [Value(fields[0]), Value(fields[1]), Value(fields[2]), Value(fields[3])] == o;
    AddressOfOctets(a);
  }

  /** The only text read as `a` is the text of `a`: the parser accepts exactly the dotted quads. */
  lemma FormatParse(s: string, a: Addr)
    requires ParseAddress(s) == Some(a)
    ensures FormatAddress(a) == s
  {
    var fields := Split(s, '.');
    var o := [Value(fields[0]), Value(fields[1]), Value(fields[2]), Value(fields[3])];
    OctetsOfAddress(o);
    forall i | 0 <= i < 4
      ensures Numeral(o[i]) == fields[i]
    {
      NumeralOfValue(fields[i]);
    }
    assert [Numeral(o[0]), Numeral(o[1]), Numeral(o[2]), Numeral(o[3])] == fields;
    JoinSplit(s, '.');
  }

  /** `ip.split(" ").last.rpartition(".")[0]`: the address text without its last component. */
  function SubnetPrefix(ip: string): string {
    BeforeLast(ip, '.')
  }

  lemma BeforeLastSeparator(x: string, c: char, y: string)
    requires c !in y
    ensures BeforeLast(x + [c] + y, c) == x
  {
    var s := x + [c] + y;
    var r := BeforeLast(s, c);
    assert s[|x|] == c;
    assert s[|x| + 1..] == y;
    assert s[..|x|] == x;
  }

  /**
   * The subnet prefix of an address text is the text of its first three bytes, and the
   * address text is that prefix, a dot and the last byte.
   */
  lemma PrefixOfAddress(a: Addr)
    ensures SubnetPrefix(FormatAddress(a)) == Join([Numeral(Octets(a)[0]), Numeral(Octets(a)[1]), Numeral(Octets(a)[2])], ".")
    ensures FormatAddress(a) == SubnetPrefix(FormatAddress(a)) + "." + Numeral(Octets(a)[3])
  {
    var o := Octets(a);
    var head := [Numeral(o[0]), Numeral(o[1]), Numeral(o[2])];
    JoinSnoc(head, Numeral(o[3]), ".");
    assert head + [Numeral(o[3])] == [Numeral(o[0]), Numeral(o[1]), Numeral(o[2]), Numeral(o[3])];
    NumeralIsOctet(o[3]);
    BeforeLastSeparator(Join(head, "."), '.', Numeral(o[3]));
  }

  /** The /24 block number of an address is made of its first three bytes. */
  lemma BlockOfOctets(a: Addr)
    ensures a / 0x100 == Octets(a)[0] * 0x1_0000 + Octets(a)[1] * 0x100 + Octets(a)[2]
  {
    var o := Octets(a);
    var high := o[0] * 0x1_0000 + o[1] * 0x100 + o[2];
    AddressOfOctets(a);
    assert a == high * 0x100 + o[3];
    SplitLowByte(high, o[3]);
  }

  /** A number written as a high part and a last byte gives both back. */
  lemma SplitLowByte(high: nat, low: nat)
    requires low < 0x100
    ensures (high * 0x100 + low) / 0x100 == high && (high * 0x100 + low) % 0x100 == low
  {
  }

  lemma BaseUnique(x: seq<nat>, y: seq<nat>)
    requires AreOctets(x) && AreOctets(y)
    requires x[0] * 0x1_0000 + x[1] * 0x100 + x[2] == y[0] * 0x1_0000 + y[1] * 0x100 + y[2]
    ensures x[..3] == y[..3]
  {
    var hx, hy := x[0] * 0x100 + x[1], y[0] * 0x100 + y[1];
    assert hx * 0x100 + x[2] == hy * 0x100 + y[2];
    SplitLowByte(hx, x[2]);
    SplitLowByte(hy, y[2]);
    SplitLowByte(x[0], x[1]);
    SplitLowByte(y[0], y[1]);
  }

  /** Equal prefixes come from equal first three bytes. */
  lemma SamePrefixSameBlock(a: Addr, b: Addr)
    requires SubnetPrefix(FormatAddress(a)) == SubnetPrefix(FormatAddress(b))
    ensures a / 0x100 == b / 0x100
  {
    var oa, ob := Octets(a), Octets(b);
    PrefixOfAddress(a);
    PrefixOfAddress(b);
    SameJoinSameBytes(oa, ob);
    BlockOfOctets(a);
    BlockOfOctets(b);
  }

  /** The dotted text of three bytes determines the bytes. */
  lemma SameJoinSameBytes(x: seq<nat>, y: seq<nat>)
    requires AreOctets(x) && AreOctets(y)
    requires Join([Numeral(x[0]), Numeral(x[1]), Numeral(x[2])], ".") == Join([Numeral(y[0]), Numeral(y[1]), Numeral(y[2])], ".")
    ensures x[0] == y[0] && x[1] == y[1] && x[2] == y[2]
  {
    var hx := [Numeral(x[0]), Numeral(x[1]), Numeral(x[2])];
    var hy := [Numeral(y[0]), Numeral(y[1]), Numeral(y[2])];
    forall i | 0 <= i < 3 ensures '.' !in hx[i] && '.' !in hy[i] {
      NumeralIsOctet(x[i]);
      NumeralIsOctet(y[i]);
    }
    SplitJoin(hx, '.');
    SplitJoin(hy, '.');
    forall i | 0 <= i < 3 ensures x[i] == y[i] {
      assert hx[i] == hy[i];
      NumeralInjective(x[i], y[i]);
    }
  }

  /** Addresses in the same /24 block have the same first three bytes, hence the same prefix. */
  lemma SameBlockSamePrefix(a: Addr, b: Addr)
    requires a / 0x100 == b / 0x100
    ensures SubnetPrefix(FormatAddress(a)) == SubnetPrefix(FormatAddress(b))
  {
    var oa, ob := Octets(a), Octets(b);
    BlockOfOctets(a);
    BlockOfOctets(b);
    BaseUnique(oa, ob);
    assert oa[0] == ob[0] && oa[1] == ob[1] && oa[2] == ob[2];
    PrefixOfAddress(a);
    PrefixOfAddress(b);
  }

  /** Two addresses share a subnet prefix exactly when they lie in the same /24 block. */
  lemma SamePrefixIffSameBlock(a: Addr, b: Addr)
    ensures SubnetPrefix(FormatAddress(a)) == SubnetPrefix(FormatAddress(b)) <==> a / 0x100 == b / 0x100
  {
    if SubnetPrefix(FormatAddress(a)) == SubnetPrefix(FormatAddress(b)) {
      SamePrefixSameBlock(a, b);
    }
    if a / 0x100 == b / 0x100 {
      SameBlockSamePrefix(a, b);
    }
  }

  lemma ExampleSubnetPrefix()
    ensures SubnetPrefix("10.5.1.7") == "10.5.1"
  {
    BeforeLastSeparator("10.5.1", '.', "7");
    assert "10.5.1" + ['.'] + "7" == "10.5.1.7";
  }
}
