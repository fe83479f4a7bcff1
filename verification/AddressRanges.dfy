/**
  The special-use ranges: every test shifts the value and the base of a block by the same number
  of bits and compares. The classifiers are compared with plain lists of integer intervals.
 */
module AddressRanges {
  import opened Wrappers
  import opened Arithmetic
  import opened AddressText

  datatype AddressClass =
    | Unspecified | Loopback | Private | UniqueLocal | LinkLocal | Shared | Documentation
    | Benchmark | Multicast | Broadcast | Reserved | SpecialUse | GlobalUnicast

  /** `value >> bits` */
  function ShiftRight(value: nat, bits: nat): nat {
    DivMod(value, Pow(2, bits));
    value / Pow(2, bits)
  }

  function Ipv4InRange(value: nat, base: string, prefix: nat): bool
    requires prefix <= 32
  {
    match ParseIpv4Value(base)
    case None => false
    case Some(start) => ShiftRight(value, 32 - prefix) == ShiftRight(start, 32 - prefix)
  }

  function Ipv6InRange(value: nat, base: string, prefix: nat): bool
    requires prefix <= 128
  {
    match ParseAddress(base, Some(V6))
    case None => false
    case Some(parsed) => ShiftRight(value, 128 - prefix) == ShiftRight(parsed.value, 128 - prefix)
  }

  function ClassifyIpv4(value: nat): AddressClass {
    if Ipv4InRange(value, "0.0.0.0", 8) then Unspecified
    else if Ipv4InRange(value, "127.0.0.0", 8) then Loopback
    else if Ipv4InRange(value, "10.0.0.0", 8) || Ipv4InRange(value, "172.16.0.0", 12) || Ipv4InRange(value, "192.168.0.0", 16) then Private
    else if Ipv4InRange(value, "169.254.0.0", 16) then LinkLocal
    else if Ipv4InRange(value, "100.64.0.0", 10) then Shared
    else if Ipv4InRange(value, "224.0.0.0", 4) then Multicast
    else if value == 0xffffffff then Broadcast
    else if Ipv4InRange(value, "192.0.2.0", 24) || Ipv4InRange(value, "198.51.100.0", 24) || Ipv4InRange(value, "203.0.113.0", 24) then Documentation
    else if Ipv4InRange(value, "198.18.0.0", 15) then Benchmark
    else if || Ipv4InRange(value, "192.0.0.0", 24)
            || Ipv4InRange(value, "192.31.196.0", 24)
            || Ipv4InRange(value, "192.52.193.0", 24)
            || Ipv4InRange(value, "192.88.99.0", 24) then SpecialUse
    else if Ipv4InRange(value, "240.0.0.0", 4) then Reserved
    else GlobalUnicast
  }

  function ClassifyIpv6(value: nat): AddressClass {
    if value == 0 then Unspecified
    else if value == 1 then Loopback
    else if Ipv6InRange(value, "fe80::", 10) then LinkLocal
    else if Ipv6InRange(value, "fc00::", 7) then UniqueLocal
    else if Ipv6InRange(value, "ff00::", 8) then Multicast
    else if Ipv6InRange(value, "2001:db8::", 32) then Documentation
    else if Ipv6InRange(value, "2001:2::", 48) then Benchmark
    else if || Ipv6InRange(value, "100::", 64)
            || Ipv6InRange(value, "64:ff9b::", 96)
            || Ipv6InRange(value, "64:ff9b:1::", 48)
            || Ipv6InRange(value, "2001::", 32)
            || Ipv6InRange(value, "2001:1::", 32)
            || Ipv6InRange(value, "2001:3::", 32)
            || Ipv6InRange(value, "2001:10::", 28)
            || Ipv6InRange(value, "2001:20::", 28)
            || Ipv6InRange(value, "2002::", 16) then SpecialUse
    else if 0x20000000000000000000000000000000 <= value <= 0x3fffffffffffffffffffffffffffffff then GlobalUnicast
    else Reserved
  }

  // ----- blocks as intervals -----

  datatype Block = Block(first: nat, last: nat, kind: AddressClass)

  predicate Within(value: nat, block: Block) {
    block.first <= value <= block.last
  }

  predicate Disjoint(a: Block, b: Block) {
    a.last < b.first || b.last < a.first
  }

  /** The blocks of the IPv4 classifier, in the order of its tests. */
  const IPV4_BLOCKS: seq<Block> := [
    Block(0x00000000, 0x00ffffff, Unspecified),
    Block(0x7f000000, 0x7fffffff, Loopback),
    Block(0x0a000000, 0x0affffff, Private),
    Block(0xac100000, 0xac1fffff, Private),
    Block(0xc0a80000, 0xc0a8ffff, Private),
    Block(0xa9fe0000, 0xa9feffff, LinkLocal),
    Block(0x64400000, 0x647fffff, Shared),
    Block(0xe0000000, 0xefffffff, Multicast),
    Block(0xffffffff, 0xffffffff, Broadcast),
    Block(0xc0000200, 0xc00002ff, Documentation),
    Block(0xc6336400, 0xc63364ff, Documentation),
    Block(0xcb007100, 0xcb0071ff, Documentation),
    Block(0xc6120000, 0xc613ffff, Benchmark),
    Block(0xc0000000, 0xc00000ff, SpecialUse),
    Block(0xc01fc400, 0xc01fc4ff, SpecialUse),
    Block(0xc034c100, 0xc034c1ff, SpecialUse),
    Block(0xc0586300, 0xc05863ff, SpecialUse),
    Block(0xf0000000, 0xffffffff, Reserved)
  ]

  /** The blocks of the IPv6 classifier, in the order of its tests. */
  const IPV6_BLOCKS: seq<Block> := [
    Block(0, 0, Unspecified),
    Block(1, 1, Loopback),
    Block(0xfe800000000000000000000000000000, 0xfebfffffffffffffffffffffffffffff, LinkLocal),
    Block(0xfc000000000000000000000000000000, 0xfdffffffffffffffffffffffffffffff, UniqueLocal),
    Block(0xff000000000000000000000000000000, 0xffffffffffffffffffffffffffffffff, Multicast),
    Block(0x20010db8000000000000000000000000, 0x20010db8ffffffffffffffffffffffff, Documentation),
    Block(0x20010002000000000000000000000000, 0x200100020000ffffffffffffffffffff, Benchmark),
    Block(0x01000000000000000000000000000000, 0x0100000000000000ffffffffffffffff, SpecialUse),
    Block(0x0064ff9b000000000000000000000000, 0x0064ff9b0000000000000000ffffffff, SpecialUse),
    Block(0x0064ff9b000100000000000000000000, 0x0064ff9b0001ffffffffffffffffffff, SpecialUse),
    Block(0x20010000000000000000000000000000, 0x20010000ffffffffffffffffffffffff, SpecialUse),
    Block(0x20010001000000000000000000000000, 0x20010001ffffffffffffffffffffffff, SpecialUse),
    Block(0x20010003000000000000000000000000, 0x20010003ffffffffffffffffffffffff, SpecialUse),
    Block(0x20010010000000000000000000000000, 0x2001001fffffffffffffffffffffffff, SpecialUse),
    Block(0x20010020000000000000000000000000, 0x2001002fffffffffffffffffffffffff, SpecialUse),
    Block(0x20020000000000000000000000000000, 0x2002ffffffffffffffffffffffffffff, SpecialUse)
  ]

  /** Comparing the high bits is membership in the aligned block, when the base has no low bits. */
  lemma ShiftTestIsInterval(value: nat, quotient: nat, bits: nat)
    ensures ShiftRight(value, bits) == ShiftRight(Pow(2, bits) * quotient, bits) <==>
            Pow(2, bits) * quotient <= value < Pow(2, bits) * quotient + Pow(2, bits)
  {
    QuotientUnique(quotient, 0, Pow(2, bits));
    QuotientInterval(value, quotient, Pow(2, bits));
  }

  function Dotted(a: nat, b: nat, c: nat, d: nat): string {
    Digits(a, 10) + "." + Digits(b, 10) + "." + Digits(c, 10) + "." + Digits(d, 10)
  }

  lemma DottedJoin(a: nat, b: nat, c: nat, d: nat)
    ensures Join(Texts([a, b, c, d], 10), '.') == Dotted(a, b, c, d)
  {
    hide Digits;
    var t := Texts([a, b, c, d], 10);
    var t1, t2, t3 := t[1..], t[2..], t[3..];
    assert t1[1..] == t2 && t2[1..] == t3;
    assert Join(t3, '.') == t[3];
    assert Join(t2, '.') == t[2] + "." + t[3];
    assert Join(t1, '.') == t[1] + "." + (t[2] + "." + t[3]);
    assert Join(t, '.') == t[0] + "." + (t[1] + "." + (t[2] + "." + t[3]));
  }

  lemma DottedValue(a: nat, b: nat, c: nat, d: nat)
    requires a < 256 && b < 256 && c < 256 && d < 256
    ensures ParseIpv4Value(Dotted(a, b, c, d)) == Some(((a * 256 + b) * 256 + c) * 256 + d)
  {
    DottedParses([a, b, c, d]);
    DottedJoin(a, b, c, d);
  }

  /** One IPv4 test: the dotted base a.b.c.d is `quotient` aligned blocks of the prefix's size. */
  lemma Ipv4Block(value: nat, a: nat, b: nat, c: nat, d: nat, prefix: nat, quotient: nat)
    requires a < 256 && b < 256 && c < 256 && d < 256 && prefix <= 32
    requires ((a * 256 + b) * 256 + c) * 256 + d == Pow(2, 32 - prefix) * quotient
    ensures var first := ((a * 256 + b) * 256 + c) * 256 + d;
            Ipv4InRange(value, Dotted(a, b, c, d), prefix) <==>
            first <= value < first + Pow(2, 32 - prefix)
  {
    DottedValue(a, b, c, d);
    ShiftTestIsInterval(value, quotient, 32 - prefix);
  }

  lemma Pow2Table()
    ensures Pow(2, 8) == 0x100 && Pow(2, 16) == 0x1_0000 && Pow(2, 17) == 0x2_0000 && Pow(2, 20) == 0x10_0000
    ensures Pow(2, 22) == 0x40_0000 && Pow(2, 24) == 0x100_0000 && Pow(2, 28) == 0x1000_0000
  {
    assert Pow(2, 2) == 4 && Pow(2, 4) == 16 && Pow(2, 1) == 2;
    PowSum(2, 4, 4);
    PowSum(2, 8, 8);
    PowSum(2, 16, 1);
    PowSum(2, 16, 4);
    PowSum(2, 20, 2);
    PowSum(2, 16, 8);
    PowSum(2, 24, 4);
  }

  // The decimal texts that occur in the bases.

  lemma SmallDecimalTexts()
    ensures Digits(0, 10) == "0" && Digits(2, 10) == "2" && Digits(10, 10) == "10" && Digits(16, 10) == "16" && Digits(18, 10) == "18"
    ensures Digits(31, 10) == "31" && Digits(51, 10) == "51" && Digits(52, 10) == "52" && Digits(64, 10) == "64" && Digits(88, 10) == "88"
    ensures Digits(99, 10) == "99" && Digits(100, 10) == "100" && Digits(113, 10) == "113"
  {
  }

  lemma MiddleDecimalTexts()
    ensures Digits(127, 10) == "127" && Digits(168, 10) == "168" && Digits(169, 10) == "169"
    ensures Digits(172, 10) == "172" && Digits(192, 10) == "192" && Digits(193, 10) == "193"
  {
  }

  lemma LargeDecimalTexts()
    ensures Digits(196, 10) == "196" && Digits(198, 10) == "198" && Digits(203, 10) == "203"
    ensures Digits(224, 10) == "224" && Digits(240, 10) == "240" && Digits(254, 10) == "254"
  {
  }

  lemma Ipv4TestsA(value: nat)
    ensures Ipv4InRange(value, "0.0.0.0", 8) <==> Within(value, IPV4_BLOCKS[0])
    ensures Ipv4InRange(value, "127.0.0.0", 8) <==> Within(value, IPV4_BLOCKS[1])
    ensures Ipv4InRange(value, "10.0.0.0", 8) <==> Within(value, IPV4_BLOCKS[2])
  {
    hide Ipv4InRange;
    hide Digits;
    Pow2Table();
    SmallDecimalTexts();
    MiddleDecimalTexts();
    LargeDecimalTexts();
    assert Dotted(0, 0, 0, 0) == "0.0.0.0";
    Ipv4Block(value, 0, 0, 0, 0, 8, 0x0);
    assert Dotted(127, 0, 0, 0) == "127.0.0.0";
    Ipv4Block(value, 127, 0, 0, 0, 8, 0x7f);
    assert Dotted(10, 0, 0, 0) == "10.0.0.0";
    Ipv4Block(value, 10, 0, 0, 0, 8, 0xa);
  }

  lemma Ipv4TestsB(value: nat)
    ensures Ipv4InRange(value, "172.16.0.0", 12) <==> Within(value, IPV4_BLOCKS[3])
    ensures Ipv4InRange(value, "192.168.0.0", 16) <==> Within(value, IPV4_BLOCKS[4])
    ensures Ipv4InRange(value, "169.254.0.0", 16) <==> Within(value, IPV4_BLOCKS[5])
  {
    hide Ipv4InRange;
    hide Digits;
    Pow2Table();
    SmallDecimalTexts();
    MiddleDecimalTexts();
    LargeDecimalTexts();
    assert Dotted(172, 16, 0, 0) == "172.16.0.0";
    Ipv4Block(value, 172, 16, 0, 0, 12, 0xac1);
    assert Dotted(192, 168, 0, 0) == "192.168.0.0";
    Ipv4Block(value, 192, 168, 0, 0, 16, 0xc0a8);
    assert Dotted(169, 254, 0, 0) == "169.254.0.0";
    Ipv4Block(value, 169, 254, 0, 0, 16, 0xa9fe);
  }

  lemma Ipv4TestsC(value: nat)
    ensures Ipv4InRange(value, "100.64.0.0", 10) <==> Within(value, IPV4_BLOCKS[6])
    ensures Ipv4InRange(value, "224.0.0.0", 4) <==> Within(value, IPV4_BLOCKS[7])
    ensures Ipv4InRange(value, "192.0.2.0", 24) <==> Within(value, IPV4_BLOCKS[9])
  {
    hide Ipv4InRange;
    hide Digits;
    Pow2Table();
    SmallDecimalTexts();
    MiddleDecimalTexts();
    LargeDecimalTexts();
    assert Dotted(100, 64, 0, 0) == "100.64.0.0";
    Ipv4Block(value, 100, 64, 0, 0, 10, 0x191);
    assert Dotted(224, 0, 0, 0) == "224.0.0.0";
    Ipv4Block(value, 224, 0, 0, 0, 4, 0xe);
    assert Dotted(192, 0, 2, 0) == "192.0.2.0";
    Ipv4Block(value, 192, 0, 2, 0, 24, 0xc00002);
  }

  lemma Ipv4TestsD(value: nat)
    ensures Ipv4InRange(value, "198.51.100.0", 24) <==> Within(value, IPV4_BLOCKS[10])
    ensures Ipv4InRange(value, "203.0.113.0", 24) <==> Within(value, IPV4_BLOCKS[11])
    ensures Ipv4InRange(value, "198.18.0.0", 15) <==> Within(value, IPV4_BLOCKS[12])
  {
    hide Ipv4InRange;
    hide Digits;
    Pow2Table();
    SmallDecimalTexts();
    MiddleDecimalTexts();
    LargeDecimalTexts();
    assert Dotted(198, 51, 100, 0) == "198.51.100.0";
    Ipv4Block(value, 198, 51, 100, 0, 24, 0xc63364);
    assert Dotted(203, 0, 113, 0) == "203.0.113.0";
    Ipv4Block(value, 203, 0, 113, 0, 24, 0xcb0071);
    assert Dotted(198, 18, 0, 0) == "198.18.0.0";
    Ipv4Block(value, 198, 18, 0, 0, 15, 0x6309);
  }

  lemma Ipv4TestsE(value: nat)
    ensures Ipv4InRange(value, "192.0.0.0", 24) <==> Within(value, IPV4_BLOCKS[13])
    ensures Ipv4InRange(value, "192.31.196.0", 24) <==> Within(value, IPV4_BLOCKS[14])
    ensures Ipv4InRange(value, "192.52.193.0", 24) <==> Within(value, IPV4_BLOCKS[15])
  {
    hide Ipv4InRange;
    hide Digits;
    Pow2Table();
    SmallDecimalTexts();
    MiddleDecimalTexts();
    LargeDecimalTexts();
    assert Dotted(192, 0, 0, 0) == "192.0.0.0";
    Ipv4Block(value, 192, 0, 0, 0, 24, 0xc00000);
    assert Dotted(192, 31, 196, 0) == "192.31.196.0";
    Ipv4Block(value, 192, 31, 196, 0, 24, 0xc01fc4);
    assert Dotted(192, 52, 193, 0) == "192.52.193.0";
    Ipv4Block(value, 192, 52, 193, 0, 24, 0xc034c1);
  }

  lemma Ipv4TestsF(value: nat)
    ensures Ipv4InRange(value, "192.88.99.0", 24) <==> Within(value, IPV4_BLOCKS[16])
    ensures Ipv4InRange(value, "240.0.0.0", 4) <==> Within(value, IPV4_BLOCKS[17])
  {
    hide Ipv4InRange;
    hide Digits;
    Pow2Table();
    SmallDecimalTexts();
    MiddleDecimalTexts();
    LargeDecimalTexts();
    assert Dotted(192, 88, 99, 0) == "192.88.99.0";
    Ipv4Block(value, 192, 88, 99, 0, 24, 0xc05863);
    assert Dotted(240, 0, 0, 0) == "240.0.0.0";
    Ipv4Block(value, 240, 0, 0, 0, 4, 0xf);
  }

  lemma ShortHexTexts()
    ensures Digits(0x2, 16) == "2" && Digits(0x1, 16) == "1" && Digits(0x3, 16) == "3"
    ensures Digits(0x64, 16) == "64" && Digits(0x10, 16) == "10" && Digits(0x20, 16) == "20"
    ensures Digits(0xdb8, 16) == "db8" && Digits(0x100, 16) == "100"
  {
  }

  lemma LongHexTexts()
    ensures Digits(0xfe80, 16) == "fe80" && Digits(0xfc00, 16) == "fc00" && Digits(0xff00, 16) == "ff00"
    ensures Digits(0x2001, 16) == "2001" && Digits(0xff9b, 16) == "ff9b" && Digits(0x2002, 16) == "2002"
  {
  }

  lemma Pow2LargeTable()
    ensures Pow(2, 32) == 0x1_0000_0000
    ensures Pow(2, 64) == 0x1_0000_0000_0000_0000
    ensures Pow(2, 80) == 0x1_0000_0000_0000_0000_0000
    ensures Pow(2, 96) == 0x1_0000_0000_0000_0000_0000_0000
    ensures Pow(2, 100) == 0x10_0000_0000_0000_0000_0000_0000
    ensures Pow(2, 112) == 0x1_0000_0000_0000_0000_0000_0000_0000
    ensures Pow(2, 118) == 0x40_0000_0000_0000_0000_0000_0000_0000
    ensures Pow(2, 120) == 0x100_0000_0000_0000_0000_0000_0000_0000
    ensures Pow(2, 121) == 0x200_0000_0000_0000_0000_0000_0000_0000
  {
    hide Pow;
    Pow2Table();
    Pow2SmallTable();
    Pow2Product(16, 16);
    Pow2Product(32, 32);
    Pow2Product(64, 16);
    Pow2Product(80, 16);
    Pow2Product(96, 4);
    Pow2Product(96, 16);
    Pow2Product(112, 6);
    Pow2Product(112, 8);
    Pow2Product(120, 1);
  }

  lemma Pow2Product(m: nat, n: nat)
    ensures Pow(2, m + n) == Pow(2, m) * Pow(2, n)
  {
    PowSum(2, m, n);
  }

  lemma Pow2SmallTable()
    ensures Pow(2, 1) == 2 && Pow(2, 4) == 16 && Pow(2, 6) == 64
  {
    assert Pow(2, 2) == 4;
    assert Pow(2, 4) == 4 * Pow(2, 2);
    assert Pow(2, 6) == 4 * Pow(2, 4);
  }

  /** A text of one to seven groups followed by `::`. */
  function HeadText(head: seq<nat>): string {
    Join(Texts(head, 16), ':') + "::"
  }

  lemma {:induction false} TrailingZeros(head: seq<nat>, zeros: nat)
    ensures GroupsToValue(head + Zeros(zeros)) == GroupsToValue(head) * Pow(2, 16 * zeros)
  {
    var groups := head + Zeros(zeros);
    if zeros == 0 {
      assert groups == head;
    } else {
      assert groups[..|groups| - 1] == head + Zeros(zeros - 1);
      TrailingZeros(head, zeros - 1);
      Pow2Table();
      PowSum(2, 16, 16 * (zeros - 1));
      MulSwap(GroupsToValue(head), 65536, Pow(2, 16 * (zeros - 1)));
    }
  }

  lemma MulSwap(a: nat, b: nat, c: nat)
    ensures b * (a * c) == a * (b * c)
  {
  }

  lemma HeadGroups(head: seq<nat>)
    requires 1 <= |head| <= 3 && Below(head, 65536)
    ensures ParseIpv6Groups(HeadText(head)) == Some(head + Zeros(8 - |head|))
  {
    hide ParseIpv6Groups;
    hide Texts;
    hide SplitSide;
    hide ExpandParts;
    var left, none: seq<nat> := Join(Texts(head, 16), ':'), [];
    SideRoundTrip(head);
    NoTexts();
    TwoSidesParse(left, "");
    assert left + "::" + "" == HeadText(head);
    assert head + none == head;
    ExpandTexts(head, none);
    assert head + Zeros(8 - |head|) + none == head + Zeros(8 - |head|);
  }

  lemma HeadValue(head: seq<nat>)
    requires 1 <= |head| <= 3 && Below(head, 65536)
    ensures ParseAddress(HeadText(head), Some(V6)).Some?
    ensures ParseAddress(HeadText(head), Some(V6)).value.value == GroupsToValue(head) * Pow(2, 16 * (8 - |head|))
  {
    hide ParseIpv6Groups;
    hide Join;
    hide Texts;
    hide MakeParsed;
    HeadGroups(head);
    SideLength(head);
    TrailingZeros(head, 8 - |head|);
    var text := HeadText(head);
    assert text[|text| - 1] == ':';
    assert DigitValue('[') == 16 && DigitValue(']') == 16;
    ParsedValue(V6, GroupsToValue(head + Zeros(8 - |head|)));
  }

  lemma ParsedValue(family: Family, value: nat)
    ensures MakeParsed(family, value).value == value
  {
  }

  lemma NoTexts()
    ensures SplitSide("") == Texts([], 16) && Join(Texts([], 16), ':') == ""
  {
  }

  /** One IPv6 test, with the base value given as a multiple of the prefix's block size. */
  lemma Ipv6Block(value: nat, head: seq<nat>, prefix: nat, quotient: nat)
    requires 1 <= |head| <= 3 && Below(head, 65536) && prefix <= 128
    requires GroupsToValue(head) * Pow(2, 16 * (8 - |head|)) == Pow(2, 128 - prefix) * quotient
    ensures var first := Pow(2, 128 - prefix) * quotient;
            Ipv6InRange(value, HeadText(head), prefix) <==> first <= value < first + Pow(2, 128 - prefix)
  {
    hide ParseAddress;
    HeadValue(head);
    ShiftTestIsInterval(value, quotient, 128 - prefix);
  }

  lemma HeadOne(a: nat)
    ensures HeadText([a]) == Digits(a, 16) + "::" && GroupsToValue([a]) == a
  {
    assert Texts([a], 16) == [Digits(a, 16)];
    var none: seq<nat> := [];
    assert [a][..0] == none;
  }

  lemma HeadTwo(a: nat, b: nat)
    ensures HeadText([a, b]) == Digits(a, 16) + ":" + Digits(b, 16) + "::"
    ensures GroupsToValue([a, b]) == 65536 * a + b
  {
    HeadOne(a);
    var t := Texts([a, b], 16);
    assert t[1..] == [Digits(b, 16)];
    assert Join(t, ':') == t[0] + ":" + Join(t[1..], ':');
    assert [a, b][..1] == [a];
  }

  lemma HeadThree(a: nat, b: nat, c: nat)
    ensures HeadText([a, b, c]) == Digits(a, 16) + ":" + Digits(b, 16) + ":" + Digits(c, 16) + "::"
    ensures GroupsToValue([a, b, c]) == 65536 * (65536 * a + b) + c
  {
    HeadTwo(a, b);
    var t := Texts([a, b, c], 16);
    var t1 := t[1..];
    assert t1[1..] == [Digits(c, 16)];
    assert Join(t1, ':') == Digits(b, 16) + ":" + Digits(c, 16);
    assert [a, b, c][..2] == [a, b];
  }

  lemma Ipv6TestsA(value: nat)
    ensures Ipv6InRange(value, "fe80::", 10) <==> Within(value, IPV6_BLOCKS[2])
    ensures Ipv6InRange(value, "fc00::", 7) <==> Within(value, IPV6_BLOCKS[3])
    ensures Ipv6InRange(value, "ff00::", 8) <==> Within(value, IPV6_BLOCKS[4])
  {
    hide Ipv6InRange;
    hide Digits;
    hide HeadText;
    hide GroupsToValue;
    Pow2Table();
    Pow2LargeTable();
    ShortHexTexts();
    LongHexTexts();
    HeadOne(0xfe80);
    assert HeadText([0xfe80]) == "fe80::";
    Ipv6Block(value, [0xfe80], 10, 0x3fa);
    HeadOne(0xfc00);
    assert HeadText([0xfc00]) == "fc00::";
    Ipv6Block(value, [0xfc00], 7, 0x7e);
    HeadOne(0xff00);
    assert HeadText([0xff00]) == "ff00::";
    Ipv6Block(value, [0xff00], 8, 0xff);
  }

  lemma Ipv6TestsB(value: nat)
    ensures Ipv6InRange(value, "2001:db8::", 32) <==> Within(value, IPV6_BLOCKS[5])
    ensures Ipv6InRange(value, "2001:2::", 48) <==> Within(value, IPV6_BLOCKS[6])
  {
    hide Ipv6InRange;
    hide Digits;
    hide HeadText;
    hide GroupsToValue;
    Pow2Table();
    Pow2LargeTable();
    ShortHexTexts();
    LongHexTexts();
    HeadTwo(0x2001, 0xdb8);
    assert HeadText([0x2001, 0xdb8]) == "2001:db8::";
    Ipv6Block(value, [0x2001, 0xdb8], 32, 0x20010db8);
    HeadTwo(0x2001, 0x2);
    assert HeadText([0x2001, 0x2]) == "2001:2::";
    Ipv6Block(value, [0x2001, 0x2], 48, 0x200100020000);
  }

  lemma Ipv6TestsC(value: nat)
    ensures Ipv6InRange(value, "100::", 64) <==> Within(value, IPV6_BLOCKS[7])
    ensures Ipv6InRange(value, "64:ff9b::", 96) <==> Within(value, IPV6_BLOCKS[8])
  {
    hide Ipv6InRange;
    hide Digits;
    hide HeadText;
    hide GroupsToValue;
    Pow2Table();
    Pow2LargeTable();
    ShortHexTexts();
    LongHexTexts();
    HeadOne(0x100);
    assert HeadText([0x100]) == "100::";
    Ipv6Block(value, [0x100], 64, 0x100000000000000);
    HeadTwo(0x64, 0xff9b);
    assert HeadText([0x64, 0xff9b]) == "64:ff9b::";
    Ipv6Block(value, [0x64, 0xff9b], 96, 0x64ff9b0000000000000000);
  }

  lemma Ipv6TestsD(value: nat)
    ensures Ipv6InRange(value, "64:ff9b:1::", 48) <==> Within(value, IPV6_BLOCKS[9])
    ensures Ipv6InRange(value, "2001::", 32) <==> Within(value, IPV6_BLOCKS[10])
  {
    hide Ipv6InRange;
    hide Digits;
    hide HeadText;
    hide GroupsToValue;
    Pow2Table();
    Pow2LargeTable();
    ShortHexTexts();
    LongHexTexts();
    HeadThree(0x64, 0xff9b, 0x1);
    assert HeadText([0x64, 0xff9b, 0x1]) == "64:ff9b:1::";
    Ipv6Block(value, [0x64, 0xff9b, 0x1], 48, 0x64ff9b0001);
    HeadOne(0x2001);
    assert HeadText([0x2001]) == "2001::";
    Ipv6Block(value, [0x2001], 32, 0x20010000);
  }

  lemma Ipv6TestsE(value: nat)
    ensures Ipv6InRange(value, "2001:1::", 32) <==> Within(value, IPV6_BLOCKS[11])
    ensures Ipv6InRange(value, "2001:3::", 32) <==> Within(value, IPV6_BLOCKS[12])
  {
    hide Ipv6InRange;
    hide Digits;
    hide HeadText;
    hide GroupsToValue;
    Pow2Table();
    Pow2LargeTable();
    ShortHexTexts();
    LongHexTexts();
    HeadTwo(0x2001, 0x1);
    assert HeadText([0x2001, 0x1]) == "2001:1::";
    Ipv6Block(value, [0x2001, 0x1], 32, 0x20010001);
    HeadTwo(0x2001, 0x3);
    assert HeadText([0x2001, 0x3]) == "2001:3::";
    Ipv6Block(value, [0x2001, 0x3], 32, 0x20010003);
  }

  lemma Ipv6TestsF(value: nat)
    ensures Ipv6InRange(value, "2001:10::", 28) <==> Within(value, IPV6_BLOCKS[13])
    ensures Ipv6InRange(value, "2001:20::", 28) <==> Within(value, IPV6_BLOCKS[14])
    ensures Ipv6InRange(value, "2002::", 16) <==> Within(value, IPV6_BLOCKS[15])
  {
    hide Ipv6InRange;
    hide Digits;
    hide HeadText;
    hide GroupsToValue;
    Pow2Table();
    Pow2LargeTable();
    ShortHexTexts();
    LongHexTexts();
    HeadTwo(0x2001, 0x10);
    assert HeadText([0x2001, 0x10]) == "2001:10::";
    Ipv6Block(value, [0x2001, 0x10], 28, 0x2001001);
    HeadTwo(0x2001, 0x20);
    assert HeadText([0x2001, 0x20]) == "2001:20::";
    Ipv6Block(value, [0x2001, 0x20], 28, 0x2001002);
    HeadOne(0x2002);
    assert HeadText([0x2002]) == "2002::";
    Ipv6Block(value, [0x2002], 16, 0x2002);
  }

  // ----- the classifiers -----

  /** The IPv4 blocks do not overlap, apart from the broadcast address inside the reserved block. */
  lemma Ipv4BlocksDisjoint(i: nat, j: nat)
    requires i < j < |IPV4_BLOCKS|
    ensures Disjoint(IPV4_BLOCKS[i], IPV4_BLOCKS[j]) <==> !(i == 8 && j == 17)
  {
  }

  lemma Ipv6BlocksDisjoint(i: nat, j: nat)
    requires i < j < |IPV6_BLOCKS|
    ensures Disjoint(IPV6_BLOCKS[i], IPV6_BLOCKS[j])
  {
  }

  /** Every IPv4 block has its class, whatever the order of the tests; global unicast is what is left. */
  lemma ClassifyIpv4ByBlocks(value: nat)
    ensures forall i :: 0 <= i < |IPV4_BLOCKS| && Within(value, IPV4_BLOCKS[i]) && (i == 17 ==> value != 0xffffffff) ==>
              ClassifyIpv4(value) == IPV4_BLOCKS[i].kind
    ensures ClassifyIpv4(value) == GlobalUnicast <==> forall i :: 0 <= i < |IPV4_BLOCKS| ==> !Within(value, IPV4_BLOCKS[i])
  {
    hide Ipv4InRange;
    Ipv4TestsA(value);
    Ipv4TestsB(value);
    Ipv4TestsC(value);
    Ipv4TestsD(value);
    Ipv4TestsE(value);
    Ipv4TestsF(value);
  }

  /** Global unicast is 2000::/3 without the listed blocks; everything else outside them is reserved. */
  lemma ClassifyIpv6ByBlocks(value: nat)
    ensures forall i :: 0 <= i < |IPV6_BLOCKS| && Within(value, IPV6_BLOCKS[i]) ==> ClassifyIpv6(value) == IPV6_BLOCKS[i].kind
    ensures (forall i :: 0 <= i < |IPV6_BLOCKS| ==> !Within(value, IPV6_BLOCKS[i])) ==>
              ClassifyIpv6(value) ==
                if 0x20000000000000000000000000000000 <= value <= 0x3fffffffffffffffffffffffffffffff
                then GlobalUnicast else Reserved
  {
    hide Ipv6InRange;
    assert (value == 0 <==> Within(value, IPV6_BLOCKS[0])) && (value == 1 <==> Within(value, IPV6_BLOCKS[1]));
    Ipv6TestsA(value);
    Ipv6TestsB(value);
    Ipv6TestsC(value);
    Ipv6TestsD(value);
    Ipv6TestsE(value);
    Ipv6TestsF(value);
  }
}
