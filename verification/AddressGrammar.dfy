/**
  Which texts the address parsers accept, and as what: the grammar of section 2.2 of RFC 4291 with
  plain dotted decimals, stated apart from the way the parsers take a text to pieces.
 */
module AddressGrammar {
  import opened Wrappers
  import opened Arithmetic
  import opened AddressText

  // ----- numbers -----

  /** Decimal texts without leading zeros are exactly the printed ones. */
  lemma {:induction false} PrintedDecimal(s: string)
    requires s != "" && AllDigits(s, 10) && (|s| > 1 ==> s[0] != '0')
    ensures Digits(DigitsValue(s, 10), 10) == s
  {
    var front, last := s[..|s| - 1], s[|s| - 1];
    LastDigit(s);
    hide AllDigits;
    hide DigitChar;
    if front == "" {
      OneDecimal(s);
    } else {
      assert front[0] == s[0];
      PrintedDecimal(front);
      MoreDecimals(s);
    }
  }

  lemma OneDecimal(s: string)
    requires |s| == 1 && DigitValue(s[0]) < 10 && DigitChar(DigitValue(s[0])) == s[0]
    ensures Digits(DigitsValue(s, 10), 10) == s
  {
    hide DigitChar;
    hide DigitValue;
    ValueStep(s, 10);
    OneDigit(DigitValue(s[0]), 10);
    hide Digits;
    hide DigitsValue;
    assert s == [s[0]];
  }

  lemma MoreDecimals(s: string)
    requires |s| > 1 && AllDigits(s[..|s| - 1], 10) && s[0] != '0'
    requires DigitValue(s[|s| - 1]) < 10 && DigitChar(DigitValue(s[|s| - 1])) == s[|s| - 1]
    requires Digits(DigitsValue(s[..|s| - 1], 10), 10) == s[..|s| - 1]
    ensures Digits(DigitsValue(s, 10), 10) == s
  {
    hide DigitChar;
    hide DigitValue;
    hide AllDigits;
    hide Digits;
    hide DigitsValue;
    ValueStep(s, 10);
    PositiveDigits(s[..|s| - 1], 10);
    DigitsStep(DigitsValue(s[..|s| - 1], 10), DigitValue(s[|s| - 1]), 10);
    assert s == s[..|s| - 1] + [s[|s| - 1]];
  }

  lemma LastDigit(s: string)
    requires s != "" && AllDigits(s, 10)
    ensures DigitValue(s[|s| - 1]) < 10 && DigitChar(DigitValue(s[|s| - 1])) == s[|s| - 1]
    ensures AllDigits(s[..|s| - 1], 10)
  {
    hide DigitChar;
    assert s[|s| - 1] in s;
    assert forall c :: c in s[..|s| - 1] ==> c in s;
    DecimalDigit(s[|s| - 1]);
  }

  lemma DecimalDigit(c: char)
    requires DigitValue(c) < 10
    ensures DigitChar(DigitValue(c)) == c
  {
  }

  lemma ValueStep(s: string, base: nat)
    requires s != ""
    ensures DigitsValue(s, base) == base * DigitsValue(s[..|s| - 1], base) + DigitValue(s[|s| - 1])
    ensures |s| == 1 ==> DigitsValue(s, base) == DigitValue(s[0])
  {
    assert DigitsValue("", base) == 0;
    if |s| == 1 { assert s[..0] == ""; }
  }

  lemma OneDigit(d: nat, base: nat)
    requires 2 <= base <= 16 && d < base
    ensures Digits(d, base) == [DigitChar(d)]
  {
  }

  lemma DigitsStep(q: nat, d: nat, base: nat)
    requires 2 <= base <= 16 && q > 0 && d < base
    ensures Digits(base * q + d, base) == Digits(q, base) + [DigitChar(d)]
  {
    AtLeastBase(q, base);
    QuotientUnique(q, d, base);
  }

  lemma AtLeastBase(q: nat, base: nat)
    requires q > 0
    ensures base * q >= base
  {
  }

  lemma {:induction false} PositiveDigits(s: string, base: nat)
    requires 2 <= base <= 16 && s != "" && AllDigits(s, base) && s[0] != '0'
    ensures DigitsValue(s, base) > 0
  {
    assert s[0] in s;
    if |s| > 1 {
      assert s[..|s| - 1][0] == s[0];
      assert forall c :: c in s[..|s| - 1] ==> c in s;
      PositiveDigits(s[..|s| - 1], base);
      AtLeastBase(DigitsValue(s[..|s| - 1], base), base);
    } else {
      assert s[..0] == "";
    }
  }

  lemma {:induction false} JoinSplit(s: string, sep: char)
    ensures Join(Split(s, sep), sep) == s
    ensures NoneContains(Split(s, sep), sep)
  {
    if s != "" {
      var rest := Split(s[1..], sep);
      JoinSplit(s[1..], sep);
      var parts := Split(s, sep);
      if s[0] == sep {
        assert parts[1..] == rest;
      } else {
        assert parts[1..] == rest[1..];
      }
    }
  }

  // ----- IPv4 -----

  lemma {:induction false} PrintedOctets(parts: seq<string>)
    requires ParseOctets(parts).Some?
    ensures Texts(ParseOctets(parts).value, 10) == parts
  {
    if parts != [] {
      PrintedOctets(parts[1..]);
      PrintedDecimal(parts[0]);
      var octets := ParseOctets(parts).value;
      TextsTail(octets, 10);
      hide Texts;
      assert octets[1..] == ParseOctets(parts[1..]).value;
      assert parts == [parts[0]] + parts[1..];
      assert Texts(octets, 10) == [Texts(octets, 10)[0]] + Texts(octets, 10)[1..];
    }
  }

  lemma OctetsBack(octets: seq<nat>)
    requires |octets| == 4 && Below(octets, 256)
    ensures ValueToOctets(OctetsToValue(octets)) == octets
    ensures OctetsToValue(octets) < 0x1_0000_0000
  {
    var v := OctetsToValue(octets);
    var high, middle := octets[0] * 256 + octets[1], (octets[0] * 256 + octets[1]) * 256 + octets[2];
    assert v == 256 * middle + octets[3] && middle == 256 * high + octets[2];
    QuotientUnique(middle, octets[3], 256);
    QuotientUnique(high, octets[2], 256);
    QuotientUnique(octets[0], octets[1], 256);
    QuotientTwice(v, 256, 256);
    QuotientTwice(v, 256, 0x1_0000);
    assert v / 0x1_0000 == high && v / 0x100_0000 == high / 256;
  }

  lemma QuotientTwice(n: nat, a: nat, b: nat)
    requires a > 0 && b > 0
    ensures a * b > 0 && n / (a * b) == n / a / b
  {
    var q, r := n / a / b, n / a % b;
    DivMod(n, a);
    DivMod(n / a, b);
    MulAssociative(a, b, q);
    assert a * (b * q + r) == a * b * q + a * r;
    MulMonotone(r + 1, b, a);
    assert a * b > 0 by { MulMonotone(1, b, a); }
    QuotientUnique(q, a * r + n % a, a * b);
  }

  /** The IPv4 parser accepts exactly the canonical dotted texts of the 32-bit values, as these values. */
  lemma Ipv4Exactly(text: string, value: nat)
    ensures ParseIpv4Value(text) == Some(value) <==> value < 0x1_0000_0000 && text == FormatIpv4Value(value)
  {
    if value < 0x1_0000_0000 && text == FormatIpv4Value(value) {
      Ipv4RoundTrip(value);
    } else if ParseIpv4Value(text) == Some(value) {
      var octets := ParseOctets(Split(text, '.')).value;
      JoinSplit(text, '.');
      PrintedOctets(Split(text, '.'));
      OctetsBack(octets);
    }
  }

  // ----- IPv6 -----

  /** One group: one to four hexadecimal digits, in either case, leading zeros allowed. */
  predicate HexGroup(part: string, group: nat) {
    1 <= |part| <= 4 && AllDigits(part, 16) && group == DigitsValue(part, 16)
  }

  /** Two groups written as a dotted decimal. */
  ghost predicate DottedTail(part: string, groups: seq<nat>) {
    |groups| == 2 && Below(groups, 65536) && part == FormatIpv4Value(65536 * groups[0] + groups[1])
  }

  /** The groups that a list of parts stands for: one each, but the last part may be a dotted decimal. */
  ghost predicate Means(parts: seq<string>, groups: seq<nat>) {
    || (|parts| == |groups| && forall i :: 0 <= i < |parts| ==> HexGroup(parts[i], groups[i]))
    || (|parts| >= 1 && |groups| == |parts| + 1
        && (forall i :: 0 <= i < |parts| - 1 ==> HexGroup(parts[i], groups[i]))
        && DottedTail(parts[|parts| - 1], groups[|parts| - 1..]))
  }

  /** Eight groups written out. */
  ghost predicate ReadsPlain(text: string, parts: seq<string>, groups: seq<nat>) {
    parts != [] && text == Join(parts, ':') && Means(parts, groups)
  }

  /** At most seven groups around a double colon that stands for the missing zeros. */
  ghost predicate ReadsCompressed(text: string, left: seq<string>, right: seq<string>, groups: seq<nat>, tail: seq<nat>)
    requires |groups| == 8
  {
    && text == Join(left, ':') + "::" + Join(right, ':')
    && |left| + |tail| < 8
    && (forall i :: 0 <= i < |left| ==> HexGroup(left[i], groups[i]))
    && (forall i :: |left| <= i < 8 - |tail| ==> groups[i] == 0)
    && groups[8 - |tail|..] == tail && Means(right, tail)
  }

  /** What an IPv6 text says, by the grammar. */
  ghost predicate Reads(text: string, groups: seq<nat>) {
    && |groups| == 8
    && ((exists parts :: ReadsPlain(text, parts, groups))
        || (exists left, right, tail :: ReadsCompressed(text, left, right, groups, tail)))
  }

  // ----- parts and groups -----

  lemma DottedIsDotted(value: nat)
    ensures '.' in FormatIpv4Value(value) && ':' !in FormatIpv4Value(value) && FormatIpv4Value(value) != ""
    ensures forall c :: c in FormatIpv4Value(value) ==> Ipv6Char(c)
  {
    var octets := ValueToOctets(value);
    var texts := Texts(octets, 10);
    TextsAreDigits(octets, 10);
    JoinChars(texts, '.', 10);
    assert Join(texts, '.') == texts[0] + ['.'] + Join(texts[1..], '.');
    assert Join(texts, '.')[|texts[0]|] == '.';
    assert DigitValue(':') == 16;
  }

  lemma HexIsPlain(part: string, group: nat)
    requires HexGroup(part, group)
    ensures '.' !in part && ':' !in part && part != "" && group < 65536 && forall c :: c in part ==> Ipv6Char(c)
  {
    HexBound(part);
    assert DigitValue('.') == 16 && DigitValue(':') == 16;
  }

  lemma DottedGroups(part: string, groups: seq<nat>)
    ensures DottedTail(part, groups) <==>
            ParseIpv4Value(part).Some? && groups == [ParseIpv4Value(part).value / 65536 % 65536, ParseIpv4Value(part).value % 65536]
  {
    hide FormatIpv4Value;
    hide ParseIpv4Value;
    if DottedTail(part, groups) {
      var value := 65536 * groups[0] + groups[1];
      Ipv4Exactly(part, value);
      QuotientUnique(groups[0], groups[1], 65536);
    }
    if ParseIpv4Value(part).Some? && groups == [ParseIpv4Value(part).value / 65536 % 65536, ParseIpv4Value(part).value % 65536] {
      var value := ParseIpv4Value(part).value;
      Ipv4Exactly(part, value);
      DivMod(value, 65536);
      QuotientBound(value, 65536, 65536);
    }
  }

  /** The pushing loop reads a list of parts as the groups it means. */
  lemma {:induction false} PartsMean(parts: seq<string>, groups: seq<nat>)
    ensures DottedTailOnly(parts) && PartsToGroups(parts) == Some(groups) <==> Means(parts, groups)
  {
    hide ParseIpv4Value;
    hide FormatIpv4Value;
    hide AllDigits;
    if parts != [] {
      var first, rest := parts[0], parts[1..];
      if |parts| == 1 {
        OnePart(first, groups);
        assert parts == [first];
      } else {
        if |groups| > 0 {
          PartsMean(rest, groups[1..]);
          FirstPushed(parts, groups);
          FirstMeant(parts, groups);
        } else {
          NoGroups(parts);
        }
      }
    }
  }

  lemma FirstPushed(parts: seq<string>, groups: seq<nat>)
    requires |parts| >= 2 && |groups| >= 1
    ensures DottedTailOnly(parts) && PartsToGroups(parts) == Some(groups) <==>
            HexGroup(parts[0], groups[0]) && DottedTailOnly(parts[1..]) && PartsToGroups(parts[1..]) == Some(groups[1..])
  {
    hide ParseIpv4Value;
    hide AllDigits;
    var first, rest := parts[0], parts[1..];
    TailDotted(parts);
    if HexGroup(first, groups[0]) {
      HexIsPlain(first, groups[0]);
      assert [groups[0]] + groups[1..] == groups;
    }
    if DottedTailOnly(parts) && PartsToGroups(parts) == Some(groups) {
      assert '.' !in first;
      assert groups == [ParseHexGroup(first).value] + PartsToGroups(rest).value;
      assert groups[1..] == PartsToGroups(rest).value;
    }
  }

  lemma TailDotted(parts: seq<string>)
    requires |parts| >= 2
    ensures DottedTailOnly(parts) <==> '.' !in parts[0] && DottedTailOnly(parts[1..])
  {
    if '.' !in parts[0] && DottedTailOnly(parts[1..]) {
      forall i | 0 <= i < |parts| - 1 ensures '.' !in parts[i] {
        if i > 0 { assert parts[i] == parts[1..][i - 1]; }
      }
    }
  }

  lemma FirstMeant(parts: seq<string>, groups: seq<nat>)
    requires |parts| >= 2 && |groups| >= 1
    ensures Means(parts, groups) <==> HexGroup(parts[0], groups[0]) && Means(parts[1..], groups[1..])
  {
    hide HexGroup;
    hide DottedTail;
    var ps, gs := parts[1..], groups[1..];
    assert forall i :: 0 <= i < |ps| ==> ps[i] == parts[i + 1];
    assert forall i :: 0 <= i < |gs| ==> gs[i] == groups[i + 1];
    if |groups| == |parts| + 1 {
      assert gs[|ps| - 1..] == groups[|parts| - 1..];
      if HexGroup(parts[0], groups[0]) && Means(ps, gs) {
        forall i | 0 <= i < |parts| - 1 ensures HexGroup(parts[i], groups[i]) {
          if i > 0 { assert HexGroup(ps[i - 1], gs[i - 1]); }
        }
      }
      if Means(parts, groups) {
        forall i | 0 <= i < |ps| - 1 ensures HexGroup(ps[i], gs[i]) {
          assert HexGroup(parts[i + 1], groups[i + 1]);
        }
      }
    } else if |groups| == |parts| {
      if HexGroup(parts[0], groups[0]) && Means(ps, gs) {
        forall i | 0 <= i < |parts| ensures HexGroup(parts[i], groups[i]) {
          if i > 0 { assert HexGroup(ps[i - 1], gs[i - 1]); }
        }
      }
      if Means(parts, groups) {
        forall i | 0 <= i < |ps| ensures HexGroup(ps[i], gs[i]) {
          assert HexGroup(parts[i + 1], groups[i + 1]);
        }
      }
    }
  }

  lemma NoGroups(parts: seq<string>)
    requires parts != []
    ensures PartsToGroups(parts) != Some([])
  {
  }

  lemma OnePart(part: string, groups: seq<nat>)
    ensures PartsToGroups([part]) == Some(groups) <==> Means([part], groups)
  {
    hide ParseIpv4Value;
    hide FormatIpv4Value;
    hide AllDigits;
    DottedGroups(part, groups);
    OnlyPart(part);
    assert groups[0..] == groups;
    if |groups| == 1 && HexGroup(part, groups[0]) { HexIsPlain(part, groups[0]); }
    if DottedTail(part, groups) { DottedIsDotted(65536 * groups[0] + groups[1]); }
    if '.' !in part && ParseHexGroup(part).Some? && groups == [ParseHexGroup(part).value] {
      assert HexGroup(part, groups[0]);
    }
    hide DottedTail;
    hide PartsToGroups;
  }

  lemma OnlyPart(part: string)
    ensures PartsToGroups([part]) ==
            if '.' in part then
              if ParseIpv4Value(part).None? then None
              else Some([ParseIpv4Value(part).value / 65536 % 65536, ParseIpv4Value(part).value % 65536])
            else if ParseHexGroup(part).None? then None
            else Some([ParseHexGroup(part).value])
  {
    hide ParseIpv4Value;
    hide ParseHexGroup;
    assert [part][1..] == [] && PartsToGroups([]) == Some([]);
    assert forall groups: seq<nat> :: groups + [] == groups;
  }

  // ----- whole texts -----

  /** Parts of a list that means something hold no colon and are not empty. */
  lemma MeaningfulParts(parts: seq<string>, groups: seq<nat>)
    requires Means(parts, groups)
    ensures "" !in parts && NoneContains(parts, ':') && Below(groups, 65536)
    ensures forall p, c :: p in parts && c in p ==> Ipv6Char(c)
  {
    hide FormatIpv4Value;
    hide AllDigits;
    forall p | p in parts ensures p != "" && ':' !in p && forall c :: c in p ==> Ipv6Char(c) {
      var i :| 0 <= i < |parts| && parts[i] == p;
      if |groups| == |parts| || i < |parts| - 1 {
        HexIsPlain(parts[i], groups[i]);
      } else {
        var tail := groups[|parts| - 1..];
        DottedIsDotted(65536 * tail[0] + tail[1]);
      }
    }
    forall i | 0 <= i < |groups| ensures groups[i] < 65536 {
      if i < |parts| && (|groups| == |parts| || i < |parts| - 1) {
        HexIsPlain(parts[i], groups[i]);
      } else {
        assert groups[i] == groups[|parts| - 1..][i - (|parts| - 1)];
      }
    }
  }

  lemma {:induction false} JoinedChars(parts: seq<string>)
    requires forall p, c :: p in parts && c in p ==> Ipv6Char(c)
    ensures forall c :: c in Join(parts, ':') ==> Ipv6Char(c)
  {
    if |parts| > 1 {
      assert parts[0] in parts;
      JoinedChars(parts[1..]);
    } else if |parts| == 1 {
      assert parts[0] in parts;
    }
  }

  /** One side of a text, joined from its parts, is clean and splits back into them. */
  lemma SideBack(parts: seq<string>, groups: seq<nat>)
    requires Means(parts, groups)
    ensures SplitSide(Join(parts, ':')) == parts
    ensures parts != [] ==> Clean(Join(parts, ':'))
    ensures forall c :: c in Join(parts, ':') ==> Ipv6Char(c)
  {
    MeaningfulParts(parts, groups);
    JoinedChars(parts);
    if parts != [] {
      JoinIsClean(parts);
      SplitJoin(parts, ':');
    }
  }

  lemma PlainAccepted(text: string, parts: seq<string>, groups: seq<nat>)
    requires |groups| == 8 && ReadsPlain(text, parts, groups)
    ensures ParseIpv6Groups(text) == Some(groups)
  {
    SideBack(parts, groups);
    MeaningfulParts(parts, groups);
    PartsMean(parts, groups);
    CleanHasNoDouble(text, 0);
    assert parts + [] == parts;
    hide Means;
    hide SplitSide;
    hide Clean;
    hide PartsToGroups;
  }

  lemma CompressedAccepted(text: string, left: seq<string>, right: seq<string>, groups: seq<nat>, tail: seq<nat>)
    requires |groups| == 8 && ReadsCompressed(text, left, right, groups, tail)
    ensures ParseIpv6Groups(text) == Some(groups)
  {
    hide ParseIpv6Groups;
    hide ExpandParts;
    hide SplitSide;
    hide HexGroup;
    hide DottedTail;
    hide Clean;
    var head := groups[..|left|];
    assert Means(left, head);
    SideBack(left, head);
    SideBack(right, tail);
    SidesMean(left, right, head, tail);
    TwoSidesParse(Join(left, ':'), Join(right, ':'));
    ExpandSides(left, right, head, tail);
    hide Means;
    hide ReadsCompressed;
    GroupsInThree(groups, |left|, tail);
  }

  lemma GroupsInThree(groups: seq<nat>, k: nat, tail: seq<nat>)
    requires |groups| == 8 && k + |tail| < 8 && groups[8 - |tail|..] == tail
    requires forall i :: k <= i < 8 - |tail| ==> groups[i] == 0
    ensures groups == groups[..k] + Zeros(8 - |groups[..k] + tail|) + tail
  {
    assert forall i :: 0 <= i < |tail| ==> groups[8 - |tail| + i] == tail[i];
  }

  /** Hexadecimal parts before meaningful ones. */
  lemma SidesMean(left: seq<string>, right: seq<string>, head: seq<nat>, tail: seq<nat>)
    requires |left| == |head| && (forall i :: 0 <= i < |left| ==> HexGroup(left[i], head[i])) && Means(right, tail)
    ensures Means(left + right, head + tail)
  {
    hide HexGroup;
    hide DottedTail;
    if |tail| == |right| + 1 {
      assert (head + tail)[|left + right| - 1..] == tail[|right| - 1..];
    }
  }

  lemma ExpandSides(left: seq<string>, right: seq<string>, head: seq<nat>, tail: seq<nat>)
    requires |left| == |head| && |head| + |tail| < 8 && (forall i :: 0 <= i < |left| ==> HexGroup(left[i], head[i]))
    requires Means(right, tail) && Means(left + right, head + tail)
    ensures ExpandParts(left, right, true) == Some(head + Zeros(8 - |head + tail|) + tail)
  {
    MeaningfulParts(left + right, head + tail);
    PartsMean(left + right, head + tail);
    hide Means;
    if right == [] && left != [] {
      assert left + right == left;
      HexIsPlain(left[|left| - 1], head[|left| - 1]);
    }
    hide HexGroup;
    assert (head + tail)[..|left|] == head && (head + tail)[|left|..] == tail;
    ExpandGood(left, right, head + tail);
  }

  lemma ExpandGood(left: seq<string>, right: seq<string>, groups: seq<nat>)
    requires "" !in left + right && DottedTailOnly(left + right) && PartsToGroups(left + right) == Some(groups)
    requires right == [] && left != [] ==> '.' !in left[|left| - 1]
    requires |left| <= |groups| < 8
    ensures ExpandParts(left, right, true) == Some(groups[..|left|] + Zeros(8 - |groups|) + groups[|left|..])
  {
    hide PartsToGroups;
    hide Zeros;
    assert right == [] ==> left + right == left;
  }

  lemma PlainIsRead(text: string)
    requires ParseIpv6Groups(text).Some? && IndexOfDouble(text, 0) == -1
    ensures ReadsPlain(text, Split(text, ':'), ParseIpv6Groups(text).value)
  {
    JoinSplit(text, ':');
    var parts := Split(text, ':');
    assert parts + [] == parts;
    PartsMean(parts, ParseIpv6Groups(text).value);
    hide PartsToGroups;
    hide Means;
    hide Split;
  }

  lemma CompressedIsRead(text: string)
    requires ParseIpv6Groups(text).Some? && IndexOfDouble(text, 0) != -1
    ensures exists left, right, tail :: ReadsCompressed(text, left, right, ParseIpv6Groups(text).value, tail)
  {
    hide ExpandParts;
    hide SplitSide;
    var k := IndexOfDouble(text, 0);
    var left, right := SplitSide(text[..k]), SplitSide(text[k + 2..]);
    assert ExpandParts(left, right, true) == ParseIpv6Groups(text);
    var groups := ParseIpv6Groups(text).value;
    hide ParseIpv6Groups;
    SideJoined(text[..k]);
    SideJoined(text[k + 2..]);
    assert text == text[..k] + "::" + text[k + 2..];
    ExpandedIsRead(text, left, right, groups);
  }

  lemma ExpandedIsRead(text: string, left: seq<string>, right: seq<string>, groups: seq<nat>)
    requires ExpandParts(left, right, true) == Some(groups) && text == Join(left, ':') + "::" + Join(right, ':')
    ensures |groups| == 8 && exists tail :: ReadsCompressed(text, left, right, groups, tail)
  {
    var pushed := PartsToGroups(left + right).value;
    PartsMean(left + right, pushed);
    assert right == [] ==> left + right == left;
    DotlessTail(left, right, pushed);
    SidesApart(left, right, pushed);
    hide PartsToGroups;
    hide Means;
    ExpandedGroups(left, right, pushed, groups);
    hide ExpandParts;
    assert ReadsCompressed(text, left, right, groups, pushed[|left|..]);
  }

  /** The groups of both sides with the zeros between them. */
  lemma ExpandedGroups(left: seq<string>, right: seq<string>, pushed: seq<nat>, groups: seq<nat>)
    requires PartsToGroups(left + right) == Some(pushed) && ExpandParts(left, right, true) == Some(groups)
    requires |left| <= |pushed| && forall i :: 0 <= i < |left| ==> HexGroup(left[i], pushed[i])
    ensures |pushed| < 8 && |groups| == 8
    ensures groups[8 - (|pushed| - |left|)..] == pushed[|left|..]
    ensures forall i :: |left| <= i < 8 - (|pushed| - |left|) ==> groups[i] == 0
    ensures forall i :: 0 <= i < |left| ==> HexGroup(left[i], groups[i])
  {
    hide PartsToGroups;
    hide HexGroup;
    var head, tail := pushed[..|left|], pushed[|left|..];
    assert groups == head + Zeros(8 - |pushed|) + tail;
    hide ExpandParts;
    forall i | 0 <= i < |left| ensures groups[i] == pushed[i] {
      assert groups[i] == head[i];
    }
  }

  /** With nothing on the right of the double colon there is no dotted part. */
  lemma DotlessTail(left: seq<string>, right: seq<string>, pushed: seq<nat>)
    requires ExpandParts(left, right, true).Some? && Means(left + right, pushed)
    ensures right == [] ==> |pushed| == |left|
  {
    hide PartsToGroups;
    assert right == [] ==> left + right == left;
    if right == [] && |pushed| == |left| + 1 { TailHasDot(left, pushed); }
  }

  lemma TailHasDot(parts: seq<string>, groups: seq<nat>)
    requires Means(parts, groups) && |groups| == |parts| + 1
    ensures parts != [] && '.' in parts[|parts| - 1]
  {
    var tail := groups[|parts| - 1..];
    DottedIsDotted(65536 * tail[0] + tail[1]);
    hide FormatIpv4Value;
  }

  lemma SideJoined(side: string)
    ensures Join(SplitSide(side), ':') == side
  {
    JoinSplit(side, ':');
  }

  /** What the parts of both sides mean together, they mean apart, when a dotted tail is on the right. */
  lemma SidesApart(left: seq<string>, right: seq<string>, pushed: seq<nat>)
    requires Means(left + right, pushed) && (right == [] ==> |pushed| == |left|)
    ensures |left| <= |pushed| && Means(right, pushed[|left|..])
    ensures forall i :: 0 <= i < |left| ==> HexGroup(left[i], pushed[i])
  {
    hide HexGroup;
    hide DottedTail;
    var parts, tail := left + right, pushed[|left|..];
    forall i | 0 <= i < |left| && (|pushed| == |parts| || i < |parts| - 1) ensures HexGroup(left[i], pushed[i]) {
      assert parts[i] == left[i];
    }
    forall i | 0 <= i < |right| && (|pushed| == |parts| || i < |right| - 1) ensures HexGroup(right[i], tail[i]) {
      assert parts[|left| + i] == right[i] && pushed[|left| + i] == tail[i];
    }
    if |pushed| == |parts| + 1 {
      assert pushed[|parts| - 1..] == tail[|right| - 1..];
      assert parts[|parts| - 1] == right[|right| - 1];
    }
  }

  /** The IPv6 parser reads a text as these groups iff the grammar does. */
  lemma Ipv6Exactly(text: string, groups: seq<nat>)
    ensures ParseIpv6Groups(text) == Some(groups) <==> Reads(text, groups)
  {
    hide ReadsPlain;
    hide ReadsCompressed;
    hide ParseIpv6Groups;
    if |groups| == 8 {
      if parts :| ReadsPlain(text, parts, groups) {
        PlainAccepted(text, parts, groups);
      }
      if left, right, tail :| ReadsCompressed(text, left, right, groups, tail) {
        CompressedAccepted(text, left, right, groups, tail);
      }
    }
    if ParseIpv6Groups(text) == Some(groups) {
      if IndexOfDouble(text, 0) == -1 { PlainIsRead(text); } else { CompressedIsRead(text); }
    }
  }

  /**
    The address parser, exactly: an accepted text is at most 45 characters long and either the dotted
    text of its IPv4 value, or an IPv6 text that the grammar reads as the groups of its value; the
    family the caller requires must be its own.
   */
  lemma AddressExactly(text: string, required: Option<Family>, family: Family, value: nat)
    requires value < Space(family)
    ensures ParseAddress(text, required) == Some(MakeParsed(family, value)) <==>
            && |text| <= 45 && (required.None? || required.value == family)
            && match family
               case V4 => text == FormatIpv4Value(value)
               case V6 => Reads(text, ValueToGroups(value))
  {
    hide Reads;
    hide ParseIpv6Groups;
    hide ParseIpv4Value;
    hide FormatIpv4Value;
    match family
    case V4 =>
      Ipv4Exactly(text, value);
      DottedIsDotted(value);
      hide ValueToGroups;
    case V6 =>
      Ipv6Exactly(text, ValueToGroups(value));
      SpaceIsPow();
      GroupsOfValue(value, 8);
      if ParseIpv6Groups(text).Some? { ValueOfGroups(ParseIpv6Groups(text).value); }
      if Reads(text, ValueToGroups(value)) { ReadHasColon(text, ValueToGroups(value)); }
  }

  lemma ReadHasColon(text: string, groups: seq<nat>)
    requires Reads(text, groups)
    ensures ':' in text && '[' !in text && ']' !in text && text != ""
  {
    hide ReadsCompressed;
    hide Means;
    Ipv6Exactly(text, groups);
    assert forall c :: c in text ==> Ipv6Char(c);
    assert !Ipv6Char('[') && !Ipv6Char(']');
    if parts :| ReadsPlain(text, parts, groups) {
      FewParts(parts, groups);
      assert text == parts[0] + [':'] + Join(parts[1..], ':');
      assert text[|parts[0]|] == ':';
    } else {
      var left, right, tail :| ReadsCompressed(text, left, right, groups, tail);
      DoubleColon(text, left, right, groups, tail);
    }
  }

  lemma FewParts(parts: seq<string>, groups: seq<nat>)
    requires |groups| == 8 && Means(parts, groups)
    ensures |parts| >= 7
  {
  }

  lemma DoubleColon(text: string, left: seq<string>, right: seq<string>, groups: seq<nat>, tail: seq<nat>)
    requires |groups| == 8 && ReadsCompressed(text, left, right, groups, tail)
    ensures ':' in text
  {
    assert text[|Join(left, ':')|] == ':';
  }

  // ----- the printed form -----

  predicate LowerHex(c: char) {
    '0' <= c <= '9' || 'a' <= c <= 'f'
  }

  /** A group as section 4 of RFC 5952 writes it: lower case, and no leading zero. */
  predicate ShortGroup(part: string, group: nat) {
    HexGroup(part, group) && (forall c :: c in part ==> LowerHex(c)) && (|part| > 1 ==> part[0] != '0')
  }

  predicate ShortGroups(parts: seq<string>, groups: seq<nat>) {
    |parts| == |groups| && forall i :: 0 <= i < |parts| ==> ShortGroup(parts[i], groups[i])
  }

  predicate ZerosAt(groups: seq<nat>, start: nat, end: nat) {
    start <= end <= |groups| && forall i :: start <= i < end ==> groups[i] == 0
  }

  /** The first of the longest zero runs of at least two groups. */
  ghost predicate FirstLongestRun(groups: seq<nat>, start: nat, end: nat) {
    && start + 2 <= end && ZerosAt(groups, start, end)
    && forall i: nat, j: nat :: ZerosAt(groups, i, j) ==> j - i < end - start || (j - i == end - start && start <= i)
  }

  ghost predicate ShortAround(text: string, left: seq<string>, right: seq<string>, groups: seq<nat>, start: nat, end: nat) {
    && FirstLongestRun(groups, start, end)
    && text == Join(left, ':') + "::" + Join(right, ':')
    && ShortGroups(left, groups[..start]) && ShortGroups(right, groups[end..])
  }

  /** The text that section 4 of RFC 5952 recommends, apart from dotted tails. */
  ghost predicate Recommended(text: string, groups: seq<nat>) {
    if exists i: nat, j: nat :: i + 2 <= j && ZerosAt(groups, i, j) then
      exists left, right, start: nat, end: nat :: ShortAround(text, left, right, groups, start, end)
    else exists parts :: text == Join(parts, ':') && ShortGroups(parts, groups)
  }

  lemma LowerDigit(c: char)
    ensures LowerHex(c) ==> DigitValue(c) < 16 && DigitChar(DigitValue(c)) == c
  {
  }

  lemma DigitIsLower(d: nat)
    requires d < 16
    ensures LowerHex(DigitChar(d))
  {
  }

  lemma {:induction false} PrintedHex(s: string)
    requires s != "" && (forall c :: c in s ==> LowerHex(c)) && (|s| > 1 ==> s[0] != '0')
    ensures Digits(DigitsValue(s, 16), 16) == s
  {
    hide DigitChar;
    hide DigitValue;
    var front, last := s[..|s| - 1], s[|s| - 1];
    assert last in s && forall c :: c in front ==> c in s;
    LowerDigit(last);
    ValueStep(s, 16);
    assert s == front + [last];
    if front == "" {
      OneDigit(DigitValue(last), 16);
    } else {
      assert front[0] == s[0];
      forall c | c in front ensures DigitValue(c) < 16 { LowerDigit(c); }
      PrintedHex(front);
      PositiveDigits(front, 16);
      DigitsStep(DigitsValue(front, 16), DigitValue(last), 16);
    }
    hide Digits;
    hide DigitsValue;
  }

  lemma {:induction false} DigitsAreLower(n: nat)
    ensures forall c :: c in Digits(n, 16) ==> LowerHex(c)
    decreases n
  {
    hide DigitChar;
    DigitIsLower(n % 16);
    if n < 16 {
      DigitIsLower(n);
    } else {
      DigitsAreLower(n / 16);
    }
  }

  lemma ShortExactly(part: string, group: nat)
    requires group < 65536
    ensures ShortGroup(part, group) <==> part == Digits(group, 16)
  {
    hide Digits;
    hide DigitsValue;
    hide DigitValue;
    if ShortGroup(part, group) {
      PrintedHex(part);
    }
    HexRoundTrip(group);
    DigitsRoundTrip(group, 16);
    DigitsAreLower(group);
  }

  lemma ShortTexts(parts: seq<string>, groups: seq<nat>)
    requires Below(groups, 65536)
    ensures ShortGroups(parts, groups) <==> parts == Texts(groups, 16)
  {
    hide Digits;
    hide ShortGroup;
    forall i | 0 <= i < |parts| && |parts| == |groups| ensures ShortGroup(parts[i], groups[i]) <==> parts[i] == Texts(groups, 16)[i] {
      ShortExactly(parts[i], groups[i]);
    }
  }

  lemma {:induction false} RunAtLeast(groups: seq<nat>, i: nat, j: nat)
    requires ZerosAt(groups, i, j)
    ensures ZeroRun(groups, i) >= j - i
    decreases j - i
  {
    if i < j { RunAtLeast(groups, i + 1, j); }
  }

  /** The scan finds that run, and finds none iff there is none. */
  lemma BestRunExactly(groups: seq<nat>, start: nat, end: nat)
    ensures FirstLongestRun(groups, start, end) <==> end >= start && BestRun(groups, |groups|) == (start, end - start)
    ensures BestRun(groups, |groups|).0 == -1 <==> !(exists i: nat, j: nat :: i + 2 <= j && ZerosAt(groups, i, j))
  {
    var (first, len) := BestRun(groups, |groups|);
    BestRunIsFirstLongest(groups, |groups|);
    forall i: nat, j: nat | ZerosAt(groups, i, j) ensures j - i <= ZeroRun(groups, i) <= len || j == i {
      RunAtLeast(groups, i, j);
    }
    hide BestRun;
    if first != -1 {
      assert ZerosAt(groups, first, first + len);
    }
    if FirstLongestRun(groups, start, end) {
      assert ZerosAt(groups, start, end);
    }
  }

  /** The printed form of a value is exactly the recommended text of its groups. */
  lemma Ipv6PrintedExactly(value: nat, text: string)
    ensures text == FormatIpv6Value(value) <==> Recommended(text, ValueToGroups(value))
  {
    var groups := ValueToGroups(value);
    var (first, len) := BestRun(groups, 8);
    BestRunIsFirstLongest(groups, 8);
    BestRunExactly(groups, 0, 0);
    hide BestRun;
    hide Join;
    hide ShortGroups;
    hide FirstLongestRun;
    hide ZerosAt;
    hide Texts;
    hide ValueToGroups;
    if first == -1 {
      forall parts ensures ShortGroups(parts, groups) <==> parts == Texts(groups, 16) { ShortTexts(parts, groups); }
    } else {
      PrintedAround(text, groups);
    }
  }

  lemma PrintedAround(text: string, groups: seq<nat>)
    requires |groups| == 8 && Below(groups, 65536) && BestRun(groups, 8).0 != -1
    ensures 0 <= BestRun(groups, 8).0 && BestRun(groups, 8).0 + BestRun(groups, 8).1 <= 8
    ensures text == CompressedText(groups, BestRun(groups, 8).0, BestRun(groups, 8).1) <==>
            exists left, right, start: nat, end: nat :: ShortAround(text, left, right, groups, start, end)
  {
    BestRunIsFirstLongest(groups, 8);
    var first: nat, len: nat := BestRun(groups, 8).0, BestRun(groups, 8).1;
    BestRunExactly(groups, first, first + len);
    hide BestRun;
    if text == CompressedText(groups, first, len) {
      CompressedIsShort(groups, first, first + len);
    }
    if left, right, start: nat, end: nat :| ShortAround(text, left, right, groups, start, end) {
      BestRunExactly(groups, start, end);
      ShortIsCompressed(text, left, right, groups, start, end);
    }
    hide ShortAround;
    hide CompressedText;
  }

  lemma CompressedIsShort(groups: seq<nat>, start: nat, end: nat)
    requires Below(groups, 65536) && start <= end <= |groups| && FirstLongestRun(groups, start, end)
    ensures ShortAround(CompressedText(groups, start, end - start), Texts(groups[..start], 16), Texts(groups[end..], 16), groups, start, end)
  {
    hide Join;
    hide FirstLongestRun;
    ShortTexts(Texts(groups[..start], 16), groups[..start]);
    ShortTexts(Texts(groups[end..], 16), groups[end..]);
    hide ShortGroups;
    hide Texts;
  }

  lemma ShortIsCompressed(text: string, left: seq<string>, right: seq<string>, groups: seq<nat>, start: nat, end: nat)
    requires Below(groups, 65536) && start <= end <= |groups| && ShortAround(text, left, right, groups, start, end)
    ensures text == CompressedText(groups, start, end - start)
  {
    hide Join;
    hide FirstLongestRun;
    ShortTexts(left, groups[..start]);
    ShortTexts(right, groups[end..]);
    hide ShortGroups;
    hide Texts;
  }
}
