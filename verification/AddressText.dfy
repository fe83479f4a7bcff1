/**
  Numeric address text: the exact IPv4 and IPv6 parsers and the canonical printer of the
  resolved-address policy. Strings are sequences of characters; an accepted text is ASCII.
 */
module AddressText {
  import opened Wrappers
  import opened Arithmetic

  const MAX_ADDRESS_LENGTH := 45

  datatype Family = V4 | V6

  /** The facts of an accepted text; `mapped` marks the IPv4-mapped block ::ffff:0:0/96. */
  datatype Parsed = Parsed(canonicalAddress: string, family: Family, value: nat, mapped: bool)

  // ----- digits and positional values -----

  function DigitChar(d: nat): char
    requires d < 16
  {
    "0123456789abcdef"[d]
  }

  /** The value of a digit in either case, or 16 for anything else. */
  function DigitValue(c: char): (d: nat)
    ensures d <= 16
  {
    if '0' <= c <= '9' then c as int - '0' as int
    else if 'a' <= c <= 'f' then c as int - 'a' as int + 10
    else if 'A' <= c <= 'F' then c as int - 'A' as int + 10
    else 16
  }

  predicate AllDigits(s: string, base: nat) {
    forall c :: c in s ==> DigitValue(c) < base
  }

  /** `Number(...)` and `parseInt(..., 16)` on text that is known to be digits. */
  function DigitsValue(s: string, base: nat): nat {
    if s == "" then 0 else base * DigitsValue(s[..|s| - 1], base) + DigitValue(s[|s| - 1])
  }

  /** `toString(base)`: no leading zero, lower case. */
  function Digits(n: nat, base: nat): (s: string)
    requires 2 <= base <= 16
    ensures s != ""
  {
    if n < base then [DigitChar(n)] else Digits(n / base, base) + [DigitChar(n % base)]
  }

  lemma {:induction false} DigitsRoundTrip(n: nat, base: nat)
    requires 2 <= base <= 16
    ensures DigitsValue(Digits(n, base), base) == n
    ensures AllDigits(Digits(n, base), base)
    ensures |Digits(n, base)| > 1 ==> Digits(n, base)[0] != '0'
    decreases n
  {
    var s := Digits(n, base);
    if n >= base {
      var q, r := n / base, n % base;
      var high := Digits(q, base);
      DivMod(n, base);
      QuotientSmaller(n, base);
      DigitsRoundTrip(q, base);
      assert s[..|s| - 1] == high && s[|s| - 1] == DigitChar(r);
      DigitCharValue(r);
      assert AllDigits(s, base);
      if |high| == 1 {
        LeadingDigit(q, base);
      }
    } else {
      assert s[..|s| - 1] == "";
      DigitCharValue(n);
      assert DigitsValue("", base) == 0;
    }
  }

  lemma DigitCharValue(d: nat)
    requires d < 16
    ensures DigitValue(DigitChar(d)) == d
    ensures d > 0 ==> DigitChar(d) != '0'
  {
  }

  lemma LeadingDigit(n: nat, base: nat)
    requires 2 <= base <= 16 && |Digits(n, base)| == 1 && n > 0
    ensures Digits(n, base)[0] != '0'
  {
    DigitCharValue(if n < base then n else 0);
  }

  lemma {:induction false} DigitsLength(n: nat, base: nat, width: nat)
    requires 2 <= base <= 16 && width >= 1 && n < Pow(base, width)
    ensures |Digits(n, base)| <= width
    decreases width
  {
    assert Pow(base, 1) == base * Pow(base, 0) == base;
    if n >= base {
      QuotientBound(n, base, Pow(base, width - 1));
      DigitsLength(n / base, base, width - 1);
    }
  }

  predicate Below(parts: seq<nat>, bound: nat) {
    forall i :: 0 <= i < |parts| ==> parts[i] < bound
  }

  /** `groups.reduce((value, group) => (value << 16n) | group, 0n)` */
  function GroupsToValue(groups: seq<nat>): nat {
    if groups == [] then 0 else 65536 * GroupsToValue(groups[..|groups| - 1]) + groups[|groups| - 1]
  }

  /** The low `n` 16-bit groups of a value, most significant first. */
  function ToGroups(value: nat, n: nat): (groups: seq<nat>)
    ensures |groups| == n && Below(groups, 65536)
  {
    if n == 0 then [] else ToGroups(value / 65536, n - 1) + [value % 65536]
  }

  function ValueToGroups(value: nat): (groups: seq<nat>)
    ensures |groups| == 8 && Below(groups, 65536)
  {
    ToGroups(value, 8)
  }

  lemma {:induction false} GroupsOfValue(value: nat, n: nat)
    requires value < Pow(65536, n)
    ensures GroupsToValue(ToGroups(value, n)) == value
  {
    if n > 0 {
      GroupsOfValue(value / 65536, n - 1);
      var groups := ToGroups(value, n);
      assert groups[..|groups| - 1] == ToGroups(value / 65536, n - 1);
    }
  }

  lemma {:induction false} ValueOfGroups(groups: seq<nat>)
    requires Below(groups, 65536)
    ensures GroupsToValue(groups) < Pow(65536, |groups|)
    ensures ToGroups(GroupsToValue(groups), |groups|) == groups
  {
    if groups != [] {
      var front := groups[..|groups| - 1];
      ValueOfGroups(front);
      assert groups == front + [groups[|groups| - 1]];
    }
  }

  // ----- splitting and joining -----

  /** `s.split(sep)`: never empty. */
  function Split(s: string, sep: char): (parts: seq<string>)
    ensures parts != []
  {
    if s == "" then [""]
    else
      var rest := Split(s[1..], sep);
      if s[0] == sep then [""] + rest else [[s[0]] + rest[0]] + rest[1..]
  }

  /** `parts.join(sep)` */
  function Join(parts: seq<string>, sep: char): string {
    if parts == [] then ""
    else if |parts| == 1 then parts[0]
    else parts[0] + [sep] + Join(parts[1..], sep)
  }

  predicate NoneContains(parts: seq<string>, sep: char) {
    forall p :: p in parts ==> sep !in p
  }

  lemma {:induction false} SplitFirst(first: string, rest: string, sep: char)
    requires sep !in first
    ensures Split(first + [sep] + rest, sep) == [first] + Split(rest, sep)
    ensures Split(first, sep) == [first]
  {
    var s := first + [sep] + rest;
    if first == "" {
      assert s[1..] == rest;
    } else {
      SplitFirst(first[1..], rest, sep);
      assert s[1..] == first[1..] + [sep] + rest;
      assert [first[0]] + first[1..] == first;
    }
  }

  lemma {:induction false} SplitJoin(parts: seq<string>, sep: char)
    requires parts != [] && NoneContains(parts, sep)
    ensures Split(Join(parts, sep), sep) == parts
  {
    if |parts| == 1 {
      SplitFirst(parts[0], "", sep);
    } else {
      SplitJoin(parts[1..], sep);
      SplitFirst(parts[0], Join(parts[1..], sep), sep);
    }
  }

  // ----- IPv4 -----

  function ParseDecimalOctet(s: string): Option<nat> {
    if !(1 <= |s| <= 3 && AllDigits(s, 10)) || (|s| > 1 && s[0] == '0') then None
    else if DigitsValue(s, 10) <= 255 then Some(DigitsValue(s, 10))
    else None
  }

  /** The parts of a list that all parse, or nothing. */
  function ParseOctets(parts: seq<string>): (r: Option<seq<nat>>)
    ensures r.Some? ==> |r.value| == |parts| && Below(r.value, 256)
  {
    if parts == [] then Some([])
    else
      match (ParseDecimalOctet(parts[0]), ParseOctets(parts[1..]))
      case (Some(octet), Some(octets)) => Some([octet] + octets)
      case _ => None
  }

  /** `octets.reduce((value, octet) => (value << 8n) | octet, 0n)` over four octets. */
  function OctetsToValue(octets: seq<nat>): nat
    requires |octets| == 4
  {
    ((octets[0] * 256 + octets[1]) * 256 + octets[2]) * 256 + octets[3]
  }

  /** `(value >> shift) & 255n` for the shifts 24, 16, 8 and 0. */
  function ValueToOctets(value: nat): (octets: seq<nat>)
    ensures |octets| == 4 && Below(octets, 256)
  {
    [value / 0x100_0000 % 256, value / 0x1_0000 % 256, value / 0x100 % 256, value % 256]
  }

  lemma OctetsOfValue(value: nat)
    requires value < 0x1_0000_0000
    ensures OctetsToValue(ValueToOctets(value)) == value
  {
    assert value / 0x1_0000 == value / 0x100 / 256 && value / 0x100_0000 == value / 0x100 / 256 / 256;
  }

  function ParseIpv4Value(address: string): Option<nat> {
    var parts := Split(address, '.');
    if |parts| != 4 then None
    else
      match ParseOctets(parts)
      case Some(octets) => Some(OctetsToValue(octets))
      case None => None
  }

  function Texts(parts: seq<nat>, base: nat): (texts: seq<string>)
    requires 2 <= base <= 16
    ensures |texts| == |parts|
    ensures forall i :: 0 <= i < |parts| ==> texts[i] == Digits(parts[i], base)
  {
    seq(|parts|, i requires 0 <= i < |parts| => Digits(parts[i], base))
  }

  lemma TextsTail(parts: seq<nat>, base: nat)
    requires 2 <= base <= 16 && parts != []
    ensures Texts(parts, base) != [] && Texts(parts, base)[0] == Digits(parts[0], base)
    ensures Texts(parts, base)[1..] == Texts(parts[1..], base)
  {
    hide Digits;
  }

  function FormatIpv4Value(value: nat): string {
    Join(Texts(ValueToOctets(value), 10), '.')
  }

  lemma OctetRoundTrip(octet: nat)
    requires octet < 256
    ensures ParseDecimalOctet(Digits(octet, 10)) == Some(octet)
  {
    DigitsRoundTrip(octet, 10);
    assert Pow(10, 2) == 10 * Pow(10, 1) == 100;
    DigitsLength(octet, 10, 3);
  }

  lemma {:induction false} OctetsRoundTrip(octets: seq<nat>)
    requires Below(octets, 256)
    ensures ParseOctets(Texts(octets, 10)) == Some(octets)
  {
    if octets != [] {
      OctetRoundTrip(octets[0]);
      OctetsRoundTrip(octets[1..]);
      TextsTail(octets, 10);
      hide Texts;
      hide Digits;
      hide ParseDecimalOctet;
      assert [octets[0]] + octets[1..] == octets;
    }
  }

  /** Digit texts contain no separator. */
  lemma TextsAreDigits(parts: seq<nat>, base: nat)
    requires 2 <= base <= 16
    ensures forall t :: t in Texts(parts, base) ==> t != "" && AllDigits(t, base)
    ensures NoneContains(Texts(parts, base), '.') && NoneContains(Texts(parts, base), ':')
  {
    var texts := Texts(parts, base);
    forall t | t in texts ensures t != "" && AllDigits(t, base) && '.' !in t && ':' !in t {
      var i :| 0 <= i < |parts| && texts[i] == t;
      DigitsRoundTrip(parts[i], base);
      assert DigitValue('.') == 16 && DigitValue(':') == 16;
    }
  }

  lemma DottedParses(octets: seq<nat>)
    requires |octets| == 4 && Below(octets, 256)
    ensures ParseIpv4Value(Join(Texts(octets, 10), '.')) == Some(OctetsToValue(octets))
  {
    TextsAreDigits(octets, 10);
    SplitJoin(Texts(octets, 10), '.');
    OctetsRoundTrip(octets);
  }

  lemma Ipv4RoundTrip(value: nat)
    requires value < 0x1_0000_0000
    ensures ParseIpv4Value(FormatIpv4Value(value)) == Some(value)
  {
    DottedParses(ValueToOctets(value));
    OctetsOfValue(value);
  }

  // ----- IPv6 -----

  /** `address.indexOf('::', from)` */
  function IndexOfDouble(s: string, from: nat): (r: int)
    ensures -1 <= r < |s|
    ensures r != -1 ==> from <= r && DoubleAt(s, r)
    ensures forall i :: from <= i && (r == -1 || i < r) ==> !DoubleAt(s, i)
    decreases |s| - from
  {
    if from + 1 >= |s| then -1
    else if DoubleAt(s, from) then from
    else IndexOfDouble(s, from + 1)
  }

  predicate DoubleAt(s: string, i: int) {
    0 <= i && i + 1 < |s| && s[i] == ':' && s[i + 1] == ':'
  }

  function ParseHexGroup(s: string): (r: Option<nat>)
    ensures r.Some? ==> r.value < 65536
  {
    HexBound(s);
    if 1 <= |s| <= 4 && AllDigits(s, 16) then Some(DigitsValue(s, 16)) else None
  }

  /** The loop that pushes one group for a hexadecimal part and two for a dotted one. */
  function PartsToGroups(parts: seq<string>): (r: Option<seq<nat>>)
    ensures r.Some? ==> |parts| <= |r.value| && Below(r.value, 65536)
  {
    if parts == [] then Some([])
    else
      var rest := PartsToGroups(parts[1..]);
      var pushed :=
        if '.' in parts[0] then
          match ParseIpv4Value(parts[0])
          case None => None
          case Some(ipv4) => Some([ipv4 / 65536 % 65536, ipv4 % 65536])
        else
          match ParseHexGroup(parts[0])
          case None => None
          case Some(group) => Some([group]);
      if pushed.None? || rest.None? then None else Some(pushed.value + rest.value)
  }

  function Prepend(groups: seq<nat>, rest: Option<seq<nat>>): Option<seq<nat>> {
    match rest
    case None => None
    case Some(more) => Some(groups + more)
  }

  /** The group loop itself: `groups` grows part by part and the first malformed part ends it. */
  method PushGroups(parts: seq<string>) returns (r: Option<seq<nat>>)
    ensures r == PartsToGroups(parts)
  {
    hide ParseIpv4Value;
    hide ParseHexGroup;
    var groups: seq<nat> := [];
    var i := 0;
    assert parts[0..] == parts;
    PrependNothing(PartsToGroups(parts));
    while i < |parts|
      invariant 0 <= i <= |parts|
      invariant PartsToGroups(parts) == Prepend(groups, PartsToGroups(parts[i..]))
    {
      var part := parts[i];
      assert parts[i..][0] == part && parts[i..][1..] == parts[i + 1..];
      var pushed;
      if '.' in part {
        var ipv4 := ParseIpv4Value(part);
        if ipv4.None? { return None; }
        pushed := [ipv4.value / 65536 % 65536, ipv4.value % 65536];
      } else {
        var group := ParseHexGroup(part);
        if group.None? { return None; }
        pushed := [group.value];
      }
      PrependTwice(groups, pushed, PartsToGroups(parts[i + 1..]));
      groups := groups + pushed;
      i := i + 1;
    }
    assert parts[i..] == [] && groups + [] == groups;
    r := Some(groups);
  }

  lemma PrependNothing(rest: Option<seq<nat>>)
    ensures Prepend([], rest) == rest
  {
    if rest.Some? {
      assert [] + rest.value == rest.value;
    }
  }

  lemma PrependTwice(a: seq<nat>, b: seq<nat>, rest: Option<seq<nat>>)
    ensures Prepend(a, Prepend(b, rest)) == Prepend(a + b, rest)
  {
    if rest.Some? {
      assert a + (b + rest.value) == a + b + rest.value;
    }
  }

  lemma {:induction false} HexBound(s: string)
    ensures AllDigits(s, 16) ==> DigitsValue(s, 16) < Pow(16, |s|)
    ensures AllDigits(s, 16) && |s| <= 4 ==> DigitsValue(s, 16) < 65536
  {
    if s != "" {
      HexBound(s[..|s| - 1]);
      assert Pow(16, 2) == 256 && Pow(16, 3) == 4096 && Pow(16, 4) == 65536;
    }
  }

  predicate Ipv6Char(c: char) {
    DigitValue(c) < 16 || c == ':' || c == '.'
  }

  function SplitSide(text: string): seq<string> {
    if text == "" then [] else Split(text, ':')
  }

  /** At most one dotted part, and only as the last one. */
  predicate DottedTailOnly(parts: seq<string>) {
    forall i :: 0 <= i < |parts| - 1 ==> '.' !in parts[i]
  }

  function Zeros(n: nat): (z: seq<nat>)
    ensures |z| == n && forall i :: 0 <= i < n ==> z[i] == 0
  {
    seq(n, _ => 0)
  }

  function ParseIpv6Groups(address: string): (r: Option<seq<nat>>)
    ensures r.Some? ==> |r.value| == 8 && Below(r.value, 65536)
  {
    var compression := IndexOfDouble(address, 0);
    if address == "" || exists c :: c in address && !Ipv6Char(c) then None
    else if compression == -1 then ExpandParts(SplitSide(address), [], false)
    else if IndexOfDouble(address, compression + 2) != -1 then None
    else ExpandParts(SplitSide(address[..compression]), SplitSide(address[compression + 2..]), true)
  }

  /** The parts on both sides of the compression, read as eight groups. */
  function ExpandParts(left: seq<string>, right: seq<string>, compressed: bool): (r: Option<seq<nat>>)
    ensures r.Some? ==> |r.value| == 8 && Below(r.value, 65536)
  {
    var parts := left + right;
    if "" in parts || !DottedTailOnly(parts) then None
    else if parts != [] && '.' in parts[|parts| - 1] && compressed && right == [] then None
    else
      match PartsToGroups(parts)
      case None => None
      case Some(groups) =>
        if !compressed then if |groups| == 8 then Some(groups) else None
        else if |groups| >= 8 then None
        else Some(groups[..|left|] + Zeros(8 - |groups|) + groups[|left|..])
  }

  // ----- the canonical IPv6 text -----

  /** How many groups are zero from `start` on. */
  function ZeroRun(groups: seq<nat>, start: nat): (len: nat)
    requires start <= |groups|
    ensures start + len <= |groups|
    ensures forall i :: start <= i < start + len ==> groups[i] == 0
    ensures start + len < |groups| ==> groups[start + len] != 0
    decreases |groups| - start
  {
    if start < |groups| && groups[start] == 0 then 1 + ZeroRun(groups, start + 1) else 0
  }

  /** The first longest zero run among the starts below `n`; runs of one are never taken. */
  function BestRun(groups: seq<nat>, n: nat): (int, nat)
    requires n <= |groups|
  {
    if n == 0 then (-1, 1)
    else
      var best := BestRun(groups, n - 1);
      if ZeroRun(groups, n - 1) > best.1 then (n - 1, ZeroRun(groups, n - 1)) else best
  }

  /** Section 4.2 of RFC 5952: the compressed run is the first longest one, and has length at least 2. */
  lemma {:induction false} BestRunIsFirstLongest(groups: seq<nat>, n: nat)
    requires n <= |groups|
    ensures var (start, len) := BestRun(groups, n);
            && (start == -1 ==> len == 1)
            && (start != -1 ==> 0 <= start < n && 2 <= len == ZeroRun(groups, start))
            && (forall i :: 0 <= i < n ==> ZeroRun(groups, i) <= len)
            && (forall i :: 0 <= i < start ==> ZeroRun(groups, i) < len)
  {
    if n > 0 {
      BestRunIsFirstLongest(groups, n - 1);
    }
  }

  /** The starts inside a run add nothing to the run's first start. */
  lemma {:induction false} InsideRun(groups: seq<nat>, start: nat, k: nat)
    requires start < |groups| && 1 <= k <= ZeroRun(groups, start)
    ensures BestRun(groups, start + k) == BestRun(groups, start + 1)
  {
    hide ZeroRun;
    if k > 1 {
      InsideRun(groups, start, k - 1);
      RunSuffix(groups, start, k - 1);
      BestRunIsFirstLongest(groups, start + 1);
    }
  }

  lemma {:induction false} RunSuffix(groups: seq<nat>, start: nat, k: nat)
    requires start < |groups| && k <= ZeroRun(groups, start)
    ensures ZeroRun(groups, start + k) == ZeroRun(groups, start) - k
    decreases k
  {
    if k > 0 {
      RunSuffix(groups, start, k - 1);
    }
  }

  /** The text of the groups with the run (start, len) written as `::`. */
  function CompressedText(groups: seq<nat>, start: int, len: nat): string
    requires start == -1 || 0 <= start <= start + len <= |groups|
  {
    if start == -1 then Join(Texts(groups, 16), ':')
    else Join(Texts(groups[..start], 16), ':') + "::" + Join(Texts(groups[start + len..], 16), ':')
  }

  function FormatIpv6Value(value: nat): string {
    var groups := ValueToGroups(value);
    var best := BestRun(groups, 8);
    BestRunIsFirstLongest(groups, 8);
    CompressedText(groups, best.0, best.1)
  }

  /** The scan of `formatIpv6Value`, with its index variables. */
  method ScanRuns(groups: seq<nat>) returns (bestStart: int, bestLength: nat)
    ensures (bestStart, bestLength) == BestRun(groups, |groups|)
  {
    bestStart, bestLength := -1, 1;
    var index := 0;
    while index < |groups|
      invariant 0 <= index <= |groups|
      invariant BestRun(groups, index) == (bestStart, bestLength)
    {
      if groups[index] != 0 {
        index := index + 1;
        continue;
      }
      var start := index;
      while index < |groups| && groups[index] == 0
        invariant start <= index <= start + ZeroRun(groups, start)
      {
        index := index + 1;
      }
      var length := index - start;
      InsideRun(groups, start, length);
      if length > bestLength {
        bestStart, bestLength := start, length;
      }
    }
  }

  /** `formatIpv6Value`, with its four ways to put the text together. */
  method FormatIpv6(value: nat) returns (text: string)
    ensures text == FormatIpv6Value(value)
  {
    var groups := ValueToGroups(value);
    var bestStart, bestLength := ScanRuns(groups);
    BestRunIsFirstLongest(groups, 8);
    if bestStart == -1 { return Join(Texts(groups, 16), ':'); }
    var left := Join(Texts(groups[..bestStart], 16), ':');
    var right := Join(Texts(groups[bestStart + bestLength..], 16), ':');
    if left == "" && right == "" { return "::"; }
    if left == "" { return "::" + right; }
    if right == "" { return left + "::"; }
    return left + "::" + right;
  }

  // ----- reading the canonical text back -----

  /** A nonempty text that neither starts nor ends with a colon and has no two in a row. */
  predicate Clean(s: string) {
    s != "" && s[0] != ':' && s[|s| - 1] != ':' && forall i :: 0 <= i < |s| ==> !DoubleAt(s, i)
  }

  lemma {:induction false} JoinIsClean(texts: seq<string>)
    requires texts != [] && "" !in texts && NoneContains(texts, ':')
    ensures Clean(Join(texts, ':'))
  {
    var first := texts[0];
    assert first in texts;
    if |texts| > 1 {
      JoinIsClean(texts[1..]);
      var rest := Join(texts[1..], ':');
      var s := first + [':'] + rest;
      forall i | 0 <= i < |s| ensures !DoubleAt(s, i) {
        if i < |first| {
          assert s[i] == first[i];
        } else if i > |first| {
          assert s[i] == rest[i - |first| - 1];
          assert i + 1 < |s| ==> s[i + 1] == rest[i - |first|];
          assert !DoubleAt(rest, i - |first| - 1);
        }
      }
    }
  }

  lemma {:induction false} JoinChars(texts: seq<string>, sep: char, base: nat)
    requires forall t :: t in texts ==> AllDigits(t, base)
    ensures forall c :: c in Join(texts, sep) ==> c == sep || DigitValue(c) < base
    ensures texts != [] && "" !in texts ==> Join(texts, sep) != ""
  {
    if texts != [] {
      assert texts[0] in texts;
    }
    if |texts| > 1 {
      JoinChars(texts[1..], sep, base);
    }
  }

  lemma HexRoundTrip(group: nat)
    requires group < 65536
    ensures ParseHexGroup(Digits(group, 16)) == Some(group)
  {
    DigitsRoundTrip(group, 16);
    assert Pow(16, 2) == 256 && Pow(16, 3) == 4096 && Pow(16, 4) == 65536;
    DigitsLength(group, 16, 4);
  }

  lemma {:induction false} HexGroupsRoundTrip(groups: seq<nat>)
    requires Below(groups, 65536)
    ensures PartsToGroups(Texts(groups, 16)) == Some(groups)
  {
    if groups != [] {
      var texts := Texts(groups, 16);
      HexRoundTrip(groups[0]);
      HexGroupsRoundTrip(groups[1..]);
      TextsAreDigits(groups, 16);
      TextsTail(groups, 16);
      hide Texts;
      hide Digits;
      hide ParseHexGroup;
      assert texts[0] in texts;
      assert [groups[0]] + groups[1..] == groups;
    }
  }

  /** One side of the text splits back into the texts of its groups. */
  lemma SideRoundTrip(groups: seq<nat>)
    ensures SplitSide(Join(Texts(groups, 16), ':')) == Texts(groups, 16)
    ensures groups != [] ==> Clean(Join(Texts(groups, 16), ':'))
    ensures forall c :: c in Join(Texts(groups, 16), ':') ==> Ipv6Char(c)
  {
    var texts := Texts(groups, 16);
    TextsAreDigits(groups, 16);
    JoinChars(texts, ':', 16);
    if groups != [] {
      JoinIsClean(texts);
      SplitJoin(texts, ':');
    }
  }

  lemma PlainTextParses(groups: seq<nat>)
    requires |groups| == 8 && Below(groups, 65536)
    ensures ParseIpv6Groups(CompressedText(groups, -1, 1)) == Some(groups)
  {
    var text, texts := Join(Texts(groups, 16), ':'), Texts(groups, 16);
    SideRoundTrip(groups);
    TextsAreDigits(groups, 16);
    HexGroupsRoundTrip(groups);
    CleanHasNoDouble(text, 0);
    hide SplitSide;
    hide Texts;
    hide Join;
    hide IndexOfDouble;
    ExpandPlain(texts, groups);
    hide ExpandParts;
    hide Clean;
  }

  lemma {:induction false} CleanHasNoDouble(s: string, from: nat)
    requires Clean(s) && from <= |s|
    ensures IndexOfDouble(s, from) == -1
    decreases |s| - from
  {
    if from < |s| {
      assert !DoubleAt(s, from);
      CleanHasNoDouble(s, from + 1);
    }
  }

  /** Eight groups without a double colon need no expansion. */
  lemma ExpandPlain(texts: seq<string>, groups: seq<nat>)
    requires |texts| == 8 && |groups| == 8 && PartsToGroups(texts) == Some(groups)
    requires "" !in texts && NoneContains(texts, '.')
    ensures ExpandParts(texts, [], false) == Some(groups)
  {
    hide PartsToGroups;
    assert texts + [] == texts;
  }

  lemma CompressedTextParses(groups: seq<nat>, start: nat, len: nat)
    requires |groups| == 8 && Below(groups, 65536)
    requires 2 <= len && start + len <= 8 && forall i :: start <= i < start + len ==> groups[i] == 0
    ensures ParseIpv6Groups(CompressedText(groups, start, len)) == Some(groups)
  {
    hide ExpandParts;
    hide ParseIpv6Groups;
    hide SplitSide;
    var before, after := groups[..start], groups[start + len..];
    SideRoundTrip(before);
    SideRoundTrip(after);
    TwoSidesParse(Join(Texts(before, 16), ':'), Join(Texts(after, 16), ':'));
    ExpandTexts(before, after);
    assert before + Zeros(8 - |before + after|) + after == groups;
  }

  lemma TwoSidesParse(left: string, right: string)
    requires left == "" || Clean(left)
    requires right == "" || Clean(right)
    requires forall c :: c in left || c in right ==> Ipv6Char(c)
    ensures ParseIpv6Groups(left + "::" + right) == ExpandParts(SplitSide(left), SplitSide(right), true)
  {
    hide ExpandParts;
    hide SplitSide;
    var text := left + "::" + right;
    DoubleBetween(left, right);
    assert text[..|left|] == left && text[|left| + 2..] == right;
  }

  lemma TextsConcat(before: seq<nat>, after: seq<nat>, base: nat)
    requires 2 <= base <= 16
    ensures Texts(before + after, base) == Texts(before, base) + Texts(after, base)
  {
    hide Digits;
  }

  lemma ExpandTexts(before: seq<nat>, after: seq<nat>)
    requires |before| + |after| < 8 && Below(before + after, 65536)
    ensures ExpandParts(Texts(before, 16), Texts(after, 16), true) == Some(before + Zeros(8 - |before + after|) + after)
  {
    var groups := before + after;
    TextsConcat(before, after, 16);
    TextsAreDigits(groups, 16);
    HexGroupsRoundTrip(groups);
    hide Texts;
    hide Digits;
    hide PartsToGroups;
    hide Zeros;
    assert groups[..|before|] == before && groups[|before|..] == after;
  }

  lemma DoubleBetween(left: string, right: string)
    requires left == "" || Clean(left)
    requires right == "" || Clean(right)
    ensures IndexOfDouble(left + "::" + right, 0) == |left|
    ensures IndexOfDouble(left + "::" + right, |left| + 2) == -1
  {
    var text := left + "::" + right;
    assert DoubleAt(text, |left|);
    forall i | 0 <= i < |left| ensures !DoubleAt(text, i) {
      assert text[i] == left[i];
      assert !DoubleAt(left, i);
    }
    forall i | |left| + 2 <= i ensures !DoubleAt(text, i) {
      if i + 1 < |text| {
        assert text[i] == right[i - |left| - 2] && text[i + 1] == right[i - |left| - 1];
        assert !DoubleAt(right, i - |left| - 2);
      }
    }
  }

  /** Parsing the printed form of any 128-bit value gives its groups back. */
  lemma Ipv6RoundTrip(value: nat)
    ensures ParseIpv6Groups(FormatIpv6Value(value)) == Some(ValueToGroups(value))
  {
    var groups := ValueToGroups(value);
    BestRunIsFirstLongest(groups, 8);
    var (start, len) := BestRun(groups, 8);
    if start == -1 {
      PlainTextParses(groups);
    } else {
      CompressedTextParses(groups, start, len);
    }
  }

  // ----- whole addresses -----

  function Canonical(family: Family, value: nat): string {
    match family
    case V4 => FormatIpv4Value(value)
    case V6 => FormatIpv6Value(value)
  }

  predicate IsMapped(value: nat) {
    value / 0x1_0000_0000 == 0xffff
  }

  function MakeParsed(family: Family, value: nat): Parsed {
    Parsed(Canonical(family, value), family, value, family == V6 && IsMapped(value))
  }

  /** `parseAddress`: `family` is the family the caller requires, if any. */
  function ParseAddress(address: string, family: Option<Family>): Option<Parsed> {
    if address == "" || |address| > MAX_ADDRESS_LENGTH then None
    else if ':' in address then
      if family == Some(V4) || '[' in address || ']' in address then None
      else
        match ParseIpv6Groups(address)
        case None => None
        case Some(groups) => Some(MakeParsed(V6, GroupsToValue(groups)))
    else if family == Some(V6) then None
    else
      match ParseIpv4Value(address)
      case None => None
      case Some(value) => Some(MakeParsed(V4, value))
  }

  function Space(family: Family): nat {
    match family
    case V4 => 0x1_0000_0000
    case V6 => 0x1_0000_0000_0000_0000_0000_0000_0000_0000
  }

  lemma SpaceIsPow()
    ensures Pow(65536, 8) == Space(V6)
  {
    assert Pow(65536, 2) == 0x1_0000_0000;
    assert Pow(65536, 4) == 65536 * (65536 * Pow(65536, 2));
    assert Pow(65536, 6) == 65536 * (65536 * Pow(65536, 4));
  }

  lemma {:induction false} JoinLength(texts: seq<string>, sep: char, width: nat)
    requires forall t :: t in texts ==> |t| <= width
    ensures |Join(texts, sep)| <= if texts == [] then 0 else |texts| * (width + 1) - 1
  {
    assert texts != [] ==> texts[0] in texts;
    if |texts| > 1 {
      var rest := texts[1..];
      JoinLength(rest, sep, width);
      assert Join(texts, sep) == texts[0] + [sep] + Join(rest, sep);
      hide Join;
      MoreTimes(|rest|, width + 1);
    }
  }

  lemma MoreTimes(n: nat, width: nat)
    ensures (n + 1) * width == n * width + width
  {
  }

  lemma TextsLength(parts: seq<nat>, base: nat, width: nat)
    requires 2 <= base <= 16 && width >= 1 && Below(parts, Pow(base, width))
    ensures forall t :: t in Texts(parts, base) ==> |t| <= width
  {
    forall t | t in Texts(parts, base) ensures |t| <= width {
      var i :| 0 <= i < |parts| && Texts(parts, base)[i] == t;
      DigitsLength(parts[i], base, width);
    }
  }

  /** The canonical text is at most 15 or 39 characters long, and a colon tells the families apart. */
  lemma CanonicalShape(family: Family, value: nat)
    ensures var text := Canonical(family, value);
            && 1 <= |text| <= (if family == V4 then 15 else 39)
            && (':' in text <==> family == V6)
            && '[' !in text && ']' !in text
  {
    if family == V4 {
      var octets := ValueToOctets(value);
      assert Pow(10, 1) == 10 && Pow(10, 2) == 100 && Pow(10, 3) == 1000;
      TextsLength(octets, 10, 3);
      JoinLength(Texts(octets, 10), '.', 3);
      TextsAreDigits(octets, 10);
      JoinChars(Texts(octets, 10), '.', 10);
    } else {
      Ipv6Shape(value);
    }
  }

  lemma Ipv6Shape(value: nat)
    ensures var text := FormatIpv6Value(value);
            && 1 <= |text| <= 39 && ':' in text
            && forall c :: c in text ==> Ipv6Char(c)
  {
    hide CompressedText;
    var groups := ValueToGroups(value);
    BestRunIsFirstLongest(groups, 8);
    var (start, len) := BestRun(groups, 8);
    CompressedShape(groups, start, len);
  }

  lemma CompressedShape(groups: seq<nat>, start: int, len: nat)
    requires |groups| == 8 && Below(groups, 65536)
    requires start == -1 || 0 <= start < start + len <= 8
    ensures var text := CompressedText(groups, start, len);
            && 1 <= |text| <= 39 && ':' in text
            && forall c :: c in text ==> Ipv6Char(c)
  {
    hide Texts;
    if start == -1 {
      var texts := Texts(groups, 16);
      SideLength(groups);
      assert Join(texts, ':') == texts[0] + [':'] + Join(texts[1..], ':');
    } else {
      SideLength(groups[..start]);
      SideLength(groups[start + len..]);
      var text := CompressedText(groups, start, len);
      assert text[|Join(Texts(groups[..start], 16), ':')|] == ':';
    }
  }

  lemma SideLength(groups: seq<nat>)
    requires Below(groups, 65536)
    ensures |Join(Texts(groups, 16), ':')| <= 5 * |groups|
    ensures groups != [] ==> |Join(Texts(groups, 16), ':')| <= 5 * |groups| - 1
    ensures forall c :: c in Join(Texts(groups, 16), ':') ==> Ipv6Char(c)
  {
    assert Pow(16, 2) == 256 && Pow(16, 3) == 4096 && Pow(16, 4) == 65536;
    SideRoundTrip(groups);
    TextsLength(groups, 16, 4);
    JoinLength(Texts(groups, 16), ':', 4);
  }

  /** Round trip: the canonical text of a value parses to that family and value, and is its own canonical text. */
  lemma CanonicalRoundTrip(family: Family, value: nat, required: Option<Family>)
    requires value < Space(family)
    requires required.Some? ==> required.value == family
    ensures ParseAddress(Canonical(family, value), required) == Some(MakeParsed(family, value))
  {
    hide Canonical;
    CanonicalShape(family, value);
    CanonicalValue(family, value);
  }

  lemma CanonicalValue(family: Family, value: nat)
    requires value < Space(family)
    ensures match family
            case V4 => ParseIpv4Value(Canonical(family, value)) == Some(value)
            case V6 => var groups := ParseIpv6Groups(Canonical(family, value));
                       groups.Some? && GroupsToValue(groups.value) == value
  {
    match family
    case V4 => Ipv4RoundTrip(value);
    case V6 =>
      Ipv6RoundTrip(value);
      SpaceIsPow();
      GroupsOfValue(value, 8);
  }

  /** An accepted text has a value of its family's space, and its canonical text is accepted with the same facts. */
  lemma ParsedFacts(address: string, family: Option<Family>)
    requires ParseAddress(address, family).Some?
    ensures var p := ParseAddress(address, family).value;
            && p.value < Space(p.family) && p == MakeParsed(p.family, p.value)
            && (family.Some? ==> p.family == family.value)
            && ParseAddress(p.canonicalAddress, Some(p.family)) == Some(p)
            && ParseAddress(p.canonicalAddress, None) == Some(p)
  {
    hide MakeParsed;
    if ':' in address {
      var groups := ParseIpv6Groups(address).value;
      ValueOfGroups(groups);
      SpaceIsPow();
      ParsedAgain(V6, GroupsToValue(groups));
    } else {
      Ipv4Bound(address);
      ParsedAgain(V4, ParseIpv4Value(address).value);
    }
  }

  lemma ParsedAgain(family: Family, value: nat)
    requires value < Space(family)
    ensures var p := MakeParsed(family, value);
            && p.family == family && p.value == value && p.canonicalAddress == Canonical(family, value)
            && ParseAddress(p.canonicalAddress, Some(family)) == Some(p)
            && ParseAddress(p.canonicalAddress, None) == Some(p)
  {
    CanonicalRoundTrip(family, value, Some(family));
    CanonicalRoundTrip(family, value, None);
  }

  lemma Ipv4Bound(address: string)
    ensures ParseIpv4Value(address).Some? ==> ParseIpv4Value(address).value < Space(V4)
  {
  }

  /** Two accepted texts share a canonical form if and only if they denote the same address. */
  lemma SameCanonicalIffSameValue(a: string, b: string)
    requires ParseAddress(a, None).Some? && ParseAddress(b, None).Some?
    ensures var p, q := ParseAddress(a, None).value, ParseAddress(b, None).value;
            p.canonicalAddress == q.canonicalAddress <==> p.family == q.family && p.value == q.value
  {
    hide ParseAddress;
    ParsedFacts(a, None);
    ParsedFacts(b, None);
  }
}
