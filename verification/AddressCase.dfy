/** Upper and lower case: the parsers read two texts alike when they differ in letter case only. */
module AddressCase {
  import opened Wrappers
  import opened AddressText

  predicate AlikeChar(c: char, d: char) {
    DigitValue(c) == DigitValue(d) && (c in ":.[]" || d in ":.[]" ==> c == d)
  }

  predicate Alike(a: string, b: string) {
    |a| == |b| && forall i :: 0 <= i < |a| ==> AlikeChar(a[i], b[i])
  }

  predicate AlikeParts(a: seq<string>, b: seq<string>) {
    |a| == |b| && forall i :: 0 <= i < |a| ==> Alike(a[i], b[i])
  }

  /** `toLowerCase()`; characters outside ASCII are kept, no parser accepts them either way. */
  function LowerChar(c: char): char {
    if 'A' <= c <= 'Z' then (c as int + 32) as char else c
  }

  function Lower(s: string): (r: string)
    ensures |r| == |s|
  {
    seq(|s|, i requires 0 <= i < |s| => LowerChar(s[i]))
  }

  /** The text is this word, each letter in either case. */
  predicate InAnyCase(s: string, lower: string, upper: string)
    requires |lower| == |upper|
  {
    |s| == |lower| && forall i :: 0 <= i < |s| ==> s[i] == lower[i] || s[i] == upper[i]
  }

  /** `upper` is the word in capitals. */
  predicate Capitals(lower: string, upper: string) {
    && |lower| == |upper|
    && forall i :: 0 <= i < |lower| ==>
         if 'a' <= lower[i] <= 'z' then upper[i] as int == lower[i] as int - 32
         else upper[i] == lower[i] && !('A' <= lower[i] <= 'Z')
  }

  lemma LowerExactly(s: string, lower: string, upper: string)
    requires Capitals(lower, upper)
    ensures Lower(s) == lower <==> InAnyCase(s, lower, upper)
  {
    if Lower(s) == lower {
      forall i | 0 <= i < |s| ensures s[i] == lower[i] || s[i] == upper[i] {
        assert LowerChar(s[i]) == lower[i];
      }
    }
  }

  lemma LowerAlike(s: string)
    ensures Alike(Lower(s), s)
  {
  }

  lemma AlikeContains(a: string, b: string, c: char)
    requires Alike(a, b) && c in ":.[]"
    ensures c in a <==> c in b
  {
    forall i | 0 <= i < |a| ensures a[i] == c <==> b[i] == c {
      assert AlikeChar(a[i], b[i]);
    }
  }

  lemma SameSeparator(c: char, d: char, sep: char)
    requires AlikeChar(c, d) && sep in ":.[]"
    ensures c == sep <==> d == sep
  {
  }

  lemma {:induction false} AlikeSplit(a: string, b: string, sep: char)
    requires Alike(a, b) && sep in ":.[]"
    ensures AlikeParts(Split(a, sep), Split(b, sep))
  {
    if a != "" {
      assert AlikeChar(a[0], b[0]);
      SameSeparator(a[0], b[0], sep);
      hide AlikeChar;
      var p, q := Split(a[1..], sep), Split(b[1..], sep);
      AlikeSplit(a[1..], b[1..], sep);
      assert Alike([a[0]] + p[0], [b[0]] + q[0]);
    }
  }

  lemma {:induction false} AlikeDigits(a: string, b: string, base: nat)
    requires Alike(a, b)
    ensures AllDigits(a, base) <==> AllDigits(b, base)
    ensures DigitsValue(a, base) == DigitsValue(b, base)
  {
    forall i | 0 <= i < |a| ensures DigitValue(a[i]) == DigitValue(b[i]) {
      assert AlikeChar(a[i], b[i]);
    }
    if a != "" {
      AlikeDigits(a[..|a| - 1], b[..|b| - 1], base);
    }
  }

  lemma AlikeOctet(a: string, b: string)
    requires Alike(a, b)
    ensures ParseDecimalOctet(a) == ParseDecimalOctet(b)
  {
    AlikeDigits(a, b, 10);
    if a != "" {
      assert AlikeChar(a[0], b[0]);
      assert DigitValue(a[0]) == 0 <==> a[0] == '0';
      assert DigitValue(b[0]) == 0 <==> b[0] == '0';
    }
  }

  lemma {:induction false} AlikeOctets(a: seq<string>, b: seq<string>)
    requires AlikeParts(a, b)
    ensures ParseOctets(a) == ParseOctets(b)
  {
    if a != [] {
      AlikeOctet(a[0], b[0]);
      AlikeOctets(a[1..], b[1..]);
    }
  }

  lemma AlikeIpv4(a: string, b: string)
    requires Alike(a, b)
    ensures ParseIpv4Value(a) == ParseIpv4Value(b)
  {
    AlikeSplit(a, b, '.');
    AlikeOctets(Split(a, '.'), Split(b, '.'));
  }

  lemma {:induction false} AlikeGroups(a: seq<string>, b: seq<string>)
    requires AlikeParts(a, b)
    ensures PartsToGroups(a) == PartsToGroups(b)
  {
    hide ParseIpv4Value;
    if a != [] {
      AlikeContains(a[0], b[0], '.');
      AlikeIpv4(a[0], b[0]);
      AlikeDigits(a[0], b[0], 16);
      AlikeGroups(a[1..], b[1..]);
    }
  }

  lemma {:induction false} AlikeDouble(a: string, b: string, from: nat)
    requires Alike(a, b)
    ensures IndexOfDouble(a, from) == IndexOfDouble(b, from)
    decreases |a| - from
  {
    if from + 1 < |a| {
      assert AlikeChar(a[from], b[from]) && AlikeChar(a[from + 1], b[from + 1]);
      AlikeDouble(a, b, from + 1);
    }
  }

  lemma AlikeSide(a: string, b: string)
    requires Alike(a, b)
    ensures AlikeParts(SplitSide(a), SplitSide(b))
  {
    AlikeSplit(a, b, ':');
  }

  lemma AlikeExpand(left: seq<string>, right: seq<string>, left': seq<string>, right': seq<string>, compressed: bool)
    requires AlikeParts(left, left') && AlikeParts(right, right')
    ensures ExpandParts(left, right, compressed) == ExpandParts(left', right', compressed)
  {
    hide PartsToGroups;
    var a, b := left + right, left' + right';
    assert AlikeParts(a, b);
    AlikeGroups(a, b);
    forall i | 0 <= i < |a| ensures ('.' in a[i] <==> '.' in b[i]) && (a[i] == "" <==> b[i] == "") {
      assert Alike(a[i], b[i]);
      AlikeContains(a[i], b[i], '.');
    }
  }

  lemma AlikeIpv6(a: string, b: string)
    requires Alike(a, b)
    ensures ParseIpv6Groups(a) == ParseIpv6Groups(b)
  {
    hide ExpandParts;
    hide SplitSide;
    var c := IndexOfDouble(a, 0);
    AlikeDouble(a, b, 0);
    forall i | 0 <= i < |a| ensures Ipv6Char(a[i]) <==> Ipv6Char(b[i]) {
      assert AlikeChar(a[i], b[i]);
    }
    AlikeChars(a, b);
    if c == -1 {
      AlikeSide(a, b);
      AlikeExpand(SplitSide(a), [], SplitSide(b), [], false);
    } else {
      AlikeDouble(a, b, c + 2);
      AlikeSide(a[..c], b[..c]);
      AlikeSide(a[c + 2..], b[c + 2..]);
      AlikeExpand(SplitSide(a[..c]), SplitSide(a[c + 2..]), SplitSide(b[..c]), SplitSide(b[c + 2..]), true);
    }
  }

  lemma AlikeChars(a: string, b: string)
    requires |a| == |b| && forall i :: 0 <= i < |a| ==> (Ipv6Char(a[i]) <==> Ipv6Char(b[i]))
    ensures (exists c :: c in a && !Ipv6Char(c)) <==> (exists c :: c in b && !Ipv6Char(c))
  {
    if c :| c in a && !Ipv6Char(c) {
      var i :| 0 <= i < |a| && a[i] == c;
      assert b[i] in b;
    }
    if c :| c in b && !Ipv6Char(c) {
      var i :| 0 <= i < |b| && b[i] == c;
      assert a[i] in a;
    }
  }

  /** Spelling in another case changes nothing that the parser returns. */
  lemma AlikeAddress(a: string, b: string, family: Option<Family>)
    requires Alike(a, b)
    ensures ParseAddress(a, family) == ParseAddress(b, family)
  {
    hide ParseIpv4Value;
    hide ParseIpv6Groups;
    AlikeContains(a, b, ':');
    AlikeContains(a, b, '[');
    AlikeContains(a, b, ']');
    AlikeIpv4(a, b);
    AlikeIpv6(a, b);
  }
}
