/** The advertising payload: UUID text to bytes, and length-prefixed structures. */
module Advertising {
  import opened Common

  type Byte = b: nat | b < 256

  // ---------- Hexadecimal text ----------

  /** The value of a hexadecimal digit in either case, or -1. */
  function HexValue(c: char): (v: int)
    ensures -1 <= v < 16
  {
    if '0' <= c <= '9' then c as int - '0' as int
    else if 'a' <= c <= 'f' then c as int - 'a' as int + 10
    else if 'A' <= c <= 'F' then c as int - 'A' as int + 10
    else -1
  }

  predicate IsHex(c: char) {
    HexValue(c) >= 0
  }

  ghost predicate AllHex(s: string) {
    forall i :: 0 <= i < |s| ==> IsHex(s[i])
  }

  function HexDigit(v: nat): (c: char)
    requires v < 16
    ensures HexValue(c) == v
  {
    if v < 10 then ('0' as int + v) as char else ('a' as int + v - 10) as char
  }

  /** The number that hexadecimal digits write. */
  function HexNumber(s: string): nat {
    if s == [] then 0
    else 16 * HexNumber(s[..|s| - 1]) + (if IsHex(s[|s| - 1]) then HexValue(s[|s| - 1]) else 0)
  }

  /** How many digits there are in front, up to a width. */
  function Taken(s: string, width: nat): (k: nat)
    ensures k <= |s| && k <= width
  {
    if width == 0 || s == [] || !IsHex(s[0]) then 0 else 1 + Taken(s[1..], width - 1)
  }

  /** `isspace` */
  predicate IsSpace(c: char) {
    c == ' ' || '\t' <= c <= '\r'
  }

  function SkipSpace(s: string): string {
    if s != [] && IsSpace(s[0]) then SkipSpace(s[1..]) else s
  }

  datatype Scan = Failed | Scanned(value: nat, rest: string)

  function Pow16(n: nat): (p: nat)
    ensures p > 0
  {
    if n == 0 then 1 else 16 * Pow16(n - 1)
  }

  predicate IsSign(c: char) {
    c == '+' || c == '-'
  }

  predicate HasPrefix(s: string) {
    |s| >= 2 && s[0] == '0' && (s[1] == 'x' || s[1] == 'X')
  }

  /** `0x` or nothing and digits, of which there must be one, all within the width. */
  function ScanDigits(u: string, width: nat): Scan {
    var prefix: nat := if width >= 2 && HasPrefix(u) then 2 else 0;
    var digits := u[prefix..];
    var k := Taken(digits, width - prefix);
    if k == 0 then Failed else Scanned(HexNumber(digits[..k]), digits[k..])
  }

  /** The negative of a number in an unsigned integer of so many digits. */
  function Negated(v: nat, width: nat): (n: nat)
    ensures n < Pow16(width) && (n + v) % Pow16(width) == 0
  {
    var p := Pow16(width);
    NegatedCancels(v, p);
    if v % p == 0 then 0 else p - v % p
  }

  lemma NegatedCancels(v: nat, p: nat)
    requires p > 0
    ensures (p - v % p + v) % p == 0
  {
    var q := v / p;
    assert v == q * p + v % p;
    assert p - v % p + v == q * p + p == (q + 1) * p;
    ModOf(q + 1, p);
  }

  lemma ModOf(q: nat, p: nat)
    requires p > 0
    ensures (q * p) % p == 0
  {
    var k := q * p / p;
    assert q * p == k * p + (q * p) % p;
    MulMonotone(k + 1, q, p);
    MulMonotone(q, k, p);
    MulMonotone(q + 1, k, p);
  }

  lemma MulMonotone(x: int, y: int, d: nat)
    ensures x <= y ==> x * d <= y * d
  {
  }

  /**
   * One `%x` conversion with a width: white space, then within the width a sign and a number. The
   * target is an unsigned integer of as many hexadecimal digits as the width.
   */
  function ScanHex(s: string, width: nat): Scan {
    var t := SkipSpace(s);
    if width == 0 || t == [] || !IsSign(t[0]) then ScanDigits(t, width)
    else
      var r := ScanDigits(t[1..], width - 1);
      if r.Scanned? && t[0] == '-' then r.(value := Negated(r.value, width)) else r
  }

  /** One `%x` conversion behind a literal hyphen. */
  function ScanHyphenHex(s: string, width: nat): Scan {
    if s == [] || s[0] != '-' then Failed else ScanHex(s[1..], width)
  }

  /** The bytes of a number, the most significant one first: `htonl` or `htons`, and a copy. */
  function BigEndian(v: nat, n: nat): (b: seq<Byte>)
    ensures |b| == n
  {
    if n == 0 then [] else BigEndian(v / 256, n - 1) + [v % 256]
  }

  /** What `bt_string_to_uuid128` makes of the six numbers. */
  function Assembled(v0: nat, v1: nat, v2: nat, v3: nat, v4: nat, v5: nat): (b: seq<Byte>)
    ensures |b| == 16
  {
    BigEndian(v0, 4) + BigEndian(v1, 2) + BigEndian(v2, 2) + BigEndian(v3, 2) + BigEndian(v4, 4) + BigEndian(v5, 2)
  }

  /** The first four numbers, and what follows them. */
  datatype Fields = NoFields | Fields(v0: nat, v1: nat, v2: nat, v3: nat, rest: string)

  function ScanFields(text: string): Fields {
    var d0 := ScanHex(text, 8);
    if d0.Failed? then NoFields else
    var d1 := ScanHyphenHex(d0.rest, 4);
    if d1.Failed? then NoFields else
    var d2 := ScanHyphenHex(d1.rest, 4);
    if d2.Failed? then NoFields else
    var d3 := ScanHyphenHex(d2.rest, 4);
    if d3.Failed? then NoFields else Fields(d0.value, d1.value, d2.value, d3.value, d3.rest)
  }

  /** `sscanf` with the format of `bt_string_to_uuid128`: the sixteen bytes when all six conversions succeed. */
  function ParseUuid(text: string): (r: Option<seq<Byte>>)
    ensures r.Some? ==> |r.value| == 16
  {
    var f := ScanFields(text);
    if f.NoFields? then None else
    var d4 := ScanHyphenHex(f.rest, 8);
    if d4.Failed? then None else
    var d5 := ScanHex(d4.rest, 4);
    if d5.Failed? then None else
    Some(Assembled(f.v0, f.v1, f.v2, f.v3, d4.value, d5.value))
  }

  // ---------- Canonical texts ----------

  /** The digits of bytes, two each. */
  function HexDigits(b: seq<Byte>): (s: string)
    ensures |s| == 2 * |b|
  {
    if b == [] then "" else HexDigits(b[..|b| - 1]) + [HexDigit(b[|b| - 1] / 16), HexDigit(b[|b| - 1] % 16)]
  }

  /** Digits that come in pairs. */
  ghost predicate Paired(s: string) {
    |s| % 2 == 0 && AllHex(s)
  }

  /** The bytes of digits, two each. */
  function Pairs(s: string): (b: seq<Byte>)
    requires Paired(s)
    ensures |b| == |s| / 2
  {
    if s == [] then []
    else
      assert IsHex(s[|s| - 2]) && IsHex(s[|s| - 1]);
      Pairs(s[..|s| - 2]) + [16 * HexValue(s[|s| - 2]) + HexValue(s[|s| - 1])]
  }

  /** Groups of 8, 4, 4, 4 and 12 digits with hyphens between them (section 3 of RFC 4122). */
  function Hyphenated(d: string): (t: string)
    requires |d| == 32
    ensures |t| == 36
  {
    Joined(d[..8], d[8..12], d[12..16], d[16..20], d[20..])
  }

  /** Five parts with hyphens between them. */
  function Joined(a: string, b: string, c: string, d: string, e: string): string {
    a + ("-" + (b + ("-" + (c + ("-" + (d + ("-" + e)))))))
  }

  /** The canonical text of a UUID. */
  function PrintUuid(b: seq<Byte>): string
    requires |b| == 16
  {
    Hyphenated(HexDigits(b))
  }

  const DIGITS := "0123456789abcdef"
  const UPPER := "0123456789ABCDEF"

  /** The digits are those of the two alphabets, and each is worth its place there. */
  lemma HexValueIsPlace(c: char, v: nat)
    requires v < 16
    ensures HexValue(c) == v <==> c == DIGITS[v] || c == UPPER[v]
  {
    assert DIGITS == DIGITS[..10] + "abcdef" && UPPER == DIGITS[..10] + "ABCDEF";
  }

  // ---------- What a conversion takes ----------

  /** The digits end by the width, or where no more follow. */
  ghost predicate Ends(group: string, rest: string, width: nat) {
    && group != [] && AllHex(group) && |group| <= width
    && (|group| == width || rest == [] || !IsHex(rest[0]))
  }

  lemma {:induction false} TakenGroup(group: string, rest: string, width: nat)
    requires group == [] || AllHex(group)
    requires |group| <= width && (|group| == width || rest == [] || !IsHex(rest[0]))
    ensures Taken(group + rest, width) == |group|
  {
    hide IsHex;
    if group == [] {
      assert group + rest == rest;
    } else {
      assert (group + rest)[0] == group[0] && (group + rest)[1..] == group[1..] + rest;
      TakenGroup(group[1..], rest, width - 1);
    }
  }

  /** Digits in front of which the text has no prefix are read up to the width. */
  lemma ScanDigitsUpTo(group: string, rest: string, width: nat)
    requires Ends(group, rest, width) && (width < 2 || !HasPrefix(group + rest))
    ensures ScanDigits(group + rest, width) == Scanned(HexNumber(group), rest)
  {
    hide IsHex, HexNumber, Taken, HasPrefix;
    TakenGroup(group, rest, width);
    assert (group + rest)[0..] == group + rest;
    assert (group + rest)[..|group|] == group && (group + rest)[|group|..] == rest;
  }

  /** A prefix counts against the width. */
  lemma ScanDigitsPrefixed(x: char, group: string, rest: string, width: nat)
    requires (x == 'x' || x == 'X') && width >= 2 && Ends(group, rest, width - 2)
    ensures ScanDigits(['0', x] + group + rest, width) == Scanned(HexNumber(group), rest)
  {
    hide IsHex, HexNumber, Taken, AllHex;
    var u := ['0', x] + group + rest;
    TakenGroup(group, rest, width - 2);
    assert u[2..] == group + rest;
    assert (group + rest)[..|group|] == group && (group + rest)[|group|..] == rest;
  }

  lemma ScanDigitsFails(u: string, width: nat)
    requires width == 0 || u == [] || !IsHex(u[0])
    ensures ScanDigits(u, width) == Failed
  {
    assert u[0..] == u;
  }

  /** White space in front does not matter, and none of it counts against the width. */
  lemma {:induction false} ScanSkipsSpace(space: string, s: string, width: nat)
    requires forall i :: 0 <= i < |space| ==> space[i] in " \t\n\r" || space[i] as int == 11 || space[i] as int == 12
    ensures ScanHex(space + s, width) == ScanHex(s, width)
  {
    if space == [] {
      assert space + s == s;
    } else {
      assert (space + s)[0] == space[0] && (space + s)[1..] == space[1..] + s;
      ScanSkipsSpace(space[1..], s, width);
    }
  }

  /**
   * Behind white space a conversion takes a sign, a prefix and digits, all within its width; it fails
   * when there is no digit. A minus makes the number that it adds up to zero with.
   */
  lemma ScanTakes(group: string, rest: string, width: nat)
    requires Ends(group, rest, width) && (width < 2 || !HasPrefix(group + rest))
    ensures ScanHex(group + rest, width) == Scanned(HexNumber(group), rest)
    ensures ScanHex("+" + (group + rest), width + 1) == Scanned(HexNumber(group), rest)
    ensures ScanHex("-" + (group + rest), width + 1) == Scanned(Negated(HexNumber(group), width + 1), rest)
  {
    hide HexNumber, IsHex, ScanDigits, HasPrefix, Negated;
    assert IsHex(group[0]) && (group + rest)[0] == group[0];
    HexIsPlain(group[0]);
    ScanDigitsUpTo(group, rest, width);
    assert ("+" + (group + rest))[1..] == group + rest == ("-" + (group + rest))[1..];
  }

  lemma ScanTakesPrefixed(x: char, group: string, rest: string, width: nat)
    requires (x == 'x' || x == 'X') && width >= 2 && Ends(group, rest, width - 2)
    ensures ScanHex(['0', x] + group + rest, width) == Scanned(HexNumber(group), rest)
  {
    hide HexNumber, IsHex, ScanDigits;
    ScanDigitsPrefixed(x, group, rest, width);
  }

  lemma ScanFails(s: string, width: nat)
    requires s == [] || (!IsHex(s[0]) && !IsSpace(s[0]) && !IsSign(s[0]))
    ensures ScanHex(s, width) == Failed
    ensures ScanHex("+" + s, width) == Failed == ScanHex("-" + s, width)
  {
    hide IsHex, IsSpace, ScanDigits;
    assert ("+" + s)[1..] == s == ("-" + s)[1..];
    ScanDigitsFails(s, width);
    SignIsPlain();
    if width == 0 {
      ScanDigitsFails("+" + s, 0);
      ScanDigitsFails("-" + s, 0);
    } else {
      ScanDigitsFails(s, width - 1);
      assert SkipSpace("+" + s) == "+" + s && SkipSpace("-" + s) == "-" + s;
    }
  }

  lemma SignIsPlain()
    ensures !IsSpace('+') && !IsSpace('-') && !IsHex('+') && !IsHex('-')
  {
  }

  lemma {:induction false} TakenAll(s: string, width: nat)
    requires |s| >= width && AllHex(s[..width])
    ensures Taken(s, width) == width
  {
    if width > 0 {
      assert s[..width][0] == s[0];
      assert s[1..][..width - 1] == s[..width][1..];
      TakenAll(s[1..], width - 1);
    }
  }

  lemma HexNumberLast(front: string, hi: char, lo: char)
    requires IsHex(hi) && IsHex(lo)
    ensures HexNumber(front + [hi, lo]) == 256 * HexNumber(front) + (16 * HexValue(hi) + HexValue(lo))
  {
    var s := front + [hi, lo];
    assert s[..|s| - 1] == front + [hi] && (front + [hi])[..|front|] == front;
    assert HexNumber(front + [hi]) == 16 * HexNumber(front) + HexValue(hi);
  }

  lemma HexAppend(front: string, hi: char, lo: char)
    requires Paired(front) && IsHex(hi) && IsHex(lo)
    ensures Paired(front + [hi, lo])
  {
    hide IsHex;
  }

  lemma PairsUnfold(s: string)
    requires |s| >= 2 && Paired(s)
    ensures IsHex(s[|s| - 2]) && IsHex(s[|s| - 1]) && Paired(s[..|s| - 2])
    ensures Pairs(s) == Pairs(s[..|s| - 2]) + [16 * HexValue(s[|s| - 2]) + HexValue(s[|s| - 1])]
  {
    hide HexValue;
  }

  lemma PairsLast(front: string, hi: char, lo: char)
    requires Paired(front) && IsHex(hi) && IsHex(lo)
    ensures Paired(front + [hi, lo]) && Pairs(front + [hi, lo]) == Pairs(front) + [16 * HexValue(hi) + HexValue(lo)]
  {
    hide HexValue, Paired, Pairs;
    HexAppend(front, hi, lo);
    var s := front + [hi, lo];
    PairsUnfold(s);
    assert s[..|s| - 2] == front && s[|s| - 2] == hi && s[|s| - 1] == lo;
  }

  lemma BigEndianLast(v: nat, b: Byte, n: nat)
    ensures BigEndian(256 * v + b, n + 1) == BigEndian(v, n) + [b]
  {
    assert (256 * v + b) / 256 == v && (256 * v + b) % 256 == b;
  }

  lemma {:induction false} BigEndianOfHex(s: string)
    requires Paired(s)
    ensures BigEndian(HexNumber(s), |s| / 2) == Pairs(s)
  {
    hide HexNumber, Pairs, HexValue, Paired;
    if s == [] {
      PairsOfNothing();
    } else {
      PairedHasTwo(s);
      var front, hi, lo := s[..|s| - 2], s[|s| - 2], s[|s| - 1];
      assert s == front + [hi, lo];
      PairsUnfold(s);
      BigEndianOfHex(front);
      HexNumberLast(front, hi, lo);
      BigEndianLast(HexNumber(front), 16 * HexValue(hi) + HexValue(lo), |front| / 2);
    }
  }

  lemma {:induction false} PairsConcat(a: string, b: string)
    requires Paired(a) && Paired(b)
    ensures Paired(a + b) && Pairs(a + b) == Pairs(a) + Pairs(b)
  {
    if b == [] {
      assert a + b == a;
    } else {
      var front, hi, lo := b[..|b| - 2], b[|b| - 2], b[|b| - 1];
      hide Pairs, Paired, HexValue;
      assert |b| >= 2 by { PairedHasTwo(b); }
      PairsUnfold(b);
      PairsConcat(a, front);
      PairsLast(a + front, hi, lo);
      assert a + b == (a + front) + [hi, lo];
    }
  }

  lemma PairedHasTwo(b: string)
    requires Paired(b) && b != []
    ensures |b| >= 2
  {
  }

  lemma HexIsPlain(c: char)
    requires IsHex(c)
    ensures !IsSpace(c) && !IsSign(c) && c != 'x' && c != 'X'
  {
  }

  lemma HexHasNoPrefix(group: string, rest: string)
    requires |group| >= 2 && AllHex(group)
    ensures !HasPrefix(group + rest)
  {
    hide IsHex;
    assert IsHex(group[1]) && (group + rest)[1] == group[1];
    HexIsPlain(group[1]);
  }

  lemma ScanDigitsGroup(group: string, rest: string)
    requires |group| >= 2 && AllHex(group)
    ensures ScanDigits(group + rest, |group|) == Scanned(HexNumber(group), rest)
  {
    hide HexNumber, Taken, IsHex, HasPrefix, AllHex;
    var s, width := group + rest, |group|;
    assert s[..width] == group && s[width..] == rest && s[0..] == s;
    HexHasNoPrefix(group, rest);
    TakenAll(s, width);
  }

  /** A conversion takes exactly a group of digits of its width. */
  lemma ScanGroup(group: string, rest: string)
    requires |group| >= 2 && AllHex(group)
    ensures ScanHex(group + rest, |group|) == Scanned(HexNumber(group), rest)
  {
    hide HexNumber, IsHex, IsSpace, IsSign, ScanDigits;
    assert IsHex(group[0]) && (group + rest)[0] == group[0];
    HexIsPlain(group[0]);
    ScanDigitsGroup(group, rest);
  }

  lemma ScanHyphenGroup(group: string, rest: string)
    requires |group| >= 2 && AllHex(group)
    ensures ScanHyphenHex("-" + (group + rest), |group|) == Scanned(HexNumber(group), rest)
  {
    hide ScanHex, HexNumber, AllHex;
    assert ("-" + (group + rest))[1..] == group + rest;
    ScanGroup(group, rest);
  }

  lemma ScanFourGroups(g0: string, g1: string, g2: string, g3: string, rest: string)
    requires |g0| == 8 && |g1| == |g2| == |g3| == 4 && AllHex(g0) && AllHex(g1) && AllHex(g2) && AllHex(g3)
    ensures ScanFields(g0 + ("-" + (g1 + ("-" + (g2 + ("-" + (g3 + rest))))))) ==
      Fields(HexNumber(g0), HexNumber(g1), HexNumber(g2), HexNumber(g3), rest)
  {
    hide ScanHex, ScanHyphenHex, AllHex, HexNumber;
    var r2 := "-" + (g3 + rest);
    var r1 := "-" + (g2 + r2);
    var r0 := "-" + (g1 + r1);
    ScanGroup(g0, r0);
    ScanHyphenGroup(g1, r1);
    ScanHyphenGroup(g2, r2);
    ScanHyphenGroup(g3, rest);
  }

  /** Six groups of digits are read as six numbers, whatever follows them. */
  lemma ParseNumbers(g0: string, g1: string, g2: string, g3: string, g4: string, g5: string, rest: string)
    requires |g0| == |g4| == 8 && |g1| == |g2| == |g3| == |g5| == 4
    requires AllHex(g0) && AllHex(g1) && AllHex(g2) && AllHex(g3) && AllHex(g4) && AllHex(g5)
    ensures ParseUuid(Joined(g0, g1, g2, g3, g4 + (g5 + rest))) ==
      Some(Assembled(HexNumber(g0), HexNumber(g1), HexNumber(g2), HexNumber(g3), HexNumber(g4), HexNumber(g5)))
  {
    hide ScanFields, ScanHex, ScanHyphenHex, Assembled, AllHex, HexNumber;
    ScanFourGroups(g0, g1, g2, g3, "-" + (g4 + (g5 + rest)));
    ScanHyphenGroup(g4, g5 + rest);
    ScanGroup(g5, rest);
  }

  /** Without a hyphen between the first groups the text is refused. */
  lemma ParseNeedsHyphen(group: string, rest: string)
    requires |group| == 8 && AllHex(group) && (rest == "" || rest[0] != '-')
    ensures ParseUuid(group + rest) == None
  {
    hide ScanHex;
    ScanGroup(group, rest);
  }

  /** And so is one in which the digits end with the fifth group. */
  lemma ParseNeedsLast(g0: string, g1: string, g2: string, g3: string, g4: string, rest: string)
    requires |g0| == |g4| == 8 && |g1| == |g2| == |g3| == 4
    requires AllHex(g0) && AllHex(g1) && AllHex(g2) && AllHex(g3) && AllHex(g4)
    requires rest == "" || (!IsHex(rest[0]) && !IsSpace(rest[0]) && !IsSign(rest[0]))
    ensures ParseUuid(Joined(g0, g1, g2, g3, g4 + rest)) == None
  {
    hide ScanFields, ScanHex, ScanHyphenHex, Assembled, AllHex, HexNumber;
    ScanFourGroups(g0, g1, g2, g3, "-" + (g4 + rest));
    ScanHyphenGroup(g4, rest);
    ScanFails(rest, 4);
  }

  /** And the numbers are the bytes that the digits write. */
  lemma ParseGroups(g0: string, g1: string, g2: string, g3: string, g4: string, g5: string, rest: string)
    requires |g0| == |g4| == 8 && |g1| == |g2| == |g3| == |g5| == 4
    requires AllHex(g0) && AllHex(g1) && AllHex(g2) && AllHex(g3) && AllHex(g4) && AllHex(g5)
    ensures ParseUuid(Joined(g0, g1, g2, g3, g4 + (g5 + rest))) ==
      Some(Pairs(g0) + Pairs(g1) + Pairs(g2) + Pairs(g3) + Pairs(g4) + Pairs(g5))
  {
    hide ParseUuid, Joined, BigEndian, AllHex, HexNumber, Pairs;
    ParseNumbers(g0, g1, g2, g3, g4, g5, rest);
    BigEndianOfHex(g0);
    BigEndianOfHex(g1);
    BigEndianOfHex(g2);
    BigEndianOfHex(g3);
    BigEndianOfHex(g4);
    BigEndianOfHex(g5);
  }

  lemma PairsOfGroups(g0: string, g1: string, g2: string, g3: string, g4: string, g5: string)
    requires Paired(g0) && Paired(g1) && Paired(g2) && Paired(g3) && Paired(g4) && Paired(g5)
    ensures var d := g0 + g1 + g2 + g3 + g4 + g5;
      Paired(d) && Pairs(d) == Pairs(g0) + Pairs(g1) + Pairs(g2) + Pairs(g3) + Pairs(g4) + Pairs(g5)
  {
    hide Pairs, Paired;
    PairsConcat(g0, g1);
    PairsConcat(g0 + g1, g2);
    PairsConcat(g0 + g1 + g2, g3);
    PairsConcat(g0 + g1 + g2 + g3, g4);
    PairsConcat(g0 + g1 + g2 + g3 + g4, g5);
  }

  lemma Grouped(d: string)
    requires |d| == 32
    ensures d == d[..8] + d[8..12] + d[12..16] + d[16..20] + d[20..28] + d[28..] && d[20..] == d[20..28] + d[28..]
  {
  }

  lemma SlicePaired(d: string, i: nat, j: nat)
    requires AllHex(d) && i <= j <= |d| && (j - i) % 2 == 0
    ensures AllHex(d[i..j]) && Paired(d[i..j])
  {
    hide IsHex;
  }

  /** Every text of 32 digits in canonical grouping is read as its bytes, in either case of the letters. */
  lemma ParseHyphenated(d: string)
    requires |d| == 32 && AllHex(d)
    ensures ParseUuid(Hyphenated(d)) == Some(Pairs(d))
  {
    hide ParseUuid, Pairs, Joined, AllHex, Paired;
    var g0, g1, g2, g3, g4, g5 := d[..8], d[8..12], d[12..16], d[16..20], d[20..28], d[28..];
    Grouped(d);
    SlicePaired(d, 0, 8);
    SlicePaired(d, 8, 12);
    SlicePaired(d, 12, 16);
    SlicePaired(d, 16, 20);
    SlicePaired(d, 20, 28);
    SlicePaired(d, 28, 32);
    assert g0 == d[0..8] && g5 == d[28..32];
    assert g5 + "" == g5;
    ParseGroups(g0, g1, g2, g3, g4, g5, "");
    PairsOfGroups(g0, g1, g2, g3, g4, g5);
  }

  lemma HexDigitsAreHex(v: nat)
    requires v < 256
    ensures IsHex(HexDigit(v / 16)) && IsHex(HexDigit(v % 16))
    ensures 16 * HexValue(HexDigit(v / 16)) + HexValue(HexDigit(v % 16)) == v
  {
    hide HexDigit, HexValue;
  }

  lemma {:induction false} DigitsOfBytes(b: seq<Byte>)
    ensures Paired(HexDigits(b)) && Pairs(HexDigits(b)) == b
  {
    hide HexDigit, HexValue, Pairs, Paired;
    if b == [] {
      PairsOfNothing();
    } else {
      var front, v := b[..|b| - 1], b[|b| - 1];
      DigitsOfBytes(front);
      HexDigitsAreHex(v);
      PairsLast(HexDigits(front), HexDigit(v / 16), HexDigit(v % 16));
      assert b == front + [v];
    }
  }

  lemma PairsOfNothing()
    ensures Paired([]) && Pairs([]) == []
  {
  }

  /** Parsing undoes printing. */
  lemma ParseUndoesPrint(b: seq<Byte>)
    requires |b| == 16
    ensures ParseUuid(PrintUuid(b)) == Some(b)
  {
    DigitsOfBytes(b);
    ParseHyphenated(HexDigits(b));
  }

  /** The digits in lower case. */
  function Lower(d: string): string {
    if d == [] then []
    else
      var last := d[|d| - 1];
      Lower(d[..|d| - 1]) + [if IsHex(last) then HexDigit(HexValue(last)) else last]
  }

  lemma LowerLast(front: string, hi: char, lo: char)
    requires IsHex(hi) && IsHex(lo)
    ensures Lower(front + [hi, lo]) == Lower(front) + [HexDigit(HexValue(hi)), HexDigit(HexValue(lo))]
  {
    var d := front + [hi, lo];
    assert d[..|d| - 1] == front + [hi] && (front + [hi])[..|front|] == front;
    assert Lower(front + [hi]) == Lower(front) + [HexDigit(HexValue(hi))];
  }

  /** And printing undoes parsing, but for the case of the letters. */
  lemma {:induction false} PrintUndoesParse(d: string)
    requires Paired(d)
    ensures HexDigits(Pairs(d)) == Lower(d)
  {
    hide HexDigits, Lower, HexDigit, HexValue, Pairs, Paired;
    if d == [] {
      PairsOfNothing();
      DigitsAndLowerOfNothing();
    } else {
      PairedHasTwo(d);
      var front, hi, lo := d[..|d| - 2], d[|d| - 2], d[|d| - 1];
      PairsUnfold(d);
      PrintUndoesParse(front);
      assert d == front + [hi, lo];
      LowerLast(front, hi, lo);
      DigitsLast(Pairs(front), HexValue(hi), HexValue(lo));
    }
  }

  lemma DigitsAndLowerOfNothing()
    ensures HexDigits([]) == Lower([]) == []
  {
  }

  /** The text read back is the text parsed, with its letters in lower case. */
  lemma PrintUndoesParseOfText(d: string)
    requires |d| == 32 && AllHex(d)
    ensures var parsed := ParseUuid(Hyphenated(d));
      parsed.Some? && |Lower(d)| == 32 && PrintUuid(parsed.value) == Hyphenated(Lower(d))
  {
    hide ParseUuid, Hyphenated, HexDigits, Lower, Pairs;
    ParseHyphenated(d);
    PrintUndoesParse(d);
  }

  lemma DigitsLast(b: seq<Byte>, hi: nat, lo: nat)
    requires hi < 16 && lo < 16
    ensures HexDigits(b + [16 * hi + lo]) == HexDigits(b) + [HexDigit(hi), HexDigit(lo)]
  {
    var c := b + [16 * hi + lo];
    assert c[..|c| - 1] == b;
  }

  function Reversed(b: seq<Byte>): (r: seq<Byte>)
    ensures |r| == |b| && forall i :: 0 <= i < |b| ==> r[i] == b[|b| - 1 - i]
  {
    if b == [] then [] else Reversed(b[1..]) + [b[0]]
  }

  const EINVAL := 22

  /** The reversing loop of `bt_string_to_uuid128` */
  method ReverseInPlace(val: array<Byte>)
    requires val.Length == 16
    modifies val
    ensures val[..] == Reversed(old(val[..]))
  {
    var tmp := val[..];
    var i := 0;
    while i < 16
      invariant 0 <= i <= 16
      invariant forall j :: 16 - i <= j < 16 ==> val[j] == tmp[15 - j]
    {
      val[15 - i] := tmp[i];
      i := i + 1;
    }
  }

  /** `bt_string_to_uuid128` */
  method StringToUuid128(uuid: array<Byte>, text: string, rever: bool) returns (ret: int)
    requires uuid.Length == 16
    modifies uuid
    ensures ParseUuid(text).None? ==> ret == -EINVAL && uuid[..] == old(uuid[..])
    ensures ParseUuid(text).Some? ==>
              && ret == 0
              && uuid[..] == if rever then Reversed(ParseUuid(text).value) else ParseUuid(text).value
  {
    hide ParseUuid, Reversed;
    var parsed := ParseUuid(text);
    if parsed.None? {
      return -EINVAL;
    }
    var bytes := parsed.value;
    var val := new Byte[16](i requires 0 <= i < 16 => bytes[i]);
    assert val[..] == bytes;
    if rever {
      ReverseInPlace(val);
    }
    Copy(uuid, val[..]);
    ret := 0;
  }

  /** `memcpy` to the front of a buffer */
  method Copy(target: array<Byte>, bytes: seq<Byte>)
    requires |bytes| <= target.Length
    modifies target
    ensures target[..] == bytes + old(target[..])[|bytes|..]
  {
    var i := 0;
    while i < |bytes|
      invariant i <= |bytes|
      invariant forall j :: 0 <= j < i ==> target[j] == bytes[j]
      invariant forall j :: i <= j < target.Length ==> target[j] == old(target[j])
    {
      target[i] := bytes[i];
      i := i + 1;
    }
  }

  // ---------- Advertising structures ----------

  const AD_FLAGS: Byte := 0x1
  const AD_COMPLETE_128_SERVICE_UUID: Byte := 0x7
  const AD_COMPLETE_LOCAL_NAME: Byte := 0x9
  const NAME_MAX := 29

  datatype Ad = Ad(kind: Byte, data: seq<Byte>)

  /**
   * Advertising data as a sequence of structures (section 11 of Vol 3 Part C of the Bluetooth Core
   * Specification): a length, then that many bytes of which the first is the type. A length of zero
   * ends the data early; a structure that is cut off is an error.
   */
  function ParseAds(b: seq<Byte>): Option<seq<Ad>> {
    if b == [] || b[0] == 0 then Some([])
    else
      var end: nat := b[0] as nat + 1;
      if |b| < end then None
      else
        var rest := ParseAds(b[end..]);
        if rest.None? then None else Some([Ad(b[1], b[2..end])] + rest.value)
  }

  /** A structure in front is read whatever follows it. */
  lemma ParseOne(kind: Byte, data: seq<Byte>, rest: seq<Byte>)
    requires |data| < 255 && ParseAds(rest).Some?
    ensures ParseAds([|data| + 1, kind] + data + rest) == Some([Ad(kind, data)] + ParseAds(rest).value)
  {
    var b: seq<Byte> := [|data| + 1, kind] + data + rest;
    var end: nat := b[0] as nat + 1;
    assert b[2..end] == data && b[end..] == rest;
  }

  /** The fields of `AdvDataContent`, filled in. */
  function AdvBytes(uuid: seq<Byte>): (b: seq<Byte>)
    requires |uuid| == 16
    ensures |b| == 22
  {
    [0x15, 2, AD_FLAGS, 0x1a, 0x10 + 1, AD_COMPLETE_128_SERVICE_UUID] + uuid
  }

  /** The name, cut to the space for it. */
  function CutName(name: seq<Byte>): (n: seq<Byte>)
    ensures n <= name && |n| == if |name| < 29 then |name| else 29
  {
    if |name| > NAME_MAX then name[..NAME_MAX] else name
  }

  /** The fields of `AdvRespDataContent`, as far as they are sent. */
  function RespBytes(name: seq<Byte>): (b: seq<Byte>)
    ensures |b| <= 32
  {
    [|CutName(name)| + 2, |CutName(name)| + 1, AD_COMPLETE_LOCAL_NAME] + CutName(name)
  }

  lemma NoAds()
    ensures ParseAds([]) == Some([])
  {
  }

  /** The advertising payload parses back to the flags and the service, and its length byte is right. */
  lemma AdvParses(uuid: seq<Byte>)
    requires |uuid| == 16
    ensures var b := AdvBytes(uuid);
      && b[0] == |b[1..]| <= 31
      && ParseAds(b[1..]) == Some([Ad(AD_FLAGS, [0x1a]), Ad(AD_COMPLETE_128_SERVICE_UUID, uuid)])
  {
    hide ParseAds;
    NoAds();
    var b := AdvBytes(uuid)[1..];
    var rest := b[3..];
    assert rest == [17, AD_COMPLETE_128_SERVICE_UUID] + uuid;
    ParseOne(AD_COMPLETE_128_SERVICE_UUID, uuid, []);
    var service := [Ad(AD_COMPLETE_128_SERVICE_UUID, uuid)];
    assert rest + [] == rest && service + [] == service;
    assert ParseAds(rest) == Some([Ad(AD_COMPLETE_128_SERVICE_UUID, uuid)]);
    ParseOne(AD_FLAGS, [0x1a], rest);
    assert b == [2, AD_FLAGS] + [0x1a] + rest;
    assert [Ad(AD_FLAGS, [0x1a])] + [Ad(AD_COMPLETE_128_SERVICE_UUID, uuid)]
        == [Ad(AD_FLAGS, [0x1a]), Ad(AD_COMPLETE_128_SERVICE_UUID, uuid)];
  }

  /** The scan response parses back to the name cut to 29 bytes, and its length byte is right. */
  lemma RespParses(name: seq<Byte>)
    ensures var b := RespBytes(name);
      && b[0] == |b[1..]| <= 31
      && ParseAds(b[1..]) == Some([Ad(AD_COMPLETE_LOCAL_NAME, CutName(name))])
  {
    hide ParseAds;
    NoAds();
    var b, n := RespBytes(name)[1..], CutName(name);
    assert b == [|n| + 1, AD_COMPLETE_LOCAL_NAME] + n;
    ParseOne(AD_COMPLETE_LOCAL_NAME, n, []);
    assert b + [] == b && [Ad(AD_COMPLETE_LOCAL_NAME, n)] + [] == [Ad(AD_COMPLETE_LOCAL_NAME, n)];
  }

  /** Both payloads of a server with a canonical UUID, from the text and the name to what a scanner reads. */
  lemma PayloadsTellUuidAndName(uuid: seq<Byte>, name: seq<Byte>)
    requires |uuid| == 16
    ensures var parsed := ParseUuid(PrintUuid(uuid));
      && parsed.Some?
      && ParseAds(AdvBytes(Reversed(parsed.value))[1..]) ==
           Some([Ad(AD_FLAGS, [0x1a]), Ad(AD_COMPLETE_128_SERVICE_UUID, Reversed(uuid))])
      && ParseAds(RespBytes(name)[1..]) == Some([Ad(AD_COMPLETE_LOCAL_NAME, CutName(name))])
  {
    ParseUndoesPrint(uuid);
    AdvParses(Reversed(uuid));
    RespParses(name);
  }

  /** What the caller asks for: its own payloads, or the system's for a UUID and a name. */
  datatype Request = Request(userData: bool, advData: seq<Byte>, advDataLen: Byte,
                             respData: seq<Byte>, respDataLen: Byte, serverUuid: string, name: Option<seq<Byte>>)

  const ADV_DATA_LEN := 32

  class BleContent {
    const advData: array<Byte>
    const respData: array<Byte>
    var advDataLen: Byte
    var respDataLen: Byte

    ghost predicate Valid()
      reads this
    {
      advData.Length == respData.Length == ADV_DATA_LEN && advData != respData
    }

    constructor ()
      ensures Valid() && fresh(advData) && fresh(respData) && advDataLen == 0 && respDataLen == 0
    {
      advData, respData := new Byte[ADV_DATA_LEN](_ => 0), new Byte[ADV_DATA_LEN](_ => 0);
      advDataLen, respDataLen := 0, 0;
    }

    /** The system's advertising data: the fields of a structure, copied to the front of the buffer */
    method FillAdvertising(uuid: array<Byte>)
      requires Valid() && uuid.Length == 16
      modifies this`advDataLen, advData
      ensures advData[..22] == AdvBytes(old(uuid[..])) && advData[22..] == old(advData[22..]) && advDataLen == 22
    {
      var advdata: seq<Byte> := [0x15, 2, AD_FLAGS, 0x1a, 0x10 + 1, AD_COMPLETE_128_SERVICE_UUID] + uuid[..];
      advDataLen := |advdata|;
      Copy(advData, advdata);
    }

    /** The system's scan response: as many bytes as the length field and the name take */
    method FillResponse(name: seq<Byte>)
      requires Valid()
      modifies this`respDataLen, respData
      ensures respDataLen == |RespBytes(name)| && respData[..respDataLen] == RespBytes(name)
      ensures respData[respDataLen..] == old(respData[..])[respDataLen..]
    {
      var nameLen := |name|;
      if nameLen > NAME_MAX {
        nameLen := NAME_MAX;
      }
      assert name[..nameLen] == CutName(name);
      var length := nameLen + 1;
      var respdata: seq<Byte> := [length + 1, length, AD_COMPLETE_LOCAL_NAME] + name[..nameLen];
      respDataLen := length + 1 + 1;
      Copy(respData, respdata);
    }

    /** `ble_adv_set`, as far as the payloads go; `hostname` stands in for a missing name */
    method AdvSet(r: Request, hostname: seq<Byte>) returns (ret: int)
      requires Valid() && |r.advData| == |r.respData| == ADV_DATA_LEN
      modifies this, advData, respData
      ensures Valid()
      ensures ret == if (if r.userData then r.advDataLen <= 0 else ParseUuid(r.serverUuid).None?) then -1 else 0
      ensures ret == 0 && r.userData ==>
                && advData[..] == r.advData && advDataLen == r.advDataLen
                && (if r.respDataLen > 0 then respData[..] == r.respData && respDataLen == r.respDataLen
                    else respData[..] == old(respData[..]) && respDataLen == old(respDataLen))
      ensures ret == 0 && !r.userData ==>
                && advData[..22] == AdvBytes(Reversed(ParseUuid(r.serverUuid).value)) && advDataLen == 22
                && advData[22..] == old(advData[22..])
                && var resp := RespBytes(if r.name.Some? then r.name.value else hostname);
                   && respDataLen == |resp| && respData[..respDataLen] == resp
                   && respData[respDataLen..] == old(respData[..])[respDataLen..]
      ensures ret == -1 ==>
                && advData[..] == old(advData[..]) && respData[..] == old(respData[..])
                && advDataLen == old(advDataLen) && respDataLen == old(respDataLen)
    {
      hide AdvBytes, RespBytes, ParseUuid, Reversed;
      if r.userData {
        if r.advDataLen <= 0 {
          return -1;
        }
        Copy(advData, r.advData);
        advDataLen := r.advDataLen;
        if r.respDataLen > 0 {
          Copy(respData, r.respData);
          respDataLen := r.respDataLen;
        }
      } else {
        var uuid := new Byte[16](_ => 0);
        var err := StringToUuid128(uuid, r.serverUuid, true);
        if err < 0 {
          return -1;
        }
        FillAdvertising(uuid);
        FillResponse(NameOf(r, hostname));
      }
      return 0;
    }
  }

  function NameOf(r: Request, hostname: seq<Byte>): seq<Byte> {
    match r.name case Some(n) => n case None => hostname
  }
}
