/** String operations the page scripts lean on: JavaScript's `\s` class and
    `String.prototype.trim`, the `/[^0-9]/g` strip, `parseInt` on a string of
    decimal digits, the comma grouping of `toLocaleString('en-NG')`,
    `indexOf` and `split` on one character. */
module Text {

  /** JavaScript's `\s`: the WhiteSpace and LineTerminator code points.
      `trim` strips exactly the same set. */
  predicate IsSpace(c: char) {
    var n := c as int;
    n == 0x20 || 0x09 <= n <= 0x0D || n == 0xA0 || n == 0x1680 || 0x2000 <= n <= 0x200A ||
    n == 0x2028 || n == 0x2029 || n == 0x202F || n == 0x205F || n == 0x3000 || n == 0xFEFF
  }

  predicate NoSpace(s: string) {
    forall k :: 0 <= k < |s| ==> !IsSpace(s[k])
  }

  predicate AllSpace(s: string) {
    forall k :: 0 <= k < |s| ==> IsSpace(s[k])
  }

  /** Leading whitespace removed: what is dropped is all whitespace, what is
      kept is a suffix that does not start with whitespace. */
  function TrimStart(s: string): (r: string)
    ensures |r| <= |s| && r == s[|s| - |r|..]
    ensures forall k :: 0 <= k < |s| - |r| ==> IsSpace(s[k])
    ensures r == [] || !IsSpace(r[0])
  {
    if s != [] && IsSpace(s[0]) then
      var t := s[1..];
      var r := TrimStart(t);
      assert t[|t| - |r|..] == s[|s| - |r|..];
      assert forall k :: 0 < k < |s| ==> s[k] == t[k - 1];
      r
    else s
  }

  /** Trailing whitespace removed. */
  function TrimEnd(s: string): (r: string)
    ensures |r| <= |s| && r == s[..|r|]
    ensures forall k :: |r| <= k < |s| ==> IsSpace(s[k])
    ensures r == [] || !IsSpace(r[|r| - 1])
  {
    if s != [] && IsSpace(s[|s| - 1]) then
      var t := s[..|s| - 1];
      var r := TrimEnd(t);
      assert t[..|r|] == s[..|r|];
      assert forall k :: 0 <= k < |s| - 1 ==> s[k] == t[k];
      r
    else s
  }

  /** How many whitespace characters the input starts with. */
  function LeadingSpace(s: string): (n: nat)
    ensures n <= |s|
  {
    |s| - |TrimStart(s)|
  }

  /** `String.prototype.trim`: the result is a slice of the input with only
      whitespace before and after it; it is empty exactly when the input is
      all whitespace, and otherwise starts and ends with a non-space. */
  function Trim(s: string): (r: string)
    ensures |r| <= |s|
    ensures SpaceAround(s, LeadingSpace(s), r)
    ensures r == [] <==> AllSpace(s)
    ensures r == [] || (!IsSpace(r[0]) && !IsSpace(r[|r| - 1]))
  {
    TrimShape(s);
    TrimEnd(TrimStart(s))
  }

  /** r is the slice of s that starts at a, with only whitespace before it
      and after it. */
  predicate SpaceAround(s: string, a: nat, r: string) {
    && a + |r| <= |s| && r == s[a..a + |r|]
    && AllSpace(s[..a]) && AllSpace(s[a + |r|..])
  }

  /** Trimming keeps the slice of the input that starts where the leading
      whitespace ends. */
  lemma TrimSlice(s: string, t: string, r: string, a: nat)
    requires t == TrimStart(s) && r == TrimEnd(t) && a == |s| - |t|
    ensures SpaceAround(s, a, r)
  {
    SliceOfSuffix(s, a, t, r);
  }

  /** A prefix r of a suffix t of s, with whitespace before t and after r,
      is a slice of s with whitespace on both sides. */
  lemma SliceOfSuffix(s: string, a: nat, t: string, r: string)
    requires a <= |s| && t == s[a..] && |r| <= |t| && r == t[..|r|]
    requires forall k :: 0 <= k < a ==> IsSpace(s[k])
    requires forall k :: |r| <= k < |t| ==> IsSpace(t[k])
    ensures SpaceAround(s, a, r)
  {
    forall k | 0 <= k < a ensures IsSpace(s[..a][k]) {
      assert s[..a][k] == s[k];
    }
    var u := s[a + |r|..];
    forall k | 0 <= k < |u| ensures IsSpace(u[k]) {
      assert u[k] == t[|r| + k];
    }
  }

  lemma TrimShape(s: string)
    ensures var r := TrimEnd(TrimStart(s));
      && SpaceAround(s, LeadingSpace(s), r)
      && |r| <= |s|
      && (r == [] <==> AllSpace(s))
      && (r == [] || (!IsSpace(r[0]) && !IsSpace(r[|r| - 1])))
  {
    var t := TrimStart(s);
    var r := TrimEnd(t);
    TrimBlankIffAllSpace(s);
    TrimSlice(s, t, r, LeadingSpace(s));
    if r != [] {
      assert r[0] == t[..|r|][0] == t[0];
    }
  }

  lemma TrimBlankIffAllSpace(s: string)
    ensures TrimEnd(TrimStart(s)) == [] <==> AllSpace(s)
  {
    var t := TrimStart(s);
    var m := |s| - |t|;
    if t != [] {
      assert t[0] == s[m] && !IsSpace(s[m]);
    }
  }

  /** `!value.trim()`: the value is all whitespace, which is exactly when
      trimming leaves nothing (`Trim`'s second postcondition). */
  predicate IsBlank(s: string) {
    AllSpace(s)
  }

  /** The blank test agrees with trimming to the empty string. */
  lemma BlankIffTrimEmpty(s: string)
    ensures IsBlank(s) <==> Trim(s) == []
  {
  }

  predicate IsDigit(c: char) {
    '0' <= c <= '9'
  }

  predicate AllDigits(s: string) {
    forall k :: 0 <= k < |s| ==> IsDigit(s[k])
  }

  predicate HasNonZeroDigit(s: string) {
    exists k :: 0 <= k < |s| && '1' <= s[k] <= '9'
  }

  /** `s.replace(/[^0-9]/g, '')`: only the ASCII digits, in order. */
  function DigitsOnly(s: string): (r: string)
    ensures AllDigits(r) && |r| <= |s|
  {
    if s == [] then []
    else (if IsDigit(s[0]) then [s[0]] else []) + DigitsOnly(s[1..])
  }

  /** A string of digits is left as it is. */
  lemma {:induction false} DigitsOnlyKeepsDigits(s: string)
    requires AllDigits(s)
    ensures DigitsOnly(s) == s
  {
    if s != [] {
      assert AllDigits(s[1..]) by {
        forall k | 0 <= k < |s| - 1 ensures IsDigit(s[1..][k]) {
          assert s[1..][k] == s[k + 1];
        }
      }
      DigitsOnlyKeepsDigits(s[1..]);
      assert s == [s[0]] + s[1..];
    }
  }

  /** Nothing remains exactly when the input holds no digit. */
  lemma {:induction false} DigitsOnlyEmptyIff(s: string)
    ensures DigitsOnly(s) == [] <==> forall k :: 0 <= k < |s| ==> !IsDigit(s[k])
  {
    if s != [] {
      DigitsOnlyEmptyIff(s[1..]);
      assert forall k :: 1 <= k < |s| ==> s[k] == s[1..][k - 1];
    }
  }

  /** The strip keeps every non-zero digit and adds none. */
  lemma {:induction false} DigitsOnlyNonZero(s: string)
    ensures HasNonZeroDigit(DigitsOnly(s)) <==> HasNonZeroDigit(s)
  {
    if s != [] {
      var h := if IsDigit(s[0]) then [s[0]] else [];
      assert DigitsOnly(s) == h + DigitsOnly(s[1..]);
      assert s == [s[0]] + s[1..];
      DigitsOnlyNonZero(s[1..]);
      NonZeroAppend(h, DigitsOnly(s[1..]));
      NonZeroAppend([s[0]], s[1..]);
      assert HasNonZeroDigit(h) == HasNonZeroDigit([s[0]]) by {
        if !IsDigit(s[0]) {
          assert !('1' <= [s[0]][0] <= '9');
        }
      }
    }
  }

  /** A concatenation has a non-zero digit when one of its parts does. */
  lemma NonZeroAppend(a: string, b: string)
    ensures HasNonZeroDigit(a + b) <==> HasNonZeroDigit(a) || HasNonZeroDigit(b)
  {
    var ab := a + b;
    if HasNonZeroDigit(ab) {
      var k :| 0 <= k < |ab| && '1' <= ab[k] <= '9';
      if k < |a| {
        assert ab[k] == a[k];
      } else {
        assert ab[k] == b[k - |a|];
      }
    }
    if HasNonZeroDigit(a) {
      var k :| 0 <= k < |a| && '1' <= a[k] <= '9';
      assert ab[k] == a[k];
    }
    if HasNonZeroDigit(b) {
      var k :| 0 <= k < |b| && '1' <= b[k] <= '9';
      assert ab[|a| + k] == b[k];
    }
  }

  lemma {:induction false} DigitsOnlyAppend(a: string, b: string)
    ensures DigitsOnly(a + b) == DigitsOnly(a) + DigitsOnly(b)
  {
    if a != [] {
      assert (a + b)[1..] == a[1..] + b;
      DigitsOnlyAppend(a[1..], b);
    } else {
      assert a + b == b;
    }
  }

  function DigitValue(c: char): nat
    requires IsDigit(c)
  {
    c as int - '0' as int
  }

  function DigitChar(d: nat): (c: char)
    requires d < 10
    ensures IsDigit(c) && DigitValue(c) == d
  {
    ('0' as int + d) as char
  }

  /** `parseInt(ds, 10)` for a string of decimal digits. */
  function DecimalValue(ds: string): nat
    requires AllDigits(ds)
  {
    if ds == [] then 0 else DecimalValue(ds[..|ds| - 1]) * 10 + DigitValue(ds[|ds| - 1])
  }

  /** The decimal numeral of n as JavaScript writes it: no leading zero
      unless n is zero. */
  function Decimal(n: nat): (r: string)
    ensures AllDigits(r) && r != []
    ensures r[0] == '0' <==> n == 0
    ensures n < 10 <==> |r| == 1
  {
    if n < 10 then [DigitChar(n)] else Decimal(n / 10) + [DigitChar(n % 10)]
  }

  /** Dropping leading zeros, keeping at least one digit: what is dropped
      is all '0', and what is kept starts with a non-zero digit or is the
      last '0'. */
  function StripZeros(ds: string): (r: string)
    ensures |r| <= |ds| && r == ds[|ds| - |r|..]
    ensures forall k :: 0 <= k < |ds| - |r| ==> ds[k] == '0'
    ensures ds != [] ==> r != [] && (r[0] != '0' || r == "0")
  {
    if |ds| > 1 && ds[0] == '0' then
      var t := ds[1..];
      var r := StripZeros(t);
      assert t[|t| - |r|..] == ds[|ds| - |r|..];
      assert forall k :: 0 < k < |ds| ==> ds[k] == t[k - 1];
      r
    else ds
  }

  lemma {:induction false} DecimalRoundTrip(n: nat)
    ensures DecimalValue(Decimal(n)) == n
  {
    if n >= 10 {
      var r := Decimal(n);
      assert r[..|r| - 1] == Decimal(n / 10);
      DecimalRoundTrip(n / 10);
    }
  }

  lemma {:induction false} ValueZeroIffNoNonZeroDigit(ds: string)
    requires AllDigits(ds)
    ensures DecimalValue(ds) == 0 <==> !HasNonZeroDigit(ds)
  {
    if ds != [] {
      var p := ds[..|ds| - 1];
      ValueZeroIffNoNonZeroDigit(p);
      if HasNonZeroDigit(p) {
        var k :| 0 <= k < |p| && '1' <= p[k] <= '9';
        assert ds[k] == p[k];
      }
      if HasNonZeroDigit(ds) {
        var k :| 0 <= k < |ds| && '1' <= ds[k] <= '9';
        if k < |p| {
          assert p[k] == ds[k];
        }
      }
    }
  }

  lemma {:induction false} LeadingZeroIgnored(ds: string)
    requires AllDigits(ds)
    ensures DecimalValue("0" + ds) == DecimalValue(ds)
  {
    if ds != [] {
      var p := ds[..|ds| - 1];
      assert ("0" + ds)[..|ds|] == "0" + p;
      LeadingZeroIgnored(p);
    }
  }

  /** A numeral without a leading zero is its own canonical form. */
  lemma {:induction false} CanonicalNumeral(ds: string)
    requires AllDigits(ds) && ds != [] && (ds[0] != '0' || ds == "0")
    ensures Decimal(DecimalValue(ds)) == ds
  {
    if |ds| == 1 {
      assert DigitChar(DigitValue(ds[0])) == ds[0];
    } else {
      var p := ds[..|ds| - 1];
      CanonicalNumeral(p);
      assert p[0] == ds[0];
      ValueZeroIffNoNonZeroDigit(p);
      assert HasNonZeroDigit(p) by { assert '1' <= p[0] <= '9'; }
      var n := DecimalValue(ds);
      assert n / 10 == DecimalValue(p) && n % 10 == DigitValue(ds[|ds| - 1]);
      assert DigitChar(n % 10) == ds[|ds| - 1];
      assert ds == p + [ds[|ds| - 1]];
    }
  }

  /** `parseInt` followed by printing drops exactly the leading zeros. */
  lemma {:induction false} ReprintDropsLeadingZeros(ds: string)
    requires AllDigits(ds) && ds != []
    ensures Decimal(DecimalValue(ds)) == StripZeros(ds)
  {
    if |ds| > 1 && ds[0] == '0' {
      assert ds == "0" + ds[1..];
      LeadingZeroIgnored(ds[1..]);
      ReprintDropsLeadingZeros(ds[1..]);
    } else {
      CanonicalNumeral(ds);
    }
  }

  /** `toLocaleString('en-NG')` applied to the number whose numeral is ds:
      a comma before every group of three digits counted from the right. */
  function GroupThousands(ds: string): (r: string)
    ensures |r| == |ds| + (if ds == [] then 0 else (|ds| - 1) / 3)
  {
    if |ds| <= 3 then ds else GroupThousands(ds[..|ds| - 3]) + "," + ds[|ds| - 3..]
  }

  /** Grouping only inserts commas: removing them gives the digits back. */
  lemma {:induction false} GroupingKeepsDigits(ds: string)
    requires AllDigits(ds)
    ensures DigitsOnly(GroupThousands(ds)) == ds
  {
    if |ds| > 3 {
      var p, t := ds[..|ds| - 3], ds[|ds| - 3..];
      GroupingParts(ds, p, t);
      GroupingKeepsDigits(p);
      var g := GroupThousands(p);
      DigitsOnlyAppend(g + ",", t);
      DigitsOnlyAppend(g, ",");
      assert DigitsOnly(",") == [];
      DigitsOnlyKeepsDigits(t);
      assert DigitsOnly(g + ",") == p;
      assert ds == p + t;
    } else {
      DigitsOnlyKeepsDigits(ds);
    }
  }

  /** The shape of a grouped numeral: it starts with a digit, and a position
      holds a comma exactly when a multiple of four characters (three digits
      and their comma) follow it from there to the end; every other position
      holds a digit. */
  predicate GroupedShape(r: string) {
    && r != [] && IsDigit(r[0])
    && (forall i :: 0 < i < |r| ==> (r[i] == ',' <==> (|r| - i) % 4 == 0))
    && (forall i :: 0 <= i < |r| && r[i] != ',' ==> IsDigit(r[i]))
  }

  /** Position i of r fits the grouped shape. */
  predicate ShapeAt(r: string, i: nat)
    requires i < |r|
  {
    && (i == 0 ==> IsDigit(r[0]))
    && (0 < i ==> (r[i] == ',' <==> (|r| - i) % 4 == 0))
    && (r[i] != ',' ==> IsDigit(r[i]))
  }

  lemma {:induction false} GroupingShapeAt(ds: string, i: nat)
    requires AllDigits(ds) && ds != [] && i < |GroupThousands(ds)|
    ensures ShapeAt(GroupThousands(ds), i)
  {
    var r := GroupThousands(ds);
    if |ds| > 3 {
      var p, t := ds[..|ds| - 3], ds[|ds| - 3..];
      var g := GroupThousands(p);
      GroupingParts(ds, p, t);
      if i < |g| {
        GroupingShapeAt(p, i);
        ShapeAtHead(g, t, i);
      } else {
        ShapeAtTail(g, t, i);
      }
    } else {
      assert r == ds;
    }
  }

  /** A position of the head keeps its shape when a comma and three more
      digits follow. */
  lemma ShapeAtHead(g: string, t: string, i: nat)
    requires |t| == 3 && i < |g| && ShapeAt(g, i)
    ensures ShapeAt(g + "," + t, i)
  {
    var r := g + "," + t;
    assert r[i] == g[i];
    assert (|g| - i + 4) % 4 == (|g| - i) % 4;
  }

  /** The comma after the head and the three digits after it fit the
      grouped shape. */
  lemma ShapeAtTail(g: string, t: string, i: nat)
    requires g != [] && |t| == 3 && AllDigits(t) && |g| <= i < |g| + 4
    ensures ShapeAt(g + "," + t, i)
  {
    var r := g + "," + t;
    if i == |g| {
      assert r[i] == ',' && |r| - i == 4;
    } else {
      assert r[i] == t[i - |g| - 1];
      assert 0 < |r| - i < 4;
    }
  }

  /** A numeral of more than three digits groups as its head, a comma and
      its last three digits, all of them digits. */
  lemma GroupingParts(ds: string, p: string, t: string)
    requires AllDigits(ds) && |ds| > 3 && p == ds[..|ds| - 3] && t == ds[|ds| - 3..]
    ensures GroupThousands(ds) == GroupThousands(p) + "," + t
    ensures |GroupThousands(ds)| == |GroupThousands(p)| + 4
    ensures AllDigits(p) && AllDigits(t)
  {
    assert AllDigits(p) by {
      forall k | 0 <= k < |p| ensures IsDigit(p[k]) {
        assert p[k] == ds[k];
      }
    }
    assert AllDigits(t) by {
      forall k | 0 <= k < |t| ensures IsDigit(t[k]) {
        assert t[k] == ds[|ds| - 3 + k];
      }
    }
  }

  lemma GroupingShape(ds: string)
    requires AllDigits(ds) && ds != []
    ensures GroupedShape(GroupThousands(ds))
  {
    var r := GroupThousands(ds);
    GroupingShapeAt(ds, 0);
    forall i | 0 < i < |r| ensures r[i] == ',' <==> (|r| - i) % 4 == 0 {
      GroupingShapeAt(ds, i);
    }
    forall i | 0 <= i < |r| && r[i] != ',' ensures IsDigit(r[i]) {
      GroupingShapeAt(ds, i);
    }
  }

  /** `s.indexOf(c)`, written as |s| rather than -1 when c does not occur. */
  function IndexOf(s: string, c: char): (r: nat)
    ensures r <= |s|
    ensures r < |s| ==> s[r] == c
  {
    if s == [] then 0
    else if s[0] == c then 0
    else 1 + IndexOf(s[1..], c)
  }

  /** `IndexOf` finds the first occurrence: no character before it is c. */
  lemma {:induction false} IndexOfFirst(s: string, c: char)
    ensures var r := IndexOf(s, c);
      (r < |s| ==> s[r] == c) && forall k :: 0 <= k < r ==> s[k] != c
  {
    if s != [] && s[0] != c {
      IndexOfFirst(s[1..], c);
      assert forall k :: 1 <= k < |s| ==> s[k] == s[1..][k - 1];
    }
  }

  /** `s.split(sep)` for a one-character separator: the pieces between
      occurrences, always at least one. */
  function Split(s: string, sep: char): (r: seq<string>)
    ensures |r| >= 1
    ensures IndexOf(s, sep) < |s| ==> |r| >= 2
    decreases |s|
  {
    var i := IndexOf(s, sep);
    if i == |s| then [s] else [s[..i]] + Split(s[i + 1..], sep)
  }

  /** `split` gives exactly one piece when the separator does not occur,
      and more otherwise. */
  lemma SplitCount(s: string, sep: char)
    ensures |Split(s, sep)| == 1 <==> sep !in s
  {
    IndexOfFirst(s, sep);
    if sep in s {
      var w :| 0 <= w < |s| && s[w] == sep;
    }
  }
}
