/** The parts of java.lang.String and java.lang.Long that URLReport relies on:
    toLowerCase, startsWith, substring, trim, split("\\|"), compareTo and
    Long.parseLong / Long.toString. Only the behaviour the report can observe
    is modelled; characters are Unicode scalar values and case folding is
    ASCII only. */
module JavaString {
  import opened Options

  const MinLong: int := -0x8000_0000_0000_0000
  const MaxLong: int := 0x7fff_ffff_ffff_ffff

  /** A Java `long`. */
  type Long = x: int | MinLong <= x <= MaxLong

  // ---------------------------------------------------------------------
  // toLowerCase, startsWith, substring

  function LowerChar(c: char): char {
    if 'A' <= c <= 'Z' then (c as int + 32) as char else c
  }

  /** String.toLowerCase, for ASCII letters. */
  function ToLower(s: string): (r: string)
    ensures |r| == |s|
    ensures forall i :: 0 <= i < |s| ==> r[i] == LowerChar(s[i])
  {
    seq(|s|, i requires 0 <= i < |s| => LowerChar(s[i]))
  }

  lemma ToLowerAppend(a: string, b: string)
    ensures ToLower(a + b) == ToLower(a) + ToLower(b)
  {
    assert forall i :: 0 <= i < |a + b| ==> ToLower(a + b)[i] == (ToLower(a) + ToLower(b))[i];
  }

  predicate StartsWith(s: string, prefix: string) {
    |prefix| <= |s| && s[..|prefix|] == prefix
  }

  /** String.substring(beginIndex): throws (None) when beginIndex exceeds the length. */
  function Substring(s: string, beginIndex: nat): (r: Option<string>)
    ensures r.Some? <==> beginIndex <= |s|
    ensures r.Some? ==> s == s[..beginIndex] + r.value
  {
    if beginIndex <= |s| then Some(s[beginIndex..]) else None
  }

  // ---------------------------------------------------------------------
  // trim: strips every leading and trailing character <= U+0020

  function StripLeading(s: string): (r: string)
    ensures |r| <= |s| && r == s[|s| - |r|..]
    ensures r == [] || r[0] > ' '
    ensures forall i :: 0 <= i < |s| - |r| ==> s[i] <= ' '
    decreases |s|
  {
    if |s| > 0 && s[0] <= ' ' then StripLeading(s[1..]) else s
  }

  function StripTrailing(s: string): (r: string)
    ensures |r| <= |s| && r == s[..|r|]
    ensures r == [] || r[|r| - 1] > ' '
    ensures forall i :: |r| <= i < |s| ==> s[i] <= ' '
    decreases |s|
  {
    if |s| > 0 && s[|s| - 1] <= ' ' then StripTrailing(s[..|s| - 1]) else s
  }

  /** String.trim. */
  function Trim(s: string): (r: string)
    ensures r == [] || (r[0] > ' ' && r[|r| - 1] > ' ')
  {
    StripTrailing(StripLeading(s))
  }

  lemma TrimKeepsTrimmed(s: string)
    requires s == [] || (s[0] > ' ' && s[|s| - 1] > ' ')
    ensures Trim(s) == s
  {
  }

  // ---------------------------------------------------------------------
  // split("\\|")

  /** Joins pieces with the separator '|'. */
  function Join(pieces: seq<string>): string {
    if |pieces| == 0 then ""
    else if |pieces| == 1 then pieces[0]
    else pieces[0] + "|" + Join(pieces[1..])
  }

  /** Every '|'-separated piece of `s`, empty ones included: the pieces
      contain no separator and joining them gives `s` back. */
  function Pieces(s: string): (r: seq<string>)
    ensures |r| >= 1
    ensures forall k :: 0 <= k < |r| ==> '|' !in r[k]
    ensures Join(r) == s
    decreases |s|
  {
    if |s| == 0 then [""]
    else if s[0] == '|' then
      var rest := Pieces(s[1..]);
      assert s == "" + "|" + s[1..];
      [""] + rest
    else
      var rest := Pieces(s[1..]);
      var r := [[s[0]] + rest[0]] + rest[1..];
      assert r[1..] == rest[1..];
      assert s == [s[0]] + s[1..];
      r
  }

  lemma {:induction false} PiecesWithoutSeparator(s: string)
    requires '|' !in s
    ensures Pieces(s) == [s]
    decreases |s|
  {
    if |s| > 0 {
      PiecesWithoutSeparator(s[1..]);
    }
  }

  lemma {:induction false} PiecesAfterSeparator(x: string, y: string)
    requires '|' !in x
    ensures Pieces(x + "|" + y) == [x] + Pieces(y)
    decreases |x|
  {
    if |x| == 0 {
      assert x + "|" + y == "|" + y;
      assert ("|" + y)[1..] == y;
    } else {
      var s := x + "|" + y;
      assert s[0] == x[0];
      assert s[1..] == x[1..] + "|" + y;
      PiecesAfterSeparator(x[1..], y);
      assert [x[0]] + x[1..] == x;
    }
  }

  /** Drops the trailing empty strings, as String.split does. */
  function DropTrailingEmpty(pieces: seq<string>): (r: seq<string>)
    ensures |r| <= |pieces| && r == pieces[..|r|]
    ensures r == [] || r[|r| - 1] != ""
    ensures forall k :: |r| <= k < |pieces| ==> pieces[k] == ""
    decreases |pieces|
  {
    if |pieces| > 0 && pieces[|pieces| - 1] == "" then DropTrailingEmpty(pieces[..|pieces| - 1])
    else pieces
  }

  /** String.split("\\|"): without a match the whole string comes back;
      otherwise the pieces minus trailing empty ones. */
  function Split(s: string): (r: seq<string>)
  {
    if '|' !in s then [s] else DropTrailingEmpty(Pieces(s))
  }

  // ---------------------------------------------------------------------
  // Long.parseLong and Long.toString (radix 10, ASCII digits)

  predicate IsDigit(c: char) {
    '0' <= c <= '9'
  }

  predicate AllDigits(s: string) {
    forall i :: 0 <= i < |s| ==> IsDigit(s[i])
  }

  function DigitsValue(s: string): nat
    requires AllDigits(s)
  {
    if |s| == 0 then 0 else 10 * DigitsValue(s[..|s| - 1]) + (s[|s| - 1] as int - '0' as int)
  }

  /** Long.parseLong restricted to ASCII: an optional sign followed by at
      least one ASCII digit, whose value fits in a long. Every other string
      is None here, which is NumberFormatException for all of them except
      those using non-ASCII decimal digits, which Java accepts. */
  function ParseLong(s: string): (r: Option<Long>)
    ensures r.Some? ==> |s| > 0 && AllDigits(if s[0] == '-' || s[0] == '+' then s[1..] else s)
  {
    if |s| == 0 then None
    else
      var digits := if s[0] == '-' || s[0] == '+' then s[1..] else s;
      if |digits| == 0 || !AllDigits(digits) then None
      else
        var v: int := if s[0] == '-' then -(DigitsValue(digits) as int) else DigitsValue(digits);
        if MinLong <= v <= MaxLong then Some(v) else None
  }

  function DigitChar(d: nat): char
    requires d < 10
  {
    ('0' as int + d) as char
  }

  /** Decimal digits of n, without leading zeros. */
  function DecimalString(n: nat): (r: string)
    ensures |r| >= 1 && AllDigits(r)
  {
    if n < 10 then [DigitChar(n)] else DecimalString(n / 10) + [DigitChar(n % 10)]
  }

  /** Long.toString. */
  function LongToString(n: Long): string {
    if n < 0 then "-" + DecimalString(-(n as int)) else DecimalString(n)
  }

  lemma {:induction false} DigitsValueOfDecimal(n: nat)
    ensures DigitsValue(DecimalString(n)) == n
  {
    if n >= 10 {
      var s := DecimalString(n);
      assert s[..|s| - 1] == DecimalString(n / 10);
      DigitsValueOfDecimal(n / 10);
    }
  }

  /** Reading back what Long.toString wrote gives the same long. */
  lemma ParseLongOfToString(n: Long)
    ensures ParseLong(LongToString(n)) == Some(n)
  {
    DigitsValueOfDecimal(if n < 0 then -(n as int) else n);
    if n < 0 {
      assert ("-" + DecimalString(-(n as int)))[1..] == DecimalString(-(n as int));
    }
  }

  // ---------------------------------------------------------------------
  // compareTo

  /** String.compareTo: the difference of the first differing characters,
      or of the lengths when one string is a prefix of the other. */
  function CompareStrings(a: string, b: string): int
    decreases |a|
  {
    if |a| == 0 || |b| == 0 then |a| - |b|
    else if a[0] != b[0] then a[0] as int - b[0] as int
    else CompareStrings(a[1..], b[1..])
  }

  /** compareTo is lexicographic order: after a common prefix of length k,
      a string is less when it ends there and the other goes on, or when its
      next character is the smaller one. */
  lemma {:induction false} CompareStringsLexicographic(a: string, b: string, k: nat)
    requires k <= |a| && k <= |b| && a[..k] == b[..k]
    requires (k == |a| && k < |b|) || (k < |a| && k < |b| && a[k] < b[k])
    ensures CompareStrings(a, b) < 0
    decreases k
  {
    if k > 0 {
      assert a[0] == a[..k][0] == b[..k][0] == b[0];
      assert a[1..][..k - 1] == a[..k][1..] == b[..k][1..] == b[1..][..k - 1];
      CompareStringsLexicographic(a[1..], b[1..], k - 1);
    }
  }

  lemma {:induction false} CompareStringsZero(a: string, b: string)
    ensures CompareStrings(a, b) == 0 <==> a == b
    decreases |a|
  {
    if |a| > 0 && |b| > 0 && a[0] == b[0] {
      CompareStringsZero(a[1..], b[1..]);
      assert a == [a[0]] + a[1..] && b == [b[0]] + b[1..];
    }
  }

  lemma {:induction false} CompareStringsAntisymmetric(a: string, b: string)
    ensures CompareStrings(a, b) == -CompareStrings(b, a)
    decreases |a|
  {
    if |a| > 0 && |b| > 0 && a[0] == b[0] {
      CompareStringsAntisymmetric(a[1..], b[1..]);
    }
  }

  lemma {:induction false} CompareStringsTransitive(a: string, b: string, c: string)
    ensures CompareStrings(a, b) <= 0 && CompareStrings(b, c) <= 0 ==> CompareStrings(a, c) <= 0
    decreases |a|
  {
    if |a| > 0 && |b| > 0 && |c| > 0 && a[0] == b[0] && b[0] == c[0] {
      CompareStringsTransitive(a[1..], b[1..], c[1..]);
    }
  }
}
