/** Go's `strings.Split`, `strings.Join` and the decimal conversions of `strconv`, shared by the text formats. */
module Text {
  import opened Prelude

  type int64 = n: int | MIN_INT64 <= n <= MAX_INT64

  /** `strings.Join` with a one-element separator. */
  function Join<T>(parts: seq<seq<T>>, sep: T): seq<T> {
    if parts == [] then []
    else if |parts| == 1 then parts[0]
    else parts[0] + [sep] + Join(parts[1..], sep)
  }

  /** `strings.Split` with a one-element separator. */
  function Split<T(==)>(s: seq<T>, sep: T): (parts: seq<seq<T>>)
    ensures |parts| > 0
    ensures forall i :: 0 <= i < |parts| ==> sep !in parts[i]
  {
    if s == [] then [[]]
    else
      var rest := Split(s[1..], sep);
      if s[0] == sep then [[]] + rest else [[s[0]] + rest[0]] + rest[1..]
  }

  lemma {:induction false} SplitPrefix<T>(p: seq<T>, s: seq<T>, sep: T)
    requires sep !in p
    ensures Split(p + s, sep) == [p + Split(s, sep)[0]] + Split(s, sep)[1..]
  {
    var tail := Split(s, sep);
    if p == [] {
      assert p + s == s && p + tail[0] == tail[0];
    } else {
      assert (p + s)[1..] == p[1..] + s;
      SplitPrefix(p[1..], s, sep);
      assert p[0] in p;
      assert [p[0]] + (p[1..] + tail[0]) == p + tail[0];
    }
  }

  lemma SplitAtSep<T>(rest: seq<T>, sep: T)
    ensures Split([sep] + rest, sep) == [[]] + Split(rest, sep)
  {
    assert ([sep] + rest)[1..] == rest;
  }

  /** Splitting undoes joining when there is a part and no part holds the separator. */
  lemma {:induction false} SplitJoin<T>(parts: seq<seq<T>>, sep: T)
    requires |parts| > 0
    requires forall i :: 0 <= i < |parts| ==> sep !in parts[i]
    ensures Split(Join(parts, sep), sep) == parts
  {
    var p := parts[0];
    if |parts| == 1 {
      SplitPrefix(p, [], sep);
      assert p + [] == p;
    } else {
      var rest := Join(parts[1..], sep);
      SplitJoin(parts[1..], sep);
      SplitAtSep(rest, sep);
      SplitPrefix(p, [sep] + rest, sep);
      hide Split;
      assert Join(parts, sep) == p + ([sep] + rest);
      assert p + [] == p;
    }
  }

  predicate OccursAt(text: string, pat: string, i: int) {
    0 <= i <= |text| - |pat| && text[i..i + |pat|] == pat
  }

  /** `strings.Contains` */
  predicate Contains(text: string, pat: string) {
    exists i :: 0 <= i <= |text| && OccursAt(text, pat, i)
  }

  predicate IsDigit(c: char) {
    '0' <= c <= '9'
  }

  function DigitOf(d: nat): (c: char)
    requires d < 10
    ensures IsDigit(c) && c as int - '0' as int == d
  {
    ('0' as int + d) as char
  }

  function FormatNat(n: nat): (s: string)
    ensures s != "" && forall c :: c in s ==> IsDigit(c)
  {
    if n < 10 then [DigitOf(n)] else FormatNat(n / 10) + [DigitOf(n % 10)]
  }

  /** `strconv.FormatInt(n, 10)`, which is also how SQLite renders an integer as text. */
  function FormatInt(n: int): string {
    if n < 0 then "-" + FormatNat(-n) else FormatNat(n)
  }

  function ParseNat(s: string): Option<nat> {
    if s == "" then Some(0)
    else
      var c := s[|s| - 1];
      match ParseNat(s[..|s| - 1])
      case None => None
      case Some(n) => if IsDigit(c) then Some(10 * n + (c as int - '0' as int)) else None
  }

  /** `strconv.ParseInt(s, 10, 64)`; both its syntax and its range errors are None. */
  function ParseInt(s: string): Option<int64> {
    if s == "" then None
    else
      var digits := if s[0] == '+' || s[0] == '-' then s[1..] else s;
      if digits == "" then None
      else
        match ParseNat(digits)
        case None => None
        case Some(n) =>
          var signed := if s[0] == '-' then 0 - n as int else n as int;
          if MIN_INT64 <= signed <= MAX_INT64 then Some(signed) else None
  }

  lemma {:induction false} ParseFormatNat(n: nat)
    ensures ParseNat(FormatNat(n)) == Some(n)
  {
    if n < 10 {
      assert [DigitOf(n)][..0] == "";
    } else {
      var s := FormatNat(n / 10);
      ParseFormatNat(n / 10);
      assert (s + [DigitOf(n % 10)])[..|s|] == s;
    }
  }

  /** Every int64 survives being printed and read back; hence FormatInt is injective on int64. */
  lemma ParseFormatInt(n: int64)
    ensures ParseInt(FormatInt(n)) == Some(n)
  {
    hide ParseNat, FormatNat;
    var m: nat := if n < 0 then 0 - n as int else n as int;
    ParseFormatNat(m);
    if n < 0 {
      assert ("-" + FormatNat(m))[1..] == FormatNat(m);
    } else {
      assert IsDigit(FormatNat(m)[0]);
    }
  }

  // ---------------------------------------------------------------------
  // The decimal system
  // ---------------------------------------------------------------------

  function Pow10(k: nat): nat {
    if k == 0 then 1 else 10 * Pow10(k - 1)
  }

  predicate AllDigits(s: string) {
    forall k :: 0 <= k < |s| ==> '0' <= s[k] <= '9'
  }

  /** What a digit is worth in front of k others. */
  function Worth(c: char, k: nat): nat
    requires '0' <= c <= '9'
  {
    (c as int - '0' as int) * Pow10(k)
  }

  /** Each digit times the power of ten of its place. */
  function Weight(s: string): nat
    requires AllDigits(s)
  {
    if s == "" then 0 else Worth(s[0], |s| - 1) + Weight(s[1..])
  }

  lemma Tenfold(c: char, k: nat)
    requires '0' <= c <= '9'
    ensures Worth(c, k + 1) == 10 * Worth(c, k) && Worth(c, 0) == c as int - '0' as int
  {
  }

  lemma WeightFirst(c: char, s: string)
    requires '0' <= c <= '9' && AllDigits(s)
    ensures AllDigits([c] + s) && Weight([c] + s) == Worth(c, |s|) + Weight(s)
  {
    hide Worth;
    assert ([c] + s)[1..] == s;
  }

  lemma {:induction false} WeightSnoc(s: string, c: char)
    requires AllDigits(s) && '0' <= c <= '9'
    ensures AllDigits(s + [c]) && Weight(s + [c]) == 10 * Weight(s) + (c as int - '0' as int)
  {
    hide Weight, Worth;
    if s == "" {
      WeightFirst(c, "");
      assert s + [c] == [c] + "";
      NoDigits();
      Tenfold(c, 0);
    } else {
      var more := s[1..];
      WeightSnoc(more, c);
      WeightFirst(s[0], more);
      WeightFirst(s[0], more + [c]);
      assert s == [s[0]] + more && s + [c] == [s[0]] + (more + [c]);
      Tenfold(s[0], |more|);
    }
  }

  lemma NoDigits()
    ensures Weight("") == 0
  {
  }

  lemma {:induction false} ParseNatIs(s: string)
    ensures ParseNat(s) == if AllDigits(s) then Some(Weight(s)) else None
  {
    if s != "" {
      var n := |s| - 1;
      ParseNatIs(s[..n]);
      assert s == s[..n] + [s[n]];
      if AllDigits(s[..n]) && '0' <= s[n] <= '9' {
        WeightSnoc(s[..n], s[n]);
      }
    }
  }

  /** The text of a natural number is its decimal numeral, without leading zeros. */
  lemma {:induction false} FormatNatIs(n: nat)
    ensures var s := FormatNat(n); AllDigits(s) && Weight(s) == n && (s[0] == '0' ==> s == "0")
  {
    if n < 10 {
      assert [DigitOf(n)][1..] == "";
    } else {
      FormatNatIs(n / 10);
      WeightSnoc(FormatNat(n / 10), DigitOf(n % 10));
      ZeroWeighsNothing();
    }
  }

  /** A number is read from an optional sign and at least one digit, and nothing else, if it is in the range. */
  lemma ParseIntExactly(s: string)
    ensures var digits := if s != "" && s[0] in {'+', '-'} then s[1..] else s;
      if digits != "" && AllDigits(digits)
      then
        var n := if s[0] == '-' then 0 - Weight(digits) else Weight(digits) as int;
        ParseInt(s) == if -0x8000_0000_0000_0000 <= n <= 0x7fff_ffff_ffff_ffff then Some(n) else None
      else ParseInt(s) == None
  {
    hide Weight, ParseNat;
    if s != "" {
      ParseNatIs(s[1..]);
      ParseNatIs(s);
    }
  }

  /** A number is written as its numeral behind a minus when it is negative. */
  lemma FormatIntIs(n: int)
    ensures var s := FormatInt(n);
      if n < 0 then s != "" && s[0] == '-' && AllDigits(s[1..]) && Weight(s[1..]) == -n && s[1..] != "" && s[1] != '0'
      else AllDigits(s) && Weight(s) == n && s != "" && (s[0] == '0' ==> s == "0")
  {
    hide FormatNat, Weight;
    FormatNatIs(if n < 0 then -n else n);
    if n < 0 {
      assert FormatInt(n)[1..] == FormatNat(-n);
      ZeroWeighsNothing();
    }
  }

  lemma ZeroWeighsNothing()
    ensures AllDigits("0") && Weight("0") == 0
  {
    assert "0"[1..] == "";
  }
}
