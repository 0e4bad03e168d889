/** The fragment of anchored regular expressions that directory masks compile to: literals and one-or-more
    captures, matched leftmost-first (regexp as used in backend/internal/dirmonitor/mask.go). */
module Regex {
  import opened Prelude

  /** Go's \S, `.`, \d and [\d.]. */
  datatype Class = NonSpace | Any | Digit | DigitOrDot

  datatype Item = Lit(text: string) | Cap(cls: Class)

  predicate InClass(cls: Class, c: char) {
    match cls
    case NonSpace => c !in {'\t', '\n', '\U{000C}', '\r', ' '}
    case Any => c != '\n'
    case Digit => '0' <= c <= '9'
    case DigitOrDot => '0' <= c <= '9' || c == '.'
  }

  /** Text and date captures are `+?`, numeric ones `+`. */
  predicate Lazy(cls: Class) {
    cls.NonSpace? || cls.Any?
  }

  predicate AllIn(cls: Class, s: string) {
    forall k :: 0 <= k < |s| ==> InClass(cls, s[k])
  }

  /** Length of the longest prefix in the class. */
  function RunLength(cls: Class, s: string): (n: nat)
    ensures n <= |s| && AllIn(cls, s[..n])
    ensures n < |s| ==> !InClass(cls, s[n])
  {
    if s == [] || !InClass(cls, s[0]) then 0 else 1 + RunLength(cls, s[1..])
  }

  /** The captures of the first match in preference order, if any. */
  function Match(items: seq<Item>, s: string): Option<seq<string>>
    decreases |items|, 1, 0
  {
    if items == [] then (if s == [] then Some([]) else None)
    else
      match items[0]
      case Lit(text) => if text <= s then Match(items[1..], s[|text|..]) else None
      case Cap(cls) => if Lazy(cls) then Grow(items, s, 1) else Shrink(items, s, RunLength(cls, s))
  }

  /** Lazy: the capture takes n characters, or as few more as lead to a match. */
  function Grow(items: seq<Item>, s: string, n: nat): Option<seq<string>>
    requires items != [] && items[0].Cap? && n >= 1
    decreases |items|, 0, |s| + 1 - n
  {
    if n > |s| || !InClass(items[0].cls, s[n - 1]) then None
    else
      match Match(items[1..], s[n..])
      case Some(caps) => Some([s[..n]] + caps)
      case None => Grow(items, s, n + 1)
  }

  /** Greedy: the capture takes n characters, or as few less as lead to a match. */
  function Shrink(items: seq<Item>, s: string, n: nat): Option<seq<string>>
    requires items != [] && items[0].Cap? && n <= |s|
    decreases |items|, 0, n
  {
    if n == 0 then None
    else
      match Match(items[1..], s[n..])
      case Some(caps) => Some([s[..n]] + caps)
      case None => Shrink(items, s, n - 1)
  }

  // ---------------------------------------------------------------------
  // What a match is
  // ---------------------------------------------------------------------

  function Captures(items: seq<Item>): nat {
    if items == [] then 0 else (if items[0].Cap? then 1 else 0) + Captures(items[1..])
  }

  /** The text that the items spell when the captures hold the given values. */
  function Assemble(items: seq<Item>, caps: seq<string>): string
    requires |caps| == Captures(items)
  {
    if items == [] then ""
    else
      match items[0]
      case Lit(text) => text + Assemble(items[1..], caps)
      case Cap(_) => caps[0] + Assemble(items[1..], caps[1..])
  }

  /** Each value is a non-empty string of its capture's class. */
  ghost predicate Values(items: seq<Item>, caps: seq<string>) {
    |caps| == Captures(items) &&
    (items != [] ==>
      match items[0]
      case Lit(_) => Values(items[1..], caps)
      case Cap(cls) => caps[0] != "" && AllIn(cls, caps[0]) && Values(items[1..], caps[1..]))
  }

  ghost predicate Fits(items: seq<Item>, s: string, caps: seq<string>) {
    Values(items, caps) && Assemble(items, caps) == s
  }

  /** The order in which a backtracking matcher tries decompositions: at the first capture where they
      differ, the shorter value first if lazy, the longer first if greedy. */
  ghost predicate Before(items: seq<Item>, a: seq<string>, b: seq<string>)
    requires |a| == |b| == Captures(items)
  {
    if items == [] then true
    else
      match items[0]
      case Lit(_) => Before(items[1..], a, b)
      case Cap(cls) =>
        if a[0] == b[0] then Before(items[1..], a[1..], b[1..])
        else if Lazy(cls) then |a[0]| < |b[0]|
        else |a[0]| > |b[0]|
  }

  /** r is the first decomposition of s in that order, or None when there is none. */
  ghost predicate IsFirst(items: seq<Item>, s: string, r: Option<seq<string>>) {
    match r
    case Some(a) => Fits(items, s, a) && forall b :: Fits(items, s, b) ==> Before(items, a, b)
    case None => forall b :: !Fits(items, s, b)
  }

  /** The matcher finds the first decomposition, and finds one whenever there is one. */
  lemma {:induction false} MatchIsFirst(items: seq<Item>, s: string)
    ensures IsFirst(items, s, Match(items, s))
    decreases |items|, 1, 0
  {
    if items == [] {
    } else if items[0].Lit? {
      LitIsFirst(items, s);
    } else if Lazy(items[0].cls) {
      GrowIsFirst(items, s, 1);
    } else {
      ShrinkIsFirst(items, s, RunLength(items[0].cls, s));
    }
  }

  lemma {:induction false} LitIsFirst(items: seq<Item>, s: string)
    requires items != [] && items[0].Lit?
    ensures IsFirst(items, s, Match(items, s))
    decreases |items|, 0, 0
  {
    var text := items[0].text;
    if text <= s {
      MatchIsFirst(items[1..], s[|text|..]);
      assert s == text + s[|text|..];
    }
    forall b | Fits(items, s, b)
      ensures text <= s && Fits(items[1..], s[|text|..], b)
    {
      assert Assemble(items, b) == text + Assemble(items[1..], b);
    }
  }

  /** Splitting a decomposition at its first capture. */
  lemma FitsCap(items: seq<Item>, s: string, b: seq<string>)
    requires items != [] && items[0].Cap? && Fits(items, s, b)
    ensures b != [] && 1 <= |b[0]| <= RunLength(items[0].cls, s) && b[0] == s[..|b[0]|]
    ensures Fits(items[1..], s[|b[0]|..], b[1..])
  {
    assert s == b[0] + Assemble(items[1..], b[1..]);
    PrefixInRun(items[0].cls, b[0], s);
  }

  lemma {:induction false} PrefixInRun(cls: Class, p: string, s: string)
    requires p <= s && AllIn(cls, p)
    ensures |p| <= RunLength(cls, s)
  {
    if p != "" {
      assert InClass(cls, p[0]);
      PrefixInRun(cls, p[1..], s[1..]);
    }
  }

  lemma CapFits(items: seq<Item>, s: string, n: nat, caps: seq<string>)
    requires items != [] && items[0].Cap? && 1 <= n <= |s|
    requires AllIn(items[0].cls, s[..n]) && Fits(items[1..], s[n..], caps)
    ensures Fits(items, s, [s[..n]] + caps)
  {
    var b := [s[..n]] + caps;
    assert b[1..] == caps;
    assert s == s[..n] + s[n..];
  }

  lemma {:induction false} GrowIsFirst(items: seq<Item>, s: string, n: nat)
    requires items != [] && items[0].Cap? && Lazy(items[0].cls) && n >= 1
    requires n - 1 <= |s| && AllIn(items[0].cls, s[..n - 1])
    requires forall b :: Fits(items, s, b) ==> b != [] && |b[0]| >= n
    ensures IsFirst(items, s, Grow(items, s, n))
    decreases |items|, 0, |s| + 1 - n
  {
    var cls := items[0].cls;
    if n > |s| || !InClass(cls, s[n - 1]) {
      forall b | Fits(items, s, b)
        ensures false
      {
        FitsCap(items, s, b);
      }
    } else {
      MatchIsFirst(items[1..], s[n..]);
      assert s[..n] == s[..n - 1] + [s[n - 1]];
      match Match(items[1..], s[n..])
      case Some(caps) => TakenIsFirst(items, s, n, caps);
      case None =>
        forall b | Fits(items, s, b)
          ensures |b[0]| >= n + 1
        {
          FitsCap(items, s, b);
        }
        GrowIsFirst(items, s, n + 1);
    }
  }

  lemma {:induction false} ShrinkIsFirst(items: seq<Item>, s: string, n: nat)
    requires items != [] && items[0].Cap? && !Lazy(items[0].cls)
    requires n <= RunLength(items[0].cls, s)
    requires forall b :: Fits(items, s, b) ==> b != [] && |b[0]| <= n
    ensures IsFirst(items, s, Shrink(items, s, n))
    decreases |items|, 0, n
  {
    if n == 0 {
      forall b | Fits(items, s, b)
        ensures false
      {
        FitsCap(items, s, b);
      }
    } else {
      MatchIsFirst(items[1..], s[n..]);
      assert AllIn(items[0].cls, s[..n]) by {
        assert forall k :: 0 <= k < n ==> s[k] == s[..RunLength(items[0].cls, s)][k];
      }
      match Match(items[1..], s[n..])
      case Some(caps) => TakenIsFirst(items, s, n, caps);
      case None =>
        forall b | Fits(items, s, b)
          ensures |b[0]| <= n - 1
        {
          FitsCap(items, s, b);
        }
        ShrinkIsFirst(items, s, n - 1);
    }
  }

  /** Taking n characters is first when every decomposition's capture comes no earlier than n. */
  lemma TakenIsFirst(items: seq<Item>, s: string, n: nat, caps: seq<string>)
    requires items != [] && items[0].Cap? && 1 <= n <= |s| && AllIn(items[0].cls, s[..n])
    requires forall b :: Fits(items, s, b) ==> b != [] && if Lazy(items[0].cls) then |b[0]| >= n else |b[0]| <= n
    requires IsFirst(items[1..], s[n..], Some(caps))
    ensures IsFirst(items, s, Some([s[..n]] + caps))
  {
    var a := [s[..n]] + caps;
    CapFits(items, s, n, caps);
    assert a[1..] == caps;
    forall b | Fits(items, s, b)
      ensures Before(items, a, b)
    {
      FitsCap(items, s, b);
    }
  }

  /** With one-character captures there is nothing to choose: the text has one decomposition. */
  lemma {:induction false} SingleCharsFitOnce(items: seq<Item>, ones: seq<string>, caps: seq<string>)
    requires Values(items, ones) && forall k :: 0 <= k < |ones| ==> |ones[k]| == 1
    requires Values(items, caps) && |Assemble(items, caps)| <= |Assemble(items, ones)|
    ensures Assemble(items, caps) == Assemble(items, ones) ==> caps == ones
    ensures |Assemble(items, caps)| == |Assemble(items, ones)|
    decreases |items|
  {
    if items != [] {
      if items[0].Lit? {
        SingleCharsFitOnce(items[1..], ones, caps);
        assert Assemble(items, caps) == items[0].text + Assemble(items[1..], caps);
        assert Assemble(items, ones) == items[0].text + Assemble(items[1..], ones);
        assert Assemble(items, caps)[|items[0].text|..] == Assemble(items[1..], caps);
        assert Assemble(items, ones)[|items[0].text|..] == Assemble(items[1..], ones);
      } else {
        SingleCharsFitOnce(items[1..], ones[1..], caps[1..]);
        assert |caps[0]| == 1;
        assert caps == [caps[0]] + caps[1..] && ones == [ones[0]] + ones[1..];
        assert Assemble(items, caps)[0] == caps[0][0] && Assemble(items, ones)[0] == ones[0][0];
        assert Assemble(items, caps)[1..] == Assemble(items[1..], caps[1..]);
        assert Assemble(items, ones)[1..] == Assemble(items[1..], ones[1..]);
      }
    }
  }

  // ---------------------------------------------------------------------
  // Separators
  // ---------------------------------------------------------------------

  /** The literal text in front of the first capture. */
  function Lead(items: seq<Item>): string {
    if items == [] || items[0].Cap? then "" else items[0].text + Lead(items[1..])
  }

  /** The text is not met before its place when reading value + text from the left. */
  predicate FirstAtEnd(value: string, text: string) {
    forall p :: 0 <= p < |value| ==> !(text <= (value + text)[p..])
  }

  /** The text tells a capture of this class where to end: its first character occurs in no value at all
      (seps), or for a lazy capture the text is not met inside the capture's own value, or for a greedy one
      its first character is not in the class. */
  predicate Ends(cls: Class, value: string, text: string, seps: set<char>) {
    text != "" && (text[0] in seps || if Lazy(cls) then FirstAtEnd(value, text) else !InClass(cls, text[0]))
  }

  /** Every capture that has another one after it is ended by the literal text in between. */
  ghost predicate Delimited(items: seq<Item>, values: seq<string>, seps: set<char>)
    requires |values| == Captures(items)
  {
    if items == [] then true
    else
      match items[0]
      case Lit(_) => Delimited(items[1..], values, seps)
      case Cap(cls) =>
        (Captures(items[1..]) > 0 ==> Ends(cls, values[0], Lead(items[1..]), seps)) &&
        Delimited(items[1..], values[1..], seps)
  }

  predicate Avoids(s: string, seps: set<char>) {
    forall k :: 0 <= k < |s| ==> s[k] !in seps
  }

  function CountIn(s: string, seps: set<char>): nat {
    if s == "" then 0 else (if s[0] in seps then 1 else 0) + CountIn(s[1..], seps)
  }

  lemma {:induction false} CountConcat(a: string, b: string, seps: set<char>)
    ensures CountIn(a + b, seps) == CountIn(a, seps) + CountIn(b, seps)
  {
    if a == "" {
      assert a + b == b;
    } else {
      assert (a + b)[1..] == a[1..] + b;
      CountConcat(a[1..], b, seps);
    }
  }

  lemma {:induction false} CountZero(s: string, seps: set<char>)
    ensures CountIn(s, seps) == 0 <==> Avoids(s, seps)
  {
    if s != "" {
      CountZero(s[1..], seps);
      assert Avoids(s, seps) <==> s[0] !in seps && Avoids(s[1..], seps) by {
        if s[0] !in seps && Avoids(s[1..], seps) {
          forall k | 0 <= k < |s| ensures s[k] !in seps { if k > 0 { assert s[k] == s[1..][k - 1]; } }
        }
        if Avoids(s, seps) {
          forall k | 0 <= k < |s| - 1 ensures s[1..][k] !in seps { assert s[1..][k] == s[k + 1]; }
        }
      }
    }
  }

  /** Two decompositions of one text hold equally many separators; so if one's captures hold none, neither
      do the other's. */
  lemma {:induction false} SeparatorsBalance(items: seq<Item>, a: seq<string>, b: seq<string>, seps: set<char>)
    requires |a| == |b| == Captures(items)
    requires forall k :: 0 <= k < |a| ==> Avoids(a[k], seps)
    ensures CountIn(Assemble(items, a), seps) <= CountIn(Assemble(items, b), seps)
    ensures CountIn(Assemble(items, a), seps) == CountIn(Assemble(items, b), seps) ==>
      forall k :: 0 <= k < |b| ==> Avoids(b[k], seps)
  {
    if items != [] {
      if items[0].Lit? {
        SeparatorsBalance(items[1..], a, b, seps);
        CountConcat(items[0].text, Assemble(items[1..], a), seps);
        CountConcat(items[0].text, Assemble(items[1..], b), seps);
      } else {
        SeparatorsBalance(items[1..], a[1..], b[1..], seps);
        CountConcat(a[0], Assemble(items[1..], a[1..]), seps);
        CountConcat(b[0], Assemble(items[1..], b[1..]), seps);
        CountZero(a[0], seps);
        CountZero(b[0], seps);
        assert forall k :: 1 <= k < |b| ==> b[k] == b[1..][k - 1];
      }
    }
  }

  lemma {:induction false} LeadIsPrefix(items: seq<Item>, caps: seq<string>)
    requires |caps| == Captures(items)
    ensures Lead(items) <= Assemble(items, caps)
  {
    if items != [] && items[0].Lit? {
      LeadIsPrefix(items[1..], caps);
    }
  }

  /** Any other decomposition gives the first capture at least as much if lazy, at most as much if greedy. */
  lemma HeadsOrdered(items: seq<Item>, values: seq<string>, seps: set<char>, b: seq<string>)
    requires items != [] && items[0].Cap? && Values(items, values) && Delimited(items, values, seps)
    requires forall k :: 0 <= k < |values| ==> Avoids(values[k], seps)
    requires Fits(items, Assemble(items, values), b)
    ensures if Lazy(items[0].cls) then |b[0]| >= |values[0]| else |b[0]| <= |values[0]|
  {
    var s, v, c, rest := Assemble(items, values), values[0], b[0], items[1..];
    assert s == v + Assemble(rest, values[1..]) == c + Assemble(rest, b[1..]);
    if Captures(rest) == 0 {
      assert values[1..] == b[1..];
    } else {
      var text := Lead(rest);
      LeadIsPrefix(rest, values[1..]);
      LeadIsPrefix(rest, b[1..]);
      SeparatorsBalance(items, values, b, seps);
      assert s[|c|] == text[0] && s[|v|] == text[0];
      assert forall k :: 0 <= k < |v| ==> s[k] == v[k];
      assert forall k :: 0 <= k < |c| ==> s[k] == c[k];
      if |c| < |v| {
        EarlierText(v, c, text, s);
      }
    }
  }

  lemma EarlierText(v: string, c: string, text: string, s: string)
    requires v + text <= s && c + text <= s && |c| < |v|
    ensures text <= (v + text)[|c|..]
  {
    assert forall k :: 0 <= k < |text| ==> (v + text)[|c|..][k] == s[|c| + k] == (c + text)[|c| + k] == text[k];
  }

  lemma {:induction false} DelimitedIsFirst(items: seq<Item>, values: seq<string>, seps: set<char>)
    requires Values(items, values) && Delimited(items, values, seps)
    requires forall k :: 0 <= k < |values| ==> Avoids(values[k], seps)
    ensures IsFirst(items, Assemble(items, values), Some(values))
  {
    var s := Assemble(items, values);
    if items != [] {
      if items[0].Lit? {
        var n := |items[0].text|;
        DelimitedIsFirst(items[1..], values, seps);
        forall b | Fits(items, s, b)
          ensures Before(items, values, b)
        {
          assert Assemble(items, b)[n..] == Assemble(items[1..], b) && s[n..] == Assemble(items[1..], values);
        }
      } else {
        var n := |values[0]|;
        DelimitedIsFirst(items[1..], values[1..], seps);
        assert s[..n] == values[0] && s[n..] == Assemble(items[1..], values[1..]);
        forall b | Fits(items, s, b)
          ensures b != [] && if Lazy(items[0].cls) then |b[0]| >= n else |b[0]| <= n
        {
          HeadsOrdered(items, values, seps, b);
        }
        TakenIsFirst(items, s, n, values[1..]);
        assert values == [values[0]] + values[1..];
      }
    }
  }

  /** A text has one first decomposition. */
  lemma {:induction false} FirstIsUnique(items: seq<Item>, s: string, a: seq<string>, b: seq<string>)
    requires Fits(items, s, a) && Fits(items, s, b) && Before(items, a, b) && Before(items, b, a)
    ensures a == b
  {
    if items != [] {
      if items[0].Lit? {
        var n := |items[0].text|;
        assert Assemble(items, a)[n..] == Assemble(items[1..], a) && Assemble(items, b)[n..] == Assemble(items[1..], b);
        FirstIsUnique(items[1..], s[n..], a, b);
      } else {
        FitsCap(items, s, a);
        FitsCap(items, s, b);
        FirstIsUnique(items[1..], s[|a[0]|..], a[1..], b[1..]);
        assert a == [a[0]] + a[1..] && b == [b[0]] + b[1..];
      }
    }
  }

  /** A text spelled with values that its separators delimit is read back as those values. `seps` are any
      characters that occur in no value. */
  lemma MatchRecovers(items: seq<Item>, values: seq<string>, seps: set<char>)
    requires Values(items, values) && Delimited(items, values, seps)
    requires forall k :: 0 <= k < |values| ==> Avoids(values[k], seps)
    ensures Match(items, Assemble(items, values)) == Some(values)
  {
    var s := Assemble(items, values);
    DelimitedIsFirst(items, values, seps);
    MatchIsFirst(items, s);
    hide Match;
    var r := Match(items, s);
    FirstIsUnique(items, s, values, r.value);
  }

  /** A first character foreign to the value keeps a text from being met early. */
  lemma ForeignStartIsFirstAtEnd(value: string, text: string)
    requires text != "" && text[0] !in value
    ensures FirstAtEnd(value, text)
  {
    forall p | 0 <= p < |value|
      ensures !(text <= (value + text)[p..])
    {
      assert (value + text)[p..][0] == value[p];
    }
  }

  /** "1" for every capture. */
  function Ones(items: seq<Item>): (r: seq<string>)
    ensures Values(items, r)
  {
    if items == [] then []
    else if items[0].Lit? then Ones(items[1..])
    else
      assert (["1"] + Ones(items[1..]))[1..] == Ones(items[1..]);
      ["1"] + Ones(items[1..])
  }

  /** Between two captures that touch, the text does not say where to cut. */
  lemma {:induction false} TwoReadings(items: seq<Item>, k: nat) returns (a: seq<string>, b: seq<string>)
    requires k + 1 < |items| && items[k].Cap? && items[k + 1].Cap?
    ensures Values(items, a) && Values(items, b) && a != b && Assemble(items, a) == Assemble(items, b)
  {
    if k > 0 {
      a, b := TwoReadings(items[1..], k - 1);
      if items[0].Cap? {
        assert (["1"] + a)[1..] == a && (["1"] + b)[1..] == b;
        a, b := ["1"] + a, ["1"] + b;
      }
    } else {
      var rest := Ones(items[2..]);
      assert items[1..][1..] == items[2..];
      a, b := ["1"] + (["11"] + rest), ["11"] + (["1"] + rest);
      assert a[1..] == ["11"] + rest && b[1..] == ["1"] + rest && a[1..][1..] == rest && b[1..][1..] == rest;
      assert Assemble(items[1..], a[1..]) == "11" + Assemble(items[2..], rest);
      assert Assemble(items[1..], b[1..]) == "1" + Assemble(items[2..], rest);
      assert a[0] != b[0];
      assert "1" + ("11" + Assemble(items[2..], rest)) == "11" + ("1" + Assemble(items[2..], rest));
    }
  }

  /** So a separator is necessary: with touching captures some values are read back as others. */
  lemma TouchingCapturesLose(items: seq<Item>, k: nat) returns (values: seq<string>)
    requires k + 1 < |items| && items[k].Cap? && items[k + 1].Cap?
    ensures |values| == Captures(items) && Values(items, values) && Match(items, Assemble(items, values)) != Some(values)
  {
    var a, b := TwoReadings(items, k);
    hide Match, Assemble;
    values := if Match(items, Assemble(items, a)) != Some(a) then a else b;
  }
}
