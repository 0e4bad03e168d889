/** What the tokens of a mask stand for, in a filename and in an expansion
    (backend/internal/dirmonitor/mask.go). */
module MaskMeaning {
  import opened Prelude
  import opened Regex
  import opened Mask
  import opened MaskRoundTrip

  // ---------------------------------------------------------------------
  // What a token takes
  // ---------------------------------------------------------------------

  /** The texts a token can capture. Labels take anything on one line, dates and times anything without blanks, ids
      and frequencies digits, and frequencies in MHz also the decimal point. */
  predicate Takes(t: Token, s: string) {
    s != "" &&
    if t in {GROUP, SYSLBL, TAG, TGAFS, TGLBL} then '\n' !in s
    else if t in {DATE, TIME, ZTIME} then forall c :: c in s ==> c !in {' ', '\t', '\n', '\U{000C}', '\r'}
    else if t in {TGMHZ, MHZ} then forall c :: c in s ==> '0' <= c <= '9' || c == '.'
    else forall c :: c in s ==> '0' <= c <= '9'
  }

  /** Ids and frequencies capture as much as they can, labels, dates and times as little. */
  predicate Greedy(t: Token) {
    t in {UNIT, TGMHZ, TGKHZ, TGHZ, TGID, SYS, MHZ, KHZ, HZ, TG}
  }

  lemma TakesIsClass(t: Token, s: string)
    ensures Takes(t, s) <==> s != "" && AllIn(CapturePattern(t), s)
    ensures Greedy(t) <==> !Lazy(CapturePattern(t))
  {
    var cls := CapturePattern(t);
    AllInIs(cls, s);
  }

  lemma AllInIs(cls: Class, s: string)
    ensures AllIn(cls, s) <==> forall c :: c in s ==> InClass(cls, c)
  {
    forall k | 0 <= k < |s|
      ensures s[k] in s
    {
    }
  }

  // ---------------------------------------------------------------------
  // Runs of simple masks
  // ---------------------------------------------------------------------

  /** A '#' and capitals, with no capital after them. */
  predicate IsRun(s: string, n: nat) {
    2 <= n <= |s| && s[0] == '#' && (forall k :: 1 <= k < n ==> Upper(s[k])) && (n < |s| ==> !Upper(s[n]))
  }

  lemma RunAtIs(s: string, n: nat)
    requires IsRun(s, n)
    ensures RunAt(s) == n
  {
    var l := UpperLength(s[1..]);
    assert forall k :: 0 <= k < l ==> Upper(s[1..][k]) && s[1..][k] == s[k + 1];
    assert l < |s| - 1 ==> s[1..][l] == s[l + 1];
  }

  lemma {:induction false} PlainHasNoRuns(mask: string, i: nat, j: nat)
    requires i <= j <= |mask| && forall k :: i <= k < j ==> mask[k] != '#'
    ensures FindRuns(mask, i) == FindRuns(mask, j)
    decreases j - i
  {
    if i < j {
      assert mask[i..][0] == mask[i];
      PlainHasNoRuns(mask, i + 1, j);
    }
  }

  lemma RunFound(mask: string, i: nat, n: nat)
    requires i <= |mask| && IsRun(mask[i..], n)
    ensures i + n <= |mask| && FindRuns(mask, i) == [Loc(i, i + n)] + FindRuns(mask, i + n)
  {
    RunAtIs(mask[i..], n);
  }

  lemma NameIsRun(t: Token, rest: string)
    requires rest != "" ==> !Upper(rest[0])
    ensures IsRun(Name(t) + rest, |Name(t)|)
  {
    NamesAreLong(t);
  }

  function NamesOf(run: string): seq<Token> {
    match Known(run) case Some(t) => [t] case None => []
  }

  /** One run more in front. */
  lemma PatternCons(mask: string, l: Loc, rest: seq<Loc>, from: nat)
    requires from <= l.from < l.to <= |mask| && LocsFrom(mask, rest, l.to)
    ensures LocsFrom(mask, [l] + rest, from)
    ensures Pattern(mask, [l] + rest, from) ==
            TextItem(mask[from..l.from]) + [RunItem(mask[l.from..l.to])] + Pattern(mask, rest, l.to)
    ensures Names(mask, [l] + rest, from) ==
            NamesOf(mask[l.from..l.to]) + Names(mask, rest, l.to)
  {
    hide TextItem, RunItem, Known;
    assert ([l] + rest)[1..] == rest;
  }

  lemma PatternNil(mask: string)
    ensures LocsFrom(mask, [], |mask|) && Pattern(mask, [], |mask|) == [] && Names(mask, [], |mask|) == []
  {
  }

  /** Text, and a run up to the end. */
  lemma LastItem(mask: string, from: nat, at: nat)
    requires from <= at < |mask|
    ensures LocsFrom(mask, [Loc(at, |mask|)], from)
    ensures Pattern(mask, [Loc(at, |mask|)], from) == TextItem(mask[from..at]) + [RunItem(mask[at..|mask|])]
    ensures Names(mask, [Loc(at, |mask|)], from) == NamesOf(mask[at..|mask|])
  {
    hide *;
    PatternNil(mask);
    PatternCons(mask, Loc(at, |mask|), [], from);
    assert [Loc(at, |mask|)] + [] == [Loc(at, |mask|)];
  }

  lemma MaskIsPattern(mask: string, locs: seq<Loc>)
    requires FindRuns(mask, 0) == locs && LocsFrom(mask, locs, 0)
    ensures MaskPattern(mask) == Pattern(mask, locs, 0) && MaskNames(mask) == Names(mask, locs, 0)
  {
    hide FindRuns, Pattern, Names;
  }

  lemma OneRunFound(mask: string)
    requires IsRun(mask, |mask|)
    ensures FindRuns(mask, 0) == [Loc(0, |mask|)]
  {
    assert mask[0..] == mask;
    RunFound(mask, 0, |mask|);
  }

  /** A mask that is one run compiles to one item. */
  lemma OneRun(mask: string)
    requires IsRun(mask, |mask|)
    ensures FindRuns(mask, 0) == [Loc(0, |mask|)]
    ensures MaskPattern(mask) == [RunItem(mask)]
    ensures MaskNames(mask) == NamesOf(mask)
  {
    OneRunFound(mask);
    hide *;
    LastItem(mask, 0, 0);
    MaskIsPattern(mask, [Loc(0, |mask|)]);
    PlainItems("#");
    assert mask[0..0] == "" && mask[0..|mask|] == mask;
  }

  // ---------------------------------------------------------------------
  // Decompositions, item by item
  // ---------------------------------------------------------------------

  lemma FitsNothing(s: string, caps: seq<string>)
    ensures Fits([], s, caps) <==> s == "" && caps == []
  {
  }

  lemma FitsCapture(cls: Class, items: seq<Item>, s: string, caps: seq<string>)
    ensures Fits([Cap(cls)] + items, s, caps) <==>
            caps != [] && caps[0] != "" && AllIn(cls, caps[0]) && caps[0] <= s && Fits(items, s[|caps[0]|..], caps[1..])
  {
    var all := [Cap(cls)] + items;
    assert all[1..] == items;
    if Fits(all, s, caps) {
      assert s == caps[0] + Assemble(items, caps[1..]);
    }
  }

  lemma FitsLiteral(text: string, items: seq<Item>, s: string, caps: seq<string>)
    ensures Fits([Lit(text)] + items, s, caps) <==> text <= s && Fits(items, s[|text|..], caps)
  {
    var all := [Lit(text)] + items;
    assert all[1..] == items;
    if Fits(all, s, caps) {
      assert s == text + Assemble(items, caps);
    }
  }

  // ---------------------------------------------------------------------
  // Masks of one token, of one unknown run, and of none
  // ---------------------------------------------------------------------

  lemma CaptureFits(cls: Class, f: string, caps: seq<string>)
    ensures Fits([Cap(cls)], f, caps) <==> caps == [f] && f != "" && AllIn(cls, f)
  {
    hide Fits, AllIn;
    var none: seq<Item> := [];
    assert [Cap(cls)] + none == [Cap(cls)];
    FitsCapture(cls, none, f, caps);
    if caps != [] && caps[0] <= f {
      var rest, more := f[|caps[0]|..], caps[1..];
      FitsNothing(rest, more);
      assert f == caps[0] + rest && caps == [caps[0]] + more;
      if caps == [f] {
        assert |caps| == 1 + |more| && |f| == |caps[0]| + |rest|;
        assert more == [] && rest == "";
      }
      if more == [] && rest == "" {
        assert caps == [caps[0]] && f == caps[0];
      }
    } else if caps == [f] {
      assert false;
    }
  }

  /** The one decomposition of a pattern that is a single capture. */
  lemma OneCapture(cls: Class, f: string)
    ensures Match([Cap(cls)], f) == if f != "" && AllIn(cls, f) then Some([f]) else None
  {
    hide Match, Fits, Before;
    MatchIsFirst([Cap(cls)], f);
    CaptureFits(cls, f, [f]);
    if Match([Cap(cls)], f).Some? {
      CaptureFits(cls, f, Match([Cap(cls)], f).value);
    }
  }

  /** A token on its own captures a whole name that it takes, and refuses any other. */
  lemma TokenAlone(t: Token, f: string)
    ensures Parse(Name(t), f) == if Takes(t, f) then Some(map[t := f]) else None
  {
    NameIsRun(t, "");
    assert Name(t) + "" == Name(t);
    OneRun(Name(t));
    KeyOfName(t);
    OneCapture(CapturePattern(t), f);
    TakesIsClass(t, f);
    hide Match, MaskPattern, MaskNames, FindRuns, Name, Takes, CapturePattern;
    CollectOne(t, f);
  }

  /** A run that is no token's name is literal text. */
  lemma UnknownRunIsLiteral(run: string, f: string)
    requires IsRun(run, |run|) && forall t :: Name(t) != run
    ensures Parse(run, f) == if f == run then Some(map[]) else None
  {
    OneRun(run);
    hide Match, Fits, Before, FindRuns, MaskPattern, MaskNames;
    assert [Lit(run)] + [] == [Lit(run)];
    MatchIsFirst([Lit(run)], f);
    forall caps
      ensures Fits([Lit(run)], f, caps) <==> f == run && caps == []
    {
      FitsLiteral(run, [], f, caps);
      if run <= f {
        FitsNothing(f[|run|..], caps);
      }
    }
    assert Fits([Lit(run)], f, []) <==> f == run;
  }

  /** A mask without a token is never matched. */
  lemma NoTokenNoMatch(mask: string, f: string)
    requires '#' !in mask
    ensures Parse(mask, f) == None
  {
    PlainHasNoRuns(mask, 0, |mask|);
  }

  // ---------------------------------------------------------------------
  // Two tokens and a separator
  // ---------------------------------------------------------------------

  /** The name can be cut at p: the first token takes what is before the separator there, the second what is after. */
  predicate CutAt(t: Token, sep: string, u: Token, f: string, p: int) {
    0 <= p && p + |sep| <= |f| && f[p..p + |sep|] == sep && Takes(t, f[..p]) && Takes(u, f[p + |sep|..])
  }

  /** A run, text without runs, and a run. */
  lemma PairRuns(mask: string, n: nat, m: nat)
    requires n < m < |mask| && IsRun(mask, n) && IsRun(mask[m..], |mask| - m) && forall k :: n <= k < m ==> mask[k] != '#'
    ensures FindRuns(mask, 0) == [Loc(0, n), Loc(m, |mask|)]
  {
    hide IsRun, FindRuns;
    assert mask[0..] == mask;
    RunFound(mask, 0, n);
    PlainHasNoRuns(mask, n, m);
    RunFound(mask, m, |mask| - m);
    NothingFound(mask);
    assert [Loc(0, n)] + ([Loc(m, |mask|)] + []) == [Loc(0, n), Loc(m, |mask|)];
  }

  lemma NothingFound(mask: string)
    ensures FindRuns(mask, |mask|) == []
  {
  }

  lemma PairParts(a: string, sep: string, b: string)
    ensures var mask, n, m := a + sep + b, |a|, |a| + |sep|;
      && mask[0..n] == a && mask[n..m] == sep && mask[m..|mask|] == b && mask[m..] == b && mask == a + (sep + b)
      && forall k :: n <= k < m ==> mask[k] == sep[k - n]
  {
  }

  lemma PairItems(mask: string, n: nat, m: nat)
    requires 0 < n < m < |mask|
    ensures var locs := [Loc(0, n), Loc(m, |mask|)];
      && LocsFrom(mask, locs, 0)
      && Pattern(mask, locs, 0) == [RunItem(mask[0..n]), Lit(mask[n..m]), RunItem(mask[m..|mask|])]
      && Names(mask, locs, 0) == NamesOf(mask[0..n]) + NamesOf(mask[m..|mask|])
  {
    var first, last := Loc(0, n), Loc(m, |mask|);
    hide *;
    LastItem(mask, n, m);
    PatternCons(mask, first, [last], 0);
    assert [first] + [last] == [first, last];
    PlainItems(mask[n..m]);
    ThreeItems(mask, n, m);
  }

  lemma ThreeItems(mask: string, n: nat, m: nat)
    requires 0 < n < m < |mask|
    ensures TextItem(mask[0..0]) + [RunItem(mask[0..n])] + ([Lit(mask[n..m])] + [RunItem(mask[m..|mask|])]) ==
            [RunItem(mask[0..n]), Lit(mask[n..m]), RunItem(mask[m..|mask|])]
  {
    hide RunItem;
  }

  lemma RunIsLong(s: string, n: nat)
    requires IsRun(s, n)
    ensures 2 <= n <= |s|
  {
  }

  lemma PairLocs(a: string, sep: string, b: string)
    requires sep != "" && '#' !in sep && IsRun(a + (sep + b), |a|) && IsRun(b, |b|)
    ensures var mask := a + sep + b; FindRuns(mask, 0) == [Loc(0, |a|), Loc(|a| + |sep|, |mask|)]
  {
    RunIsLong(b, |b|);
    hide *;
    PairParts(a, sep, b);
    PairRuns(a + sep + b, |a|, |a| + |sep|);
  }

  lemma PairPattern(t: Token, sep: string, u: Token)
    requires sep != "" && '#' !in sep && !Upper(sep[0])
    ensures var mask := Name(t) + sep + Name(u);
      && FindRuns(mask, 0) != []
      && MaskPattern(mask) == [Cap(CapturePattern(t)), Lit(sep), Cap(CapturePattern(u))]
      && MaskNames(mask) == [t, u]
  {
    hide *;
    NamesAreRuns(t, sep, u);
    NamesAreLong(t);
    NamesAreLong(u);
    NameItem(t);
    NameItem(u);
    PairLocs(Name(t), sep, Name(u));
    PairParts(Name(t), sep, Name(u));
    var mask := Name(t) + sep + Name(u);
    PairItems(mask, |Name(t)|, |Name(t)| + |sep|);
    MaskIsPattern(mask, FindRuns(mask, 0));
  }

  lemma NamesAreRuns(t: Token, sep: string, u: Token)
    requires sep != "" && !Upper(sep[0])
    ensures IsRun(Name(t) + (sep + Name(u)), |Name(t)|) && IsRun(Name(u), |Name(u)|)
  {
    NameIsRun(t, sep + Name(u));
    NameIsRun(u, "");
    hide Name, IsRun;
    assert Name(u) + "" == Name(u);
  }

  lemma PlainItems(sep: string)
    requires sep != ""
    ensures TextItem("") == [] && TextItem(sep) == [Lit(sep)]
  {
  }

  lemma NameItem(t: Token)
    ensures NamesOf(Name(t)) == [t] && RunItem(Name(t)) == Cap(CapturePattern(t))
  {
    KeyOfName(t);
    hide Known, Name, CapturePattern;
  }

  lemma TwoCaptures(c: Class, sep: string, d: Class, f: string, caps: seq<string>)
    ensures Fits([Cap(c), Lit(sep), Cap(d)], f, caps) <==>
            |caps| == 2 && f == caps[0] + sep + caps[1] && caps[0] != "" && AllIn(c, caps[0]) &&
            caps[1] != "" && AllIn(d, caps[1])
  {
    hide Fits, AllIn;
    assert [Cap(c)] + [Lit(sep), Cap(d)] == [Cap(c), Lit(sep), Cap(d)] && [Lit(sep)] + [Cap(d)] == [Lit(sep), Cap(d)];
    FitsCapture(c, [Lit(sep), Cap(d)], f, caps);
    if caps != [] && caps[0] <= f {
      var rest := f[|caps[0]|..];
      assert f == caps[0] + rest;
      FitsLiteral(sep, [Cap(d)], rest, caps[1..]);
      if sep <= rest {
        assert rest == sep + rest[|sep|..];
        CaptureFits(d, rest[|sep|..], caps[1..]);
      }
    }
  }

  lemma CutFits(t: Token, sep: string, u: Token, f: string, p: nat)
    requires p + |sep| <= |f| && f[p..p + |sep|] == sep
    ensures CutAt(t, sep, u, f, p) <==>
            Fits([Cap(CapturePattern(t)), Lit(sep), Cap(CapturePattern(u))], f, [f[..p], f[p + |sep|..]])
  {
    TwoCaptures(CapturePattern(t), sep, CapturePattern(u), f, [f[..p], f[p + |sep|..]]);
    TakesIsClass(t, f[..p]);
    TakesIsClass(u, f[p + |sep|..]);
    assert f == f[..p] + sep + f[p + |sep|..];
  }

  /** The cut that a mask of two tokens makes: the last one that fits if its first token is greedy, else the first. */
  ghost predicate CutsAt(t: Token, sep: string, u: Token, f: string, p: int) {
    CutAt(t, sep, u, f, p) && forall q :: CutAt(t, sep, u, f, q) ==> if Greedy(t) then q <= p else p <= q
  }

  /** Two tokens with a separator between them: a name that cannot be cut is refused, and any other is cut there. */
  lemma TokenPair(t: Token, sep: string, u: Token, f: string) returns (p: int)
    requires t != u && sep != "" && '#' !in sep && !Upper(sep[0])
    ensures match Parse(Name(t) + sep + Name(u), f)
      case None => forall q :: !CutAt(t, sep, u, f, q)
      case Some(v) => CutsAt(t, sep, u, f, p) && v == map[t := f[..p], u := f[p + |sep|..]]
  {
    hide *;
    var items := [Cap(CapturePattern(t)), Lit(sep), Cap(CapturePattern(u))];
    PairPattern(t, sep, u);
    MatchIsFirst(items, f);
    PairParse(t, sep, u, f, items);
    p := 0;
    match Match(items, f)
    case None => NoCut(t, sep, u, f);
    case Some(caps) =>
      p := FirstCut(t, sep, u, f, caps);
      CollectPair(t, u, caps);
  }

  lemma NoCut(t: Token, sep: string, u: Token, f: string)
    requires IsFirst([Cap(CapturePattern(t)), Lit(sep), Cap(CapturePattern(u))], f, None)
    ensures forall q :: !CutAt(t, sep, u, f, q)
  {
    hide CapturePattern, Takes, Fits;
    forall q | CutAt(t, sep, u, f, q)
      ensures false
    {
      CutFits(t, sep, u, f, q);
    }
  }

  lemma PairParse(t: Token, sep: string, u: Token, f: string, items: seq<Item>)
    requires FindRuns(Name(t) + sep + Name(u), 0) != [] && MaskPattern(Name(t) + sep + Name(u)) == items
    requires MaskNames(Name(t) + sep + Name(u)) == [t, u]
    ensures match Match(items, f)
      case None => Parse(Name(t) + sep + Name(u), f) == None
      case Some(caps) => |caps| == 2 && Parse(Name(t) + sep + Name(u), f) == Some(Collect([t, u], caps))
  {
    hide Match, MaskPattern, MaskNames, FindRuns, Name, Collect;
    var mask := Name(t) + sep + Name(u);
    assert Captures(MaskPattern(mask)) == 2;
    MatchIsFirst(items, f);
  }

  /** The first decomposition is the cut that comes first. */
  lemma FirstCut(t: Token, sep: string, u: Token, f: string, caps: seq<string>) returns (p: nat)
    requires var items := [Cap(CapturePattern(t)), Lit(sep), Cap(CapturePattern(u))];
      IsFirst(items, f, Some(caps))
    ensures CutsAt(t, sep, u, f, p) && p + |sep| <= |f| && |caps| == 2
    ensures f[..p] == caps[0] && f[p + |sep|..] == caps[1]
  {
    hide CutAt, IsFirst, CapturePattern, Greedy;
    p := CapturesCut(t, sep, u, f, caps);
    forall q | CutAt(t, sep, u, f, q)
      ensures if Greedy(t) then q <= p else p <= q
    {
      CutsOrdered(t, sep, u, f, caps, q);
    }
  }

  lemma CapturesCut(t: Token, sep: string, u: Token, f: string, caps: seq<string>) returns (p: nat)
    requires IsFirst([Cap(CapturePattern(t)), Lit(sep), Cap(CapturePattern(u))], f, Some(caps))
    ensures |caps| == 2 && p == |caps[0]| && p + |sep| <= |f| && CutAt(t, sep, u, f, p)
    ensures f[..p] == caps[0] && f[p + |sep|..] == caps[1]
  {
    hide CapturePattern, Fits, Before, CutAt;
    TwoCaptures(CapturePattern(t), sep, CapturePattern(u), f, caps);
    p := |caps[0]|;
    CutOfParts(caps[0], sep, caps[1]);
    assert caps == [caps[0], caps[1]];
    CutFits(t, sep, u, f, p);
  }

  lemma CutsOrdered(t: Token, sep: string, u: Token, f: string, caps: seq<string>, q: int)
    requires IsFirst([Cap(CapturePattern(t)), Lit(sep), Cap(CapturePattern(u))], f, Some(caps)) && |caps| == 2
    requires CutAt(t, sep, u, f, q)
    ensures if Greedy(t) then q <= |caps[0]| else |caps[0]| <= q
  {
    hide Takes, CapturePattern, IsFirst, Greedy;
    CutFits(t, sep, u, f, q);
    CutsCompared(t, sep, u, f, caps, [f[..q], f[q + |sep|..]]);
  }

  lemma CutOfParts(a: string, sep: string, b: string)
    ensures var f, p := a + sep + b, |a|; f[..p] == a && f[p..p + |sep|] == sep && f[p + |sep|..] == b
  {
  }

  lemma CutsCompared(t: Token, sep: string, u: Token, f: string, caps: seq<string>, other: seq<string>)
    requires var items := [Cap(CapturePattern(t)), Lit(sep), Cap(CapturePattern(u))];
      IsFirst(items, f, Some(caps)) && Fits(items, f, other) && |other| == 2 && |caps| == 2
    ensures if Greedy(t) then |other[0]| <= |caps[0]| else |caps[0]| <= |other[0]|
  {
    var items := [Cap(CapturePattern(t)), Lit(sep), Cap(CapturePattern(u))];
    hide CapturePattern, Fits, Before, Greedy, Captures;
    CapturesOfPair(items, other, f);
    assert Before(items, caps, other);
    BeforeIsShorter(t, sep, u, caps, other);
  }

  lemma CapturesOfPair(items: seq<Item>, caps: seq<string>, f: string)
    requires Fits(items, f, caps)
    ensures |caps| == Captures(items)
  {
  }

  lemma BeforeIsShorter(t: Token, sep: string, u: Token, a: seq<string>, b: seq<string>)
    requires var items := [Cap(CapturePattern(t)), Lit(sep), Cap(CapturePattern(u))];
      |a| == |b| == 2 && Captures(items) == 2 && Before(items, a, b)
    ensures if Greedy(t) then |b[0]| <= |a[0]| else |a[0]| <= |b[0]|
  {
    TakesIsClass(t, "");
    hide Takes, CapturePattern, Greedy;
  }

  lemma CollectOne(t: Token, s: string)
    ensures Collect([t], [s]) == map[t := s]
  {
    assert [t][..0] == [] && [s][..0] == [];
  }

  lemma CollectPair(t: Token, u: Token, caps: seq<string>)
    requires |caps| == 2 && t != u
    ensures Collect([t, u], caps) == map[t := caps[0], u := caps[1]]
  {
    CollectOne(t, caps[0]);
    assert [t, u][..1] == [t] && caps[..1] == [caps[0]];
    assert Collect([t, u], caps) == Collect([t, u][..1], caps[..1])[u := caps[1]];
  }

  // ---------------------------------------------------------------------
  // What a token expands to
  // ---------------------------------------------------------------------

  lemma TokenExpands(t: Token, m: MaskTokens)
    ensures ExpandMask(Name(t), m) == Field(t, m)
  {
    KeyOfName(t);
    NamesAreLong(t);
    ExpandStep(Name(t), m);
    hide Name, ReplacerKey, Field;
    assert Name(t)[|Name(t)|..] == "";
  }

  /** Each token by its name in the mask, and the value it stands for. */
  lemma EachTokenExpands(m: MaskTokens)
    ensures ExpandMask("#DATE", m) == m.date && ExpandMask("#TIME", m) == m.time && ExpandMask("#ZTIME", m) == m.ztime
    ensures ExpandMask("#GROUP", m) == m.grp && ExpandMask("#SYSLBL", m) == m.sysLabel && ExpandMask("#TAG", m) == m.tag
    ensures ExpandMask("#TGAFS", m) == m.tgAFS && ExpandMask("#UNIT", m) == m.unit && ExpandMask("#TGLBL", m) == m.tgLabel
    ensures ExpandMask("#TGHZ", m) == m.tgHz && ExpandMask("#TGKHZ", m) == m.tgKHz && ExpandMask("#TGMHZ", m) == m.tgMHz
    ensures ExpandMask("#TGID", m) == m.tgID && ExpandMask("#TG", m) == m.tgID && ExpandMask("#SYS", m) == m.sys
    ensures ExpandMask("#HZ", m) == m.hz && ExpandMask("#KHZ", m) == m.khz && ExpandMask("#MHZ", m) == m.mhz
  {
    hide ExpandMask;
    forall t: Token {
      TokenExpands(t, m);
    }
    assert Name(DATE) == "#DATE" && Name(TIME) == "#TIME" && Name(ZTIME) == "#ZTIME" && Name(GROUP) == "#GROUP";
    assert Name(SYSLBL) == "#SYSLBL" && Name(TAG) == "#TAG" && Name(TGAFS) == "#TGAFS" && Name(UNIT) == "#UNIT";
    assert Name(TGLBL) == "#TGLBL" && Name(TGHZ) == "#TGHZ" && Name(TGKHZ) == "#TGKHZ" && Name(TGMHZ) == "#TGMHZ";
    assert Name(TGID) == "#TGID" && Name(TG) == "#TG" && Name(SYS) == "#SYS";
    assert Name(HZ) == "#HZ" && Name(KHZ) == "#KHZ" && Name(MHZ) == "#MHZ";
  }
}
