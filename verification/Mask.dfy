/** The directory-mask language: expanding a mask and parsing a filename back
    (backend/internal/dirmonitor/mask.go). */
module Mask {
  import opened Prelude
  import opened Regex

  /** The known tokens, in the order the replacer tries them. */
  datatype Token = DATE | ZTIME | TIME | GROUP | SYSLBL | TAG | TGAFS | UNIT | TGLBL |
                   TGMHZ | TGKHZ | TGHZ | TGID | SYS | MHZ | KHZ | HZ | TG

  const ORDER: seq<Token> := [DATE, ZTIME, TIME, GROUP, SYSLBL, TAG, TGAFS, UNIT, TGLBL,
                              TGMHZ, TGKHZ, TGHZ, TGID, SYS, MHZ, KHZ, HZ, TG]

  function Name(t: Token): string {
    match t
    case DATE => "#DATE"
    case ZTIME => "#ZTIME"
    case TIME => "#TIME"
    case GROUP => "#GROUP"
    case SYSLBL => "#SYSLBL"
    case TAG => "#TAG"
    case TGAFS => "#TGAFS"
    case UNIT => "#UNIT"
    case TGLBL => "#TGLBL"
    case TGMHZ => "#TGMHZ"
    case TGKHZ => "#TGKHZ"
    case TGHZ => "#TGHZ"
    case TGID => "#TGID"
    case SYS => "#SYS"
    case MHZ => "#MHZ"
    case KHZ => "#KHZ"
    case HZ => "#HZ"
    case TG => "#TG"
  }

  function CapturePattern(t: Token): Class {
    match t
    case DATE | ZTIME | TIME => NonSpace
    case GROUP | SYSLBL | TAG | TGAFS | TGLBL => Any
    case TGMHZ | MHZ => DigitOrDot
    case UNIT | TGKHZ | TGHZ | TGID | SYS | KHZ | HZ | TG => Digit
  }

  datatype MaskTokens = MaskTokens(
    date: string, time: string, ztime: string, grp: string, sysLabel: string, tag: string, tgAFS: string,
    unit: string, tgLabel: string, tgHz: string, tgKHz: string, tgMHz: string, tgID: string, sys: string,
    hz: string, khz: string, mhz: string)

  /** What a token expands to; #TGID and #TG share a field. */
  function Field(t: Token, m: MaskTokens): string {
    match t
    case DATE => m.date
    case ZTIME => m.ztime
    case TIME => m.time
    case GROUP => m.grp
    case SYSLBL => m.sysLabel
    case TAG => m.tag
    case TGAFS => m.tgAFS
    case UNIT => m.unit
    case TGLBL => m.tgLabel
    case TGMHZ => m.tgMHz
    case TGKHZ => m.tgKHz
    case TGHZ => m.tgHz
    case TGID => m.tgID
    case SYS => m.sys
    case MHZ => m.mhz
    case KHZ => m.khz
    case HZ => m.hz
    case TG => m.tgID
  }

  /** The first of the given tokens whose name starts s. */
  function FirstOf(order: seq<Token>, s: string): Option<Token> {
    if order == [] then None
    else if Name(order[0]) <= s then Some(order[0])
    else FirstOf(order[1..], s)
  }

  function ReplacerKey(s: string): (r: Option<Token>)
    ensures r.Some? ==> Name(r.value) <= s
    ensures r.None? ==> forall t :: !(Name(t) <= s)
  {
    FirstOfIsPrefix(ORDER, s);
    EveryToken();
    FirstOf(ORDER, s)
  }

  lemma EveryToken()
    ensures forall t :: t in ORDER
  {
    forall t ensures t in ORDER { assert ORDER[Index(t)] == t; }
  }

  lemma {:induction false} FirstOfIsPrefix(order: seq<Token>, s: string)
    ensures FirstOf(order, s).Some? ==> Name(FirstOf(order, s).value) <= s && FirstOf(order, s).value in order
    ensures FirstOf(order, s).None? ==> forall t :: t in order ==> !(Name(t) <= s)
  {
    if order != [] {
      FirstOfIsPrefix(order[1..], s);
      assert order == [order[0]] + order[1..];
    }
  }

  lemma NamesAreLong(t: Token)
    ensures 3 <= |Name(t)| && Name(t)[0] == '#' && forall k :: 1 <= k < |Name(t)| ==> Upper(Name(t)[k])
  {
  }

  predicate Upper(c: char) {
    'A' <= c <= 'Z'
  }

  /** Generic replacement from left to right, first key in argument order. */
  function ExpandMask(mask: string, m: MaskTokens): string {
    if mask == "" then ""
    else
      match ReplacerKey(mask)
      case Some(t) => Field(t, m) + ExpandMask(mask[|Name(t)|..], m)
      case None => [mask[0]] + ExpandMask(mask[1..], m)
  }

  // ---------------------------------------------------------------------
  // Token runs in a mask
  // ---------------------------------------------------------------------

  function UpperLength(s: string): (n: nat)
    ensures n <= |s| && (forall k :: 0 <= k < n ==> Upper(s[k])) && (n < |s| ==> !Upper(s[n]))
  {
    if s == "" || !Upper(s[0]) then 0 else 1 + UpperLength(s[1..])
  }

  /** Length of the match of `#[A-Z]+` at the start of s, or 0. */
  function RunAt(s: string): (n: nat)
    ensures n <= |s| && n != 1
  {
    if s == "" || s[0] != '#' then 0
    else
      var n := UpperLength(s[1..]);
      if n == 0 then 0 else 1 + n
  }

  datatype Loc = Loc(from: nat, to: nat)

  /** All matches of `#[A-Z]+` from position i on. */
  function FindRuns(mask: string, i: nat): (locs: seq<Loc>)
    ensures forall k :: 0 <= k < |locs| ==> i <= locs[k].from < locs[k].to <= |mask|
    ensures forall k :: 0 <= k < |locs| - 1 ==> locs[k].to <= locs[k + 1].from
    decreases |mask| - i
  {
    if i >= |mask| then []
    else
      var n := RunAt(mask[i..]);
      if n == 0 then FindRuns(mask, i + 1) else [Loc(i, i + n)] + FindRuns(mask, i + n)
  }

  function Named(order: seq<Token>, run: string): Option<Token> {
    if order == [] then None
    else if Name(order[0]) == run then Some(order[0])
    else Named(order[1..], run)
  }

  /** The token a run names, by lookup in the capture-pattern table. */
  function Known(run: string): (r: Option<Token>)
    ensures r.Some? ==> Name(r.value) == run
    ensures r.None? ==> forall t :: Name(t) != run
  {
    NamedIs(ORDER, run);
    EveryToken();
    Named(ORDER, run)
  }

  /** A name that starts another never stands before it in the replacer's order. */
  lemma LongerFirst(a: Token, b: Token)
    requires Name(a) <= Name(b)
    ensures Index(b) <= Index(a)
  {
    var x, y := Name(a), Name(b);
    NamesAreLong(a);
    assert x[1] == y[1] && x[2] == y[2];
    assert |x| > 3 ==> x[3] == y[3];
    assert |x| > 4 ==> x[4] == y[4];
    assert |x| > 5 ==> x[5] == y[5];
  }

  function Index(t: Token): (i: nat)
    ensures i < |ORDER| && ORDER[i] == t
  {
    match t
    case DATE => 0
    case ZTIME => 1
    case TIME => 2
    case GROUP => 3
    case SYSLBL => 4
    case TAG => 5
    case TGAFS => 6
    case UNIT => 7
    case TGLBL => 8
    case TGMHZ => 9
    case TGKHZ => 10
    case TGHZ => 11
    case TGID => 12
    case SYS => 13
    case MHZ => 14
    case KHZ => 15
    case HZ => 16
    case TG => 17
  }

  lemma {:induction false} NamedIs(order: seq<Token>, run: string)
    ensures Named(order, run).Some? ==> Name(Named(order, run).value) == run
    ensures Named(order, run).None? ==> forall t :: t in order ==> Name(t) != run
  {
    if order != [] {
      NamedIs(order[1..], run);
      assert order == [order[0]] + order[1..];
    }
  }

  lemma {:induction false} FirstOfIsEarliest(order: seq<Token>, s: string, i: nat)
    requires i < |order| && Name(order[i]) <= s
    ensures FirstOf(order, s).Some? && exists j :: 0 <= j <= i && order[j] == FirstOf(order, s).value
  {
    if !(Name(order[0]) <= s) {
      FirstOfIsEarliest(order[1..], s, i - 1);
      var j :| 0 <= j <= i - 1 && order[1..][j] == FirstOf(order[1..], s).value;
      assert order[j + 1] == FirstOf(order, s).value;
    }
  }

  /** The replacer picks a token exactly at its own name. */
  lemma KeyOfName(t: Token)
    ensures ReplacerKey(Name(t)) == Some(t) && Known(Name(t)) == Some(t)
  {
    FirstOfIsEarliest(ORDER, Name(t), Index(t));
    assert ReplacerKey(Name(t)) == FirstOf(ORDER, Name(t));
    hide ReplacerKey, Known, Name, FirstOf;
    var u := ReplacerKey(Name(t)).value;
    var j :| 0 <= j <= Index(t) && ORDER[j] == u;
    LongerFirst(u, t);
    OrderIsIndex(j);
    var w := Known(Name(t)).value;
    LongerFirst(w, t);
    LongerFirst(t, w);
  }

  lemma OrderIsIndex(j: nat)
    requires j < |ORDER|
    ensures Index(ORDER[j]) == j
  {
  }

  // ---------------------------------------------------------------------
  // Expansion, run by run
  // ---------------------------------------------------------------------

  /** What the replacer makes of a maximal run of capitals behind '#'. */
  function ExpandRun(run: string, m: MaskTokens): string {
    match ReplacerKey(run)
    case Some(t) => Field(t, m) + run[|Name(t)|..]
    case None => run
  }

  /** A key at the start of s reaches no further than the run there. */
  lemma KeyWithinRun(s: string, t: Token)
    requires Name(t) <= s
    ensures |Name(t)| <= RunAt(s)
  {
    hide Name;
    NamesAreLong(t);
    var n := UpperLength(s[1..]);
    assert forall k :: 1 <= k < |Name(t)| ==> s[k] == Name(t)[k];
    assert n < |s[1..]| ==> s[n + 1] == s[1..][n];
  }

  lemma KeyOfRun(s: string)
    ensures ReplacerKey(s) == ReplacerKey(s[..RunAt(s)])
  {
    SameKeys(ORDER, s, s[..RunAt(s)]);
  }

  lemma {:induction false} SameKeys(order: seq<Token>, s: string, run: string)
    requires run == s[..RunAt(s)]
    ensures FirstOf(order, s) == FirstOf(order, run)
  {
    if order != [] {
      if Name(order[0]) <= s {
        KeyWithinRun(s, order[0]);
      }
      SameKeys(order[1..], s, run);
    }
  }

  lemma {:induction false} CapitalsAreCopied(s: string, n: nat, m: MaskTokens)
    requires n <= |s| && forall k :: 0 <= k < n ==> s[k] != '#'
    ensures ExpandMask(s, m) == s[..n] + ExpandMask(s[n..], m)
  {
    hide ExpandMask, ReplacerKey, Name, Field;
    if n == 0 {
      assert s[0..] == s;
    } else {
      NoKeyHere(s);
      ExpandStep(s, m);
      CapitalsAreCopied(s[1..], n - 1, m);
      assert s[1..][n - 1..] == s[n..];
      assert [s[0]] + s[1..][..n - 1] == s[..n];
    }
  }

  lemma NoKeyHere(s: string)
    requires s != "" && s[0] != '#'
    ensures ReplacerKey(s) == None
  {
    hide ReplacerKey, Name;
    if ReplacerKey(s).Some? {
      NamesAreLong(ReplacerKey(s).value);
    }
  }

  lemma RunExpands(s: string, m: MaskTokens)
    requires RunAt(s) > 0
    ensures ExpandMask(s, m) == ExpandRun(s[..RunAt(s)], m) + ExpandMask(s[RunAt(s)..], m)
  {
    hide *;
    KeyOfRun(s);
    NoHashInRun(s);
    ExpandStep(s, m);
    RunExpansion(s[..RunAt(s)], m);
    match ReplacerKey(s)
    case Some(t) =>
      NamesAreLong(t);
      KeyWithinRun(s, t);
      RunTail(s, RunAt(s), |Name(t)|, m);
      assert Field(t, m) + (s[..RunAt(s)][|Name(t)|..] + ExpandMask(s[RunAt(s)..], m)) ==
             (Field(t, m) + s[..RunAt(s)][|Name(t)|..]) + ExpandMask(s[RunAt(s)..], m);
    case None =>
      RunTail(s, RunAt(s), 1, m);
      assert s[..RunAt(s)] == [s[0]] + s[..RunAt(s)][1..];
  }

  lemma RunExpansion(run: string, m: MaskTokens)
    ensures ExpandRun(run, m) ==
      match ReplacerKey(run)
      case Some(t) => Field(t, m) + run[|Name(t)|..]
      case None => run
  {
    hide ReplacerKey, Name, Field;
  }

  lemma ExpandStep(s: string, m: MaskTokens)
    requires s != ""
    ensures ExpandMask(s, m) ==
      match ReplacerKey(s)
      case Some(t) => Field(t, m) + ExpandMask(s[|Name(t)|..], m)
      case None => [s[0]] + ExpandMask(s[1..], m)
  {
    hide ReplacerKey, Name, Field;
  }

  lemma NoHashInRun(s: string)
    ensures forall k :: 1 <= k < RunAt(s) ==> s[k] != '#'
  {
    assert forall k :: 1 <= k < RunAt(s) ==> s[k] == s[1..][k - 1];
  }

  lemma RunTail(s: string, n: nat, l: nat, m: MaskTokens)
    requires l <= n <= |s| && forall k :: l <= k < n ==> s[k] != '#'
    ensures ExpandMask(s[l..], m) == s[..n][l..] + ExpandMask(s[n..], m)
  {
    hide ExpandMask;
    CapitalsAreCopied(s[l..], n - l, m);
    assert s[l..][n - l..] == s[n..];
    assert s[..n][l..] == s[l..][..n - l];
  }

  // ---------------------------------------------------------------------
  // The pattern a mask compiles to
  // ---------------------------------------------------------------------

  function TextItem(text: string): seq<Item> {
    if text == "" then [] else [Lit(text)]
  }

  function RunItem(run: string): Item {
    match Known(run)
    case Some(t) => Cap(CapturePattern(t))
    case None => Lit(run)
  }

  ghost predicate LocsFrom(mask: string, locs: seq<Loc>, from: nat) {
    if locs == [] then from <= |mask|
    else from <= locs[0].from < locs[0].to <= |mask| && LocsFrom(mask, locs[1..], locs[0].to)
  }

  function Pattern(mask: string, locs: seq<Loc>, from: nat): seq<Item>
    requires LocsFrom(mask, locs, from)
  {
    if locs == [] then TextItem(mask[from..])
    else
      TextItem(mask[from..locs[0].from]) + [RunItem(mask[locs[0].from..locs[0].to])] +
      Pattern(mask, locs[1..], locs[0].to)
  }

  function Names(mask: string, locs: seq<Loc>, from: nat): seq<Token>
    requires LocsFrom(mask, locs, from)
  {
    if locs == [] then []
    else
      (match Known(mask[locs[0].from..locs[0].to]) case Some(t) => [t] case None => []) +
      Names(mask, locs[1..], locs[0].to)
  }

  lemma {:induction false} RunsAreLocs(mask: string, i: nat, from: nat)
    requires from <= i <= |mask|
    ensures LocsFrom(mask, FindRuns(mask, i), from)
    decreases |mask| - i
  {
    if i < |mask| {
      var n := RunAt(mask[i..]);
      if n == 0 {
        RunsAreLocs(mask, i + 1, from);
      } else {
        RunsAreLocs(mask, i + n, i + n);
      }
    }
  }

  /** The values the replacer would put at the captures. */
  function Fields(names: seq<Token>, m: MaskTokens): (r: seq<string>)
    ensures |r| == |names|
  {
    seq(|names|, k requires 0 <= k < |names| => Field(names[k], m))
  }

  lemma {:induction false} CapturesAreNames(mask: string, locs: seq<Loc>, from: nat)
    requires LocsFrom(mask, locs, from)
    ensures Captures(Pattern(mask, locs, from)) == |Names(mask, locs, from)|
  {
    if locs == [] {
      CapturesConcat(TextItem(mask[from..]), []);
      assert TextItem(mask[from..]) + [] == TextItem(mask[from..]);
    } else {
      var run := mask[locs[0].from..locs[0].to];
      var text := TextItem(mask[from..locs[0].from]);
      CapturesAreNames(mask, locs[1..], locs[0].to);
      CapturesConcat(text, [RunItem(run)] + Pattern(mask, locs[1..], locs[0].to));
      assert text + [RunItem(run)] + Pattern(mask, locs[1..], locs[0].to) ==
             text + ([RunItem(run)] + Pattern(mask, locs[1..], locs[0].to));
    }
  }

  lemma CapturesConcat(text: seq<Item>, rest: seq<Item>)
    requires text == [] || (|text| == 1 && text[0].Lit?)
    ensures Captures(text + rest) == Captures(rest)
  {
    if text == [] {
      assert text + rest == rest;
    } else {
      assert (text + rest)[1..] == rest;
    }
  }

  lemma AssembleText(text: string, rest: seq<Item>, caps: seq<string>)
    requires |caps| == Captures(rest)
    ensures |caps| == Captures(TextItem(text) + rest)
    ensures Assemble(TextItem(text) + rest, caps) == text + Assemble(rest, caps)
  {
    CapturesConcat(TextItem(text), rest);
    if text == "" {
      assert TextItem(text) + rest == rest;
    } else {
      assert (TextItem(text) + rest)[1..] == rest;
    }
  }

  /** How a pattern with a run in front spells its captures. */
  lemma AssembleStep(mask: string, locs: seq<Loc>, from: nat, caps: seq<string>)
    requires LocsFrom(mask, locs, from) && locs != []
    requires |caps| == Captures(Pattern(mask, locs, from))
    ensures var text, run := mask[from..locs[0].from], mask[locs[0].from..locs[0].to];
      var rest := Pattern(mask, locs[1..], locs[0].to);
      if Known(run).Some?
      then |caps| == 1 + Captures(rest) &&
           Assemble(Pattern(mask, locs, from), caps) == text + (caps[0] + Assemble(rest, caps[1..]))
      else |caps| == Captures(rest) &&
           Assemble(Pattern(mask, locs, from), caps) == text + (run + Assemble(rest, caps))
  {
    var text, run := mask[from..locs[0].from], mask[locs[0].from..locs[0].to];
    var rest := Pattern(mask, locs[1..], locs[0].to);
    var tail := [RunItem(run)] + rest;
    assert Pattern(mask, locs, from) == TextItem(text) + tail;
    CapturesConcat(TextItem(text), tail);
    AssembleText(text, tail, caps);
    assert tail[1..] == rest;
  }

  // ---------------------------------------------------------------------
  // Expansion against the pattern
  // ---------------------------------------------------------------------

  /** The expansion as text and expanded runs in turn. */
  function ExpandRuns(mask: string, locs: seq<Loc>, from: nat, m: MaskTokens): string
    requires LocsFrom(mask, locs, from)
  {
    if locs == [] then mask[from..]
    else
      mask[from..locs[0].from] +
      (ExpandRun(mask[locs[0].from..locs[0].to], m) + ExpandRuns(mask, locs[1..], locs[0].to, m))
  }

  lemma {:induction false} ExpandByRuns(mask: string, i: nat, from: nat, m: MaskTokens)
    requires from <= i <= |mask|
    ensures LocsFrom(mask, FindRuns(mask, i), from)
    ensures mask[from..i] + ExpandMask(mask[i..], m) == ExpandRuns(mask, FindRuns(mask, i), from, m)
    decreases |mask| - i
  {
    hide ExpandRun, ExpandMask, RunAt, ExpandRuns;
    if i == |mask| {
      NothingExpands(mask, from, m);
    } else if RunAt(mask[i..]) == 0 {
      PlainCharIsCopied(mask[i..], m);
      ExpandByRuns(mask, i + 1, from, m);
      assert mask[i..][1..] == mask[i + 1..];
      assert mask[from..i] + [mask[i]] == mask[from..i + 1];
    } else {
      var n := RunAt(mask[i..]);
      RunExpands(mask[i..], m);
      ExpandByRuns(mask, i + n, i + n, m);
      assert mask[i..][n..] == mask[i + n..] && mask[i..][..n] == mask[i..i + n];
      assert mask[i + n..i + n] + ExpandMask(mask[i + n..], m) == ExpandMask(mask[i + n..], m);
      ExpandAtRun(mask, i, n, from, FindRuns(mask, i + n), m);
    }
  }

  lemma ExpandAtRun(mask: string, i: nat, n: nat, from: nat, rest: seq<Loc>, m: MaskTokens)
    requires from <= i < i + n <= |mask| && LocsFrom(mask, rest, i + n)
    requires ExpandMask(mask[i..], m) == ExpandRun(mask[i..i + n], m) + ExpandRuns(mask, rest, i + n, m)
    ensures var locs := [Loc(i, i + n)] + rest;
      LocsFrom(mask, locs, from) && mask[from..i] + ExpandMask(mask[i..], m) == ExpandRuns(mask, locs, from, m)
  {
    hide ExpandRun, ExpandMask;
    assert ([Loc(i, i + n)] + rest)[1..] == rest;
  }

  lemma NothingExpands(mask: string, from: nat, m: MaskTokens)
    requires from <= |mask|
    ensures ExpandMask(mask[|mask|..], m) == "" && ExpandRuns(mask, [], from, m) == mask[from..]
  {
  }

  lemma PlainCharIsCopied(s: string, m: MaskTokens)
    requires s != "" && RunAt(s) == 0
    ensures ExpandMask(s, m) == [s[0]] + ExpandMask(s[1..], m)
  {
    hide ReplacerKey, Name, Field;
    if ReplacerKey(s).Some? {
      KeyWithinRun(s, ReplacerKey(s).value);
      NamesAreLong(ReplacerKey(s).value);
      assert false;
    }
  }

  /** A run is clean when it is a token's name or no token's name starts it. */
  ghost predicate CleanRun(run: string) {
    (exists t :: Name(t) == run) || (forall t :: !(Name(t) <= run))
  }

  ghost predicate CleanLocs(mask: string, locs: seq<Loc>)
    requires forall k :: 0 <= k < |locs| ==> locs[k].from <= locs[k].to <= |mask|
  {
    forall k :: 0 <= k < |locs| ==> CleanRun(mask[locs[k].from..locs[k].to])
  }

  /** A clean run expands to what its capture stands for, or to itself. */
  lemma CleanRunExpands(run: string, m: MaskTokens)
    requires CleanRun(run)
    ensures ExpandRun(run, m) == match Known(run) case Some(t) => Field(t, m) case None => run
  {
    hide Field, ReplacerKey, Known, Name;
    if t :| Name(t) == run {
      KeyOfName(t);
    }
  }

  /** Any other run is a literal to the parser, yet the replacer shortens it when values are short. */
  lemma UncleanRunShrinks(run: string, m: MaskTokens)
    requires !CleanRun(run) && forall t :: |Field(t, m)| <= 1
    ensures Known(run).None? && |ExpandRun(run, m)| < |run|
  {
    hide ReplacerKey, Known, Name, Field;
    var t :| Name(t) <= run;
    NamesAreLong(ReplacerKey(run).value);
  }

  /** On clean masks expansion spells the compiled pattern. */
  lemma {:induction false} CleanExpandsToPattern(mask: string, locs: seq<Loc>, from: nat, m: MaskTokens)
    requires LocsFrom(mask, locs, from) && LocsInside(mask, locs) && CleanLocs(mask, locs)
    ensures Captures(Pattern(mask, locs, from)) == |Names(mask, locs, from)|
    ensures ExpandRuns(mask, locs, from, m) ==
            Assemble(Pattern(mask, locs, from), Fields(Names(mask, locs, from), m))
  {
    hide ExpandRun, Known, Field, CleanRun;
    CapturesAreNames(mask, locs, from);
    var fields := Fields(Names(mask, locs, from), m);
    if locs == [] {
      AssembleText(mask[from..], [], fields);
      assert TextItem(mask[from..]) + [] == TextItem(mask[from..]);
    } else {
      var run := mask[locs[0].from..locs[0].to];
      LocsTail(mask, locs);
      assert CleanRun(run);
      CleanRunExpands(run, m);
      CleanExpandsToPattern(mask, locs[1..], locs[0].to, m);
      AssembleStep(mask, locs, from, fields);
      assert Known(run).Some? ==> fields[1..] == Fields(Names(mask, locs[1..], locs[0].to), m);
      assert Known(run).None? ==> Names(mask, locs, from) == Names(mask, locs[1..], locs[0].to);
    }
  }

  predicate LocsInside(mask: string, locs: seq<Loc>) {
    forall k :: 0 <= k < |locs| ==> locs[k].from <= locs[k].to <= |mask|
  }

  lemma LocsTail(mask: string, locs: seq<Loc>)
    requires LocsInside(mask, locs) && locs != []
    ensures LocsInside(mask, locs[1..])
    ensures CleanLocs(mask, locs) <==> CleanRun(mask[locs[0].from..locs[0].to]) && CleanLocs(mask, locs[1..])
  {
    hide CleanRun;
    assert forall k :: 0 <= k < |locs| - 1 ==> locs[1..][k] == locs[k + 1];
    assert forall k :: 1 <= k < |locs| ==> locs[k] == locs[1..][k - 1];
  }

  /** With values of at most one character, expansion is never longer than the pattern with one-character
      captures, and is shorter as soon as one run is not clean. */
  lemma {:induction false} ShortExpansion(mask: string, locs: seq<Loc>, from: nat, m: MaskTokens, ones: seq<string>)
    requires LocsFrom(mask, locs, from) && LocsInside(mask, locs)
    requires |ones| == Captures(Pattern(mask, locs, from)) && forall k :: 0 <= k < |ones| ==> |ones[k]| == 1
    requires forall t :: |Field(t, m)| <= 1
    ensures |ExpandRuns(mask, locs, from, m)| <= |Assemble(Pattern(mask, locs, from), ones)|
    ensures !CleanLocs(mask, locs) ==>
      |ExpandRuns(mask, locs, from, m)| < |Assemble(Pattern(mask, locs, from), ones)|
  {
    hide ExpandRun, Known, Field, CleanRun;
    if locs == [] {
      AssembleText(mask[from..], [], ones);
      assert TextItem(mask[from..]) + [] == TextItem(mask[from..]);
    } else {
      var run := mask[locs[0].from..locs[0].to];
      LocsTail(mask, locs);
      AssembleStep(mask, locs, from, ones);
      ShortExpansion(mask, locs[1..], locs[0].to, m, if Known(run).Some? then ones[1..] else ones);
      if CleanRun(run) {
        CleanRunExpands(run, m);
      } else {
        UncleanRunShrinks(run, m);
      }
    }
  }
}
