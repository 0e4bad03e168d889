/** Parsing a filename by a mask, and what it has to do with expanding the mask
    (backend/internal/dirmonitor/mask.go). */
module MaskRoundTrip {
  import opened Prelude
  import opened Regex
  import opened Mask

  /** Token to captured value; the last capture of a token wins. */
  function Collect(names: seq<Token>, caps: seq<string>): map<Token, string>
    requires |names| == |caps|
  {
    if names == [] then map[]
    else Collect(names[..|names| - 1], caps[..|caps| - 1])[names[|names| - 1] := caps[|caps| - 1]]
  }

  function MaskPattern(mask: string): seq<Item> {
    RunsAreLocs(mask, 0, 0);
    Pattern(mask, FindRuns(mask, 0), 0)
  }

  function MaskNames(mask: string): (names: seq<Token>)
    ensures |names| == Captures(MaskPattern(mask))
  {
    RunsAreLocs(mask, 0, 0);
    CapturesAreNames(mask, FindRuns(mask, 0), 0);
    Names(mask, FindRuns(mask, 0), 0)
  }

  function Parse(mask: string, filename: string): Option<map<Token, string>> {
    if FindRuns(mask, 0) == [] then None
    else
      match Match(MaskPattern(mask), filename)
      case None => None
      case Some(caps) => MatchIsFirst(MaskPattern(mask), filename); Some(Collect(MaskNames(mask), caps))
  }

  method ParseMask(mask: string, filename: string) returns (result: Option<map<Token, string>>)
    ensures result == Parse(mask, filename)
  {
    var locs := FindRuns(mask, 0);
    if |locs| == 0 {
      return None;
    }
    var pattern, names := CompileMask(mask, locs);
    var subs := Match(pattern, filename);
    if subs == None {
      return None;
    }
    MatchIsFirst(pattern, filename);
    var values := CollectValues(names, subs.value);
    return Some(values);
  }

  /** Escapes the text between tokens and turns known tokens into captures. */
  method CompileMask(mask: string, locs: seq<Loc>) returns (pattern: seq<Item>, names: seq<Token>)
    requires locs == FindRuns(mask, 0)
    ensures pattern == MaskPattern(mask) && names == MaskNames(mask)
  {
    var lastEnd: nat := 0;
    pattern, names := [], [];
    var i := 0;
    assert locs[0..] == locs;
    assert Compiled(mask, locs, 0, pattern, names) by {
      RunsAreLocs(mask, 0, 0);
    }
    while i < |locs|
      invariant i <= |locs| && Compiled(mask, locs[i..], lastEnd, pattern, names)
    {
      var loc := locs[i];
      assert locs[i..][0] == loc && locs[i..][1..] == locs[i + 1..];
      CompileStep(mask, locs[i..], lastEnd, pattern, names);
      pattern := pattern + TextItem(mask[lastEnd..loc.from]);
      var token := mask[loc.from..loc.to];
      pattern := pattern + [RunItem(token)];
      var p := Known(token);
      hide Compiled, Known, TextItem, RunItem;
      if p.Some? {
        names := names + [p.value];
      }
      assert names + [] == names;
      lastEnd := loc.to;
      i := i + 1;
    }
    assert locs[|locs|..] == [];
    pattern := pattern + TextItem(mask[lastEnd..]);
    assert names + [] == names;
  }

  /** What is still to be compiled, appended to what was, is the whole pattern. */
  ghost predicate Compiled(mask: string, locs: seq<Loc>, from: nat, pattern: seq<Item>, names: seq<Token>) {
    from <= |mask| && LocsFrom(mask, locs, from) &&
    pattern + Pattern(mask, locs, from) == MaskPattern(mask) && names + Names(mask, locs, from) == MaskNames(mask)
  }

  method CollectValues(names: seq<Token>, subs: seq<string>) returns (values: map<Token, string>)
    requires |names| == |subs|
    ensures values == Collect(names, subs)
  {
    values := map[];
    for k := 0 to |names|
      invariant values == Collect(names[..k], subs[..k])
    {
      assert names[..k + 1][..k] == names[..k] && subs[..k + 1][..k] == subs[..k];
      values := values[names[k] := subs[k]];
    }
    assert names[..|names|] == names && subs[..|names|] == subs;
  }

  lemma CompileStep(mask: string, locs: seq<Loc>, from: nat, pattern: seq<Item>, names: seq<Token>)
    requires Compiled(mask, locs, from, pattern, names) && locs != []
    ensures from <= locs[0].from <= locs[0].to <= |mask|
    ensures var text, run := mask[from..locs[0].from], mask[locs[0].from..locs[0].to];
      Compiled(mask, locs[1..], locs[0].to, pattern + TextItem(text) + [RunItem(run)],
               names + match Known(run) case Some(t) => [t] case None => [])
  {
    hide *;
    CompiledParts(mask, locs, from, pattern, names);
    PatternStep(mask, locs, from);
    var text, run := mask[from..locs[0].from], mask[locs[0].from..locs[0].to];
    var here := match Known(run) case Some(t) => [t] case None => [];
    var rest, more := Pattern(mask, locs[1..], locs[0].to), Names(mask, locs[1..], locs[0].to);
    Regrouped(pattern, TextItem(text), [RunItem(run)], rest);
    assert names + (here + more) == (names + here) + more;
    CompiledFrom(mask, locs[1..], locs[0].to, pattern + TextItem(text) + [RunItem(run)], names + here);
  }

  lemma Regrouped<T>(a: seq<T>, b: seq<T>, c: seq<T>, d: seq<T>)
    ensures a + (b + c + d) == (a + b + c) + d
  {
  }

  lemma PatternStep(mask: string, locs: seq<Loc>, from: nat)
    requires LocsFrom(mask, locs, from) && locs != []
    ensures from <= locs[0].from <= locs[0].to <= |mask| && LocsFrom(mask, locs[1..], locs[0].to)
    ensures var text, run := mask[from..locs[0].from], mask[locs[0].from..locs[0].to];
      && Pattern(mask, locs, from) == TextItem(text) + [RunItem(run)] + Pattern(mask, locs[1..], locs[0].to)
      && Names(mask, locs, from) == (match Known(run) case Some(t) => [t] case None => []) + Names(mask, locs[1..], locs[0].to)
  {
    hide TextItem, RunItem, Known;
  }

  lemma CompiledParts(mask: string, locs: seq<Loc>, from: nat, pattern: seq<Item>, names: seq<Token>)
    requires Compiled(mask, locs, from, pattern, names)
    ensures LocsFrom(mask, locs, from)
    ensures pattern + Pattern(mask, locs, from) == MaskPattern(mask) && names + Names(mask, locs, from) == MaskNames(mask)
  {
    hide Pattern, Names, MaskPattern, MaskNames;
  }

  lemma CompiledFrom(mask: string, locs: seq<Loc>, from: nat, pattern: seq<Item>, names: seq<Token>)
    requires from <= |mask| && LocsFrom(mask, locs, from)
    requires pattern + Pattern(mask, locs, from) == MaskPattern(mask) && names + Names(mask, locs, from) == MaskNames(mask)
    ensures Compiled(mask, locs, from, pattern, names)
  {
    hide Pattern, Names, MaskPattern, MaskNames;
  }

  // ---------------------------------------------------------------------
  // Re-expanding what was parsed
  // ---------------------------------------------------------------------

  function Get(v: map<Token, string>, t: Token): string {
    if t in v then v[t] else ""
  }

  /** The replacement table holding the parsed values; #TGID is preferred over #TG, as when a call is filled. */
  function FromValues(v: map<Token, string>): MaskTokens {
    MaskTokens(Get(v, DATE), Get(v, TIME), Get(v, ZTIME), Get(v, GROUP), Get(v, SYSLBL), Get(v, TAG), Get(v, TGAFS),
               Get(v, UNIT), Get(v, TGLBL), Get(v, TGHZ), Get(v, TGKHZ), Get(v, TGMHZ),
               if TGID in v then v[TGID] else Get(v, TG), Get(v, SYS), Get(v, HZ), Get(v, KHZ), Get(v, MHZ))
  }

  predicate SameField(a: Token, b: Token) {
    a == b || (a in {TG, TGID} && b in {TG, TGID})
  }

  /** No two tokens of the mask are filled from the same field. */
  predicate DistinctFields(names: seq<Token>) {
    forall i, j :: 0 <= i < j < |names| ==> !SameField(names[i], names[j])
  }

  ghost predicate Clean(mask: string) {
    CleanLocs(mask, FindRuns(mask, 0))
  }

  lemma FieldOfValues(t: Token, v: map<Token, string>)
    ensures Field(t, FromValues(v)) ==
            if t in {TG, TGID} then (if TGID in v then v[TGID] else Get(v, TG)) else Get(v, t)
  {
  }

  lemma SameFieldSameText(a: Token, b: Token, m: MaskTokens)
    requires SameField(a, b)
    ensures Field(a, m) == Field(b, m)
  {
  }

  lemma {:induction false} CollectKeys(names: seq<Token>, caps: seq<string>)
    requires |names| == |caps|
    ensures forall t :: t in Collect(names, caps) <==> t in names
    ensures forall t :: t in Collect(names, caps) ==> Collect(names, caps)[t] in caps
  {
    if names != [] {
      var n := |names| - 1;
      CollectKeys(names[..n], caps[..n]);
      assert names == names[..n] + [names[n]] && caps == caps[..n] + [caps[n]];
    }
  }

  lemma {:induction false} CollectGets(names: seq<Token>, caps: seq<string>, i: nat)
    requires |names| == |caps| && i < |names|
    requires forall j :: i < j < |names| ==> names[j] != names[i]
    ensures names[i] in Collect(names, caps) && Collect(names, caps)[names[i]] == caps[i]
  {
    var n := |names| - 1;
    if i < n {
      CollectGets(names[..n], caps[..n], i);
    }
  }

  /** With distinct fields every capture is put back where it came from. */
  lemma FieldsRecovered(names: seq<Token>, caps: seq<string>)
    requires |names| == |caps| && DistinctFields(names)
    ensures Fields(names, FromValues(Collect(names, caps))) == caps
  {
    var v := Collect(names, caps);
    forall i | 0 <= i < |names|
      ensures Field(names[i], FromValues(v)) == caps[i]
    {
      forall j | i < j < |names|
        ensures names[j] != names[i]
      {
        assert !SameField(names[i], names[j]);
      }
      CollectGets(names, caps, i);
      CollectKeys(names, caps);
      FieldOfValues(names[i], v);
      if names[i] == TG && TGID in names {
        var j :| 0 <= j < |names| && names[j] == TGID;
        assert SameField(names[i], names[j]) && SameField(names[j], names[i]);
        assert false;
      }
    }
  }

  lemma CleanExpansion(mask: string, m: MaskTokens)
    requires Clean(mask)
    ensures ExpandMask(mask, m) == Assemble(MaskPattern(mask), Fields(MaskNames(mask), m))
  {
    hide ExpandMask, ExpandRuns, Assemble, Pattern, Names, FindRuns, Fields, CleanLocs;
    ExpansionByRuns(mask, m);
    RunsAreLocs(mask, 0, 0);
    CleanExpandsToPattern(mask, FindRuns(mask, 0), 0, m);
  }

  lemma ExpansionByRuns(mask: string, m: MaskTokens)
    ensures LocsFrom(mask, FindRuns(mask, 0), 0)
    ensures ExpandMask(mask, m) == ExpandRuns(mask, FindRuns(mask, 0), 0, m)
  {
    ExpandByRuns(mask, 0, 0, m);
    assert mask[0..] == mask && mask[0..0] == "";
  }

  /** Re-expanding a parse reproduces the filename. */
  lemma ParseThenExpand(mask: string, filename: string)
    requires Clean(mask) && DistinctFields(MaskNames(mask)) && Parse(mask, filename).Some?
    ensures ExpandMask(mask, FromValues(Parse(mask, filename).value)) == filename
  {
    hide MaskPattern, MaskNames, ExpandMask;
    var items, names := MaskPattern(mask), MaskNames(mask);
    MatchIsFirst(items, filename);
    var caps := Match(items, filename).value;
    FieldsRecovered(names, caps);
    CleanExpansion(mask, FromValues(Collect(names, caps)));
  }

  // ---------------------------------------------------------------------
  // ... and exactly when it always does
  // ---------------------------------------------------------------------

  /** "1" for every capture except the i-th, which gets c. */
  function Probe(n: nat, i: nat, c: string): (r: seq<string>)
    ensures |r| == n && forall k :: 0 <= k < n ==> r[k] == if k == i then c else "1"
  {
    seq(n, k => if k == i then c else "1")
  }

  /** A digit fits every capture. */
  lemma {:induction false} DigitsAreValues(items: seq<Item>, caps: seq<string>)
    requires |caps| == Captures(items) && forall k :: 0 <= k < |caps| ==> caps[k] in {"1", "2"}
    ensures Values(items, caps)
  {
    if items != [] {
      DigitsAreValues(items[1..], if items[0].Cap? then caps[1..] else caps);
    }
  }

  /** A filename spelled with one digit per capture parses into exactly those digits. */
  lemma ProbeParses(mask: string, caps: seq<string>)
    requires FindRuns(mask, 0) != [] && |caps| == Captures(MaskPattern(mask))
    requires forall k :: 0 <= k < |caps| ==> caps[k] in {"1", "2"}
    ensures Parse(mask, Assemble(MaskPattern(mask), caps)) == Some(Collect(MaskNames(mask), caps))
  {
    hide MaskPattern, MaskNames;
    var items := MaskPattern(mask);
    DigitsAreValues(items, caps);
    MatchIsFirst(items, Assemble(items, caps));
    assert Fits(items, Assemble(items, caps), caps);
    SingleCharsFitOnce(items, caps, Match(items, Assemble(items, caps)).value);
  }

  lemma ShortFields(names: seq<Token>, caps: seq<string>)
    requires |names| == |caps| && forall k :: 0 <= k < |caps| ==> caps[k] in {"1", "2"}
    ensures var m := FromValues(Collect(names, caps));
      && (forall t :: |Field(t, m)| <= 1)
      && (forall k :: 0 <= k < |names| ==> Field(names[k], m) in {"1", "2"})
  {
    hide Field, FromValues, Collect;
    var v := Collect(names, caps);
    CollectKeys(names, caps);
    forall t
      ensures |Field(t, FromValues(v))| <= 1 && (t in names ==> Field(t, FromValues(v)) in {"1", "2"})
    {
      FieldOfValues(t, v);
    }
  }

  /** The filename that one digit per capture spells for this mask, and what re-expanding its parse gives. */
  function ProbeName(mask: string, i: nat, c: string): string {
    Assemble(MaskPattern(mask), Probe(Captures(MaskPattern(mask)), i, c))
  }

  lemma RunsOfUnclean(mask: string)
    requires !Clean(mask)
    ensures FindRuns(mask, 0) != []
  {
    hide FindRuns;
  }

  lemma UncleanMaskFails(mask: string)
    requires !Clean(mask)
    ensures var f := ProbeName(mask, 0, "1");
      Parse(mask, f).Some? && ExpandMask(mask, FromValues(Parse(mask, f).value)) != f
  {
    hide Parse, ExpandMask, Field, ExpandRuns, CleanRun, CleanLocs, Assemble, Pattern, Names, FromValues;
    RunsOfUnclean(mask);
    hide FindRuns;
    var items, names, locs := MaskPattern(mask), MaskNames(mask), FindRuns(mask, 0);
    var ones := Probe(|names|, 0, "1");
    ProbeParses(mask, ones);
    var m := FromValues(Collect(names, ones));
    ShortFields(names, ones);
    ExpansionByRuns(mask, m);
    ShortExpansion(mask, locs, 0, m, ones);
  }

  lemma SharedFieldFails(mask: string, i: nat, j: nat)
    requires Clean(mask) && i < j < |MaskNames(mask)| && SameField(MaskNames(mask)[i], MaskNames(mask)[j])
    ensures var f := ProbeName(mask, i, "2");
      Parse(mask, f).Some? && ExpandMask(mask, FromValues(Parse(mask, f).value)) != f
  {
    hide Parse, ExpandMask, MaskPattern, Clean, Field, FromValues;
    NoRunsNoNames(mask);
    hide MaskNames;
    var items, names := MaskPattern(mask), MaskNames(mask);
    var probe := Probe(|names|, i, "2");
    ProbeParses(mask, probe);
    var m := FromValues(Collect(names, probe));
    ShortFields(names, probe);
    CleanExpansion(mask, m);
    SharedFieldDiffers(items, names, probe, m, i, j);
  }

  lemma SharedFieldDiffers(items: seq<Item>, names: seq<Token>, probe: seq<string>, m: MaskTokens, i: nat, j: nat)
    requires |names| == |probe| == Captures(items) && i < j < |names|
    requires SameField(names[i], names[j]) && probe[i] != probe[j]
    requires forall k :: 0 <= k < |names| ==> probe[k] in {"1", "2"} && Field(names[k], m) in {"1", "2"}
    ensures Assemble(items, Fields(names, m)) != Assemble(items, probe)
  {
    hide Field;
    var fields := Fields(names, m);
    DigitsAreValues(items, fields);
    DigitsAreValues(items, probe);
    SameFieldSameText(names[i], names[j], m);
    assert fields[i] == fields[j];
    if Assemble(items, fields) == Assemble(items, probe) {
      SingleCharsFitOnce(items, probe, fields);
      assert false;
    }
  }

  lemma NoRunsNoNames(mask: string)
    ensures FindRuns(mask, 0) == [] ==> MaskNames(mask) == []
  {
  }

  /** Parsing and re-expanding reproduces every filename the mask accepts exactly when every run of the mask
      is clean and no two tokens share a field. */
  lemma ReexpandsExactly(mask: string)
    ensures (forall f :: Parse(mask, f).Some? ==> ExpandMask(mask, FromValues(Parse(mask, f).value)) == f) <==>
            Clean(mask) && DistinctFields(MaskNames(mask))
  {
    hide Parse, ExpandMask, MaskPattern, MaskNames, Clean, FromValues;
    if Clean(mask) && DistinctFields(MaskNames(mask)) {
      forall f | Parse(mask, f).Some?
        ensures ExpandMask(mask, FromValues(Parse(mask, f).value)) == f
      {
        ParseThenExpand(mask, f);
      }
    } else if !Clean(mask) {
      UncleanMaskFails(mask);
    } else {
      var i, j :| 0 <= i < j < |MaskNames(mask)| && SameField(MaskNames(mask)[i], MaskNames(mask)[j]);
      SharedFieldFails(mask, i, j);
    }
  }

  // ---------------------------------------------------------------------
  // Parsing an expansion
  // ---------------------------------------------------------------------

  /** Parsing the expansion gives exactly the mask's tokens, each with its value. */
  ghost predicate Recovers(mask: string, m: MaskTokens) {
    var r := Parse(mask, ExpandMask(mask, m));
    && r.Some?
    && (forall t :: t in r.value <==> t in MaskNames(mask))
    && (forall t :: t in r.value ==> r.value[t] == Field(t, m))
  }

  /** Parsing an expansion recovers the values when they fit their captures and the text between two captures
      tells where the first one ends. Text before the first token and after the last one is free, and `seps`
      may be any characters that occur in no value. */
  lemma ExpandThenParse(mask: string, m: MaskTokens, seps: set<char>)
    requires Clean(mask) && FindRuns(mask, 0) != []
    requires Values(MaskPattern(mask), Fields(MaskNames(mask), m))
    requires forall t :: t in MaskNames(mask) ==> Avoids(Field(t, m), seps)
    requires Delimited(MaskPattern(mask), Fields(MaskNames(mask), m), seps)
    ensures Recovers(mask, m)
  {
    CleanExpansion(mask, m);
    hide MaskPattern, MaskNames, ExpandMask, Field;
    var items, names := MaskPattern(mask), MaskNames(mask);
    var fields := Fields(names, m);
    MatchRecovers(items, fields, seps);
    CollectKeys(names, fields);
    CollectConsistent(names, m);
  }

  lemma {:induction false} CollectConsistent(names: seq<Token>, m: MaskTokens)
    ensures forall t :: t in Collect(names, Fields(names, m)) ==> Collect(names, Fields(names, m))[t] == Field(t, m)
  {
    hide Field;
    if names != [] {
      var n := |names| - 1;
      CollectConsistent(names[..n], m);
      assert Fields(names, m)[..n] == Fields(names[..n], m);
    }
  }

  /** A separator is necessary: where two tokens touch, and no two tokens share a field, some values that fit their
      captures are not recovered. */
  lemma TouchingTokensLose(mask: string, k: nat)
    requires Clean(mask) && DistinctFields(MaskNames(mask))
    requires k + 1 < |MaskPattern(mask)| && MaskPattern(mask)[k].Cap? && MaskPattern(mask)[k + 1].Cap?
    ensures exists m :: Values(MaskPattern(mask), Fields(MaskNames(mask), m)) && !Recovers(mask, m)
  {
    hide MaskPattern, MaskNames, ExpandMask, Field, Match, Values, Assemble;
    var items, names := MaskPattern(mask), MaskNames(mask);
    var values := TouchingCapturesLose(items, k);
    var m := FromValues(Collect(names, values));
    FieldsRecovered(names, values);
    CleanExpansion(mask, m);
    MatchIsFirst(items, Assemble(items, values));
    if Recovers(mask, m) {
      var caps := Match(items, Assemble(items, values)).value;
      ValuesFit(items, caps);
      OtherCapturesDiffer(names, caps, values, m);
      assert false;
    }
  }

  lemma ValuesFit(items: seq<Item>, caps: seq<string>)
    requires Values(items, caps)
    ensures |caps| == Captures(items)
  {
  }

  /** With distinct tokens, other captures are other values. */
  lemma OtherCapturesDiffer(names: seq<Token>, caps: seq<string>, values: seq<string>, m: MaskTokens)
    requires |names| == |caps| == |values| && DistinctFields(names) && caps != values && Fields(names, m) == values
    ensures exists t :: t in Collect(names, caps) && Collect(names, caps)[t] != Field(t, m)
  {
    var i :| 0 <= i < |caps| && caps[i] != values[i];
    CollectGets(names, caps, i);
    assert Field(names[i], m) == Fields(names, m)[i];
  }
}
