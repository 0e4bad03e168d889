/** The id filters of call search (backend/internal/handler/calls/search.go, backend/internal/db/calls.sql.go). */
module CsvFilter {
  import opened Prelude
  import opened Text

  // ---------------------------------------------------------------------
  // Reading a comma-separated parameter
  // ---------------------------------------------------------------------

  /** `unicode.IsSpace`. */
  predicate IsSpace(c: char) {
    '\t' <= c <= '\r' || c == ' ' || c == '\U{85}' || c == '\U{A0}' || c == '\U{1680}'
    || '\U{2000}' <= c <= '\U{200A}' || c == '\U{2028}' || c == '\U{2029}' || c == '\U{202F}'
    || c == '\U{205F}' || c == '\U{3000}'
  }

  /** `strings.TrimSpace`. */
  function TrimSpace(s: string): (t: string)
    ensures s == "" || (!IsSpace(s[0]) && !IsSpace(s[|s| - 1])) ==> t == s
    ensures t == "" <==> forall c :: c in s ==> IsSpace(c)
    ensures forall c :: c in t ==> c in s
  {
    if s == "" then ""
    else if IsSpace(s[0]) then
      assert s == [s[0]] + s[1..];
      TrimSpace(s[1..])
    else if IsSpace(s[|s| - 1]) then
      assert s == s[..|s| - 1] + [s[|s| - 1]];
      TrimSpace(s[..|s| - 1])
    else
      assert s[0] in s;
      s
  }

  /** The white space of Unicode. */
  lemma SpacesAre(c: char)
    ensures var spaces :=
      "\t\n\U{0B}\U{0C}\r \U{85}\U{A0}\U{1680}\U{2000}\U{2001}\U{2002}\U{2003}\U{2004}\U{2005}\U{2006}\U{2007}" +
      "\U{2008}\U{2009}\U{200A}\U{2028}\U{2029}\U{202F}\U{205F}\U{3000}";
      IsSpace(c) <==> c in spaces
  {
  }

  predicate AllSpaces(s: string) {
    forall k :: 0 <= k < |s| ==> IsSpace(s[k])
  }

  /** Trimming takes the white space before and after off, and no more. */
  lemma {:induction false} TrimSpaceIs(s: string) returns (a: string, b: string)
    ensures s == a + TrimSpace(s) + b && AllSpaces(a) && AllSpaces(b)
    ensures var t := TrimSpace(s); t != "" ==> !IsSpace(t[0]) && !IsSpace(t[|t| - 1])
    decreases |s|
  {
    hide IsSpace, AllSpaces, TrimSpace;
    NoSpace();
    a, b := "", "";
    if s != "" && IsSpace(s[0]) {
      a, b := TrimSpaceIs(s[1..]);
      TrimFront(s);
      Outer(s[0], a, TrimSpace(s), b);
      assert s == [s[0]] + s[1..];
      a := [s[0]] + a;
    } else if s != "" && IsSpace(s[|s| - 1]) {
      var n := |s| - 1;
      a, b := TrimSpaceIs(s[..n]);
      TrimBack(s);
      Outer(s[n], a, TrimSpace(s), b);
      assert s == s[..n] + [s[n]];
      b := b + [s[n]];
    }
  }

  lemma TrimFront(s: string)
    requires s != "" && IsSpace(s[0])
    ensures TrimSpace(s) == TrimSpace(s[1..])
  {
    hide IsSpace;
  }

  lemma TrimBack(s: string)
    requires s != "" && !IsSpace(s[0]) && IsSpace(s[|s| - 1])
    ensures TrimSpace(s) == TrimSpace(s[..|s| - 1])
  {
    hide IsSpace;
  }

  lemma NoSpace()
    ensures AllSpaces("")
  {
  }

  /** One more space in front or behind. */
  lemma Outer(c: char, a: string, t: string, b: string)
    requires IsSpace(c) && AllSpaces(a) && AllSpaces(b)
    ensures AllSpaces([c] + a) && [c] + (a + t + b) == ([c] + a) + t + b
    ensures AllSpaces(b + [c]) && (a + t + b) + [c] == a + t + (b + [c])
  {
    hide IsSpace;
  }

  datatype Field = Blank | Bad | Id(id: int64)

  /** What one field of the parameter contributes. */
  function Read(part: string): Field {
    var t := TrimSpace(part);
    if t == "" then Blank
    else match ParseInt(t)
      case None => Bad
      case Some(n) => Id(n)
  }

  /** The distinct ids of the fields in order of first appearance, or None when a field is not an int64. */
  function Collect(parts: seq<string>): Option<seq<int64>> {
    if parts == [] then Some([])
    else
      match Collect(parts[..|parts| - 1])
      case None => None
      case Some(vals) =>
        match Read(parts[|parts| - 1])
        case Blank => Some(vals)
        case Bad => None
        case Id(n) => Some(if n in vals then vals else vals + [n])
  }

  /** The parameter's ids, None for a malformed one. */
  function ParseCsv(raw: string): Option<seq<int64>> {
    Collect(Split(raw, ','))
  }

  predicate Distinct<T(==)>(s: seq<T>) {
    forall i, j :: 0 <= i < j < |s| ==> s[i] != s[j]
  }

  /** What Collect means: an error exactly when some field is malformed, else each field's id once. */
  lemma {:induction false} CollectMeaning(parts: seq<string>)
    ensures Collect(parts).None? <==> exists p :: p in parts && Read(p).Bad?
    ensures Collect(parts).Some? ==>
      var vals := Collect(parts).value;
      && Distinct(vals)
      && forall n :: n in vals <==> Id(n) in Fields(parts)
  {
    if parts != [] {
      var k := |parts| - 1;
      CollectMeaning(parts[..k]);
      assert parts == parts[..k] + [parts[k]];
      assert Fields(parts) == Fields(parts[..k]) + [Read(parts[k])];
    }
  }

  /** The ids stand in the order in which they first appear: more fields only add ids at the end. */
  lemma {:induction false} CollectInOrder(parts: seq<string>, k: nat)
    requires Collect(parts).Some? && k <= |parts|
    ensures Collect(parts[..k]).Some? && Collect(parts[..k]).value <= Collect(parts).value
    decreases |parts|
  {
    if k == |parts| {
      assert parts[..k] == parts;
    } else {
      var n := |parts| - 1;
      CollectInOrder(parts[..n], k);
      assert parts[..n][..k] == parts[..k];
    }
  }

  function Fields(parts: seq<string>): seq<Field> {
    seq(|parts|, i requires 0 <= i < |parts| => Read(parts[i]))
  }

  /** parseCSVInt64: an error is None, the nil slice is empty. */
  method ParseCsvInt64(raw: string) returns (r: Option<seq<int64>>)
    ensures r == ParseCsv(raw)
  {
    var parts := Split(raw, ',');
    if TrimSpace(raw) == "" {
      BlankHasNoFields(raw);
      return Some([]);
    }
    var vals: seq<int64> := [];
    var seen: set<int64> := {};
    var i := 0;
    while i < |parts|
      invariant 0 <= i <= |parts|
      invariant Collect(parts[..i]) == Some(vals)
      invariant forall n :: n in seen <==> n in vals
    {
      assert parts[..i + 1][..i] == parts[..i];
      var part := TrimSpace(parts[i]);
      i := i + 1;
      if part == "" {
        continue;
      }
      var n := ParseInt(part);
      if n.None? {
        CollectStaysNone(parts, i);
        return None;
      }
      if n.value in seen {
        continue;
      }
      seen := seen + {n.value};
      vals := vals + [n.value];
    }
    assert parts[..i] == parts;
    return Some(vals);
  }

  lemma BlankHasNoFields(raw: string)
    requires TrimSpace(raw) == ""
    ensures ParseCsv(raw) == Some([])
  {
    assert ',' !in raw;
    SplitJoin([raw], ',');
    assert [raw][..0] == [];
  }

  lemma {:induction false} CollectStaysNone(parts: seq<string>, i: nat)
    requires i <= |parts| && Collect(parts[..i]) == None
    ensures Collect(parts) == None
    decreases |parts|
  {
    if i < |parts| {
      assert parts[..|parts| - 1][..i] == parts[..i];
      CollectStaysNone(parts[..|parts| - 1], i);
    } else {
      assert parts[..i] == parts;
    }
  }

  // ---------------------------------------------------------------------
  // Writing the filter
  // ---------------------------------------------------------------------

  function Formatted(vals: seq<int64>): seq<string> {
    seq(|vals|, i requires 0 <= i < |vals| => FormatInt(vals[i]))
  }

  /** toCSVFilter's value: SQL NULL for an empty list. */
  function CsvOf(vals: seq<int64>): Option<string> {
    if vals == [] then None else Some(Join(Formatted(vals), ','))
  }

  method ToCsvFilter(vals: seq<int64>) returns (csv: Option<string>)
    ensures csv == CsvOf(vals)
  {
    if |vals| == 0 {
      return None;
    }
    var parts: seq<string> := [];
    for i := 0 to |vals|
      invariant parts == Formatted(vals[..i])
    {
      parts := parts + [FormatInt(vals[i])];
    }
    assert vals[..|vals|] == vals;
    return Some(Join(parts, ','));
  }

  /** The first occurrence of each value. */
  function Dedup(vals: seq<int64>): (r: seq<int64>)
    ensures Distinct(r)
    ensures forall n :: n in r <==> n in vals
  {
    if vals == [] then []
    else
      var k := |vals| - 1;
      var init := Dedup(vals[..k]);
      assert vals == vals[..k] + [vals[k]];
      if vals[k] in init then init else init + [vals[k]]
  }

  lemma {:induction false} DedupDistinct(vals: seq<int64>)
    requires Distinct(vals)
    ensures Dedup(vals) == vals
  {
    if vals != [] {
      var k := |vals| - 1;
      DedupDistinct(vals[..k]);
      assert vals == vals[..k] + [vals[k]];
    }
  }

  lemma {:induction false} DedupInOrder(vals: seq<int64>, k: nat)
    requires k <= |vals|
    ensures Dedup(vals[..k]) <= Dedup(vals)
    decreases |vals|
  {
    if k == |vals| {
      assert vals[..k] == vals;
    } else {
      var n := |vals| - 1;
      DedupInOrder(vals[..n], k);
      assert vals[..n][..k] == vals[..k];
    }
  }

  lemma FormattedIsPlain(n: int)
    ensures var s := FormatInt(n); s != "" && ',' !in s && forall c :: c in s ==> !IsSpace(c)
  {
  }

  lemma ReadFormatted(n: int64)
    ensures Read(FormatInt(n)) == Id(n)
  {
    FormattedIsPlain(n);
    ParseFormatInt(n);
  }

  lemma {:induction false} CollectFormatted(vals: seq<int64>)
    ensures Collect(Formatted(vals)) == Some(Dedup(vals))
  {
    if vals != [] {
      var k := |vals| - 1;
      CollectFormatted(vals[..k]);
      assert Formatted(vals)[..k] == Formatted(vals[..k]);
      ReadFormatted(vals[k]);
      hide Read;
    }
  }

  /** Reading a written filter gives the list back without its repetitions. */
  lemma ParseWrites(vals: seq<int64>)
    requires vals != []
    ensures ParseCsv(CsvOf(vals).value) == Some(Dedup(vals))
    ensures Distinct(vals) ==> ParseCsv(CsvOf(vals).value) == Some(vals)
  {
    forall i | 0 <= i < |vals| ensures ',' !in Formatted(vals)[i] {
      FormattedIsPlain(vals[i]);
    }
    SplitJoin(Formatted(vals), ',');
    CollectFormatted(vals);
    if Distinct(vals) {
      DedupDistinct(vals);
    }
  }

  // ---------------------------------------------------------------------
  // The SQL predicate
  // ---------------------------------------------------------------------

  /** SQL `instr`: the one-based position of the first occurrence, 0 when there is none. */
  function Instr(text: string, pat: string): (r: nat)
    ensures r > 0 ==> OccursAt(text, pat, r - 1)
    ensures forall i :: OccursAt(text, pat, i) ==> 0 < r <= i + 1
  {
    InstrFrom(text, pat, 0)
  }

  function InstrFrom(text: string, pat: string, i: nat): (r: nat)
    ensures r > 0 ==> OccursAt(text, pat, r - 1)
    ensures forall j :: j >= i && OccursAt(text, pat, j) ==> 0 < r <= j + 1
    decreases |text| - i
  {
    if OccursAt(text, pat, i) then i + 1
    else if i + |pat| >= |text| then 0
    else InstrFrom(text, pat, i + 1)
  }

  /** SQL truth values. */
  datatype Truth = True | False | Null

  function Or(a: Truth, b: Truth): Truth {
    if a.True? || b.True? then True
    else if a.Null? || b.Null? then Null
    else False
  }

  function And(a: Truth, b: Truth): Truth {
    if a.False? || b.False? then False
    else if a.Null? || b.Null? then Null
    else True
  }

  /** `?1 IS NULL OR instr(',' || ?1 || ',', ',' || id || ',') > 0`, where NULL operands make `instr` NULL. */
  function IdPredicate(csv: Option<string>, id: Option<int64>): Truth {
    var found :=
      if csv == None || id == None then Null
      else if Instr("," + csv.value + ",", "," + FormatInt(id.value) + ",") > 0 then True
      else False;
    Or(if csv == None then True else False, found)
  }

  /** The ids a search row is filtered on; every one but the system's may be NULL. */
  datatype Row = Row(system: int64, talkgroup: Option<int64>, group: Option<int64>, tag: Option<int64>)

  /** The id conditions of the WHERE clause: a row is kept when they are true, not NULL. */
  predicate Selected(row: Row, systems: Option<string>, talkgroups: Option<string>, groups: Option<string>,
                     tags: Option<string>)
  {
    And(IdPredicate(systems, Some(row.system)),
        And(IdPredicate(talkgroups, row.talkgroup),
            And(IdPredicate(groups, row.group), IdPredicate(tags, row.tag)))).True?
  }

  lemma SelectedIff(row: Row, systems: Option<string>, talkgroups: Option<string>, groups: Option<string>,
                    tags: Option<string>)
    ensures Selected(row, systems, talkgroups, groups, tags)
      <==> IdPredicate(systems, Some(row.system)).True? && IdPredicate(talkgroups, row.talkgroup).True?
           && IdPredicate(groups, row.group).True? && IdPredicate(tags, row.tag).True?
  {
    hide IdPredicate;
  }

  /** Each part between commas: ",p0,p1,...,pn,". */
  function Chain(parts: seq<string>): string {
    if parts == [] then "," else "," + parts[0] + Chain(parts[1..])
  }

  lemma {:induction false} ChainIsJoin(parts: seq<string>)
    requires parts != []
    ensures Chain(parts) == "," + Join(parts, ',') + ","
  {
    if |parts| == 1 {
      assert parts[1..] == [];
    } else {
      ChainIsJoin(parts[1..]);
    }
  }

  predicate CommaFree(parts: seq<string>) {
    forall i :: 0 <= i < |parts| ==> ',' !in parts[i]
  }

  lemma FirstWord(word: string, rest: string, p: string)
    requires ',' !in word && ',' !in p && |rest| > 0 && rest[0] == ','
    requires OccursAt("," + word + rest, "," + p + ",", 0)
    ensures p == word
  {
    var text, pat := "," + word + rest, "," + p + ",";
    forall k | 1 <= k <= |word| ensures text[k] != ',' {
      assert text[k] == word[k - 1];
    }
    forall k | 1 <= k <= |p| ensures text[k] != ',' {
      assert text[k] == text[0..|pat|][k] == pat[k] == p[k - 1];
    }
    assert text[1 + |p|] == text[0..|pat|][1 + |p|] == ',' && text[1 + |word|] == ',';
    assert p == pat[1..1 + |p|] == text[0..|pat|][1..1 + |p|] == text[1..1 + |word|] == word;
  }

  lemma SliceOfRest(a: string, b: string, i: nat, n: nat)
    requires i + n <= |b|
    ensures (a + b)[i + |a|..i + |a| + n] == b[i..i + n]
  {
  }

  /** The first comma-delimited word of a text is found at its start, and every other one in the rest. */
  lemma OccursStep(word: string, rest: string, p: string)
    requires ',' !in word && ',' !in p && |rest| > 0 && rest[0] == ','
    ensures Contains("," + word + rest, "," + p + ",") <==> p == word || Contains(rest, "," + p + ",")
  {
    var text, pat := "," + word + rest, "," + p + ",";
    if i :| OccursAt(text, pat, i) {
      FoundEarly(word, rest, p, i);
    }
    if p == word {
      assert text[0..|pat|] == pat;
      assert OccursAt(text, pat, 0);
    }
    if i :| OccursAt(rest, pat, i) {
      SliceOfRest("," + word, rest, i, |pat|);
      assert OccursAt(text, pat, i + 1 + |word|);
    }
  }

  lemma FoundEarly(word: string, rest: string, p: string, i: int)
    requires ',' !in word && ',' !in p && |rest| > 0 && rest[0] == ','
    requires OccursAt("," + word + rest, "," + p + ",", i)
    ensures p == word || Contains(rest, "," + p + ",")
  {
    var text, pat, skip := "," + word + rest, "," + p + ",", 1 + |word|;
    if i == 0 {
      FirstWord(word, rest, p);
    } else {
      assert text[i] == text[i..i + |pat|][0] == ',';
      assert forall k :: 1 <= k < skip ==> text[k] == word[k - 1];
      SliceOfRest("," + word, rest, i - skip, |pat|);
      assert OccursAt(rest, pat, i - skip);
    }
  }

  /** A comma-delimited word occurs exactly when it is one of the parts. */
  lemma {:induction false} OccursInChain(parts: seq<string>, p: string)
    requires CommaFree(parts) && ',' !in p
    ensures Contains(Chain(parts), "," + p + ",") <==> p in parts
  {
    if parts != [] {
      var rest := Chain(parts[1..]);
      assert Chain(parts) == "," + parts[0] + rest;
      assert parts == [parts[0]] + parts[1..];
      OccursInChain(parts[1..], p);
      OccursStep(parts[0], rest, p);
    }
  }

  /** The substring test is membership: no id matches inside another's digits or across a comma. */
  lemma SubstringIsMembership(vals: seq<int64>, id: int64)
    requires vals != []
    ensures Instr("," + CsvOf(vals).value + ",", "," + FormatInt(id) + ",") > 0 <==> id in vals
  {
    var parts, p := Formatted(vals), FormatInt(id);
    forall i | 0 <= i < |vals| ensures ',' !in parts[i] {
      FormattedIsPlain(vals[i]);
    }
    FormattedIsPlain(id);
    ChainIsJoin(parts);
    OccursInChain(parts, p);
    if id in vals {
      var i :| 0 <= i < |vals| && vals[i] == id;
      assert parts[i] == p;
    }
    if p in parts {
      var i :| 0 <= i < |parts| && parts[i] == p;
      ParseFormatInt(id);
      ParseFormatInt(vals[i]);
    }
  }

  /** No list keeps every row; a list keeps the rows whose id is present and listed. */
  predicate Wanted(vals: seq<int64>, id: Option<int64>) {
    vals == [] || (id.Some? && id.value in vals)
  }

  lemma FilterMeans(vals: seq<int64>, id: Option<int64>)
    ensures IdPredicate(CsvOf(vals), id).True? <==> Wanted(vals, id)
  {
    hide Instr, Join, FormatInt;
    if vals != [] && id.Some? {
      SubstringIsMembership(vals, id.value);
    }
  }

  /** The user listed no id at all, or this one. */
  predicate Listed(raw: string, id: Option<int64>) {
    var fields := Fields(Split(raw, ','));
    (forall f :: f in fields ==> !f.Id?) || (id.Some? && Id(id.value) in fields)
  }

  /** From the query parameter to the row: one filter answers true exactly for the listed ids. */
  lemma ParameterMeans(raw: string, id: Option<int64>)
    requires ParseCsv(raw).Some?
    ensures IdPredicate(CsvOf(ParseCsv(raw).value), id).True? <==> Listed(raw, id)
  {
    hide Collect, Split, Fields, IdPredicate, CsvOf;
    var vals, fields := ParseCsv(raw).value, Fields(Split(raw, ','));
    CollectMeaning(Split(raw, ','));
    FilterMeans(vals, id);
    forall f | f in fields ensures f.Id? ==> f.id in vals {
      assert f.Id? ==> f == Id(f.id);
    }
    if vals != [] {
      assert Id(vals[0]) in fields;
    }
  }

  // ---------------------------------------------------------------------
  // The handler
  // ---------------------------------------------------------------------

  /** The distinct non-blank fields of a label parameter. */
  function Words(parts: seq<string>): seq<string> {
    if parts == [] then []
    else
      var k := |parts| - 1;
      var words, word := Words(parts[..k]), TrimSpace(parts[k]);
      if word == "" || word in words then words else words + [word]
  }

  lemma {:induction false} WordsMeaning(parts: seq<string>, w: string)
    ensures w in Words(parts) <==> w != "" && exists i :: 0 <= i < |parts| && TrimSpace(parts[i]) == w
  {
    hide TrimSpace;
    if parts != [] {
      var k := |parts| - 1;
      WordsMeaning(parts[..k], w);
      WordsStep(parts, w);
      hide Words;
      if i :| 0 <= i < |parts| && TrimSpace(parts[i]) == w {
        assert i < k ==> parts[..k][i] == parts[i];
      }
      if i :| 0 <= i < k && TrimSpace(parts[..k][i]) == w {
        assert parts[i] == parts[..k][i];
      }
    }
  }

  lemma WordsStep(parts: seq<string>, w: string)
    requires parts != []
    ensures w in Words(parts) <==>
            w in Words(parts[..|parts| - 1]) || (w != "" && TrimSpace(parts[|parts| - 1]) == w)
  {
    hide TrimSpace;
  }

  /** parseCSVStrings */
  method ParseCsvStrings(raw: string) returns (vals: seq<string>)
    ensures vals == Words(Split(raw, ','))
  {
    var parts := Split(raw, ',');
    if TrimSpace(raw) == "" {
      assert ',' !in raw;
      SplitJoin([raw], ',');
      assert [raw][..0] == [];
      return [];
    }
    vals := [];
    var seen: set<string> := {};
    var i := 0;
    while i < |parts|
      invariant 0 <= i <= |parts|
      invariant vals == Words(parts[..i])
      invariant forall w :: w in seen <==> w in vals
    {
      assert parts[..i + 1][..i] == parts[..i];
      var v := TrimSpace(parts[i]);
      i := i + 1;
      if v == "" || v in seen {
        continue;
      }
      seen := seen + {v};
      vals := vals + [v];
    }
    assert parts[..i] == parts;
  }

  /** The rows of the labels that exist; the others are dropped. */
  function Resolve(labels: seq<string>, rows: map<string, int64>): seq<int64> {
    if labels == [] then []
    else
      var k := |labels| - 1;
      var ids := Resolve(labels[..k], rows);
      if labels[k] in rows then ids + [rows[labels[k]]] else ids
  }

  lemma {:induction false} ResolveMeaning(labels: seq<string>, rows: map<string, int64>, id: int64)
    ensures id in Resolve(labels, rows) <==> exists l :: l in labels && l in rows && rows[l] == id
  {
    if labels != [] {
      var k := |labels| - 1;
      assert labels == labels[..k] + [labels[k]];
      ResolveMeaning(labels[..k], rows, id);
    }
  }

  method ResolveLabels(labels: seq<string>, rows: map<string, int64>) returns (ids: seq<int64>)
    ensures ids == Resolve(labels, rows)
  {
    ids := [];
    for i := 0 to |labels|
      invariant ids == Resolve(labels[..i], rows)
    {
      assert labels[..i + 1][..i] == labels[..i];
      if labels[i] in rows {
        ids := ids + [rows[labels[i]]];
      }
    }
    assert labels[..|labels|] == labels;
  }

  /** The query parameters, empty when absent: the multi-select one and the single-select it falls back to. */
  datatype Params = Params(systemIds: string, systemId: string, talkgroupIds: string, talkgroupId: string,
                           groups: string, group: string, tags: string, tag: string)

  function Choose(multi: string, single: string): string {
    if multi == "" then single else multi
  }

  /** A rejected parameter, an immediate empty page, or the four id filters of the query. */
  datatype Answer =
    | BadRequest(param: string)
    | NoCalls
    | Query(systems: Option<string>, talkgroups: Option<string>, groups: Option<string>, tags: Option<string>)

  predicate Admits(a: Answer, row: Row) {
    a.Query? && Selected(row, a.systems, a.talkgroups, a.groups, a.tags)
  }

  /** Some non-blank field of the parameter is not an int64. */
  predicate Malformed(raw: string) {
    Bad in Fields(Split(raw, ','))
  }

  /** Some field of the parameter, trimmed, is the label l; blank fields name nothing. */
  ghost predicate Names(raw: string, l: string) {
    var parts := Split(raw, ',');
    l != "" && exists i :: 0 <= i < |parts| && TrimSpace(parts[i]) == l
  }

  /** The user named no label, or the label of the row's group or tag. */
  ghost predicate Named(raw: string, rows: map<string, int64>, id: Option<int64>) {
    || (forall l :: !Names(raw, l))
    || (id.Some? && exists l :: l in rows && Names(raw, l) && rows[l] == id.value)
  }

  lemma MalformedIsRejected(raw: string)
    ensures ParseCsv(raw).None? <==> Malformed(raw)
  {
    var parts := Split(raw, ',');
    CollectMeaning(parts);
    if i :| 0 <= i < |parts| && Fields(parts)[i] == Bad {
      assert Read(parts[i]).Bad?;
    }
    if p :| p in parts && Read(p).Bad? {
      var i :| 0 <= i < |parts| && parts[i] == p;
      assert Fields(parts)[i] == Bad;
    }
  }

  /** Labels that all fail to resolve must not turn into a missing filter: the handler answers first. */
  lemma LabelsMean(raw: string, rows: map<string, int64>, id: Option<int64>)
    ensures var labels := Words(Split(raw, ','));
      var ids := Resolve(labels, rows);
      Named(raw, rows, id) <==> !(labels != [] && ids == []) && IdPredicate(CsvOf(ids), id).True?
  {
    hide IdPredicate, CsvOf, Words, Split, TrimSpace;
    var labels := Words(Split(raw, ','));
    var ids := Resolve(labels, rows);
    FilterMeans(ids, id);
    forall l
      ensures l in labels <==> Names(raw, l)
    {
      WordsMeaning(Split(raw, ','), l);
    }
    hide Names;
    if labels != [] {
      assert labels[0] in labels;
    }
    if id.Some? {
      ResolveMeaning(labels, rows, id.value);
    }
  }

  /**
   * GetCalls up to the query: a malformed id list is refused, and otherwise the rows admitted are
   * exactly those whose system and talkgroup were listed and whose group and tag were named.
   */
  method GetCalls(p: Params, groupRows: map<string, int64>, tagRows: map<string, int64>) returns (a: Answer)
    ensures
      var systems := if p.systemIds == "" then p.systemId else p.systemIds;
      var talkgroups := if p.talkgroupIds == "" then p.talkgroupId else p.talkgroupIds;
      var groups := if p.groups == "" then p.group else p.groups;
      var tags := if p.tags == "" then p.tag else p.tags;
      && (Malformed(systems) <==> a == BadRequest("system_ids"))
      && (!Malformed(systems) && Malformed(talkgroups) <==> a == BadRequest("talkgroup_ids"))
      && (a.BadRequest? ==> a.param == "system_ids" || a.param == "talkgroup_ids")
      && (!a.BadRequest? ==> forall row :: Admits(a, row) <==>
            && Listed(systems, Some(row.system)) && Listed(talkgroups, row.talkgroup)
            && Named(groups, groupRows, row.group) && Named(tags, tagRows, row.tag))
  {
    hide Selected, IdPredicate, Listed, Named, ParseCsv, Malformed, CsvOf, Words, Split, Resolve;
    var rawSystems := Choose(p.systemIds, p.systemId);
    var rawTalkgroups := Choose(p.talkgroupIds, p.talkgroupId);
    MalformedIsRejected(rawSystems);
    MalformedIsRejected(rawTalkgroups);
    var systems := ParseCsvInt64(rawSystems);
    if systems.None? {
      return BadRequest("system_ids");
    }
    var talkgroups := ParseCsvInt64(rawTalkgroups);
    if talkgroups.None? {
      return BadRequest("talkgroup_ids");
    }
    var rawGroups, rawTags := Choose(p.groups, p.group), Choose(p.tags, p.tag);
    var groupLabels := ParseCsvStrings(rawGroups);
    var tagLabels := ParseCsvStrings(rawTags);
    var groupIds := ResolveLabels(groupLabels, groupRows);
    if groupLabels != [] && groupIds == [] {
      forall row: Row ensures !Named(rawGroups, groupRows, row.group) {
        LabelsMean(rawGroups, groupRows, row.group);
      }
      return NoCalls;
    }
    var tagIds := ResolveLabels(tagLabels, tagRows);
    if tagLabels != [] && tagIds == [] {
      forall row: Row ensures !Named(rawTags, tagRows, row.tag) {
        LabelsMean(rawTags, tagRows, row.tag);
      }
      return NoCalls;
    }
    var systemCsv := ToCsvFilter(systems.value);
    var talkgroupCsv := ToCsvFilter(talkgroups.value);
    var groupCsv := ToCsvFilter(groupIds);
    var tagCsv := ToCsvFilter(tagIds);
    a := Query(systemCsv, talkgroupCsv, groupCsv, tagCsv);
    forall row: Row
      ensures Admits(a, row) <==> Listed(rawSystems, Some(row.system)) && Listed(rawTalkgroups, row.talkgroup)
                                  && Named(rawGroups, groupRows, row.group) && Named(rawTags, tagRows, row.tag)
    {
      SelectedIff(row, a.systems, a.talkgroups, a.groups, a.tags);
      ParameterMeans(rawSystems, Some(row.system));
      ParameterMeans(rawTalkgroups, row.talkgroup);
      LabelsMean(rawGroups, groupRows, row.group);
      LabelsMean(rawTags, tagRows, row.tag);
    }
  }
}
