/** The regular expressions of the log extractor that the model matches, and
    `re.findall` over them: the five accounting field patterns, the version
    pair pattern of the library section, and the warning and error patterns
    (`junilog/junilog.py` lines 49-53, 87, 100 and 113). The eight usage
    patterns of lines 54-61 are not among them.

    Each of these patterns is made of literals, single characters and greedy
    runs of one character class, where the item after a run can never start
    with a character of that run's class (`\s+:`, `\s+\(`, `(\d+)\)`).
    Backtracking into such a run can never help, so each of them is decided
    by one deterministic left-to-right pass, which is what the matchers below
    do. The one exception is the name run of `(\S+):\s`, which may give back
    its last character, the ':'. A match only ever looks at the text from its
    start position onwards (none of these patterns has a lookbehind or an
    anchor), so each matcher is written for the text that starts where the
    match starts. */
module Patterns {
  import opened Wrappers
  import opened Text
  import opened Scanner

  /** The character classes `\d`, `[\d.]`, `\s` and `\S`. */
  datatype CharClass = Digit | DigitOrDot | Space | NonSpace

  predicate InClass(c: char, cls: CharClass) {
    match cls
    case Digit => IsDigit(c)
    case DigitOrDot => IsDigit(c) || c == '.'
    case Space => IsSpace(c)
    case NonSpace => !IsSpace(c)
  }

  /** Every character of `s` belongs to `cls`. */
  predicate AllIn(s: string, cls: CharClass) {
    forall k | 0 <= k < |s| :: InClass(s[k], cls)
  }

  /** The end of the longest run of `cls` characters starting at `p`. */
  function RunEnd(s: string, p: nat, cls: CharClass): (e: nat)
    requires p <= |s|
    ensures p <= e <= |s|
    ensures forall k | p <= k < e :: InClass(s[k], cls)
    ensures e < |s| ==> !InClass(s[e], cls)
    decreases |s| - p
  {
    if p == |s| || !InClass(s[p], cls) then p else RunEnd(s, p + 1, cls)
  }

  /** A run is determined by where its class stops holding. */
  lemma RunEndIs(s: string, p: nat, e: nat, cls: CharClass)
    requires p <= e <= |s|
    requires forall k | p <= k < e :: InClass(s[k], cls)
    requires e == |s| || !InClass(s[e], cls)
    ensures RunEnd(s, p, cls) == e
  {
  }

  /* ---------------------------------------------------------------------- */
  /* Patterns                                                               */
  /* ---------------------------------------------------------------------- */

  /** The uncaptured items in front of a resource-log value: a literal, one
      character other than a line break (`.`), or a run of whitespace (`\s+`). */
  datatype Atom = Lit(text: string) | AnyButNewline | Spaces

  /** A resource-log pattern `<lead>(<value class>+)<close>` with one group. */
  datatype FieldPattern = FieldPattern(lead: seq<Atom>, value: CharClass, close: string)

  /** The two severities the status log is searched for. */
  datatype Level = Warning | Error

  /** `Field`: one resource-log pattern; `LibPair`: `(\S+):\s(\S+)`;
      `Diagnostic`: a timestamped `- JUNIFER - <LEVEL> -` line, capturing the
      message for warnings and having no group (so the whole match) for errors. */
  datatype Pattern = Field(field: FieldPattern) | LibPair | Diagnostic(level: Level)

  /** What one `findall` item holds: a tuple of two for the version pairs, a
      single string otherwise. */
  function GroupCount(pat: Pattern): (n: nat) {
    if pat.LibPair? then 2 else 1
  }

  /** The end of the uncaptured lead of a resource-log pattern matched at `p`. */
  function LeadEnd(atoms: seq<Atom>, u: string, p: nat): (r: Option<nat>)
    requires p <= |u|
    ensures r.Some? ==> p <= r.value <= |u|
    decreases |atoms|
  {
    if |atoms| == 0 then Some(p)
    else
      match atoms[0]
      case Lit(t) =>
        if StartsAt(u, p, t) then LeadEnd(atoms[1..], u, p + |t|) else None
      case AnyButNewline =>
        if p < |u| && u[p] != '\n' then LeadEnd(atoms[1..], u, p + 1) else None
      case Spaces =>
        var e := RunEnd(u, p, Space);
        if p < e then LeadEnd(atoms[1..], u, e) else None
  }

  /** A literal at the front of the lead is passed over when it occurs. */
  lemma LeadEndLit(atoms: seq<Atom>, u: string, p: nat, t: string)
    requires p <= |u| && |atoms| > 0 && atoms[0] == Lit(t) && StartsAt(u, p, t)
    ensures LeadEnd(atoms, u, p) == LeadEnd(atoms[1..], u, p + |t|)
  {
  }

  /** A run of whitespace at the front of the lead is passed over whole. */
  lemma LeadEndSpaces(atoms: seq<Atom>, u: string, p: nat, e: nat)
    requires p < e <= |u| && |atoms| > 0 && atoms[0] == Spaces
    requires forall k | p <= k < e :: IsSpace(u[k])
    requires e == |u| || !IsSpace(u[e])
    ensures LeadEnd(atoms, u, p) == LeadEnd(atoms[1..], u, e)
  {
    RunEndIs(u, p, e, Space);
  }

  /** A lead `<t1>\s+<t2>\s+` spans the two literals and both runs of
      whitespace when the text is laid out that way. */
  lemma LeadOfFigure(t1: string, t2: string, u: string, a: nat, b: nat)
    requires |t1| < a && a + |t2| < b <= |u|
    requires StartsAt(u, 0, t1) && StartsAt(u, a, t2) && !IsSpace(u[a])
    requires forall k | |t1| <= k < a :: IsSpace(u[k])
    requires forall k | a + |t2| <= k < b :: IsSpace(u[k])
    requires b == |u| || !IsSpace(u[b])
    ensures LeadEnd([Lit(t1), Spaces, Lit(t2), Spaces], u, 0) == Some(b)
  {
    var lead: seq<Atom> := [Lit(t1), Spaces, Lit(t2), Spaces];
    var rest1 := lead[1..];
    var rest2 := rest1[1..];
    var rest3 := rest2[1..];
    LeadEndLit(lead, u, 0, t1);
    LeadEndSpaces(rest1, u, |t1|, a);
    LeadEndLit(rest2, u, a, t2);
    LeadEndSpaces(rest3, u, a + |t2|, b);
    assert rest3[1..] == [];
  }

  /** A resource-log pattern matched at the start of `u`: the group is the
      whole run of the value class after the lead. */
  function FieldPrefix(fp: FieldPattern, u: string): (r: Option<Match>)
    ensures r.Some? ==> r.value.start == 0 < r.value.end <= |u| && |r.value.groups| == 1
  {
    match LeadEnd(fp.lead, u, 0)
    case None => None
    case Some(q) =>
      var v := RunEnd(u, q, fp.value);
      if q < v && StartsAt(u, v, fp.close) then Some(Match(0, v + |fp.close|, [u[q..v]]))
      else None
  }

  /** A resource-log value is a non-empty run of the pattern's value class. */
  lemma FieldPrefixShape(fp: FieldPattern, u: string)
    ensures var r := FieldPrefix(fp, u);
      r.Some? ==> |r.value.groups[0]| > 0 && AllIn(r.value.groups[0], fp.value)
  {
    match LeadEnd(fp.lead, u, 0)
    case None =>
    case Some(q) =>
      var v := RunEnd(u, q, fp.value);
      assert forall k | 0 <= k < v - q :: u[q..v][k] == u[q + k];
  }

  /** Conversely, the lead, a non-empty run `v` of the value class, and the
      closing text, followed by the end of the text or a character outside
      the class, are matched with `v` as the value. */
  lemma FieldPrefixOf(fp: FieldPattern, u: string, q: nat, v: string, rest: string, end: nat)
    requires LeadEnd(fp.lead, u, 0) == Some(q)
    requires u[q..] == v + fp.close + rest
    requires |v| > 0 && AllIn(v, fp.value)
    requires |fp.close + rest| == 0 || !InClass((fp.close + rest)[0], fp.value)
    requires end == q + |v| + |fp.close|
    ensures FieldPrefix(fp, u) == Some(Match(0, end, [v]))
  {
    var e := q + |v|;
    SuffixParts(u, q, v, fp.close + rest);
    SuffixParts(u, e, fp.close, rest);
    ClassRunAt(u, q, v, fp.value);
    if e < |u| {
      assert u[e] == u[e..][0];
    }
    RunEndIs(u, q, e, fp.value);
    FieldPrefixAt(fp, u, q, e);
  }

  /** For a pattern without closing text: the lead, then a non-empty run
      `v` of the value class that is not run on, is matched with `v` as the
      value. */
  lemma FigurePrefixOf(fp: FieldPattern, u: string, q: nat, v: string, rest: string)
    requires fp.close == ""
    requires LeadEnd(fp.lead, u, 0) == Some(q)
    requires u[q..] == v + rest
    requires |v| > 0 && AllIn(v, fp.value)
    requires |rest| == 0 || !InClass(rest[0], fp.value)
    ensures FieldPrefix(fp, u) == Some(Match(0, q + |v|, [v]))
  {
    assert fp.close + rest == rest;
    FieldPrefixOf(fp, u, q, v, rest, q + |v|);
  }

  /** A piece of the text made of class characters is a run of the class. */
  lemma ClassRunAt(u: string, q: nat, v: string, cls: CharClass)
    requires q + |v| <= |u| && u[q..q + |v|] == v && AllIn(v, cls)
    ensures forall k | q <= k < q + |v| :: InClass(u[k], cls)
  {
    forall k | q <= k < q + |v| ensures InClass(u[k], cls) {
      assert u[k] == v[k - q];
    }
  }

  /** The field pattern's match once its lead and value run are known. */
  lemma FieldPrefixAt(fp: FieldPattern, u: string, q: nat, e: nat)
    requires LeadEnd(fp.lead, u, 0) == Some(q) && q <= |u|
    requires RunEnd(u, q, fp.value) == e && q < e && StartsAt(u, e, fp.close)
    ensures FieldPrefix(fp, u) == Some(Match(0, e + |fp.close|, [u[q..e]]))
  {
  }

  /** `(\S+):\s(\S+)` at the start of `u`. The greedy name run can only give
      back its last character, so the whole non-space run must end in ':'
      and be followed by one whitespace character and a non-space one. */
  function LibPairPrefix(u: string): (r: Option<Match>)
    ensures r.Some? ==> r.value.start == 0 < r.value.end <= |u| && |r.value.groups| == 2
  {
    var e := RunEnd(u, 0, NonSpace);
    if 2 <= e && u[e - 1] == ':' && e + 1 < |u| && IsSpace(u[e]) && !IsSpace(u[e + 1]) then
      var v := RunEnd(u, e + 1, NonSpace);
      Some(Match(0, v, [u[..e - 1], u[e + 1..v]]))
    else None
  }

  /** A version pair is a non-empty whitespace-free name, ':', one whitespace
      character and a non-empty whitespace-free version, and nothing else. */
  lemma LibPairPrefixShape(u: string)
    ensures var r := LibPairPrefix(u);
      r.Some? ==>
        var name := r.value.groups[0];
        var version := r.value.groups[1];
        && |name| > 0 && |version| > 0 && NoSpace(name) && NoSpace(version)
        && r.value.end == |name| + 2 + |version|
        && u[..|name|] == name && u[|name|] == ':' && IsSpace(u[|name| + 1])
        && u[|name| + 2..r.value.end] == version
  {
    var e := RunEnd(u, 0, NonSpace);
    if 2 <= e && u[e - 1] == ':' && e + 1 < |u| && IsSpace(u[e]) && !IsSpace(u[e + 1]) {
      var v := RunEnd(u, e + 1, NonSpace);
      var name := u[..e - 1];
      var version := u[e + 1..v];
      assert forall k | 0 <= k < |name| :: name[k] == u[k];
      assert forall k | 0 <= k < |version| :: version[k] == u[e + 1 + k];
    }
  }

  /** Conversely, `name:<ws>version` followed by whitespace or the end of the
      text is matched as exactly that pair. */
  lemma LibPairPrefixOf(name: string, ws: char, version: string, rest: string)
    requires |name| > 0 && NoSpace(name) && |version| > 0 && NoSpace(version)
    requires IsSpace(ws)
    requires |rest| == 0 || IsSpace(rest[0])
    ensures LibPairPrefix(name + [':', ws] + version + rest)
      == Some(Match(0, |name| + 2 + |version|, [name, version]))
  {
    var u := name + [':', ws] + version + rest;
    var e := |name| + 1;
    var v := e + 1 + |version|;
    assert forall k | 0 <= k < |name| :: u[k] == name[k];
    assert forall k | e + 1 <= k < v :: u[k] == version[k - e - 1];
    RunEndIs(u, 0, e, NonSpace);
    RunEndIs(u, e + 1, v, NonSpace);
    assert u[..e - 1] == name;
    assert u[e + 1..v] == version;
  }

  /** `\d{4}-\d{2}-\d{2} \d{2}:\d{2}:\d{2},\d{3}`, with 'd' for a digit. */
  const TimestampTemplate: string := "dddd-dd-dd dd:dd:dd,ddd"

  /** The text between the timestamp and the message. */
  function Tag(level: Level): (tag: string) {
    match level
    case Warning => " - JUNIFER - WARNING - "
    case Error => " - JUNIFER - ERROR - "
  }

  /** `<timestamp> - JUNIFER - <LEVEL> - .+` at the start of `u`; `.+` runs
      to the end of the line and must not be empty. */
  function DiagnosticPrefix(level: Level, u: string): (r: Option<Match>)
    ensures r.Some? ==> r.value.start == 0 < r.value.end <= |u| && |r.value.groups| == 1
  {
    var stamp := |TimestampTemplate|;
    if stamp <= |u| && FitsTemplate(u[..stamp], TimestampTemplate) && StartsAt(u, stamp, Tag(level)) then
      var body := stamp + |Tag(level)|;
      var e := LineEnd(u, body);
      if body < e then Some(Match(0, e, [if level == Warning then u[body..e] else u[..e]]))
      else None
    else None
  }

  /** A diagnostic line is a timestamp, the level tag and a non-empty message
      running to the end of the line; the warning group is the message, the
      error item the whole line. */
  lemma DiagnosticPrefixShape(level: Level, u: string)
    ensures var r := DiagnosticPrefix(level, u);
      r.Some? ==>
        var body := |TimestampTemplate| + |Tag(level)|;
        && body < r.value.end
        && FitsTemplate(u[..|TimestampTemplate|], TimestampTemplate)
        && StartsAt(u, |TimestampTemplate|, Tag(level))
        && (forall k | 0 <= k < r.value.end :: u[k] != '\n')
        && (r.value.end == |u| || u[r.value.end] == '\n')
        && r.value.groups[0] == (if level == Warning then u[body..r.value.end] else u[..r.value.end])
  {
    if DiagnosticPrefix(level, u).Some? {
      DiagnosticHeadHasNoNewline(level, u);
    }
  }

  /** The timestamp and the level tag hold no line break. */
  lemma DiagnosticHeadHasNoNewline(level: Level, u: string)
    requires |TimestampTemplate| <= |u| && FitsTemplate(u[..|TimestampTemplate|], TimestampTemplate)
    requires StartsAt(u, |TimestampTemplate|, Tag(level))
    ensures forall k | 0 <= k < |TimestampTemplate| + |Tag(level)| :: u[k] != '\n'
  {
    var stamp := |TimestampTemplate|;
    var tag := Tag(level);
    assert forall k | 0 <= k < stamp :: TimestampTemplate[k] != '\n';
    assert forall k | 0 <= k < |tag| :: tag[k] != '\n';
    forall k | 0 <= k < stamp + |tag| ensures u[k] != '\n' {
      if k < stamp {
        assert u[..stamp][k] == u[k];
      } else {
        assert u[stamp..stamp + |tag|][k - stamp] == u[k];
      }
    }
  }

  /** The pattern matched at the start of `u`. */
  function MatchPrefix(pat: Pattern, u: string): (r: Option<Match>)
    ensures r.Some? ==> r.value.start == 0 < r.value.end <= |u|
    ensures r.Some? ==> |r.value.groups| == GroupCount(pat)
  {
    match pat
    case Field(fp) => FieldPrefix(fp, u)
    case LibPair => LibPairPrefix(u)
    case Diagnostic(level) => DiagnosticPrefix(level, u)
  }

  /* ---------------------------------------------------------------------- */
  /* findall for the tool's patterns                                        */
  /* ---------------------------------------------------------------------- */

  /** `pattern.match(s, p)`, with the span in `s`'s coordinates. */
  function MatchAt(pat: Pattern, s: string, p: nat): (r: Option<Match>)
    requires p <= |s|
    ensures r.Some? ==> r.value.start == p < r.value.end <= |s|
    ensures r.Some? ==> |r.value.groups| == GroupCount(pat)
  {
    At(MatchPrefix, pat, s, p)
  }

  /** The search for `pat` in `s` from position `from` on. */
  function FindAllFrom(pat: Pattern, s: string, from: nat): (ms: seq<Match>)
    requires from <= |s|
    ensures Bounded(ms, from, |s|, GroupCount(pat))
  {
    SearchBounded(MatchPrefix, pat, GroupCount(pat), s, from);
    Search(MatchPrefix, pat, GroupCount(pat), s, from)
  }

  /** `re.findall(pat, s)` with the spans kept. */
  function FindAll(pat: Pattern, s: string): (ms: seq<Match>)
    ensures Bounded(ms, 0, |s|, GroupCount(pat))
  {
    FindAllFrom(pat, s, 0)
  }

  /** Every reported hit is the pattern's match at the hit's start. */
  lemma FindAllSound(pat: Pattern, s: string)
    ensures forall i | 0 <= i < |FindAll(pat, s)| ::
      MatchAt(pat, s, FindAll(pat, s)[i].start) == Some(FindAll(pat, s)[i])
  {
    SearchSound(MatchPrefix, pat, GroupCount(pat), s, 0);
  }

  /** The matches `findall` reports come in text order and do not overlap. */
  lemma FindAllOrdered(pat: Pattern, s: string)
    ensures Ordered(FindAll(pat, s))
  {
    SearchOrdered(MatchPrefix, pat, GroupCount(pat), s, 0);
  }

  /** `findall` misses no match: every position where the pattern matches
      lies inside a reported span. */
  lemma FindAllComplete(pat: Pattern, s: string, p: nat)
    requires p < |s| && MatchAt(pat, s, p).Some?
    ensures Covered(FindAll(pat, s), p)
  {
    SearchComplete(MatchPrefix, pat, GroupCount(pat), s, 0, p);
  }

  /** `findall` finds nothing when the pattern matches nowhere. */
  lemma FindAllNone(pat: Pattern, s: string)
    requires forall p | 0 <= p < |s| :: MatchAt(pat, s, p).None?
    ensures FindAll(pat, s) == []
  {
    forall p | 0 <= p < |s| ensures At(MatchPrefix, pat, s, p).None? {
      assert MatchAt(pat, s, p).None?;
    }
    SearchNone(MatchPrefix, pat, GroupCount(pat), s, 0);
  }

  /** `findall` finds nothing exactly when the pattern matches nowhere. */
  lemma FindAllEmpty(pat: Pattern, s: string)
    ensures FindAll(pat, s) == [] <==> forall p | 0 <= p < |s| :: MatchAt(pat, s, p).None?
  {
    if forall p | 0 <= p < |s| :: MatchAt(pat, s, p).None? {
      FindAllNone(pat, s);
    } else {
      var p :| 0 <= p < |s| && MatchAt(pat, s, p).Some?;
      FindAllComplete(pat, s, p);
    }
  }

  /** The items found from `p` on in `s` are those found from `q` on in `t`
      when the two texts agree from there on. */
  lemma FindAllFromLocal(pat: Pattern, s: string, p: nat, t: string, q: nat)
    requires p <= |s| && q <= |t| && s[p..] == t[q..]
    ensures SameGroups(FindAllFrom(pat, s, p), FindAllFrom(pat, t, q))
  {
    SearchLocal(MatchPrefix, pat, GroupCount(pat), s, p, t, q);
  }

  /** A reported hit is the pattern matched at the start of the text from the
      hit's start on. */
  lemma FindAllHit(pat: Pattern, s: string, i: nat)
    requires i < |FindAll(pat, s)|
    ensures var m := FindAll(pat, s)[i];
      m.start <= |s| && MatchPrefix(pat, s[m.start..]) == Some(Match(0, m.end - m.start, m.groups))
  {
    var m := FindAll(pat, s)[i];
    LaterHitMatches(pat, s, i);
    MatchAtPrefix(pat, s, m.start, m);
  }

  /** A match at `p` is the match at the start of the text from `p` on,
      shifted by `p`. */
  lemma MatchAtPrefix(pat: Pattern, s: string, p: nat, m: Match)
    requires p <= |s| && MatchAt(pat, s, p) == Some(m)
    ensures MatchPrefix(pat, s[p..]) == Some(Match(0, m.end - p, m.groups))
  {
    var r := MatchPrefix(pat, s[p..]);
    assert r.Some? && r.value.start == 0;
  }

  /** After a hit at `p` the search resumes where the hit ends. */
  lemma FindAllFromHit(pat: Pattern, s: string, p: nat)
    requires p < |s| && MatchAt(pat, s, p).Some?
    ensures var m := MatchAt(pat, s, p).value;
      FindAllFrom(pat, s, p) == [m] + FindAllFrom(pat, s, m.end)
  {
    SearchHit(MatchPrefix, pat, GroupCount(pat), s, p);
  }

  /** A field pattern matches at `p` exactly as it matches the text from
      `p` on, shifted by `p`. */
  lemma FieldMatchAt(fp: FieldPattern, s: string, p: nat, e: nat, v: string)
    requires p <= |s| && FieldPrefix(fp, s[p..]) == Some(Match(0, e, [v]))
    ensures MatchAt(Field(fp), s, p) == Some(Match(p, p + e, [v]))
  {
  }

  /** Without a hit at `p` the search moves on by one position. */
  lemma FindAllFromMiss(pat: Pattern, s: string, p: nat)
    requires p < |s| && MatchAt(pat, s, p).None?
    ensures FindAllFrom(pat, s, p) == FindAllFrom(pat, s, p + 1)
  {
    assert MatchPrefix(pat, s[p..]).None?;
  }

  /** Text appended after `a` changes nothing `findall` reports when no
      match starts inside it and it changes no match that starts in `a`. */
  lemma FindAllAppend(pat: Pattern, a: string, b: string)
    requires forall q | 0 <= q < |a| :: MatchAt(pat, a + b, q) == MatchAt(pat, a, q)
    requires forall q | |a| <= q < |a + b| :: MatchAt(pat, a + b, q).None?
    ensures FindAll(pat, a + b) == FindAll(pat, a)
  {
    var s := a + b;
    forall q | 0 <= q < |a| ensures At(MatchPrefix, pat, s, q) == At(MatchPrefix, pat, a, q) {
      assert MatchAt(pat, s, q) == MatchAt(pat, a, q);
    }
    forall q | |a| <= q < |s| ensures At(MatchPrefix, pat, s, q).None? {
      assert MatchAt(pat, s, q).None?;
    }
    SearchPrefix(MatchPrefix, pat, GroupCount(pat), s, a, 0);
  }

  /** The last hit `findall` reports is the match at `p` when no match
      starts after `p` and no earlier match reaches over `p`. */
  lemma FindAllLast(pat: Pattern, s: string, p: nat)
    requires p < |s| && MatchAt(pat, s, p).Some?
    requires forall q | 0 <= q < p :: MatchAt(pat, s, q).None? || MatchAt(pat, s, q).value.end <= p
    requires forall q | p < q < |s| :: MatchAt(pat, s, q).None?
    ensures |FindAll(pat, s)| > 0
    ensures FindAll(pat, s)[|FindAll(pat, s)| - 1] == MatchAt(pat, s, p).value
  {
    var i := HitCovering(pat, s, p);
    LastHit(pat, s, p, i);
  }

  /** A hit that reaches over `p` is the last one when no match starts
      after `p`. */
  lemma LastHit(pat: Pattern, s: string, p: nat, i: nat)
    requires i < |FindAll(pat, s)| && p < FindAll(pat, s)[i].end
    requires forall q | p < q < |s| :: MatchAt(pat, s, q).None?
    ensures i + 1 == |FindAll(pat, s)|
  {
    var ms := FindAll(pat, s);
    if i + 1 < |ms| {
      FindAllOrdered(pat, s);
      assert ms[i].end <= ms[i + 1].start;
      LaterHitMatches(pat, s, i + 1);
    }
  }

  /** The hit covering a match that no earlier match reaches over starts
      where that match starts. */
  lemma HitCovering(pat: Pattern, s: string, p: nat) returns (i: nat)
    requires p < |s| && MatchAt(pat, s, p).Some?
    requires forall q | 0 <= q < p :: MatchAt(pat, s, q).None? || MatchAt(pat, s, q).value.end <= p
    ensures i < |FindAll(pat, s)| && FindAll(pat, s)[i] == MatchAt(pat, s, p).value
  {
    var ms := FindAll(pat, s);
    FindAllComplete(pat, s, p);
    i :| 0 <= i < |ms| && ms[i].start <= p < ms[i].end;
    LaterHitMatches(pat, s, i);
  }

  /** A reported hit is the match at its start. */
  lemma LaterHitMatches(pat: Pattern, s: string, i: nat)
    requires i < |FindAll(pat, s)|
    ensures FindAll(pat, s)[i].start < |s|
    ensures MatchAt(pat, s, FindAll(pat, s)[i].start) == Some(FindAll(pat, s)[i])
  {
    FindAllSound(pat, s);
  }

  /** Neither a version pair nor a diagnostic starts at a line break. */
  lemma NewlineMiss(pat: Pattern, t: string, k: nat)
    requires !pat.Field?
    requires k < |t| && t[k] == '\n'
    ensures MatchAt(pat, t, k).None?
  {
    var u := t[k..];
    assert u[0] == '\n';
    if pat.LibPair? {
      assert RunEnd(u, 0, NonSpace) == 0;
    } else if |TimestampTemplate| <= |u| {
      assert u[..|TimestampTemplate|][0] == u[0];
    }
  }

  /** The search from `p` on sees the same items as a search of the rest of
      the text. */
  lemma FindAllRest(pat: Pattern, t: string, p: nat, tail: string)
    requires p <= |t| && t[p..] == tail
    ensures SameGroups(FindAllFrom(pat, t, p), FindAll(pat, tail))
  {
    assert tail[0..] == tail;
    FindAllFromLocal(pat, t, p, tail, 0);
  }

  /** Text without a ':' holds no version pair. */
  lemma NoColonNoPair(u: string)
    requires ':' !in u
    ensures LibPairPrefix(u).None?
  {
  }
}
