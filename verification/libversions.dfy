/** The library versions a junifer run prints into its `.out` file
    (`extract_lib_versions`): the section after the first
    `===== Lib Versions =====` banner, up to and including the first line
    that ends in a run of '=', read as `name: version` pairs. */
module LibVersions {
  import opened Wrappers
  import opened Text
  import opened Scanner
  import opened Patterns

  /** The text the opening lookbehind asks for. */
  const BeginBanner: string := "===== Lib Versions =====\n"

  /** The text the closing lookbehind asks for: 23 '=' and a line break. */
  const EndBanner: string := "=======================\n"

  /** `s[..q]` ends with `t`: the lookbehind `(?<=t)` holds at position `q`. */
  predicate EndsAt(s: string, q: nat, t: string) {
    |t| <= q <= |s| && s[q - |t|..q] == t
  }

  /** The first position from `from` on where the lookbehind for `t` holds. */
  function FirstEndAt(s: string, t: string, from: nat): (r: Option<nat>)
    requires from <= |s|
    ensures r.Some? ==> from <= r.value <= |s|
    decreases |s| - from
  {
    if EndsAt(s, from, t) then Some(from)
    else if from == |s| then None
    else FirstEndAt(s, t, from + 1)
  }

  /** `q` is where the lookbehind for `t` first holds from `from` on. */
  predicate IsFirstEnd(s: string, t: string, from: nat, q: nat) {
    && from <= q <= |s|
    && EndsAt(s, q, t)
    && forall k | from <= k < q :: !EndsAt(s, k, t)
  }

  /** `FirstEndAt` finds `q`. */
  predicate FirstEndIs(s: string, t: string, from: nat, q: nat) {
    from <= |s| && FirstEndAt(s, t, from).Some? && FirstEndAt(s, t, from).value == q
  }

  /** The search finds the first position where the lookbehind holds, and
      finds nothing only when it holds nowhere. */
  lemma {:induction false} FirstEndAtSpec(s: string, t: string, from: nat)
    requires from <= |s|
    ensures FirstEndAt(s, t, from).Some? ==> IsFirstEnd(s, t, from, FirstEndAt(s, t, from).value)
    ensures FirstEndAt(s, t, from).None? ==> forall q | from <= q <= |s| :: !EndsAt(s, q, t)
    decreases |s| - from
  {
    if !EndsAt(s, from, t) && from < |s| {
      FirstEndAtSpec(s, t, from + 1);
    }
  }

  /** A position where the lookbehind holds, with none before it, is the
      one the search finds. */
  lemma {:induction false} FirstEndAtIs(s: string, t: string, from: nat, q: nat)
    requires IsFirstEnd(s, t, from, q)
    ensures FirstEndIs(s, t, from, q)
    decreases q - from
  {
    if from < q {
      FirstEndAtIs(s, t, from + 1, q);
    }
  }

  /** Where the lookbehind for `t` holds at `q`, the text before `q` spells `t`. */
  lemma EndsAtChar(s: string, q: nat, t: string, j: nat)
    requires EndsAt(s, q, t) && j < |t|
    ensures s[q - |t| + j] == t[j]
  {
    assert s[q - |t|..q][j] == t[j];
  }

  /** The regular expression's match at `p`: the opening lookbehind holds at
      `p`, and the lazy group of whole lines stops at `e`, the first position
      from `p` on where the closing lookbehind holds. (A position where it
      holds follows a line break, so the lines from `p` reach it.) */
  ghost predicate SectionAt(s: string, p: nat, e: nat) {
    && p <= e <= |s|
    && EndsAt(s, p, BeginBanner)
    && EndsAt(s, e, EndBanner)
    && forall q | p <= q < e :: !EndsAt(s, q, EndBanner)
  }

  /** The bounds of the section `re.search` captures, if it captures one. */
  function SectionBounds(s: string): (bounds: Option<(nat, nat)>)
  {
    match FirstEndAt(s, BeginBanner, 0)
    case None => None
    case Some(p) =>
      match FirstEndAt(s, EndBanner, p)
      case None => None
      case Some(e) => Some((p, e))
  }

  /** `re.search` finds the leftmost match: the section bounds are a match and
      no match starts earlier, and when there are no bounds there is no match
      anywhere, so only the first banner can ever open the section. */
  lemma SectionBoundsSearch(s: string)
    ensures SectionBounds(s).Some? ==>
      var (p, e) := SectionBounds(s).value;
      SectionAt(s, p, e) && forall p': nat, e': nat | p' < p :: !SectionAt(s, p', e')
    ensures SectionBounds(s).None? ==> forall p: nat, e: nat :: !SectionAt(s, p, e)
  {
    FirstEndAtSpec(s, BeginBanner, 0);
    var first := FirstEndAt(s, BeginBanner, 0);
    if first.Some? {
      FirstEndAtSpec(s, EndBanner, first.value);
    }
  }

  /** `re.search` finds the section at `p`..`e`: a match, and no match
      starts earlier. */
  ghost predicate LeftmostSection(s: string, p: nat, e: nat) {
    SectionAt(s, p, e) && forall p': nat, e': nat | p' < p :: !SectionAt(s, p', e')
  }

  /** The section `match.group(1)`, or "" when there is no match: it is
      empty exactly when the pattern matches nowhere, and otherwise it is the
      text of the leftmost match, which ends with the closing run. */
  function Section(s: string): (section: string)
    ensures section == "" <==> forall p: nat, e: nat :: !SectionAt(s, p, e)
    ensures section != "" ==>
      EndsWith(section, EndBanner) && exists p: nat, e: nat :: LeftmostSection(s, p, e) && section == s[p..e]
  {
    SectionBoundsSearch(s);
    match SectionBounds(s)
    case None => ""
    case Some((p, e)) =>
      BoundsEndWithBanner(s);
      assert LeftmostSection(s, p, e);
      s[p..e]
  }

  /** The captured text is not empty: it ends with the closing run itself,
      which cannot overlap the opening banner. */
  lemma BoundsEndWithBanner(s: string)
    requires SectionBounds(s).Some?
    ensures var (p, e) := SectionBounds(s).value; p <= e <= |s| && EndsWith(s[p..e], EndBanner)
  {
    var (p, e) := SectionBounds(s).value;
    FirstEndAtSpec(s, BeginBanner, 0);
    FirstEndAtSpec(s, EndBanner, p);
    if e == p {
      EndsAtChar(s, p, BeginBanner, 18);
      NotEndsAt(s, e, EndBanner, 17);
      assert false;
    } else if e < p + 24 {
      EndsAtChar(s, p, BeginBanner, 24);
      EndBannerRun(p - 1 - (e - 24));
      NotEndsAt(s, e, EndBanner, p - 1 - (e - 24));
      assert false;
    }
    assert s[p..e][|s[p..e]| - 24..] == s[e - 24..e];
  }

  /** Every character of the closing text but the last is '='. */
  lemma EndBannerRun(k: nat)
    requires k < 23
    ensures EndBanner[k] == '='
  {
    assert EndBanner[..23] == seq(23, _ => '=');
    assert EndBanner[k] == EndBanner[..23][k];
  }

  /** The `(name, version)` pairs of the version items. */
  function PairsOf(ms: seq<Match>): (pairs: seq<(string, string)>)
    requires forall i | 0 <= i < |ms| :: |ms[i].groups| == 2
    ensures |pairs| == |ms|
    ensures forall i | 0 <= i < |ms| :: pairs[i] == (ms[i].groups[0], ms[i].groups[1])
  {
    if |ms| == 0 then [] else [(ms[0].groups[0], ms[0].groups[1])] + PairsOf(ms[1..])
  }

  /** Items with the same groups give the same pairs. */
  lemma PairsOfSame(a: seq<Match>, b: seq<Match>)
    requires SameGroups(a, b)
    requires forall i | 0 <= i < |a| :: |a[i].groups| == 2
    ensures PairsOf(a) == PairsOf(b)
  {
  }

  /** The pairs of items with a head item in front. */
  lemma PairsOfCons(m: Match, ms: seq<Match>)
    requires |m.groups| == 2 && forall i | 0 <= i < |ms| :: |ms[i].groups| == 2
    ensures PairsOf([m] + ms) == [(m.groups[0], m.groups[1])] + PairsOf(ms)
  {
    assert ([m] + ms)[1..] == ms;
  }

  /** A pair as the version pattern finds it: a non-empty name and version,
      neither holding whitespace. */
  predicate PairShaped(pair: (string, string)) {
    |pair.0| > 0 && NoSpace(pair.0) && |pair.1| > 0 && NoSpace(pair.1)
  }

  /** `re.findall` of `(\S+):\s(\S+)` over a section. */
  function VersionPairs(section: string): (pairs: seq<(string, string)>)
    ensures forall i | 0 <= i < |pairs| :: PairShaped(pairs[i])
  {
    var ms := FindAll(LibPair, section);
    forall i | 0 <= i < |ms| ensures PairShaped((ms[i].groups[0], ms[i].groups[1])) {
      FindAllHit(LibPair, section, i);
      LibPairPrefixShape(section[ms[i].start..]);
    }
    PairsOf(ms)
  }

  /** `pairs[i]` is the last pair for its name. */
  predicate LastFor(pairs: seq<(string, string)>, i: nat) {
    i < |pairs| && forall j | i < j < |pairs| :: pairs[j].0 != pairs[i].0
  }

  /** What a dict comprehension over `pairs` holds: an entry for every name
      of the pairs, every entry taken from a pair, and each name mapped to the
      version of its last pair. */
  predicate LastWins(pairs: seq<(string, string)>, table: map<string, string>) {
    && (forall i | 0 <= i < |pairs| :: pairs[i].0 in table)
    && (forall k | k in table :: exists i | 0 <= i < |pairs| :: pairs[i] == (k, table[k]))
    && (forall i | 0 <= i < |pairs| && LastFor(pairs, i) :: table[pairs[i].0] == pairs[i].1)
  }

  /** `{name: [version] for name, version in pairs}`, built pair by pair. */
  function VersionMap(pairs: seq<(string, string)>): (table: map<string, string>)
    ensures LastWins(pairs, table)
    decreases |pairs|
  {
    if |pairs| == 0 then map[]
    else
      var n := |pairs| - 1;
      assert pairs == pairs[..n] + [pairs[n]];
      var m := VersionMap(pairs[..n]);
      UpdateLastWins(pairs[..n], pairs[n], m);
      m[pairs[n].0 := pairs[n].1]
  }

  /** Adding one pair at the end keeps the dict comprehension's law. */
  lemma UpdateLastWins(init: seq<(string, string)>, last: (string, string), m: map<string, string>)
    requires LastWins(init, m)
    ensures LastWins(init + [last], m[last.0 := last.1])
  {
    var pairs := init + [last];
    var m' := m[last.0 := last.1];
    var n := |init|;
    forall i | 0 <= i < |pairs| ensures pairs[i].0 in m' {
      if i < n { assert pairs[i] == init[i]; }
    }
    forall k | k in m' ensures exists i | 0 <= i < |pairs| :: pairs[i] == (k, m'[k]) {
      if k == last.0 {
        assert pairs[n] == (k, m'[k]);
      } else {
        var i :| 0 <= i < n && init[i] == (k, m[k]);
        assert pairs[i] == init[i];
      }
    }
    forall i | 0 <= i < |pairs| && LastFor(pairs, i) ensures m'[pairs[i].0] == pairs[i].1 {
      if i < n {
        assert pairs[i] == init[i];
        assert pairs[n] == last;
        forall j | i < j < n ensures init[j].0 != init[i].0 {
          assert pairs[j] == init[j];
        }
        assert LastFor(init, i);
      }
    }
  }

  /** Every entry of a table built from shaped pairs is shaped. */
  lemma ShapedTable(pairs: seq<(string, string)>, table: map<string, string>)
    requires LastWins(pairs, table)
    requires forall i | 0 <= i < |pairs| :: PairShaped(pairs[i])
    ensures forall k | k in table :: PairShaped((k, table[k]))
  {
    forall k | k in table ensures PairShaped((k, table[k])) {
      var i :| 0 <= i < |pairs| && pairs[i] == (k, table[k]);
    }
  }

  /** The version table of a section: every library in it has a non-empty,
      whitespace-free name and version, and a section without version pairs
      (in particular the empty one) gives an empty table. */
  function TableOf(section: string): (table: map<string, string>)
    ensures forall k | k in table :: PairShaped((k, table[k]))
    ensures FindAll(LibPair, section) == [] ==> table == map[]
  {
    var pairs := VersionPairs(section);
    ShapedTable(pairs, VersionMap(pairs));
    VersionMap(pairs)
  }

  /** `extract_lib_versions`: the version table of the section. Every
      library in it has a non-empty, whitespace-free name and version, and
      without an opening banner followed by a closing run the table is
      empty. */
  function ExtractLibVersions(s: string): (table: map<string, string>)
    ensures forall k | k in table :: PairShaped((k, table[k]))
    ensures (forall p: nat, e: nat :: !SectionAt(s, p, e)) ==> table == map[]
  {
    assert FindAll(LibPair, "") == [];
    TableOf(Section(s))
  }

  /* ---------------------------------------------------------------------- */
  /* The section as junifer prints it                                       */
  /* ---------------------------------------------------------------------- */

  /** The closing line junifer prints: 24 '=' and a line break. */
  const CloseLine: string := "========================\n"

  /** A library entry as junifer prints it: name and version non-empty and
      free of whitespace, and the version free of '='. */
  predicate Printable(entry: (string, string)) {
    PairShaped(entry) && '=' !in entry.1
  }

  /** One `name: version` line per entry. */
  function Line(entry: (string, string)): (text: string) {
    entry.0 + ": " + entry.1 + "\n"
  }

  /** The lines of all entries, in order. */
  function Lines(entries: seq<(string, string)>): (text: string)
  {
    if |entries| == 0 then "" else Line(entries[0]) + Lines(entries[1..])
  }

  /** A text holding, after `pre`, an opening banner, then `lines`, then the
      closing line, then `rest`. */
  function Layout(pre: string, lines: string, rest: string): (text: string) {
    pre + BeginBanner + lines + CloseLine + rest
  }

  /** The text junifer writes: whatever comes first, the opening banner, the
      entries, the closing line, and whatever comes after. */
  function Rendered(pre: string, entries: seq<(string, string)>, rest: string): (text: string) {
    Layout(pre, Lines(entries), rest)
  }

  /** `pre` holds no opening banner. */
  predicate NoBanner(pre: string): (clean: bool) {
    forall q: nat | q <= |pre| :: !EndsAt(pre, q, BeginBanner)
  }

  /** `lines[k]` ends a line that is empty or ends in '='. */
  predicate RunBreak(lines: string, k: nat)
    requires k < |lines|
  {
    lines[k] == '\n' && (k == 0 || lines[k - 1] == '=')
  }

  /** Every line break of `lines` follows a character other than '='. */
  predicate CleanBreaks(lines: string) {
    forall k | 0 <= k < |lines| :: !RunBreak(lines, k)
  }

  /** No line junifer prints for a library ends in '='. */
  lemma {:induction false} LinesBreaks(entries: seq<(string, string)>)
    requires forall i | 0 <= i < |entries| :: Printable(entries[i])
    ensures CleanBreaks(Lines(entries))
    decreases |entries|
  {
    if |entries| > 0 {
      var line := Line(entries[0]);
      var tail := Lines(entries[1..]);
      LinesBreaks(entries[1..]);
      assert CleanBreaks(tail);
      var all := Lines(entries);
      assert all == line + tail;
      var n := |entries[0].0|;
      var v := |entries[0].1|;
      assert |line| == n + v + 3;
      forall k | 0 <= k < |all| ensures !RunBreak(all, k) {
        if k < |line| {
          assert all[k] == line[k];
          if k == n + 2 + v {
            assert all[k - 1] == line[k - 1] == entries[0].1[v - 1];
          }
        } else if k == |line| {
          assert all[k] == tail[0];
          assert !RunBreak(tail, 0);
        } else {
          assert all[k] == tail[k - |line|];
          assert all[k - 1] == tail[k - 1 - |line|];
          assert !RunBreak(tail, k - |line|);
        }
      }
    }
  }

  /** The opening banner holds no line break before its last character. */
  lemma BeginBannerOneLine(j: nat)
    requires j < 24
    ensures BeginBanner[j] != '\n'
  {
    assert BeginBanner[..24] == "===== Lib Versions =====";
    assert BeginBanner[j] == BeginBanner[..24][j];
  }

  /** The pieces of a laid-out text, located. */
  lemma LayoutParts(pre: string, lines: string, rest: string)
    ensures var s := Layout(pre, lines, rest);
      var b := |pre| + 25;
      var c := b + |lines|;
      && c + 25 <= |s|
      && s[..|pre|] == pre
      && s[|pre|..b] == BeginBanner
      && s[b..c] == lines
      && s[c..c + 25] == CloseLine
      && s[b..c + 25] == lines + CloseLine
  {
    var x1 := pre + BeginBanner;
    var x2 := x1 + lines;
    var x3 := x2 + CloseLine;
    var s := x3 + rest;
    assert s == Layout(pre, lines, rest);
    var b := |x1|;
    var c := |x2|;
    assert s[..c + 25] == x3;
    assert s[..|pre|] == x3[..|pre|] == x2[..|pre|] == x1[..|pre|] == pre;
    assert s[|pre|..b] == x3[|pre|..b] == x2[|pre|..b] == x1[|pre|..] == BeginBanner;
    assert s[b..c] == x3[b..c] == x2[b..] == lines;
    assert s[c..c + 25] == x3[c..] == CloseLine;
    assert s[b..c + 25] == x3[b..] == lines + CloseLine;
  }

  /** A character inside a located piece is that piece's character. */
  lemma PieceChar(s: string, i: nat, j: nat, t: string, k: nat)
    requires i <= k < j <= |s| && s[i..j] == t
    ensures s[k] == t[k - i]
  {
    assert s[i..j][k - i] == s[k];
  }

  /** A character that differs from `t`'s rules out the lookbehind for `t`. */
  lemma NotEndsAt(s: string, q: nat, t: string, j: nat)
    requires j < |t| <= q <= |s| && s[q - |t| + j] != t[j]
    ensures !EndsAt(s, q, t)
  {
    assert s[q - |t|..q][j] == s[q - |t| + j];
  }

  /** Between an opening banner and the end of the closing line after lines
      with clean breaks there is no closing run: the banner's own run is too
      short, no line ends in '=', and the closing line has no break before
      its end. */
  lemma NoCloseInside(pre: string, lines: string, rest: string, q: nat)
    requires CleanBreaks(lines)
    requires |pre| + 25 <= q < |pre| + 25 + |lines| + 25
    ensures !EndsAt(Layout(pre, lines, rest), q, EndBanner)
  {
    var s := Layout(pre, lines, rest);
    var b := |pre| + 25;
    var c := b + |lines|;
    LayoutParts(pre, lines, rest);
    if q == b {
      PieceChar(s, b - 25, b, BeginBanner, b - 7);
      NotEndsAt(s, q, EndBanner, 17);
    } else if q <= c {
      PieceChar(s, b, c, lines, q - 1);
      if lines[q - 1 - b] == '\n' {
        assert !RunBreak(lines, q - 1 - b);
        PieceChar(s, b, c, lines, q - 2);
        NotEndsAt(s, q, EndBanner, 22);
      } else {
        NotEndsAt(s, q, EndBanner, 23);
      }
    } else {
      PieceChar(s, c, c + 25, CloseLine, q - 1);
      CloseLineRun(q - 1 - c);
      NotEndsAt(s, q, EndBanner, 23);
    }
  }

  /** The closing line ends in a closing run. */
  lemma CloseAtEnd(pre: string, lines: string, rest: string)
    ensures EndsAt(Layout(pre, lines, rest), |pre| + 25 + |lines| + 25, EndBanner)
  {
    var s := Layout(pre, lines, rest);
    var c := |pre| + 25 + |lines|;
    LayoutParts(pre, lines, rest);
    CloseLineTail();
    SliceTail(s, c, CloseLine);
  }

  /** Dropping the first character of a located piece. */
  lemma SliceTail(s: string, c: nat, t: string)
    requires 1 <= |t| && c + |t| <= |s| && s[c..c + |t|] == t
    ensures s[c + 1..c + |t|] == t[1..]
  {
    assert s[c + 1..c + |t|] == s[c..c + |t|][1..];
  }

  /** The closing line is one '=' and then a closing run. */
  lemma CloseLineTail()
    ensures CloseLine[1..] == EndBanner
  {
  }

  /** After the opening banner, the first closing run is the one at the end
      of the closing line. */
  lemma FirstCloseAfterLines(pre: string, lines: string, rest: string)
    requires CleanBreaks(lines)
    ensures FirstEndIs(Layout(pre, lines, rest), EndBanner, |pre| + 25, |pre| + 25 + |lines| + 25)
  {
    var s := Layout(pre, lines, rest);
    var b := |pre| + 25;
    var e := b + |lines| + 25;
    forall q | b <= q < e ensures !EndsAt(s, q, EndBanner) {
      NoCloseInside(pre, lines, rest, q);
    }
    CloseAtEnd(pre, lines, rest);
    FirstEndAtIs(s, EndBanner, b, e);
  }

  /** Every character of the closing line but the last is '='. */
  lemma CloseLineRun(k: nat)
    requires k < 24
    ensures CloseLine[k] == '='
  {
    assert CloseLine[..24] == seq(24, _ => '=');
    assert CloseLine[k] == CloseLine[..24][k];
  }

  /** The section runs from the first opening banner to the first closing
      run after it. */
  lemma SectionBetween(s: string, b: nat, e: nat)
    requires FirstEndIs(s, BeginBanner, 0, b)
    requires FirstEndIs(s, EndBanner, b, e)
    ensures b <= e <= |s| && Section(s) == s[b..e]
  {
  }

  /** In a laid-out text with no banner before its own, the search finds
      that banner first. */
  lemma LayoutFirstBanner(pre: string, lines: string, rest: string)
    requires NoBanner(pre)
    ensures FirstEndIs(Layout(pre, lines, rest), BeginBanner, 0, |pre| + 25)
  {
    var s := Layout(pre, lines, rest);
    var b := |pre| + 25;
    LayoutParts(pre, lines, rest);
    forall q | 0 <= q < b ensures !EndsAt(s, q, BeginBanner) {
      if q <= |pre| {
        if 25 <= q {
          assert s[q - 25..q] == s[..|pre|][q - 25..q] == pre[q - 25..q];
        }
        assert !EndsAt(pre, q, BeginBanner);
      } else if 25 <= q {
        PieceChar(s, |pre|, b, BeginBanner, q - 1);
        BeginBannerOneLine(q - 1 - |pre|);
        NotEndsAt(s, q, BeginBanner, 24);
      }
    }
    FirstEndAtIs(s, BeginBanner, 0, b);
  }

  /** With no banner before its own and lines with clean breaks, the section
      of a laid-out text is the lines and the closing line. */
  lemma SectionOfLayout(pre: string, lines: string, rest: string)
    requires NoBanner(pre)
    requires CleanBreaks(lines)
    ensures Section(Layout(pre, lines, rest)) == lines + CloseLine
  {
    var s := Layout(pre, lines, rest);
    var b := |pre| + 25;
    var e := b + |lines| + 25;
    LayoutFirstBanner(pre, lines, rest);
    FirstCloseAfterLines(pre, lines, rest);
    SectionBetween(s, b, e);
    LayoutParts(pre, lines, rest);
  }

  /** The closing line holds no version pair. */
  lemma CloseLineNoPairs()
    ensures FindAll(LibPair, CloseLine) == []
  {
    forall p | 0 <= p < |CloseLine| ensures MatchAt(LibPair, CloseLine, p).None? {
      assert ':' !in CloseLine[p..];
      NoColonNoPair(CloseLine[p..]);
    }
    FindAllNone(LibPair, CloseLine);
  }

  /** The version pattern matches a line's pair at the line's start, and
      the pair ends at the line break. */
  lemma LineHead(entry: (string, string), tail: string, t: string)
    requires PairShaped(entry)
    requires t == Line(entry) + tail
    ensures var k := |entry.0| + 2 + |entry.1|;
      && k < |t| && t[k] == '\n' && t[k + 1..] == tail
      && MatchAt(LibPair, t, 0) == Some(Match(0, k, [entry.0, entry.1]))
  {
    var (name, version) := entry;
    var k := |name| + 2 + |version|;
    var rest := "\n" + tail;
    assert t == name + [':', ' '] + version + rest;
    LibPairPrefixOf(name, ' ', version, rest);
    assert t[0..] == t;
    assert t[k..] == rest;
    assert t[k + 1..] == rest[1..] == tail;
  }

  /** The version pattern finds the pair of a line at its start, skips its
      line break, and goes on as it would on the text after the line. */
  lemma LinePair(entry: (string, string), tail: string, t: string)
    requires PairShaped(entry)
    requires t == Line(entry) + tail
    ensures HeadThen(t, tail, Match(0, |entry.0| + 2 + |entry.1|, [entry.0, entry.1]))
  {
    var k := |entry.0| + 2 + |entry.1|;
    var m := Match(0, k, [entry.0, entry.1]);
    LineHead(entry, tail, t);
    assert MatchAt(LibPair, t, 0) == Some(m);
    FindAllFromHit(LibPair, t, 0);
    assert FindAllFrom(LibPair, t, 0) == [m] + FindAllFrom(LibPair, t, k);
    NewlineMiss(LibPair, t, k);
    FindAllFromMiss(LibPair, t, k);
    assert FindAllFrom(LibPair, t, k) == FindAllFrom(LibPair, t, k + 1);
    FindAllRest(LibPair, t, k + 1, tail);
  }

  /** The pattern's first item in `t` is `m`, which ends one short of the
      end of its line, and the later items have the groups of the items of
      `tail`. */
  predicate HeadThen(t: string, tail: string, m: Match) {
    && |m.groups| == 2
    && m.end < |t|
    && FindAll(LibPair, t) == [m] + FindAllFrom(LibPair, t, m.end + 1)
    && SameGroups(FindAllFrom(LibPair, t, m.end + 1), FindAll(LibPair, tail))
  }

  /** The pairs read from a line and what follows are the line's entry and
      the pairs of what follows. */
  lemma PairsOfLine(entry: (string, string), tail: string, t: string)
    requires PairShaped(entry)
    requires t == Line(entry) + tail
    ensures PairsOf(FindAll(LibPair, t)) == [entry] + PairsOf(FindAll(LibPair, tail))
  {
    var m := Match(0, |entry.0| + 2 + |entry.1|, [entry.0, entry.1]);
    LinePair(entry, tail, t);
    PairsOfHead(t, tail, m);
  }

  /** The pairs of a text whose first item is `m`, followed by the items of
      `tail`. */
  lemma PairsOfHead(t: string, tail: string, m: Match)
    requires HeadThen(t, tail, m)
    ensures PairsOf(FindAll(LibPair, t)) == [(m.groups[0], m.groups[1])] + PairsOf(FindAll(LibPair, tail))
  {
    var rest := FindAllFrom(LibPair, t, m.end + 1);
    PairsOfSame(rest, FindAll(LibPair, tail));
    PairsOfCons(m, rest);
  }

  /** The version pattern reads back exactly the entries from their lines
      and the closing line. */
  lemma {:induction false} LinesPairs(entries: seq<(string, string)>)
    requires forall i | 0 <= i < |entries| :: PairShaped(entries[i])
    ensures PairsOf(FindAll(LibPair, Lines(entries) + CloseLine)) == entries
    decreases |entries|
  {
    if |entries| == 0 {
      assert Lines(entries) + CloseLine == CloseLine;
      CloseLineNoPairs();
    } else {
      var t := Lines(entries) + CloseLine;
      var tail := Lines(entries[1..]) + CloseLine;
      assert t == Line(entries[0]) + tail;
      PairsOfLine(entries[0], tail, t);
      LinesPairs(entries[1..]);
      assert entries == [entries[0]] + entries[1..];
    }
  }

  /** A section made of the entries' lines and the closing line has the
      version map of the entries as its table. */
  lemma LinesTable(entries: seq<(string, string)>)
    requires forall i | 0 <= i < |entries| :: PairShaped(entries[i])
    ensures VersionPairs(Lines(entries) + CloseLine) == entries
    ensures TableOf(Lines(entries) + CloseLine) == VersionMap(entries)
  {
    LinesPairs(entries);
    TableOfPairs(Lines(entries) + CloseLine, entries);
  }

  /** Sections with the same pairs have the same table. */
  lemma TableOfPairs(section: string, pairs: seq<(string, string)>)
    requires VersionPairs(section) == pairs
    ensures TableOf(section) == VersionMap(pairs)
  {
  }

  /** The section of a rendered text is the entries' lines and the closing
      line. */
  lemma SectionOfRendered(pre: string, entries: seq<(string, string)>, rest: string)
    requires NoBanner(pre)
    requires forall i | 0 <= i < |entries| :: Printable(entries[i])
    ensures Section(Rendered(pre, entries, rest)) == Lines(entries) + CloseLine
  {
    LinesBreaks(entries);
    SectionOfLayout(pre, Lines(entries), rest);
  }

  /** Reading back what junifer wrote: whatever precedes the banner (as
      long as it holds no banner itself) and whatever follows the closing
      line, the version table is built from exactly the printed entries, the
      later of two entries for one library winning. */
  lemma RenderRoundTrip(pre: string, entries: seq<(string, string)>, rest: string)
    requires NoBanner(pre)
    requires forall i | 0 <= i < |entries| :: Printable(entries[i])
    ensures Section(Rendered(pre, entries, rest)) == Lines(entries) + CloseLine
    ensures ExtractLibVersions(Rendered(pre, entries, rest)) == VersionMap(entries)
  {
    SectionOfRendered(pre, entries, rest);
    TableOfLines(Rendered(pre, entries, rest), entries);
  }

  /** A text whose section is the entries' lines and the closing line has
      the version map of the entries as its table. */
  lemma TableOfLines(s: string, entries: seq<(string, string)>)
    requires forall i | 0 <= i < |entries| :: Printable(entries[i])
    requires Section(s) == Lines(entries) + CloseLine
    ensures ExtractLibVersions(s) == VersionMap(entries)
  {
    LinesTable(entries);
  }
}
