/** The warnings and errors a job logged (`extract_errors` and the warning
    search of `match_out_file_content`) and the three report fields built
    from them. */
module Diagnostics {
  import opened Wrappers
  import opened Text
  import opened Scanner
  import opened Patterns

  /* ---------------------------------------------------------------------- */
  /* The searches                                                           */
  /* ---------------------------------------------------------------------- */

  /** A diagnostic item as the pattern captures it: non-empty and within
      one line. */
  predicate LinePiece(x: string) {
    |x| > 0 && '\n' !in x
  }

  /** An error as the pattern captures it: a line piece that opens with a
      timestamp followed by ` - JUNIFER - ERROR - ` and has a non-empty
      message after that. */
  predicate ErrorShaped(e: string) {
    && |TimestampTemplate| + |Tag(Error)| < |e|
    && FitsTemplate(e[..|TimestampTemplate|], TimestampTemplate)
    && StartsAt(e, |TimestampTemplate|, Tag(Error))
    && '\n' !in e
  }

  /** What `re.findall` returns for the diagnostic pattern of `level`: the
      message of every warning line, the whole of every error line. There is
      one item per hit, every item is a line piece, and there are none
      exactly when the pattern matches at no position of the text. */
  function Items(level: Level, text: string): (items: seq<string>)
    ensures |items| == |FindAll(Diagnostic(level), text)|
    ensures forall i | 0 <= i < |items| :: LinePiece(items[i])
    ensures items == [] <==> forall p | 0 <= p < |text| :: MatchAt(Diagnostic(level), text, p).None?
  {
    var ms := FindAll(Diagnostic(level), text);
    assert forall i | 0 <= i < |ms| :: LinePiece(ms[i].groups[0]) by {
      forall i | 0 <= i < |ms| ensures LinePiece(ms[i].groups[0]) {
        HitItemPiece(level, text, i);
      }
    }
    FindAllEmpty(Diagnostic(level), text);
    Group(ms, 0)
  }

  /** The warning search of `match_out_file_content`: every warning is a
      line piece, and there are none exactly when the warning pattern
      matches nowhere in the out file. */
  function Warnings(out: string): (warnings: seq<string>)
    ensures forall i | 0 <= i < |warnings| :: LinePiece(warnings[i])
    ensures warnings == [] <==> forall p | 0 <= p < |out| :: MatchAt(Diagnostic(Warning), out, p).None?
  {
    Items(Warning, out)
  }

  /** `extract_errors`: every error is error-shaped, and there are none
      exactly when the error pattern matches nowhere in the text. */
  function ExtractErrors(text: string): (errors: seq<string>)
    ensures forall i | 0 <= i < |errors| :: ErrorShaped(errors[i]) && LinePiece(errors[i])
    ensures errors == [] <==> forall p | 0 <= p < |text| :: MatchAt(Diagnostic(Error), text, p).None?
  {
    var ms := FindAll(Diagnostic(Error), text);
    assert forall i | 0 <= i < |ms| :: ErrorShaped(ms[i].groups[0]) by {
      forall i | 0 <= i < |ms| ensures ErrorShaped(ms[i].groups[0]) {
        HitErrorShape(text, i);
      }
    }
    Items(Error, text)
  }

  /** A hit of the diagnostic pattern at `p`: a timestamp, the level's tag
      and a non-empty rest of the line, ending at a line break or at the end
      of the text; its item is the message (a warning) or the whole hit (an
      error). */
  lemma HitShape(level: Level, t: string, p: nat)
    requires p <= |t|
    ensures var r := MatchAt(Diagnostic(level), t, p);
      r.Some? ==>
        var m := r.value;
        var body := p + |TimestampTemplate| + |Tag(level)|;
        && body < m.end
        && FitsTemplate(t[p..p + |TimestampTemplate|], TimestampTemplate)
        && StartsAt(t, p + |TimestampTemplate|, Tag(level))
        && (forall k | p <= k < m.end :: t[k] != '\n')
        && (m.end == |t| || t[m.end] == '\n')
        && m.groups[0] == (if level == Warning then t[body..m.end] else t[p..m.end])
  {
    HitHead(level, t, p);
    HitLine(level, t, p);
  }

  /** The timestamp and the tag of a hit. */
  lemma HitHead(level: Level, t: string, p: nat)
    requires p <= |t|
    ensures var r := MatchAt(Diagnostic(level), t, p);
      r.Some? ==>
        && p + |TimestampTemplate| + |Tag(level)| < r.value.end
        && FitsTemplate(t[p..p + |TimestampTemplate|], TimestampTemplate)
        && StartsAt(t, p + |TimestampTemplate|, Tag(level))
  {
    var u := t[p..];
    DiagnosticPrefixShape(level, u);
    if DiagnosticPrefix(level, u).Some? {
      var stamp := |TimestampTemplate|;
      SliceOfSuffix(t, p, 0, stamp);
      SliceOfSuffix(t, p, stamp, stamp + |Tag(level)|);
    }
  }

  /** The line of a hit and its item. */
  lemma HitLine(level: Level, t: string, p: nat)
    requires p <= |t|
    ensures var r := MatchAt(Diagnostic(level), t, p);
      r.Some? ==>
        var m := r.value;
        var body := p + |TimestampTemplate| + |Tag(level)|;
        && body < m.end
        && (forall k | p <= k < m.end :: t[k] != '\n')
        && (m.end == |t| || t[m.end] == '\n')
        && m.groups[0] == (if level == Warning then t[body..m.end] else t[p..m.end])
  {
    var u := t[p..];
    DiagnosticPrefixShape(level, u);
    var r := DiagnosticPrefix(level, u);
    if r.Some? {
      var n := r.value.end;
      var body := |TimestampTemplate| + |Tag(level)|;
      SliceOfSuffix(t, p, body, n);
      SliceOfSuffix(t, p, 0, n);
      LineAt(t, p, n);
    }
  }

  /** Hit `i` of a diagnostic search, with its item. */
  lemma ItemShape(level: Level, text: string, i: nat)
    requires i < |FindAll(Diagnostic(level), text)|
    ensures var m := FindAll(Diagnostic(level), text)[i];
      var body := m.start + |TimestampTemplate| + |Tag(level)|;
      && body < m.end
      && FitsTemplate(text[m.start..m.start + |TimestampTemplate|], TimestampTemplate)
      && StartsAt(text, m.start + |TimestampTemplate|, Tag(level))
      && (forall k | m.start <= k < m.end :: text[k] != '\n')
      && (m.end == |text| || text[m.end] == '\n')
      && m.groups[0] == (if level == Warning then text[body..m.end] else text[m.start..m.end])
  {
    var m := FindAll(Diagnostic(level), text)[i];
    FindAllSound(Diagnostic(level), text);
    assert MatchAt(Diagnostic(level), text, m.start) == Some(m);
    HitShape(level, text, m.start);
  }

  /** The item of hit `i` is a line piece. */
  lemma HitItemPiece(level: Level, text: string, i: nat)
    requires i < |FindAll(Diagnostic(level), text)|
    ensures LinePiece(FindAll(Diagnostic(level), text)[i].groups[0])
  {
    var m := FindAll(Diagnostic(level), text)[i];
    ItemShape(level, text, i);
    var a := if level == Warning then m.start + |TimestampTemplate| + |Tag(level)| else m.start;
    SliceAvoids(text, a, m.end, '\n');
  }

  /** The item of error hit `i` is error-shaped. */
  lemma HitErrorShape(text: string, i: nat)
    requires i < |FindAll(Diagnostic(Error), text)|
    ensures ErrorShaped(FindAll(Diagnostic(Error), text)[i].groups[0])
  {
    var m := FindAll(Diagnostic(Error), text)[i];
    ItemShape(Error, text, i);
    ErrorShapedSlice(text, m.start, m.end);
  }

  /** A stretch of one line that starts with a timestamp and the error tag
      and goes on after the tag is error-shaped. */
  lemma ErrorShapedSlice(text: string, a: nat, b: nat)
    requires a + |TimestampTemplate| + |Tag(Error)| < b <= |text|
    requires FitsTemplate(text[a..a + |TimestampTemplate|], TimestampTemplate)
    requires StartsAt(text, a + |TimestampTemplate|, Tag(Error))
    requires forall k | a <= k < b :: text[k] != '\n'
    ensures ErrorShaped(text[a..b])
  {
    var stamp := |TimestampTemplate|;
    SliceOfSlice(text, a, b, 0, stamp);
    SliceOfSlice(text, a, b, stamp, stamp + |Tag(Error)|);
    SliceAvoids(text, a, b, '\n');
  }

  /** The errors come in the order of their lines: each is the text of its
      hit, and each hit ends before the next one starts. */
  lemma ErrorsInTextOrder(text: string)
    ensures var ms := FindAll(Diagnostic(Error), text);
      && |ExtractErrors(text)| == |ms|
      && (forall i | 0 <= i < |ms| :: ExtractErrors(text)[i] == text[ms[i].start..ms[i].end])
      && (forall i | 0 <= i < |ms| - 1 :: ms[i].end <= ms[i + 1].start)
  {
    var ms := FindAll(Diagnostic(Error), text);
    forall i | 0 <= i < |ms| ensures ExtractErrors(text)[i] == text[ms[i].start..ms[i].end] {
      ItemShape(Error, text, i);
    }
    FindAllOrdered(Diagnostic(Error), text);
  }

  /** Text in which the level's tag never occurs has no items of that level. */
  lemma UntaggedTextHasNoItems(level: Level, text: string)
    requires forall p: nat | p <= |text| :: !StartsAt(text, p, Tag(level))
    ensures Items(level, text) == []
  {
    forall p | 0 <= p < |text| ensures MatchAt(Diagnostic(level), text, p).None? {
      HitShape(level, text, p);
      assert !StartsAt(text, p + |TimestampTemplate|, Tag(level));
    }
    FindAllNone(Diagnostic(level), text);
  }

  /* ---------------------------------------------------------------------- */
  /* Reading back a written log                                             */
  /* ---------------------------------------------------------------------- */

  /** A line of a job's output: one the job logged at the searched level,
      with its timestamp and message, or any other line. */
  datatype LogLine = Logged(stamp: string, message: string) | Other(text: string)

  /** A line as it can appear in a log searched for `level`: a logged line
      has a timestamp and a one-line message; any other line is one line
      that does not carry the level's tag. */
  predicate Writable(level: Level, line: LogLine) {
    match line
    case Logged(stamp, message) =>
      FitsTemplate(stamp, TimestampTemplate) && |message| > 0 && '\n' !in message
    case Other(text) =>
      '\n' !in text && forall p: nat | p <= |text| :: !StartsAt(text, p, Tag(level))
  }

  /** The text of a line, without its line break. */
  function LineText(level: Level, line: LogLine): (text: string) {
    match line
    case Logged(stamp, message) => stamp + Tag(level) + message
    case Other(text) => text
  }

  /** A log: every line followed by a line break. */
  function LogText(level: Level, lines: seq<LogLine>): (text: string) {
    if |lines| == 0 then "" else LineText(level, lines[0]) + "\n" + LogText(level, lines[1..])
  }

  /** What the search should read from one line: the message of a logged
      warning, or the whole text of a logged error line, and nothing from
      any other line. */
  function LineItems(level: Level, line: LogLine): (items: seq<string>) {
    match line
    case Logged(_, message) => [if level == Warning then message else LineText(level, line)]
    case Other(_) => []
  }

  /** What the search should read from the log: the items of its lines, in
      log order. */
  function Expected(level: Level, lines: seq<LogLine>): (items: seq<string>) {
    if |lines| == 0 then [] else LineItems(level, lines[0]) + Expected(level, lines[1..])
  }

  /** Where the parts of a logged line and what follows lie. */
  lemma LoggedSlices(level: Level, stamp: string, message: string, tail: string, t: string)
    requires Writable(level, Logged(stamp, message))
    requires t == stamp + Tag(level) + message + "\n" + tail
    ensures var body := |stamp| + |Tag(level)|;
      var k := body + |message|;
      && |stamp| == |TimestampTemplate|
      && k < |t| && t[k] == '\n' && t[k + 1..] == tail
      && t[..|stamp|] == stamp
      && StartsAt(t, |stamp|, Tag(level))
      && t[body..k] == message
      && t[..k] == stamp + Tag(level) + message
      && (forall j | body <= j < k :: t[j] != '\n')
  {
    var tag := Tag(level);
    var body := |stamp| + |tag|;
    var k := body + |message|;
    var a := stamp + tag + message;
    ThreeParts(a, "\n", tail);
    assert t[k] == t[k..k + 1][0];
    ThreeParts(stamp, tag, message);
    assert a[body..k] == a[body..];
    SliceOfSlice(t, 0, k, 0, |stamp|);
    SliceOfSlice(t, 0, k, |stamp|, body);
    SliceOfSlice(t, 0, k, body, k);
    forall j | body <= j < k ensures t[j] != '\n' {
      assert t[j] == a[j] == message[j - body];
    }
  }

  /** The pattern matches a whole line at the start of the text: a
      timestamp, the level's tag and a non-empty rest, up to the line break. */
  lemma LineMatch(level: Level, t: string, k: nat, item: string)
    requires |TimestampTemplate| + |Tag(level)| < k < |t| && t[k] == '\n'
    requires FitsTemplate(t[..|TimestampTemplate|], TimestampTemplate)
    requires StartsAt(t, |TimestampTemplate|, Tag(level))
    requires forall j | |TimestampTemplate| + |Tag(level)| <= j < k :: t[j] != '\n'
    requires item == if level == Warning then t[|TimestampTemplate| + |Tag(level)|..k] else t[..k]
    ensures MatchAt(Diagnostic(level), t, 0) == Some(Match(0, k, [item]))
  {
    assert t[0..] == t;
    LineEndIs(t, |TimestampTemplate| + |Tag(level)|, k);
  }

  /** A search that hits a whole line at the start of the text reads the
      hit's item, skips the line break, and goes on as over the rest. */
  lemma LineHit(level: Level, t: string, k: nat, item: string, tail: string)
    requires k < |t| && t[k] == '\n' && t[k + 1..] == tail
    requires MatchAt(Diagnostic(level), t, 0) == Some(Match(0, k, [item]))
    ensures FindAll(Diagnostic(level), t) == [Match(0, k, [item])] + FindAllFrom(Diagnostic(level), t, k + 1)
    ensures Items(level, t) == [item] + Items(level, tail)
  {
    var m := Match(0, k, [item]);
    var after := FindAllFrom(Diagnostic(level), t, k + 1);
    FindAllFromHit(Diagnostic(level), t, 0);
    NewlineMiss(Diagnostic(level), t, k);
    FindAllFromMiss(Diagnostic(level), t, k);
    FindAllRest(Diagnostic(level), t, k + 1, tail);
    SameGroupsGroup(after, FindAll(Diagnostic(level), tail), 0);
    assert Group([m] + after, 0) == [item] + Group(after, 0);
  }

  /** No diagnostic starts inside a line that lacks the level's tag. */
  lemma OtherMiss(level: Level, x: string, tail: string, t: string, p: nat)
    requires Writable(level, Other(x))
    requires t == x + "\n" + tail
    requires p <= |x|
    ensures MatchAt(Diagnostic(level), t, p).None?
  {
    var q := p + |TimestampTemplate|;
    if MatchAt(Diagnostic(level), t, p).Some? {
      HitHead(level, t, p);
      HitLine(level, t, p);
      assert t[|x|] == '\n';
      assert t[..|x|] == x;
      StartsAtInPrefix(t, x, q, Tag(level));
    }
  }

  /** The search skips a stretch of positions where nothing matches. */
  lemma {:induction false} SkipMisses(level: Level, t: string, p: nat, q: nat)
    requires p <= q <= |t|
    requires forall r | p <= r < q :: MatchAt(Diagnostic(level), t, r).None?
    ensures FindAllFrom(Diagnostic(level), t, p) == FindAllFrom(Diagnostic(level), t, q)
    decreases q - p
  {
    if p < q {
      FindAllFromMiss(Diagnostic(level), t, p);
      SkipMisses(level, t, p + 1, q);
    }
  }

  /** The search over another line and what follows finds what it finds
      over what follows. */
  lemma OtherLine(level: Level, x: string, tail: string, t: string)
    requires Writable(level, Other(x))
    requires t == x + "\n" + tail
    ensures SameGroups(FindAll(Diagnostic(level), t), FindAll(Diagnostic(level), tail))
  {
    forall r | 0 <= r < |x| + 1 ensures MatchAt(Diagnostic(level), t, r).None? {
      OtherMiss(level, x, tail, t, r);
    }
    SkipMisses(level, t, 0, |x| + 1);
    assert t[|x| + 1..] == tail && tail[0..] == tail;
    FindAllFromLocal(Diagnostic(level), t, |x| + 1, tail, 0);
  }

  /** The items read from a logged line and what follows are the line's
      item and the items of what follows. */
  lemma ItemsOfLogged(level: Level, stamp: string, message: string, tail: string)
    requires Writable(level, Logged(stamp, message))
    ensures Items(level, stamp + Tag(level) + message + "\n" + tail) ==
      [if level == Warning then message else stamp + Tag(level) + message] + Items(level, tail)
  {
    var t := stamp + Tag(level) + message + "\n" + tail;
    var k := |stamp| + |Tag(level)| + |message|;
    var item := if level == Warning then message else stamp + Tag(level) + message;
    LoggedSlices(level, stamp, message, tail, t);
    LineMatch(level, t, k, item);
    LineHit(level, t, k, item, tail);
  }

  /** The items read from another line and what follows are the items of
      what follows. */
  lemma ItemsOfOther(level: Level, x: string, tail: string)
    requires Writable(level, Other(x))
    ensures Items(level, x + "\n" + tail) == Items(level, tail)
  {
    var t := x + "\n" + tail;
    OtherLine(level, x, tail, t);
    SameGroupsGroup(FindAll(Diagnostic(level), t), FindAll(Diagnostic(level), tail), 0);
  }

  /** The items read from a line and what follows are the line's item, if
      any, and the items of what follows. */
  lemma ItemsOfLine(level: Level, line: LogLine, tail: string)
    requires Writable(level, line)
    ensures Items(level, LineText(level, line) + "\n" + tail) == LineItems(level, line) + Items(level, tail)
  {
    match line
    case Logged(stamp, message) =>
      ItemsOfLogged(level, stamp, message, tail);
    case Other(x) =>
      ItemsOfOther(level, x, tail);
  }

  /** A search of a written log reads back exactly the logged items, in log
      order, and nothing from the other lines. */
  lemma {:induction false} ItemsOfLog(level: Level, lines: seq<LogLine>)
    requires forall i | 0 <= i < |lines| :: Writable(level, lines[i])
    ensures Items(level, LogText(level, lines)) == Expected(level, lines)
    decreases |lines|
  {
    if |lines| == 0 {
      assert FindAll(Diagnostic(level), "") == [];
    } else {
      var tail := LogText(level, lines[1..]);
      ItemsOfLine(level, lines[0], tail);
      ItemsOfLog(level, lines[1..]);
    }
  }

  /* ---------------------------------------------------------------------- */
  /* The report fields                                                      */
  /* ---------------------------------------------------------------------- */

  /** Line pieces joined by line breaks, in any order a set may list the
      distinct ones: the text is empty exactly when there are no items, and
      otherwise its lines are the distinct items, each exactly once. */
  lemma ArrangedLines(ys: seq<string>, items: seq<string>)
    requires IsArrangement(ys, items)
    ensures (forall i | 0 <= i < |items| :: LinePiece(items[i])) ==>
      && (Join(ys, "\n") == "" <==> |items| == 0)
      && (|items| > 0 ==> IsArrangement(Split(Join(ys, "\n"), '\n'), items))
  {
    if |items| > 0 && forall i | 0 <= i < |items| :: LinePiece(items[i]) {
      assert items[0] in ys;
      forall j | 0 <= j < |ys| ensures |ys[j]| > 0 && '\n' !in ys[j] {
        var i :| 0 <= i < |items| && items[i] == ys[j];
        assert LinePiece(items[i]);
      }
      JoinHead(ys, "\n");
      SplitJoin(ys, '\n');
    }
  }

  /** Line pieces glued without a separator, in any order a set may list
      the distinct ones: the text is empty exactly when there are no items,
      every item occurs in it, and it is the line-per-item text with its
      line breaks deleted. */
  lemma ArrangedGlue(ys: seq<string>, items: seq<string>)
    requires IsArrangement(ys, items)
    ensures forall i | 0 <= i < |items| :: Occurs(Join(ys, ""), items[i])
    ensures (forall i | 0 <= i < |items| :: LinePiece(items[i])) ==>
      && (Join(ys, "") == "" <==> |items| == 0)
      && Join(ys, "") == DeleteAll(Join(ys, "\n"), "\n")
  {
    forall i | 0 <= i < |items| ensures Occurs(Join(ys, ""), items[i]) {
      var j :| 0 <= j < |ys| && ys[j] == items[i];
      JoinPiece(ys, "", j);
    }
    if forall i | 0 <= i < |items| :: LinePiece(items[i]) {
      forall j | 0 <= j < |ys| ensures |ys[j]| > 0 && '\n' !in ys[j] {
        var i :| 0 <= i < |items| && items[i] == ys[j];
        assert LinePiece(items[i]);
      }
      if |items| > 0 {
        assert items[0] in ys;
        JoinHead(ys, "");
      }
      JoinDropSeparator(ys, '\n');
    }
  }

  /** A report field that lists `items` one per line: empty exactly when
      there are no items, and otherwise its lines are the distinct items,
      each exactly once. */
  predicate ListsLines(field: string, items: seq<string>) {
    && (field == "" <==> items == [])
    && (items != [] ==> IsArrangement(Split(field, '\n'), items))
  }

  /** `"\n".join(list(set(items)))`, with the order of first occurrence
      standing in for the set's iteration order. For line pieces it lists
      the items one per line. */
  function LinesField(items: seq<string>): (field: string)
    ensures (forall i | 0 <= i < |items| :: LinePiece(items[i])) ==> ListsLines(field, items)
  {
    ArrangedLines(Dedup(items), items);
    Join(Dedup(items), "\n")
  }

  /** The `warnings` field of a job: empty exactly when there is no
      warning, and otherwise every distinct warning on a line of its own,
      once. */
  function WarningsField(out: string): (field: string)
    ensures ListsLines(field, Warnings(out))
  {
    LinesField(Warnings(out))
  }

  /** The `errors_out_file` field of a job: empty exactly when there is no
      error, and otherwise every distinct error line once. */
  function ErrorsOutField(out: string): (field: string)
    ensures ListsLines(field, ExtractErrors(out))
  {
    LinesField(ExtractErrors(out))
  }

  /** The `errors_err_file` field of a job: its distinct errors glued
      together without a separator. It is empty exactly when the err file
      has no error, every error occurs in it, and it is the line-per-error
      field with its line breaks deleted. */
  function ErrorsErrField(err: string): (field: string)
    ensures field == "" <==> ExtractErrors(err) == []
    ensures forall i | 0 <= i < |ExtractErrors(err)| :: Occurs(field, ExtractErrors(err)[i])
    ensures field == DeleteAll(LinesField(ExtractErrors(err)), "\n")
  {
    var es := ExtractErrors(err);
    ArrangedGlue(Dedup(es), es);
    Join(Dedup(es), "")
  }

  /** Gluing errors without a separator loses the line boundaries: an err
      file with two different error lines and one whose only error line is
      the two glued together can give the same field. The glued field is
      the join of one order Python's `set` may list the two errors in, and
      it is the field of the first-occurrence order the model uses. */
  lemma ErrorsErrFieldMergesLines(stamp: string, x: string, y: string)
    requires Writable(Error, Logged(stamp, x)) && Writable(Error, Logged(stamp, y))
    requires x != y
    ensures var l1 := stamp + Tag(Error) + x;
      var l2 := stamp + Tag(Error) + y;
      && ExtractErrors(LogText(Error, [Logged(stamp, x), Logged(stamp, y)])) == [l1, l2]
      && ExtractErrors(LogText(Error, [Logged(stamp, x + stamp + Tag(Error) + y)])) == [l1 + l2]
    ensures exists ys: seq<string> | IsArrangement(ys, ExtractErrors(LogText(Error, [Logged(stamp, x), Logged(stamp, y)]))) ::
      Join(ys, "") == ErrorsErrField(LogText(Error, [Logged(stamp, x + stamp + Tag(Error) + y)]))
    ensures ErrorsErrField(LogText(Error, [Logged(stamp, x), Logged(stamp, y)])) ==
      ErrorsErrField(LogText(Error, [Logged(stamp, x + stamp + Tag(Error) + y)]))
  {
    var l1 := stamp + Tag(Error) + x;
    var l2 := stamp + Tag(Error) + y;
    TwoErrorLines(stamp, x, y);
    GluedLine(stamp, x, y);
    OneErrorLine(stamp, x + stamp + Tag(Error) + y);
    GluedText(stamp, x, y);
    assert l1 != l2 by {
      assert l1[|stamp + Tag(Error)|..] == x && l2[|stamp + Tag(Error)|..] == y;
    }
    GluedField(l1, l2);
    var errors := ExtractErrors(LogText(Error, [Logged(stamp, x), Logged(stamp, y)]));
    assert IsArrangement(Dedup(errors), errors);
  }

  /** Two different items glued without a separator give the same text as
      their concatenation alone. */
  lemma GluedField(l1: string, l2: string)
    requires l1 != l2
    ensures Join(Dedup([l1, l2]), "") == Join(Dedup([l1 + l2]), "")
  {
    DedupPair(l1, l2);
    assert Dedup([l1 + l2]) == [l1 + l2];
    assert Join([l1, l2], "") == l1 + "" + l2 == l1 + l2;
  }

  /** The errors of a log of two error lines are the two lines. */
  lemma TwoErrorLines(stamp: string, x: string, y: string)
    requires Writable(Error, Logged(stamp, x)) && Writable(Error, Logged(stamp, y))
    ensures Expected(Error, [Logged(stamp, x), Logged(stamp, y)]) == [stamp + Tag(Error) + x, stamp + Tag(Error) + y]
    ensures ExtractErrors(LogText(Error, [Logged(stamp, x), Logged(stamp, y)])) == [stamp + Tag(Error) + x, stamp + Tag(Error) + y]
  {
    var lines := [Logged(stamp, x), Logged(stamp, y)];
    assert lines[1..] == [Logged(stamp, y)];
    assert Expected(Error, [Logged(stamp, y)]) == [stamp + Tag(Error) + y];
    ItemsOfLog(Error, lines);
  }

  /** The errors of a log of one error line are that line. */
  lemma OneErrorLine(stamp: string, x: string)
    requires Writable(Error, Logged(stamp, x))
    ensures ExtractErrors(LogText(Error, [Logged(stamp, x)])) == [stamp + Tag(Error) + x]
  {
    ItemsOfLog(Error, [Logged(stamp, x)]);
    assert Expected(Error, [Logged(stamp, x)]) == [stamp + Tag(Error) + x];
  }

  /** Two messages glued with a timestamp and the error tag make a message
      that can be written on one line. */
  lemma GluedLine(stamp: string, x: string, y: string)
    requires Writable(Error, Logged(stamp, x)) && Writable(Error, Logged(stamp, y))
    ensures Writable(Error, Logged(stamp, x + stamp + Tag(Error) + y))
  {
    StampHasNoBreak(stamp);
    assert '\n' !in Tag(Error);
  }

  /** A timestamp holds no line break. */
  lemma StampHasNoBreak(stamp: string)
    requires FitsTemplate(stamp, TimestampTemplate)
    ensures '\n' !in stamp
  {
    forall k | 0 <= k < |stamp| ensures stamp[k] != '\n' {
      assert TimestampTemplate[k] != '\n';
    }
  }

  /** The line of the glued message is the two lines one after the other. */
  lemma GluedText(stamp: string, x: string, y: string)
    ensures stamp + Tag(Error) + (x + stamp + Tag(Error) + y) == (stamp + Tag(Error) + x) + (stamp + Tag(Error) + y)
  {
  }
}
