/** The report the tool assembles (`match_out_file_content` and `main`): one
    row per element, holding the element's key, the accounting record of its
    log file and the status fields of its output and error files, written
    with the delimiter that the report file's extension selects. */
module Junilog {
  import opened Wrappers
  import opened Text
  import opened FileNames
  import opened AccountingLog
  import opened LibVersions
  import opened Diagnostics

  /** The status fields the tool adds next to the library versions. */
  const WarningsKey: string := "warnings"
  const ErrorsOutKey: string := "errors_out_file"
  const ErrorsErrKey: string := "errors_err_file"

  /** The report file used when none is named. */
  const DefaultOutfile: string := "junilog.csv"

  /* ---------------------------------------------------------------------- */
  /* One element                                                            */
  /* ---------------------------------------------------------------------- */

  /** `match_out_file_content`: the library table of the output file, with
      the warnings and out-file errors fields set on top of it. The two
      status fields are always present and win over a library of the same
      name; every other entry is a library's version. The warnings field is
      empty exactly when the output has no warning and otherwise lists each
      distinct warning once, one per line; likewise for its errors. */
  function MatchOutFile(out: string): (d: map<string, string>)
    ensures d.Keys == ExtractLibVersions(out).Keys + {WarningsKey, ErrorsOutKey}
    ensures d[WarningsKey] == WarningsField(out) && d[ErrorsOutKey] == ErrorsOutField(out)
    ensures ListsLines(d[WarningsKey], Warnings(out)) && ListsLines(d[ErrorsOutKey], ExtractErrors(out))
    ensures forall k | k in d && k != WarningsKey && k != ErrorsOutKey ::
      k in ExtractLibVersions(out) && d[k] == ExtractLibVersions(out)[k]
  {
    var t := ExtractLibVersions(out);
    var w := WarningsField(out);
    var x := ErrorsOutField(out);
    SetTwo(t, WarningsKey, w, ErrorsOutKey, x);
    t[WarningsKey := w][ErrorsOutKey := x]
  }

  /** Setting two different keys of a map. */
  lemma SetTwo(t: map<string, string>, k1: string, v1: string, k2: string, v2: string)
    requires k1 != k2
    ensures var d := t[k1 := v1][k2 := v2];
      && d.Keys == t.Keys + {k1, k2}
      && d[k1] == v1 && d[k2] == v2
      && forall k | k in d && k != k1 && k != k2 :: k in t && d[k] == t[k]
  {
  }

  /** What the tool reads for one element: the path of its `.out` file and
      the contents of its `.log`, `.out` and `.err` files, with the usage
      findings of its log. */
  datatype ElementFiles = ElementFiles(outPath: string, log: string, usage: UsageFindings, out: string, err: string)

  /** One report row: the element's key, its accounting record and its
      status fields. */
  datatype Row = Row(key: seq<string>, accounting: map<string, FieldValue>, status: map<string, string>)

  /** The row of one element: the key of its `.out` path, the accounting
      record of its log, and the out-file status with the err-file errors
      field set on top. The status holds the libraries and the three status
      fields; the warnings and out-file errors fields list the distinct
      warnings and errors one per line; the err-file field is empty exactly
      when the err file has no error and holds each of its errors; every
      other entry is a library's version. */
  function ElementRow(e: ElementFiles): (row: Row)
    ensures row.key == ElementKey(e.outPath)
    ensures row.accounting.Keys == Catalog.Keys
    ensures row.accounting == ExtractAccounting(e.log, e.usage)
    ensures row.status.Keys == ExtractLibVersions(e.out).Keys + {WarningsKey, ErrorsOutKey, ErrorsErrKey}
    ensures ListsLines(row.status[WarningsKey], Warnings(e.out))
    ensures ListsLines(row.status[ErrorsOutKey], ExtractErrors(e.out))
    ensures row.status[ErrorsErrKey] == "" <==> ExtractErrors(e.err) == []
    ensures forall i | 0 <= i < |ExtractErrors(e.err)| :: Occurs(row.status[ErrorsErrKey], ExtractErrors(e.err)[i])
    ensures forall k | k in row.status && k != WarningsKey && k != ErrorsOutKey && k != ErrorsErrKey ::
      k in ExtractLibVersions(e.out) && row.status[k] == ExtractLibVersions(e.out)[k]
  {
    var d := MatchOutFile(e.out);
    var x := ErrorsErrField(e.err);
    SetThird(ExtractLibVersions(e.out), d, WarningsKey, ErrorsOutKey, ErrorsErrKey, x);
    Row(ElementKey(e.outPath), ExtractAccounting(e.log, e.usage), d[ErrorsErrKey := x])
  }

  /** Setting a third key on a map that extends `t` by two keys. */
  lemma SetThird(t: map<string, string>, d: map<string, string>, k1: string, k2: string, k3: string, v3: string)
    requires d.Keys == t.Keys + {k1, k2}
    requires forall k | k in d && k != k1 && k != k2 :: k in t && d[k] == t[k]
    ensures var s := d[k3 := v3];
      && s.Keys == t.Keys + {k1, k2, k3}
      && s[k3] == v3
      && (k1 != k3 ==> s[k1] == d[k1])
      && (k2 != k3 ==> s[k2] == d[k2])
      && forall k | k in s && k != k1 && k != k2 && k != k3 :: k in t && s[k] == t[k]
  {
  }

  /** For an output in which junifer printed its library entries between
      the opening banner and the closing line, the row lists exactly the
      printed libraries and the three status fields, and every library that
      is not itself named like a status field holds the version printed
      last for it. */
  lemma RowLibraries(e: ElementFiles, pre: string, entries: seq<(string, string)>, rest: string)
    requires e.out == Rendered(pre, entries, rest)
    requires NoBanner(pre)
    requires forall i | 0 <= i < |entries| :: Printable(entries[i])
    ensures ElementRow(e).status.Keys ==
      (set i | 0 <= i < |entries| :: entries[i].0) + {WarningsKey, ErrorsOutKey, ErrorsErrKey}
    ensures forall i | 0 <= i < |entries| && LastFor(entries, i) ::
      var k := entries[i].0;
      k != WarningsKey && k != ErrorsOutKey && k != ErrorsErrKey ==> ElementRow(e).status[k] == entries[i].1
  {
    RenderRoundTrip(pre, entries, rest);
    LibrariesOfTable(ElementRow(e).status, ExtractLibVersions(e.out), entries, WarningsKey, ErrorsOutKey, ErrorsErrKey);
  }

  /** A status map over the table of `entries` plus three keys lists the
      entries' names and the three keys, and holds each other name's last
      version. */
  lemma LibrariesOfTable(status: map<string, string>, t: map<string, string>, entries: seq<(string, string)>,
                         k1: string, k2: string, k3: string)
    requires LastWins(entries, t)
    requires status.Keys == t.Keys + {k1, k2, k3}
    requires forall k | k in status && k != k1 && k != k2 && k != k3 :: k in t && status[k] == t[k]
    ensures status.Keys == (set i | 0 <= i < |entries| :: entries[i].0) + {k1, k2, k3}
    ensures forall i | 0 <= i < |entries| && LastFor(entries, i) ::
      var k := entries[i].0;
      k != k1 && k != k2 && k != k3 ==> status[k] == entries[i].1
  {
    assert t.Keys == set i | 0 <= i < |entries| :: entries[i].0 by {
      forall k | k in t ensures k in set i | 0 <= i < |entries| :: entries[i].0 {
        var i :| 0 <= i < |entries| && entries[i] == (k, t[k]);
      }
    }
  }

  /* ---------------------------------------------------------------------- */
  /* The report                                                             */
  /* ---------------------------------------------------------------------- */

  /** Why no report is written: an element's accounting log matched none
      of the thirteen patterns (pandas refuses the all-`NaN` record), there
      was no element to concatenate, or the report file's extension selects
      no delimiter. */
  datatype ReportError = NoAccountingValue(key: seq<string>) | NoElements | UnknownFormat(suffix: string)

  /** The rows, in the order the elements were found, and the delimiter to
      write them with. */
  datatype Report = Report(rows: seq<Row>, delimiter: char)

  /** The accounting frame of an element can be built: its log gave some
      field a value. */
  predicate HasFrame(e: ElementFiles) {
    MatchLogFile(e.log, e.usage).Some?
  }

  /** Element `i` is the first one whose accounting frame cannot be built. */
  predicate FirstWithoutFrameAt(elements: seq<ElementFiles>, i: nat) {
    && i < |elements|
    && !HasFrame(elements[i])
    && forall j | 0 <= j < i :: HasFrame(elements[j])
  }

  /** The first position, from `from` on, that holds `false`. */
  function FirstFalse(bs: seq<bool>, from: nat): (r: Option<nat>)
    requires from <= |bs|
    ensures r.None? <==> forall i | from <= i < |bs| :: bs[i]
    ensures r.Some? ==> from <= r.value < |bs| && !bs[r.value]
    ensures r.Some? ==> forall i | from <= i < r.value :: bs[i]
    decreases |bs| - from
  {
    if from == |bs| then None
    else if !bs[from] then Some(from)
    else FirstFalse(bs, from + 1)
  }

  /** Which elements have their accounting frame. */
  function Framed(elements: seq<ElementFiles>): (bs: seq<bool>)
    ensures |bs| == |elements|
    ensures forall i | 0 <= i < |elements| :: bs[i] == HasFrame(elements[i])
  {
    seq(|elements|, i requires 0 <= i < |elements| => HasFrame(elements[i]))
  }

  /** `main` after reading the files: the rows of all elements, or the
      first error the tool meets. The loop over the elements stops at the
      first log without any value (the first element without a frame); the concatenation of no frames fails
      next; the delimiter is looked up last. */
  function BuildReport(elements: seq<ElementFiles>, outfile: string): (r: Result<Report, ReportError>)
    ensures r.Ok? <==>
      && |elements| > 0
      && (forall i | 0 <= i < |elements| :: HasFrame(elements[i]))
      && OutputDelimiter(outfile).Some?
    ensures r.Err? && r.error.NoAccountingValue? <==> exists i | 0 <= i < |elements| :: !HasFrame(elements[i])
    ensures r.Err? && r.error.NoAccountingValue? ==>
      exists i: nat | FirstWithoutFrameAt(elements, i) :: r.error.key == ElementKey(elements[i].outPath)
    ensures r.Err? && r.error == NoElements <==> |elements| == 0
    ensures r.Ok? ==> |r.value.rows| == |elements| && Some(r.value.delimiter) == OutputDelimiter(outfile)
    ensures r.Ok? ==> forall i | 0 <= i < |elements| ::
      r.value.rows[i] == ElementRow(elements[i]) && r.value.rows[i].key == ElementKey(elements[i].outPath)
  {
    match FirstFalse(Framed(elements), 0)
    case Some(i) =>
      assert FirstWithoutFrameAt(elements, i);
      Err(NoAccountingValue(ElementKey(elements[i].outPath)))
    case None => BuildReportTolerant(elements, outfile)
  }

  /** The rows of the elements, in their order. */
  function Rows(elements: seq<ElementFiles>): (rows: seq<Row>)
    ensures |rows| == |elements|
    ensures forall i | 0 <= i < |elements| :: rows[i] == ElementRow(elements[i])
  {
    seq(|elements|, i requires 0 <= i < |elements| => ElementRow(elements[i]))
  }

  /** A job whose accounting log is still empty stops the whole report, for
      every report file name. */
  lemma EmptyLogStopsReport(elements: seq<ElementFiles>, i: nat, outfile: string)
    requires i < |elements| && elements[i].log == "" && elements[i].usage == map[]
    ensures BuildReport(elements, outfile).Err?
    ensures BuildReport(elements, outfile).error.NoAccountingValue?
  {
    EmptyLogHasNoFrame();
    assert !HasFrame(elements[i]);
  }

  /** The report as the tool evidently means it: an element whose log gave
      no value gets a row of missing values, like any other missing field. */
  function BuildReportTolerant(elements: seq<ElementFiles>, outfile: string): (r: Result<Report, ReportError>)
    ensures r.Ok? <==> |elements| > 0 && OutputDelimiter(outfile).Some?
    ensures r.Err? && r.error == NoElements <==> |elements| == 0
    ensures r.Ok? ==> |r.value.rows| == |elements| && Some(r.value.delimiter) == OutputDelimiter(outfile)
    ensures r.Err? ==> !r.error.NoAccountingValue?
    ensures r.Ok? ==> forall i | 0 <= i < |elements| :: r.value.rows[i] == ElementRow(elements[i])
  {
    if |elements| == 0 then Err(NoElements)
    else
      match OutputDelimiter(outfile)
      case None => Err(UnknownFormat(Suffix(BaseName(outfile))))
      case Some(sep) => Ok(Report(Rows(elements), sep))
  }

  /** The two reports differ only where the tool stops: whenever every
      element has a frame they agree, and an element without one still
      gets its row, every accounting field missing. */
  lemma TolerantAgrees(elements: seq<ElementFiles>, outfile: string)
    ensures (forall i | 0 <= i < |elements| :: HasFrame(elements[i])) ==>
      BuildReportTolerant(elements, outfile) == BuildReport(elements, outfile)
    ensures BuildReportTolerant(elements, outfile).Ok? ==>
      forall i | 0 <= i < |elements| && !HasFrame(elements[i]) ::
        forall f | f in Catalog :: BuildReportTolerant(elements, outfile).value.rows[i].accounting[f] == Missing
  {
  }

  /** A report file named with any other extension than ".csv" or ".tsv" is
      refused whenever there are elements and each has a frame, and the
      refusal names its suffix. */
  lemma UnknownFormatRefused(elements: seq<ElementFiles>, outfile: string)
    requires |elements| > 0
    requires forall i | 0 <= i < |elements| :: HasFrame(elements[i])
    requires !(EndsWith(BaseName(outfile), ".csv") || EndsWith(BaseName(outfile), ".tsv"))
    ensures BuildReport(elements, outfile) == Err(UnknownFormat(Suffix(BaseName(outfile))))
  {
  }

  /** The default report file is written with commas whenever the report
      can be built at all. */
  lemma DefaultIsCommaSeparated(elements: seq<ElementFiles>)
    requires |elements| > 0
    requires forall i | 0 <= i < |elements| :: HasFrame(elements[i])
    ensures BuildReport(elements, DefaultOutfile).Ok?
    ensures BuildReport(elements, DefaultOutfile).value.delimiter == ','
  {
    DefaultDelimiter();
  }

  /** The default report file's extension selects a comma, and so it does
      when the path is given with a trailing '/'. */
  lemma DefaultDelimiter()
    ensures OutputDelimiter(DefaultOutfile) == Some(',')
    ensures OutputDelimiter(DefaultOutfile + "/") == Some(',')
  {
    assert '/' !in DefaultOutfile;
    assert DefaultOutfile[|DefaultOutfile| - 4..] == ".csv";
    CsvNameDelimiter(DefaultOutfile);
  }
}
