/** The resource figures read from a job's HTCondor accounting log
    (`match_log_file_content`): a fixed catalog of thirteen fields, each
    searched for with its own pattern, each set to the last value found or
    left missing. */
module AccountingLog {
  import opened Wrappers
  import opened Text
  import opened Scanner
  import opened Patterns

  /** A field of the record: never found (the tool's `NaN`), or the text of
      the last value found. */
  datatype FieldValue = Missing | Val(text: string)

  /** Where a field's findings come from: one of the simple patterns the
      model scans for itself, or one of the eight usage patterns, whose
      `findall` results are an input of the model. */
  datatype Source = Scanned(pattern: FieldPattern) | UsageChain

  /** `Job terminated.\n\s+\((\d+)\)` */
  const JobTerminated: FieldPattern :=
    FieldPattern([Lit("Job terminated"), AnyButNewline, Lit("\n"), Spaces, Lit("(")], Digit, ")")

  /** `Normal termination \(return value (\d+)\)` */
  const ReturnValue: FieldPattern :=
    FieldPattern([Lit("Normal termination (return value ")], Digit, ")")

  /** `Cpus\s+:\s+([\d.]+)` */
  const Cpus: FieldPattern :=
    FieldPattern([Lit("Cpus"), Spaces, Lit(":"), Spaces], DigitOrDot, "")

  /** `Disk \(KB\)\s+:\s+([\d.]+)` */
  const Disk: FieldPattern :=
    FieldPattern([Lit("Disk (KB)"), Spaces, Lit(":"), Spaces], DigitOrDot, "")

  /** `Memory \(MB\)\s+:\s+([\d.]+)` */
  const Memory: FieldPattern :=
    FieldPattern([Lit("Memory (MB)"), Spaces, Lit(":"), Spaces], DigitOrDot, "")

  /** The field names, in the order the tool lists them. */
  const FieldNames: seq<string> := [
    "job_terminated", "return_value", "CPUs", "disk_in_kb", "memory_in_mb",
    "run_remote_usage_usr", "run_remote_usage_sys",
    "run_local_usage_usr", "run_local_usage_sys",
    "total_remote_usage_usr", "total_remote_usage_sys",
    "total_local_usage_usr", "total_local_usage_sys"]

  /** The catalog: every field name with the source of its values. */
  const Catalog: map<string, Source> := map[
    "job_terminated" := Scanned(JobTerminated),
    "return_value" := Scanned(ReturnValue),
    "CPUs" := Scanned(Cpus),
    "disk_in_kb" := Scanned(Disk),
    "memory_in_mb" := Scanned(Memory),
    "run_remote_usage_usr" := UsageChain,
    "run_remote_usage_sys" := UsageChain,
    "run_local_usage_usr" := UsageChain,
    "run_local_usage_sys" := UsageChain,
    "total_remote_usage_usr" := UsageChain,
    "total_remote_usage_sys" := UsageChain,
    "total_local_usage_usr" := UsageChain,
    "total_local_usage_sys" := UsageChain]

  /** The catalog's names are the listed ones. */
  lemma CatalogKeys()
    ensures Catalog.Keys == set i | 0 <= i < |FieldNames| :: FieldNames[i]
  {
    NamesInCatalog();
    CatalogInNames();
  }

  /** Every listed name is in the catalog. */
  lemma NamesInCatalog()
    ensures forall i | 0 <= i < |FieldNames| :: FieldNames[i] in Catalog
  {
  }

  /** Every catalog name is listed. */
  lemma CatalogInNames()
    ensures forall f | f in Catalog :: f in set i | 0 <= i < |FieldNames| :: FieldNames[i]
  {
    forall f | f in Catalog ensures exists i | 0 <= i < |FieldNames| :: FieldNames[i] == f {
      if f == "job_terminated" { assert FieldNames[0] == f; }
      else if f == "return_value" { assert FieldNames[1] == f; }
      else if f == "CPUs" { assert FieldNames[2] == f; }
      else if f == "disk_in_kb" { assert FieldNames[3] == f; }
      else if f == "memory_in_mb" { assert FieldNames[4] == f; }
      else if f == "run_remote_usage_usr" { assert FieldNames[5] == f; }
      else if f == "run_remote_usage_sys" { assert FieldNames[6] == f; }
      else if f == "run_local_usage_usr" { assert FieldNames[7] == f; }
      else if f == "run_local_usage_sys" { assert FieldNames[8] == f; }
      else if f == "total_remote_usage_usr" { assert FieldNames[9] == f; }
      else if f == "total_remote_usage_sys" { assert FieldNames[10] == f; }
      else if f == "total_local_usage_usr" { assert FieldNames[11] == f; }
      else { assert FieldNames[12] == f; }
    }
  }

  /** The catalog holds exactly the thirteen listed names, no two alike. */
  lemma CatalogFields()
    ensures Catalog.Keys == set i | 0 <= i < |FieldNames| :: FieldNames[i]
    ensures |FieldNames| == 13 && NoDuplicates(FieldNames)
    ensures |Catalog| == 13
  {
    CatalogKeys();
    forall i, j | 0 <= i < j < |FieldNames| ensures FieldNames[i] != FieldNames[j] {
      FieldNamesDiffer(i, j);
    }
    DistinctCount(FieldNames);
  }

  /** Two listed names differ: in length, or else at a telling position. */
  lemma FieldNamesDiffer(i: nat, j: nat)
    requires i < j < |FieldNames|
    ensures FieldNames[i] != FieldNames[j]
  {
    var a := FieldNames[i];
    var b := FieldNames[j];
    if i == 1 && j == 4 {
      assert a[0] != b[0];
    } else if i == 5 && j == 6 {
      assert a[17] != b[17];
    } else if i == 7 && j == 8 {
      assert a[16] != b[16];
    } else if i == 9 && j == 10 {
      assert a[19] != b[19];
    } else if i == 11 && j == 12 {
      assert a[18] != b[18];
    } else {
      assert |a| != |b|;
    }
  }


  /** A duplicate-free sequence has as many distinct items as it is long. */
  lemma {:induction false} DistinctCount(xs: seq<string>)
    requires NoDuplicates(xs)
    ensures |set i | 0 <= i < |xs| :: xs[i]| == |xs|
    decreases |xs|
  {
    if |xs| > 0 {
      var init := xs[..|xs| - 1];
      assert NoDuplicates(init);
      DistinctCount(init);
      var a := set i | 0 <= i < |init| :: init[i];
      var b := set i | 0 <= i < |xs| :: xs[i];
      assert b == a + {xs[|xs| - 1]};
      assert xs[|xs| - 1] !in a;
    }
  }

  /** What `re.findall` returns for each of the eight usage patterns, keyed
      by field name; a field without an entry had no match. */
  type UsageFindings = map<string, seq<string>>

  /** The usage capture group `(\d{2}:\d{2}:\d{2})`, with 'd' for a digit. */
  const UsageTemplate: string := "dd:dd:dd"

  /** Usage findings as the usage patterns produce them: every capture is a
      `dd:dd:dd` time. */
  predicate UsageShaped(usage: UsageFindings) {
    forall f | f in usage :: forall i | 0 <= i < |usage[f]| :: FitsTemplate(usage[f][i], UsageTemplate)
  }

  /** The values `findall` returns for a scanned field: each is a non-empty
      run of the pattern's value class. */
  function FieldFindings(fp: FieldPattern, log: string): (xs: seq<string>)
    ensures forall i | 0 <= i < |xs| :: |xs[i]| > 0 && AllIn(xs[i], fp.value)
  {
    var ms := FindAll(Field(fp), log);
    forall i | 0 <= i < |ms| ensures |ms[i].groups[0]| > 0 && AllIn(ms[i].groups[0], fp.value) {
      FindAllHit(Field(fp), log, i);
      FieldPrefixShape(fp, log[ms[i].start..]);
    }
    Group(ms, 0)
  }

  /** The `findall` result for a catalog field. */
  function Findings(field: string, log: string, usage: UsageFindings): (xs: seq<string>)
    requires field in Catalog
  {
    match Catalog[field]
    case Scanned(fp) => FieldFindings(fp, log)
    case UsageChain => if field in usage then usage[field] else []
  }

  /** `[match[-1]] if match else NaN`: the last item, or missing. */
  function LastMatch(xs: seq<string>): (v: FieldValue)
    ensures v.Missing? <==> |xs| == 0
    ensures v.Val? ==> v.text == xs[|xs| - 1]
  {
    if |xs| == 0 then Missing else Val(xs[|xs| - 1])
  }

  /** `match_log_file_content`: every catalog field, set to its last
      finding or left missing. */
  function ExtractAccounting(log: string, usage: UsageFindings): (record: map<string, FieldValue>)
    ensures record.Keys == Catalog.Keys
  {
    map f | f in Catalog :: LastMatch(Findings(f, log, usage))
  }

  /** `pd.DataFrame(log_file_dict)`: a frame exists only when some field
      was found. A record of thirteen missing values holds no list to give
      the frame its length, and pandas refuses to build it (`None`). */
  function MatchLogFile(log: string, usage: UsageFindings): (r: Option<map<string, FieldValue>>)
    ensures r.None? <==> forall f | f in Catalog :: |Findings(f, log, usage)| == 0
    ensures r.Some? ==> r.value == ExtractAccounting(log, usage)
  {
    var record := ExtractAccounting(log, usage);
    if forall f | f in record :: record[f].Missing? then None else Some(record)
  }

  /** An empty log, with no usage findings, gives no frame: the tool stops
      on a job that has not written its accounting log yet. */
  lemma EmptyLogHasNoFrame()
    ensures MatchLogFile("", map[]) == None
  {
    forall f | f in Catalog ensures |Findings(f, "", map[])| == 0 {
      if Catalog[f].Scanned? {
        assert FindAll(Field(Catalog[f].pattern), "") == [];
      }
    }
  }

  /** The text in front of a CPU figure: `Cpus`, whitespace, ':' and
      whitespace. */
  function CpusHead(sp1: string, sp2: string): (head: string)
    ensures |head| == 5 + |sp1| + |sp2|
  {
    "Cpus" + sp1 + ":" + sp2
  }

  /** A CPU line as HTCondor writes it: the head and the figure. */
  function CpusLine(sp1: string, sp2: string, v: string): (line: string)
    ensures |line| == 5 + |sp1| + |sp2| + |v|
  {
    CpusHead(sp1, sp2) + v
  }

  /** The CPU figure of the log's only CPU line is the record's `CPUs`
      value, whatever precedes the line and whatever follows it, as long as
      the figure is not run on. */
  lemma CpusLineRead(pre: string, sp1: string, sp2: string, v: string, post: string, usage: UsageFindings)
    requires forall q | 0 <= q <= |pre| :: !StartsAt(pre, q, "Cpus")
    requires |sp1| > 0 && AllIn(sp1, Space) && |sp2| > 0 && AllIn(sp2, Space)
    requires |v| > 0 && AllIn(v, DigitOrDot)
    requires |post| == 0 || !InClass(post[0], DigitOrDot)
    requires forall q | 0 <= q <= |post| :: !StartsAt(post, q, "Cpus")
    ensures ExtractAccounting(pre + CpusLine(sp1, sp2, v) + post, usage)["CPUs"] == Val(v)
  {
    var log := pre + CpusLine(sp1, sp2, v) + post;
    CpusLineMatch(pre, sp1, sp2, v, post);
    CpusOnlyMatch(pre, sp1, sp2, v, post);
    FindAllLast(Field(Cpus), log, |pre|);
    CpusFindings(log, usage);
  }

  /** The CPU pattern matches at the start of the CPU line, with the line's
      figure as its value. */
  lemma CpusLineMatch(pre: string, sp1: string, sp2: string, v: string, post: string)
    requires |sp1| > 0 && AllIn(sp1, Space) && |sp2| > 0 && AllIn(sp2, Space)
    requires |v| > 0 && AllIn(v, DigitOrDot)
    requires |post| == 0 || !InClass(post[0], DigitOrDot)
    ensures var log := pre + CpusLine(sp1, sp2, v) + post;
      |pre| < |log| && MatchAt(Field(Cpus), log, |pre|) == Some(Match(|pre|, |pre| + 5 + |sp1| + |sp2| + |v|, [v]))
  {
    var log := pre + CpusLine(sp1, sp2, v) + post;
    var p := |pre|;
    CpusLineAt(pre, sp1, sp2, v, post);
    CpusPrefix(log[p..], sp1, sp2, v, post);
    FieldMatchAt(Cpus, log, p, 5 + |sp1| + |sp2| + |v|, v);
  }

  /** The record's `CPUs` value is the last CPU figure found. */
  lemma CpusFindings(log: string, usage: UsageFindings)
    ensures ExtractAccounting(log, usage)["CPUs"] == LastMatch(Group(FindAll(Field(Cpus), log), 0))
  {
    assert Catalog["CPUs"] == Scanned(Cpus);
  }

  /** The CPU pattern matches a CPU line at the start of the text, with
      the line's figure as its value. */
  lemma CpusPrefix(u: string, sp1: string, sp2: string, v: string, post: string)
    requires |sp1| > 0 && AllIn(sp1, Space) && |sp2| > 0 && AllIn(sp2, Space)
    requires |v| > 0 && AllIn(v, DigitOrDot)
    requires |post| == 0 || !InClass(post[0], DigitOrDot)
    requires u == CpusHead(sp1, sp2) + (v + post)
    ensures FieldPrefix(Cpus, u) == Some(Match(0, 5 + |sp1| + |sp2| + |v|, [v]))
  {
    var q := 5 + |sp1| + |sp2|;
    CpusValueAt(u, sp1, sp2, v, post);
    CpusLead(u, sp1, sp2, v + post);
    FigurePrefixOf(Cpus, u, q, v, post);
  }

  /** A CPU line keeps its place in the log. */
  lemma CpusLineAt(pre: string, sp1: string, sp2: string, v: string, post: string)
    ensures (pre + CpusLine(sp1, sp2, v) + post)[|pre|..] == CpusHead(sp1, sp2) + (v + post)
  {
    var head := CpusHead(sp1, sp2);
    assert pre + CpusLine(sp1, sp2, v) + post == pre + (head + (v + post));
  }

  /** The figure of a CPU line follows its lead. */
  lemma CpusValueAt(u: string, sp1: string, sp2: string, v: string, post: string)
    requires u == CpusHead(sp1, sp2) + (v + post)
    ensures u[5 + |sp1| + |sp2|..] == v + post
  {
    CpusLayout(sp1, sp2, v + post);
  }

  /** The lead of the CPU pattern spans `Cpus`, both runs of whitespace and
      the ':' between them. */
  lemma CpusLead(u: string, sp1: string, sp2: string, w: string)
    requires |sp1| > 0 && AllIn(sp1, Space) && |sp2| > 0 && AllIn(sp2, Space)
    requires |w| > 0 && !IsSpace(w[0])
    requires u == CpusHead(sp1, sp2) + w
    ensures LeadEnd(Cpus.lead, u, 0) == Some(5 + |sp1| + |sp2|)
  {
    var a := 4 + |sp1|;
    var b := a + 1 + |sp2|;
    CpusLayout(sp1, sp2, w);
    assert StartsAt(u, a, ":");
    LeadOfFigure("Cpus", ":", u, a, b);
    CpusLeadIs(u, b);
  }

  lemma CpusLeadIs(u: string, b: nat)
    requires LeadEnd([Lit("Cpus"), Spaces, Lit(":"), Spaces], u, 0) == Some(b)
    ensures LeadEnd(Cpus.lead, u, 0) == Some(b)
  {
  }

  /** Where the parts of a CPU line lie. */
  lemma CpusLayout(sp1: string, sp2: string, w: string)
    ensures var u := CpusHead(sp1, sp2) + w;
      var a := 4 + |sp1|;
      && StartsAt(u, 0, "Cpus")
      && (forall k | 4 <= k < a :: u[k] == sp1[k - 4])
      && u[a] == ':'
      && (forall k | a + 1 <= k < a + 1 + |sp2| :: u[k] == sp2[k - a - 1])
      && u[a + 1 + |sp2|..] == w
  {
    var u := CpusHead(sp1, sp2) + w;
    CpusFront(sp1, sp2, w);
    RunThen(u, 5 + |sp1|, sp2, w);
  }

  /** The name, the first spaces and the colon of a CPU line. */
  lemma CpusFront(sp1: string, sp2: string, w: string)
    ensures var u := CpusHead(sp1, sp2) + w;
      var a := 4 + |sp1|;
      && StartsAt(u, 0, "Cpus")
      && (forall k | 4 <= k < a :: u[k] == sp1[k - 4])
      && u[a] == ':'
      && u[a + 1..] == sp2 + w
  {
    var u := CpusHead(sp1, sp2) + w;
    var a := 4 + |sp1|;
    var r1 := sp1 + (":" + (sp2 + w));
    assert u == "Cpus" + r1;
    assert u[4..] == r1;
    assert r1[|sp1|..] == ":" + (sp2 + w);
    forall k | 4 <= k < a ensures u[k] == sp1[k - 4] {
      assert u[k] == r1[k - 4];
    }
  }

  /** Where `x` and then `y` follow from `p` on, the characters from `p` are
      those of `x`, and `y` is what is left after them. */
  lemma RunThen(u: string, p: nat, x: string, y: string)
    requires p <= |u| && u[p..] == x + y
    ensures forall k | p <= k < p + |x| :: u[k] == x[k - p]
    ensures p + |x| <= |u| && u[p + |x|..] == y
  {
    SuffixParts(u, p, x, y);
    forall k | p <= k < p + |x| ensures u[k] == x[k - p] {
      assert u[k] == u[p..][k - p];
    }
  }

  /** A CPU match starts with `Cpus`. */
  lemma CpusMatchStart(log: string, q: nat)
    requires q < |log| && MatchAt(Field(Cpus), log, q).Some?
    ensures StartsAt(log, q, "Cpus")
  {
    var u := log[q..];
    assert LeadEnd(Cpus.lead, u, 0).Some?;
    assert StartsAt(u, 0, "Cpus");
    assert log[q..q + 4] == u[..4];
  }

  /** The CPU pattern matches the log only where the CPU line starts. */
  lemma CpusOnlyMatch(pre: string, sp1: string, sp2: string, v: string, post: string)
    requires forall q | 0 <= q <= |pre| :: !StartsAt(pre, q, "Cpus")
    requires AllIn(sp1, Space) && AllIn(sp2, Space) && AllIn(v, DigitOrDot)
    requires forall q | 0 <= q <= |post| :: !StartsAt(post, q, "Cpus")
    ensures var log := pre + CpusLine(sp1, sp2, v) + post;
      forall q | 0 <= q < |log| && MatchAt(Field(Cpus), log, q).Some? :: q == |pre|
  {
    var log := pre + CpusLine(sp1, sp2, v) + post;
    forall q | 0 <= q < |log| && MatchAt(Field(Cpus), log, q).Some? ensures q == |pre| {
      CpusMatchStart(log, q);
      CpusOnlyAt(pre, sp1, sp2, v, post, q);
    }
  }

  /** In a log with one CPU line, `Cpus` occurs only where that line starts. */
  lemma CpusOnlyAt(pre: string, sp1: string, sp2: string, v: string, post: string, q: nat)
    requires forall q | 0 <= q <= |pre| :: !StartsAt(pre, q, "Cpus")
    requires AllIn(sp1, Space) && AllIn(sp2, Space) && AllIn(v, DigitOrDot)
    requires forall q | 0 <= q <= |post| :: !StartsAt(post, q, "Cpus")
    ensures StartsAt(pre + CpusLine(sp1, sp2, v) + post, q, "Cpus") ==> q == |pre|
  {
    var line := CpusLine(sp1, sp2, v);
    var log := pre + line + post;
    var p := |pre|;
    var r := p + |line|;
    if q + 4 > |log| || q == p {
    } else if q + 4 <= p {
      assert log[q..q + 4] == pre[q..q + 4];
      assert !StartsAt(pre, q, "Cpus");
    } else if q < p {
      assert log[p] == line[0] == 'C';
      assert log[q..q + 4][p - q] == log[p];
    } else if r <= q {
      assert log[q..q + 4] == post[q - r..q - r + 4];
      assert !StartsAt(post, q - r, "Cpus");
    } else {
      assert log[q] == line[q - p];
      LineHasOneC(sp1, sp2, v, q - p);
      assert log[q..q + 4][0] == log[q];
    }
  }

  /** The only 'C' of a CPU line is its first character. */
  lemma LineHasOneC(sp1: string, sp2: string, v: string, j: nat)
    requires AllIn(sp1, Space) && AllIn(sp2, Space) && AllIn(v, DigitOrDot)
    requires 0 < j < |CpusLine(sp1, sp2, v)|
    ensures CpusLine(sp1, sp2, v)[j] != 'C'
  {
    var line := CpusLine(sp1, sp2, v);
    var a := 4 + |sp1|;
    if j < 4 {
    } else if j < a {
      assert line[j] == sp1[j - 4];
    } else if j == a {
    } else if j < a + 1 + |sp2| {
      assert line[j] == sp2[j - a - 1];
    } else {
      assert line[j] == v[j - a - 1 - |sp2|];
    }
  }

  /** A later finding always wins: the value after more findings is the last
      of the new ones, and with no new findings it does not change. */
  lemma LastMatchAppend(xs: seq<string>, ys: seq<string>)
    ensures LastMatch(xs + ys) == if |ys| == 0 then LastMatch(xs) else LastMatch(ys)
  {
    if |ys| == 0 {
      assert xs + ys == xs;
    }
  }

  /** A scanned field keeps its value when text is appended to the log in
      which no match of its pattern starts and which changes no match that
      starts before it: `re.findall` reports the same hits, so the last one
      is the same. */
  lemma AppendKeepsField(a: string, b: string, usage: UsageFindings, f: string)
    requires f in Catalog && Catalog[f].Scanned?
    requires forall q | 0 <= q < |a| :: MatchAt(Field(Catalog[f].pattern), a + b, q) == MatchAt(Field(Catalog[f].pattern), a, q)
    requires forall q | |a| <= q < |a + b| :: MatchAt(Field(Catalog[f].pattern), a + b, q).None?
    ensures ExtractAccounting(a + b, usage)[f] == ExtractAccounting(a, usage)[f]
  {
    FindAllAppend(Field(Catalog[f].pattern), a, b);
  }

  /** A field is missing exactly when nothing was found for it, and
      otherwise holds the last thing found. */
  lemma AccountingValues(log: string, usage: UsageFindings, f: string)
    requires f in Catalog
    ensures var v := ExtractAccounting(log, usage)[f];
      var xs := Findings(f, log, usage);
      && (v.Missing? <==> |xs| == 0)
      && (v.Val? ==> v.text == xs[|xs| - 1])
  {
  }

  /** A scanned field is missing exactly when its pattern matches nowhere in
      the log; this is the only way a scanned field stays missing. */
  lemma ScannedMissing(log: string, usage: UsageFindings, f: string)
    requires f in Catalog && Catalog[f].Scanned?
    ensures ExtractAccounting(log, usage)[f].Missing? <==>
      forall p | 0 <= p < |log| :: MatchAt(Field(Catalog[f].pattern), log, p).None?
  {
    FindAllEmpty(Field(Catalog[f].pattern), log);
  }

  /** A scanned field's value is a non-empty run of its pattern's value class. */
  lemma ScannedShape(log: string, usage: UsageFindings, f: string)
    requires f in Catalog && Catalog[f].Scanned?
    ensures var v := ExtractAccounting(log, usage)[f];
      v.Val? ==> |v.text| > 0 && AllIn(v.text, Catalog[f].pattern.value)
  {
  }

  /** Every character of `s` is a decimal digit or a '.'. */
  predicate DigitsAndDots(s: string) {
    forall k | 0 <= k < |s| :: IsDigit(s[k]) || s[k] == '.'
  }

  /** What the record holds for the scanned fields: the job and return
      codes are non-empty digit strings, the CPU, disk and memory figures
      non-empty strings of digits and dots. */
  lemma ScannedClasses(log: string, usage: UsageFindings)
    ensures var r := ExtractAccounting(log, usage);
      && (r["job_terminated"].Val? ==> |r["job_terminated"].text| > 0 && AllDigits(r["job_terminated"].text))
      && (r["return_value"].Val? ==> |r["return_value"].text| > 0 && AllDigits(r["return_value"].text))
      && (r["CPUs"].Val? ==> |r["CPUs"].text| > 0 && DigitsAndDots(r["CPUs"].text))
      && (r["disk_in_kb"].Val? ==> |r["disk_in_kb"].text| > 0 && DigitsAndDots(r["disk_in_kb"].text))
      && (r["memory_in_mb"].Val? ==> |r["memory_in_mb"].text| > 0 && DigitsAndDots(r["memory_in_mb"].text))
  {
    ScannedEntries();
    CodeField(log, usage, "job_terminated");
    CodeField(log, usage, "return_value");
    FigureField(log, usage, "CPUs");
    FigureField(log, usage, "disk_in_kb");
    FigureField(log, usage, "memory_in_mb");
  }

  /** The catalog entries of the five scanned fields. */
  lemma ScannedEntries()
    ensures Catalog["job_terminated"] == Scanned(JobTerminated)
    ensures Catalog["return_value"] == Scanned(ReturnValue)
    ensures Catalog["CPUs"] == Scanned(Cpus)
    ensures Catalog["disk_in_kb"] == Scanned(Disk)
    ensures Catalog["memory_in_mb"] == Scanned(Memory)
  {
  }

  /** A field scanned as a digit run holds a non-empty digit string. */
  lemma CodeField(log: string, usage: UsageFindings, f: string)
    requires f in Catalog && Catalog[f].Scanned? && Catalog[f].pattern.value == Digit
    ensures var v := ExtractAccounting(log, usage)[f];
      v.Val? ==> |v.text| > 0 && AllDigits(v.text)
  {
    ScannedShape(log, usage, f);
  }

  /** A field scanned as a run of digits and dots holds a non-empty string
      of digits and dots. */
  lemma FigureField(log: string, usage: UsageFindings, f: string)
    requires f in Catalog && Catalog[f].Scanned? && Catalog[f].pattern.value == DigitOrDot
    ensures var v := ExtractAccounting(log, usage)[f];
      v.Val? ==> |v.text| > 0 && DigitsAndDots(v.text)
  {
    ScannedShape(log, usage, f);
  }

  /** Usage figures are `dd:dd:dd` times whenever the usage findings are. */
  lemma UsageShapes(log: string, usage: UsageFindings, f: string)
    requires f in Catalog && Catalog[f].UsageChain?
    requires UsageShaped(usage)
    ensures var v := ExtractAccounting(log, usage)[f];
      v.Val? ==> FitsTemplate(v.text, UsageTemplate)
  {
  }
}
