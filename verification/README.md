# junilog in Dafny

junilog summarises the logs of a junifer pipeline run. Every element the pipeline
processed leaves three files in the run's `logs` directory:

- `junifer_run_<key>.log`: the HTCondor accounting log;
- `junifer_run_<key>.out`: junifer's own status output;
- `junifer_run_<key>.err`: its error output.

The tool reads the three files of each element and extracts values from them
with regular expressions. It writes one table row per element, keyed by the
tokens of the file name. The table goes to a comma- or tab-separated file,
chosen by the report file's extension.

This project models the extraction core of `junilog/junilog.py` and proves
what it guarantees. Each module of the model matches one step of the tool:

| module | what it models |
|---|---|
| `Wrappers` | `Option` and `Result` |
| `Text` | the string operations the tool uses: `str.split`, `str.join`, `str.replace(pat, "")`, line ends, substrings, and the de-duplication `list(set(xs))` |
| `Scanner` | `re.findall` as a left-to-right search: try each position, and after a hit resume at its end. Soundness, completeness, order and locality are proved for any prefix matcher |
| `Patterns` | the regular expressions of the tool as deterministic prefix matchers, and `FindAll` over them |
| `FileNames` | `element_indices_from_filename`, the `pathlib` views it relies on, and the delimiter table |
| `AccountingLog` | `match_log_file_content`: the catalog of thirteen fields and the last-match reduction |
| `LibVersions` | `extract_lib_versions`: the section between the banners and its `name: version` pairs |
| `Diagnostics` | `extract_errors`, the warning search, and the three joined status fields |
| `Junilog` | `match_out_file_content`, the row of one element, and the report with its three error outcomes |

**Why deterministic matchers are faithful.** The model matches eight of the
tool's regular expressions itself: the five accounting field patterns (lines
49-53), the version pair pattern (line 87), and the error and warning patterns
(lines 100 and 113). Each is built from literals, single characters and greedy
runs of one class. In these eight, the item after a run can never start with
a character of that run's class (`\s+:`, `\s+\(`, `(\d+)\)`). Backtracking
into such a run can never help, so a single left-to-right pass decides each
of them. `(\S+):\s(\S+)` is the one place where the greedy run may give back a
character: its last character must be the `:`. The eight usage patterns of
lines 54-61 are not matched by the model (see "## Left out"). The section
pattern of `extract_lib_versions` (lookbehinds around a lazy group of whole
lines) is modelled as written. The section starts after the first opening
banner. It ends at the first position from there on that follows 23 `=` and a
line break.

**Match policy.** The code takes the last match for all thirteen accounting
fields (`junilog/junilog.py:66-70`), and the model does the same
(`AccountingLog.LastMatch`, `AccountingLog.AccountingValues`).

**The joins.** The out-file warnings and errors are joined with `"\n"`
(lines 119 and 123), the err-file errors with `""` (line 154). The model
reproduces both. `Diagnostics.ErrorsErrField` states what the `""` join is:
the line-per-error field with its line breaks deleted.
`Diagnostics.ErrorsErrFieldMergesLines` shows what it costs: two different
err files can give the same field.

**A log without any value.** When none of the thirteen patterns matches, every
field of the record is a scalar `NaN`, and `pd.DataFrame` (line 72) refuses a
record of scalars only. The tool then stops without writing a report. The
model keeps this as the `NoAccountingValue` outcome of `Junilog.BuildReport`
(see "## Findings").

## Model

| member | source | states |
|---|---|---|
| FileNames.BaseName | junilog/junilog.py:42 | the name of a path, as `Path.name` gives it, holds no '/' and is never `.` |
| FileNames.BaseNameOf | junilog/junilog.py:42 | the name of `dir/name`, and of `name` alone, is `name`, for any non-empty name other than `.` that holds no '/' |
| FileNames.BaseNameTrailing | junilog/junilog.py:42 | a trailing `/` or `/.` does not change a path's name, as `pathlib` drops both |
| FileNames.Suffix | junilog/junilog.py:168 | `Path.suffix` is non-empty exactly when the name has a last dot that is neither its first nor its last character; it is then that dot and the dot-free text after it; the stem followed by the suffix is the name |
| FileNames.SuffixIs | junilog/junilog.py:167-169 | for a one-dot extension such as `.csv`, the suffix is that extension exactly when the name ends with it and is longer than it |
| FileNames.ElementKey | junilog/junilog.py:40-43 | the key has at least one token, no token contains '_', and the tokens joined with '_' give back the file stem with every `junifer_run_` deleted |
| FileNames.ElementKeyRoundTrip | junilog/junilog.py:40-43 | any tokens written into `dir/junifer_run_<t1>_<t2>….out` are recovered exactly, if they hold no '_' or '/' and do not spell `junifer_run_` |
| FileNames.ElementKeyIgnoresRunPrefix | junilog/junilog.py:42 | `junifer_run_stem.out` and `stem.out` have the same key |
| FileNames.ElementKeyExample | junilog/junilog.py:40-43 | `logs/junifer_run_1_A.out` has the key ["1", "A"] |
| FileNames.OutputDelimiter | junilog/junilog.py:167-169 | a comma exactly when the report file's name ends in `.csv` after at least one other character, a tab exactly for `.tsv`, and no delimiter for every other name |
| FileNames.DelimiterIgnoresTrailing | junilog/junilog.py:167-169 | `report.csv/` and `report.csv/.` get the same delimiter as `report.csv`, for every path |
| AccountingLog.CatalogFields | junilog/junilog.py:48-64 | the catalog has exactly the thirteen listed field names, no two alike |
| AccountingLog.LastMatch | junilog/junilog.py:68-70 | the value is missing exactly when nothing was found, and otherwise is the last finding |
| AccountingLog.ExtractAccounting | junilog/junilog.py:64-72 | the record has an entry for every catalog field and for nothing else |
| AccountingLog.AccountingValues | junilog/junilog.py:64-70 | in the record, a field is missing exactly when its pattern found nothing; otherwise it holds the last thing found |
| AccountingLog.LastMatchAppend | junilog/junilog.py:68-70 | new findings replace the value with the last new one; no new findings leave it unchanged |
| AccountingLog.AppendKeepsField | junilog/junilog.py:66-70 | a scanned field keeps its value when text is appended to the log in which no match of its pattern starts and which changes no match that starts before it |
| AccountingLog.ScannedMissing | junilog/junilog.py:49-53 | a scanned field is missing exactly when its pattern matches at no position of the log |
| AccountingLog.FieldFindings | junilog/junilog.py:49-53 | every value found is a non-empty run of the pattern's value class |
| AccountingLog.ScannedClasses | junilog/junilog.py:49-70 | in the record, the job and return codes are non-empty digit strings, and the CPU, disk and memory figures non-empty strings of digits and dots |
| AccountingLog.CpusLineRead | junilog/junilog.py:51-70 | when a log has one `Cpus <ws>: <ws><figure>` line and the figure is not run on, the record's `CPUs` value is that figure, whatever text precedes or follows the line |
| AccountingLog.MatchLogFile | junilog/junilog.py:64-72 | a frame is built exactly when some field found a value, and it holds the record |
| AccountingLog.EmptyLogHasNoFrame | junilog/junilog.py:64-72 | an empty log, with no usage findings, gives no frame |
| AccountingLog.UsageShapes | junilog/junilog.py:54-61 | a usage field holds a `dd:dd:dd` time whenever the usage captures do |
| Scanner.SearchPrefix | junilog/junilog.py:67 | cutting the text short changes nothing the search reports when no match starts in the cut-off part and every match that starts before the cut is the same |
| Patterns.FindAllSound | junilog/junilog.py:67 | every hit `findall` reports is the pattern's match at the hit's start |
| Patterns.FindAllComplete | junilog/junilog.py:67 | `findall` misses no match: every position where the pattern matches lies inside a reported span |
| Patterns.FindAllOrdered | junilog/junilog.py:67 | the hits come in text order and do not overlap |
| Patterns.FindAllEmpty | junilog/junilog.py:67-68 | `findall` finds nothing exactly when the pattern matches nowhere |
| Patterns.FindAllLast | junilog/junilog.py:67-70 | the last item `findall` reports is the match at `p` when no match starts after `p` and no earlier match reaches over `p` |
| Patterns.FindAllAppend | junilog/junilog.py:67 | text appended after `a` leaves `findall` unchanged when no match starts in it and it changes no match that starts in `a` |
| Patterns.FieldPrefixOf | junilog/junilog.py:49-53 | after the lead, a non-empty run of the value class and the closing text, followed by the end or a character outside the class, is matched with the run as its value |
| Patterns.LibPairPrefixShape | junilog/junilog.py:87 | a version pair is a non-empty whitespace-free name, ':', one whitespace character and a non-empty whitespace-free version |
| Patterns.DiagnosticPrefixShape | junilog/junilog.py:99-100 | a diagnostic hit is a timestamp, the level tag and a non-empty rest of one line; the item is the message of a warning or the whole line of an error |
| LibVersions.SectionBoundsSearch | junilog/junilog.py:79-84 | the captured section is the leftmost match of the section pattern; when nothing is captured, the pattern matches nowhere |
| LibVersions.Section | junilog/junilog.py:79-84 | the section is empty exactly when the section pattern matches nowhere; otherwise it is the group of the leftmost match and ends with the closing run of '=' and a line break |
| LibVersions.VersionPairs | junilog/junilog.py:87-90 | every pair read from the section has a non-empty whitespace-free name and version |
| LibVersions.VersionMap | junilog/junilog.py:93 | the table has an entry for every name of the pairs; every entry comes from a pair with that name and that version; each name maps to the version of its last pair |
| LibVersions.TableOf | junilog/junilog.py:86-93 | every entry of a section's table has a non-empty whitespace-free name and version; a section without a pair gives an empty table |
| LibVersions.ExtractLibVersions | junilog/junilog.py:75-93 | every library in the table has a non-empty whitespace-free name and version; when the section pattern matches nowhere the table is empty |
| LibVersions.RenderRoundTrip | junilog/junilog.py:75-93 | an output printing the entries between the opening banner and the closing line gives back the entries' table (later duplicates win), if no banner comes earlier |
| Diagnostics.Warnings | junilog/junilog.py:112-117 | every warning is a non-empty message without a line break; there are none exactly when the warning pattern matches at no position |
| Diagnostics.ExtractErrors | junilog/junilog.py:96-104 | every error starts with a timestamp followed by ` - JUNIFER - ERROR - `, has a message after that and holds no line break; there are none exactly when the error pattern matches at no position |
| Diagnostics.ItemShape | junilog/junilog.py:96-117 | every hit starts with a timestamp and the level tag, stays on one line and runs to its end; the item is the message (warning) or the whole hit (error) |
| Diagnostics.ErrorsInTextOrder | junilog/junilog.py:96-104 | the errors are the texts of their hits, in text order, and the hits do not overlap |
| Diagnostics.UntaggedTextHasNoItems | junilog/junilog.py:99-103 | a text in which a level's tag never occurs has no items of that level |
| Diagnostics.ItemsOfLog | junilog/junilog.py:96-117 | a log of timestamped lines of one level, mixed with lines that do not carry its tag, reads back exactly the logged messages (warnings) or lines (errors), in log order |
| Diagnostics.LinesField | junilog/junilog.py:118-123 | one-line items joined with "\n" give "" exactly when there is no item; otherwise the field's lines are the distinct items, each once |
| Diagnostics.ArrangedLines | junilog/junilog.py:118-123 | whatever order the set lists the distinct one-line items in, their "\n" join is empty exactly when there is no item and otherwise splits back into each distinct item once |
| Diagnostics.WarningsField | junilog/junilog.py:116-119 | the warnings field is empty exactly when there is no warning; otherwise its lines are the distinct warnings, each once |
| Diagnostics.ErrorsOutField | junilog/junilog.py:121-123 | the out-file errors field is empty exactly when there is no error; otherwise its lines are the distinct errors, each once |
| Diagnostics.ErrorsErrField | junilog/junilog.py:152-157 | the err-file errors field is empty exactly when the err file has no error, holds every error, and is the line-per-error field with its line breaks deleted |
| Diagnostics.ArrangedGlue | junilog/junilog.py:154-156 | whatever order the set lists the distinct errors in, their "" join holds every error, is empty exactly when there is none, and is their "\n" join with the line breaks deleted |
| Diagnostics.ErrorsErrFieldMergesLines | junilog/junilog.py:154-156 | for an err file with two different error lines, one order the set may list them in glues into the field of the err file whose single line is the two glued together |
| Text.ArrangementsArePermutations | junilog/junilog.py:118 | any two orders in which a set may list the distinct items are permutations of each other |
| Junilog.MatchOutFile | junilog/junilog.py:107-127 | the out-file record holds the library names plus `warnings` and `errors_out_file`; each status field is empty exactly when there is nothing to report and otherwise lists every distinct warning or error once per line; the two status fields win over a library of the same name, and every other entry is that library's version |
| Junilog.ElementRow | junilog/junilog.py:136-163 | a row is keyed by its `.out` file name; its accounting values are the record of its log; its status holds the libraries plus the three status fields; `warnings` and `errors_out_file` are empty exactly when there is nothing to report and otherwise list every distinct warning or error once per line; `errors_err_file` is empty exactly when the err file has no error and holds every error; every other entry is a library's version |
| Junilog.RowLibraries | junilog/junilog.py:148-159 | for an output printing a library section, the row's status columns are the printed library names plus the three status fields, and each library not named like a status field shows the version of its last line |
| Junilog.BuildReport | junilog/junilog.py:134-170 | a report exists exactly when there is an element, every element's log gave some value, and the extension selects a delimiter; a log without any value stops the report at the first such element; no elements is its own error; row `i` is element `i`'s row |
| Junilog.EmptyLogStopsReport | junilog/junilog.py:64-72 | an element with an empty log stops the report, whatever the report file |
| Junilog.BuildReportTolerant | junilog/junilog.py:134-170 | the intended report: it exists exactly when there is an element and the extension selects a delimiter, with row `i` for element `i` |
| Junilog.TolerantAgrees | junilog/junilog.py:64-72 | the intended report equals the tool's whenever every log gave a value, and gives an element without one a row of missing values |
| Junilog.UnknownFormatRefused | junilog/junilog.py:167-169 | with elements present and each log giving some value, a report file not ending in `.csv` or `.tsv` is refused, and the refusal names its suffix |
| Junilog.DefaultDelimiter | junilog/junilog.py:21-26 | the default report file `junilog.csv` selects a comma, also when given with a trailing '/' |
| Junilog.DefaultIsCommaSeparated | junilog/junilog.py:21-26 | the default report file `junilog.csv` is written with commas whenever a report is written |

## Left out

- The command line (`parse_args`) and the `--ipython` session are not modelled. They are I/O: the report file name is a parameter.
- Finding the `.out` files, opening the companion files and reading them are not modelled. The model takes each element's `.out` path and file contents as inputs. `glob` order is whatever order the inputs come in, and a missing companion file (an exception in the tool) is not modelled.
- pandas is not modelled: DataFrame construction, the multi-index, aligning columns across rows, and `to_csv` quoting and formatting. A row is modelled as a key, an accounting map and a status map. Cells the tool wraps in one-element lists are modelled as plain values.
- `np.nan` is the `Missing` value of `AccountingLog.FieldValue`.
- AccountingLog.Findings: the eight usage patterns of lines 54-61 (greedy `[^<>]*` spans across lines) are not matched by the model. Their `findall` results are an input, `UsageFindings`. Only the last-match reduction over them, and the `dd:dd:dd` shape under `UsageShaped`, are modelled.
- `\d` and `\s` are modelled on ASCII: digits `0`-`9`, and space, tab, line feed, carriage return, vertical tab and form feed. Python's Unicode classes are wider.
- Paths are modelled as POSIX strings split on '/', with empty and `.` parts dropped as `pathlib` drops them. Windows drives and separators are not modelled.
- Diagnostics.LinesField: `list(set(xs))` has an unspecified order, so the model lists the distinct items in order of first occurrence. `Diagnostics.ArrangedLines` and `Diagnostics.ArrangedGlue` state the line and glue properties for every order the set may produce, and `Text.ArrangementsArePermutations` shows that any two such orders are permutations of each other. The exact field strings are those of the first-occurrence order.
- Diagnostics.ErrorsErrFieldMergesLines: its equality of the two err-file fields holds for the first-occurrence order only. For the other order `set` may produce, the two-line field is the second error followed by the first; the lemma's arrangement form states only that some order gives the glued field.
- LibVersions.RenderRoundTrip: requires that no opening banner come before the printed one, and that no version contain '=' at all (`Printable`). The closing lookbehind needs 23 '=' directly before a line break, and the `: ` of each printed line breaks any run, so only a version ending in 23 '=' could close the section early; a version such as `1.0=` would not. The '='-free condition is simpler than what the section needs and was chosen to keep the proof short, so versions with some '=' are not covered by the lemma.
- Diagnostics.ItemsOfLog: covers logs whose other lines do not carry the searched level's tag. A line that holds a second timestamped tag in the middle can yield a hit that starts mid-line, and that case is not enumerated.
- Column-name collisions between accounting fields and library names, when the two frames are concatenated, are not modelled.
- Junilog.BuildReport: three exceptions of `main` are modelled as values of `Junilog.ReportError`. They are the `ValueError` of `pd.DataFrame` for a record of thirteen `NaN` scalars (`NoAccountingValue`), `pd.concat` of no frames (`NoElements`), and the `KeyError` of an unlisted suffix (`UnknownFormat`). The `ValueError` carries no element key; the key in `NoAccountingValue` is the model's addition, naming the first element whose log gave no value. The exception messages are not modelled, nor are the exceptions of file access.
- AccountingLog.CpusLineRead: the converse is proved for the CPU pattern only. The disk, memory, job and return-code patterns have the same structure and share `Patterns.FieldPrefixOf`, but no record-level lemma is stated for them.

## Findings

| source | as written | input that shows it | evidently intended | confidence | as-written member | corrected member |
|---|---|---|---|---|---|---|
| junilog/junilog.py:64-72 | a log in which none of the thirteen patterns matches leaves every field a scalar `NaN`, and `pd.DataFrame` of scalars only raises `ValueError`, so no report is written for any element | an element whose `.log` is empty, as for a job that has not started | that element's row with every accounting field missing, as for any single field that is not found | medium; not executed | Junilog.EmptyLogStopsReport | Junilog.BuildReportTolerant |
