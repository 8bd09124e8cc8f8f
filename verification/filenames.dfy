/** File-name handling: the `pathlib` views (`name`, `stem`, `suffix`) the
    tool relies on, the element key recovered from an `.out` file name, and
    the output delimiter chosen by the report file's extension. */
module FileNames {
  import opened Wrappers
  import opened Text

  /** The literal that the element key drops from the file stem. */
  const RunPrefix: string := "junifer_run_"

  /** `PurePath(p).name`: the last part of the path, where the parts are the
      pieces between '/' characters with empty and `.` pieces dropped, or ""
      when no part is left. So a trailing '/' or "/." does not change it. */
  function BaseName(path: string): (name: string)
    ensures '/' !in name && name != "."
    decreases |path|
  {
    if |path| > 0 && path[|path| - 1] == '/' then BaseName(path[..|path| - 1])
    else
      var i := LastIndexOf(path, '/') + 1;
      if path[i..] == "." then BaseName(path[..i]) else path[i..]
  }

  /** A last piece that is neither empty nor `.` is the name. */
  lemma BaseNameOf(dir: string, name: string)
    requires '/' !in name && name != "" && name != "."
    ensures BaseName(dir + "/" + name) == name
    ensures BaseName(name) == name
  {
    var path := dir + "/" + name;
    var i := LastIndexOf(path, '/');
    assert path[|dir|] == '/';
    assert i >= |dir|;
    assert path[i + 1..] == name;
    assert path[|path| - 1] == name[|name| - 1];
  }

  /** A trailing '/' or "/." leaves the name as it is. */
  lemma BaseNameTrailing(path: string)
    ensures BaseName(path + "/") == BaseName(path)
    ensures BaseName(path + "/.") == BaseName(path)
  {
    assert (path + "/")[..|path|] == path;
    var dotted := path + "/.";
    var i := LastIndexOf(dotted, '/');
    assert dotted[|path|] == '/';
    assert i == |path|;
    assert dotted[i + 1..] == ".";
    assert dotted[..i + 1] == path + "/";
  }

  /** Dot `i` starts `Path.suffix`: it is the last dot, and neither the
      first nor the last character. */
  predicate SuffixDotAt(name: string, i: nat) {
    0 < i < |name| - 1 && name[i] == '.' && '.' !in name[i + 1..]
  }

  /** Some dot starts `Path.suffix`. */
  predicate HasSuffixDot(name: string) {
    exists i: nat | i < |name| :: SuffixDotAt(name, i)
  }

  /** Index of the dot that starts `Path.suffix`, when there is one. */
  function SuffixDot(name: string): (r: Option<nat>)
    ensures r.Some? ==> SuffixDotAt(name, r.value)
    ensures r.None? ==> !HasSuffixDot(name)
  {
    var i := LastIndexOf(name, '.');
    if 0 < i < |name| - 1 then Some(i)
    else
      assert !HasSuffixDot(name) by {
        forall j: nat | 0 < j < |name| - 1 && name[j] == '.' ensures !SuffixDotAt(name, j) {
          DotBeforeLast(name, j);
        }
      }
      None
  }

  /** A dot before the last one has a dot after it. */
  lemma DotBeforeLast(name: string, j: nat)
    requires j < |name| && name[j] == '.'
    ensures j <= LastIndexOf(name, '.')
    ensures j < LastIndexOf(name, '.') ==> '.' in name[j + 1..]
  {
    var i := LastIndexOf(name, '.');
    if j < i {
      assert name[j + 1..][i - j - 1] == name[i];
    }
  }

  /** `Path(name).stem`. */
  function Stem(name: string): (stem: string)
  {
    match SuffixDot(name)
    case Some(i) => name[..i]
    case None => name
  }

  /** `Path(name).suffix`: non-empty exactly when some dot strictly inside
      the name has no dot after it, and then that dot followed by at least
      one dot-free character; the stem followed by the suffix is the name. */
  function Suffix(name: string): (ext: string)
    ensures ext != "" <==> HasSuffixDot(name)
    ensures ext == "" || (|ext| >= 2 && ext[0] == '.' && '.' !in ext[1..])
    ensures Stem(name) + ext == name
  {
    match SuffixDot(name)
    case Some(i) =>
      SuffixSplit(name, i);
      assert HasSuffixDot(name);
      name[i..]
    case None => ""
  }

  /** The name split at its suffix dot. */
  lemma SuffixSplit(name: string, i: nat)
    requires SuffixDotAt(name, i)
    ensures var ext := name[i..];
      ext != "" && |ext| >= 2 && ext[0] == '.' && '.' !in ext[1..] && name[..i] + ext == name
  {
    assert name[i..][1..] == name[i + 1..];
    assert name[..i] + name[i..] == name;
  }

  /** `element_indices_from_filename`: the stem of the file's name with every
      `junifer_run_` occurrence deleted, split on '_'. The tokens never
      contain '_', there is at least one, and joined with '_' they give back
      the cleaned stem. */
  function ElementKey(outFile: string): (key: seq<string>)
    ensures |key| >= 1
    ensures forall i | 0 <= i < |key| :: '_' !in key[i]
    ensures Join(key, "_") == DeleteAll(Stem(BaseName(outFile)), RunPrefix)
  {
    var cleaned := DeleteAll(Stem(BaseName(outFile)), RunPrefix);
    JoinSplit(cleaned, '_');
    Split(cleaned, '_')
  }

  /** Two stems that differ only in a leading `junifer_run_` give the same key. */
  lemma ElementKeyIgnoresRunPrefix(dir: string, stem: string)
    requires '/' !in stem && |stem| > 0
    ensures ElementKey(dir + "/" + (RunPrefix + stem + ".out")) == ElementKey(dir + "/" + (stem + ".out"))
  {
    var long := RunPrefix + stem;
    assert '/' !in long;
    ElementKeyOfStem(dir, long);
    ElementKeyOfStem(dir, stem);
    DeleteAllLeading(RunPrefix, stem);
    assert DeleteAll(long, RunPrefix) == DeleteAll(stem, RunPrefix);
  }

  /** The element key of `dir/stem.out` splits the stem with every
      `junifer_run_` deleted; the stem may itself hold dots. */
  lemma ElementKeyOfStem(dir: string, stem: string)
    requires '/' !in stem && |stem| > 0
    ensures BaseName(dir + "/" + (stem + ".out")) == stem + ".out"
    ensures Stem(stem + ".out") == stem
    ensures ElementKey(dir + "/" + (stem + ".out")) == Split(DeleteAll(stem, RunPrefix), '_')
  {
    var path := dir + "/" + (stem + ".out");
    OutExtension();
    BaseNameOf(dir, stem + ".out");
    StemOf(stem, ".out");
    assert Stem(BaseName(path)) == stem;
  }

  /** `.out` is an extension: a dot and then neither dots nor slashes. */
  lemma OutExtension()
    ensures |".out"| >= 2 && ".out"[0] == '.' && '.' !in ".out"[1..] && '/' !in ".out"
  {
    assert ".out"[1..] == "out";
  }

  /** A non-empty stem followed by an extension such as ".out" splits back
      into the two, whatever dots the stem holds. */
  lemma StemOf(stem: string, ext: string)
    requires |stem| > 0
    requires |ext| >= 2 && ext[0] == '.' && '.' !in ext[1..]
    ensures Stem(stem + ext) == stem
  {
    var name := stem + ext;
    assert name[|stem|] == '.';
    forall j | |stem| < j < |name| ensures name[j] != '.' {
      assert name[j] == ext[1..][j - |stem| - 1];
    }
    var i := LastIndexOf(name, '.');
    assert i == |stem|;
    assert name[..i] == stem;
  }

  /** Key tokens written into a junifer `.out` file name are recovered
      exactly, provided they hold no '_' or '/' and do not themselves spell
      out `junifer_run_`. */
  lemma ElementKeyRoundTrip(dir: string, key: seq<string>)
    requires |key| >= 1
    requires forall i | 0 <= i < |key| :: '_' !in key[i] && '/' !in key[i]
    requires forall p: nat | p <= |Join(key, "_")| :: !StartsAt(Join(key, "_"), p, RunPrefix)
    ensures ElementKey(dir + "/" + (RunPrefix + Join(key, "_") + ".out")) == key
  {
    var stem := Join(key, "_");
    JoinAvoids(key, "_", '/');
    var long := RunPrefix + stem;
    assert '/' !in long;
    ElementKeyOfStem(dir, long);
    DeleteAllLeading(RunPrefix, stem);
    DeleteAllAbsent(stem, RunPrefix);
    assert DeleteAll(stem, RunPrefix) == stem;
    SplitJoin(key, '_');
    assert Split(stem, '_') == key;
  }

  /** The element key of a typical junifer `.out` file. */
  lemma ElementKeyExample(path: string)
    requires path == "logs/junifer_run_1_A.out"
    ensures ElementKey(path) == ["1", "A"]
  {
    var key := ["1", "A"];
    assert Join(key, "_") == "1_A";
    assert path == "logs" + "/" + (RunPrefix + Join(key, "_") + ".out");
    ElementKeyRoundTrip("logs", key);
  }

  /** The output delimiter, selected by the suffix of the report file's
      name: a comma exactly when the name ends in ".csv" after at least one
      other character, a tab exactly when it ends so in ".tsv", and nothing
      (the `KeyError` of `exts[ext]`) otherwise. */
  function OutputDelimiter(outfile: string): (sep: Option<char>)
    ensures var name := BaseName(outfile);
      && (sep == Some(',') <==> |name| > 4 && EndsWith(name, ".csv"))
      && (sep == Some('\t') <==> |name| > 4 && EndsWith(name, ".tsv"))
      && (sep.None? <==> !(|name| > 4 && (EndsWith(name, ".csv") || EndsWith(name, ".tsv"))))
  {
    var name := BaseName(outfile);
    SuffixIs(name, ".csv");
    SuffixIs(name, ".tsv");
    var ext := Suffix(name);
    if ext == ".csv" then Some(',')
    else if ext == ".tsv" then Some('\t')
    else None
  }

  /** A name has the suffix `ext` exactly when it ends with `ext` after at
      least one other character. */
  lemma SuffixIs(name: string, ext: string)
    requires |ext| >= 2 && ext[0] == '.' && '.' !in ext[1..]
    ensures Suffix(name) == ext <==> |name| > |ext| && EndsWith(name, ext)
  {
    if |name| > |ext| && EndsWith(name, ext) {
      var j := |name| - |ext|;
      assert name[j] == '.';
      var i := LastIndexOf(name, '.');
      assert i >= j;
    }
  }

  /** A report path with a trailing '/' or "/." selects the same delimiter
      as the path without it: `report.csv/` is comma-separated. */
  lemma DelimiterIgnoresTrailing(path: string)
    ensures OutputDelimiter(path + "/") == OutputDelimiter(path)
    ensures OutputDelimiter(path + "/.") == OutputDelimiter(path)
  {
    BaseNameTrailing(path);
  }

  /** A plain file name ending in ".csv" selects a comma, with or without a
      trailing '/'. */
  lemma CsvNameDelimiter(name: string)
    requires '/' !in name && |name| > 4 && EndsWith(name, ".csv")
    ensures OutputDelimiter(name) == Some(',')
    ensures OutputDelimiter(name + "/") == Some(',')
  {
    BaseNameOf("", name);
    DelimiterIgnoresTrailing(name);
  }
}
