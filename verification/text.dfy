/** String primitives shared by the extractors: character classes, substring
    tests, Python's `str.split` / `str.join` / `str.replace`, and the
    de-duplication that `list(set(...))` performs. */
module Text {

  /* ---------------------------------------------------------------------- */
  /* Character classes (ASCII renderings of the regex classes \d and \s)    */
  /* ---------------------------------------------------------------------- */

  predicate IsDigit(c: char) { '0' <= c <= '9' }

  predicate IsSpace(c: char) {
    c == ' ' || c == '\t' || c == '\n' || c == '\r' || c == '\U{000B}' || c == '\U{000C}'
  }

  /** Every character of `s` is a decimal digit. */
  predicate AllDigits(s: string) {
    forall i | 0 <= i < |s| :: IsDigit(s[i])
  }

  /** `s` has no whitespace character. */
  predicate NoSpace(s: string) {
    forall i | 0 <= i < |s| :: !IsSpace(s[i])
  }

  /** `s` follows `template` where every 'd' of the template stands for one
      decimal digit and every other character stands for itself. */
  predicate FitsTemplate(s: string, template: string) {
    && |s| == |template|
    && forall i | 0 <= i < |s| ::
         if template[i] == 'd' then IsDigit(s[i]) else s[i] == template[i]
  }

  /* ---------------------------------------------------------------------- */
  /* Substrings                                                             */
  /* ---------------------------------------------------------------------- */

  /** `t` occurs in `s` starting at index `p`. */
  predicate StartsAt(s: string, p: nat, t: string) {
    p + |t| <= |s| && s[p..p + |t|] == t
  }

  /** `t in s` for strings: `t` occurs somewhere in `s`. */
  ghost predicate Occurs(s: string, t: string) {
    exists p: nat :: StartsAt(s, p, t)
  }

  predicate EndsWith(s: string, t: string) {
    |t| <= |s| && s[|s| - |t|..] == t
  }

  /** The index of the first '\n' at or after `p`, or `|s|` when the rest of
      `s` has none: the end of the line that `p` lies on. */
  function LineEnd(s: string, p: nat): (e: nat)
    requires p <= |s|
    ensures p <= e <= |s|
    ensures e < |s| ==> s[e] == '\n'
    ensures forall k | p <= k < e :: s[k] != '\n'
    decreases |s| - p
  {
    if p == |s| || s[p] == '\n' then p else LineEnd(s, p + 1)
  }

  /** A line piece of length `n` at the start of `s[p..]` is the same line
      piece at `p` in `s`. */
  lemma LineAt(s: string, p: nat, n: nat)
    requires p + n <= |s|
    requires forall k | 0 <= k < n :: s[p..][k] != '\n'
    requires n == |s| - p || s[p..][n] == '\n'
    ensures forall k | p <= k < p + n :: s[k] != '\n'
    ensures p + n == |s| || s[p + n] == '\n'
  {
    var u := s[p..];
    forall k | p <= k < p + n ensures s[k] != '\n' {
      assert u[k - p] == s[k];
    }
    if p + n < |s| {
      assert u[n] == s[p + n];
    }
  }

  /** A slice of positions that all avoid `c` does not hold `c`. */
  lemma SliceAvoids(s: string, a: nat, b: nat, c: char)
    requires a <= b <= |s| && forall k | a <= k < b :: s[k] != c
    ensures c !in s[a..b]
  {
    forall k | 0 <= k < b - a ensures s[a..b][k] != c {
      assert s[a..b][k] == s[a + k];
    }
  }

  /** A slice of a slice is a slice of the whole. */
  lemma SliceOfSlice(s: string, a: nat, b: nat, i: nat, j: nat)
    requires a <= b <= |s| && i <= j <= b - a
    ensures s[a..b][i..j] == s[a + i..a + j]
  {
    assert forall k | 0 <= k < j - i :: s[a..b][i..j][k] == s[a + i + k];
  }

  /** The three parts of a concatenation, as slices of it. */
  lemma ThreeParts(x: string, y: string, z: string)
    ensures (x + y + z)[..|x|] == x
    ensures (x + y + z)[|x|..|x| + |y|] == y
    ensures (x + y + z)[|x| + |y|..] == z
  {
    var a := x + y + z;
    assert forall k | 0 <= k < |x| :: a[..|x|][k] == x[k];
    assert forall k | 0 <= k < |y| :: a[|x|..|x| + |y|][k] == y[k];
    assert forall k | 0 <= k < |z| :: a[|x| + |y|..][k] == z[k];
  }

  /** A slice of a suffix is a slice of the whole. */
  lemma SliceOfSuffix(s: string, a: nat, i: nat, j: nat)
    requires a <= |s| && i <= j <= |s| - a
    ensures s[a..][i..j] == s[a + i..a + j]
  {
    assert forall k | 0 <= k < j - i :: s[a..][i..j][k] == s[a + i + k];
  }

  /** A suffix made of two parts: both parts as slices of the whole. */
  lemma SuffixParts(s: string, a: nat, x: string, y: string)
    requires a <= |s| && s[a..] == x + y
    ensures a + |x| <= |s| && s[a..a + |x|] == x && s[a + |x|..] == y
  {
    assert s[a..a + |x|] == s[a..][..|x|];
    assert s[a + |x|..] == s[a..][|x|..];
  }

  /** An occurrence that ends by `n` is an occurrence in the first `n`
      characters. */
  lemma StartsAtInPrefix(s: string, x: string, p: nat, w: string)
    requires |x| <= |s| && s[..|x|] == x
    requires p + |w| <= |x| && StartsAt(s, p, w)
    ensures StartsAt(x, p, w)
  {
    assert x[p..p + |w|] == s[..|x|][p..p + |w|] == s[p..p + |w|];
  }

  /** The end of the line is the first line break from `p` on. */
  lemma LineEndIs(s: string, p: nat, e: nat)
    requires p <= e <= |s|
    requires forall k | p <= k < e :: s[k] != '\n'
    requires e == |s| || s[e] == '\n'
    ensures LineEnd(s, p) == e
  {
  }

  /** The index of the last occurrence of `c` in `s`, as `str.rfind`. */
  function LastIndexOf(s: string, c: char): (r: int)
    ensures -1 <= r < |s|
    ensures 0 <= r ==> s[r] == c
    ensures forall k | r < k < |s| :: s[k] != c
    ensures c !in s[r + 1..]
  {
    var r := LastIndexBefore(s, c, |s|);
    AbsentAfter(s, r + 1, c);
    r
  }

  /** A character missing from every position from `i` on is missing from `s[i..]`. */
  lemma AbsentAfter(s: string, i: nat, c: char)
    requires i <= |s|
    requires forall k | i <= k < |s| :: s[k] != c
    ensures c !in s[i..]
  {
  }

  /** The index of the last occurrence of `c` among the first `n` characters of `s`. */
  function LastIndexBefore(s: string, c: char, n: nat): (r: int)
    requires n <= |s|
    ensures -1 <= r < n
    ensures 0 <= r ==> s[r] == c
    ensures forall k | r < k < n :: s[k] != c
  {
    if n == 0 then -1
    else if s[n - 1] == c then n - 1
    else LastIndexBefore(s, c, n - 1)
  }

  /* ---------------------------------------------------------------------- */
  /* str.join and str.split                                                 */
  /* ---------------------------------------------------------------------- */

  /** `sep.join(xs)`. */
  function Join(xs: seq<string>, sep: string): (joined: string)
  {
    if |xs| == 0 then ""
    else if |xs| == 1 then xs[0]
    else xs[0] + sep + Join(xs[1..], sep)
  }

  /** A character that is neither in the separator nor in any piece is not in the joined text. */
  lemma {:induction false} JoinAvoids(xs: seq<string>, sep: string, c: char)
    requires c !in sep
    requires forall i | 0 <= i < |xs| :: c !in xs[i]
    ensures c !in Join(xs, sep)
    decreases |xs|
  {
    if |xs| > 1 {
      JoinAvoids(xs[1..], sep, c);
    }
  }

  /** The first piece of a non-empty list opens the joined text. */
  lemma JoinHead(xs: seq<string>, sep: string)
    requires |xs| > 0
    ensures StartsAt(Join(xs, sep), 0, xs[0])
  {
    if |xs| > 1 {
      assert (xs[0] + sep + Join(xs[1..], sep))[..|xs[0]|] == xs[0];
    }
  }

  /** Every piece occurs in the joined text. */
  lemma {:induction false} JoinPiece(xs: seq<string>, sep: string, j: nat)
    requires j < |xs|
    ensures Occurs(Join(xs, sep), xs[j])
    decreases j
  {
    if j == 0 {
      JoinHead(xs, sep);
    } else {
      var rest := Join(xs[1..], sep);
      JoinPiece(xs[1..], sep, j - 1);
      var q: nat :| StartsAt(rest, q, xs[1..][j - 1]);
      var p := |xs[0]| + |sep| + q;
      var t := xs[0] + sep + rest;
      assert t[p..p + |xs[j]|] == rest[q..q + |xs[j]|];
      assert StartsAt(Join(xs, sep), p, xs[j]);
    }
  }

  /** `s.split(c)` for a one-character separator: the pieces between the
      separators, never an empty list (`"".split("_") == [""]`). */
  function Split(s: string, c: char): (parts: seq<string>)
    ensures |parts| >= 1
    ensures forall i | 0 <= i < |parts| :: c !in parts[i]
  {
    if |s| == 0 then [""]
    else if s[0] == c then [""] + Split(s[1..], c)
    else
      var rest := Split(s[1..], c);
      [[s[0]] + rest[0]] + rest[1..]
  }

  /** Joining the pieces of a split with its separator gives back the text. */
  lemma {:induction false} JoinSplit(s: string, c: char)
    ensures Join(Split(s, c), [c]) == s
    decreases |s|
  {
    if |s| == 0 {
    } else {
      var rest := Split(s[1..], c);
      JoinSplit(s[1..], c);
      if s[0] == c {
        assert Split(s, c) == [""] + rest;
        assert ([""] + rest)[1..] == rest;
      } else {
        var parts := [[s[0]] + rest[0]] + rest[1..];
        assert Split(s, c) == parts;
        if |rest| == 1 {
          assert Join(parts, [c]) == [s[0]] + rest[0];
        } else {
          assert parts[1..] == rest[1..];
          assert Join(parts, [c]) == [s[0]] + rest[0] + [c] + Join(rest[1..], [c]);
          assert Join(rest, [c]) == rest[0] + [c] + Join(rest[1..], [c]);
        }
        assert s == [s[0]] + s[1..];
      }
    }
  }

  /** A piece without the separator splits to itself. */
  lemma {:induction false} SplitNoSeparator(s: string, c: char)
    requires c !in s
    ensures Split(s, c) == [s]
    decreases |s|
  {
    if |s| > 0 {
      assert s[1..] == s[|s| - |s| + 1..];
      assert c !in s[1..] by {
        forall k | 0 <= k < |s[1..]| ensures s[1..][k] != c { assert s[1..][k] == s[k + 1]; }
      }
      SplitNoSeparator(s[1..], c);
      assert s == [s[0]] + s[1..];
    }
  }

  /** Splitting `a + c + b`, where `a` has no `c`, yields `a` then the pieces of `b`. */
  lemma {:induction false} SplitAtFirstSeparator(a: string, c: char, b: string)
    requires c !in a
    ensures Split(a + [c] + b, c) == [a] + Split(b, c)
    decreases |a|
  {
    var s := a + [c] + b;
    if |a| == 0 {
      assert s[0] == c;
      assert s[1..] == b;
    } else {
      assert s[0] == a[0];
      assert s[1..] == a[1..] + [c] + b;
      assert c !in a[1..] by {
        forall k | 0 <= k < |a[1..]| ensures a[1..][k] != c { assert a[1..][k] == a[k + 1]; }
      }
      SplitAtFirstSeparator(a[1..], c, b);
      var rest := Split(s[1..], c);
      assert rest == [a[1..]] + Split(b, c);
      assert [a[0]] + a[1..] == a;
    }
  }

  /** Splitting pieces that were joined with a separator they do not contain
      gives the pieces back. */
  lemma {:induction false} SplitJoin(xs: seq<string>, c: char)
    requires |xs| >= 1
    requires forall i | 0 <= i < |xs| :: c !in xs[i]
    ensures Split(Join(xs, [c]), c) == xs
    decreases |xs|
  {
    if |xs| == 1 {
      SplitNoSeparator(xs[0], c);
    } else {
      SplitJoin(xs[1..], c);
      SplitAtFirstSeparator(xs[0], c, Join(xs[1..], [c]));
      assert xs == [xs[0]] + xs[1..];
    }
  }

  /* ---------------------------------------------------------------------- */
  /* str.replace(pat, "")                                                   */
  /* ---------------------------------------------------------------------- */

  /** `s.replace(pat, "")`: scanning left to right, every non-overlapping
      occurrence of `pat` is deleted. */
  function DeleteAll(s: string, pat: string): (r: string)
    requires |pat| > 0
    ensures |r| <= |s|
    decreases |s|
  {
    if |s| == 0 then ""
    else if StartsAt(s, 0, pat) then DeleteAll(s[|pat|..], pat)
    else [s[0]] + DeleteAll(s[1..], pat)
  }

  /** Text without an occurrence of `pat` is left as it is. */
  lemma {:induction false} DeleteAllAbsent(s: string, pat: string)
    requires |pat| > 0
    requires forall p: nat | p <= |s| :: !StartsAt(s, p, pat)
    ensures DeleteAll(s, pat) == s
    decreases |s|
  {
    if |s| > 0 {
      forall p: nat | p <= |s[1..]| ensures !StartsAt(s[1..], p, pat) {
        assert !StartsAt(s, p + 1, pat);
      }
      DeleteAllAbsent(s[1..], pat);
      assert s == [s[0]] + s[1..];
    }
  }

  /** Deleting a one-character pattern passes over text that lacks it. */
  lemma {:induction false} DeleteAllKeeps(a: string, c: char, rest: string)
    requires c !in a
    ensures DeleteAll(a + rest, [c]) == a + DeleteAll(rest, [c])
    decreases |a|
  {
    if |a| > 0 {
      var s := a + rest;
      assert !StartsAt(s, 0, [c]) by { assert s[0..1] == [a[0]]; }
      assert s[1..] == a[1..] + rest;
      assert c !in a[1..] by {
        forall k | 0 <= k < |a[1..]| ensures a[1..][k] != c { assert a[1..][k] == a[k + 1]; }
      }
      DeleteAllKeeps(a[1..], c, rest);
      assert [a[0]] + a[1..] == a;
    } else {
      assert a + rest == rest;
    }
  }

  /** Deleting the separator from pieces joined by it glues the pieces
      together: `sep.join(xs).replace(sep, "") == "".join(xs)`. */
  lemma {:induction false} JoinDropSeparator(xs: seq<string>, c: char)
    requires forall i | 0 <= i < |xs| :: c !in xs[i]
    ensures DeleteAll(Join(xs, [c]), [c]) == Join(xs, "")
    decreases |xs|
  {
    if |xs| == 1 {
      DeleteAllKeeps(xs[0], c, "");
      assert xs[0] + "" == xs[0];
    } else if |xs| > 1 {
      var rest := Join(xs[1..], [c]);
      JoinDropSeparator(xs[1..], c);
      assert Join(xs, [c]) == xs[0] + ([c] + rest);
      DeleteAllKeeps(xs[0], c, [c] + rest);
      DeleteAllLeading([c], rest);
    }
  }

  /** Deleting a leading occurrence is the same as deleting from the rest. */
  lemma DeleteAllLeading(pat: string, s: string)
    requires |pat| > 0
    ensures DeleteAll(pat + s, pat) == DeleteAll(s, pat)
  {
    assert StartsAt(pat + s, 0, pat);
    assert (pat + s)[|pat|..] == s;
  }

  /* ---------------------------------------------------------------------- */
  /* list(set(xs))                                                          */
  /* ---------------------------------------------------------------------- */

  predicate NoDuplicates<T(==)>(s: seq<T>) {
    forall i, j | 0 <= i < j < |s| :: s[i] != s[j]
  }

  /** `ys` lists each distinct item of `xs` exactly once, in some order: what
      `list(set(xs))` yields for an unspecified iteration order. */
  predicate IsArrangement<T(==)>(ys: seq<T>, xs: seq<T>) {
    && NoDuplicates(ys)
    && (forall i | 0 <= i < |ys| :: ys[i] in xs)
    && (forall i | 0 <= i < |xs| :: xs[i] in ys)
  }

  /** The distinct items of `xs` in order of first occurrence: one of the
      arrangements `list(set(xs))` may produce. */
  function Dedup<T(==)>(xs: seq<T>): (ys: seq<T>)
    ensures IsArrangement(ys, xs)
    ensures |ys| <= |xs|
  {
    if |xs| == 0 then []
    else
      var init := Dedup(xs[..|xs| - 1]);
      var last := xs[|xs| - 1];
      assert xs == xs[..|xs| - 1] + [last];
      if last in init then init else init + [last]
  }

  /** Two different items are both kept, in order. */
  lemma DedupPair<T>(a: T, b: T)
    requires a != b
    ensures Dedup([a, b]) == [a, b]
  {
    assert [a, b][..1] == [a];
    assert Dedup([a]) == [a];
  }

  /** In a duplicate-free sequence every item is counted once. */
  lemma {:induction false} DistinctCounts<T>(s: seq<T>)
    requires NoDuplicates(s)
    ensures forall x :: multiset(s)[x] == if x in s then 1 else 0
    decreases |s|
  {
    if |s| > 0 {
      var init := s[..|s| - 1];
      assert s == init + [s[|s| - 1]];
      assert NoDuplicates(init);
      assert s[|s| - 1] !in init;
      DistinctCounts(init);
    }
  }

  /** Two arrangements of the same items are permutations of each other: the
      order Python's `set` picks changes nothing but the order. */
  lemma ArrangementsArePermutations<T>(a: seq<T>, b: seq<T>, xs: seq<T>)
    requires IsArrangement(a, xs) && IsArrangement(b, xs)
    ensures multiset(a) == multiset(b)
    ensures |a| == |b|
  {
    DistinctCounts(a);
    DistinctCounts(b);
    assert forall x :: multiset(a)[x] == multiset(b)[x];
    assert multiset(a) == multiset(b);
    assert |a| == |multiset(a)| == |multiset(b)| == |b|;
  }
}
