/** `re.findall` for any pattern that is tried position by position: the
    left-to-right search, which resumes after each hit, and what it
    guarantees (every hit is a match, no match is missed, the hits are in
    order, and the result depends only on the text searched). */
module Scanner {
  import opened Wrappers

  /** One `findall` hit: the span `[start, end)` it covers and its groups. */
  datatype Match = Match(start: nat, end: nat, groups: seq<string>)

  /** `mp(pat, u)` answers whether the pattern `pat` matches at the start of
      the text `u`: a match is not empty, stays inside the text and has `g`
      groups. */
  ghost predicate PrefixMatcher<P>(mp: (P, string) -> Option<Match>, pat: P, g: nat) {
    forall u: string :: mp(pat, u).Some? ==>
      mp(pat, u).value.start == 0 < mp(pat, u).value.end <= |u| && |mp(pat, u).value.groups| == g
  }

  /** The match of `mp` at position `p` of `s` (what `pattern.match(s, p)`
      gives), with the span in `s`'s coordinates. */
  function At<P>(mp: (P, string) -> Option<Match>, pat: P, s: string, p: nat): (r: Option<Match>)
    requires p <= |s|
  {
    match mp(pat, s[p..])
    case None => None
    case Some(m) => Some(Match(p, p + m.end, m.groups))
  }

  /** The left-to-right search of `re.findall` from position `from`: try
      every position in turn and, after a hit, resume where it ended. The
      hits are in `Bounded`, proved by `SearchBounded`. */
  function Search<P>(mp: (P, string) -> Option<Match>, pat: P, g: nat, s: string, from: nat): (ms: seq<Match>)
    requires PrefixMatcher(mp, pat, g) && from <= |s|
    decreases |s| - from
  {
    if from == |s| then []
    else
      match mp(pat, s[from..])
      case Some(m) => [Match(from, from + m.end, m.groups)] + Search(mp, pat, g, s, from + m.end)
      case None => Search(mp, pat, g, s, from + 1)
  }

  /** After a hit at `from` the search resumes where the hit ends. */
  lemma SearchHit<P>(mp: (P, string) -> Option<Match>, pat: P, g: nat, s: string, from: nat)
    requires PrefixMatcher(mp, pat, g) && from < |s| && At(mp, pat, s, from).Some?
    ensures var m := At(mp, pat, s, from).value;
      m.end <= |s| && Search(mp, pat, g, s, from) == [m] + Search(mp, pat, g, s, m.end)
  {
    var r := mp(pat, s[from..]);
    assert r.Some? && At(mp, pat, s, from).value == Match(from, from + r.value.end, r.value.groups);
  }

  /** Every hit lies inside `s` from `from` on and has `g` groups. */
  predicate Bounded(ms: seq<Match>, from: nat, n: nat, g: nat) {
    forall i | 0 <= i < |ms| :: from <= ms[i].start < ms[i].end <= n && |ms[i].groups| == g
  }

  /** The hits of the search lie inside the searched text and have the
      pattern's number of groups. */
  lemma {:induction false} SearchBounded<P>(mp: (P, string) -> Option<Match>, pat: P, g: nat, s: string, from: nat)
    requires PrefixMatcher(mp, pat, g) && from <= |s|
    ensures Bounded(Search(mp, pat, g, s, from), from, |s|, g)
    decreases |s| - from
  {
    if from < |s| {
      var r := mp(pat, s[from..]);
      if r.Some? {
        var head := Match(from, from + r.value.end, r.value.groups);
        var rest := Search(mp, pat, g, s, head.end);
        assert Search(mp, pat, g, s, from) == [head] + rest;
        SearchBounded(mp, pat, g, s, head.end);
        BoundedCons(head, rest, from, |s|, g);
      } else {
        assert Search(mp, pat, g, s, from) == Search(mp, pat, g, s, from + 1);
        SearchBounded(mp, pat, g, s, from + 1);
      }
    }
  }

  lemma BoundedCons(m: Match, rest: seq<Match>, from: nat, n: nat, g: nat)
    requires from <= m.start < m.end <= n && |m.groups| == g
    requires Bounded(rest, m.end, n, g)
    ensures Bounded([m] + rest, from, n, g)
  {
    var ms := [m] + rest;
    forall i | 0 <= i < |ms| ensures from <= ms[i].start < ms[i].end <= n && |ms[i].groups| == g {
      if i > 0 {
        assert ms[i] == rest[i - 1];
      }
    }
  }

  /** Every hit in `ms` is what the matcher answers at the hit's start. */
  ghost predicate Hits<P>(mp: (P, string) -> Option<Match>, pat: P, s: string, ms: seq<Match>) {
    forall i | 0 <= i < |ms| :: ms[i].start <= |s| && At(mp, pat, s, ms[i].start) == Some(ms[i])
  }

  /** Every hit of the search is what the matcher answers at the hit's start. */
  lemma {:induction false} SearchSound<P>(mp: (P, string) -> Option<Match>, pat: P, g: nat, s: string, from: nat)
    requires PrefixMatcher(mp, pat, g) && from <= |s|
    ensures Hits(mp, pat, s, Search(mp, pat, g, s, from))
    decreases |s| - from
  {
    if from < |s| {
      match mp(pat, s[from..])
      case Some(m) =>
        SearchSound(mp, pat, g, s, from + m.end);
        HitsCons(mp, pat, s, Match(from, from + m.end, m.groups), Search(mp, pat, g, s, from + m.end));
      case None =>
        SearchSound(mp, pat, g, s, from + 1);
    }
  }

  lemma HitsCons<P>(mp: (P, string) -> Option<Match>, pat: P, s: string, m: Match, rest: seq<Match>)
    requires m.start <= |s| && At(mp, pat, s, m.start) == Some(m) && Hits(mp, pat, s, rest)
    ensures Hits(mp, pat, s, [m] + rest)
  {
    var ms := [m] + rest;
    forall i | 0 <= i < |ms| ensures ms[i].start <= |s| && At(mp, pat, s, ms[i].start) == Some(ms[i]) {
      if i > 0 {
        assert ms[i] == rest[i - 1];
      }
    }
  }

  /** The hits of the search come in text order and do not overlap. */
  lemma {:induction false} SearchOrdered<P>(mp: (P, string) -> Option<Match>, pat: P, g: nat, s: string, from: nat)
    requires PrefixMatcher(mp, pat, g) && from <= |s|
    ensures Ordered(Search(mp, pat, g, s, from))
    decreases |s| - from
  {
    if from < |s| {
      var r := mp(pat, s[from..]);
      if r.Some? {
        var m := r.value;
        var rest := Search(mp, pat, g, s, from + m.end);
        assert Search(mp, pat, g, s, from) == [Match(from, from + m.end, m.groups)] + rest;
        SearchOrdered(mp, pat, g, s, from + m.end);
        SearchBounded(mp, pat, g, s, from + m.end);
        assert |rest| > 0 ==> from + m.end <= rest[0].start;
        OrderedCons(Match(from, from + m.end, m.groups), rest);
      } else {
        assert Search(mp, pat, g, s, from) == Search(mp, pat, g, s, from + 1);
        SearchOrdered(mp, pat, g, s, from + 1);
      }
    }
  }

  /** Each match ends before the next one starts. */
  predicate Ordered(ms: seq<Match>) {
    forall i | 0 <= i < |ms| - 1 :: ms[i].end <= ms[i + 1].start
  }

  lemma OrderedCons(m: Match, rest: seq<Match>)
    requires Ordered(rest)
    requires |rest| > 0 ==> m.end <= rest[0].start
    ensures Ordered([m] + rest)
  {
    var ms := [m] + rest;
    forall i | 0 <= i < |ms| - 1 ensures ms[i].end <= ms[i + 1].start {
      if i > 0 {
        assert ms[i] == rest[i - 1] && ms[i + 1] == rest[i];
      }
    }
  }

  /** Position `p` lies inside one of the reported spans. */
  ghost predicate Covered(ms: seq<Match>, p: nat) {
    exists i | 0 <= i < |ms| :: ms[i].start <= p < ms[i].end
  }

  /** The search misses no match: every position where the matcher answers
      yes is inside a reported span (a match that starts inside an earlier
      one is skipped, as `re.findall` does). */
  lemma {:induction false} SearchComplete<P>(mp: (P, string) -> Option<Match>, pat: P, g: nat, s: string, from: nat, p: nat)
    requires PrefixMatcher(mp, pat, g) && from <= p < |s|
    requires At(mp, pat, s, p).Some?
    ensures Covered(Search(mp, pat, g, s, from), p)
    decreases |s| - from
  {
    var r := mp(pat, s[from..]);
    if r.Some? {
      var head := Match(from, from + r.value.end, r.value.groups);
      var rest := Search(mp, pat, g, s, head.end);
      assert Search(mp, pat, g, s, from) == [head] + rest;
      if p < head.end {
        CoveredHead(head, rest, p);
      } else {
        SearchComplete(mp, pat, g, s, head.end, p);
        CoveredTail(head, rest, p);
      }
    } else {
      assert Search(mp, pat, g, s, from) == Search(mp, pat, g, s, from + 1);
      SearchComplete(mp, pat, g, s, from + 1, p);
    }
  }

  lemma CoveredHead(m: Match, rest: seq<Match>, p: nat)
    requires m.start <= p < m.end
    ensures Covered([m] + rest, p)
  {
    assert ([m] + rest)[0] == m;
  }

  lemma CoveredTail(m: Match, rest: seq<Match>, p: nat)
    requires Covered(rest, p)
    ensures Covered([m] + rest, p)
  {
    var i :| 0 <= i < |rest| && rest[i].start <= p < rest[i].end;
    assert ([m] + rest)[i + 1] == rest[i];
  }

  /** With no match at any position from `from` on, the search finds nothing. */
  lemma {:induction false} SearchNone<P>(mp: (P, string) -> Option<Match>, pat: P, g: nat, s: string, from: nat)
    requires PrefixMatcher(mp, pat, g) && from <= |s|
    requires forall p | from <= p < |s| :: At(mp, pat, s, p).None?
    ensures Search(mp, pat, g, s, from) == []
    decreases |s| - from
  {
    if from < |s| {
      assert At(mp, pat, s, from).None?;
      SearchNone(mp, pat, g, s, from + 1);
    }
  }

  /** Cutting the text short changes nothing the search reports when no
      match starts in the cut-off part and every match that starts before
      the cut is the same in both texts. */
  lemma {:induction false} SearchPrefix<P>(mp: (P, string) -> Option<Match>, pat: P, g: nat, s: string, t: string, from: nat)
    requires PrefixMatcher(mp, pat, g) && from <= |t| <= |s|
    requires forall q | from <= q < |t| :: At(mp, pat, s, q) == At(mp, pat, t, q)
    requires forall q | |t| <= q < |s| :: At(mp, pat, s, q).None?
    ensures Search(mp, pat, g, s, from) == Search(mp, pat, g, t, from)
    decreases |t| - from
  {
    if from == |t| {
      SearchNone(mp, pat, g, s, from);
    } else if At(mp, pat, s, from).Some? {
      var m := At(mp, pat, s, from).value;
      assert At(mp, pat, t, from) == Some(m);
      SearchHit(mp, pat, g, s, from);
      SearchHit(mp, pat, g, t, from);
      SearchPrefix(mp, pat, g, s, t, m.end);
    } else {
      assert At(mp, pat, t, from).None?;
      assert Search(mp, pat, g, s, from) == Search(mp, pat, g, s, from + 1);
      assert Search(mp, pat, g, t, from) == Search(mp, pat, g, t, from + 1);
      SearchPrefix(mp, pat, g, s, t, from + 1);
    }
  }

  /** Two match lists report the same `findall` items. */
  predicate SameGroups(a: seq<Match>, b: seq<Match>) {
    |a| == |b| && forall i | 0 <= i < |a| :: a[i].groups == b[i].groups
  }

  /** Same groups extend under a common head. */
  lemma ConsSameGroups(m: Match, a: seq<Match>, n: Match, b: seq<Match>)
    requires m.groups == n.groups && SameGroups(a, b)
    ensures SameGroups([m] + a, [n] + b)
  {
    forall i | 0 <= i < |a| + 1 ensures ([m] + a)[i].groups == ([n] + b)[i].groups {
      if i > 0 { assert ([m] + a)[i] == a[i - 1]; assert ([n] + b)[i] == b[i - 1]; }
    }
  }

  /** Texts that agree from `p` and `q` on agree from any later point on. */
  lemma LaterSuffixes(s: string, p: nat, t: string, q: nat, d: nat)
    requires p + d <= |s| && q <= |t| && s[p..] == t[q..]
    ensures q + d <= |t| && s[p + d..] == t[q + d..]
  {
    assert s[p + d..] == s[p..][d..];
    assert t[q + d..] == t[q..][d..];
  }

  /** What the search reports depends only on the text from where it starts:
      two texts that agree from `p` and `q` on yield the same items. */
  lemma {:induction false} SearchLocal<P>(mp: (P, string) -> Option<Match>, pat: P, g: nat, s: string, p: nat, t: string, q: nat)
    requires PrefixMatcher(mp, pat, g) && p <= |s| && q <= |t| && s[p..] == t[q..]
    ensures SameGroups(Search(mp, pat, g, s, p), Search(mp, pat, g, t, q))
    decreases |s| - p
  {
    if p < |s| {
      var r := mp(pat, s[p..]);
      if r.Some? {
        var d := r.value.end;
        var a := Search(mp, pat, g, s, p + d);
        var b := Search(mp, pat, g, t, q + d);
        LaterSuffixes(s, p, t, q, d);
        assert Search(mp, pat, g, s, p) == [Match(p, p + d, r.value.groups)] + a;
        assert Search(mp, pat, g, t, q) == [Match(q, q + d, r.value.groups)] + b;
        SearchLocal(mp, pat, g, s, p + d, t, q + d);
        ConsSameGroups(Match(p, p + d, r.value.groups), a, Match(q, q + d, r.value.groups), b);
      } else {
        LaterSuffixes(s, p, t, q, 1);
        assert Search(mp, pat, g, s, p) == Search(mp, pat, g, s, p + 1);
        assert Search(mp, pat, g, t, q) == Search(mp, pat, g, t, q + 1);
        SearchLocal(mp, pat, g, s, p + 1, t, q + 1);
      }
    }
  }

  /** What `findall` returns: group `k` of every match. */
  function Group(ms: seq<Match>, k: nat): (gs: seq<string>)
    requires forall i | 0 <= i < |ms| :: k < |ms[i].groups|
    ensures |gs| == |ms|
    ensures forall i | 0 <= i < |ms| :: gs[i] == ms[i].groups[k]
  {
    if |ms| == 0 then [] else [ms[0].groups[k]] + Group(ms[1..], k)
  }

  /** Lists with the same items have the same groups. */
  lemma SameGroupsGroup(a: seq<Match>, b: seq<Match>, k: nat)
    requires SameGroups(a, b)
    requires forall i | 0 <= i < |a| :: k < |a[i].groups|
    ensures Group(a, k) == Group(b, k)
  {
  }
}
