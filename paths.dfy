/**
  The part of Python's `posixpath` that the converter uses (`join`, `basename`,
  `dirname`, `splitext`) and `str.replace`, over '/'-separated strings.
 */
module Paths {
  const Sep: char := '/'
  const ExtSep: char := '.'

  /** `s.endswith(suffix)`, compared character by character (case-sensitive). */
  predicate EndsWith(s: string, suffix: string)
  {
    |suffix| <= |s| && s[|s| - |suffix|..] == suffix
  }

  predicate IsPrefix(prefix: string, s: string)
  {
    |prefix| <= |s| && s[..|prefix|] == prefix
  }

  /** `t` occurs in `s` starting at index `i`. */
  predicate OccursAt(s: string, t: string, i: int)
  {
    0 <= i && i + |t| <= |s| && s[i..i + |t|] == t
  }

  /** `t` occurs somewhere in `s`. */
  ghost predicate Occurs(s: string, t: string)
  {
    exists i :: OccursAt(s, t, i)
  }

  /** `s.rfind(c)`: the index of the last `c` in `s`, or -1. */
  function LastIndex(s: string, c: char): (r: int)
    ensures -1 <= r < |s|
    ensures r >= 0 ==> s[r] == c
    ensures forall j :: r < j < |s| ==> s[j] != c
  {
    if s == [] then -1
    else if s[|s| - 1] == c then |s| - 1
    else LastIndex(s[..|s| - 1], c)
  }

  /** Everything up to and including the last separator (the `head` of `posixpath.split`). */
  function Head(p: string): string
  {
    p[..LastIndex(p, Sep) + 1]
  }

  /** `posixpath.basename`: the longest suffix of `p` without a separator. */
  function Basename(p: string): (r: string)
    ensures Sep !in r
    ensures EndsWith(p, r)
    ensures |r| == |p| || p[|p| - |r| - 1] == Sep
  {
    p[LastIndex(p, Sep) + 1..]
  }

  /** `s.rstrip('/')`. */
  function StripTrailingSeps(s: string): (r: string)
    ensures IsPrefix(r, s)
    ensures r == [] || r[|r| - 1] != Sep
    ensures forall j :: |r| <= j < |s| ==> s[j] == Sep
  {
    if s != [] && s[|s| - 1] == Sep then StripTrailingSeps(s[..|s| - 1]) else s
  }

  predicate AllSeps(s: string)
  {
    forall j :: 0 <= j < |s| ==> s[j] == Sep
  }

  /**
    `posixpath.dirname`: the head of the path with its trailing separators
    removed, unless the head is made of separators only.
   */
  function Dirname(p: string): (r: string)
    ensures IsPrefix(r, p) && IsPrefix(r, Head(p))
    ensures Sep !in p ==> r == []
    ensures Sep in p ==> r != []
    ensures forall j :: |r| <= j <= LastIndex(p, Sep) ==> p[j] == Sep
    ensures r != [] && r[|r| - 1] == Sep ==> AllSeps(r) && |r| == |Head(p)|
  {
    var head := Head(p);
    if head != [] && !AllSeps(head) then
      var r := StripTrailingSeps(head);
      assert r != [] by {
        var j :| 0 <= j < |head| && head[j] != Sep;
      }
      r
    else
      head
  }

  /**
    `posixpath.join(a, b)`: an absolute `b` replaces `a`; otherwise `b` is
    appended, with a separator unless `a` is empty or already ends in one.
   */
  function Join(a: string, b: string): string
  {
    if |b| > 0 && b[0] == Sep then b
    else if a == [] || a[|a| - 1] == Sep then a + b
    else a + [Sep] + b
  }

  /** Some character of `p[lo..hi]` is not a dot. */
  predicate HasNonDot(p: string, lo: int, hi: int)
    requires 0 <= lo && hi <= |p|
  {
    exists k :: lo <= k < hi && p[k] != ExtSep
  }

  /**
    `posixpath.splitext`: the extension is the last dot and what follows it,
    provided that dot lies in the final component and is not one of the
    component's leading dots; otherwise the extension is empty.
   */
  function Splitext(p: string): (string, string)
  {
    var sepIndex := LastIndex(p, Sep);
    var dotIndex := LastIndex(p, ExtSep);
    if dotIndex > sepIndex && HasNonDot(p, sepIndex + 1, dotIndex) then
      (p[..dotIndex], p[dotIndex..])
    else
      (p, [])
  }

  /**
    The root and the extension put back together give the path, and the
    extension is either empty or a dot followed by neither a separator nor
    another dot. An extension is split off exactly when the base name has a
    non-dot before a later dot: then it runs from the last dot, and a
    non-dot comes before it.
   */
  lemma SplitextParts(p: string)
    ensures Splitext(p).0 + Splitext(p).1 == p
    ensures var ext := Splitext(p).1; ext == [] || (ext[0] == ExtSep && Sep !in ext && ExtSep !in ext[1..])
    ensures var b := Basename(p); Splitext(p).1 == [] ==>
      forall i, j :: 0 <= i < j < |b| && b[i] != ExtSep ==> b[j] != ExtSep
    ensures var b := Basename(p); var ext := Splitext(p).1; ext != [] ==>
      exists i :: 0 <= i < |b| - |ext| && b[i] != ExtSep
  {
    var s := LastIndex(p, Sep);
    var d := LastIndex(p, ExtSep);
    if d > s && HasNonDot(p, s + 1, d) {
      assert Splitext(p) == (p[..d], p[d..]);
      ExtensionShape(p, s, d);
      NonDotBeforeExtension(p, s, d);
    } else {
      assert Splitext(p) == (p, []);
      NoDotAfterNonDot(p, s, d);
    }
  }

  /** The text from the last dot on, when it follows the last separator. */
  lemma ExtensionShape(p: string, s: int, d: int)
    requires s < d && LastIndex(p, Sep) == s && LastIndex(p, ExtSep) == d
    ensures p[..d] + p[d..] == p
    ensures var ext := p[d..]; ext[0] == ExtSep && Sep !in ext && ExtSep !in ext[1..]
  {
    var ext := p[d..];
    forall j | 0 <= j < |ext|
      ensures ext[j] != Sep && (j > 0 ==> ext[j] != ExtSep)
    {
      assert ext[j] == p[d + j];
    }
  }

  /** When an extension is split off at `d`, a non-dot of the base name precedes it. */
  lemma NonDotBeforeExtension(p: string, s: int, d: int)
    requires -1 <= s < d <= |p| && LastIndex(p, Sep) == s && HasNonDot(p, s + 1, d)
    ensures exists i :: 0 <= i < |Basename(p)| - (|p| - d) && Basename(p)[i] != ExtSep
  {
    assert Basename(p) == p[s + 1..];
    NonDotInSuffix(p, s + 1, d);
  }

  /** A non-dot in `p[k..d]` is a non-dot among the first `d - k` characters of `p[k..]`. */
  lemma NonDotInSuffix(p: string, k: int, d: int)
    requires 0 <= k <= d <= |p| && HasNonDot(p, k, d)
    ensures exists i :: 0 <= i < d - k && p[k..][i] != ExtSep
  {
    var i :| k <= i < d && p[i] != ExtSep;
    assert p[k..][i - k] == p[i];
  }

  /** When no extension is split off, no dot of the base name follows a non-dot. */
  lemma NoDotAfterNonDot(p: string, s: int, d: int)
    requires LastIndex(p, Sep) == s && LastIndex(p, ExtSep) == d
    requires !(d > s && HasNonDot(p, s + 1, d))
    ensures var b := Basename(p); forall i, j :: 0 <= i < j < |b| && b[i] != ExtSep ==> b[j] != ExtSep
  {
    var b := Basename(p);
    assert b == p[s + 1..];
    forall i, j | 0 <= i < j < |b| && b[i] != ExtSep
      ensures b[j] != ExtSep
    {
      assert b[i] == p[s + 1 + i] && b[j] == p[s + 1 + j];
    }
  }

  /** Python's `"".replace("", rep)` case: `rep` before every character and at the end. */
  function InsertEverywhere(s: string, rep: string): string
  {
    if s == [] then rep else rep + [s[0]] + InsertEverywhere(s[1..], rep)
  }

  /**
    `s.replace(pat, rep)`: every non-overlapping occurrence of `pat`, scanned
    from the left, is replaced by `rep`.
   */
  function ReplaceAll(s: string, pat: string, rep: string): string
    decreases |s|
  {
    if pat == [] then InsertEverywhere(s, rep)
    else if |s| < |pat| then s
    else if s[..|pat|] == pat then rep + ReplaceAll(s[|pat|..], pat, rep)
    else [s[0]] + ReplaceAll(s[1..], pat, rep)
  }

  /** A string in which `pat` does not occur is left unchanged by the replacement. */
  lemma {:induction false} ReplaceAbsent(s: string, pat: string, rep: string)
    requires pat != [] && !Occurs(s, pat)
    ensures ReplaceAll(s, pat, rep) == s
    decreases |s|
  {
    if |s| >= |pat| {
      assert !OccursAt(s, pat, 0);
      assert !Occurs(s[1..], pat) by {
        forall i ensures !OccursAt(s[1..], pat, i) {
          assert !OccursAt(s, pat, i + 1);
          if 0 <= i && i + |pat| <= |s[1..]| {
            assert s[1..][i..i + |pat|] == s[i + 1..i + 1 + |pat|];
          }
        }
      }
      ReplaceAbsent(s[1..], pat, rep);
    }
  }

  /** A leading occurrence of `pat` is replaced, and the scan resumes after it. */
  lemma ReplaceFront(pat: string, rest: string, rep: string)
    requires pat != []
    ensures ReplaceAll(pat + rest, pat, rep) == rep + ReplaceAll(rest, pat, rep)
  {
    var s := pat + rest;
    assert s[..|pat|] == pat && s[|pat|..] == rest;
  }

  /**
    When `pat` occurs in `pat + rest` only as its prefix, replacing every
    occurrence is the same as replacing the prefix.
   */
  lemma ReplacePrefixOnly(pat: string, rest: string, rep: string)
    requires pat != [] && !Occurs(rest, pat)
    ensures ReplaceAll(pat + rest, pat, rep) == rep + rest
  {
    ReplaceFront(pat, rest, rep);
    ReplaceAbsent(rest, pat, rep);
  }

  /** The directory part of `d + "/" + name` is `d`, when `d` is a non-empty path without a trailing separator. */
  lemma DirnameOfChild(d: string, name: string)
    requires d != [] && d[|d| - 1] != Sep && Sep !in name
    ensures Dirname(d + [Sep] + name) == d
  {
    var p := d + [Sep] + name;
    var k := LastIndex(p, Sep);
    assert p[|d|] == Sep;
    assert k == |d|;
    assert Head(p) == d + [Sep];
    assert !AllSeps(Head(p)) by { assert Head(p)[|d| - 1] != Sep; }
    assert StripTrailingSeps(d + [Sep]) == StripTrailingSeps(d) by {
      assert (d + [Sep])[..|d|] == d;
    }
  }

  /** `LastIndex` is determined by its contract. */
  lemma LastIndexUnique(s: string, c: char, r: int)
    requires -1 <= r < |s| && (r >= 0 ==> s[r] == c)
    requires forall j :: r < j < |s| ==> s[j] != c
    ensures LastIndex(s, c) == r
  {
  }

  /** The last `c` of a suffix `p[k..]`, in terms of the last `c` of `p`. */
  lemma LastIndexSuffix(p: string, k: int, c: char)
    requires 0 <= k <= |p|
    ensures LastIndex(p[k..], c) == if LastIndex(p, c) >= k then LastIndex(p, c) - k else -1
  {
    var r := LastIndex(p, c);
    LastIndexUnique(p[k..], c, if r >= k then r - k else -1);
  }

  /** The base name of `d` joined with a plain name is that name. */
  lemma BasenameOfJoin(d: string, n: string)
    requires n != [] && Sep !in n
    ensures Basename(Join(d, n)) == n
  {
    var j := Join(d, n);
    if d == [] || d[|d| - 1] == Sep {
      LastIndexUnique(j, Sep, |d| - 1);
    } else {
      LastIndexUnique(j, Sep, |d|);
    }
  }

  /** Looking for a non-dot in `p[lo..hi]` is the same as looking in the shifted suffix. */
  lemma HasNonDotShift(p: string, k: int, lo: int, hi: int)
    requires 0 <= k <= lo <= hi <= |p|
    ensures HasNonDot(p, lo, hi) <==> HasNonDot(p[k..], lo - k, hi - k)
  {
    if HasNonDot(p, lo, hi) {
      var i :| lo <= i < hi && p[i] != ExtSep;
      assert p[k..][i - k] == p[i];
    }
    if HasNonDot(p[k..], lo - k, hi - k) {
      var i :| lo - k <= i < hi - k && p[k..][i] != ExtSep;
      assert p[i + k] == p[k..][i];
    }
  }

  /**
    Splitting the extension off a whole path only touches its base name: the
    root is the head followed by the root of the base name.
   */
  lemma SplitextOfBasename(p: string)
    ensures Splitext(p).0 == Head(p) + Splitext(Basename(p)).0
    ensures Splitext(p).1 == Splitext(Basename(p)).1
  {
    var s := LastIndex(p, Sep);
    var d := LastIndex(p, ExtSep);
    if d > s && HasNonDot(p, s + 1, d) {
      SplitAtDot(p, s, d);
    } else {
      NoSplit(p, s, d);
    }
  }

  /** Cutting `p` at `d`, seen through its suffix from `k`. */
  lemma SliceAt(p: string, k: int, d: int)
    requires 0 <= k <= d <= |p|
    ensures p[..d] == p[..k] + p[k..][..d - k]
    ensures p[d..] == p[k..][d - k..]
  {
  }

  lemma SplitextAt(q: string, s: int, e: int)
    requires LastIndex(q, Sep) == s && LastIndex(q, ExtSep) == e && s < e && HasNonDot(q, s + 1, e)
    ensures Splitext(q) == (q[..e], q[e..])
  {
  }

  /** The case of `SplitextOfBasename` where the path has an extension. */
  lemma SplitAtDot(p: string, s: int, d: int)
    requires -1 <= s < d < |p|
    requires LastIndex(p, Sep) == s && LastIndex(p, ExtSep) == d && HasNonDot(p, s + 1, d)
    ensures Splitext(p).0 == p[..s + 1] + Splitext(p[s + 1..]).0
    ensures Splitext(p).1 == Splitext(p[s + 1..]).1
  {
    SuffixFacts(p, s, d);
    SplitextAt(p[s + 1..], -1, d - s - 1);
    SplitextAt(p, s, d);
    SliceAt(p, s + 1, d);
  }

  /** The base name `p[s + 1..]` has no separator, its last dot at `d - s - 1`, and a non-dot before it. */
  lemma SuffixFacts(p: string, s: int, d: int)
    requires -1 <= s < d < |p|
    requires LastIndex(p, Sep) == s && LastIndex(p, ExtSep) == d && HasNonDot(p, s + 1, d)
    ensures var b := p[s + 1..]; LastIndex(b, Sep) == -1 && LastIndex(b, ExtSep) == d - s - 1
    ensures HasNonDot(p[s + 1..], 0, d - s - 1)
  {
    LastIndexSuffix(p, s + 1, Sep);
    LastIndexSuffix(p, s + 1, ExtSep);
    HasNonDotShift(p, s + 1, s + 1, d);
  }

  /** The case of `SplitextOfBasename` where the path has no extension. */
  lemma NoSplit(p: string, s: int, d: int)
    requires -1 <= s < |p| && LastIndex(p, Sep) == s && LastIndex(p, ExtSep) == d
    requires !(d > s && HasNonDot(p, s + 1, d))
    ensures Splitext(p).0 == p[..s + 1] + Splitext(p[s + 1..]).0
    ensures Splitext(p).1 == Splitext(p[s + 1..]).1
  {
    var b := p[s + 1..];
    var e := if d > s then d - s - 1 else -1;
    SuffixNoSplit(p, s, d);
    NoSplitAt(b, -1, e);
    NoSplitAt(p, s, d);
    assert p == p[..s + 1] + b;
  }

  /** The base name `p[s + 1..]` has no separator and no dot after a non-dot. */
  lemma SuffixNoSplit(p: string, s: int, d: int)
    requires -1 <= s < |p| && LastIndex(p, Sep) == s && LastIndex(p, ExtSep) == d
    requires !(d > s && HasNonDot(p, s + 1, d))
    ensures var b := p[s + 1..]; var e := if d > s then d - s - 1 else -1;
      LastIndex(b, Sep) == -1 && LastIndex(b, ExtSep) == e && !(e > -1 && HasNonDot(b, 0, e))
  {
    LastIndexSuffix(p, s + 1, Sep);
    LastIndexSuffix(p, s + 1, ExtSep);
    if d > s {
      HasNonDotShift(p, s + 1, s + 1, d);
    }
  }

  lemma NoSplitAt(q: string, s: int, e: int)
    requires LastIndex(q, Sep) == s && LastIndex(q, ExtSep) == e && !(e > s && HasNonDot(q, s + 1, e))
    ensures Splitext(q) == (q, [])
  {
  }
}
