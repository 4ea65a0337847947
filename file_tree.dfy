/**
  `get_all_files` (doc2pdf.py:36-52): the recursive listing of every regular
  file under a path. The filesystem is an immutable tree whose directory
  entries are in the order `os.scandir` yields them.
 */
module FileTree {
  import opened Options
  import opened Paths

  /**
    What a path names on disk: a regular file, a directory with its entries,
    or something that exists but is neither (a socket, a device, a pipe).
   */
  datatype Entry =
    | File(name: string)
    | Dir(name: string, entries: seq<Entry>)
    | Other(name: string)

  /** `DirEntry.path` for an entry `name` of the directory scanned at `dir`. */
  function EntryPath(dir: string, name: string): string
  {
    Join(dir, name)
  }

  /** `os.path.join(path, i)` at lines 46 and 48: the directory joined with the entry's own path. */
  function ChildPath(dir: string, name: string): string
  {
    Join(dir, EntryPath(dir, name))
  }

  /** The files listed for `path` when `path` names `e`. */
  function Walk(path: string, e: Entry): seq<string>
    decreases e
  {
    match e
    case File(_) => [path]
    case Other(_) => []
    case Dir(_, es) => WalkEntries(path, es)
  }

  /** The files listed for the directory `dir` from its entries `es`, in order. */
  function WalkEntries(dir: string, es: seq<Entry>): seq<string>
    decreases es
  {
    if es == [] then []
    else
      var last := es[|es| - 1];
      WalkEntries(dir, es[..|es| - 1]) + Walk(ChildPath(dir, last.name), last)
  }

  /** The result of `get_all_files(path)` when `node` is what `path` names (`None`: nothing exists there). */
  function Listing(path: string, node: Option<Entry>): seq<string>
  {
    match node
    case None => []
    case Some(e) => Walk(path, e)
  }

  /** The recursion measure of `GetAllFiles`: the number of entries in the tree. */
  function Size(e: Entry): nat
  {
    match e
    case Dir(_, es) => 1 + SizeEntries(es)
    case _ => 1
  }

  function SizeEntries(es: seq<Entry>): nat
  {
    if es == [] then 0 else SizeEntries(es[..|es| - 1]) + Size(es[|es| - 1])
  }

  lemma {:induction false} EntrySmaller(es: seq<Entry>, k: int)
    requires 0 <= k < |es|
    ensures Size(es[k]) <= SizeEntries(es)
    decreases |es|
  {
    if k < |es| - 1 {
      EntrySmaller(es[..|es| - 1], k);
    }
  }

  function NodeSize(node: Option<Entry>): nat
  {
    if node.Some? then Size(node.value) else 0
  }

  /**
    `get_all_files`: a directory contributes, entry by entry, the recursive
    listing of each sub-directory and the joined path of each file; a file
    lists itself; a missing path, and anything else, lists nothing. The path
    is absolute: below a relative one the source looks up the doubled path
    of `RelativeChildPath` on disk, which the tree does not model.
   */
  method GetAllFiles(path: string, node: Option<Entry>) returns (files: seq<string>)
    requires Absolute(path)
    ensures files == Listing(path, node)
    ensures node.None? ==> files == []
    ensures node.Some? && node.value.File? ==> files == [path]
    decreases NodeSize(node)
  {
    files := [];
    if node.Some? && node.value.Dir? {
      var es := node.value.entries;
      for k := 0 to |es|
        invariant files == WalkEntries(path, es[..k])
      {
        var i := es[k];
        assert es[..k + 1][..k] == es[..k];
        if i.Dir? {
          EntrySmaller(es, k);
          AbsoluteChild(path, i.name);
          var sub := GetAllFiles(ChildPath(path, i.name), Some(i));
          files := files + sub;
        }
        if i.File? {
          files := files + [ChildPath(path, i.name)];
        }
      }
      assert es[..|es|] == es;
    } else if node.Some? && node.value.File? {
      files := files + [path];
    }
  }

  /** `path` names, or lies below, `e`, and is a regular file. */
  ghost predicate Reaches(path: string, e: Entry, p: string)
    decreases e, 1
  {
    match e
    case File(_) => p == path
    case Other(_) => false
    case Dir(_, es) => ReachesAmong(path, es, p)
  }

  /** `p` is reachable through some entry `es[k]` of the directory `dir`. */
  ghost predicate ReachesAmong(dir: string, es: seq<Entry>, p: string)
    decreases es, 1
  {
    exists k :: 0 <= k < |es| && ReachesVia(dir, es, k, p)
  }

  ghost predicate ReachesVia(dir: string, es: seq<Entry>, k: int, p: string)
    requires 0 <= k < |es|
    decreases es, 0
  {
    Reaches(ChildPath(dir, es[k].name), es[k], p)
  }

  /** The listing holds exactly the regular files reachable from the root. */
  lemma {:induction false} WalkComplete(path: string, e: Entry, p: string)
    ensures p in Walk(path, e) <==> Reaches(path, e, p)
    decreases e, 1
  {
    match e
    case File(_) =>
    case Other(_) =>
    case Dir(_, es) => WalkEntriesComplete(path, e, es, p);
  }

  lemma {:induction false} WalkEntriesComplete(dir: string, parent: Entry, es: seq<Entry>, p: string)
    requires parent.Dir? && es <= parent.entries
    ensures p in WalkEntries(dir, es) <==> ReachesAmong(dir, es, p)
    decreases parent, 0, |es|
  {
    if es != [] {
      var n := |es| - 1;
      var init := es[..n];
      var tail := Walk(ChildPath(dir, es[n].name), es[n]);
      assert WalkEntries(dir, es) == WalkEntries(dir, init) + tail;
      WalkEntriesComplete(dir, parent, init, p);
      WalkComplete(ChildPath(dir, es[n].name), es[n], p);
      forall k | 0 <= k < n
        ensures ReachesVia(dir, es, k, p) <==> ReachesVia(dir, init, k, p)
      {
        assert es[k] == init[k];
      }
      if p in WalkEntries(dir, init) {
        var k :| 0 <= k < |init| && ReachesVia(dir, init, k, p);
        assert ReachesVia(dir, es, k, p);
      } else if p in tail {
        assert ReachesVia(dir, es, n, p);
      } else {
        assert !ReachesAmong(dir, init, p);
        assert !ReachesVia(dir, es, n, p);
      }
    }
  }

  /** A directory entry name as `os.scandir` yields it: non-empty, without a separator. */
  predicate ValidName(name: string)
  {
    name != [] && Sep !in name
  }

  /** Entry names are valid and unique within each directory. */
  ghost predicate WellFormed(e: Entry)
    decreases e
  {
    match e
    case Dir(_, es) =>
      && (forall i, j :: 0 <= i < j < |es| ==> es[i].name != es[j].name)
      && (forall k :: 0 <= k < |es| ==> ValidName(es[k].name) && WellFormed(es[k]))
    case _ => true
  }

  predicate Absolute(path: string)
  {
    path != [] && path[0] == Sep
  }

  /** `path` with one separator appended unless it already ends in one. */
  function Slashed(path: string): string
  {
    if path != [] && path[|path| - 1] == Sep then path else path + [Sep]
  }

  /**
    Below an absolute directory, the path built at lines 46 and 48 is the
    directory joined with the entry name: the entry's own path is absolute,
    so the outer join keeps it.
   */
  lemma AbsoluteChildPath(dir: string, name: string)
    requires Absolute(dir) && ValidName(name)
    ensures ChildPath(dir, name) == Join(dir, name) == Slashed(dir) + name
  {
  }

  /** Every path joined below an absolute directory is absolute. */
  lemma AbsoluteChild(dir: string, name: string)
    requires Absolute(dir)
    ensures Absolute(EntryPath(dir, name)) && Absolute(ChildPath(dir, name))
  {
  }

  /** Below a relative directory the directory is joined twice. */
  lemma RelativeChildPath()
    ensures ChildPath("docs", "a.doc") == "docs/docs/a.doc"
  {
  }

  /** `p` is the path `q` itself or lies below it. */
  predicate Under(q: string, p: string)
  {
    p == q || IsPrefix(q + [Sep], p)
  }

  /** Every file reachable from an absolute path without a trailing separator lies at or below it. */
  lemma {:induction false} ReachesUnder(q: string, e: Entry, p: string)
    requires Absolute(q) && q[|q| - 1] != Sep && WellFormed(e) && Reaches(q, e, p)
    ensures Under(q, p)
    decreases e
  {
    match e
    case File(_) =>
    case Dir(_, es) =>
      assert ReachesAmong(q, es, p);
      var k :| 0 <= k < |es| && ReachesVia(q, es, k, p);
      var child := ChildPath(q, es[k].name);
      AbsoluteChildPath(q, es[k].name);
      assert child == q + [Sep] + es[k].name;
      ReachesUnder(child, es[k], p);
      assert IsPrefix(q + [Sep], child + [Sep]);
  }

  /** What lies at or below `d + n` continues, after `d`, with `n` alone or `n` and a separator. */
  lemma UnderSplit(d: string, n: string, p: string)
    requires Under(d + n, p)
    ensures IsPrefix(d, p)
    ensures p[|d|..] == n || IsPrefix(n + [Sep], p[|d|..])
  {
    if p == d + n {
      assert p[|d|..] == n;
    } else {
      assert p[..|d + n + [Sep]|] == d + n + [Sep];
      assert p[|d|..][..|n| + 1] == p[|d|..|d| + |n| + 1] == (d + n + [Sep])[|d|..];
      assert (d + n + [Sep])[|d|..] == n + [Sep];
    }
  }

  /** Two different entries of one directory lead to disjoint sets of paths. */
  lemma SeparateBranches(d: string, n1: string, n2: string, p: string)
    requires ValidName(n1) && ValidName(n2) && n1 != n2
    ensures !(Under(d + n1, p) && Under(d + n2, p))
  {
    if Under(d + n1, p) && Under(d + n2, p) {
      if |n1| <= |n2| {
        SameBranch(d, n1, n2, p);
      } else {
        SameBranch(d, n2, n1, p);
      }
    }
  }

  /** A path at or below both `d + n1` and `d + n2` forces `n1 == n2`. */
  lemma SameBranch(d: string, n1: string, n2: string, p: string)
    requires ValidName(n1) && ValidName(n2) && |n1| <= |n2|
    requires Under(d + n1, p) && Under(d + n2, p)
    ensures n1 == n2
  {
    UnderSplit(d, n1, p);
    UnderSplit(d, n2, p);
    var r := p[|d|..];
    assert r[..|n2|] == n2;
    assert forall j :: 0 <= j < |n2| ==> r[j] == n2[j] != Sep;
    assert r[..|n1|] == n1;
    assert r == n1 || (|n1| < |r| && r[|n1|] == Sep);
    assert |n1| == |n2|;
  }

  /** No path occurs twice in a sequence. */
  predicate Distinct(s: seq<string>)
  {
    forall i, j :: 0 <= i < j < |s| ==> s[i] != s[j]
  }

  lemma DistinctConcat(a: seq<string>, b: seq<string>)
    requires Distinct(a) && Distinct(b)
    requires forall i :: 0 <= i < |a| ==> a[i] !in b
    ensures Distinct(a + b)
  {
    var s := a + b;
    forall i, j | 0 <= i < j < |s|
      ensures s[i] != s[j]
    {
      if j < |a| {
        assert s[i] == a[i] && s[j] == a[j];
      } else if i >= |a| {
        assert s[i] == b[i - |a|] && s[j] == b[j - |a|];
      } else {
        assert s[i] == a[i] && s[j] == b[j - |a|] && b[j - |a|] in b;
      }
    }
  }

  /** The listing of a well-formed tree under an absolute path has no duplicates. */
  lemma {:induction false} WalkDistinct(path: string, e: Entry)
    requires Absolute(path) && WellFormed(e)
    ensures Distinct(Walk(path, e))
    decreases e, 1
  {
    match e
    case File(_) =>
    case Other(_) =>
    case Dir(_, es) =>
      WalkEntriesDistinct(path, e, |es|);
      assert es[..|es|] == es;
  }

  /** The listing of the first `n` entries of a well-formed directory has no duplicates. */
  lemma {:induction false} WalkEntriesDistinct(dir: string, parent: Entry, n: nat)
    requires Absolute(dir) && WellFormed(parent) && parent.Dir? && n <= |parent.entries|
    ensures Distinct(WalkEntries(dir, parent.entries[..n]))
    decreases parent, 0, n
  {
    if n > 0 {
      var es := parent.entries[..n];
      var init := parent.entries[..n - 1];
      assert es[..n - 1] == init;
      var last := es[n - 1];
      var lastPath := ChildPath(dir, last.name);
      assert WalkEntries(dir, es) == WalkEntries(dir, init) + Walk(lastPath, last);
      WalkEntriesDistinct(dir, parent, n - 1);
      AbsoluteChildPath(dir, last.name);
      WalkDistinct(lastPath, last);
      forall p | p in WalkEntries(dir, init)
        ensures p !in Walk(lastPath, last)
      {
        EarlierEntriesApart(dir, parent, n, p);
      }
      DistinctConcat(WalkEntries(dir, init), Walk(lastPath, last));
    }
  }

  /** A path listed for one of the first `n - 1` entries is not listed for entry `n - 1`. */
  lemma EarlierEntriesApart(dir: string, parent: Entry, n: nat, p: string)
    requires Absolute(dir) && WellFormed(parent) && parent.Dir? && 0 < n <= |parent.entries|
    requires p in WalkEntries(dir, parent.entries[..n - 1])
    ensures p !in Walk(ChildPath(dir, parent.entries[n - 1].name), parent.entries[n - 1])
  {
    var es := parent.entries;
    var init := es[..n - 1];
    WalkEntriesComplete(dir, parent, init, p);
    var k :| 0 <= k < |init| && ReachesVia(dir, init, k, p);
    assert init[k] == es[k];
    var kPath := ChildPath(dir, es[k].name);
    AbsoluteChildPath(dir, es[k].name);
    ReachesUnder(kPath, es[k], p);
    var lastPath := ChildPath(dir, es[n - 1].name);
    AbsoluteChildPath(dir, es[n - 1].name);
    WalkComplete(lastPath, es[n - 1], p);
    if Reaches(lastPath, es[n - 1], p) {
      ReachesUnder(lastPath, es[n - 1], p);
      SeparateBranches(Slashed(dir), es[k].name, es[n - 1].name, p);
    }
  }
}
