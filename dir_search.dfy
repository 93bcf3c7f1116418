/**
 * `find_dir`: look for a directory with the wanted name among the children
 * of a directory and, under each child directory, among its children; when
 * that two-level neighbourhood has none, repeat from the parent directory.
 *
 * The filesystem is an abstract tree: a path is the list of its segments
 * below the root (`[]` is the root) and a listing gives each directory's
 * entries in enumeration order.
 */
module DirSearch {
  import opened Wrappers

  type Path = seq<string>

  datatype Entry = Entry(name: string, isDir: bool)

  type FileSystem = map<Path, seq<Entry>>

  /** The entries directory_iterator yields for `p`; a path with no listing has none. */
  function Listing(fs: FileSystem, p: Path): seq<Entry> {
    if p in fs then fs[p] else []
  }

  /** parent_path() of a path that has a parent. */
  function Parent(p: Path): Path
    requires |p| > 0
  {
    p[..|p| - 1]
  }

  /** The path's final segment, its filename, equals `t`. */
  predicate Named(q: Path, t: string) {
    |q| > 0 && q[|q| - 1] == t
  }

  /** `q` is listed as a directory inside its parent. */
  predicate IsDirAt(fs: FileSystem, q: Path) {
    |q| > 0 && Entry(q[|q| - 1], true) in Listing(fs, Parent(q))
  }

  /** `q` is a child or grandchild of `p` or of one of `p`'s ancestors. */
  predicate NearAncestor(q: Path, p: Path) {
    (1 <= |q| <= |p| + 1 && q[..|q| - 1] == p[..|q| - 1]) ||
    (2 <= |q| <= |p| + 2 && q[..|q| - 2] == p[..|q| - 2])
  }

  /** The inner loop: the first entry of `nested` that is named `t` and is a directory. */
  function ScanNested(d: Path, nested: seq<Entry>, t: string): (r: Option<Path>)
    ensures r.Some? ==> r.value == d + [t] && Entry(t, true) in nested
    decreases |nested|
  {
    if |nested| == 0 then None
    else if nested[0].name == t && nested[0].isDir then Some(d + [nested[0].name])
    else ScanNested(d, nested[1..], t)
  }

  /**
   * The outer loop over the entries `kids` of `p`: a child directory named
   * `t` is returned at once; otherwise that child's own entries are scanned
   * before the next child is looked at.
   */
  function ScanChildren(fs: FileSystem, p: Path, kids: seq<Entry>, t: string): (r: Option<Path>)
    ensures r.Some? ==> Named(r.value, t) && |p| < |r.value| <= |p| + 2 && r.value[..|p|] == p
    ensures r.Some? && |r.value| == |p| + 1 ==> Entry(t, true) in kids
    ensures r.Some? && |r.value| == |p| + 2 ==>
              Entry(r.value[|p|], true) in kids && Entry(t, true) in Listing(fs, Parent(r.value))
    decreases |kids|
  {
    if |kids| == 0 then None
    else
      var e := kids[0];
      if e.isDir then
        if e.name == t then Some(p + [e.name])
        else
          match ScanNested(p + [e.name], Listing(fs, p + [e.name]), t)
          case Some(q) =>
            assert Parent(q) == p + [e.name];
            Some(q)
          case None => ScanChildren(fs, p, kids[1..], t)
      else ScanChildren(fs, p, kids[1..], t)
  }

  /**
   * find_dir with the root treated as having no parent: the first matching
   * directory of the two-level neighbourhood of `p`, else the same search
   * from the parent, else None at the root.
   */
  function FindDir(fs: FileSystem, p: Path, t: string): (r: Option<Path>)
    ensures r.Some? ==> Named(r.value, t) && IsDirAt(fs, r.value) && NearAncestor(r.value, p)
    decreases |p|
  {
    match ScanChildren(fs, p, Listing(fs, p), t)
    case Some(q) =>
      assert q[..|p|] == p;
      assert |q| == |p| + 2 ==> Parent(Parent(q)) == p;
      Some(q)
    case None =>
      if |p| > 0 then
        var r := FindDir(fs, Parent(p), t);
        if r.Some? then NearAncestorOfParent(r.value, p); r else r
      else None
  }

  /** Near an ancestor of the parent is near an ancestor of the path itself. */
  lemma NearAncestorOfParent(q: Path, p: Path)
    requires |p| > 0 && NearAncestor(q, Parent(p))
    ensures NearAncestor(q, p)
  {
    if 1 <= |q| <= |p| && q[..|q| - 1] == Parent(p)[..|q| - 1] {
      assert Parent(p)[..|q| - 1] == p[..|q| - 1];
    } else {
      assert Parent(p)[..|q| - 2] == p[..|q| - 2];
    }
  }

  // ---------------------------------------------------------------------
  // Reference definition: the order in which directories are looked at.
  // ---------------------------------------------------------------------

  /** The directory entries of `nested`, as paths under `d`, in enumeration order. */
  function NestedVisits(d: Path, nested: seq<Entry>): seq<Path>
    decreases |nested|
  {
    if |nested| == 0 then []
    else (if nested[0].isDir then [d + [nested[0].name]] else []) + NestedVisits(d, nested[1..])
  }

  /** Each child directory of `p`, followed by its own directory entries, child by child. */
  function Visits(fs: FileSystem, p: Path, kids: seq<Entry>): seq<Path>
    decreases |kids|
  {
    if |kids| == 0 then []
    else
      var e := kids[0];
      (if e.isDir then [p + [e.name]] + NestedVisits(p + [e.name], Listing(fs, p + [e.name])) else [])
      + Visits(fs, p, kids[1..])
  }

  /** The whole search: the neighbourhood of `p`, then that of each ancestor up to the root. */
  function SearchOrder(fs: FileSystem, p: Path): seq<Path>
    decreases |p|
  {
    Visits(fs, p, Listing(fs, p)) + (if |p| > 0 then SearchOrder(fs, Parent(p)) else [])
  }

  /** Index of the first path named `t`, or |cands| when there is none. */
  function FirstNamedIndex(cands: seq<Path>, t: string): (k: nat)
    ensures k <= |cands|
    ensures forall j :: 0 <= j < k ==> !Named(cands[j], t)
    ensures k < |cands| ==> Named(cands[k], t)
    decreases |cands|
  {
    if |cands| == 0 then 0
    else if Named(cands[0], t) then 0
    else 1 + FirstNamedIndex(cands[1..], t)
  }

  function FirstNamed(cands: seq<Path>, t: string): Option<Path> {
    var k := FirstNamedIndex(cands, t);
    if k < |cands| then Some(cands[k]) else None
  }

  /** The first match in a concatenation is the first in its left part, if any. */
  lemma FirstNamedAppend(a: seq<Path>, b: seq<Path>, t: string)
    ensures FirstNamed(a + b, t) == if FirstNamed(a, t).Some? then FirstNamed(a, t) else FirstNamed(b, t)
  {
    var ka, kb, k := FirstNamedIndex(a, t), FirstNamedIndex(b, t), FirstNamedIndex(a + b, t);
    forall j | 0 <= j < |a|
      ensures (a + b)[j] == a[j]
    {
    }
    forall j | 0 <= j < |b|
      ensures (a + b)[|a| + j] == b[j]
    {
    }
    if ka < |a| {
      assert k == ka;
    } else {
      assert k == |a| + kb;
    }
  }

  lemma FirstNamedCons(c: Path, rest: seq<Path>, t: string)
    ensures FirstNamed([c] + rest, t) == if Named(c, t) then Some(c) else FirstNamed(rest, t)
  {
    assert ([c] + rest)[1..] == rest;
  }

  lemma {:induction false} ScanNestedIsFirstVisited(d: Path, nested: seq<Entry>, t: string)
    ensures ScanNested(d, nested, t) == FirstNamed(NestedVisits(d, nested), t)
    decreases |nested|
  {
    if |nested| > 0 {
      ScanNestedIsFirstVisited(d, nested[1..], t);
      var head := if nested[0].isDir then [d + [nested[0].name]] else [];
      FirstNamedAppend(head, NestedVisits(d, nested[1..]), t);
      if nested[0].isDir {
        FirstNamedCons(d + [nested[0].name], [], t);
      }
    }
  }

  /** The two loops of find_dir return the first directory named `t` in visiting order. */
  lemma {:induction false} ScanChildrenIsFirstVisited(fs: FileSystem, p: Path, kids: seq<Entry>, t: string)
    ensures ScanChildren(fs, p, kids, t) == FirstNamed(Visits(fs, p, kids), t)
    decreases |kids|
  {
    if |kids| > 0 {
      var e := kids[0];
      ScanChildrenIsFirstVisited(fs, p, kids[1..], t);
      var rest := Visits(fs, p, kids[1..]);
      if e.isDir {
        var c := p + [e.name];
        var nested := NestedVisits(c, Listing(fs, c));
        ScanNestedIsFirstVisited(c, Listing(fs, c), t);
        FirstNamedAppend([c] + nested, rest, t);
        FirstNamedCons(c, nested, t);
      } else {
        assert Visits(fs, p, kids) == rest;
      }
    }
  }

  /** find_dir returns the first directory named `t` in the whole search order, or None if none is. */
  lemma {:induction false} FindDirIsFirstInSearchOrder(fs: FileSystem, p: Path, t: string)
    ensures FindDir(fs, p, t) == FirstNamed(SearchOrder(fs, p), t)
    decreases |p|
  {
    ScanChildrenIsFirstVisited(fs, p, Listing(fs, p), t);
    var upper := if |p| > 0 then SearchOrder(fs, Parent(p)) else [];
    FirstNamedAppend(Visits(fs, p, Listing(fs, p)), upper, t);
    if |p| > 0 {
      FindDirIsFirstInSearchOrder(fs, Parent(p), t);
    } else {
      assert FirstNamedIndex(upper, t) == 0;
    }
  }

  /**
   * The answer comes first in the search order, and nothing looked at
   * before it is named `t`; None means nothing in the search order is.
   */
  lemma FindDirIsEarliest(fs: FileSystem, p: Path, t: string)
    ensures var order := SearchOrder(fs, p);
            match FindDir(fs, p, t)
            case Some(q) => exists k :: 0 <= k < |order| && order[k] == q &&
                                        forall j :: 0 <= j < k ==> !Named(order[j], t)
            case None => forall j :: 0 <= j < |order| ==> !Named(order[j], t)
  {
    FindDirIsFirstInSearchOrder(fs, p, t);
    var order := SearchOrder(fs, p);
    var k := FirstNamedIndex(order, t);
    if k < |order| {
      assert order[k] == FindDir(fs, p, t).value;
    }
  }

  /** Every path the neighbourhood visits lies one or two levels below `p`. */
  lemma {:induction false} VisitsAreBelow(fs: FileSystem, p: Path, kids: seq<Entry>, i: nat)
    requires i < |Visits(fs, p, kids)|
    ensures var c := Visits(fs, p, kids)[i];
            |p| < |c| <= |p| + 2 && c[..|p|] == p
    decreases |kids|
  {
    var e := kids[0];
    var head := if e.isDir then [p + [e.name]] + NestedVisits(p + [e.name], Listing(fs, p + [e.name])) else [];
    if i < |head| {
      if i > 0 {
        NestedVisitsAreBelow(p + [e.name], Listing(fs, p + [e.name]), i - 1);
      }
    } else {
      VisitsAreBelow(fs, p, kids[1..], i - |head|);
    }
  }

  lemma {:induction false} NestedVisitsAreBelow(d: Path, nested: seq<Entry>, i: nat)
    requires i < |NestedVisits(d, nested)|
    ensures |NestedVisits(d, nested)[i]| == |d| + 1 && NestedVisits(d, nested)[i][..|d|] == d
    decreases |nested|
  {
    var head := if nested[0].isDir then [d + [nested[0].name]] else [];
    if i >= |head| {
      NestedVisitsAreBelow(d, nested[1..], i - |head|);
    }
  }

  /**
   * A directory named `t` in the two-level neighbourhood of `p` is enough
   * for the search to answer from that neighbourhood, without ascending.
   */
  lemma NearbyMatchNeedsNoAscent(fs: FileSystem, p: Path, t: string, i: nat)
    requires i < |Visits(fs, p, Listing(fs, p))| && Named(Visits(fs, p, Listing(fs, p))[i], t)
    ensures FindDir(fs, p, t).Some?
    ensures var q := FindDir(fs, p, t).value; |p| < |q| <= |p| + 2 && q[..|p|] == p
  {
    var vs := Visits(fs, p, Listing(fs, p));
    ScanChildrenIsFirstVisited(fs, p, Listing(fs, p), t);
    var k := FirstNamedIndex(vs, t);
    VisitsAreBelow(fs, p, Listing(fs, p), k);
  }

  /** Only when the whole neighbourhood of `p` has no match is the parent searched. */
  lemma AscentOnlyAfterNeighbourhood(fs: FileSystem, p: Path, t: string)
    requires |p| > 0
    requires forall i :: 0 <= i < |Visits(fs, p, Listing(fs, p))| ==> !Named(Visits(fs, p, Listing(fs, p))[i], t)
    ensures FindDir(fs, p, t) == FindDir(fs, Parent(p), t)
  {
    ScanChildrenIsFirstVisited(fs, p, Listing(fs, p), t);
    var vs := Visits(fs, p, Listing(fs, p));
    assert FirstNamedIndex(vs, t) == |vs|;
  }

  // ---------------------------------------------------------------------
  // find_dir as written: path("/").has_parent_path() holds and the root's
  // parent_path() is the root itself, so the recursion never reaches the
  // `std::nullopt` branch. `depth` bounds how many ascents are followed.
  // ---------------------------------------------------------------------

  datatype Outcome = Returned(found: Option<Path>) | StillSearching

  /** parent_path() as std::filesystem computes it on absolute paths: the root is its own parent. */
  function ParentAsWritten(p: Path): (r: Path)
    ensures |p| > 0 ==> r == Parent(p)
    ensures |p| == 0 ==> r == p
  {
    if |p| == 0 then [] else p[..|p| - 1]
  }

  /** find_dir as written, following at most `depth` ascents; it never reports "not found". */
  function FindDirAsWritten(fs: FileSystem, p: Path, t: string, depth: nat): (r: Outcome)
    ensures r != Returned(None)
    ensures r.Returned? ==> Named(r.found.value, t) && IsDirAt(fs, r.found.value)
    decreases depth
  {
    match ScanChildren(fs, p, Listing(fs, p), t)
    case Some(q) => Returned(Some(q))
    case None =>
      if depth == 0 then StillSearching
      else FindDirAsWritten(fs, ParentAsWritten(p), t, depth - 1)
  }

  /** As written, the search never reports "not found": however deep it goes, it is still going. */
  lemma {:induction false} AsWrittenNeverGivesUp(fs: FileSystem, p: Path, t: string, depth: nat)
    requires FindDir(fs, p, t).None?
    ensures FindDirAsWritten(fs, p, t, depth) == StillSearching
    decreases depth
  {
    if depth > 0 {
      if |p| > 0 {
        AsWrittenNeverGivesUp(fs, Parent(p), t, depth - 1);
      } else {
        AsWrittenNeverGivesUp(fs, p, t, depth - 1);
      }
    }
  }

  /** The smallest witness: an empty tree searched from the root keeps recursing on the root. */
  lemma EmptyTreeNeverAnswers(t: string, depth: nat)
    ensures FindDirAsWritten(map[], [], t, depth) == StillSearching
  {
    AsWrittenNeverGivesUp(map[], [], t, depth);
  }

  /** Where the code as written does return, it agrees with the corrected search. */
  lemma {:induction false} AsWrittenAgreesWhenFound(fs: FileSystem, p: Path, t: string, depth: nat)
    requires FindDirAsWritten(fs, p, t, depth).Returned?
    ensures FindDirAsWritten(fs, p, t, depth) == Returned(FindDir(fs, p, t))
    ensures FindDir(fs, p, t).Some?
    decreases depth
  {
    if ScanChildren(fs, p, Listing(fs, p), t).None? {
      if |p| > 0 {
        AsWrittenAgreesWhenFound(fs, Parent(p), t, depth - 1);
      } else {
        AsWrittenAgreesWhenFound(fs, p, t, depth - 1);
      }
    }
  }
}
