/**
 * The declaration-line scanner of `main`: walk the manifest's lines in order,
 * take the first line that starts with `bazel_dep` and contains the short
 * name, and read the canonical name between the first two quotes at or after
 * the first `name =` on that line.
 */
module Declarations {
  import opened Wrappers
  import opened Text

  /** The scan's three outcomes; Malformed and NotFound both exit with status 1. */
  datatype ScanResult = Found(name: string) | Malformed | NotFound

  const DeclKeyword: string := "bazel_dep"
  const NameField: string := "name ="
  const Quote: string := "\""

  /** A line the scan stops at: a declaration that mentions the short name. */
  predicate IsCandidate(line: string, shortName: string) {
    StartsWith(line, DeclKeyword) && Contains(line, shortName)
  }

  /**
   * The name on a chosen line: `name =` is found first, then a quote at or
   * after it, then the next quote; any of the three missing is Malformed.
   */
  function ExtractName(line: string): (r: ScanResult)
    ensures !r.NotFound?
    ensures r.Found? ==> '"' !in r.name
    ensures r.Found? ==> Contains(line, NameField)
  {
    match Find(line, NameField, 0)
    case None => Malformed
    case Some(ni) =>
      match Find(line, Quote, ni)
      case None => Malformed
      case Some(q1) =>
        match Find(line, Quote, q1 + 1)
        case None => Malformed
        case Some(q2) =>
          NoQuoteBetween(line, q1 + 1, q2);
          Found(line[q1 + 1..q2])
  }

  /** No quote occurrence in [from, to) means no quote character in that slice. */
  lemma NoQuoteBetween(line: string, from: nat, to: nat)
    requires from <= to <= |line|
    requires forall j :: from <= j < to ==> !OccursAt(line, Quote, j)
    ensures '"' !in line[from..to]
  {
    forall k | 0 <= k < to - from
      ensures line[from..to][k] != '"'
    {
      assert !OccursAt(line, Quote, from + k);
      assert line[from + k..from + k + 1] == [line[from + k]];
    }
  }

  /**
   * Independent description of a well-formed declaration: the first `name =`
   * starts at `i`, the first quote at or after it is at `q`, and `n` is the
   * quote-free text up to the next quote.
   */
  predicate DeclaresAt(line: string, i: nat, q: nat, n: string) {
    OccursAt(line, NameField, i) &&
    (forall j :: 0 <= j < i ==> !OccursAt(line, NameField, j)) &&
    q + |n| + 2 <= |line| &&
    i <= q && '"' !in line[i..q] &&
    line[q] == '"' && line[q + 1..q + 1 + |n|] == n && line[q + 1 + |n|] == '"' &&
    '"' !in n
  }

  lemma QuoteOccursAt(line: string, k: nat)
    requires k < |line|
    ensures OccursAt(line, Quote, k) <==> line[k] == '"'
  {
    assert line[k..k + 1] == [line[k]];
  }

  /** Every name the extraction returns sits in a well-formed declaration. */
  lemma ExtractedNameIsDeclared(line: string)
    requires ExtractName(line).Found?
    ensures exists i, q :: DeclaresAt(line, i, q, ExtractName(line).name)
  {
    var i := Find(line, NameField, 0).value;
    var q := Find(line, Quote, i).value;
    var q2 := Find(line, Quote, q + 1).value;
    var n := ExtractName(line).name;
    assert n == line[q + 1..q2];
    NoQuoteBetween(line, i, q);
    QuoteOccursAt(line, q);
    QuoteOccursAt(line, q2);
    assert DeclaresAt(line, i, q, n);
  }

  /** Conversely, every well-formed declaration yields exactly its name. */
  lemma DeclaredNameIsExtracted(line: string, i: nat, q: nat, n: string)
    requires DeclaresAt(line, i, q, n)
    ensures ExtractName(line) == Found(n)
  {
    FindIsFirst(line, NameField, 0, i);
    QuoteFreeSlice(line, i, q);
    QuoteOccursAt(line, q);
    FindIsFirst(line, Quote, i, q);
    var e := q + 1 + |n|;
    QuoteFreeSlice(line, q + 1, e);
    QuoteOccursAt(line, e);
    FindIsFirst(line, Quote, q + 1, e);
  }

  /** A slice without a quote character holds no quote occurrence. */
  lemma QuoteFreeSlice(line: string, from: nat, to: nat)
    requires from <= to <= |line| && '"' !in line[from..to]
    ensures forall j :: from <= j < to ==> !OccursAt(line, Quote, j)
  {
    forall j | from <= j < to
      ensures !OccursAt(line, Quote, j)
    {
      assert line[from..to][j - from] == line[j];
      QuoteOccursAt(line, j);
    }
  }

  /**
   * The scan over the manifest's lines: lines that are not candidates are
   * skipped; the first candidate decides the outcome.
   */
  function Scan(lines: seq<string>, shortName: string): (r: ScanResult)
    ensures r.NotFound? <==> forall i :: 0 <= i < |lines| ==> !IsCandidate(lines[i], shortName)
    ensures r.Found? ==> '"' !in r.name
    decreases |lines|
  {
    if |lines| == 0 then NotFound
    else if IsCandidate(lines[0], shortName) then ExtractName(lines[0])
    else Scan(lines[1..], shortName)
  }

  /** Index of the first candidate line, or |lines| when there is none. */
  function FirstCandidate(lines: seq<string>, shortName: string): (k: nat)
    ensures k <= |lines|
    ensures forall j :: 0 <= j < k ==> !IsCandidate(lines[j], shortName)
    ensures k < |lines| ==> IsCandidate(lines[k], shortName)
    decreases |lines|
  {
    if |lines| == 0 then 0
    else if IsCandidate(lines[0], shortName) then 0
    else 1 + FirstCandidate(lines[1..], shortName)
  }

  /** The scan's outcome is decided by the first candidate line alone. */
  lemma {:induction false} ScanIsFirstCandidate(lines: seq<string>, shortName: string)
    ensures var k := FirstCandidate(lines, shortName);
            Scan(lines, shortName) == if k < |lines| then ExtractName(lines[k]) else NotFound
    decreases |lines|
  {
    if |lines| > 0 && !IsCandidate(lines[0], shortName) {
      ScanIsFirstCandidate(lines[1..], shortName);
    }
  }

  /** A candidate with none before it decides the scan. */
  lemma ScanAtFirstCandidate(lines: seq<string>, shortName: string, k: nat)
    requires k < |lines| && IsCandidate(lines[k], shortName)
    requires forall j :: 0 <= j < k ==> !IsCandidate(lines[j], shortName)
    ensures Scan(lines, shortName) == ExtractName(lines[k])
  {
    ScanIsFirstCandidate(lines, shortName);
    var f := FirstCandidate(lines, shortName);
    assert !(f < k) && !(k < f);
  }

  /** Text added after a line keeps a well-formed declaration in it as it was. */
  lemma DeclaresAtExtends(line: string, y: string, i: nat, q: nat, n: string)
    requires DeclaresAt(line, i, q, n)
    ensures DeclaresAt(line + y, i, q, n)
  {
    var l2 := line + y;
    assert l2[..|line|] == line;
    forall j | 0 <= j < i
      ensures !OccursAt(l2, NameField, j)
    {
      assert !OccursAt(line, NameField, j);
      assert l2[j..j + 6] == line[j..j + 6];
    }
    assert l2[i..i + 6] == line[i..i + 6];
    assert l2[i..q] == line[i..q];
    assert l2[q + 1..q + 1 + |n|] == line[q + 1..q + 1 + |n|];
  }

  /** Text added after a candidate line leaves it a candidate. */
  lemma CandidateExtends(line: string, y: string, shortName: string)
    requires IsCandidate(line, shortName)
    ensures IsCandidate(line + y, shortName)
  {
    var j := Find(line, shortName, 0).value;
    assert (line + y)[j..j + |shortName|] == line[j..j + |shortName|];
    assert OccursAt(line + y, shortName, j);
    assert (line + y)[..|DeclKeyword|] == line[..|DeclKeyword|];
  }

  /** Text added after a line the scan extracts a name from does not change that name. */
  lemma ExtractNameExtends(line: string, y: string)
    requires ExtractName(line).Found?
    ensures ExtractName(line + y) == ExtractName(line)
  {
    var n := ExtractName(line).name;
    ExtractedNameIsDeclared(line);
    var i, q :| DeclaresAt(line, i, q, n);
    DeclaresAtExtends(line, y, i, q, n);
    DeclaredNameIsExtracted(line + y, i, q, n);
  }

  /**
   * Once a candidate line is reached, found or malformed, no later line is
   * examined: appending lines does not change the outcome.
   */
  lemma {:induction false} ScanIgnoresLaterLines(lines: seq<string>, more: seq<string>, shortName: string)
    requires !Scan(lines, shortName).NotFound?
    ensures Scan(lines + more, shortName) == Scan(lines, shortName)
    decreases |lines|
  {
    assert (lines + more)[0] == lines[0];
    if !IsCandidate(lines[0], shortName) {
      assert (lines + more)[1..] == lines[1..] + more;
      ScanIgnoresLaterLines(lines[1..], more, shortName);
    }
  }

  /** A short name that occurs inside the keyword itself (such as "dep") makes every declaration line a candidate. */
  lemma KeywordFragmentMatchesEveryDeclaration(line: string, shortName: string, k: nat)
    requires OccursAt(DeclKeyword, shortName, k)
    ensures IsCandidate(line, shortName) <==> StartsWith(line, DeclKeyword)
  {
    if StartsWith(line, DeclKeyword) {
      assert line[k..k + |shortName|] == DeclKeyword[k..k + |shortName|];
      assert OccursAt(line, shortName, k);
    }
  }

  /**
   * A line where no '=' follows a space, such as the advertised compact form
   * `bazel_dep(name="x", version="1")`, has no `name =` and is malformed.
   */
  lemma CompactNameSyntaxRejected(line: string)
    requires forall k :: 0 < k < |line| && line[k] == '=' ==> line[k - 1] != ' '
    ensures ExtractName(line) == Malformed
  {
    forall k | 0 <= k
      ensures !OccursAt(line, NameField, k)
    {
      if k + 6 <= |line| {
        assert line[k..k + 6][4] == line[k + 4];
        assert line[k..k + 6][5] == line[k + 5];
      }
    }
  }

  /** No occurrence of `name =` starts inside `pre` when `pre` holds no 'n'. */
  lemma NoNameFieldIn(pre: string)
    requires 'n' !in pre
    ensures forall j :: 0 <= j < |pre| ==> !OccursAt(pre + NameField, NameField, j)
  {
    forall j | 0 <= j < |pre|
      ensures !OccursAt(pre + NameField, NameField, j)
    {
      assert (pre + NameField)[j] == pre[j];
      assert (pre + NameField)[j..j + 6][0] == (pre + NameField)[j];
    }
  }

  /**
   * A line assembled as `pre name = mid "n" post` yields `n`, provided no
   * earlier `name =` starts inside `pre` and neither `mid` nor `n` holds a
   * quote.
   */
  lemma DeclarationFromParts(pre: string, mid: string, n: string, post: string)
    requires forall j :: 0 <= j < |pre| ==> !OccursAt(pre + NameField, NameField, j)
    requires '"' !in mid && '"' !in n
    ensures ExtractName(pre + NameField + mid + Quote + n + Quote + post) == Found(n)
  {
    var line := pre + NameField + mid + Quote + n + Quote + post;
    var i := |pre|;
    var q := |pre| + 6 + |mid|;
    assert line[i..i + 6] == NameField;
    forall j | 0 <= j < i
      ensures !OccursAt(line, NameField, j)
    {
      assert !OccursAt(pre + NameField, NameField, j);
      assert line[j..j + 6] == (pre + NameField)[j..j + 6];
    }
    assert line[i..q] == NameField + mid;
    assert line[q + 1..q + 1 + |n|] == n;
    DeclaredNameIsExtracted(line, i, q, n);
  }

  /** The first `name =` wins, even the one ending `repo_name =`. */
  lemma RepoNameWins(r: string, n: string)
    requires '"' !in r
    ensures ExtractName("bazel_dep(repo_name = \"" + r + "\", name = \"" + n + "\")") == Found(r)
  {
    var pre, post := "bazel_dep(repo_", ", name = \"" + n + "\")";
    var line := "bazel_dep(repo_name = \"" + r + "\", name = \"" + n + "\")";
    assert line == pre + NameField + " " + Quote + r + Quote + post;
    assert 'n' !in pre;
    NoNameFieldIn(pre);
    DeclarationFromParts(pre, " ", r, post);
  }

  /**
   * The scan loop of `main`, line by line with early exits: it returns what
   * Scan specifies.
   */
  method ScanManifest(lines: seq<string>, shortName: string) returns (r: ScanResult)
    ensures r == Scan(lines, shortName)
  {
    var i := 0;
    while i < |lines|
      invariant 0 <= i <= |lines|
      invariant Scan(lines[i..], shortName) == Scan(lines, shortName)
    {
      var line := lines[i];
      assert lines[i..][1..] == lines[i + 1..];
      i := i + 1;
      if !StartsWith(line, DeclKeyword) {
        continue;
      }
      var dirIndex := Find(line, shortName, 0);
      if dirIndex.None? {
        continue;
      }
      var nameIndex := Find(line, NameField, 0);
      if nameIndex.None? {
        return Malformed;
      }
      var firstQuote := Find(line, Quote, nameIndex.value);
      if firstQuote.None? {
        return Malformed;
      }
      var secondQuote := Find(line, Quote, firstQuote.value + 1);
      if secondQuote.None? {
        return Malformed;
      }
      return Found(line[firstQuote.value + 1..secondQuote.value]);
    }
    return NotFound;
  }
}
