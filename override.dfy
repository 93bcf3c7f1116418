/**
 * The override block and the manifest it is appended to, and the run of
 * `main` that ties scanner, directory search and append together.
 */
module Override {
  import opened Wrappers
  import opened Text
  import opened Declarations
  import opened DirSearch

  const BlockHead: string := "local_path_override(\n\t module_name=\""
  const BlockMiddle: string := "\",\n\t path=\""
  const BlockTail: string := "\",\n)"

  /**
   * The text streamed at the end of the manifest: LF line breaks, a tab and
   * a space before each field, no spaces around '=', no newline before the
   * block and none after its closing parenthesis.
   */
  function OverrideBlock(name: string, path: string): (b: string)
    ensures StartsWith(b, "local_path_override(\n") && b[|b| - 1] == ')'
    ensures |b| == |BlockHead| + |name| + |BlockMiddle| + |path| + |BlockTail|
  {
    BlockHead + name + BlockMiddle + path + BlockTail
  }

  /** Reads the module name and path back out of an override block. */
  function ParseOverride(b: string): Option<(string, string)> {
    if !StartsWith(b, BlockHead) then None
    else
      var rest := b[|BlockHead|..];
      match Find(rest, Quote, 0)
      case None => None
      case Some(i) =>
        var after := rest[i..];
        if !StartsWith(after, BlockMiddle) then None
        else
          var tail := after[|BlockMiddle|..];
          if |tail| < |BlockTail| || tail[|tail| - |BlockTail|..] != BlockTail then None
          else Some((rest[..i], tail[..|tail| - |BlockTail|]))
  }

  /** A block written for a quote-free module name reads back as that name and path. */
  lemma ParseOverrideBlock(name: string, path: string)
    requires '"' !in name
    ensures ParseOverride(OverrideBlock(name, path)) == Some((name, path))
  {
    var after := BlockMiddle + (path + BlockTail);
    var rest := name + after;
    assert OverrideBlock(name, path) == BlockHead + rest;
    QuoteEndsName(name, after);
    MiddleThenPath(path);
  }

  /** The first quote after a quote-free name is the one that ends it. */
  lemma QuoteEndsName(name: string, after: string)
    requires '"' !in name && |after| > 0 && after[0] == '"'
    ensures Find(name + after, Quote, 0) == Some(|name|)
    ensures (name + after)[..|name|] == name && (name + after)[|name|..] == after
  {
    var rest := name + after;
    forall j | 0 <= j < |name|
      ensures !OccursAt(rest, Quote, j)
    {
      assert rest[j..j + 1] == [name[j]];
    }
    assert rest[|name|..|name| + 1] == [after[0]];
    FindIsFirst(rest, Quote, 0, |name|);
  }

  lemma MiddleThenPath(path: string)
    ensures var after := BlockMiddle + (path + BlockTail);
            StartsWith(after, BlockMiddle) && after[|BlockMiddle|..] == path + BlockTail
    ensures var tail := path + BlockTail;
            |tail| >= |BlockTail| && tail[|tail| - |BlockTail|..] == BlockTail && tail[..|tail| - |BlockTail|] == path
  {
  }

  /** The manifest file's contents, changed in place by the append. */
  class Manifest {
    var content: string

    constructor (c: string)
      ensures content == c
    {
      content := c;
    }

    /** Seek to the end and stream the block: the old contents stay as a prefix. */
    method AppendOverride(name: string, path: string)
      modifies this
      ensures content == old(content) + OverrideBlock(name, path)
      ensures old(content) <= content
    {
      content := content + OverrideBlock(name, path);
    }
  }

  /**
   * One run of `main` after the manifest is open: scan its lines for the
   * short name, search from `cwd` for the canonical name, and append a block
   * naming the manifest's own absolute path. 1 is the status of every failure.
   */
  method Run(m: Manifest, shortName: string, fs: FileSystem, cwd: Path, manifestPath: string)
    returns (status: int)
    modifies m
    ensures status == 0 || status == 1
    ensures var r := Scan(Lines(old(m.content)), shortName);
            status == 0 <==> r.Found? && FindDir(fs, cwd, r.name).Some?
    ensures status == 0 ==>
              m.content == old(m.content) + OverrideBlock(Scan(Lines(old(m.content)), shortName).name, manifestPath)
    ensures status == 1 ==> m.content == old(m.content)
  {
    var lines := Lines(m.content);
    var depFullName := ScanManifest(lines, shortName);
    if !depFullName.Found? {
      return 1;
    }
    var foundDir := FindDir(fs, cwd, depFullName.name);
    if foundDir.None? {
      return 1;
    }
    m.AppendOverride(depFullName.name, manifestPath);
    return 0;
  }

  /**
   * Appending never changes what the scan finds in a manifest where it found
   * a name, even when the text is glued onto the last line.
   */
  lemma RescanAfterAppend(c: string, x: string, shortName: string)
    requires Scan(Lines(c), shortName).Found?
    ensures Scan(Lines(c + x), shortName) == Scan(Lines(c), shortName)
  {
    var ls, lx := Lines(c), Lines(x);
    var last := |ls| - 1;
    LinesAppend(c, x);
    var joined := Glue(ls, lx);
    GlueKeepsEarlierLines(ls, lx);
    ScanIsFirstCandidate(ls, shortName);
    var k := FirstCandidate(ls, shortName);
    if k == last {
      GluedLastLine(ls[last], lx[0], shortName);
    }
    ScanAtFirstCandidate(joined, shortName, k);
  }

  /** Gluing keeps every line of `la` but its last, which is extended by `lb`'s first. */
  lemma GlueKeepsEarlierLines(la: seq<string>, lb: seq<string>)
    requires |la| >= 1 && |lb| >= 1
    ensures |Glue(la, lb)| >= |la|
    ensures forall j :: 0 <= j < |la| - 1 ==> Glue(la, lb)[j] == la[j]
    ensures Glue(la, lb)[|la| - 1] == la[|la| - 1] + lb[0]
  {
  }

  /** The manifest's last line, when it is the candidate, keeps its name once text is glued onto it. */
  lemma GluedLastLine(line: string, y: string, shortName: string)
    requires IsCandidate(line, shortName) && ExtractName(line).Found?
    ensures IsCandidate(line + y, shortName) && ExtractName(line + y) == ExtractName(line)
  {
    CandidateExtends(line, y, shortName);
    ExtractNameExtends(line, y);
  }

  /**
   * The append is not idempotent: a second run for the same short name
   * finds the same name and directory again and appends a second block.
   */
  method RunTwice(m: Manifest, shortName: string, fs: FileSystem, cwd: Path, manifestPath: string)
    returns (first: int, second: int)
    modifies m
    ensures first == 0 ==> second == 0
    ensures first == 0 ==>
              Scan(Lines(old(m.content)), shortName).Found? &&
              var name := Scan(Lines(old(m.content)), shortName).name;
              m.content == old(m.content) + OverrideBlock(name, manifestPath) + OverrideBlock(name, manifestPath)
  {
    ghost var c := m.content;
    first := Run(m, shortName, fs, cwd, manifestPath);
    if first == 0 {
      ghost var name := Scan(Lines(c), shortName).name;
      RescanAfterAppend(c, OverrideBlock(name, manifestPath), shortName);
    }
    second := Run(m, shortName, fs, cwd, manifestPath);
  }
}
