# bzloverride, modelled in Dafny

bzloverride patches a Bazel `MODULE.bazel` manifest. Given a short dependency
name, it does three things in order:

1. It finds the first `bazel_dep` line that mentions the short name and reads
   the canonical module name quoted after `name =`.
2. It searches the filesystem for a directory with that name. The search looks
   two levels down from the current directory, then does the same from each
   ancestor.
3. It appends a `local_path_override(...)` block to the manifest.

Once the manifest is open, a missing or malformed declaration exits with status 1 and leaves the
manifest unchanged. A directory that is not found does not: the search
recurses on the root `/` forever, because `/` is its own parent (see
"## Findings"). The model's `Run` uses the corrected search, which ends at the
root, and so exits with status 1 in that case as well.

The model has these parts:

- `Text` (`text.dfy`) holds the `std::string` operations the scanner uses:
  `find`, `starts_with`, and the line splitting that `std::getline` performs
  when a stream is read until eof.
- `Declarations` (`declarations.dfy`) is the scan loop of `main`. `Scan` is the
  pure specification. `ScanManifest` is the imperative loop with early exits,
  proved equal to `Scan`. It comes with lemmas that characterise the extracted
  name and the "first candidate line decides" behaviour.
- `DirSearch` (`dir_search.dfy`) is `find_dir` over an abstract tree. A path is
  its list of segments, `[]` is the root, and a map gives each directory's
  entries in enumeration order. A reference definition, `SearchOrder`, lists
  the directories in the order the loops look at them. `FindDir` is proved to
  return the first entry of that order that has the wanted name.
- `ModuleFile` (`module_file.dfy`) is the filename test of `get_module_file`.
- `Override` (`override.dfy`) holds the block text, its parse-back, the
  `Manifest` class whose append changes the contents in place, and `Run`. `Run`
  chains the scan, the corrected search and the append in the order `main`
  runs them.

What `main.cc` writes, and what it does not do:

- No line-ending detection is done. The block always uses `\n`.
- There is no newline before the block and none after it.
- The fields are written as `\t module_name="…"` and `\t path="…"`: a tab and a
  space before each, no spaces around `=`.
- The path written is the manifest's own absolute path. It is neither the
  directory that was found nor a relative path.
- Only `argv[1]` is read, so there is no loop over several names.

`log_read_error` (main.cc:55-60) adds only its exit status 1 to the model. `Run` returns that status for a malformed line.

## Model

| member | source | states |
|---|---|---|
| Text.Find | main.cc:95-112 | `std::string::find`: the returned index is an occurrence at or after the start, and no earlier one exists; None means no occurrence at all from the start on |
| Text.JoinLines | main.cc:88-90 | the lines getline yields until eof rejoin with `\n` to the whole file, so nothing is lost or invented |
| Text.Lines | main.cc:88-90 | the lines getline yields until eof: always at least one, and none contains `\n` |
| Text.LinesAppend | main.cc:145-153 | appending text to a file makes its last line run on into the first appended line, and leaves the other lines as they were |
| Declarations.ExtractName | main.cc:100-121 | on a chosen line the outcome is never "not found"; an extracted name holds no quote, and the line contains `name =` |
| Declarations.ExtractedNameIsDeclared | main.cc:100-121 | an extracted name sits between a quote that is the first one at or after the first `name =` and the next quote |
| Declarations.DeclaredNameIsExtracted | main.cc:100-121 | conversely, such a well-formed line yields exactly that name; the two lemmas together are an if-and-only-if |
| Declarations.DeclarationFromParts | main.cc:100-121 | a line `pre name = mid "n" post` yields `n` when no occurrence of `name =` starts inside `pre` and `mid` and `n` have no quote |
| Declarations.RepoNameWins | main.cc:100 | the first `name =` wins, even the one inside `repo_name =` |
| Declarations.CompactNameSyntaxRejected | main.cc:100-104 | a line where no `=` follows a space, such as the advertised compact form `bazel_dep(name="x", version="1")`, is malformed |
| Declarations.KeywordFragmentMatchesEveryDeclaration | main.cc:92-98 | a short name that occurs inside `bazel_dep` (such as `dep`) makes every declaration line a candidate |
| Declarations.FirstCandidate | main.cc:88-98 | the index of the first line that starts with `bazel_dep` and contains the short name; no earlier line does |
| Declarations.ScanIsFirstCandidate | main.cc:88-123 | the scan's outcome is the extraction on the first candidate line, or "not found" when no line is a candidate |
| Declarations.Scan | main.cc:88-128 | "not found" holds exactly when no line both starts with `bazel_dep` and contains the short name; a found name holds no quote |
| Declarations.ScanIgnoresLaterLines | main.cc:100-122 | once a candidate line is reached, found or malformed, lines after it cannot change the outcome |
| Declarations.ScanAtFirstCandidate | main.cc:88-122 | a candidate line with no candidate before it decides the scan |
| Declarations.ExtractNameExtends | main.cc:100-121 | text added after a line the name is extracted from does not change the name |
| Declarations.ScanManifest | main.cc:86-131 | the do/while loop with early returns produces exactly the specified scan outcome |
| DirSearch.ScanNested | main.cc:21-29 | the inner loop returns only the child path of a listed directory entry with the wanted name |
| DirSearch.ScanChildren | main.cc:15-31 | the outer loop returns a directory with the wanted name, one or two levels below the directory, listed in its parent |
| DirSearch.FindDir | main.cc:11-37 | any path returned is a listed directory whose final segment is the wanted name, and is a child or grandchild of the start or of one of its ancestors |
| DirSearch.ScanNestedIsFirstVisited | main.cc:21-29 | the inner loop returns the first directory entry with the wanted name, in enumeration order |
| DirSearch.ScanChildrenIsFirstVisited | main.cc:15-31 | the two loops return the first match in the order: child, that child's children, next child |
| DirSearch.FindDirIsFirstInSearchOrder | main.cc:11-37 | the result is the first directory with the wanted name in the neighbourhood of the start, then that of each ancestor up to the root, or None if there is none |
| DirSearch.FindDirIsEarliest | main.cc:15-33 | nothing looked at before the answer has the wanted name; None means nothing in the whole search order does |
| DirSearch.VisitsAreBelow | main.cc:15-30 | everything one level of the search looks at is one or two levels below that directory |
| DirSearch.NearbyMatchNeedsNoAscent | main.cc:15-31 | a match in the two-level neighbourhood of the start is found there, without ascending |
| DirSearch.AscentOnlyAfterNeighbourhood | main.cc:32-33 | the parent is searched only when the whole neighbourhood has no match, and then its answer is the answer |
| DirSearch.FindDirAsWritten | main.cc:11-37 | `find_dir` as written, with the root as its own parent and a bound on the ascents followed: it never reports "not found", and whatever it returns is a listed directory with the wanted name |
| DirSearch.AsWrittenNeverGivesUp | main.cc:32-36 | as written, whenever no directory matches, the recursion never returns, however many ascents are followed |
| DirSearch.EmptyTreeNeverAnswers | main.cc:32-36 | as written, an empty tree searched from the root keeps recursing on the root |
| DirSearch.AsWrittenAgreesWhenFound | main.cc:11-37 | wherever the code as written does return, it returns what the corrected search returns |
| ModuleFile.LastDot | main.cc:45-47 | the index of the last `.` in a filename, or none when it has no `.` |
| ModuleFile.Extension | main.cc:45-47 | `path::extension()` is non-empty exactly when the filename is not `..` and has a `.` after its first character; it is then the suffix from the last `.` |
| ModuleFile.IsModuleFile | main.cc:45-48 | the extension tests add nothing: an entry counts as the manifest exactly when its name is `MODULE.bazel` |
| Override.OverrideBlock | main.cc:150-153 | the block starts with `local_path_override(` and a newline, with no newline before it, and ends in `)` with no newline after it |
| Override.ParseOverrideBlock | main.cc:150-153 | a block written for a quote-free module name reads back as that name and path |
| Override.Manifest.AppendOverride | main.cc:145-153 | the old contents stay as a prefix and the suffix is exactly the block |
| Override.Run | main.cc:86-163 | status 0 exactly when the scan found a name and the directory search found a directory; the file then gains that block with the manifest's path, and otherwise exits with 1 and is unchanged |
| Override.RescanAfterAppend | main.cc:88-153 | after an append, scanning the file again finds the same name, even when the block was glued onto the last line |
| Override.RunTwice | main.cc:145-153 | the append is not idempotent: a second run for the same name succeeds too and adds a second identical block |

## Left out

- The `BUILD_WORKING_DIRECTORY` lookup and the change of current directory (main.cc:65-67) are not modelled. The start directory is a parameter of `Run`.
- The listing of the working directory in `get_module_file` is not modelled. Only its filename test is. That test does not check that the entry is a regular file.
- `argv[1]` is a parameter. The code reads it without checking `argc`.
- Stream handling is reduced to the text it reads and writes: open, the failure state, `seekg`/`seekp`, `clear`, `flush` and `close`.
- If the open at main.cc:80-82 fails, the run continues, and the eof-driven loop may spin forever. This stream behaviour is not modelled.
- Override.Run: uses the corrected FindDir. So when no directory matches, its status 1 is the intended behaviour, not the written one. As written, `main` never reaches main.cc:138-141: `find_dir` recurses on the root without end.
- Override.Run: does not model the status 1 returned when the stream is in a failed state at the append (main.cc:145-157), because stream state is not modelled.
- Exceptions from `directory_iterator` (permissions, races) are not modelled. A path with no listing has no entries. Real enumeration order is left open: the listing's order is an input.
- DirSearch.FindDir: compares entry names with the wanted name as strings. The source compares them as `std::filesystem::path` values. The two agree on single-segment names. A canonical name containing `/` can never match in the source.
- `absolute()` and `generic_string()` are not modelled. The written path is an opaque input string.
- The diagnostics on `std::cout` and `std::cerr` are not modelled. Only the exit status is.
- The idempotence of the directory search on a fixed tree holds trivially, because `FindDir` is a function.

## Findings

| source | as written | input that shows it | evidently intended | confidence | as-written member | corrected member |
|---|---|---|---|---|---|---|
| main.cc:32-36 | the search always recurses on `parent_path()`. For the root `/`, `has_parent_path()` is true and the parent is `/` itself, so the `std::nullopt` branch is never reached | a tree with no directory of the wanted name, searched from `/`; the recursion repeats on `/` forever | return "not found" once the root's neighbourhood has no match, so `main` reports "Couldn't find given repo directory" | not executed | DirSearch.EmptyTreeNeverAnswers | DirSearch.FindDirIsFirstInSearchOrder |
