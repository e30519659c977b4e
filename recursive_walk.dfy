/** RecursiveWalk: reads start paths, one per line, and walks the file tree
    under each. Every file visited gets a line with its FNV-1 hash, read in
    4096-byte blocks (00000000 when it cannot be read); every file the walk
    fails to visit gets a 00000000 line. Input lines are processed in order
    and repeats are not removed. */
module RecursiveWalk {
  import opened Fnv
  import opened HashLine

  const BLOCK_SIZE: nat := 4096

  /** One callback of Files.walkFileTree. */
  datatype Visit =
    | VisitFile(path: string)        // visitFile(filePath, attrs)
    | VisitFileFailed(path: string)  // visitFileFailed(filePath, e)

  /** What the walker sees of the file system: the content of every file
      that reads successfully, the callbacks a walk from each start path
      produces (a start path not listed does not exist, so its walk fails
      on the path itself), and the input lines Paths.get rejects. */
  datatype FileTree = FileTree(
    contents: map<string, seq<bv8>>,
    walks: map<string, seq<Visit>>,
    invalid: set<string>)

  /** The lines read from the input file, and whether reading it then failed
      with an IOException (opening it included, with no lines read). */
  datatype Input = Input(lines: seq<string>, readFails: bool)

  /** getHash: the hash of the file's content read in BLOCK_SIZE blocks, or 0
      on IOException or InvalidPathException. */
  method GetHash(tree: FileTree, path: string) returns (hash: bv32)
    ensures hash == HashOrZero(tree.contents, path)
  {
    if path in tree.contents {
      hash := HashBlocks(Blocks(tree.contents[path], BLOCK_SIZE), BLOCK_SIZE);
    } else {
      hash := 0;
    }
  }

  /** The callbacks of a walk from `path`. */
  function Events(tree: FileTree, path: string): seq<Visit> {
    if path in tree.walks then tree.walks[path] else [VisitFileFailed(path)]
  }

  /** The line a callback writes: the file's hash for a visited file, 0 for
      a failed one. */
  function EventLine(tree: FileTree, v: Visit): string {
    match v
    case VisitFile(p) => Line(HashOrZero(tree.contents, p), p)
    case VisitFileFailed(p) => Line(0, p)
  }

  /** processFiles: walks the tree under `path`, one line per callback, in
      the order the walk makes them. */
  method ProcessFiles(tree: FileTree, path: string) returns (out: seq<string>)
    ensures |out| == |Events(tree, path)|
    ensures forall i :: 0 <= i < |out| ==> out[i] == EventLine(tree, Events(tree, path)[i])
    ensures out == Walker(tree)(path)
  {
    var events := Events(tree, path);
    out := [];
    var k := 0;
    while k < |events|
      invariant 0 <= k <= |events|
      invariant |out| == k
      invariant forall i :: 0 <= i < k ==> out[i] == EventLine(tree, events[i])
    {
      match events[k] {
        case VisitFile(filePath) =>
          var hash := GetHash(tree, filePath);
          out := out + [Line(hash, filePath)];
        case VisitFileFailed(filePath) =>
          out := out + [Line(0, filePath)];
      }
      k := k + 1;
    }
  }

  /** The lines processFiles writes for one start path. */
  function WalkLines(tree: FileTree, path: string): seq<string>
  {
    seq(|Events(tree, path)|, i requires 0 <= i < |Events(tree, path)| => EventLine(tree, Events(tree, path)[i]))
  }

  /** The main loop's output for the start paths `lines`, the last line read
      before them being `previous`, where `walk(p)` is what processFiles
      writes for `p`. A path in `invalid` writes a zero line for itself and
      ends the run; a read error after the last line writes a zero line for
      the last line read ("" when none was). */
  function ReportWith(walk: string -> seq<string>, invalid: set<string>, lines: seq<string>, readFails: bool, previous: string): seq<string>
    decreases |lines|
  {
    if lines == [] then (if readFails then [Line(0, previous)] else [])
    else if lines[0] in invalid then [Line(0, lines[0])]
    else walk(lines[0]) + ReportWith(walk, invalid, lines[1..], readFails, lines[0])
  }

  /** processFiles on this file tree, as a function of the start path. */
  function Walker(tree: FileTree): string -> seq<string>
  {
    path => WalkLines(tree, path)
  }

  /** All lines written for the start paths `lines` in the file tree. */
  function Report(tree: FileTree, lines: seq<string>, readFails: bool, previous: string): seq<string>
  {
    ReportWith(Walker(tree), tree.invalid, lines, readFails, previous)
  }

  /** Whatever each walk writes, lines before any invalid one contribute
      their walks in order: the report of a concatenation is the
      concatenation of the reports. */
  lemma {:induction false} ReportWithConcat(walk: string -> seq<string>, invalid: set<string>, a: seq<string>, b: seq<string>, readFails: bool, previous: string)
    requires forall x :: x in a ==> x !in invalid
    ensures ReportWith(walk, invalid, a + b, readFails, previous) ==
      ReportWith(walk, invalid, a, false, previous) +
      ReportWith(walk, invalid, b, readFails, if a == [] then previous else a[|a| - 1])
    decreases |a|
  {
    if a == [] {
      assert a + b == b;
    } else {
      var x, rest := a[0], a[1..];
      assert x in a;
      assert (a + b)[0] == x && (a + b)[1..] == rest + b;
      ReportWithConcat(walk, invalid, rest, b, readFails, x);
      assert (if rest == [] then x else rest[|rest| - 1]) == a[|a| - 1];
    }
  }

  /** One more valid line read: its walk is appended. */
  lemma ReportWithSnoc(walk: string -> seq<string>, invalid: set<string>, a: seq<string>, x: string, previous: string)
    requires forall y :: y in a ==> y !in invalid
    requires x !in invalid
    ensures ReportWith(walk, invalid, a + [x], false, previous) == ReportWith(walk, invalid, a, false, previous) + walk(x)
  {
    ReportWithConcat(walk, invalid, a, [x], false, previous);
    assert [x][1..] == [];
    assert walk(x) + [] == walk(x);
  }

  /** The first invalid line ends the report with its zero line. */
  lemma ReportWithStop(walk: string -> seq<string>, invalid: set<string>, lines: seq<string>, k: nat, readFails: bool, previous: string)
    requires k < |lines|
    requires forall y :: y in lines[..k] ==> y !in invalid
    requires lines[k] in invalid
    ensures ReportWith(walk, invalid, lines, readFails, previous) ==
      ReportWith(walk, invalid, lines[..k], false, previous) + [Line(0, lines[k])]
  {
    assert lines == lines[..k] + lines[k..];
    ReportWithConcat(walk, invalid, lines[..k], lines[k..], readFails, previous);
    assert lines[k..][0] == lines[k];
  }

  /** With every line valid, a read error adds one zero line for the last
      line read, or for `previous` when none was. */
  lemma ReportWithEnd(walk: string -> seq<string>, invalid: set<string>, lines: seq<string>, readFails: bool, previous: string)
    requires forall y :: y in lines ==> y !in invalid
    ensures ReportWith(walk, invalid, lines, readFails, previous) ==
      ReportWith(walk, invalid, lines, false, previous) +
      (if readFails then [Line(0, if lines == [] then previous else lines[|lines| - 1])] else [])
  {
    ReportWithConcat(walk, invalid, lines, [], readFails, previous);
    assert lines + [] == lines;
  }

  /** What main does once its two arguments are accepted: walk from each
      input line in turn; an invalid line or a read error ends the loop with
      a zero-hash line. */
  method Run(tree: FileTree, input: Input) returns (out: seq<string>)
    ensures out == Report(tree, input.lines, input.readFails, "")
  {
    var lines := input.lines;
    ghost var walk := Walker(tree);
    var line := "";
    out := [];
    var k := 0;
    while k < |lines|
      invariant 0 <= k <= |lines|
      invariant line == if k == 0 then "" else lines[k - 1]
      invariant forall x :: x in lines[..k] ==> x !in tree.invalid
      invariant out == ReportWith(walk, tree.invalid, lines[..k], false, "")
    {
      line := lines[k];
      if line in tree.invalid {
        // Paths.get rejects the line: the catch writes its zero line
        ReportWithStop(walk, tree.invalid, lines, k, input.readFails, "");
        return out + [Line(0, line)];
      }
      var written := ProcessFiles(tree, line);
      ReportWithSnoc(walk, tree.invalid, lines[..k], line, "");
      assert lines[..k + 1] == lines[..k] + [line];
      out := out + written;
      k := k + 1;
    }
    assert lines[..k] == lines;
    ReportWithEnd(walk, tree.invalid, lines, input.readFails, "");
    if input.readFails {
      out := out + [Line(0, line)];
    }
  }

  /** Lines before any invalid one contribute their walks in order, so the
      report of a concatenation is the concatenation of the reports. */
  lemma ReportConcat(tree: FileTree, a: seq<string>, b: seq<string>, readFails: bool, previous: string)
    requires forall x :: x in a ==> x !in tree.invalid
    ensures Report(tree, a + b, readFails, previous) ==
      Report(tree, a, false, previous) + Report(tree, b, readFails, if a == [] then previous else a[|a| - 1])
  {
    ReportWithConcat(Walker(tree), tree.invalid, a, b, readFails, previous);
  }

  /** Unlike Walk, repeated input lines are not merged: a valid path listed
      twice is walked, and written, twice. */
  lemma RepeatedLineWalkedTwice(tree: FileTree, path: string)
    requires path !in tree.invalid
    ensures Report(tree, [path, path], false, "") == WalkLines(tree, path) + WalkLines(tree, path)
  {
    ReportConcat(tree, [path], [path], false, "");
  }

  /** An invalid line ends the run: lines after it are never walked. */
  lemma InvalidLineStops(tree: FileTree, a: seq<string>, bad: string, b: seq<string>, readFails: bool)
    requires forall x :: x in a ==> x !in tree.invalid
    requires bad in tree.invalid
    ensures Report(tree, a + [bad] + b, readFails, "") == Report(tree, a, false, "") + [Line(0, bad)]
  {
    assert a + [bad] + b == a + ([bad] + b);
    ReportConcat(tree, a, [bad] + b, readFails, "");
  }

  /** A read error after the last line writes a zero-hash line for the last
      line read again, or for "" when nothing was read. */
  lemma ReadErrorRepeatsLastLine(tree: FileTree, lines: seq<string>)
    requires forall x :: x in lines ==> x !in tree.invalid
    ensures Report(tree, lines, true, "") ==
      Report(tree, lines, false, "") + [Line(0, if lines == [] then "" else lines[|lines| - 1])]
  {
    ReportConcat(tree, lines, [], true, "");
    assert lines + [] == lines;
  }
}
