/** Walk: reads a list of paths, one per line, keeps each distinct path once
    in first-occurrence order (a LinkedHashSet), and writes one line per path
    with the FNV-1 hash of that file, read in 1024-byte blocks, or 00000000
    when the file cannot be opened or read. */
module Walk {
  import opened Fnv
  import opened HashLine

  const BLOCK_SIZE: nat := 1024

  // ---------------------------------------------------------------------
  // readFile: the LinkedHashSet of input lines
  // ---------------------------------------------------------------------

  /** The lines with every repeat dropped, each kept where it first occurs. */
  function Distinct(lines: seq<string>): seq<string> {
    if lines == [] then []
    else
      var d := Distinct(lines[..|lines| - 1]);
      var last := lines[|lines| - 1];
      if last in d then d else d + [last]
  }

  /** No line is kept twice, and the kept lines are exactly the input's. */
  lemma {:induction false} DistinctMembers(lines: seq<string>)
    ensures forall i, j :: 0 <= i < j < |Distinct(lines)| ==> Distinct(lines)[i] != Distinct(lines)[j]
    ensures forall x :: x in Distinct(lines) <==> x in lines
  {
    if lines != [] {
      var prefix := lines[..|lines| - 1];
      DistinctMembers(prefix);
      assert lines == prefix + [lines[|lines| - 1]];
    }
  }

  /** Index of the first occurrence of `x`. */
  function FirstIndex(lines: seq<string>, x: string): (k: nat)
    requires x in lines
    ensures k < |lines| && lines[k] == x && x !in lines[..k]
  {
    if lines[0] == x then 0
    else
      var k := 1 + FirstIndex(lines[1..], x);
      assert lines[1..][..k - 1] == lines[1..k];
      k
  }

  /** The first occurrence is the one index holding `x` with no `x` before it. */
  lemma FirstIndexUnique(lines: seq<string>, x: string, k: nat)
    requires k < |lines| && lines[k] == x && x !in lines[..k]
    ensures FirstIndex(lines, x) == k
  {
    var f := FirstIndex(lines, x);
    forall i | 0 <= i < k ensures lines[i] != x {
      assert lines[..k][i] == lines[i];
    }
    forall i | 0 <= i < f ensures lines[i] != x {
      assert lines[..f][i] == lines[i];
    }
  }

  /** Appending lines does not move a first occurrence. */
  lemma FirstIndexOfPrefix(lines: seq<string>, more: seq<string>, x: string)
    requires x in lines
    ensures FirstIndex(lines + more, x) == FirstIndex(lines, x)
  {
    var m := FirstIndex(lines, x);
    assert (lines + more)[..m] == lines[..m];
    FirstIndexUnique(lines + more, x, m);
  }

  /** The kept lines come in the order of their first occurrences. */
  lemma {:induction false} DistinctFirstOccurrenceOrder(lines: seq<string>)
    ensures forall x :: x in Distinct(lines) ==> x in lines
    ensures forall i, j :: 0 <= i < j < |Distinct(lines)| ==>
      FirstIndex(lines, Distinct(lines)[i]) < FirstIndex(lines, Distinct(lines)[j])
  {
    DistinctMembers(lines);
    if lines != [] {
      var prefix := lines[..|lines| - 1];
      var last := lines[|lines| - 1];
      var d := Distinct(prefix);
      DistinctFirstOccurrenceOrder(prefix);
      DistinctMembers(prefix);
      assert lines == prefix + [last];
      forall x | x in d ensures FirstIndex(lines, x) == FirstIndex(prefix, x) < |prefix| {
        FirstIndexOfPrefix(prefix, [last], x);
      }
      if last !in d {
        assert last !in prefix;
        assert lines[..|prefix|] == prefix;
        FirstIndexUnique(lines, last, |prefix|);
        assert Distinct(lines) == d + [last];
      } else {
        assert Distinct(lines) == d;
      }
    }
  }

  /** readFile: adds every line read to a LinkedHashSet, kept here as the
      insertion-ordered list of its elements. A read error ends the loop
      early and keeps what was added; `lines` are the lines read before end
      of input or the error. */
  method ReadFile(lines: seq<string>) returns (paths: seq<string>)
    ensures paths == Distinct(lines)
  {
    paths := [];
    var seen: set<string> := {};
    var k := 0;
    while k < |lines|
      invariant 0 <= k <= |lines|
      invariant paths == Distinct(lines[..k])
      invariant forall x :: x in seen <==> x in paths
    {
      var line := lines[k];
      assert lines[..k + 1][..k] == lines[..k];
      if line !in seen {
        seen := seen + {line};
        paths := paths + [line];
      }
      k := k + 1;
    }
    assert lines[..k] == lines;
  }

  // ---------------------------------------------------------------------
  // writeHash
  // ---------------------------------------------------------------------

  /** writeHash: one line per path, in order. A path whose file opens and
      reads gets the hash of its content, read in BLOCK_SIZE blocks; any
      IOException or InvalidPathException gives hash 0 and the loop goes on
      to the next path. `files` holds the content of every readable path. */
  method WriteHash(files: map<string, seq<bv8>>, paths: seq<string>) returns (out: seq<string>)
    ensures |out| == |paths|
    ensures forall i :: 0 <= i < |paths| ==> out[i] == Line(HashOrZero(files, paths[i]), paths[i])
  {
    out := [];
    var k := 0;
    while k < |paths|
      invariant 0 <= k <= |paths|
      invariant |out| == k
      invariant forall i :: 0 <= i < k ==> out[i] == Line(HashOrZero(files, paths[i]), paths[i])
    {
      var path := paths[k];
      if path in files {
        var hash := HashBlocks(Blocks(files[path], BLOCK_SIZE), BLOCK_SIZE);
        out := out + [Line(hash, path)];
      } else {
        out := out + [Line(0, path)];
      }
      k := k + 1;
    }
  }

  /** What main does once its two arguments are accepted: read the paths,
      then hash each distinct one. */
  method Run(files: map<string, seq<bv8>>, lines: seq<string>) returns (out: seq<string>)
    ensures |out| == |Distinct(lines)|
    ensures forall i :: 0 <= i < |out| ==>
      out[i] == Line(HashOrZero(files, Distinct(lines)[i]), Distinct(lines)[i])
  {
    var paths := ReadFile(lines);
    out := WriteHash(files, paths);
  }

  /** Every input path gets exactly one output line, however often it is
      listed: the output has one line per distinct path. */
  lemma OneLinePerDistinctPath(lines: seq<string>)
    ensures |Distinct(lines)| == |set x | x in lines|
  {
    DistinctMembers(lines);
    var d := Distinct(lines);
    assert (set x | x in d) == (set x | x in lines);
    DistinctCount(d);
  }

  /** A list without repeats is as long as its set of members. */
  lemma {:induction false} DistinctCount(s: seq<string>)
    requires forall i, j :: 0 <= i < j < |s| ==> s[i] != s[j]
    ensures |s| == |set x | x in s|
  {
    if s != [] {
      var t := s[..|s| - 1];
      DistinctCount(t);
      assert s == t + [s[|s| - 1]];
      assert (set x | x in s) == (set x | x in t) + {s[|s| - 1]};
    }
  }
}
