# Sorted array sets and file-hash walkers, modelled in Dafny

This project models two parts of a Java lab repository.

**ArraySet / NavigableArraySet.** `ArraySet` is an immutable `SortedSet`
backed by a list that is strictly ascending under its comparator. The list is
built by passing the input collection through a `TreeSet`. Every query is a
`Collections.binarySearch` followed by index arithmetic. `headSet`, `tailSet`
and `subSet` return `subList` views of the list. `NavigableArraySet` adds:

- `ceiling`, `higher`, `floor` and `lower`;
- ranges with inclusive or exclusive ends, which are rebuilt through the
  sorting constructor;
- `descendingSet`, the same elements under the reversed comparator;
- a descending iterator;
- `pollFirst`/`pollLast`, which always throw.

The model uses `int` elements and a comparator that is either the natural
order or its reverse (`ArraySet.Order`). Java `null` results become `Option`.
Exceptions become `Result` values with the exception named (`results.dfy`).
The set invariant is `ArraySet.Valid`: the list is strictly sorted.

**Walk / RecursiveWalk.** Both programs read paths, one per line, and write
one line per file: `%08x %s\n`, that is the 32-bit FNV-1 hash of the file's
bytes and the path. The hash is `00000000` when the file cannot be read.

- `Walk` keeps each distinct input line once, in first-occurrence order (a
  `LinkedHashSet`), and hashes each path in 1024-byte blocks.
- `RecursiveWalk` walks the file tree under every input line in turn, repeats
  included, and hashes in 4096-byte blocks. A file the walk cannot visit gets
  a zero line. A line `Paths.get` rejects gets a zero line and ends the run. A
  read error on the input list writes a zero line for the last line read.

The FNV-1 rounds are on `bv32`, so Java's `int` wrap-around is exact. A Java
`byte` is sign-extended and then masked with `& 0xff`, and `Fnv.Unsigned`
models exactly that. The file system is a parameter: a map from readable paths
to contents, plus (for `RecursiveWalk`) the callbacks each walk produces and
the set of invalid path strings. The read loop itself is an imperative method
(`Fnv.HashBlocks`) over a reused `array<bv8>` buffer. It is proved equal to
the hash of the whole content, whatever block sizes the reads return.

## Model

| member | source | states |
|---|---|---|
| ArraySet.Compare | com/botsula/labs/arrayset/ArraySet.java:49-50 | the comparator's sign: negative iff a before b, positive iff b before a, zero iff equal |
| ArraySet.Flip | com/botsula/labs/arrayset/NavigableArraySet.java:56 | reversing the order swaps which of two values comes first: `a` precedes `b` under the result exactly when `b` precedes `a` under the original |
| ArraySet.Insert | com/botsula/labs/arrayset/ArraySet.java:19-20 | adding one element to a sorted list keeps it strictly sorted, with members the old ones plus the new one |
| ArraySet.SortDistinct | com/botsula/labs/arrayset/ArraySet.java:19-21 | TreeSet.addAll then iteration: a strictly sorted list with exactly the collection's members |
| ArraySet.FromCollectionWith | com/botsula/labs/arrayset/ArraySet.java:17-22 | the constructed set is valid, keeps the comparator, and holds exactly the collection's members |
| ArraySet.FromCollection | com/botsula/labs/arrayset/ArraySet.java:13-15 | without a comparator the natural order is used; members are the collection's |
| ArraySet.Empty | com/botsula/labs/arrayset/ArraySet.java:9-11 | the default set is valid, natural-ordered and empty |
| ArraySet.SortedUnique | com/botsula/labs/arrayset/ArraySet.java:19-21 | two strictly sorted lists with the same members are equal, so the list is determined by the members |
| ArraySet.FromSortedKeepsList | com/botsula/labs/arrayset/NavigableArraySet.java:82 | rebuilding from an already sorted list under the same comparator returns that list unchanged |
| ArraySet.DistinctLength | com/botsula/labs/arrayset/ArraySet.java:74-76 | a strictly sorted list is as long as its set of members |
| ArraySet.SizeIsDistinctCount | com/botsula/labs/arrayset/ArraySet.java:17-22 | size() of a constructed set is the number of distinct elements of the collection |
| ArraySet.Search | com/botsula/labs/arrayset/ArraySet.java:30 | binary search: a non-negative result indexes the key; a negative one encodes the insertion point with everything before it smaller and everything after it larger |
| ArraySet.BinarySearch | com/botsula/labs/arrayset/ArraySet.java:30 | Collections.binarySearch: negative iff absent; otherwise the key's index; when absent, -(insertion point)-1 |
| ArraySet.GetElementIndex | com/botsula/labs/arrayset/ArraySet.java:29-32 | the index of the key when present, otherwise the insertion point; all earlier elements are below the key and no later one is |
| ArraySet.Contains | com/botsula/labs/arrayset/ArraySet.java:69-71 | true iff the element is in the set |
| ArraySet.Size | com/botsula/labs/arrayset/ArraySet.java:74-76 | the number of distinct members of the set |
| ArraySet.Slice | com/botsula/labs/arrayset/ArraySet.java:24-27 | subList view: IndexOutOfBounds for a negative start or an end past the size, IllegalArgument for start > end, otherwise exactly the elements between, same comparator |
| ArraySet.HeadSet | com/botsula/labs/arrayset/ArraySet.java:40-43 | a prefix of the list holding exactly the elements strictly below the bound |
| ArraySet.TailSet | com/botsula/labs/arrayset/ArraySet.java:57-60 | a suffix of the list holding exactly the elements at or above the bound |
| ArraySet.SubSet | com/botsula/labs/arrayset/ArraySet.java:46-54 | IllegalArgument iff from is above to; otherwise exactly the elements in [from, to) |
| ArraySet.First | com/botsula/labs/arrayset/ArraySet.java:79-83 | NoSuchElement iff empty; otherwise a member not above any other member |
| ArraySet.Last | com/botsula/labs/arrayset/ArraySet.java:86-91 | NoSuchElement iff empty; otherwise a member not below any other member |
| NavigableArraySet.GetElement | com/botsula/labs/arrayset/NavigableArraySet.java:41-47 | the element at the index when it lies in [0, size), null otherwise |
| NavigableArraySet.Ceiling | com/botsula/labs/arrayset/NavigableArraySet.java:122-127 | null iff every element is below e; otherwise the least member at or above e |
| NavigableArraySet.Higher | com/botsula/labs/arrayset/NavigableArraySet.java:129-134 | null iff no element is above e; otherwise the least member strictly above e |
| NavigableArraySet.Floor | com/botsula/labs/arrayset/NavigableArraySet.java:136-141 | null iff every element is above e; otherwise the greatest member at or below e |
| NavigableArraySet.Lower | com/botsula/labs/arrayset/NavigableArraySet.java:143-148 | null iff no element is below e; otherwise the greatest member strictly below e |
| NavigableArraySet.LowerCut | com/botsula/labs/arrayset/NavigableArraySet.java:88-94 | the start index computed for a lower bound cuts the list exactly where elements start to satisfy the bound |
| NavigableArraySet.UpperCut | com/botsula/labs/arrayset/NavigableArraySet.java:101-107 | the end index computed for an upper bound cuts the list exactly where elements stop satisfying the bound |
| NavigableArraySet.TailSet | com/botsula/labs/arrayset/NavigableArraySet.java:86-97 | a suffix of the list holding exactly the elements above from (or equal, when inclusive) |
| NavigableArraySet.HeadSet | com/botsula/labs/arrayset/NavigableArraySet.java:99-110 | a prefix of the list holding exactly the elements below to (or equal, when inclusive) |
| NavigableArraySet.SubSet | com/botsula/labs/arrayset/NavigableArraySet.java:59-84 | ordered bounds never fail; the only error is IllegalArgument, raised iff an element lies in [to, from) or from is above to, present and excluded; a result holds exactly the elements between the bounds |
| NavigableArraySet.SubSetCut | com/botsula/labs/arrayset/NavigableArraySet.java:74-82 | after the explicit checks, the adjusted start passes the end only for a present, excluded from above to; otherwise the slice is the requested range |
| NavigableArraySet.InsertionPointOrder | com/botsula/labs/arrayset/NavigableArraySet.java:61-68 | the two insertion points are out of order iff some element lies in [to, from) |
| NavigableArraySet.DescendingSet | com/botsula/labs/arrayset/NavigableArraySet.java:54-57 | a valid set under the reversed comparator whose list is the original list reversed |
| NavigableArraySet.DescendingSetTwice | com/botsula/labs/arrayset/NavigableArraySet.java:54-57 | taking the descending set twice gives back the original set |
| NavigableArraySet.PollFirst | com/botsula/labs/arrayset/NavigableArraySet.java:112-115 | always UnsupportedOperation |
| NavigableArraySet.PollLast | com/botsula/labs/arrayset/NavigableArraySet.java:117-120 | always UnsupportedOperation |
| NavigableArraySet.SubSetAcceptsReversedBounds | com/botsula/labs/arrayset/NavigableArraySet.java:66-68 | with to below from and no element in [to, from] other than `from` itself when it is included, subSet returns an empty set instead of failing |
| NavigableArraySet.SubSetChecked | com/botsula/labs/arrayset/NavigableArraySet.java:59-84 | corrected subSet: IllegalArgument iff from is above to; otherwise exactly the elements between the bounds |
| NavigableArraySet.Descending | com/botsula/labs/arrayset/NavigableArraySet.java:17-25 | definition: the values next() returns while hasNext() holds, from index `to` down to 1 under the guard `to > from` with `from` fixed at 0 (as written) |
| NavigableArraySet.DescendingIsReverseOfTail | com/botsula/labs/arrayset/NavigableArraySet.java:17-25 | while hasNext() holds, next() yields the list from index to down to index 1, i.e. the reverse of elements[1..to] |
| NavigableArraySet.DescendingIteratorSkipsFirst | com/botsula/labs/arrayset/NavigableArraySet.java:18-20 | for a non-empty set the iteration yields size-1 values and never the first element |
| NavigableArraySet.DescendingIntended | com/botsula/labs/arrayset/NavigableArraySet.java:17-25 | definition: the same iteration under the guard `to >= from`, which reaches index 0 (corrected) |
| NavigableArraySet.DescendingIntendedIsReverse | com/botsula/labs/arrayset/NavigableArraySet.java:18-20 | corrected iteration with guard to >= from: yields every element, last to first |
| NavigableArraySet.DescendingIterator.constructor | com/botsula/labs/arrayset/NavigableArraySet.java:11-15 | starts with from = 0 and to = size-1, pending values are those from the last index down |
| NavigableArraySet.DescendingIterator.HasNext | com/botsula/labs/arrayset/NavigableArraySet.java:17-20 | true iff some value is still pending |
| NavigableArraySet.DescendingIterator.Next | com/botsula/labs/arrayset/NavigableArraySet.java:22-25 | returns the element at to (IndexOutOfBounds below 0) and decrements to; after hasNext() it returns the first pending value and the rest stay pending |
| Fnv.Unsigned | com/botsula/labs/walk/Walk.java:46 | byte & 0xff is below 256 and its low byte is the byte itself |
| Fnv.Step | com/botsula/labs/walk/Walk.java:46 | definition: one FNV-1 round, the 32-bit wrapping product with 0x01000193 xored with the byte's unsigned value (the same round is at RecursiveWalk.java:40) |
| Fnv.Fold | com/botsula/labs/walk/Walk.java:45-47 | definition: the rounds applied to the bytes in order, starting from the given state |
| Fnv.Hash | com/botsula/labs/walk/RecursiveWalk.java:37-43 | definition: the FNV-1 fold from the offset basis 0x811c9dc5, one round per byte of the content (also Walk.java:42-48) |
| Fnv.StepTouchesLowByte | com/botsula/labs/walk/Walk.java:46 | one round changes only the low byte of the product, xoring in exactly the input byte |
| Fnv.EmptyHash | com/botsula/labs/walk/Walk.java:42 | an empty file hashes to the offset basis 0x811c9dc5 |
| Fnv.FoldAppend | com/botsula/labs/walk/Walk.java:44-48 | hashing two pieces in turn equals hashing their concatenation |
| Fnv.FoldSnoc | com/botsula/labs/walk/Walk.java:45-47 | one more byte is one more round |
| Fnv.FlattenAppend | com/botsula/labs/walk/Walk.java:44 | joining blocks plus one more block is joining them then appending it |
| Fnv.Blocks | com/botsula/labs/walk/Walk.java:44 | the reads split a file into non-empty blocks of at most the buffer size that join back to the file |
| Fnv.BlockwiseFold | com/botsula/labs/walk/RecursiveWalk.java:38-42 | definition: the block loop as a function, each block folded into the running hash in read order |
| Fnv.BlockwiseFoldIsFold | com/botsula/labs/walk/Walk.java:44-48 | folding block by block equals folding the joined content |
| Fnv.BlockSizeIrrelevant | com/botsula/labs/walk/RecursiveWalk.java:35-42 | any two block sizes (1024 in Walk, 4096 here) give the same hash, the hash of the whole content |
| Fnv.HashOrZero | com/botsula/labs/walk/RecursiveWalk.java:44-47 | definition: the content's hash for a path that opens and reads to the end, 0 for one whose open or read throws (also Walk.java:51-53) |
| Fnv.HashBlocks | com/botsula/labs/walk/Walk.java:40-48 | the buffer loop returns the FNV-1 hash of the joined blocks |
| HashLine.DigitChar | com/botsula/labs/walk/Walk.java:50 | a value below 16 maps to a lower-case hex digit that reads back as that value |
| HashLine.HexDigits | com/botsula/labs/walk/Walk.java:50 | the digits have exactly the requested width and are all hex digits |
| HashLine.ParseHexDigits | com/botsula/labs/walk/Walk.java:50 | a value that fits in the width reads back unchanged from its digits |
| HashLine.Hex8 | com/botsula/labs/walk/Walk.java:50 | %08x of a 32-bit value: exactly eight lower-case hex digits |
| HashLine.Hex8ReadsBack | com/botsula/labs/walk/Walk.java:50 | the eight digits read back as the hash's unsigned value, so a negative int prints as its two's complement |
| HashLine.Hex8Injective | com/botsula/labs/walk/Walk.java:50 | different hashes print differently |
| HashLine.Hex8Zero | com/botsula/labs/walk/Walk.java:52 | the error hash prints as 00000000 |
| HashLine.Line | com/botsula/labs/walk/Walk.java:50 | definition: `%08x %s\n`, the eight hex digits of the hash, a space, the path and a newline (the same format is at Walk.java:52 and RecursiveWalk.java:18, 24 and 69) |
| HashLine.LineFormat | com/botsula/labs/walk/Walk.java:50 | a line is eight hex digits reading back as the hash, a space, the path and a newline, of length path+10 |
| Walk.Distinct | com/botsula/labs/walk/Walk.java:22-29 | definition: the LinkedHashSet of the input lines, each line kept once at its first occurrence |
| Walk.DistinctMembers | com/botsula/labs/walk/Walk.java:21-34 | the kept lines contain no repeat and exactly the input's lines |
| Walk.FirstIndex | com/botsula/labs/walk/Walk.java:28 | the first index holding the line |
| Walk.FirstIndexUnique | com/botsula/labs/walk/Walk.java:28 | an index holding the line with no earlier occurrence is the first index |
| Walk.FirstIndexOfPrefix | com/botsula/labs/walk/Walk.java:27-29 | reading more lines does not move an earlier first occurrence |
| Walk.DistinctFirstOccurrenceOrder | com/botsula/labs/walk/Walk.java:22 | the kept lines come in the order of their first occurrences (LinkedHashSet insertion order) |
| Walk.ReadFile | com/botsula/labs/walk/Walk.java:21-34 | the loop returns the lines with repeats dropped, first occurrences kept |
| Walk.WriteHash | com/botsula/labs/walk/Walk.java:36-58 | one line per path, in order: the content hash when the file reads, 0 otherwise |
| Walk.Run | com/botsula/labs/walk/Walk.java:60-75 | one output line per distinct input path, in first-occurrence order, each with that path's hash or 0 |
| Walk.OneLinePerDistinctPath | com/botsula/labs/walk/Walk.java:21-34 | the number of output lines is the number of distinct input lines |
| Walk.DistinctCount | com/botsula/labs/walk/Walk.java:22 | a list without repeats is as long as its set of members |
| RecursiveWalk.GetHash | com/botsula/labs/walk/RecursiveWalk.java:33-48 | the content hash read in 4096-byte blocks when the file reads, 0 otherwise |
| RecursiveWalk.Events | com/botsula/labs/walk/RecursiveWalk.java:15 | definition: the callbacks of the walk from a start path: the tree's given callbacks, or a single failed visit of the path itself when it cannot be walked |
| RecursiveWalk.EventLine | com/botsula/labs/walk/RecursiveWalk.java:17-25 | definition: visitFile writes the file's hash or 0, visitFileFailed writes 0, each with the visited path |
| RecursiveWalk.WalkLines | com/botsula/labs/walk/RecursiveWalk.java:13-31 | definition: the lines one processFiles call writes, one per callback in callback order |
| RecursiveWalk.ProcessFiles | com/botsula/labs/walk/RecursiveWalk.java:13-31 | one line per walk callback, in callback order: the file's hash for a visited file, 0 for a failed one |
| RecursiveWalk.ReportWith | com/botsula/labs/walk/RecursiveWalk.java:61-70 | definition: main's output for any per-path walk: each valid line's walk in order, a zero line for the first invalid line and nothing after it, and on a read error a zero line for the last line read |
| RecursiveWalk.Report | com/botsula/labs/walk/RecursiveWalk.java:61-70 | definition: ReportWith with processFiles on the given file tree as the walk |
| RecursiveWalk.Run | com/botsula/labs/walk/RecursiveWalk.java:60-70 | the main loop writes exactly the report of the input: each line's walk, a zero line ending the run on an invalid line, and a zero line for the last line on a read error |
| RecursiveWalk.ReportWithConcat | com/botsula/labs/walk/RecursiveWalk.java:61-70 | for any per-path walk, while no line is invalid, the report of a concatenation is the concatenation of the reports, the second continuing from the first's last line |
| RecursiveWalk.ReportWithSnoc | com/botsula/labs/walk/RecursiveWalk.java:65-67 | reading one more valid line appends exactly that line's walk |
| RecursiveWalk.ReportWithStop | com/botsula/labs/walk/RecursiveWalk.java:65-70 | the first invalid line ends the report with its own zero line, whatever follows it and whether or not a read error follows |
| RecursiveWalk.ReportWithEnd | com/botsula/labs/walk/RecursiveWalk.java:61-70 | with every line valid, a read error adds exactly one zero line for the last line read (or the previous line when none was) |
| RecursiveWalk.ReportConcat | com/botsula/labs/walk/RecursiveWalk.java:65-67 | while no line is invalid, the report of a concatenation is the concatenation of the reports |
| RecursiveWalk.RepeatedLineWalkedTwice | com/botsula/labs/walk/RecursiveWalk.java:65-67 | a valid path listed twice is walked and written twice |
| RecursiveWalk.InvalidLineStops | com/botsula/labs/walk/RecursiveWalk.java:65-70 | an invalid line writes a zero line for itself and no later line is walked |
| RecursiveWalk.ReadErrorRepeatsLastLine | com/botsula/labs/walk/RecursiveWalk.java:61-70 | a read error after the last line adds a zero line for the last line read, or for "" when none was read |

## Left out

- WebCrawler is not part of this model: it is concurrent (executor pools, downloads and extraction running in parallel).
- File-system access, stream reading and output writing are parameters: file contents, walk callbacks and invalid paths are given as maps and sets, and outputs are returned as lists of lines.
- An IOException from the output writer, which ends the run with a message on standard error, is not modelled.
- The argument checks in both `main` methods (`Invalid arguments`) and the messages printed to standard error are not modelled.
- Comparators other than the natural order and its reverse are not modelled; elements are integers.
- `iterator()` and `comparator()` of ArraySet are plain accessors and are not modelled as members.
- Path normalisation by `Paths.get` and `Path.toString` is not modelled: the walkers' paths are the input strings as given.
- `Fnv.HashOrZero`: a file whose reading fails part-way is modelled as unreadable (absent from the content map), which matches the zero line the source writes.
- `Walk.ReadFile`: an IOException while reading the list is modelled as a shorter list of lines read, since the source keeps the lines read so far.
- `RecursiveWalk.ProcessFiles`: an IOException escaping `Files.walkFileTree` (printed as a stack trace) is not modelled; the callbacks of each walk are given.
- Walk.WriteHash: an IOException from closing a file's stream after its hash line was written is not modelled; the source then writes a second, zero line for that path, so the model's one line per path holds only when closing succeeds.
- RecursiveWalk.Run: an IOException from closing the input reader after end of input is not modelled; the source then writes a zero line for the path `null`.
- `ArraySet.Slice` models a `subList` view as a copy; the sharing of the backing list between a view and its set is not observable since neither is mutated.

## Findings

| source | as written | input that shows it | evidently intended | confidence | as-written member | corrected member |
|---|---|---|---|---|---|---|
| com/botsula/labs/arrayset/NavigableArraySet.java:66-68 | the only bound check compares the two insertion points, so reversed bounds pass whenever no element lies in [to, from) and `from` is absent or included | an empty set, `subSet(5, true, 1, true)` returns an empty set | IllegalArgumentException whenever fromElement is above toElement, as the SortedSet contract asks | not executed | NavigableArraySet.SubSetAcceptsReversedBounds | NavigableArraySet.SubSetChecked |
| com/botsula/labs/arrayset/NavigableArraySet.java:18-20 | `hasNext()` tests `to > from` with `from == 0`, so index 0 is never returned | the set {1, 2}: the descending iterator yields only 2 | `to >= from`, yielding every element from last to first | not executed | NavigableArraySet.DescendingIteratorSkipsFirst | NavigableArraySet.DescendingIntendedIsReverse |
