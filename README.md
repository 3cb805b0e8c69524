# A verified model of a duplicate-file finder

The program walks a directory tree and hashes every file it finds with MD5.
It keeps the files whose size and digest could both be read, and groups them
in a table ordered by digest. Each group holds `(path, size)` pairs and is
re-sorted after every insertion. The program then prints one line per group
with more than one member. A line is the first member's size, a space, and the
members' paths. Each path has `\` escaped as `\\` and space as `\ `, and the
paths are separated by single spaces.

The Dafny modules follow the program's stages:

- `Order`, `Bytes`, `Paths`: the value types and their orders.
  - Digests (`Vec<u8>`) are ordered byte-wise lexicographically.
  - Paths are sequences of component names, ordered component by component,
    as `PathBuf` is.
  - Sizes are `u64`.
- `Traversal`: `get_recursive_contents` over an in-memory directory tree.
- `Hashing`: `file_md5`, with a `Reader` class, an `Md5` accumulator class, and
  the read loop over a 1 MiB buffer.
- `Grouping`: the table-building loop (`push`, then `sort_unstable`). It is
  checked against a reference definition: group by digest, then sort each
  group once.
- `Strings`: joining strings with a one-character separator, used both for
  a path's text and for a report line.
- `Escaping`: path escaping, the strict inverse that reads it back, and how a
  report line is cut into paths.
- `Report`: the walk over the table in ascending digest order, the `len() > 1`
  filter, and the rendering of one line.
- `Dedup`: the probe-and-filter stage and the whole pipeline, with end-to-end
  properties.

The model treats these as parameters:

- MD5 is the parameter `finish`, a function from the bytes fed to the
  accumulator to a 16-byte digest.
- The file system is a tree of nodes (for the walk) plus a function `fs` from
  path to what `metadata` and `File::open` return. A tree read from a real
  file system is `WellFormed`: within one directory, names are non-empty,
  hold no `/`, and are pairwise different.
- An open file is the sequence of results its reads return.

## Model

| member | source | states |
|---|---|---|
| Bytes.DigestLessIsStrictTotal | src/main.rs:64 | the byte-wise lexicographic order on digest keys is irreflexive, transitive and total, so the table has one well-defined ascending order |
| Paths.Join | src/main.rs:22 | `d.join(name)` has the directory's components followed by `name` |
| Paths.Render | src/main.rs:75 | the printed path begins with the first component, and a `/` follows it when more components come |
| Paths.RenderJoin | src/main.rs:75 | the text of `d.join(name)` is the text of `d`, a `/`, then `name`, for any `d` with at least one component |
| Paths.RenderInjective | src/main.rs:75 | for paths made of non-empty names without `/`, two paths print the same text iff they are the same path |
| Paths.PathLessIsStrictTotal | src/main.rs:69 | the component-wise path order is a strict total order |
| Traversal.Readable | src/main.rs:19-22 | every kept entry is a readable directory entry, given the path `d.join(name)` |
| Traversal.ReadableKeepsFound | src/main.rs:19-22 | no readable entry is dropped |
| Traversal.ReadableAppend | src/main.rs:19-22 | the readable entries of two consecutive parts of a listing are those of the first part followed by those of the second, so listing order and repeats are kept |
| Traversal.Partition | src/main.rs:23 | the first part is exactly the entries that are directories, the second exactly the others, and together they hold every entry |
| Traversal.PartitionAppend | src/main.rs:23 | partitioning two consecutive runs of entries gives, on each side, the first run's entries followed by the second's, so each side keeps the order the entries came in |
| Traversal.Concat | src/main.rs:26-30 | a path is in the concatenation iff it is in one of the concatenated walks |
| Traversal.ConcatAppend | src/main.rs:26-30 | concatenating two runs of walks gives the first run's paths followed by the second's, so order and repeats are kept |
| Traversal.RecursiveContents | src/main.rs:16-32 | every returned path lies strictly inside `d`: it has more components than `d`, and its first components are those of `d` |
| Traversal.WalkFindsReachableFiles | src/main.rs:16-32 | the walk from `d` returns exactly the paths `d/n1/.../nk` that lead through listable directories and readable entries to a non-directory; an unlistable root or a non-directory root gives nothing |
| Traversal.WalkIsSound | src/main.rs:16-32 | every returned path leads to a non-directory reachable from `d` |
| Traversal.WalkIsComplete | src/main.rs:16-32 | every reachable non-directory is returned |
| Traversal.WalkHasNoDuplicates | src/main.rs:16-32 | when no listing in the tree holds a name twice, the walk returns each path at most once |
| Traversal.WalkKeepsNamesValid | src/main.rs:16-32 | in a tree whose names are non-empty and free of `/`, starting from such a root, every returned path is made of such names |
| Hashing.Reader.constructor | src/main.rs:35 | an opened file has all of its reads still to come |
| Hashing.Reader.Read | src/main.rs:39-49 | a read copies the next chunk to the front of the buffer and returns its length; after the last chunk a read returns 0 at end of file, or an error |
| Hashing.Md5.constructor | src/main.rs:36 | a new accumulator has been fed nothing |
| Hashing.Md5.Input | src/main.rs:47 | feeding appends the bytes to what was fed |
| Hashing.Md5.Result | src/main.rs:42-43 | the digest is MD5 of everything fed |
| Hashing.FileMd5 | src/main.rs:34-51 | the result is `Ok` iff the file opens and every read succeeds until one returns 0; the digest is then MD5 of all the file's bytes in order; otherwise the open or read error is returned |
| Grouping.EntryOrder | src/main.rs:69 | `(path, size)` pairs are totally ordered by path and then size, and the order is transitive and antisymmetric |
| Grouping.InsertSorted | src/main.rs:69 | inserting into a sorted group gives a sorted group holding the old entries plus the new one |
| Grouping.Sort | src/main.rs:69 | the result of `sort_unstable` is sorted and is a permutation of its input |
| Grouping.SortedPermutationUnique | src/main.rs:69 | two sorted permutations of the same entries are equal, so an unstable sort still gives one determined group |
| Grouping.AddEntry | src/main.rs:67-69 | after an insertion the key set gains the digest, the digest's group is sorted and is the old group plus the new pair as a multiset, and every other group is unchanged |
| Grouping.BuildTable | src/main.rs:64-70 | the table built pair by pair equals grouping all pairs by digest and sorting each group once; its keys are exactly the digests that occur, and every group is sorted |
| Grouping.GroupCounts | src/main.rs:64-69 | the group of `d` holds an entry exactly as often as the triples hold that entry with digest `d`: nothing is lost, duplicated or misplaced |
| Grouping.GroupedOrderIndependent | src/main.rs:64-70 | the table does not depend on the order in which triples arrive |
| Escaping.Replace | src/main.rs:75 | when the replacement does not contain the character, no occurrence of it is left; a string without the character is unchanged |
| Escaping.ReplaceLength | src/main.rs:75 | each occurrence of the character changes the length by the replacement's length minus one |
| Escaping.Escape | src/main.rs:75 | escaping never shortens a path, and leaves a path with no backslash and no space unchanged |
| Strings.JoinWith | src/main.rs:75-76 | the joined text starts with the first string, followed by the separator when more strings follow; `join(" ")` and the `/`-separated text of a path are both this join |
| Escaping.EscapeIsPerCharacter | src/main.rs:75 | the two `replace` passes, backslash first, amount to escaping each character on its own |
| Escaping.UnescapeInvertsEscape | src/main.rs:75 | a token unescapes to `s` iff it is the escape of `s` |
| Escaping.EscapedTokenIsNotCut | src/main.rs:75 | an escaped path contains no space at which a reader would cut it |
| Escaping.ParseJoinedEscaped | src/main.rs:74-76 | escaping paths and joining them with single spaces, then cutting at unescaped spaces and unescaping, gives back the paths |
| Report.Decimal | src/main.rs:73 | the printed size is a non-empty run of decimal digits, with no leading zero unless the size is 0 |
| Report.DecimalRoundTrip | src/main.rs:73 | reading the printed size back gives the size |
| Report.SortedDigests | src/main.rs:72 | the table's iteration order lists each key once, in strictly ascending digest order |
| Report.KeepDuplicates | src/main.rs:72 | the filter keeps exactly the groups with more than one member, in the order they came |
| Report.DuplicateDigests | src/main.rs:72 | the reported digests are exactly those whose group has more than one member, in strictly ascending order |
| Report.ReportLines | src/main.rs:72-77 | there is one line per reported digest |
| Report.LineParses | src/main.rs:73-76 | a size followed by one or more escaped paths, joined by single spaces, reads back as that size and those paths, in order |
| Report.RenderGroup | src/main.rs:73-76 | a line reads back as the first member's size and every member's path, in group order |
| Report.ReportLinesParse | src/main.rs:72-77 | line `i` belongs to the `i`-th reported digest, whose group has more than one member, and reads back as that group's first size and paths |
| Dedup.Successful | src/main.rs:59-62 | a `(path, size, digest)` triple is kept iff its path was walked and both its `metadata` and `file_md5` succeeded with that size and digest |
| Dedup.HashAll | src/main.rs:59-62 | probing the paths one by one, hashing each with `FileMd5`, yields exactly the kept triples in walk order |
| Dedup.SuccessfulCount | src/main.rs:59-62 | a kept triple occurs as often as its path was walked |
| Dedup.FindDuplicates | src/main.rs:57-77 | the program's output is the report of the table grouped from the kept triples of the walk |
| Dedup.GroupMembersHashTo | src/main.rs:59-69 | every member of the group of `d` is a walked path whose probe gave that member's size and the digest `d` |
| Dedup.FailedPathsAreLeftOut | src/main.rs:60-62 | a path whose `metadata` or `file_md5` fails is in no group |
| Dedup.HashedPathsAreGrouped | src/main.rs:59-69 | a walked path whose probe succeeded is in the group of its digest, with its size |
| Dedup.SameDigestSameLine | src/main.rs:57-77 | two different walked files with the same digest are printed on the same report line |
| Dedup.LinesAreDuplicateGroups | src/main.rs:57-77 | every report line is a group of more than one entry, each entry a walked path whose probe gave its size and the group's digest, and the line reads back as the first member's size and the members' paths |
| Dedup.GroupPathsAreDistinct | src/main.rs:57-69 | when no listing holds a name twice, the entries of a group have pairwise different paths |
| Dedup.LinesHoldDistinctFiles | src/main.rs:57-77 | in a tree of valid, pairwise different names under a root of valid names, every report line reads back as at least two pairwise different printed paths: no file is reported as a duplicate of itself |
| Dedup.ReportIgnoresProbeOrder | src/main.rs:57-77 | walking the same paths in another order gives the same report |

## Left out

- Real I/O (`read_dir`, `is_dir`, `metadata`, `File::open`, `read`). It is replaced by a finite tree for the walk and a function from path to metadata and read results for the probes. The tree is finite, so symlink cycles and unbounded depth are not modelled.
- The internals of MD5 (the `crypto` crate). The digest is an arbitrary deterministic function of the bytes fed, always 16 bytes long.
- Hashing.FileMd5: files that never end are not modelled. A file is a finite run of chunks followed by end of file or a read error, so `FileMd5` always returns and the program always produces its report. In the program, a non-directory entry such as a device whose reads never return 0 (`/dev/zero`) keeps the read loop running forever, and opening a FIFO with no writer blocks forever. Since nothing is printed before the whole table is built, one such entry anywhere in the tree means the program prints no report at all.
- How much a single `read` returns. A file is the sequence of chunks successive reads return, each non-empty and at most 1 MiB, followed by end of file or a read error. Interrupted reads are not treated specially: they end hashing with the error, as the source does.
- Command-line handling, the usage message and printing. The program's output is the sequence of report lines the function returns.
- The `to_str().unwrap()` panic on non-UTF-8 paths. Path names are Dafny strings of Unicode scalar values, so every path is valid text and rendering never fails.
- The textual form of the root argument. A path is its sequence of component names, and printing joins them with `/`. Repeated or trailing separators, `.` components and the root's prefix, as typed, are not reproduced.
- Laziness. The source pulls each path through `metadata` and `file_md5` only when the grouping loop asks for it. The model probes all paths, then builds the table, then renders the lines. With no shared state between the stages, the result is the same.
- `sort_unstable` is modelled by an insertion sort. Its result is the same: `Grouping.SortedPermutationUnique` shows there is only one sorted permutation.
- Repeated names. A tree of the model may list the same name twice in one directory, which no real file system does. The properties that exclude reporting a file as its own duplicate assume `Traversal.WellFormed`: every name in a listing is non-empty, holds no `/`, and occurs once.
