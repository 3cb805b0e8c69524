/**
  The whole duplicate finder: walk the tree from the root, probe every path
  found (its size, then its MD5 digest), keep the paths where both
  succeeded, group them by digest, and report every group with more than
  one member.

  The file system is the tree the walk sees plus `fs`, which tells for every
  path what `metadata` and `File::open` give.
*/
module Dedup {
  import opened Wrappers
  import opened Bytes
  import opened Paths
  import opened Traversal
  import opened Hashing
  import opened Grouping
  import opened Report

  datatype FileState = FileState(metadata: Result<u64, IoError>, content: Opening)

  type FileSystem = Path -> FileState

  /** The probe of one file succeeded, with this size and this digest. */
  predicate HashesTo(st: FileState, finish: seq<byte> -> Digest16, size: u64, digest: Digest) {
    st.metadata == Success(size) && Md5Of(st.content, finish).Success? && Md5Of(st.content, finish).value == digest
  }

  /** The probe of one file failed: its size or its digest is an error. */
  predicate ProbeFails(st: FileState, finish: seq<byte> -> Digest16) {
    st.metadata.Failure? || Md5Of(st.content, finish).Failure?
  }

  /** The paths whose size and digest are both known, with that size and
      digest, in walk order. */
  function Successful(paths: seq<Path>, fs: FileSystem, finish: seq<byte> -> Digest16): (r: seq<Hashed>)
    ensures |r| <= |paths|
    ensures forall h :: h in r <==> h.path in paths && HashesTo(fs(h.path), finish, h.size, h.digest)
  {
    if paths == [] then []
    else
      var init, p := paths[..|paths| - 1], paths[|paths| - 1];
      var st := fs(p);
      var rest := Successful(init, fs, finish);
      assert paths == init + [p];
      if st.metadata.Success? && Md5Of(st.content, finish).Success? then
        rest + [Hashed(p, st.metadata.value, Md5Of(st.content, finish).value)]
      else rest
  }

  /** Probing the walked paths one by one, as the `for` loop pulls them
      through the filtering iterator. */
  method HashAll(paths: seq<Path>, fs: FileSystem, finish: seq<byte> -> Digest16) returns (items: seq<Hashed>)
    ensures items == Successful(paths, fs, finish)
  {
    items := [];
    for i := 0 to |paths|
      invariant items == Successful(paths[..i], fs, finish)
    {
      var p := paths[i];
      var st := fs(p);
      var digest := FileMd5(st.content, finish);
      PathPrefixSnoc(paths, i);
      if st.metadata.Success? && digest.Success? {
        items := items + [Hashed(p, st.metadata.value, digest.value)];
      }
    }
    assert paths[..|paths|] == paths;
  }

  lemma PathPrefixSnoc(paths: seq<Path>, i: nat)
    requires i < |paths|
    ensures paths[..i + 1][..i] == paths[..i] && paths[..i + 1][i] == paths[i]
  {
  }

  /** The table the program builds for the tree at `root`. */
  function TableOf(root: Path, tree: Node, fs: FileSystem, finish: seq<byte> -> Digest16): Table {
    Grouped(Successful(RecursiveContents(root, tree), fs, finish))
  }

  /** The program: walk, probe, group, report. */
  method FindDuplicates(root: Path, tree: Node, fs: FileSystem, finish: seq<byte> -> Digest16)
    returns (lines: seq<string>)
    ensures lines == ReportLines(TableOf(root, tree, fs, finish))
  {
    var paths := RecursiveContents(root, tree);
    var items := HashAll(paths, fs, finish);
    var table := BuildTable(items);
    lines := ReportLines(table);
  }

  // What the table holds

  /** Every member of the group for `d` is a walked path whose probe gave its
      size and the digest `d`. */
  lemma GroupMembersHashTo(paths: seq<Path>, fs: FileSystem, finish: seq<byte> -> Digest16, d: Digest, e: Entry)
    requires e in GroupOf(Grouped(Successful(paths, fs, finish)), d)
    ensures e.path in paths && HashesTo(fs(e.path), finish, e.size, d)
  {
    GroupCounts(Successful(paths, fs, finish), d, e);
    assert Hashed(e.path, e.size, d) in multiset(Successful(paths, fs, finish));
  }

  /** A path whose size or digest could not be obtained is in no group. */
  lemma FailedPathsAreLeftOut(paths: seq<Path>, fs: FileSystem, finish: seq<byte> -> Digest16, p: Path)
    requires ProbeFails(fs(p), finish)
    ensures forall d, e :: d in Grouped(Successful(paths, fs, finish)) && e in Grouped(Successful(paths, fs, finish))[d]
              ==> e.path != p
  {
    var t := Grouped(Successful(paths, fs, finish));
    forall d: Digest, e: Entry | d in t && e in t[d] ensures e.path != p {
      GroupMembersHashTo(paths, fs, finish, d, e);
    }
  }

  /** A walked path whose probe succeeded is in the group of its digest,
      with its size. */
  lemma HashedPathsAreGrouped(paths: seq<Path>, fs: FileSystem, finish: seq<byte> -> Digest16, p: Path, size: u64, d: Digest)
    requires p in paths && HashesTo(fs(p), finish, size, d)
    ensures d in Grouped(Successful(paths, fs, finish))
    ensures Entry(p, size) in Grouped(Successful(paths, fs, finish))[d]
  {
    var items := Successful(paths, fs, finish);
    assert Hashed(p, size, d) in items;
    GroupCounts(items, d, Entry(p, size));
    GroupedKeys(items);
    var i :| 0 <= i < |items| && items[i] == Hashed(p, size, d);
    assert d in Digests(items);
  }

  // What the report says

  /** Two different walked files with the same digest are reported on the
      same line. */
  lemma SameDigestSameLine(root: Path, tree: Node, fs: FileSystem, finish: seq<byte> -> Digest16,
                           p: Path, sp: u64, q: Path, sq: u64, d: Digest)
    requires p in RecursiveContents(root, tree) && HashesTo(fs(p), finish, sp, d)
    requires q in RecursiveContents(root, tree) && HashesTo(fs(q), finish, sq, d)
    requires p != q
    ensures exists i ::
      && 0 <= i < |ReportLines(TableOf(root, tree, fs, finish))|
      && ParseLine(ReportLines(TableOf(root, tree, fs, finish))[i]).Some?
      && Render(p) in ParseLine(ReportLines(TableOf(root, tree, fs, finish))[i]).value.1
      && Render(q) in ParseLine(ReportLines(TableOf(root, tree, fs, finish))[i]).value.1
  {
    var paths := RecursiveContents(root, tree);
    var t := TableOf(root, tree, fs, finish);
    HashedPathsAreGrouped(paths, fs, finish, p, sp, d);
    HashedPathsAreGrouped(paths, fs, finish, q, sq, d);
    var g := t[d];
    TwoMembers(g, Entry(p, sp), Entry(q, sq));
    var ds := DuplicateDigests(t);
    assert d in ds;
    var i :| 0 <= i < |ds| && ds[i] == d;
    ReportLinesParse(t);
    RenderedMember(g, Entry(p, sp));
    RenderedMember(g, Entry(q, sq));
    assert ParseLine(ReportLines(t)[i]) == Some((g[0].size as nat, RenderPaths(g)));
  }

  lemma TwoMembers(g: seq<Entry>, a: Entry, b: Entry)
    requires a in g && b in g && a != b
    ensures |g| > 1
  {
  }

  lemma RenderedMember(g: seq<Entry>, e: Entry)
    requires e in g
    ensures Render(e.path) in RenderPaths(g)
  {
    var k :| 0 <= k < |g| && g[k] == e;
    assert RenderPaths(g)[k] == Render(e.path);
  }

  /**
    Every report line is a group of more than one entry that share one
    digest: it reads back as the first member's size and the members' paths,
    and each entry is a walked path whose probe gave its size and that
    digest. The entries are different files when the tree is well formed;
    see `LinesHoldDistinctFiles`.
  */
  lemma LinesAreDuplicateGroups(root: Path, tree: Node, fs: FileSystem, finish: seq<byte> -> Digest16, i: nat)
    returns (d: Digest)
    requires i < |ReportLines(TableOf(root, tree, fs, finish))|
    ensures var t := TableOf(root, tree, fs, finish);
      d in t && |t[d]| > 1 &&
      ParseLine(ReportLines(t)[i]) == Some((t[d][0].size as nat, RenderPaths(t[d]))) &&
      forall e :: e in t[d] ==> e.path in RecursiveContents(root, tree) && HashesTo(fs(e.path), finish, e.size, d)
  {
    var t := TableOf(root, tree, fs, finish);
    ReportLinesParse(t);
    d := DuplicateDigests(t)[i];
    assert d in DuplicateDigests(t);
    forall e: Entry | e in t[d] ensures e.path in RecursiveContents(root, tree) && HashesTo(fs(e.path), finish, e.size, d) {
      GroupMembersHashTo(RecursiveContents(root, tree), fs, finish, d, e);
    }
  }

  /** In a well-formed tree no file is in a group twice: the members of a
      group have pairwise different paths. */
  lemma GroupPathsAreDistinct(root: Path, tree: Node, fs: FileSystem, finish: seq<byte> -> Digest16, d: Digest)
    requires WellFormed(tree) && d in TableOf(root, tree, fs, finish)
    ensures forall j, k :: 0 <= j < k < |TableOf(root, tree, fs, finish)[d]| ==>
      TableOf(root, tree, fs, finish)[d][j].path != TableOf(root, tree, fs, finish)[d][k].path
  {
    var paths := RecursiveContents(root, tree);
    var items := Successful(paths, fs, finish);
    var g := TableOf(root, tree, fs, finish)[d];
    WalkHasNoDuplicates(root, tree);
    forall j, k | 0 <= j < k < |g| ensures g[j].path != g[k].path {
      GroupMembersHashTo(paths, fs, finish, d, g[j]);
      GroupMembersHashTo(paths, fs, finish, d, g[k]);
      GroupCounts(items, d, g[j]);
      SuccessfulCount(paths, fs, finish, Hashed(g[j].path, g[j].size, d));
      NoDupCount(paths, g[j].path);
      RepeatCount(g, j, k);
    }
  }

  lemma {:induction false} NoDupCount(ps: seq<Path>, p: Path)
    requires NoDup(ps)
    ensures multiset(ps)[p] <= 1
    decreases |ps|
  {
    if ps != [] {
      var init, last := ps[..|ps| - 1], ps[|ps| - 1];
      assert ps == init + [last];
      assert NoDup(init) by {
        forall i, j | 0 <= i < j < |init| ensures init[i] != init[j] {
          assert init[i] == ps[i] && init[j] == ps[j];
        }
      }
      NoDupCount(init, p);
      forall i | 0 <= i < |init| ensures init[i] != last {
        assert init[i] == ps[i];
      }
      assert last !in multiset(init);
    }
  }

  /** An entry at two positions of a group occurs there at least twice. */
  lemma RepeatCount(g: seq<Entry>, j: nat, k: nat)
    requires j < k < |g|
    ensures g[j] == g[k] ==> multiset(g)[g[j]] >= 2
  {
    if g[j] == g[k] {
      var a, b, c := g[..k], [g[k]], g[k + 1..];
      assert g == a + b + c;
      assert g[j] == a[j];
    }
  }

  /**
    In a well-formed tree whose root path is made of valid names, every
    report line reads back as at least two different printed paths: no file
    is reported as a duplicate of itself.
  */
  lemma LinesHoldDistinctFiles(root: Path, tree: Node, fs: FileSystem, finish: seq<byte> -> Digest16, i: nat)
    returns (d: Digest)
    requires WellFormed(tree) && ValidNames(root.components)
    requires i < |ReportLines(TableOf(root, tree, fs, finish))|
    ensures var t := TableOf(root, tree, fs, finish);
      d in t && |t[d]| > 1 &&
      ParseLine(ReportLines(t)[i]) == Some((t[d][0].size as nat, RenderPaths(t[d]))) &&
      NoDup(RenderPaths(t[d]))
  {
    var t := TableOf(root, tree, fs, finish);
    d := LinesAreDuplicateGroups(root, tree, fs, finish, i);
    GroupPathsAreDistinct(root, tree, fs, finish, d);
    var g := t[d];
    forall e: Entry | e in g ensures ValidNames(e.path.components) {
      WalkKeepsNamesValid(root, tree, e.path);
    }
    PrintedPathsAreDistinct(g);
  }

  /** Members with different paths of valid names print differently. */
  lemma PrintedPathsAreDistinct(g: seq<Entry>)
    requires forall e :: e in g ==> ValidNames(e.path.components)
    requires forall j, k :: 0 <= j < k < |g| ==> g[j].path != g[k].path
    ensures NoDup(RenderPaths(g))
  {
    var ps := RenderPaths(g);
    forall j, k | 0 <= j < k < |ps| ensures ps[j] != ps[k] {
      assert g[j] in g && g[k] in g;
      RenderInjective(g[j].path, g[k].path);
    }
  }

  /** The report does not depend on the order in which paths were probed. */
  lemma ReportIgnoresProbeOrder(paths: seq<Path>, paths': seq<Path>, fs: FileSystem, finish: seq<byte> -> Digest16)
    requires multiset(paths) == multiset(paths')
    ensures ReportLines(Grouped(Successful(paths, fs, finish))) == ReportLines(Grouped(Successful(paths', fs, finish)))
  {
    SuccessfulCounts(paths, paths', fs, finish);
    GroupedOrderIndependent(Successful(paths, fs, finish), Successful(paths', fs, finish));
  }

  lemma SuccessfulCounts(paths: seq<Path>, paths': seq<Path>, fs: FileSystem, finish: seq<byte> -> Digest16)
    requires multiset(paths) == multiset(paths')
    ensures multiset(Successful(paths, fs, finish)) == multiset(Successful(paths', fs, finish))
  {
    forall h ensures multiset(Successful(paths, fs, finish))[h] == multiset(Successful(paths', fs, finish))[h] {
      SuccessfulCount(paths, fs, finish, h);
      SuccessfulCount(paths', fs, finish, h);
    }
  }

  /** A probe result occurs as often as its path was walked. */
  lemma {:induction false} SuccessfulCount(paths: seq<Path>, fs: FileSystem, finish: seq<byte> -> Digest16, h: Hashed)
    ensures multiset(Successful(paths, fs, finish))[h]
         == if HashesTo(fs(h.path), finish, h.size, h.digest) then multiset(paths)[h.path] else 0
    decreases |paths|
  {
    if paths != [] {
      var init, p := paths[..|paths| - 1], paths[|paths| - 1];
      assert paths == init + [p];
      SuccessfulCount(init, fs, finish, h);
    }
  }
}
