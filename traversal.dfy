/**
  The directory walk. The file system is an in-memory tree: a node is either
  something `is_dir` rejects, or a directory whose listing may fail as a
  whole, and whose listing may hold entries that fail to read. The walk lists
  the non-directories of a directory first, in listing order, and then the
  results of walking its subdirectories, also in listing order.
*/
module Traversal {
  import opened Paths

  datatype Node =
    | NonDir                     // `is_dir()` is false: a file, or anything else
    | Dir(listing: Listing)

  datatype Listing =
    | Unlistable                 // `read_dir` fails
    | Listed(entries: seq<Dirent>)

  datatype Dirent =
    | Unreadable                 // the directory iterator yields an error
    | Found(name: Name, node: Node)

  /** A readable entry, with the path `d.join(name)` it was given. */
  datatype Located = Located(path: Path, node: Node)

  /** The readable entries of a listing in `d`, in listing order, each with
      its full path; entries that fail to read are dropped. */
  function Readable(d: Path, es: seq<Dirent>): (r: seq<Located>)
    ensures |r| <= |es|
    ensures forall x :: x in r ==> exists name :: Found(name, x.node) in es && x.path == Join(d, name)
  {
    if es == [] then []
    else
      var rest := Readable(d, es[1..]);
      assert forall x :: x in es[1..] ==> x in es;
      match es[0]
      case Unreadable => rest
      case Found(name, node) => [Located(Join(d, name), node)] + rest
  }

  /** Every readable entry is kept. */
  lemma {:induction false} ReadableKeepsFound(d: Path, es: seq<Dirent>, name: Name, node: Node)
    requires Found(name, node) in es
    ensures Located(Join(d, name), node) in Readable(d, es)
  {
    if es[0] != Found(name, node) {
      assert Found(name, node) in es[1..];
      ReadableKeepsFound(d, es[1..], name, node);
    }
  }

  /** `partition(|x| x.is_dir())`: the directories and the others, each in
      the order they came. */
  function Partition(xs: seq<Located>): (r: (seq<Located>, seq<Located>))
    ensures |r.0| + |r.1| == |xs|
    ensures forall x :: x in r.0 <==> x in xs && x.node.Dir?
    ensures forall x :: x in r.1 <==> x in xs && !x.node.Dir?
  {
    if xs == [] then ([], [])
    else
      var (dirs, others) := Partition(xs[1..]);
      assert xs == [xs[0]] + xs[1..];
      if xs[0].node.Dir? then ([xs[0]] + dirs, others) else (dirs, [xs[0]] + others)
  }

  function Concat(ss: seq<seq<Path>>): (r: seq<Path>)
    ensures forall x :: x in r <==> exists i :: 0 <= i < |ss| && x in ss[i]
  {
    if ss == [] then []
    else
      var rest := Concat(ss[1..]);
      forall x | x in rest ensures exists i :: 0 <= i < |ss| && x in ss[i] {
        var i :| 0 <= i < |ss[1..]| && x in ss[1..][i];
        assert x in ss[i + 1];
      }
      forall x, i | 0 < i < |ss| && x in ss[i] ensures x in rest {
        assert x in ss[1..][i - 1];
      }
      ss[0] + rest
  }

  function PathsOf(xs: seq<Located>): (r: seq<Path>)
    ensures |r| == |xs|
    ensures forall i :: 0 <= i < |xs| ==> r[i] == xs[i].path
  {
    seq(|xs|, i requires 0 <= i < |xs| => xs[i].path)
  }

  /**
    `get_recursive_contents(d)` on the tree `n` found at `d`: nothing if `d`
    cannot be listed (which includes `d` not being a directory); otherwise the
    non-directory entries of `d`, then the concatenated walks of its
    subdirectories, both in listing order.
  */
  function RecursiveContents(d: Path, n: Node): (r: seq<Path>)
    ensures forall p :: p in r ==> Below(d, p)
    decreases n
  {
    match n
    case NonDir => []
    case Dir(Unlistable) => []
    case Dir(Listed(es)) =>
      var (dirs, files) := Partition(Readable(d, es));
      var subs := seq(|dirs|, i requires 0 <= i < |dirs| =>
        assert dirs[i] in Readable(d, es);
        RecursiveContents(dirs[i].path, dirs[i].node));
      forall p | p in PathsOf(files) ensures Below(d, p) {
        var k :| 0 <= k < |files| && PathsOf(files)[k] == p;
        assert files[k] in Readable(d, es);
      }
      forall p | p in Concat(subs) ensures Below(d, p) {
        var i :| 0 <= i < |subs| && p in subs[i];
        assert dirs[i] in Readable(d, es);
        var name :| Found(name, dirs[i].node) in es && dirs[i].path == Join(d, name);
        BelowJoin(d, name, p);
      }
      PathsOf(files) + Concat(subs)
  }

  /** `p` lies strictly inside the directory `d`. */
  predicate Below(d: Path, p: Path) {
    |p.components| > |d.components| && p.components[..|d.components|] == d.components
  }

  /** What is inside `d.join(name)` is inside `d`, under `name`. */
  lemma BelowJoin(d: Path, name: Name, p: Path)
    requires Below(Join(d, name), p)
    ensures Below(d, p) && p.components[|d.components|] == name
  {
    var n := |d.components|;
    assert p.components[..n] == p.components[..n + 1][..n];
    assert p.components[n] == p.components[..n + 1][n];
  }

  /**
    The reference for what the walk finds: `names` leads from `n` through
    listable directories and readable entries, one name per level, to an
    entry that is not a directory.
  */
  ghost predicate Reaches(n: Node, names: seq<Name>)
    decreases n
  {
    n.Dir? && n.listing.Listed? && |names| >= 1 &&
    exists node :: Found(names[0], node) in n.listing.entries &&
      (if node.Dir? then Reaches(node, names[1..]) else |names| == 1)
  }

  /** The walk from `d` returns exactly the paths `d/names...` of the
      non-directories reachable from `d`. */
  lemma WalkFindsReachableFiles(d: Path, n: Node, p: Path)
    ensures p in RecursiveContents(d, n)
        <==> exists names :: Reaches(n, names) && p == Path(d.components + names)
  {
    if p in RecursiveContents(d, n) {
      WalkIsSound(d, n, p);
    }
    if exists names :: Reaches(n, names) && p == Path(d.components + names) {
      var names :| Reaches(n, names) && p == Path(d.components + names);
      WalkIsComplete(d, n, names);
    }
  }

  /** What a listed directory's walk is made of: its non-directory entries
      and the walks of its subdirectories. */
  lemma WalkOfListed(d: Path, n: Node, p: Path)
    requires n.Dir? && n.listing.Listed?
    ensures p in RecursiveContents(d, n) <==>
      var parts := Partition(Readable(d, n.listing.entries));
      p in PathsOf(parts.1) ||
      exists i :: 0 <= i < |parts.0| && p in RecursiveContents(parts.0[i].path, parts.0[i].node)
  {
    var parts := Partition(Readable(d, n.listing.entries));
    var dirs := parts.0;
    var ss := seq(|dirs|, i requires 0 <= i < |dirs| => RecursiveContents(dirs[i].path, dirs[i].node));
    assert RecursiveContents(d, n) == PathsOf(parts.1) + Concat(ss);
    assert p in Concat(ss) <==> exists i :: 0 <= i < |dirs| && p in RecursiveContents(dirs[i].path, dirs[i].node) by {
      if p in Concat(ss) {
        var i :| 0 <= i < |ss| && p in ss[i];
        assert p in RecursiveContents(dirs[i].path, dirs[i].node);
      }
      if exists i :: 0 <= i < |dirs| && p in RecursiveContents(dirs[i].path, dirs[i].node) {
        var i :| 0 <= i < |dirs| && p in RecursiveContents(dirs[i].path, dirs[i].node);
        assert p in ss[i];
      }
    }
  }

  lemma {:induction false} WalkIsSound(d: Path, n: Node, p: Path)
    requires p in RecursiveContents(d, n)
    ensures exists names :: Reaches(n, names) && p == Path(d.components + names)
    decreases n
  {
    var parts := Partition(Readable(d, n.listing.entries));
    WalkOfListed(d, n, p);
    if p in PathsOf(parts.1) {
      var k :| 0 <= k < |parts.1| && PathsOf(parts.1)[k] == p;
      assert parts.1[k] in parts.1;
      var names := EntryReaches(d, n, parts.1[k], []);
      assert parts.1[k].path.components + [] == parts.1[k].path.components;
    } else {
      var i :| 0 <= i < |parts.0| && p in RecursiveContents(parts.0[i].path, parts.0[i].node);
      var x := parts.0[i];
      assert x in parts.0;
      WalkIsSound(x.path, x.node, p);
      var rest :| Reaches(x.node, rest) && p == Path(x.path.components + rest);
      var names := EntryReaches(d, n, x, rest);
    }
  }

  /** A readable entry of `n` that is a file, or a directory from which
      `rest` reaches a file, extends to a path from `n`. */
  lemma EntryReaches(d: Path, n: Node, x: Located, rest: seq<Name>) returns (names: seq<Name>)
    requires n.Dir? && n.listing.Listed? && x in Readable(d, n.listing.entries)
    requires if x.node.Dir? then Reaches(x.node, rest) else rest == []
    ensures Reaches(n, names) && x.path.components + rest == d.components + names
  {
    var name :| Found(name, x.node) in n.listing.entries && x.path == Join(d, name);
    ReachesCons(n, name, x.node, rest);
    Associate(d.components, name, rest);
    names := [name] + rest;
  }

  /** One readable entry followed by a route from it is a route from `n`. */
  lemma ReachesCons(n: Node, name: Name, node: Node, rest: seq<Name>)
    requires n.Dir? && n.listing.Listed? && Found(name, node) in n.listing.entries
    requires if node.Dir? then Reaches(node, rest) else rest == []
    ensures Reaches(n, [name] + rest)
  {
    var names := [name] + rest;
    assert names[0] == name && names[1..] == rest;
  }

  lemma Associate(cs: seq<Name>, name: Name, rest: seq<Name>)
    ensures (cs + [name]) + rest == cs + ([name] + rest)
  {
  }

  lemma {:induction false} WalkIsComplete(d: Path, n: Node, names: seq<Name>)
    requires Reaches(n, names)
    ensures Path(d.components + names) in RecursiveContents(d, n)
    decreases n
  {
    var p := Path(d.components + names);
    var parts := Partition(Readable(d, n.listing.entries));
    var node :| Found(names[0], node) in n.listing.entries &&
      (if node.Dir? then Reaches(node, names[1..]) else |names| == 1);
    var x := Located(Join(d, names[0]), node);
    ReadableKeepsFound(d, n.listing.entries, names[0], node);
    ExtendPath(d, names);
    if node.Dir? {
      assert x in parts.0;
      var i :| 0 <= i < |parts.0| && parts.0[i] == x;
      WalkIsComplete(x.path, node, names[1..]);
    } else {
      assert x in parts.1;
      var k :| 0 <= k < |parts.1| && parts.1[k] == x;
      assert PathsOf(parts.1)[k] == p;
    }
    WalkOfListed(d, n, p);
  }

  lemma ExtendPath(d: Path, names: seq<Name>)
    requires |names| >= 1
    ensures Join(d, names[0]).components + names[1..] == d.components + names
    ensures |names| == 1 ==> Join(d, names[0]) == Path(d.components + names)
  {
  }

  // Order and multiplicity

  /** Splitting a listing in two splits its readable entries the same way. */
  lemma {:induction false} ReadableAppend(d: Path, a: seq<Dirent>, b: seq<Dirent>)
    ensures Readable(d, a + b) == Readable(d, a) + Readable(d, b)
    decreases |a|
  {
    if a == [] {
      assert a + b == b;
    } else {
      assert (a + b)[0] == a[0] && (a + b)[1..] == a[1..] + b;
      ReadableAppend(d, a[1..], b);
    }
  }

  /** Splitting the entries in two splits both sides of the partition the
      same way: each side keeps the order the entries came in. */
  lemma {:induction false} PartitionAppend(a: seq<Located>, b: seq<Located>)
    ensures Partition(a + b) == (Partition(a).0 + Partition(b).0, Partition(a).1 + Partition(b).1)
    decreases |a|
  {
    if a == [] {
      var pb := Partition(b);
      assert a + b == b && Partition(a) == ([], []);
      assert [] + pb.0 == pb.0 && [] + pb.1 == pb.1;
    } else {
      var x, t := a[0], a[1..];
      assert a + b == [x] + (t + b) && a == [x] + t;
      PartitionAppend(t, b);
      PartitionCons(x, t + b);
      PartitionCons(x, t);
      ConsAppend(x, Partition(t).0, Partition(b).0);
      ConsAppend(x, Partition(t).1, Partition(b).1);
    }
  }

  lemma ConsAppend(x: Located, p: seq<Located>, q: seq<Located>)
    ensures [x] + (p + q) == ([x] + p) + q
  {
  }

  lemma PartitionCons(x: Located, xs: seq<Located>)
    ensures Partition([x] + xs) ==
      if x.node.Dir? then ([x] + Partition(xs).0, Partition(xs).1) else (Partition(xs).0, [x] + Partition(xs).1)
  {
    assert ([x] + xs)[0] == x && ([x] + xs)[1..] == xs;
  }

  /** Concatenating two runs of walks is concatenating each run. */
  lemma {:induction false} ConcatAppend(ss: seq<seq<Path>>, tt: seq<seq<Path>>)
    ensures Concat(ss + tt) == Concat(ss) + Concat(tt)
    decreases |ss|
  {
    if ss == [] {
      assert ss + tt == tt;
    } else {
      assert (ss + tt)[0] == ss[0] && (ss + tt)[1..] == ss[1..] + tt;
      ConcatAppend(ss[1..], tt);
    }
  }

  // Every file is found once

  predicate NoDup<T(==)>(s: seq<T>) {
    forall i, j :: 0 <= i < j < |s| ==> s[i] != s[j]
  }

  /** No two readable entries of a listing share a name. */
  predicate DistinctNames(es: seq<Dirent>) {
    forall i, j :: 0 <= i < j < |es| && es[i].Found? && es[j].Found? ==> es[i].name != es[j].name
  }

  /**
    A tree a real file system can present: in every listing, names are
    non-empty, hold no '/', and no two readable entries share a name.
  */
  predicate WellFormed(n: Node)
    decreases n
  {
    n.Dir? && n.listing.Listed? ==>
      DistinctNames(n.listing.entries) &&
      forall e :: e in n.listing.entries && e.Found? ==> ValidName(e.name) && WellFormed(e.node)
  }

  /** In a well-formed tree the walk returns no path twice. */
  lemma {:induction false} WalkHasNoDuplicates(d: Path, n: Node)
    requires WellFormed(n)
    ensures NoDup(RecursiveContents(d, n))
    decreases n
  {
    if n.Dir? && n.listing.Listed? {
      var es := n.listing.entries;
      var (dirs, files) := Partition(Readable(d, es));
      var subs := seq(|dirs|, i requires 0 <= i < |dirs| => RecursiveContents(dirs[i].path, dirs[i].node));
      assert RecursiveContents(d, n) == PathsOf(files) + Concat(subs);
      ReadableHasNoDuplicates(d, es);
      PartitionHasNoDuplicates(Readable(d, es));
      ReadableDepth(d, es);
      forall i | 0 <= i < |subs| ensures NoDup(subs[i]) && AllBelow(dirs[i].path, subs[i]) {
        assert dirs[i] in Readable(d, es);
        var name :| Found(name, dirs[i].node) in es && dirs[i].path == Join(d, name);
        WalkHasNoDuplicates(dirs[i].path, dirs[i].node);
      }
      ChildWalksAreDisjoint(d, dirs, subs);
      ConcatHasNoDuplicates(subs);
      forall p | p in PathsOf(files) ensures p !in Concat(subs) {
        var k :| 0 <= k < |files| && PathsOf(files)[k] == p;
        assert files[k] in Readable(d, es);
      }
      AppendHasNoDuplicates(PathsOf(files), Concat(subs));
    }
  }

  predicate AllBelow(d: Path, ps: seq<Path>) {
    forall p :: p in ps ==> Below(d, p)
  }

  /** Every readable entry of a listing in `d` is one level below `d`. */
  lemma ReadableDepth(d: Path, es: seq<Dirent>)
    ensures forall x :: x in Readable(d, es) ==> |x.path.components| == |d.components| + 1
  {
    forall x | x in Readable(d, es) ensures |x.path.components| == |d.components| + 1 {
      var name :| Found(name, x.node) in es && x.path == Join(d, name);
    }
  }

  /** The walks of different subdirectories of `d` share no path, and all
      lie at least two levels below `d`. */
  lemma ChildWalksAreDisjoint(d: Path, dirs: seq<Located>, subs: seq<seq<Path>>)
    requires NoDup(PathsOf(dirs)) && |subs| == |dirs|
    requires forall x :: x in dirs ==> |x.path.components| == |d.components| + 1
    requires forall i :: 0 <= i < |subs| ==> AllBelow(dirs[i].path, subs[i])
    ensures forall i, j, p :: 0 <= i < j < |subs| && p in subs[i] ==> p !in subs[j]
    ensures forall p :: p in Concat(subs) ==> |p.components| > |d.components| + 1
  {
    forall i, j, p | 0 <= i < j < |subs| && p in subs[i] ensures p !in subs[j] {
      assert PathsOf(dirs)[i] != PathsOf(dirs)[j];
      assert dirs[i] in dirs && dirs[j] in dirs;
      SameParent(dirs[i].path, dirs[j].path, p);
    }
    forall p | p in Concat(subs) ensures |p.components| > |d.components| + 1 {
      var i :| 0 <= i < |subs| && p in subs[i];
      assert dirs[i] in dirs;
    }
  }

  /** Two different directories at the same depth hold nothing in common. */
  lemma SameParent(a: Path, b: Path, p: Path)
    requires |a.components| == |b.components| && a != b && Below(a, p)
    ensures !Below(b, p)
  {
  }

  lemma {:induction false} ReadableHasNoDuplicates(d: Path, es: seq<Dirent>)
    requires DistinctNames(es)
    ensures NoDup(PathsOf(Readable(d, es)))
    decreases |es|
  {
    if es != [] {
      assert DistinctNames(es[1..]) by {
        forall i, j | 0 <= i < j < |es[1..]| && es[1..][i].Found? && es[1..][j].Found?
          ensures es[1..][i].name != es[1..][j].name
        {
          assert es[1..][i] == es[i + 1] && es[1..][j] == es[j + 1];
        }
      }
      ReadableHasNoDuplicates(d, es[1..]);
      var rest := Readable(d, es[1..]);
      if es[0].Found? {
        var x := Located(Join(d, es[0].name), es[0].node);
        forall y | y in rest ensures y.path != x.path {
          var name :| Found(name, y.node) in es[1..] && y.path == Join(d, name);
          var j :| 0 <= j < |es[1..]| && es[1..][j] == Found(name, y.node);
          assert es[j + 1] == Found(name, y.node);
        }
        ConsHasNoDuplicates(x, rest);
      }
    }
  }

  lemma {:induction false} PartitionHasNoDuplicates(xs: seq<Located>)
    requires NoDup(PathsOf(xs))
    ensures NoDup(PathsOf(Partition(xs).0)) && NoDup(PathsOf(Partition(xs).1))
    decreases |xs|
  {
    if xs != [] {
      var (dirs, others) := Partition(xs[1..]);
      assert NoDup(PathsOf(xs[1..])) by {
        forall i, j | 0 <= i < j < |xs[1..]| ensures PathsOf(xs[1..])[i] != PathsOf(xs[1..])[j] {
          assert PathsOf(xs)[i + 1] != PathsOf(xs)[j + 1];
        }
      }
      PartitionHasNoDuplicates(xs[1..]);
      forall y | y in xs[1..] ensures y.path != xs[0].path {
        var j :| 0 <= j < |xs[1..]| && xs[1..][j] == y;
        assert PathsOf(xs)[0] != PathsOf(xs)[j + 1];
      }
      if xs[0].node.Dir? {
        ConsHasNoDuplicates(xs[0], dirs);
      } else {
        ConsHasNoDuplicates(xs[0], others);
      }
    }
  }

  lemma ConsHasNoDuplicates(x: Located, xs: seq<Located>)
    requires NoDup(PathsOf(xs))
    requires forall y :: y in xs ==> y.path != x.path
    ensures NoDup(PathsOf([x] + xs))
  {
    var ys := [x] + xs;
    forall i, j | 0 <= i < j < |ys| ensures PathsOf(ys)[i] != PathsOf(ys)[j] {
      assert ys[j] == xs[j - 1];
      if i > 0 {
        assert ys[i] == xs[i - 1];
        assert PathsOf(xs)[i - 1] != PathsOf(xs)[j - 1];
      }
    }
  }

  lemma {:induction false} ConcatHasNoDuplicates(ss: seq<seq<Path>>)
    requires forall i :: 0 <= i < |ss| ==> NoDup(ss[i])
    requires forall i, j, p :: 0 <= i < j < |ss| && p in ss[i] ==> p !in ss[j]
    ensures NoDup(Concat(ss))
    decreases |ss|
  {
    if ss != [] {
      assert forall i :: 0 <= i < |ss[1..]| ==> ss[1..][i] == ss[i + 1];
      ConcatHasNoDuplicates(ss[1..]);
      forall p | p in ss[0] ensures p !in Concat(ss[1..]) {
        forall i | 0 <= i < |ss[1..]| ensures p !in ss[1..][i] {
          assert ss[1..][i] == ss[i + 1];
        }
      }
      AppendHasNoDuplicates(ss[0], Concat(ss[1..]));
    }
  }

  lemma AppendHasNoDuplicates(a: seq<Path>, b: seq<Path>)
    requires NoDup(a) && NoDup(b)
    requires forall p :: p in a ==> p !in b
    ensures NoDup(a + b)
  {
    var c := a + b;
    forall i, j | 0 <= i < j < |c| ensures c[i] != c[j] {
      if j < |a| {
        assert c[i] == a[i] && c[j] == a[j];
      } else if i < |a| {
        assert c[i] == a[i] && a[i] in a;
        assert c[j] == b[j - |a|] && b[j - |a|] in b;
      } else {
        assert c[i] == b[i - |a|] && c[j] == b[j - |a|];
      }
    }
  }

  /** Starting from a path of valid names, the walk of a well-formed tree
      returns only paths of valid names. */
  lemma {:induction false} WalkKeepsNamesValid(d: Path, n: Node, p: Path)
    requires WellFormed(n) && ValidNames(d.components)
    requires p in RecursiveContents(d, n)
    ensures ValidNames(p.components)
    decreases n
  {
    var parts := Partition(Readable(d, n.listing.entries));
    WalkOfListed(d, n, p);
    if p in PathsOf(parts.1) {
      var k :| 0 <= k < |parts.1| && PathsOf(parts.1)[k] == p;
      var x := parts.1[k];
      assert x in Readable(d, n.listing.entries);
      var name :| Found(name, x.node) in n.listing.entries && x.path == Join(d, name);
      JoinValid(d, name);
    } else {
      var i :| 0 <= i < |parts.0| && p in RecursiveContents(parts.0[i].path, parts.0[i].node);
      var x := parts.0[i];
      assert x in Readable(d, n.listing.entries);
      var name :| Found(name, x.node) in n.listing.entries && x.path == Join(d, name);
      JoinValid(d, name);
      WalkKeepsNamesValid(x.path, x.node, p);
    }
  }

  lemma JoinValid(d: Path, name: Name)
    requires ValidNames(d.components) && ValidName(name)
    ensures ValidNames(Join(d, name).components)
  {
    var cs := Join(d, name).components;
    forall i | 0 <= i < |cs| ensures ValidName(cs[i]) {
      if i < |d.components| {
        assert cs[i] == cs[..|d.components|][i];
      }
    }
  }
}
