/**
  Paths as the program compares and prints them. A `PathBuf` is ordered by its
  components, not by its text, so a path is modelled as its sequence of
  component names; printing joins them with '/'.
*/
module Paths {
  import opened Order
  import opened Strings

  /** One path component (a file or directory name). */
  type Name = seq<char>

  datatype Path = Path(components: seq<Name>)

  /** `dir.join(name)`: the path of entry `name` inside directory `dir`. */
  function Join(dir: Path, name: Name): (p: Path)
    ensures |p.components| == |dir.components| + 1
    ensures p.components[..|dir.components|] == dir.components
    ensures p.components[|dir.components|] == name
  {
    Path(dir.components + [name])
  }

  /** `to_str()` of a path: its components separated by '/'. */
  function Render(p: Path): (r: string)
    ensures |p.components| >= 1 ==> |r| >= |p.components[0]| && r[..|p.components[0]|] == p.components[0]
    ensures |p.components| >= 2 ==> |r| > |p.components[0]| && r[|p.components[0]|] == '/'
  {
    JoinWith('/', p.components)
  }

  /** A name a directory listing can hold: not empty, and without '/'. */
  predicate ValidName(name: Name) {
    |name| > 0 && '/' !in name
  }

  predicate ValidNames(names: seq<Name>) {
    forall i :: 0 <= i < |names| ==> ValidName(names[i])
  }

  /** `to_str` of `d.join(name)`: the text of `d`, a '/', then `name`. */
  lemma RenderJoin(d: Path, name: Name)
    ensures |d.components| >= 1 ==> Render(Join(d, name)) == Render(d) + "/" + name
  {
    if |d.components| >= 1 {
      JoinSnoc('/', d.components, name);
    }
  }

  /** Paths made of valid names print differently when they differ: the
      printed text determines the components. */
  lemma RenderInjective(p: Path, q: Path)
    requires ValidNames(p.components) && ValidNames(q.components)
    ensures Render(p) == Render(q) <==> p == q
  {
    if Render(p) == Render(q) {
      JoinNamesInjective(p.components, q.components);
    }
  }

  lemma {:induction false} JoinNamesInjective(a: seq<Name>, b: seq<Name>)
    requires ValidNames(a) && ValidNames(b)
    requires JoinWith('/', a) == JoinWith('/', b)
    ensures a == b
    decreases |a|
  {
    if |a| != 0 && |b| != 0 {
      SlashFree(a, b);
      if |a| >= 2 {
        var s, n := JoinWith('/', a), |a[0]| + 1;
        assert JoinWith('/', a[1..]) == s[n..] == JoinWith('/', b[1..]);
        assert ValidNames(a[1..]) by { forall i | 0 <= i < |a[1..]| ensures ValidName(a[1..][i]) { assert a[1..][i] == a[i + 1]; } }
        assert ValidNames(b[1..]) by { forall i | 0 <= i < |b[1..]| ensures ValidName(b[1..][i]) { assert b[1..][i] == b[i + 1]; } }
        JoinNamesInjective(a[1..], b[1..]);
        assert a == [a[0]] + a[1..] && b == [b[0]] + b[1..];
      } else {
        assert a == [a[0]] && b == [b[0]];
      }
    } else if |a| != 0 || |b| != 0 {
      assert false;
    }
  }

  /** Two joined lists with the same text start with the same name, and
      either both go on after it or neither does. */
  lemma SlashFree(a: seq<Name>, b: seq<Name>)
    requires |a| >= 1 && |b| >= 1 && ValidName(a[0]) && ValidName(b[0])
    requires JoinWith('/', a) == JoinWith('/', b)
    ensures a[0] == b[0]
    ensures |a| >= 2 <==> |b| >= 2
  {
    var s := JoinWith('/', a);
    var x, y := a[0], b[0];
    if |x| < |y| {
      assert false;
    } else if |y| < |x| {
      assert false;
    } else {
      assert x == s[..|x|] == y;
      if |a| >= 2 && |b| < 2 {
        assert false;
      } else if |b| >= 2 && |a| < 2 {
        assert false;
      }
    }
  }

  predicate CharLess(x: char, y: char) {
    x < y
  }

  /** Component names compare by their characters; for UTF-8 text this is the
      same as comparing their bytes, which is what `OsStr` does. */
  predicate NameLess(a: Name, b: Name) {
    LexLess(a, b, CharLess)
  }

  /** `Ord` for `PathBuf`: lexicographic over the components. */
  predicate PathLess(p: Path, q: Path) {
    LexLess(p.components, q.components, NameLess)
  }

  lemma NameLessIsStrictTotal()
    ensures forall a :: !NameLess(a, a)
    ensures forall a, b, c :: NameLess(a, b) && NameLess(b, c) ==> NameLess(a, c)
    ensures forall a, b :: a != b ==> NameLess(a, b) || NameLess(b, a)
  {
    forall a: Name ensures !NameLess(a, a) {
      LexIrreflexive(a, CharLess);
    }
    forall a: Name, b: Name, c: Name | NameLess(a, b) && NameLess(b, c) ensures NameLess(a, c) {
      LexTransitive(a, b, c, CharLess);
    }
    forall a: Name, b: Name | a != b ensures NameLess(a, b) || NameLess(b, a) {
      LexConnected(a, b, CharLess);
    }
  }

  /** The path order is a strict total order: irreflexive, transitive, and
      any two different paths are comparable. */
  lemma PathLessIsStrictTotal(p: Path, q: Path, r: Path)
    ensures !PathLess(p, p)
    ensures PathLess(p, q) && PathLess(q, r) ==> PathLess(p, r)
    ensures p != q ==> PathLess(p, q) || PathLess(q, p)
  {
    NameLessIsStrictTotal();
    LexIrreflexive(p.components, NameLess);
    if PathLess(p, q) && PathLess(q, r) {
      LexTransitive(p.components, q.components, r.components, NameLess);
    }
    if p != q {
      LexConnected(p.components, q.components, NameLess);
    }
  }
}
