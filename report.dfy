/**
  The report: the table is walked in ascending digest order, groups with a
  single member are skipped, and every other group becomes one line holding
  the first member's size, a space, and the escaped paths of all members
  separated by single spaces.
*/
module Report {
  import opened Wrappers
  import opened Bytes
  import opened Paths
  import opened Grouping
  import opened Escaping
  import opened Strings

  // Decimal rendering of sizes (`{}` on a u64)

  function DigitChar(d: nat): char
    requires d < 10
  {
    ('0' as int + d) as char
  }

  predicate IsDigit(c: char) {
    '0' <= c <= '9'
  }

  /** The decimal digits of `n`, without leading zeros. */
  function Decimal(n: nat): (s: string)
    ensures |s| >= 1
    ensures forall i :: 0 <= i < |s| ==> IsDigit(s[i])
    ensures s[0] == '0' ==> n == 0
  {
    if n < 10 then [DigitChar(n)] else Decimal(n / 10) + [DigitChar(n % 10)]
  }

  function DigitValue(c: char): (d: nat)
    requires IsDigit(c)
    ensures d < 10
  {
    c as int - '0' as int
  }

  function DigitsValue(s: string): nat
    requires forall i :: 0 <= i < |s| ==> IsDigit(s[i])
  {
    if s == [] then 0
    else DigitsValue(s[..|s| - 1]) * 10 + DigitValue(s[|s| - 1])
  }

  /** Reads a non-empty run of decimal digits. */
  function ParseDecimal(s: string): Option<nat> {
    if s != [] && forall i :: 0 <= i < |s| ==> IsDigit(s[i]) then Some(DigitsValue(s)) else None
  }

  /** Printing a size in decimal and reading it back gives the size. */
  lemma DecimalRoundTrip(n: nat)
    ensures ParseDecimal(Decimal(n)) == Some(n)
  {
    DecimalValue(n);
  }

  lemma {:induction false} DecimalValue(n: nat)
    ensures DigitsValue(Decimal(n)) == n
  {
    var s := Decimal(n);
    var c := DigitChar(n % 10);
    assert DigitValue(c) == n % 10;
    if n < 10 {
      assert s[..|s| - 1] == [];
    } else {
      assert s[..|s| - 1] == Decimal(n / 10);
      DecimalValue(n / 10);
    }
  }

  /** Digits need no escaping. */
  lemma {:induction false} DigitsUnescaped(s: string)
    requires forall i :: 0 <= i < |s| ==> IsDigit(s[i])
    ensures Escape(s) == s
  {
    EscapeIsPerCharacter(s);
    PlainEscapeEach(s);
  }

  lemma {:induction false} PlainEscapeEach(s: string)
    requires forall i :: 0 <= i < |s| ==> IsDigit(s[i])
    ensures EscapeEach(s) == s
  {
    if s != [] {
      PlainEscapeEach(s[1..]);
      assert s == [s[0]] + s[1..];
    }
  }

  // Walking the table in ascending digest order

  predicate IsLeast(m: Digest, keys: set<Digest>) {
    m in keys && forall k :: k in keys ==> DigestLe(m, k)
  }

  ghost predicate StrictlyAscending(ds: seq<Digest>) {
    forall i, j :: 0 <= i < j < |ds| ==> DigestLess(ds[i], ds[j])
  }

  lemma {:induction false} LeastExists(keys: set<Digest>)
    requires keys != {}
    ensures exists m :: IsLeast(m, keys)
    decreases keys
  {
    var x :| x in keys;
    if keys != {x} {
      LeastExists(keys - {x});
      var m :| IsLeast(m, keys - {x});
      if DigestLe(m, x) {
        forall k | k in keys ensures DigestLe(m, k) {
          if k != x {
            assert k in keys - {x};
          }
        }
        assert IsLeast(m, keys);
      } else {
        DigestLessIsStrictTotal(m, x, m);
        forall k | k in keys ensures DigestLe(x, k) {
          if k != x {
            assert DigestLe(m, k);
            DigestLessIsStrictTotal(x, m, k);
          }
        }
        assert IsLeast(x, keys);
      }
    } else {
      assert IsLeast(x, keys);
    }
  }

  lemma LeastUnique(keys: set<Digest>)
    ensures forall a, b :: IsLeast(a, keys) && IsLeast(b, keys) ==> a == b
  {
    forall a, b | IsLeast(a, keys) && IsLeast(b, keys) ensures a == b {
      DigestLessIsStrictTotal(a, b, a);
    }
  }

  /** `BTreeMap` iteration order: the keys, each once, in ascending order. */
  function SortedDigests(keys: set<Digest>): (r: seq<Digest>)
    ensures forall d :: d in r <==> d in keys
    ensures StrictlyAscending(r)
    decreases keys
  {
    if keys == {} then []
    else
      LeastExists(keys);
      LeastUnique(keys);
      var m :| IsLeast(m, keys);
      var rest := SortedDigests(keys - {m});
      forall k | k in rest ensures DigestLess(m, k) {
        assert DigestLe(m, k) && k != m;
      }
      [m] + rest
  }

  /** The filter `v.len() > 1`, keeping the order of `ds`. */
  function KeepDuplicates(t: Table, ds: seq<Digest>): (r: seq<Digest>)
    requires forall d :: d in ds ==> d in t
    ensures forall d :: d in r <==> d in ds && |t[d]| > 1
    ensures StrictlyAscending(ds) ==> StrictlyAscending(r)
  {
    if ds == [] then []
    else
      var rest := KeepDuplicates(t, ds[1..]);
      if |t[ds[0]]| > 1 then
        assert StrictlyAscending(ds) ==> StrictlyAscending([ds[0]] + rest) by {
          if StrictlyAscending(ds) {
            forall k | k in rest ensures DigestLess(ds[0], k) {
              var j :| 0 <= j < |ds[1..]| && ds[1..][j] == k;
              assert ds[j + 1] == k;
            }
          }
        }
        [ds[0]] + rest
      else rest
  }

  /** The digests whose groups are reported, in the order they are reported:
      exactly those with more than one member, in strictly ascending order. */
  function DuplicateDigests(t: Table): (ds: seq<Digest>)
    ensures forall d :: d in ds <==> d in t && |t[d]| > 1
    ensures StrictlyAscending(ds)
  {
    KeepDuplicates(t, SortedDigests(t.Keys))
  }

  // Rendering

  /** The printed paths of a group, in group order. */
  function RenderPaths(g: seq<Entry>): (ps: seq<string>)
    ensures |ps| == |g|
  {
    seq(|g|, i requires 0 <= i < |g| => Render(g[i].path))
  }

  /** One report line: the first member's size, a space, then the escaped
      paths separated by single spaces. */
  function RenderGroup(g: seq<Entry>): (line: string)
    requires |g| >= 1
    ensures ParseLine(line) == Some((g[0].size as nat, RenderPaths(g)))
  {
    LineParses(g[0].size as nat, RenderPaths(g));
    Decimal(g[0].size as nat) + " " + JoinWith(' ', EscapeAll(RenderPaths(g)))
  }

  function ReportLines(t: Table): (lines: seq<string>)
    ensures |lines| == |DuplicateDigests(t)|
  {
    var ds := DuplicateDigests(t);
    seq(|ds|, i requires 0 <= i < |ds| => RenderGroup(t[ds[i]]))
  }

  /** How a reader takes a line apart: the size, then the paths. */
  function ParseLine(line: string): Option<(nat, seq<string>)> {
    match ParseTokens(line)
    case Some(ts) =>
      if |ts| >= 1 then
        match ParseDecimal(ts[0])
        case Some(n) => Some((n, ts[1..]))
        case None => None
      else None
    case None => None
  }

  /** A size followed by one or more escaped paths reads back as that size and those
      paths, in order. */
  lemma LineParses(size: nat, ps: seq<string>)
    requires |ps| >= 1
    ensures ParseLine(Decimal(size) + " " + JoinWith(' ', EscapeAll(ps))) == Some((size, ps))
  {
    var digits := Decimal(size);
    DigitsUnescaped(digits);
    var all := [digits] + ps;
    assert EscapeAll(all) == [digits] + EscapeAll(ps);
    assert EscapeAll(all)[1..] == EscapeAll(ps);
    JoinCons(' ', EscapeAll(all));
    ParseJoinedEscaped(all);
    DecimalRoundTrip(size);
    assert all[1..] == ps;
  }

  /** Line `i` of the report is the group of the `i`-th reported digest:
      it reads back as that group's first size and all of its paths. */
  lemma ReportLinesParse(t: Table)
    ensures forall i :: 0 <= i < |ReportLines(t)| ==>
      var g := t[DuplicateDigests(t)[i]];
      |g| > 1 && ParseLine(ReportLines(t)[i]) == Some((g[0].size as nat, RenderPaths(g)))
  {
    var ds := DuplicateDigests(t);
    forall i | 0 <= i < |ReportLines(t)|
      ensures |t[ds[i]]| > 1 && ParseLine(ReportLines(t)[i]) == Some((t[ds[i]][0].size as nat, RenderPaths(t[ds[i]])))
    {
      assert ds[i] in ds;
    }
  }
}
