/**
  The grouping stage: successfully hashed files are folded into a table from
  digest to the group of `(path, size)` pairs with that digest, each group kept
  sorted by path and then size after every insertion.
*/
module Grouping {
  import opened Bytes
  import opened Paths

  /** A `(path, size)` pair, the element type of a group. */
  datatype Entry = Entry(path: Path, size: u64)

  /** A successfully hashed file: its path, size and digest. */
  datatype Hashed = Hashed(path: Path, size: u64, digest: Digest)

  /** The `BTreeMap` from digest to group. */
  type Table = map<Digest, seq<Entry>>

  /** Tuple order on `(&PathBuf, u64)`: by path, the size breaking ties. */
  predicate EntryLess(a: Entry, b: Entry) {
    PathLess(a.path, b.path) || (a.path == b.path && a.size < b.size)
  }

  predicate EntryLe(a: Entry, b: Entry) {
    a == b || EntryLess(a, b)
  }

  lemma EntryOrder(a: Entry, b: Entry, c: Entry)
    ensures EntryLe(a, b) || EntryLe(b, a)
    ensures EntryLe(a, b) && EntryLe(b, c) ==> EntryLe(a, c)
    ensures EntryLe(a, b) && EntryLe(b, a) ==> a == b
  {
    PathLessIsStrictTotal(a.path, b.path, c.path);
    PathLessIsStrictTotal(b.path, a.path, c.path);
    PathLessIsStrictTotal(a.path, c.path, b.path);
    PathLessIsStrictTotal(a.path, b.path, a.path);
  }

  ghost predicate Sorted(s: seq<Entry>) {
    forall i, j :: 0 <= i < j < |s| ==> EntryLe(s[i], s[j])
  }

  /** Inserts `e` into sorted `s` at its place. */
  function InsertSorted(s: seq<Entry>, e: Entry): (r: seq<Entry>)
    requires Sorted(s)
    ensures Sorted(r)
    ensures multiset(r) == multiset(s) + multiset{e}
    decreases |s|
  {
    if s == [] then [e]
    else if EntryLe(e, s[0]) then
      InsertInFront(s, e);
      [e] + s
    else
      SortedTail(s);
      var rest := InsertSorted(s[1..], e);
      InsertFurther(s, e, rest);
      [s[0]] + rest
  }

  lemma InsertInFront(s: seq<Entry>, e: Entry)
    requires Sorted(s) && s != [] && EntryLe(e, s[0])
    ensures Sorted([e] + s)
  {
    forall y | y in multiset(s) ensures EntryLe(e, y) {
      SortedHeadIsLeast(s, y);
      EntryOrder(e, s[0], y);
    }
    SortedCons(e, s);
  }

  lemma InsertFurther(s: seq<Entry>, e: Entry, rest: seq<Entry>)
    requires Sorted(s) && s != [] && !EntryLe(e, s[0])
    requires Sorted(rest) && multiset(rest) == multiset(s[1..]) + multiset{e}
    ensures Sorted([s[0]] + rest)
    ensures multiset([s[0]] + rest) == multiset(s) + multiset{e}
  {
    EntryOrder(e, s[0], e);
    forall x | x in multiset(rest) ensures EntryLe(s[0], x) {
      if x != e {
        SortedHeadIsLeast(s, x);
      }
    }
    SortedCons(s[0], rest);
    assert s == [s[0]] + s[1..];
  }

  /** A sorted sequence stays sorted when an element no greater than any of
      its elements is put in front. */
  lemma SortedCons(x: Entry, s: seq<Entry>)
    requires Sorted(s)
    requires forall y :: y in multiset(s) ==> EntryLe(x, y)
    ensures Sorted([x] + s)
  {
    forall i, j | 0 <= i < j < |s| + 1 ensures EntryLe(([x] + s)[i], ([x] + s)[j]) {
      if i == 0 {
        assert s[j - 1] in multiset(s);
      }
    }
  }

  /** `sort_unstable` on a group: the sorted permutation of `s` (unique, by
      SortedPermutationUnique, so stability does not matter). */
  function Sort(s: seq<Entry>): (r: seq<Entry>)
    ensures Sorted(r)
    ensures multiset(r) == multiset(s)
    decreases |s|
  {
    if s == [] then []
    else
      assert s == s[..|s| - 1] + [s[|s| - 1]];
      InsertSorted(Sort(s[..|s| - 1]), s[|s| - 1])
  }

  /** Two sorted sequences with the same elements are equal. */
  lemma {:induction false} SortedPermutationUnique(a: seq<Entry>, b: seq<Entry>)
    requires Sorted(a) && Sorted(b)
    requires multiset(a) == multiset(b)
    ensures a == b
    decreases |a|
  {
    if a != [] {
      assert |b| == |a| by { assert |multiset(a)| == |multiset(b)|; }
      assert a[0] in multiset(b) && b[0] in multiset(a);
      SortedHeadIsLeast(a, b[0]);
      SortedHeadIsLeast(b, a[0]);
      EntryOrder(a[0], b[0], a[0]);
      SortedTail(a);
      SortedTail(b);
      SortedPermutationUnique(a[1..], b[1..]);
    }
  }

  lemma SortedHeadIsLeast(s: seq<Entry>, x: Entry)
    requires Sorted(s) && x in multiset(s)
    ensures EntryLe(s[0], x)
  {
    var i :| 0 <= i < |s| && s[i] == x;
    if i != 0 {
      assert EntryLe(s[0], s[i]);
    }
  }

  lemma SortedTail(s: seq<Entry>)
    requires Sorted(s) && s != []
    ensures Sorted(s[1..])
    ensures multiset(s[1..]) == multiset(s) - multiset{s[0]}
  {
    assert s == [s[0]] + s[1..];
  }

  /** The group a table holds for digest `d`; none yet is an empty group. */
  function GroupOf(table: Table, d: Digest): seq<Entry> {
    if d in table then table[d] else []
  }

  /**
    One step of the grouping loop: find or create the group of `hash`, push
    `(nam, siz)` and re-sort the group.
  */
  method AddEntry(table: Table, nam: Path, siz: u64, hash: Digest) returns (t: Table)
    ensures hash in t && t == table[hash := t[hash]]
    ensures Sorted(t[hash])
    ensures multiset(t[hash]) == multiset(GroupOf(table, hash)) + multiset{Entry(nam, siz)}
  {
    var v := if hash in table then table[hash] else [];
    v := v + [Entry(nam, siz)];
    v := Sort(v);
    t := table[hash := v];
  }

  /** The `(path, size)` pairs of the items carrying digest `d`, in item order. */
  function EntriesFor(items: seq<Hashed>, d: Digest): (r: seq<Entry>)
    ensures |r| <= |items|
  {
    if items == [] then []
    else
      var last := items[|items| - 1];
      EntriesFor(items[..|items| - 1], d) + if last.digest == d then [Entry(last.path, last.size)] else []
  }

  function Digests(items: seq<Hashed>): set<Digest> {
    set i | 0 <= i < |items| :: items[i].digest
  }

  /**
    The table grouping is meant to produce, stated without the loop: one group
    per digest that occurs, holding that digest's entries sorted once.
  */
  function Grouped(items: seq<Hashed>): Table {
    map d | d in Digests(items) :: Sort(EntriesFor(items, d))
  }

  /** The grouping loop: every hashed item goes through AddEntry, in order. */
  method BuildTable(items: seq<Hashed>) returns (table: Table)
    ensures table == Grouped(items)
    ensures table.Keys == Digests(items)
    ensures forall d :: d in table ==> Sorted(table[d])
  {
    table := map[];
    for i := 0 to |items|
      invariant table == Grouped(items[..i])
    {
      var item := items[i];
      var t := AddEntry(table, item.path, item.size, item.digest);
      AddEntryExtends(items, i, table, t);
      table := t;
    }
    assert items[..|items|] == items;
    GroupedKeys(items);
  }

  /** What AddEntry guarantees is enough to turn the table of a prefix into
      the table of the prefix extended by one item. */
  lemma AddEntryExtends(items: seq<Hashed>, i: nat, table: Table, t: Table)
    requires i < |items|
    requires table == Grouped(items[..i])
    requires items[i].digest in t && t == table[items[i].digest := t[items[i].digest]]
    requires Sorted(t[items[i].digest])
    requires multiset(t[items[i].digest])
          == multiset(GroupOf(table, items[i].digest)) + multiset{Entry(items[i].path, items[i].size)}
    ensures t == Grouped(items[..i + 1])
  {
    var item := items[i];
    PrefixSnoc(items, i);
    GroupedStepAtNewItem(items[..i], item, t[item.digest]);
    GroupedAtNew(items[..i], item);
    GroupedSnoc(items[..i], item);
  }

  /** Appending an item changes the table only at the item's digest. */
  lemma GroupedSnoc(items: seq<Hashed>, item: Hashed)
    ensures item.digest in Grouped(items + [item])
    ensures Grouped(items + [item])
         == Grouped(items)[item.digest := Grouped(items + [item])[item.digest]]
  {
    var g' := Grouped(items + [item]);
    GroupedStepKeys(items, item);
    var g := Grouped(items)[item.digest := g'[item.digest]];
    forall d | d in g && d != item.digest ensures g[d] == g'[d] {
      GroupedStepOther(items, item, d);
    }
    MapsEqual(g, g');
  }

  /** At the appended item's digest, the group is that digest's entries
      sorted once. */
  lemma GroupedAtNew(items: seq<Hashed>, item: Hashed)
    ensures item.digest in Grouped(items + [item])
    ensures Grouped(items + [item])[item.digest] == Sort(EntriesFor(items + [item], item.digest))
  {
    GroupedStepKeys(items, item);
  }

  lemma GroupedStepKeys(items: seq<Hashed>, item: Hashed)
    ensures Grouped(items + [item]).Keys == Grouped(items).Keys + {item.digest}
  {
    DigestsSnoc(items, item);
    GroupedKeys(items);
    GroupedKeys(items + [item]);
  }

  lemma GroupedStepOther(items: seq<Hashed>, item: Hashed, d: Digest)
    requires d in Grouped(items) && d != item.digest
    ensures d in Grouped(items + [item])
    ensures Grouped(items + [item])[d] == Grouped(items)[d]
  {
    GroupedStepKeys(items, item);
    EntriesForSnoc(items, item, d);
  }

  /** Two tables with the same keys and the same group at every key are equal. */
  lemma MapsEqual(a: Table, b: Table)
    requires a.Keys == b.Keys
    requires forall d :: d in a ==> a[d] == b[d]
    ensures a == b
  {
  }

  /** A group that is sorted and holds the old group's entries plus the new
      one is exactly the longer prefix's entries sorted once. */
  lemma GroupedStepAtNewItem(items: seq<Hashed>, item: Hashed, group: seq<Entry>)
    requires Sorted(group)
    requires multiset(group) == multiset(GroupOf(Grouped(items), item.digest)) + multiset{Entry(item.path, item.size)}
    ensures group == Sort(EntriesFor(items + [item], item.digest))
  {
    GroupOfGrouped(items, item.digest);
    EntriesForSnoc(items, item, item.digest);
    SortedPermutationUnique(group, Sort(EntriesFor(items + [item], item.digest)));
  }

  lemma PrefixSnoc(items: seq<Hashed>, i: nat)
    requires i < |items|
    ensures items[..i + 1] == items[..i] + [items[i]]
  {
  }

  lemma GroupedKeys(items: seq<Hashed>)
    ensures Grouped(items).Keys == Digests(items)
  {
  }

  lemma GroupOfGrouped(items: seq<Hashed>, d: Digest)
    ensures GroupOf(Grouped(items), d) == Sort(EntriesFor(items, d))
  {
    if d !in Digests(items) {
      EntriesForAbsent(items, d);
    }
  }

  lemma DigestsSnoc(items: seq<Hashed>, item: Hashed)
    ensures Digests(items + [item]) == Digests(items) + {item.digest}
  {
    var items' := items + [item];
    forall d | d in Digests(items') ensures d in Digests(items) + {item.digest} {
      var i :| 0 <= i < |items'| && items'[i].digest == d;
      if i < |items| { assert items[i].digest == d; }
    }
    forall d | d in Digests(items) ensures d in Digests(items') {
      var i :| 0 <= i < |items| && items[i].digest == d;
      assert items'[i].digest == d;
    }
    assert items'[|items|].digest == item.digest;
  }

  lemma EntriesForSnoc(items: seq<Hashed>, item: Hashed, d: Digest)
    ensures item.digest == d ==> EntriesFor(items + [item], d) == EntriesFor(items, d) + [Entry(item.path, item.size)]
    ensures item.digest != d ==> EntriesFor(items + [item], d) == EntriesFor(items, d)
  {
    assert (items + [item])[..|items|] == items;
    assert EntriesFor(items, d) + [] == EntriesFor(items, d);
  }

  lemma {:induction false} EntriesForAbsent(items: seq<Hashed>, d: Digest)
    requires d !in Digests(items)
    ensures EntriesFor(items, d) == []
    decreases |items|
  {
    if items != [] {
      var init := items[..|items| - 1];
      assert items == init + [items[|items| - 1]];
      DigestsSnoc(init, items[|items| - 1]);
      EntriesForAbsent(init, d);
    }
  }

  /** Each item lands in the group of its own digest, as often as it occurs:
      the group for `d` holds `e` exactly as many times as the items hold
      `e` with digest `d`, and no other entry. */
  lemma GroupCounts(items: seq<Hashed>, d: Digest, e: Entry)
    ensures multiset(GroupOf(Grouped(items), d))[e] == multiset(items)[Hashed(e.path, e.size, d)]
  {
    GroupOfGrouped(items, d);
    EntriesForCount(items, d, e);
  }

  lemma {:induction false} EntriesForCount(items: seq<Hashed>, d: Digest, e: Entry)
    ensures multiset(EntriesFor(items, d))[e] == multiset(items)[Hashed(e.path, e.size, d)]
    decreases |items|
  {
    if items != [] {
      var init, last := items[..|items| - 1], items[|items| - 1];
      assert items == init + [last];
      EntriesForCount(init, d, e);
    }
  }

  /** The table does not depend on the order in which files were hashed. */
  lemma GroupedOrderIndependent(items: seq<Hashed>, items': seq<Hashed>)
    requires multiset(items) == multiset(items')
    ensures Grouped(items) == Grouped(items')
  {
    var g, g' := Grouped(items), Grouped(items');
    assert Digests(items) == Digests(items') by {
      forall d | d in Digests(items) ensures d in Digests(items') {
        var i :| 0 <= i < |items| && items[i].digest == d;
        assert items[i] in multiset(items');
      }
      forall d | d in Digests(items') ensures d in Digests(items) {
        var i :| 0 <= i < |items'| && items'[i].digest == d;
        assert items'[i] in multiset(items);
      }
    }
    forall d | d in g ensures g[d] == g'[d] {
      forall e ensures multiset(g[d])[e] == multiset(g'[d])[e] {
        GroupCounts(items, d, e);
        GroupCounts(items', d, e);
      }
      assert multiset(g[d]) == multiset(g'[d]);
      SortedPermutationUnique(g[d], g'[d]);
    }
    MapsEqual(g, g');
  }
}
