/**
  Lexicographic order on sequences, the order Rust's `Ord` gives slices, `Vec`
  and (component by component) paths: the first differing element decides,
  and a proper prefix comes first.
*/
module Order {

  /** `a` comes strictly before `b` in the lexicographic order induced by `less`. */
  predicate LexLess<T(==)>(a: seq<T>, b: seq<T>, less: (T, T) -> bool)
    decreases |a|
  {
    if |a| == 0 then |b| != 0
    else if |b| == 0 then false
    else less(a[0], b[0]) || (a[0] == b[0] && LexLess(a[1..], b[1..], less))
  }

  lemma {:induction false} LexIrreflexive<T>(a: seq<T>, less: (T, T) -> bool)
    requires forall x :: !less(x, x)
    ensures !LexLess(a, a, less)
    decreases |a|
  {
    if |a| != 0 {
      LexIrreflexive(a[1..], less);
    }
  }

  lemma {:induction false} LexTransitive<T>(a: seq<T>, b: seq<T>, c: seq<T>, less: (T, T) -> bool)
    requires forall x, y, z :: less(x, y) && less(y, z) ==> less(x, z)
    requires LexLess(a, b, less) && LexLess(b, c, less)
    ensures LexLess(a, c, less)
    decreases |a|
  {
    if |a| != 0 && |c| != 0 && LexLess(a[1..], b[1..], less) && LexLess(b[1..], c[1..], less) {
      LexTransitive(a[1..], b[1..], c[1..], less);
    }
  }

  lemma {:induction false} LexConnected<T>(a: seq<T>, b: seq<T>, less: (T, T) -> bool)
    requires forall x, y :: x != y ==> less(x, y) || less(y, x)
    requires a != b
    ensures LexLess(a, b, less) || LexLess(b, a, less)
    decreases |a|
  {
    if |a| != 0 && |b| != 0 && a[0] == b[0] {
      assert a == [a[0]] + a[1..] && b == [b[0]] + b[1..];
      LexConnected(a[1..], b[1..], less);
    }
  }
}
