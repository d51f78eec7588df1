/** Python's `sorted` on a set of strings: code-point lexicographic order
    and duplicate-free ascending lists. (Dafny's own `<` on sequences means
    "proper prefix", so the order is defined here.) */
module Order {

  /** `a < b` on Python strings: compare code points left to right; a
      proper prefix comes first. */
  predicate Less(a: string, b: string)
    decreases |a|
  {
    if a == [] then b != []
    else b != [] && (a[0] < b[0] || (a[0] == b[0] && Less(a[1..], b[1..])))
  }

  lemma {:induction false} LessIrreflexive(a: string)
    ensures !Less(a, a)
    decreases |a|
  {
    if a != [] { LessIrreflexive(a[1..]); }
  }

  lemma {:induction false} LessTransitive(a: string, b: string, c: string)
    requires Less(a, b) && Less(b, c)
    ensures Less(a, c)
    decreases |a|
  {
    if a != [] && a[0] == b[0] && b[0] == c[0] {
      LessTransitive(a[1..], b[1..], c[1..]);
    }
  }

  /** Any two distinct strings are ordered one way or the other. */
  lemma {:induction false} LessTotal(a: string, b: string)
    ensures a == b || Less(a, b) || Less(b, a)
    decreases |a|
  {
    if a != [] && b != [] && a[0] == b[0] {
      LessTotal(a[1..], b[1..]);
      if a[1..] == b[1..] {
        assert a == [a[0]] + a[1..] && b == [b[0]] + b[1..];
      }
    }
  }

  lemma LessAsymmetric(a: string, b: string)
    requires Less(a, b)
    ensures !Less(b, a)
  {
    if Less(b, a) {
      LessTransitive(a, b, a);
      LessIrreflexive(a);
    }
  }

  /** Strictly ascending, hence also free of duplicates. */
  predicate Ascending(xs: seq<string>) {
    forall i, j :: 0 <= i < j < |xs| ==> Less(xs[i], xs[j])
  }

  /** Inserts `x` into an ascending list, leaving it unchanged when `x` is
      already present. */
  function Insert(x: string, xs: seq<string>): (r: seq<string>)
    requires Ascending(xs)
    ensures Ascending(r)
    ensures forall y :: y in r <==> y == x || y in xs
  {
    if xs == [] then [x]
    else if x == xs[0] then xs
    else if Less(x, xs[0]) then
      assert forall j :: 0 < j < |xs| ==> Less(x, xs[j]) by {
        forall j | 0 < j < |xs| ensures Less(x, xs[j]) { LessTransitive(x, xs[0], xs[j]); }
      }
      [x] + xs
    else
      var tail := Insert(x, xs[1..]);
      LessTotal(x, xs[0]);
      assert forall y :: y in tail ==> Less(xs[0], y) by {
        forall y | y in tail ensures Less(xs[0], y) {
          if y != x {
            var j :| 0 <= j < |xs[1..]| && xs[1..][j] == y;
            assert xs[j + 1] == y;
          }
        }
      }
      var r := [xs[0]] + tail;
      assert forall j :: 0 < j < |r| ==> r[j] in tail by {
        forall j | 0 < j < |r| ensures r[j] in tail { assert r[j] == tail[j - 1]; }
      }
      assert xs == [xs[0]] + xs[1..];
      r
  }

  /** `sorted(set(xs))`: the distinct elements of `xs`, ascending. */
  function SortedUnique(xs: seq<string>): (r: seq<string>)
    ensures Ascending(r)
    ensures forall y :: y in r <==> y in xs
  {
    if xs == [] then []
    else
      var r := Insert(xs[0], SortedUnique(xs[1..]));
      assert xs == [xs[0]] + xs[1..];
      r
  }

  /** An ascending list is determined by its elements: whatever builds it,
      the result is THE sorted list of that set. */
  lemma {:induction false} AscendingUnique(a: seq<string>, b: seq<string>)
    requires Ascending(a) && Ascending(b)
    requires forall y :: y in a <==> y in b
    ensures a == b
    decreases |a|
  {
    if a == [] {
      if b != [] {
        HeadIsMember(b);
        assert false;
      }
    } else {
      assert a[0] in b;
      assert b != [];
      assert b[0] in a;
      if a[0] != b[0] {
        var k :| 0 <= k < |b| && b[k] == a[0];
        var m :| 0 <= m < |a| && a[m] == b[0];
        assert Less(b[0], a[0]);
        assert Less(a[0], b[0]);
        LessAsymmetric(a[0], b[0]);
      }
      forall y ensures y in a[1..] <==> y in b[1..] {
        AscendingTail(a, y);
        AscendingTail(b, y);
      }
      AscendingUnique(a[1..], b[1..]);
      assert a == [a[0]] + a[1..] && b == [b[0]] + b[1..];
    }
  }

  lemma HeadIsMember(b: seq<string>)
    requires b != []
    ensures b[0] in b
  {
  }

  /** The tail of a non-empty ascending list is everything but its head. */
  lemma AscendingTail(a: seq<string>, y: string)
    requires Ascending(a) && a != []
    ensures y in a[1..] <==> y in a && y != a[0]
  {
    if y in a[1..] {
      var j :| 0 <= j < |a[1..]| && a[1..][j] == y;
      assert a[j + 1] == y;
      if y == a[0] { LessIrreflexive(y); }
    }
    if y in a && y != a[0] {
      var j :| 0 <= j < |a| && a[j] == y;
      assert a[1..][j - 1] == y;
    }
  }

  /** The elements of `xs` that are not in `ys`, in their original order. */
  function Without(xs: seq<string>, ys: seq<string>): (r: seq<string>)
    ensures forall y :: y in r <==> y in xs && y !in ys
  {
    if xs == [] then []
    else
      assert xs == [xs[0]] + xs[1..];
      (if xs[0] in ys then [] else [xs[0]]) + Without(xs[1..], ys)
  }

  /** `sorted(set(xs) - set(ys))`. */
  function SortedDifference(xs: seq<string>, ys: seq<string>): (r: seq<string>)
    ensures Ascending(r)
    ensures forall y :: y in r <==> y in xs && y !in ys
  {
    SortedUnique(Without(xs, ys))
  }
}
