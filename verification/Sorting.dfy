/** What a library sort leaves behind, for any total order: an ascending rearrangement, of
    which there is exactly one. The byte order of Go strings is the order used. */
module Sorting {

  /** The strict byte order of Go strings, over code units. */
  predicate Less(a: seq<int>, b: seq<int>) {
    if b == [] then false
    else if a == [] then true
    else a[0] < b[0] || (a[0] == b[0] && Less(a[1..], b[1..]))
  }

  lemma {:induction false} LessTrichotomy(a: seq<int>, b: seq<int>)
    ensures Less(a, b) || Less(b, a) || a == b
    ensures !(Less(a, b) && Less(b, a))
    ensures a == b ==> !Less(a, b)
  {
    if a != [] && b != [] {
      LessTrichotomy(a[1..], b[1..]);
      assert a == [a[0]] + a[1..] && b == [b[0]] + b[1..];
    }
  }

  lemma {:induction false} LessTransitive(a: seq<int>, b: seq<int>, c: seq<int>)
    requires Less(a, b) && Less(b, c)
    ensures Less(a, c)
  {
    if a != [] && a[0] == b[0] == c[0] {
      LessTransitive(a[1..], b[1..], c[1..]);
    }
  }

  /** The first difference decides: `a` ends before `b` does, or has the smaller unit. */
  ghost predicate Before(a: seq<int>, b: seq<int>) {
    exists n: nat :: DiffersAt(a, b, n)
  }

  predicate DiffersAt(a: seq<int>, b: seq<int>, n: nat) {
    n <= |a| && n < |b| && a[..n] == b[..n] && (n == |a| || a[n] < b[n])
  }

  lemma DiffersLater(a: seq<int>, b: seq<int>, n: nat)
    requires a != [] && b != [] && a[0] == b[0]
    ensures DiffersAt(a, b, n + 1) <==> DiffersAt(a[1..], b[1..], n)
  {
    if n < |a| && n + 1 < |b| {
      assert a[..n + 1] == [a[0]] + a[1..][..n];
      assert b[..n + 1] == [b[0]] + b[1..][..n];
      assert a[1..][..n] == a[..n + 1][1..] && b[1..][..n] == b[..n + 1][1..];
    }
  }

  lemma {:induction false} DiffersIsLess(a: seq<int>, b: seq<int>, n: nat)
    requires DiffersAt(a, b, n)
    ensures Less(a, b)
    decreases n
  {
    if n > 0 {
      assert a[0] == a[..n][0] == b[..n][0] == b[0];
      DiffersLater(a, b, n - 1);
      DiffersIsLess(a[1..], b[1..], n - 1);
    }
  }

  lemma {:induction false} LessDiffers(a: seq<int>, b: seq<int>) returns (n: nat)
    requires Less(a, b)
    ensures DiffersAt(a, b, n)
    decreases |a|
  {
    if a == [] || a[0] < b[0] {
      n := 0;
    } else {
      var m := LessDiffers(a[1..], b[1..]);
      DiffersLater(a, b, m);
      n := m + 1;
    }
  }

  /** The order compares at the first difference, ascending. */
  lemma LessIsBefore(a: seq<int>, b: seq<int>)
    ensures Less(a, b) <==> Before(a, b)
  {
    if Less(a, b) {
      var n := LessDiffers(a, b);
    }
    if Before(a, b) {
      var n: nat :| DiffersAt(a, b, n);
      DiffersIsLess(a, b, n);
    }
  }

  ghost predicate TotalOrder<T(!new)>(leq: (T, T) -> bool) {
    && (forall x, y :: leq(x, y) || leq(y, x))
    && (forall x, y :: leq(x, y) && leq(y, x) ==> x == y)
    && (forall x, y, z :: leq(x, y) && leq(y, z) ==> leq(x, z))
  }

  ghost predicate Ascending<T>(leq: (T, T) -> bool, s: seq<T>) {
    forall i, j :: 0 <= i < j < |s| ==> leq(s[i], s[j])
  }

  function Insert<T>(leq: (T, T) -> bool, x: T, s: seq<T>): seq<T> {
    if s == [] || leq(x, s[0]) then [x] + s else [s[0]] + Insert(leq, x, s[1..])
  }

  function Sort<T>(leq: (T, T) -> bool, s: seq<T>): seq<T> {
    if s == [] then [] else Insert(leq, s[0], Sort(leq, s[1..]))
  }

  lemma {:induction false} InsertLength<T>(leq: (T, T) -> bool, x: T, s: seq<T>)
    ensures |Insert(leq, x, s)| == |s| + 1
  {
    if s != [] && !leq(x, s[0]) {
      InsertLength(leq, x, s[1..]);
    }
  }

  lemma {:induction false} SortLength<T>(leq: (T, T) -> bool, s: seq<T>)
    ensures |Sort(leq, s)| == |s|
  {
    if s != [] {
      SortLength(leq, s[1..]);
      InsertLength(leq, s[0], Sort(leq, s[1..]));
    }
  }

  lemma NoneSmaller<T(!new)>(leq: (T, T) -> bool, x: T, s: seq<T>, t: seq<T>)
    requires Ascending(leq, s) && s != [] && TotalOrder(leq) && !leq(x, s[0])
    requires multiset(t) == multiset{x} + multiset(s[1..])
    ensures forall y :: y in t ==> leq(s[0], y)
  {
    forall y | y in t ensures leq(s[0], y) {
      assert y in multiset(t);
      if y != x {
        assert y in multiset(s[1..]);
        var k :| 1 <= k < |s| && s[k] == y;
      }
    }
  }

  lemma {:induction false} InsertSorts<T(!new)>(leq: (T, T) -> bool, x: T, s: seq<T>)
    requires TotalOrder(leq) && Ascending(leq, s)
    ensures Ascending(leq, Insert(leq, x, s))
    ensures multiset(Insert(leq, x, s)) == multiset{x} + multiset(s)
  {
    if s == [] {
    } else if leq(x, s[0]) {
      var r := [x] + s;
      forall i, j | 0 <= i < j < |r| ensures leq(r[i], r[j]) {
        if i == 0 && j > 1 { assert leq(s[0], s[j - 1]); }
      }
    } else {
      InsertSorts(leq, x, s[1..]);
      var t := Insert(leq, x, s[1..]);
      assert s == [s[0]] + s[1..];
      NoneSmaller(leq, x, s, t);
      assert Insert(leq, x, s) == [s[0]] + t;
    }
  }

  /** Sorting yields an ascending rearrangement. */
  lemma {:induction false} SortSorts<T(!new)>(leq: (T, T) -> bool, s: seq<T>)
    requires TotalOrder(leq)
    ensures Ascending(leq, Sort(leq, s))
    ensures multiset(Sort(leq, s)) == multiset(s)
  {
    if s != [] {
      SortSorts(leq, s[1..]);
      InsertSorts(leq, s[0], Sort(leq, s[1..]));
      assert s == [s[0]] + s[1..];
    }
  }

  lemma FirstIsLeast<T(!new)>(leq: (T, T) -> bool, s: seq<T>, x: T)
    requires TotalOrder(leq) && Ascending(leq, s) && x in s
    ensures leq(s[0], x)
  {
    var i :| 0 <= i < |s| && s[i] == x;
  }

  lemma WithoutFirst<T>(s: seq<T>)
    requires s != []
    ensures multiset(s[1..]) == multiset(s) - multiset{s[0]}
  {
    assert s == [s[0]] + s[1..];
  }

  lemma LeastFirst<T(!new)>(leq: (T, T) -> bool, a: seq<T>, b: seq<T>)
    requires TotalOrder(leq) && Ascending(leq, a) && Ascending(leq, b)
    requires multiset(a) == multiset(b) && a != [] && b != []
    ensures a[0] == b[0] && multiset(a[1..]) == multiset(b[1..])
  {
    assert a[0] in multiset(b) && b[0] in multiset(a);
    FirstIsLeast(leq, a, b[0]);
    FirstIsLeast(leq, b, a[0]);
    WithoutFirst(a);
    WithoutFirst(b);
  }

  /** There is only one ascending rearrangement, so the sorting algorithm does not matter. */
  lemma {:induction false} AscendingUnique<T(!new)>(leq: (T, T) -> bool, a: seq<T>, b: seq<T>)
    requires TotalOrder(leq) && Ascending(leq, a) && Ascending(leq, b)
    requires multiset(a) == multiset(b)
    ensures a == b
    decreases |a|
  {
    assert |multiset(a)| == |a| && |multiset(b)| == |b|;
    if a != [] {
      LeastFirst(leq, a, b);
      AscendingUnique(leq, a[1..], b[1..]);
      assert a == [a[0]] + a[1..] && b == [b[0]] + b[1..];
    }
  }
}
