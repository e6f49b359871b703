// Array.prototype.sort with a comparison function: a stable sort, here by insertion.
module Sorting {
  import opened Unicode

  // A strict total order on the elements that occur.
  ghost predicate StrictOrder<T(!new)>(less: (T, T) -> bool) {
    && (forall a :: !less(a, a))
    && (forall a, b, c :: less(a, b) && less(b, c) ==> less(a, c))
    && (forall a, b, c :: less(a, b) ==> less(a, c) || less(c, b))
  }

  // After every element that is not greater, so equal ones keep their order.
  function Insert<T>(x: T, sorted: seq<T>, less: (T, T) -> bool): seq<T> {
    if sorted == [] then [x]
    else if less(x, sorted[|sorted| - 1]) then Insert(x, sorted[..|sorted| - 1], less) + [sorted[|sorted| - 1]]
    else sorted + [x]
  }

  function Sort<T>(xs: seq<T>, less: (T, T) -> bool): seq<T> {
    if xs == [] then [] else Insert(xs[|xs| - 1], Sort(xs[..|xs| - 1], less), less)
  }

  ghost predicate Sorted<T>(xs: seq<T>, less: (T, T) -> bool) {
    forall i, j | 0 <= i < j < |xs| :: !less(xs[j], xs[i])
  }

  lemma {:induction false} InsertSorted<T(!new)>(x: T, sorted: seq<T>, less: (T, T) -> bool)
    requires StrictOrder(less) && Sorted(sorted, less)
    ensures Sorted(Insert(x, sorted, less), less)
    ensures multiset(Insert(x, sorted, less)) == multiset(sorted) + multiset{x}
  {
    if sorted != [] {
      var front, last := sorted[..|sorted| - 1], sorted[|sorted| - 1];
      assert sorted == front + [last];
      if less(x, last) {
        InsertSorted(x, front, less);
        var r := Insert(x, front, less);
        forall i | 0 <= i < |r| ensures !less(last, r[i]) {
          assert r[i] in multiset(r);
          assert r[i] == x || r[i] in front;
        }
      } else {
        forall i | 0 <= i < |sorted| ensures !less(x, sorted[i]) {
          var y := sorted[i];
          assert less(x, y) ==> less(x, last) || less(last, y);
          assert i < |front| ==> !less(last, y);
        }
      }
    }
  }

  lemma {:induction false} SortSorts<T(!new)>(xs: seq<T>, less: (T, T) -> bool)
    requires StrictOrder(less)
    ensures Sorted(Sort(xs, less), less) && multiset(Sort(xs, less)) == multiset(xs)
  {
    if xs != [] {
      SortSorts(xs[..|xs| - 1], less);
      InsertSorted(xs[|xs| - 1], Sort(xs[..|xs| - 1], less), less);
      assert xs == xs[..|xs| - 1] + [xs[|xs| - 1]];
    }
  }

  // No two elements compare equal.
  ghost predicate Distinguished<T>(xs: seq<T>, less: (T, T) -> bool) {
    forall a, b | a in xs && b in xs && a != b :: less(a, b) || less(b, a)
  }

  lemma {:induction false} SameLast<T(!new)>(a: seq<T>, b: seq<T>, less: (T, T) -> bool)
    requires StrictOrder(less) && Sorted(a, less) && Sorted(b, less) && a != [] && b != []
    requires a[|a| - 1] in b && b[|b| - 1] in a && Distinguished(a, less)
    ensures a[|a| - 1] == b[|b| - 1]
  {
    var x, y := a[|a| - 1], b[|b| - 1];
    var i :| 0 <= i < |b| && b[i] == x;
    var j :| 0 <= j < |a| && a[j] == y;
    assert j < |a| - 1 ==> !less(x, y);
    assert i < |b| - 1 ==> !less(y, x);
  }

  lemma {:induction false} SortedUnique<T(!new)>(a: seq<T>, b: seq<T>, less: (T, T) -> bool)
    requires StrictOrder(less) && Sorted(a, less) && Sorted(b, less) && multiset(a) == multiset(b)
    requires Distinguished(a, less)
    ensures a == b
    decreases |a|
  {
    hide StrictOrder, Sorted, Distinguished;
    assert |multiset(a)| == |a| && |multiset(b)| == |b|;
    if a != [] {
      var x := a[|a| - 1];
      assert x in multiset(b) && b[|b| - 1] in multiset(a);
      SameLast(a, b, less);
      var a', b' := a[..|a| - 1], b[..|b| - 1];
      assert a == a' + [x] && b == b' + [x];
      SameFront(a', b', x);
      FrontSorted(a', x, less);
      FrontSorted(b', x, less);
      SortedUnique(a', b', less);
    }
  }

  lemma FrontSorted<T(!new)>(a: seq<T>, x: T, less: (T, T) -> bool)
    requires Sorted(a + [x], less)
    ensures Sorted(a, less)
    ensures Distinguished(a + [x], less) ==> Distinguished(a, less)
  {
    var all := a + [x];
    assert forall i | 0 <= i < |a| :: all[i] == a[i];
    assert forall e | e in a :: e in all;
  }

  lemma SameFront<T>(a: seq<T>, b: seq<T>, x: T)
    requires multiset(a + [x]) == multiset(b + [x])
    ensures multiset(a) == multiset(b)
  {
    assert multiset(a) == multiset(a + [x]) - multiset{x};
    assert multiset(b) == multiset(b + [x]) - multiset{x};
  }

  // Sorting forgets the order its input came in, as long as no two elements compare equal.
  lemma {:induction false} SortForgetsOrder<T(!new)>(xs: seq<T>, ys: seq<T>, less: (T, T) -> bool)
    requires StrictOrder(less) && multiset(xs) == multiset(ys) && Distinguished(xs, less)
    ensures Sort(xs, less) == Sort(ys, less)
  {
    SortSorts(xs, less);
    SortSorts(ys, less);
    forall x ensures x in Sort(xs, less) <==> x in xs {
      assert x in multiset(Sort(xs, less)) <==> x in multiset(xs);
    }
    SortedUnique(Sort(xs, less), Sort(ys, less), less);
  }

  // ---- distinct elements ------------------------------------------------------------

  ghost predicate NoRepeats<T>(xs: seq<T>) {
    forall i, j | 0 <= i < j < |xs| :: xs[i] != xs[j]
  }

  // A Set's members, in whatever order it gives them.
  method Members<T(==)>(members: set<T>) returns (xs: seq<T>)
    ensures NoRepeats(xs) && forall x :: x in xs <==> x in members
  {
    hide NoRepeats;
    xs := [];
    var left := members;
    NewMember<T>([]);
    while left != {}
      invariant left <= members && NoRepeats(xs)
      invariant forall x :: x in xs <==> x in members - left
      decreases |left|
    {
      var x :| x in left;
      NewMember(xs);
      xs := xs + [x];
      left := left - {x};
    }
  }

  lemma NewMember<T>(xs: seq<T>)
    ensures xs == [] ==> NoRepeats(xs)
    ensures NoRepeats(xs) ==> forall x | x !in xs :: NoRepeats(xs + [x])
  {
    if NoRepeats(xs) {
      forall x, i, j | x !in xs && 0 <= i < j < |xs + [x]| ensures (xs + [x])[i] != (xs + [x])[j] {
        assert xs[i] in xs;
      }
    }
  }

  lemma {:induction false} OnceInMultiset<T>(xs: seq<T>, x: T)
    requires NoRepeats(xs)
    ensures multiset(xs)[x] <= 1
  {
    if xs != [] {
      var front := xs[..|xs| - 1];
      assert xs == front + [xs[|xs| - 1]];
      OnceInMultiset(front, x);
      if x == xs[|xs| - 1] {
        assert x !in front;
        assert x !in multiset(front);
      }
    }
  }

  lemma TwiceInMultiset<T>(ys: seq<T>, i: nat, j: nat)
    requires i < j < |ys| && ys[i] == ys[j]
    ensures multiset(ys)[ys[i]] >= 2
  {
    assert ys == ys[..i] + [ys[i]] + ys[i + 1..j] + [ys[j]] + ys[j + 1..];
  }

  // Distinct elements come out strictly ordered, and none is lost or invented.
  lemma {:induction false} SortDistinct<T(!new)>(xs: seq<T>, less: (T, T) -> bool)
    requires StrictOrder(less) && Distinguished(xs, less) && NoRepeats(xs)
    ensures var ys := Sort(xs, less);
      (forall i, j | 0 <= i < j < |ys| :: less(ys[i], ys[j])) && forall x :: x in ys <==> x in xs
  {
    hide StrictOrder, NoRepeats;
    SortSorts(xs, less);
    var ys := Sort(xs, less);
    assert forall x :: x in ys <==> x in multiset(ys);
    assert forall x :: x in xs <==> x in multiset(xs);
    forall i, j | 0 <= i < j < |ys| ensures less(ys[i], ys[j]) {
      if ys[i] == ys[j] { TwiceInMultiset(ys, i, j); }
      OnceInMultiset(xs, ys[i]);
      assert ys[i] in xs && ys[j] in xs;
    }
  }

  // ---- strings ----------------------------------------------------------------------

  // < on strings: by code units.
  predicate StringLess(a: string, b: string) { UnitsLess(Utf16(a), Utf16(b)) }

  // The same on whole characters.
  lemma StringLessStep(a: string, b: string)
    ensures StringLess(a, b) <==>
      b != "" && (a == "" || if a[0] == b[0] then StringLess(a[1..], b[1..]) else Rank(a[0]) < Rank(b[0]))
  {
    hide UnitsLess, Utf16, Rank;
    if a != "" && b != "" { Utf16Step(a, b); } else { Utf16Ends(a); Utf16Ends(b); }
  }

  lemma {:induction false} StringTrichotomy(a: string, b: string)
    ensures a == b || StringLess(a, b) || StringLess(b, a)
    ensures !(StringLess(a, b) && StringLess(b, a))
    ensures a == b ==> !StringLess(a, b)
  {
    StringLessStep(a, b);
    StringLessStep(b, a);
    hide StringLess;
    if a != [] && b != [] {
      StringTrichotomy(a[1..], b[1..]);
      assert a == [a[0]] + a[1..] && b == [b[0]] + b[1..];
    }
  }

  lemma {:induction false} StringTransitive(a: string, b: string, c: string)
    requires StringLess(a, b) && StringLess(b, c)
    ensures StringLess(a, c)
  {
    StringLessStep(a, b);
    StringLessStep(b, c);
    StringLessStep(a, c);
    hide StringLess;
    if a != [] && a[0] == b[0] == c[0] { StringTransitive(a[1..], b[1..], c[1..]); }
  }

  lemma StringOrder()
    ensures StrictOrder(StringLess)
  {
    hide StringLess;
    forall a: string ensures !StringLess(a, a) { StringTrichotomy(a, a); }
    forall a, b, c | StringLess(a, b) && StringLess(b, c) ensures StringLess(a, c) { StringTransitive(a, b, c); }
    forall a, b, c | StringLess(a, b) ensures StringLess(a, c) || StringLess(c, b) { Between(a, b, c); }
  }

  lemma Between(a: string, b: string, c: string)
    requires StringLess(a, b)
    ensures StringLess(a, c) || StringLess(c, b)
  {
    hide StringLess;
    StringTrichotomy(a, c);
    if StringLess(c, a) { StringTransitive(c, a, b); }
  }
}
