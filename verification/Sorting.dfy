/**
 The stable sort by name that puts parsed records into an order independent of how
 they were parsed: sorted, and within one name as before; nothing else is.
 */
module Sorting {

  /** Names compare character by character, a proper prefix first. */
  predicate Le(a: string, b: string) {
    a == "" || (b != "" && (a[0] < b[0] || (a[0] == b[0] && Le(a[1..], b[1..]))))
  }

  lemma {:induction false} LeTotal(a: string, b: string)
    ensures Le(a, b) || Le(b, a)
    ensures Le(a, b) && Le(b, a) ==> a == b
    ensures Le(a, a)
  {
    if a != "" {
      LeTotal(a[1..], a[1..]);
      if b != "" {
        LeTotal(a[1..], b[1..]);
        assert a == [a[0]] + a[1..] && b == [b[0]] + b[1..];
      }
    }
  }

  lemma {:induction false} LeTransitive(a: string, b: string, c: string)
    requires Le(a, b) && Le(b, c)
    ensures Le(a, c)
  {
    if a != "" {
      if a[0] == b[0] && b[0] == c[0] {
        LeTransitive(a[1..], b[1..], c[1..]);
      }
    }
  }

  /** Puts `x` behind everything it does not precede. */
  function Insert<T>(xs: seq<T>, x: T, key: T -> string): seq<T> {
    if xs == [] || Le(key(xs[|xs| - 1]), key(x)) then xs + [x]
    else Insert(xs[..|xs| - 1], x, key) + [xs[|xs| - 1]]
  }

  function SortBy<T>(xs: seq<T>, key: T -> string): seq<T> {
    if xs == [] then [] else Insert(SortBy(xs[..|xs| - 1], key), xs[|xs| - 1], key)
  }

  ghost predicate Sorted<T>(xs: seq<T>, key: T -> string) {
    forall i, j | 0 <= i < j < |xs| :: Le(key(xs[i]), key(xs[j]))
  }

  /** The elements of one name, in order. */
  function Named<T>(xs: seq<T>, key: T -> string, name: string): seq<T> {
    if xs == [] then []
    else Named(xs[..|xs| - 1], key, name) + (if key(xs[|xs| - 1]) == name then [xs[|xs| - 1]] else [])
  }

  lemma NamedSnoc<T>(xs: seq<T>, x: T, key: T -> string, name: string)
    ensures Named(xs + [x], key, name) == Named(xs, key, name) + (if key(x) == name then [x] else [])
  {
    var all := xs + [x];
    assert all[..|all| - 1] == xs;
  }

  lemma {:induction false} InsertKeeps<T>(xs: seq<T>, x: T, key: T -> string)
    requires Sorted(xs, key)
    ensures Sorted(Insert(xs, x, key), key) && |Insert(xs, x, key)| == |xs| + 1
    ensures forall y :: y in Insert(xs, x, key) <==> y in xs || y == x
  {
    if xs == [] {
    } else if Le(key(xs[|xs| - 1]), key(x)) {
      forall i | 0 <= i < |xs| ensures Le(key(xs[i]), key(x)) {
        if i < |xs| - 1 {
          LeTransitive(key(xs[i]), key(xs[|xs| - 1]), key(x));
        }
      }
    } else {
      var front, last := xs[..|xs| - 1], xs[|xs| - 1];
      InsertKeeps(front, x, key);
      LeTotal(key(x), key(last));
      assert xs == front + [last];
      InsertBelow(front, x, key, key(last));
      assert Insert(xs, x, key) == Insert(front, x, key) + [last];
    }
  }

  lemma {:induction false} InsertBelow<T>(xs: seq<T>, x: T, key: T -> string, bound: string)
    requires Le(key(x), bound) && forall i | 0 <= i < |xs| :: Le(key(xs[i]), bound)
    ensures forall i | 0 <= i < |Insert(xs, x, key)| :: Le(key(Insert(xs, x, key)[i]), bound)
  {
    if xs != [] && !Le(key(xs[|xs| - 1]), key(x)) {
      InsertBelow(xs[..|xs| - 1], x, key, bound);
    }
  }

  lemma {:induction false} InsertIsStable<T>(xs: seq<T>, x: T, key: T -> string, name: string)
    requires Sorted(xs, key)
    ensures Named(Insert(xs, x, key), key, name) == Named(xs + [x], key, name)
  {
    if xs != [] && !Le(key(xs[|xs| - 1]), key(x)) {
      var front, last := xs[..|xs| - 1], xs[|xs| - 1];
      assert xs == front + [last];
      InsertIsStable(front, x, key, name);
      assert Insert(xs, x, key) == Insert(front, x, key) + [last];
      NamedSnoc(Insert(front, x, key), last, key, name);
      LeTotal(key(x), key(last));
      NamedSwap(front, x, last, key, name);
    }
  }

  /** Neighbours of different names may be exchanged. */
  lemma NamedSwap<T>(front: seq<T>, x: T, y: T, key: T -> string, name: string)
    requires key(x) != key(y)
    ensures Named(front + [x], key, name) + (if key(y) == name then [y] else [])
         == Named(front + [y] + [x], key, name)
  {
    NamedSnoc(front, x, key, name);
    NamedSnoc(front, y, key, name);
    NamedSnoc(front + [y], x, key, name);
  }

  /** The result is sorted, and holds of each name what the input does, in the same order. */
  lemma {:induction false} SortIsStable<T>(xs: seq<T>, key: T -> string)
    ensures Sorted(SortBy(xs, key), key) && |SortBy(xs, key)| == |xs|
    ensures forall x :: x in SortBy(xs, key) <==> x in xs
    ensures forall name :: Named(SortBy(xs, key), key, name) == Named(xs, key, name)
  {
    if xs != [] {
      var front, last := xs[..|xs| - 1], xs[|xs| - 1];
      SortIsStable(front, key);
      InsertKeeps(SortBy(front, key), last, key);
      assert xs == front + [last];
      forall name ensures Named(SortBy(xs, key), key, name) == Named(xs, key, name) {
        InsertIsStable(SortBy(front, key), last, key, name);
        NamedSnoc(SortBy(front, key), last, key, name);
        NamedSnoc(front, last, key, name);
      }
    }
  }

  lemma {:induction false} NamedIsIn<T>(xs: seq<T>, key: T -> string, name: string)
    ensures Named(xs, key, name) != [] <==> exists i | 0 <= i < |xs| :: key(xs[i]) == name
  {
    if xs != [] {
      NamedIsIn(xs[..|xs| - 1], key, name);
    }
  }

  /** Two sorted sequences that agree name by name are equal: the sort is the only one of its kind. */
  lemma {:induction false} SortedIsUnique<T>(xs: seq<T>, ys: seq<T>, key: T -> string)
    requires Sorted(xs, key) && Sorted(ys, key)
    requires forall name :: Named(xs, key, name) == Named(ys, key, name)
    ensures xs == ys
  {
    if xs == [] {
      if ys != [] {
        NamedIsIn(ys, key, key(ys[0]));
      }
    } else {
      NamedIsIn(xs, key, key(xs[0]));
      NamedIsIn(ys, key, key(xs[0]));
      var m, n := |xs| - 1, |ys| - 1;
      LastNamesAgree(xs, ys, key);
      var name := key(xs[m]);
      assert Named(xs, key, name)[|Named(xs, key, name)| - 1] == xs[m];
      assert Named(ys, key, name)[|Named(ys, key, name)| - 1] == ys[n];
      forall other ensures Named(xs[..m], key, other) == Named(ys[..n], key, other) {
        var tail := if other == name then [xs[m]] else [];
        assert Named(xs, key, other) == Named(xs[..m], key, other) + tail;
        assert Named(ys, key, other) == Named(ys[..n], key, other) + tail;
        assert Named(xs[..m], key, other) == Named(xs, key, other)[..|Named(xs, key, other)| - |tail|];
      }
      SortedIsUnique(xs[..m], ys[..n], key);
      assert xs == xs[..m] + [xs[m]] && ys == ys[..n] + [ys[n]];
    }
  }

  lemma LastNamesAgree<T>(xs: seq<T>, ys: seq<T>, key: T -> string)
    requires xs != [] && ys != [] && Sorted(xs, key) && Sorted(ys, key)
    requires forall name :: Named(xs, key, name) == Named(ys, key, name)
    ensures key(xs[|xs| - 1]) == key(ys[|ys| - 1])
  {
    var a, b := key(xs[|xs| - 1]), key(ys[|ys| - 1]);
    NamedIsIn(xs, key, a);
    NamedIsIn(ys, key, b);
    AtMostLast(xs, key, b);
    AtMostLast(ys, key, a);
    LeTotal(a, b);
  }

  lemma AtMostLast<T>(xs: seq<T>, key: T -> string, name: string)
    requires xs != [] && Sorted(xs, key) && Named(xs, key, name) != []
    ensures Le(name, key(xs[|xs| - 1]))
  {
    NamedIsIn(xs, key, name);
    var i :| 0 <= i < |xs| && key(xs[i]) == name;
    LeTotal(name, name);
  }

  /** Inputs that agree name by name are sorted alike: with distinct names, in whatever order they come. */
  lemma SortForgetsOrder<T>(xs: seq<T>, ys: seq<T>, key: T -> string)
    requires forall name :: Named(xs, key, name) == Named(ys, key, name)
    ensures SortBy(xs, key) == SortBy(ys, key)
  {
    SortIsStable(xs, key);
    SortIsStable(ys, key);
    SortedIsUnique(SortBy(xs, key), SortBy(ys, key), key);
  }

  /** The order is the lexicographic one: a prefix first, and otherwise the first character that differs decides. */
  lemma {:induction false} LeIsLexicographic(a: string, b: string)
    ensures Le(a, b) <==>
      || (|a| <= |b| && a == b[..|a|])
      || exists i :: 0 <= i < |a| && i < |b| && a[..i] == b[..i] && a[i] < b[i]
  {
    if a != "" && b != "" {
      LeIsLexicographic(a[1..], b[1..]);
      if a[0] == b[0] {
        forall i | 0 <= i < |a| - 1 && i < |b| - 1
          ensures a[1..][..i] == b[1..][..i] <==> a[..i + 1] == b[..i + 1]
        {
          assert a[..i + 1] == [a[0]] + a[1..][..i] && b[..i + 1] == [b[0]] + b[1..][..i];
          assert a[..i + 1][1..] == a[1..][..i] && b[..i + 1][1..] == b[1..][..i];
        }
        if |a| <= |b| {
          assert a == [a[0]] + a[1..] && b[..|a|] == [b[0]] + b[1..][..|a| - 1];
          assert b[..|a|][1..] == b[1..][..|a| - 1];
        }
        if i :| 0 <= i < |a| && i < |b| && a[..i] == b[..i] && a[i] < b[i] {
          assert i > 0 && a[1..][i - 1] < b[1..][i - 1] && a[1..][..i - 1] == b[1..][..i - 1];
        }
        if i :| 0 <= i < |a| - 1 && i < |b| - 1 && a[1..][..i] == b[1..][..i] && a[1..][i] < b[1..][i] {
          assert a[..i + 1] == b[..i + 1] && a[i + 1] < b[i + 1];
        }
      } else {
        assert a[..0] == b[..0];
        forall i | 0 < i < |a| && i < |b| ensures a[..i] != b[..i] {
          assert a[..i][0] != b[..i][0];
        }
        if |a| <= |b| {
          assert a[0] != b[..|a|][0];
        }
      }
    }
  }
}
