/**
 The AVL tree library as its callers see it: a sequence kept sorted by a comparator, with at most
 one element of each equivalence class. The tree's own code is not part of this model.
 */
module Mavl {
  import opened Prelude

  /** A total preorder on `dom`; transitivity is used only where Link names the three elements. */
  ghost predicate OrderOn<T(!new)>(cmp: (T, T) -> int, dom: T -> bool)
  {
    && (forall x :: dom(x) ==> cmp(x, x) == 0)
    && (forall x, y :: dom(x) && dom(y) ==> (cmp(x, y) < 0 <==> cmp(y, x) > 0))
    && (forall x, y, z {:trigger Link(x, y, z)} ::
          Link(x, y, z) && dom(x) && dom(y) && dom(z) && cmp(x, y) <= 0 && cmp(y, z) <= 0 ==> cmp(x, z) <= 0)
  }

  ghost predicate Link<T(!new)>(x: T, y: T, z: T) { true }

  lemma Transitive<T(!new)>(cmp: (T, T) -> int, dom: T -> bool, x: T, y: T, z: T)
    requires OrderOn(cmp, dom) && dom(x) && dom(y) && dom(z)
    requires cmp(x, y) <= 0 && cmp(y, z) <= 0
    ensures cmp(x, z) <= 0
    ensures cmp(x, y) < 0 || cmp(y, z) < 0 ==> cmp(x, z) < 0
  {
    assert Link(x, y, z) && Link(y, z, x) && Link(z, x, y);
  }

  ghost predicate Sorted<T>(cmp: (T, T) -> int, s: seq<T>)
  {
    forall i, j :: 0 <= i < j < |s| ==> cmp(s[i], s[j]) < 0
  }

  ghost predicate AllIn<T>(dom: T -> bool, s: seq<T>) { forall x :: x in s ==> dom(x) }

  /** Index of the first element that is not below `x`. */
  function LowerBound<T>(cmp: (T, T) -> int, s: seq<T>, x: T): (i: nat)
    ensures i <= |s|
    ensures forall j :: 0 <= j < i ==> cmp(s[j], x) < 0
    ensures i < |s| ==> cmp(s[i], x) >= 0
  {
    if s == [] || cmp(s[0], x) >= 0 then 0 else LowerBound(cmp, s[1..], x) + 1
  }

  /** mavl_get_first: the least element not below `x`. */
  function GetFirst<T>(cmp: (T, T) -> int, s: seq<T>, x: T): Option<T>
  {
    var i := LowerBound(cmp, s, x);
    if i < |s| then Some(s[i]) else None
  }

  predicate Has<T>(cmp: (T, T) -> int, s: seq<T>, x: T)
  {
    var i := LowerBound(cmp, s, x);
    i < |s| && cmp(s[i], x) == 0
  }

  /** mavl_get: the element equal to `x`. */
  function Get<T>(cmp: (T, T) -> int, s: seq<T>, x: T): Option<T>
  {
    if Has(cmp, s, x) then Some(s[LowerBound(cmp, s, x)]) else None
  }

  /** mavl_insert: an equal element stays as it is. */
  function Insert<T>(cmp: (T, T) -> int, s: seq<T>, x: T): seq<T>
  {
    var i := LowerBound(cmp, s, x);
    if Has(cmp, s, x) then s else s[..i] + [x] + s[i..]
  }

  /** mavl_replace: an equal element is overwritten. */
  function Replace<T>(cmp: (T, T) -> int, s: seq<T>, x: T): seq<T>
  {
    var i := LowerBound(cmp, s, x);
    if Has(cmp, s, x) then s[i := x] else s[..i] + [x] + s[i..]
  }

  /** mavl_del */
  function Del<T>(cmp: (T, T) -> int, s: seq<T>, x: T): seq<T>
  {
    var i := LowerBound(cmp, s, x);
    if Has(cmp, s, x) then s[..i] + s[i + 1..] else s
  }

  // ----- under an order, in terms of membership -----

  lemma Bound<T(!new)>(cmp: (T, T) -> int, dom: T -> bool, s: seq<T>, x: T)
    requires OrderOn(cmp, dom) && AllIn(dom, s) && dom(x) && Sorted(cmp, s)
    ensures var i := LowerBound(cmp, s, x);
            && (forall j :: i < j < |s| ==> cmp(s[j], x) > 0 && cmp(x, s[j]) < 0)
            && (forall j :: 0 <= j < |s| && cmp(s[j], x) == 0 ==> j == i)
            && (!Has(cmp, s, x) && i < |s| ==> cmp(x, s[i]) < 0)
  {
    var i := LowerBound(cmp, s, x);
    if i < |s| {
      assert s[i] in s;
      forall j | i < j < |s| ensures cmp(s[j], x) > 0 && cmp(x, s[j]) < 0 {
        assert s[j] in s;
        Transitive(cmp, dom, x, s[i], s[j]);
      }
    }
  }

  lemma GetFinds<T(!new)>(cmp: (T, T) -> int, dom: T -> bool, s: seq<T>, x: T)
    requires OrderOn(cmp, dom) && AllIn(dom, s) && dom(x) && Sorted(cmp, s)
    ensures Has(cmp, s, x) <==> exists y :: y in s && cmp(y, x) == 0
    ensures forall y :: y in s && cmp(y, x) == 0 ==> Get(cmp, s, x) == Some(y)
  {
    Bound(cmp, dom, s, x);
    forall y | y in s && cmp(y, x) == 0 ensures Get(cmp, s, x) == Some(y) {
      var j :| 0 <= j < |s| && s[j] == y;
    }
    if Has(cmp, s, x) { assert s[LowerBound(cmp, s, x)] in s; }
  }

  /** No two elements of a tree are equal under its order. */
  lemma OneOfEach<T(!new)>(cmp: (T, T) -> int, dom: T -> bool, s: seq<T>, x: T, y: T)
    requires OrderOn(cmp, dom) && AllIn(dom, s) && Sorted(cmp, s) && x in s && y in s && cmp(y, x) == 0
    ensures x == y
  {
    GetFinds(cmp, dom, s, x);
  }

  lemma GetFirstIsLeast<T(!new)>(cmp: (T, T) -> int, dom: T -> bool, s: seq<T>, x: T)
    requires OrderOn(cmp, dom) && AllIn(dom, s) && dom(x) && Sorted(cmp, s)
    ensures var f := GetFirst(cmp, s, x);
            && (f == None <==> forall y :: y in s ==> cmp(y, x) < 0)
            && (f.Some? ==> f.value in s && cmp(f.value, x) >= 0
                            && forall y :: y in s && cmp(y, x) >= 0 ==> y == f.value || cmp(f.value, y) < 0)
  {
    var i := LowerBound(cmp, s, x);
    forall y | y in s && cmp(y, x) >= 0 ensures i < |s| && (y == s[i] || cmp(s[i], y) < 0) {
      var j :| 0 <= j < |s| && s[j] == y;
    }
    if i < |s| { assert s[i] in s; }
  }

  lemma ReplaceKeeps<T(!new)>(cmp: (T, T) -> int, dom: T -> bool, s: seq<T>, x: T)
    requires OrderOn(cmp, dom) && AllIn(dom, s) && dom(x) && Sorted(cmp, s)
    ensures var r := Replace(cmp, s, x);
            && Sorted(cmp, r) && AllIn(dom, r)
            && forall y :: y in r <==> y == x || (y in s && cmp(y, x) != 0)
  {
    Bound(cmp, dom, s, x);
    var i := LowerBound(cmp, s, x);
    if Has(cmp, s, x) {
      ReplacedSorted(cmp, s, i, x);
    } else {
      InsertedSorted(cmp, s, i, x);
      forall y | y in s ensures cmp(y, x) != 0 { var j :| 0 <= j < |s| && s[j] == y; }
    }
  }

  /** What was found before is found after a replacement, be it the new element. */
  lemma ReplaceStillHas<T(!new)>(cmp: (T, T) -> int, dom: T -> bool, s: seq<T>, x: T, y: T)
    requires OrderOn(cmp, dom) && AllIn(dom, s) && dom(x) && dom(y) && Sorted(cmp, s) && Has(cmp, s, y)
    ensures Has(cmp, Replace(cmp, s, x), y)
  {
    var z := s[LowerBound(cmp, s, y)];
    assert z in s;
    ReplaceKeeps(cmp, dom, s, x);
    GetFinds(cmp, dom, Replace(cmp, s, x), y);
    if cmp(z, x) == 0 {
      Transitive(cmp, dom, x, z, y);
      Transitive(cmp, dom, y, z, x);
      assert x in Replace(cmp, s, x) && cmp(x, y) == 0;
    } else {
      assert z in Replace(cmp, s, x) && cmp(z, y) == 0;
    }
  }

  /** What is found after a replacement: the new element under everything equal to it, and otherwise what
      was found before. */
  lemma GetAfterReplace<T(!new)>(cmp: (T, T) -> int, dom: T -> bool, s: seq<T>, x: T, y: T)
    requires OrderOn(cmp, dom) && AllIn(dom, s) && dom(x) && dom(y) && Sorted(cmp, s)
    ensures Get(cmp, Replace(cmp, s, x), y) == if cmp(x, y) == 0 then Some(x) else Get(cmp, s, y)
  {
    var r := Replace(cmp, s, x);
    ReplaceKeeps(cmp, dom, s, x);
    GetFinds(cmp, dom, r, y);
    GetFinds(cmp, dom, s, y);
    assert x in r;
    if cmp(x, y) != 0 {
      forall z | z in s && cmp(z, y) == 0 ensures z in r {
        EqualTo(cmp, dom, z, y, x);
      }
    }
  }

  /** What is equal to `y` is as equal to `x` as `y` is. */
  lemma EqualTo<T(!new)>(cmp: (T, T) -> int, dom: T -> bool, z: T, y: T, x: T)
    requires OrderOn(cmp, dom) && dom(x) && dom(y) && dom(z) && cmp(z, y) == 0
    ensures cmp(z, x) == 0 <==> cmp(x, y) == 0
  {
    assert Link(x, z, y) && Link(y, z, x) && Link(z, y, x) && Link(x, y, z);
  }

  /** One replacement after the other. */
  function ReplaceAll<T>(cmp: (T, T) -> int, s: seq<T>, xs: seq<T>): seq<T>
    decreases |xs|
  {
    if xs == [] then s else ReplaceAll(cmp, Replace(cmp, s, xs[0]), xs[1..])
  }

  /** Index of the last of them that is equal to `y`, or -1. */
  function LastEq<T>(cmp: (T, T) -> int, xs: seq<T>, y: T): (i: int)
    ensures -1 <= i < |xs|
    ensures i >= 0 ==> cmp(xs[i], y) == 0
    ensures forall j :: i < j < |xs| ==> cmp(xs[j], y) != 0
  {
    if xs == [] then -1
    else
      var i := LastEq(cmp, xs[1..], y);
      if i >= 0 then i + 1 else if cmp(xs[0], y) == 0 then 0 else -1
  }

  /** The last one that is equal is found, or what was found before. */
  lemma {:induction false} GetAfterAll<T(!new)>(cmp: (T, T) -> int, dom: T -> bool, s: seq<T>, xs: seq<T>, y: T)
    requires OrderOn(cmp, dom) && AllIn(dom, s) && AllIn(dom, xs) && dom(y) && Sorted(cmp, s)
    ensures var i := LastEq(cmp, xs, y);
            Get(cmp, ReplaceAll(cmp, s, xs), y) == if i >= 0 then Some(xs[i]) else Get(cmp, s, y)
    decreases |xs|
  {
    if xs != [] {
      assert xs[0] in xs && forall x :: x in xs[1..] ==> x in xs;
      ReplaceKeeps(cmp, dom, s, xs[0]);
      GetAfterReplace(cmp, dom, s, xs[0], y);
      var s', later := Replace(cmp, s, xs[0]), LastEq(cmp, xs[1..], y);
      GetAfterAll(cmp, dom, s', xs[1..], y);
      assert ReplaceAll(cmp, s, xs) == ReplaceAll(cmp, s', xs[1..]);
      assert later >= 0 ==> LastEq(cmp, xs, y) == later + 1 && xs[1..][later] == xs[later + 1];
    }
  }

  lemma ReplacedSorted<T>(cmp: (T, T) -> int, s: seq<T>, i: nat, x: T)
    requires i < |s| && Sorted(cmp, s) && cmp(s[i], x) == 0
    requires forall j :: 0 <= j < i ==> cmp(s[j], x) < 0
    requires forall j :: i < j < |s| ==> cmp(x, s[j]) < 0
    requires forall j :: 0 <= j < |s| && j != i ==> cmp(s[j], x) != 0
    ensures Sorted(cmp, s[i := x])
    ensures forall y :: y in s[i := x] <==> y == x || (y in s && cmp(y, x) != 0)
  {
    UpdatedMembers(s, i, x);
    forall y ensures OccursBut(s, i, y) <==> y in s && cmp(y, x) != 0 {
      if OccursBut(s, i, y) { var j :| 0 <= j < |s| && j != i && s[j] == y; }
      if y in s && cmp(y, x) != 0 { var j :| 0 <= j < |s| && s[j] == y; }
    }
  }

  lemma UpdatedMembers<T>(s: seq<T>, i: nat, x: T)
    requires i < |s|
    ensures forall y :: y in s[i := x] <==> y == x || OccursBut(s, i, y)
  {
    var r := s[i := x];
    forall y ensures y in r <==> y == x || OccursBut(s, i, y) {
      if y in r { var j :| 0 <= j < |r| && r[j] == y; }
      if OccursBut(s, i, y) { var j :| 0 <= j < |s| && j != i && s[j] == y; assert r[j] == y; }
      assert r[i] == x;
    }
  }

  lemma InsertedSorted<T>(cmp: (T, T) -> int, s: seq<T>, i: nat, x: T)
    requires i <= |s| && Sorted(cmp, s)
    requires forall j :: 0 <= j < i ==> cmp(s[j], x) < 0
    requires forall j :: i <= j < |s| ==> cmp(x, s[j]) < 0
    ensures var r := s[..i] + [x] + s[i..];
            Sorted(cmp, r) && forall y :: y in r <==> y == x || y in s
  {
    var r := s[..i] + [x] + s[i..];
    forall j, k | 0 <= j < k < |r| ensures cmp(r[j], r[k]) < 0 {
      var j', k' := if j < i then j else j - 1, if k < i then k else k - 1;
      assert j != i ==> r[j] == s[j'];
      assert k != i ==> r[k] == s[k'];
    }
    assert s == s[..i] + s[i..];
  }

  /** A replacement leaves every element alone that is not equal to the new one. */
  lemma ReplaceLeaves<T>(cmp: (T, T) -> int, s: seq<T>, x: T, y: T)
    requires y in s && cmp(y, x) != 0
    ensures y in Replace(cmp, s, x)
  {
    var r, i := Replace(cmp, s, x), LowerBound(cmp, s, x);
    var j :| 0 <= j < |s| && s[j] == y;
    assert r[if Has(cmp, s, x) || j < i then j else j + 1] == y;
  }

  /** It adds nothing but the new one, sorted or not; */
  lemma ReplaceAddsOne<T>(cmp: (T, T) -> int, s: seq<T>, x: T, y: T)
    requires y in Replace(cmp, s, x)
    ensures y in s || y == x
  {
  }

  /** and a deletion adds nothing. */
  lemma DelAddsNone<T>(cmp: (T, T) -> int, s: seq<T>, x: T, y: T)
    requires y in Del(cmp, s, x)
    ensures y in s
  {
  }

  /** An element above all others goes to the end. */
  lemma ReplaceAppends<T>(cmp: (T, T) -> int, s: seq<T>, x: T)
    requires forall j :: 0 <= j < |s| ==> cmp(s[j], x) < 0
    ensures Replace(cmp, s, x) == s + [x]
  {
  }

  lemma InsertKeeps<T(!new)>(cmp: (T, T) -> int, dom: T -> bool, s: seq<T>, x: T)
    requires OrderOn(cmp, dom) && AllIn(dom, s) && dom(x) && Sorted(cmp, s)
    ensures var r := Insert(cmp, s, x);
            && Sorted(cmp, r) && AllIn(dom, r)
            && forall y :: y in r <==> y in s || (y == x && !Has(cmp, s, x))
  {
    if !Has(cmp, s, x) {
      Bound(cmp, dom, s, x);
      InsertedSorted(cmp, s, LowerBound(cmp, s, x), x);
    }
  }

  ghost predicate OccursBut<T>(s: seq<T>, i: nat, y: T) { exists j :: 0 <= j < |s| && j != i && s[j] == y }

  lemma RemovedSorted<T>(cmp: (T, T) -> int, s: seq<T>, i: nat)
    requires i < |s| && Sorted(cmp, s)
    ensures Sorted(cmp, s[..i] + s[i + 1..])
    ensures forall y :: y in s[..i] + s[i + 1..] <==> OccursBut(s, i, y)
  {
    var r := s[..i] + s[i + 1..];
    assert forall j :: 0 <= j < |r| ==> r[j] == s[if j < i then j else j + 1];
    forall y | OccursBut(s, i, y) ensures y in r {
      var j :| 0 <= j < |s| && j != i && s[j] == y;
      assert r[if j < i then j else j - 1] == y;
    }
  }

  lemma DelKeeps<T(!new)>(cmp: (T, T) -> int, dom: T -> bool, s: seq<T>, x: T)
    requires OrderOn(cmp, dom) && AllIn(dom, s) && dom(x) && Sorted(cmp, s)
    ensures var r := Del(cmp, s, x);
            && Sorted(cmp, r) && AllIn(dom, r)
            && forall y :: y in r <==> y in s && cmp(y, x) != 0
  {
    Bound(cmp, dom, s, x);
    var i := LowerBound(cmp, s, x);
    if Has(cmp, s, x) {
      RemovedSorted(cmp, s, i);
    } else {
      forall y | y in s ensures cmp(y, x) != 0 { var j :| 0 <= j < |s| && s[j] == y; }
    }
  }
}
