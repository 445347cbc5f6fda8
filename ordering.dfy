/** Python's ordering of strings and the sort that `list.sort` / `sorted` perform.

    The sort is modelled as a stable insertion sort: elements are taken left to
    right and each is placed after every element it is not smaller than. */
module Ordering {

  /** Python's `a < b` on str: lexicographic comparison of code points. */
  predicate StrLt(a: string, b: string)
    decreases |a|
  {
    if a == [] then b != []
    else if b == [] then false
    else if a[0] != b[0] then a[0] < b[0]
    else StrLt(a[1..], b[1..])
  }

  lemma {:induction false} StrLtIrreflexive(a: string)
    ensures !StrLt(a, a)
  {
    if a != [] {
      StrLtIrreflexive(a[1..]);
    }
  }

  lemma {:induction false} StrLtTransitive(a: string, b: string, c: string)
    ensures StrLt(a, b) && StrLt(b, c) ==> StrLt(a, c)
    decreases |a|
  {
    if a != [] && b != [] && c != [] {
      StrLtTransitive(a[1..], b[1..], c[1..]);
    }
  }

  lemma {:induction false} StrLtTotal(a: string, b: string)
    ensures a == b || StrLt(a, b) || StrLt(b, a)
    decreases |a|
  {
    if a != [] && b != [] && a[0] == b[0] {
      StrLtTotal(a[1..], b[1..]);
      assert a == [a[0]] + a[1..] && b == [b[0]] + b[1..];
    }
  }

  lemma StrLtAsymmetric(a: string, b: string)
    ensures !(StrLt(a, b) && StrLt(b, a))
  {
    StrLtTransitive(a, b, a);
    StrLtIrreflexive(a);
  }

  lemma HeadIn<T>(s: seq<T>)
    ensures |s| > 0 ==> s[0] in s
  {
  }

  /** Strictly increasing: sorted and without repetitions. */
  predicate StrictlySorted(s: seq<string>) {
    forall i, j :: 0 <= i < j < |s| ==> StrLt(s[i], s[j])
  }

  /** Two strictly sorted lists of the same strings are the same list: the sorted,
      de-duplicated form of a set is unique. */
  lemma {:induction false} StrictlySortedUnique(a: seq<string>, b: seq<string>)
    requires StrictlySorted(a) && StrictlySorted(b)
    requires forall x :: x in a <==> x in b
    ensures a == b
    decreases |a|
  {
    if a != [] {
      assert a[0] in b;
      var k :| 0 <= k < |b| && b[k] == a[0];
      assert b[0] in a;
      var m :| 0 <= m < |a| && a[m] == b[0];
      StrLtAsymmetric(a[0], b[0]);
      StrLtIrreflexive(a[0]);
      assert a[0] == b[0];
      forall x ensures x in a[1..] <==> x in b[1..] {
        if x in a[1..] {
          var i :| 0 <= i < |a| - 1 && a[1..][i] == x;
          assert StrLt(a[0], a[i + 1]);
          StrLtIrreflexive(a[0]);
          assert x in b && x != b[0];
        }
        if x in b[1..] {
          var i :| 0 <= i < |b| - 1 && b[1..][i] == x;
          assert StrLt(b[0], b[i + 1]);
          StrLtIrreflexive(b[0]);
          assert x in a && x != a[0];
        }
      }
      StrictlySortedUnique(a[1..], b[1..]);
      assert a == [a[0]] + a[1..] && b == [b[0]] + b[1..];
    } else {
      HeadIn(b);
    }
  }

  // ---------------------------------------------------------------------
  // Sorting by a strict order

  /** lt is irreflexive and transitive: enough for sorting to be meaningful. */
  ghost predicate IsStrictOrder<T(!new)>(lt: (T, T) -> bool) {
    && (forall a :: !lt(a, a))
    && (forall a, b, c :: lt(a, b) && lt(b, c) ==> lt(a, c))
  }

  /** No element is smaller than one before it. */
  predicate SortedBy<T>(s: seq<T>, lt: (T, T) -> bool) {
    forall i, j :: 0 <= i < j < |s| ==> !lt(s[j], s[i])
  }

  /** Places x just before the first element it is smaller than. */
  function Insert<T>(x: T, s: seq<T>, lt: (T, T) -> bool): (r: seq<T>)
    ensures |r| == |s| + 1
    ensures multiset(r) == multiset(s) + multiset{x}
  {
    if s == [] then [x]
    else if lt(x, s[0]) then [x] + s
    else
      var rest := Insert(x, s[1..], lt);
      assert s == [s[0]] + s[1..];
      [s[0]] + rest
  }

  /** `sorted(s, key=...)`: insertion of each element in turn, left to right. */
  function SortBy<T>(s: seq<T>, lt: (T, T) -> bool): (r: seq<T>)
    ensures |r| == |s|
    ensures multiset(r) == multiset(s)
  {
    if s == [] then []
    else
      var r := Insert(s[|s| - 1], SortBy(s[..|s| - 1], lt), lt);
      assert s == s[..|s| - 1] + [s[|s| - 1]];
      r
  }

  lemma {:induction false} InsertSorted<T(!new)>(x: T, s: seq<T>, lt: (T, T) -> bool)
    requires IsStrictOrder(lt) && SortedBy(s, lt)
    ensures SortedBy(Insert(x, s, lt), lt)
  {
    if s == [] {
    } else if lt(x, s[0]) {
      var r := [x] + s;
      forall i, j | 0 <= i < j < |r| ensures !lt(r[j], r[i]) {
        assert r[j] == s[j - 1];
        if i > 0 {
          assert r[i] == s[i - 1];
        }
      }
    } else {
      var rest := Insert(x, s[1..], lt);
      InsertSorted(x, s[1..], lt);
      var r := [s[0]] + rest;
      forall j | 0 <= j < |rest| ensures !lt(rest[j], s[0]) {
        assert rest[j] in multiset(rest);
        assert rest[j] == x || rest[j] in multiset(s[1..]);
        if rest[j] != x {
          var k :| 0 <= k < |s| - 1 && s[1..][k] == rest[j];
          assert s[k + 1] == rest[j];
        }
      }
      forall i, j | 0 <= i < j < |r| ensures !lt(r[j], r[i]) {
        assert r[j] == rest[j - 1];
        if i > 0 {
          assert r[i] == rest[i - 1];
        }
      }
    }
  }

  /** The result of SortBy is sorted. */
  lemma {:induction false} SortBySorted<T(!new)>(s: seq<T>, lt: (T, T) -> bool)
    requires IsStrictOrder(lt)
    ensures SortedBy(SortBy(s, lt), lt)
  {
    if s != [] {
      SortBySorted(s[..|s| - 1], lt);
      InsertSorted(s[|s| - 1], SortBy(s[..|s| - 1], lt), lt);
    }
  }

  /** A strict order whose incomparability is transitive, as every order on
      sort keys is: whatever lies between two ordered elements is ordered
      against one of them. */
  ghost predicate IsStrictWeakOrder<T(!new)>(lt: (T, T) -> bool) {
    && IsStrictOrder(lt)
    && (forall a, b, c :: lt(a, c) ==> lt(a, b) || lt(b, c))
  }

  /** Two elements tie when neither sorts before the other. */
  predicate Tie<T>(lt: (T, T) -> bool, a: T, b: T) {
    !lt(a, b) && !lt(b, a)
  }

  /** The elements of s that tie with y, in their order in s. */
  function Ties<T>(s: seq<T>, lt: (T, T) -> bool, y: T): seq<T> {
    if s == [] then []
    else (if Tie(lt, s[0], y) then [s[0]] else []) + Ties(s[1..], lt, y)
  }

  lemma {:induction false} TiesAppend<T>(a: seq<T>, b: seq<T>, lt: (T, T) -> bool, y: T)
    ensures Ties(a + b, lt, y) == Ties(a, lt, y) + Ties(b, lt, y)
  {
    if a == [] {
      assert a + b == b;
    } else {
      var head := if Tie(lt, a[0], y) then [a[0]] else [];
      assert (a + b)[0] == a[0];
      assert (a + b)[1..] == a[1..] + b;
      TiesAppend(a[1..], b, lt, y);
      calc {
        Ties(a + b, lt, y);
        head + Ties(a[1..] + b, lt, y);
        head + (Ties(a[1..], lt, y) + Ties(b, lt, y));
        (head + Ties(a[1..], lt, y)) + Ties(b, lt, y);
      }
    }
  }

  /** Ties of a sequence are those of all but its last element, then the last
      element if it ties. */
  lemma {:induction false} TiesSnoc<T>(s: seq<T>, lt: (T, T) -> bool, y: T)
    requires s != []
    ensures var x := s[|s| - 1];
            Ties(s, lt, y) == Ties(s[..|s| - 1], lt, y) + (if Tie(lt, x, y) then [x] else [])
  {
    var x := s[|s| - 1];
    var init := s[..|s| - 1];
    assert Ties([x], lt, y) == (if Tie(lt, x, y) then [x] else []) by {
      assert [x][1..] == [];
    }
    TiesAppend(init, [x], lt, y);
    assert init + [x] == s;
  }

  /** Inserting an element that does not tie with y leaves the ties with y alone. */
  lemma {:induction false} InsertTiesOther<T>(x: T, s: seq<T>, lt: (T, T) -> bool, y: T)
    requires !Tie(lt, x, y)
    ensures Ties(Insert(x, s, lt), lt, y) == Ties(s, lt, y)
  {
    if s == [] {
    } else if lt(x, s[0]) {
      assert ([x] + s)[1..] == s;
    } else {
      InsertTiesOther(x, s[1..], lt, y);
      assert ([s[0]] + Insert(x, s[1..], lt))[1..] == Insert(x, s[1..], lt);
    }
  }

  /** Nothing from the first element x is smaller than onwards ties with x. */
  lemma {:induction false} NoTiesAbove<T(!new)>(x: T, s: seq<T>, lt: (T, T) -> bool, y: T)
    requires IsStrictWeakOrder(lt) && SortedBy(s, lt) && Tie(lt, x, y)
    requires s != [] ==> lt(x, s[0])
    ensures Ties(s, lt, y) == []
  {
    if s != [] {
      assert !Tie(lt, s[0], y) by {
        assert lt(x, y) || lt(y, s[0]);
      }
      if |s| > 1 {
        assert lt(x, s[1]) by {
          assert !lt(s[1], s[0]);
        }
      }
      NoTiesAbove(x, s[1..], lt, y);
    }
  }

  /** An inserted element that ties with y comes after every earlier tie with y. */
  lemma {:induction false} InsertTiesLast<T(!new)>(x: T, s: seq<T>, lt: (T, T) -> bool, y: T)
    requires IsStrictWeakOrder(lt) && SortedBy(s, lt) && Tie(lt, x, y)
    ensures Ties(Insert(x, s, lt), lt, y) == Ties(s, lt, y) + [x]
  {
    if s == [] {
    } else if lt(x, s[0]) {
      NoTiesAbove(x, s, lt, y);
      TiesCons(x, s, lt, y);
    } else {
      InsertTiesLast(x, s[1..], lt, y);
      InsertTiesLastStep(x, s, lt, y);
    }
  }

  /** One step of `InsertTiesLast`: x passes a head it is not smaller than. */
  lemma {:induction false} InsertTiesLastStep<T>(x: T, s: seq<T>, lt: (T, T) -> bool, y: T)
    requires s != [] && !lt(x, s[0])
    requires Ties(Insert(x, s[1..], lt), lt, y) == Ties(s[1..], lt, y) + [x]
    ensures Ties(Insert(x, s, lt), lt, y) == Ties(s, lt, y) + [x]
  {
    var rest := Insert(x, s[1..], lt);
    var head := if Tie(lt, s[0], y) then [s[0]] else [];
    calc {
      Ties(Insert(x, s, lt), lt, y);
      Ties([s[0]] + rest, lt, y);
      { TiesCons(s[0], rest, lt, y); }
      head + Ties(rest, lt, y);
      head + (Ties(s[1..], lt, y) + [x]);
      (head + Ties(s[1..], lt, y)) + [x];
      { TiesCons(s[0], s[1..], lt, y); assert [s[0]] + s[1..] == s; }
      Ties(s, lt, y) + [x];
    }
  }

  lemma {:induction false} TiesCons<T>(h: T, s: seq<T>, lt: (T, T) -> bool, y: T)
    ensures Ties([h] + s, lt, y) == (if Tie(lt, h, y) then [h] else []) + Ties(s, lt, y)
  {
    assert ([h] + s)[1..] == s;
  }

  /** `list.sort` is stable: elements that tie keep the order they had. */
  lemma {:induction false} SortByStable<T(!new)>(s: seq<T>, lt: (T, T) -> bool, y: T)
    requires IsStrictWeakOrder(lt)
    ensures Ties(SortBy(s, lt), lt, y) == Ties(s, lt, y)
  {
    if s != [] {
      var init, x := s[..|s| - 1], s[|s| - 1];
      var r := SortBy(init, lt);
      assert SortBy(s, lt) == Insert(x, r, lt);
      SortByStable(init, lt, y);
      TiesSnoc(s, lt, y);
      if Tie(lt, x, y) {
        SortBySorted(init, lt);
        InsertTiesLast(x, r, lt, y);
      } else {
        InsertTiesOther(x, r, lt, y);
      }
    }
  }

  /** Whatever string lies between two ordered strings is ordered against one of them. */
  lemma StrLtWeak(a: string, b: string, c: string)
    ensures StrLt(a, c) ==> StrLt(a, b) || StrLt(b, c)
  {
    StrLtTotal(a, b);
    StrLtTotal(b, c);
    StrLtTransitive(c, b, a);
    StrLtAsymmetric(a, c);
  }

  /** Python's string order is a strict order. */
  lemma StrLtIsStrictOrder()
    ensures IsStrictOrder(StrLt)
    ensures IsStrictOrder((a: string, b: string) => StrLt(b, a))
  {
    forall a: string ensures !StrLt(a, a) { StrLtIrreflexive(a); }
    forall a: string, b: string, c: string ensures StrLt(a, b) && StrLt(b, c) ==> StrLt(a, c) {
      StrLtTransitive(a, b, c);
    }
    forall a: string, b: string, c: string ensures StrLt(b, a) && StrLt(c, b) ==> StrLt(c, a) {
      StrLtTransitive(c, b, a);
    }
  }
}
