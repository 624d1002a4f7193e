/** `Array.prototype.sort` with a consistent comparator, modelled as a
    stable insertion sort over an abstract "not after" relation `le`. */
module Sorting {

  /** `le` is what a consistent comparator induces: reflexive, total and
      transitive. */
  ghost predicate TotalPreorder<T(!new)>(le: (T, T) -> bool) {
    && (forall a :: le(a, a))
    && (forall a, b :: le(a, b) || le(b, a))
    && (forall a, b, c :: le(a, b) && le(b, c) ==> le(a, c))
  }

  /** Puts `x` before the first element it does not come after; elements
      that compare equal to `x` stay after it. */
  function Insert<T>(le: (T, T) -> bool, x: T, t: seq<T>): (r: seq<T>)
    ensures multiset(r) == multiset(t) + multiset{x}
    ensures |r| == |t| + 1
  {
    if t == [] then [x]
    else if le(x, t[0]) then [x] + t
    else
      assert t == [t[0]] + t[1..];
      [t[0]] + Insert(le, x, t[1..])
  }

  /** Each element is inserted in front of the sorted rest, ahead of the
      elements it compares equal to, so ties keep their input order. */
  function Sort<T>(le: (T, T) -> bool, s: seq<T>): (r: seq<T>)
    ensures multiset(r) == multiset(s)
    ensures |r| == |s|
  {
    if s == [] then []
    else
      assert s == [s[0]] + s[1..];
      Insert(le, s[0], Sort(le, s[1..]))
  }

  /** Two elements come out swapped exactly when the first comes after the
      second. */
  lemma {:induction false} SortPair<T>(le: (T, T) -> bool, a: T, b: T)
    ensures Sort(le, [a, b]) == if le(a, b) then [a, b] else [b, a]
  {
    assert [a, b][1..] == [b] && [b][1..] == [];
    assert Sort(le, [b]) == [b];
  }

  ghost predicate Sorted<T>(le: (T, T) -> bool, t: seq<T>) {
    forall i, j :: 0 <= i < j < |t| ==> le(t[i], t[j])
  }

  lemma {:induction false} InsertSorted<T(!new)>(le: (T, T) -> bool, x: T, t: seq<T>)
    requires TotalPreorder(le)
    requires Sorted(le, t)
    ensures Sorted(le, Insert(le, x, t))
  {
    if t == [] {
    } else if le(x, t[0]) {
      var r := [x] + t;
      assert forall j :: 1 <= j < |r| ==> r[j] == t[j - 1];
    } else {
      InsertSorted(le, x, t[1..]);
      var u := Insert(le, x, t[1..]);
      forall j | 0 <= j < |u| ensures le(t[0], u[j]) {
        assert u[j] in multiset(u);
        if u[j] != x {
          assert u[j] in multiset(t[1..]);
          var k :| 0 <= k < |t[1..]| && t[1..][k] == u[j];
          assert t[k + 1] == u[j];
        }
      }
      var r := [t[0]] + u;
      assert forall j :: 1 <= j < |r| ==> r[j] == u[j - 1];
    }
  }

  /** The output is ordered by `le` (and, by `Sort`'s ensures, a permutation
      of the input). */
  lemma {:induction false} SortSorted<T(!new)>(le: (T, T) -> bool, s: seq<T>)
    requires TotalPreorder(le)
    ensures Sorted(le, Sort(le, s))
  {
    if s != [] {
      SortSorted(le, s[1..]);
      InsertSorted(le, s[0], Sort(le, s[1..]));
    }
  }

  /** The elements of `s` that compare equal to `y`, in order. */
  function EquivalentTo<T>(le: (T, T) -> bool, s: seq<T>, y: T): (r: seq<T>)
    ensures forall i :: 0 <= i < |r| ==> le(r[i], y) && le(y, r[i])
  {
    if s == [] then []
    else if le(s[0], y) && le(y, s[0]) then [s[0]] + EquivalentTo(le, s[1..], y)
    else EquivalentTo(le, s[1..], y)
  }

  lemma {:induction false} InsertStable<T(!new)>(le: (T, T) -> bool, x: T, t: seq<T>, y: T)
    requires TotalPreorder(le)
    ensures EquivalentTo(le, Insert(le, x, t), y)
         == (if le(x, y) && le(y, x) then [x] else []) + EquivalentTo(le, t, y)
  {
    if t == [] {
      assert [x][1..] == [];
    } else if le(x, t[0]) {
      assert ([x] + t)[1..] == t;
    } else {
      var u := Insert(le, x, t[1..]);
      assert ([t[0]] + u)[1..] == u;
      InsertStable(le, x, t[1..], y);
    }
  }

  /** Stability: among elements that compare equal, the sort keeps the input
      order. */
  lemma {:induction false} SortStable<T(!new)>(le: (T, T) -> bool, s: seq<T>, y: T)
    requires TotalPreorder(le)
    ensures EquivalentTo(le, Sort(le, s), y) == EquivalentTo(le, s, y)
  {
    if s != [] {
      SortStable(le, s[1..], y);
      InsertStable(le, s[0], Sort(le, s[1..]), y);
    }
  }

  ghost predicate IsMinimal<T>(le: (T, T) -> bool, m: T, s: seq<T>) {
    forall i :: 0 <= i < |s| ==> le(m, s[i])
  }

  lemma {:induction false} FrontIsMinimal<T(!new)>(le: (T, T) -> bool, s: seq<T>, m: T)
    requires TotalPreorder(le)
    requires |s| >= 2 && le(s[0], m) && IsMinimal(le, m, s[1..])
    ensures IsMinimal(le, s[0], s)
  {
    forall i | 0 <= i < |s| ensures le(s[0], s[i]) {
      if i > 0 {
        assert s[i] == s[1..][i - 1];
      }
    }
  }

  lemma {:induction false} LaterIsFirstMinimal<T(!new)>(le: (T, T) -> bool, s: seq<T>, k: nat)
    requires TotalPreorder(le)
    requires 1 <= k < |s| && !le(s[0], s[k])
    requires IsMinimal(le, s[k], s[1..])
    requires forall j :: 0 <= j < k - 1 ==> !IsMinimal(le, s[1..][j], s[1..])
    ensures IsMinimal(le, s[k], s)
    ensures forall j :: 0 <= j < k ==> !IsMinimal(le, s[j], s)
  {
    var rest := s[1..];
    forall i | 0 <= i < |s| ensures le(s[k], s[i]) {
      if i > 0 {
        assert s[i] == rest[i - 1];
      }
    }
    forall j | 0 <= j < k ensures !IsMinimal(le, s[j], s) {
      if j > 0 {
        assert s[j] == rest[j - 1];
        assert !IsMinimal(le, rest[j - 1], rest);
        var i :| 0 <= i < |rest| && !le(rest[j - 1], rest[i]);
        assert s[i + 1] == rest[i];
      }
    }
  }

  /** The first element of the sorted list is the earliest input element
      that is not after any other. */
  lemma {:induction false} SortHead<T(!new)>(le: (T, T) -> bool, s: seq<T>)
    requires TotalPreorder(le)
    requires s != []
    ensures exists k :: 0 <= k < |s| && Sort(le, s)[0] == s[k] && IsMinimal(le, s[k], s)
                        && forall j :: 0 <= j < k ==> !IsMinimal(le, s[j], s)
  {
    var rest := s[1..];
    var t := Sort(le, rest);
    assert Sort(le, s) == Insert(le, s[0], t);
    var k: nat;
    if rest == [] {
      k := 0;
      InsertHead(le, s[0], t);
      assert IsMinimal(le, s[0], s);
    } else {
      SortHead(le, rest);
      var k' :| 0 <= k' < |rest| && t[0] == rest[k'] && IsMinimal(le, rest[k'], rest)
                && forall j :: 0 <= j < k' ==> !IsMinimal(le, rest[j], rest);
      k := HeadAfterInsert(le, s, t, k');
    }
    assert k < |s| && Sort(le, s)[0] == s[k] && IsMinimal(le, s[k], s);
    assert forall j :: 0 <= j < k ==> !IsMinimal(le, s[j], s);
  }

  /** Inserting `s[0]` in front of a list that starts with the first minimal
      element of `s[1..]` starts the result with the first minimal element
      of `s`. */
  lemma {:induction false} HeadAfterInsert<T(!new)>(le: (T, T) -> bool, s: seq<T>, t: seq<T>, k': nat)
      returns (k: nat)
    requires TotalPreorder(le)
    requires |s| >= 2 && t != [] && k' < |s| - 1
    requires t[0] == s[1..][k'] && IsMinimal(le, s[1..][k'], s[1..])
    requires forall j :: 0 <= j < k' ==> !IsMinimal(le, s[1..][j], s[1..])
    ensures k < |s| && Insert(le, s[0], t)[0] == s[k] && IsMinimal(le, s[k], s)
    ensures forall j :: 0 <= j < k ==> !IsMinimal(le, s[j], s)
  {
    InsertHead(le, s[0], t);
    if le(s[0], t[0]) {
      k := 0;
      FrontIsMinimal(le, s, t[0]);
    } else {
      k := k' + 1;
      assert t[0] == s[k];
      LaterIsFirstMinimal(le, s, k);
    }
  }

  /** The front of an insertion: `x` unless it comes after the old front. */
  lemma InsertHead<T>(le: (T, T) -> bool, x: T, t: seq<T>)
    ensures Insert(le, x, t)[0] == if t == [] || le(x, t[0]) then x else t[0]
  {
  }
}
