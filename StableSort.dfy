/** A stable sort over a comparison `le`, the way Python's `list.sort` and `sorted`
    order a list by a key: elements the order cannot tell apart keep their input order.
    It is written as an insertion sort; only its observable result matters. */
module StableSort {

  /** `le` orders every pair, possibly with ties. */
  ghost predicate Total<T(!new)>(le: (T, T) -> bool)
  {
    forall a, b :: le(a, b) || le(b, a)
  }

  ghost predicate Transitive<T(!new)>(le: (T, T) -> bool)
  {
    forall a, b, c :: le(a, b) && le(b, c) ==> le(a, c)
  }

  /** `le` is total and transitive. */
  ghost predicate TotalPreorder<T(!new)>(le: (T, T) -> bool)
  {
    Total(le) && Transitive(le)
  }

  /** `le` leaves no ties between distinct elements. */
  ghost predicate Antisymmetric<T(!new)>(le: (T, T) -> bool)
  {
    forall a, b :: le(a, b) && le(b, a) ==> a == b
  }

  ghost predicate SortedBy<T>(s: seq<T>, le: (T, T) -> bool)
  {
    forall i, j :: 0 <= i < j < |s| ==> le(s[i], s[j])
  }

  /** Inserts `x` before the first element that is not below it, that is, in front of
      every element tied with it. */
  function InsertBy<T>(x: T, s: seq<T>, le: (T, T) -> bool): (r: seq<T>)
    ensures multiset(r) == multiset(s) + multiset{x}
    ensures |r| == |s| + 1
  {
    if s == [] || le(x, s[0]) then [x] + s
    else
      assert s == [s[0]] + s[1..];
      [s[0]] + InsertBy(x, s[1..], le)
  }

  /** The input sorted by `le`, ties in input order. */
  function SortBy<T>(s: seq<T>, le: (T, T) -> bool): (r: seq<T>)
    ensures multiset(r) == multiset(s)
    ensures |r| == |s|
  {
    if s == [] then []
    else
      assert s == [s[0]] + s[1..];
      InsertBy(s[0], SortBy(s[1..], le), le)
  }

  /** The elements of `s` tied with `t`, in the order they appear in `s`. */
  function TiedWith<T>(s: seq<T>, t: T, le: (T, T) -> bool): seq<T>
  {
    if s == [] then []
    else Tie(s[0], t, le) + TiedWith(s[1..], t, le)
  }

  lemma {:induction false} InsertBySorted<T(!new)>(x: T, s: seq<T>, le: (T, T) -> bool)
    requires TotalPreorder(le)
    requires SortedBy(s, le)
    ensures SortedBy(InsertBy(x, s, le), le)
  {
    if s == [] || le(x, s[0]) {
    } else {
      var tail := InsertBy(x, s[1..], le);
      InsertBySorted(x, s[1..], le);
      assert le(s[0], x);
      forall y | y in tail ensures le(s[0], y) {
        assert y in multiset(tail);
        if y != x {
          assert y in s[1..];
        }
      }
      assert [s[0]] + tail == InsertBy(x, s, le);
      forall i, j | 0 <= i < j < |[s[0]] + tail|
        ensures le(([s[0]] + tail)[i], ([s[0]] + tail)[j])
      {
        if i == 0 {
          assert tail[j - 1] in tail;
        }
      }
    }
  }

  /** The result is in ascending order. */
  lemma {:induction false} SortBySorted<T(!new)>(s: seq<T>, le: (T, T) -> bool)
    requires TotalPreorder(le)
    ensures SortedBy(SortBy(s, le), le)
  {
    if s != [] {
      SortBySorted(s[1..], le);
      InsertBySorted(s[0], SortBy(s[1..], le), le);
    }
  }

  lemma TiedWithCons<T>(y: T, s: seq<T>, t: T, le: (T, T) -> bool)
    ensures TiedWith([y] + s, t, le) == Tie(y, t, le) + TiedWith(s, t, le)
  {
    assert ([y] + s)[1..] == s;
  }

  function Tie<T>(y: T, t: T, le: (T, T) -> bool): seq<T>
  {
    if le(y, t) && le(t, y) then [y] else []
  }

  /** Two adjacent tie prefixes commute when at most one of them is non-empty. */
  lemma SwapTies<T>(t0: seq<T>, tx: seq<T>, rest: seq<T>)
    requires t0 == [] || tx == []
    ensures t0 + (tx + rest) == tx + (t0 + rest)
  {
    if t0 == [] {
      assert t0 + (tx + rest) == tx + rest;
    } else {
      assert tx + (t0 + rest) == t0 + rest;
    }
  }

  lemma {:induction false} InsertByStable<T(!new)>(x: T, s: seq<T>, t: T, le: (T, T) -> bool)
    requires Transitive(le)
    ensures TiedWith(InsertBy(x, s, le), t, le) == Tie(x, t, le) + TiedWith(s, t, le)
  {
    if s == [] || le(x, s[0]) {
      TiedWithCons(x, s, t, le);
    } else {
      var tail := InsertBy(x, s[1..], le);
      assert InsertBy(x, s, le) == [s[0]] + tail;
      InsertByStable(x, s[1..], t, le);
      TiedWithCons(s[0], tail, t, le);
      TiedWithCons(s[0], s[1..], t, le);
      assert s == [s[0]] + s[1..];
      // s[0] is strictly below x, so s[0] and x are not both tied with t
      assert !(le(x, t) && le(t, s[0]));
      SwapTies(Tie(s[0], t, le), Tie(x, t, le), TiedWith(s[1..], t, le));
    }
  }

  /** Stability: for every tie class, the sorted output lists its members
      in exactly the order of the input. */
  lemma {:induction false} SortByStable<T(!new)>(s: seq<T>, t: T, le: (T, T) -> bool)
    requires Transitive(le)
    ensures TiedWith(SortBy(s, le), t, le) == TiedWith(s, t, le)
  {
    if s != [] {
      SortByStable(s[1..], t, le);
      InsertByStable(s[0], SortBy(s[1..], le), t, le);
    }
  }

  lemma SortedTail<T>(s: seq<T>, le: (T, T) -> bool)
    requires s != [] && SortedBy(s, le)
    ensures SortedBy(s[1..], le)
  {
    forall i, j | 0 <= i < j < |s[1..]| ensures le(s[1..][i], s[1..][j]) {
      assert s[1..][i] == s[i + 1] && s[1..][j] == s[j + 1];
    }
  }

  /** Two sorted arrangements of one multiset begin with the same element. */
  lemma SortedHeadsAgree<T(!new)>(a: seq<T>, b: seq<T>, le: (T, T) -> bool)
    requires Antisymmetric(le)
    requires SortedBy(a, le) && SortedBy(b, le)
    requires multiset(a) == multiset(b) && a != []
    ensures b != [] && a[0] == b[0]
  {
    assert a[0] in multiset(b);
    assert b != [];
    assert b[0] in multiset(a);
    var i :| 0 <= i < |b| && b[i] == a[0];
    var j :| 0 <= j < |a| && a[j] == b[0];
    if i != 0 && j != 0 {
      assert le(b[0], b[i]) && le(a[0], a[j]);
    }
  }

  lemma SameTails<T>(a: seq<T>, b: seq<T>)
    requires a != [] && b != [] && a[0] == b[0]
    requires multiset(a) == multiset(b)
    ensures multiset(a[1..]) == multiset(b[1..])
  {
    assert a == [a[0]] + a[1..];
    assert b == [b[0]] + b[1..];
    calc {
      multiset(a[1..]);
      multiset(a) - multiset{a[0]};
      multiset(b) - multiset{b[0]};
      multiset(b[1..]);
    }
  }

  /** Under an order without ties, a sorted arrangement of a multiset is unique. */
  lemma {:induction false} SortedUnique<T(!new)>(a: seq<T>, b: seq<T>, le: (T, T) -> bool)
    requires Antisymmetric(le)
    requires SortedBy(a, le) && SortedBy(b, le)
    requires multiset(a) == multiset(b)
    ensures a == b
  {
    if a == [] {
      assert |multiset(b)| == 0;
    } else {
      SortedHeadsAgree(a, b, le);
      SameTails(a, b);
      SortedTail(a, le);
      SortedTail(b, le);
      SortedUnique(a[1..], b[1..], le);
      assert a == [a[0]] + a[1..];
      assert b == [b[0]] + b[1..];
    }
  }

  /** Under an order without ties, the sort depends only on the multiset of its input:
      permuting the input does not change the output. */
  lemma SortByCanonical<T(!new)>(a: seq<T>, b: seq<T>, le: (T, T) -> bool)
    requires TotalPreorder(le) && Antisymmetric(le)
    requires multiset(a) == multiset(b)
    ensures SortBy(a, le) == SortBy(b, le)
  {
    SortBySorted(a, le);
    SortBySorted(b, le);
    SortedUnique(SortBy(a, le), SortBy(b, le), le);
  }
}
