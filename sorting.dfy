/** Python's `sorted` applied to a set of distinct keys under a strict total
    order: the strictly increasing sequence of the set's elements, which is
    unique (`SortedSeqUnique`). */
module Sorting {

  /** `order` visits every element of `s` exactly once: the order in which a
      loop over a Python set or dict meets its keys. */
  ghost predicate Enumerates<T>(order: seq<T>, s: set<T>) {
    && |order| == |s|
    && (forall i, j | 0 <= i < j < |order| :: order[i] != order[j])
    && (forall x | x in s :: x in order)
    && (forall i | 0 <= i < |order| :: order[i] in s)
  }

  /** Visiting one more element extends an enumeration. */
  lemma EnumeratesExtend<T>(order: seq<T>, s: set<T>, x: T)
    requires Enumerates(order, s) && x !in s
    ensures Enumerates(order + [x], s + {x})
  {
    assert forall i | 0 <= i < |order| :: (order + [x])[i] == order[i];
  }

  /** The keys of a Python 2 dict in its iteration order (`d.keys()`,
      `d.items()`): some enumeration of the key set, fixed by the hash table
      and not by the program. */
  method Enumerate<T>(s: set<T>) returns (order: seq<T>)
    ensures Enumerates(order, s)
  {
    order := [];
    var todo := s;
    while todo != {}
      invariant todo <= s
      invariant Enumerates(order, s - todo)
      decreases todo
    {
      var x :| x in todo;
      EnumeratesExtend(order, s - todo, x);
      assert s - todo + {x} == s - (todo - {x});
      order := order + [x];
      todo := todo - {x};
    }
    assert s - todo == s;
  }

  /** The prefix of length `i + 1` extends the prefix of length `i`. */
  lemma PrefixStep<T>(s: seq<T>, i: nat)
    requires i < |s|
    ensures s[..i + 1] == s[..i] + [s[i]]
  {
  }

  /** `lt` is a strict total order on the elements of `s`. */
  ghost predicate StrictTotalOn<T>(lt: (T, T) -> bool, s: set<T>) {
    && (forall a | a in s :: !lt(a, a))
    && (forall a, b, c | a in s && b in s && c in s :: lt(a, b) && lt(b, c) ==> lt(a, c))
    && (forall a, b | a in s && b in s :: a == b || lt(a, b) || lt(b, a))
  }

  ghost predicate StrictlyIncreasing<T>(r: seq<T>, lt: (T, T) -> bool) {
    forall i, j | 0 <= i < j < |r| :: lt(r[i], r[j])
  }

  /** `m` is the least element of `s`. */
  ghost predicate IsMin<T>(m: T, s: set<T>, lt: (T, T) -> bool) {
    m in s && forall x | x in s && x != m :: lt(m, x)
  }

  lemma {:induction false} MinExists<T>(s: set<T>, lt: (T, T) -> bool)
    requires s != {} && StrictTotalOn(lt, s)
    ensures exists m :: IsMin(m, s, lt)
    decreases |s|
  {
    var x :| x in s;
    if s == {x} {
      assert IsMin(x, s, lt);
    } else {
      var rest := s - {x};
      MinExists(rest, lt);
      var m :| IsMin(m, rest, lt);
      if lt(x, m) {
        assert IsMin(x, s, lt);
      } else {
        assert IsMin(m, s, lt);
      }
    }
  }

  lemma MinUnique<T>(m1: T, m2: T, s: set<T>, lt: (T, T) -> bool)
    requires StrictTotalOn(lt, s)
    requires IsMin(m1, s, lt) && IsMin(m2, s, lt)
    ensures m1 == m2
  {
  }

  ghost function Min<T>(s: set<T>, lt: (T, T) -> bool): (m: T)
    requires s != {} && StrictTotalOn(lt, s)
    ensures IsMin(m, s, lt)
  {
    MinExists(s, lt);
    var m :| IsMin(m, s, lt); m
  }

  /** `sorted(s)`. */
  ghost function SortedSeq<T>(s: set<T>, lt: (T, T) -> bool): (r: seq<T>)
    requires StrictTotalOn(lt, s)
    ensures |r| == |s|
    ensures forall x | x in s :: x in r
    ensures forall i | 0 <= i < |r| :: r[i] in s
    ensures StrictlyIncreasing(r, lt)
    decreases |s|
  {
    if s == {} then []
    else
      var m := Min(s, lt);
      var tail := SortedSeq(s - {m}, lt);
      assert forall j | 0 <= j < |tail| :: lt(m, tail[j]);
      [m] + tail
  }

  /** The sorted sequence starts with the least element, followed by the
      sorted rest. */
  lemma SortedSeqHead<T>(s: set<T>, lt: (T, T) -> bool, m: T)
    requires StrictTotalOn(lt, s) && IsMin(m, s, lt)
    ensures StrictTotalOn(lt, s - {m})
    ensures SortedSeq(s, lt) == [m] + SortedSeq(s - {m}, lt)
  {
    MinUnique(m, Min(s, lt), s, lt);
  }

  /** `r` holds exactly the elements of `s`. */
  ghost predicate Lists<T>(r: seq<T>, s: set<T>) {
    && (forall x | x in s :: x in r)
    && (forall i | 0 <= i < |r| :: r[i] in s)
  }

  /** The strictly increasing sequence of a set is unique: a sequence that
      holds exactly the elements of `s`, in strictly increasing order, is
      `SortedSeq(s, lt)`. */
  lemma {:induction false} SortedSeqUnique<T>(s: set<T>, lt: (T, T) -> bool, r: seq<T>)
    requires StrictTotalOn(lt, s)
    requires Lists(r, s) && StrictlyIncreasing(r, lt)
    ensures r == SortedSeq(s, lt)
    decreases |r|
  {
    if r != [] {
      var m := r[0];
      HeadIsMin(s, lt, r);
      SortedSeqHead(s, lt, m);
      TailLists(s, lt, r);
      SortedSeqUnique(s - {m}, lt, r[1..]);
      assert r == [m] + r[1..];
    }
  }

  lemma HeadIsMin<T>(s: set<T>, lt: (T, T) -> bool, r: seq<T>)
    requires Lists(r, s) && StrictlyIncreasing(r, lt) && r != []
    ensures IsMin(r[0], s, lt)
  {
    forall x | x in s && x != r[0] ensures lt(r[0], x) {
      var i :| 0 <= i < |r| && r[i] == x;
    }
  }

  lemma TailLists<T>(s: set<T>, lt: (T, T) -> bool, r: seq<T>)
    requires StrictTotalOn(lt, s)
    requires Lists(r, s) && StrictlyIncreasing(r, lt) && r != []
    ensures Lists(r[1..], s - {r[0]}) && StrictlyIncreasing(r[1..], lt)
  {
    var m, tail := r[0], r[1..];
    forall x | x in s - {m} ensures x in tail {
      var i :| 0 <= i < |r| && r[i] == x;
      assert tail[i - 1] == x;
    }
    forall i | 0 <= i < |tail| ensures tail[i] != m {
      assert lt(m, r[i + 1]);
    }
  }

  /** Finds the least element of a non-empty set by one pass over it. */
  method FindMin<T>(s: set<T>, lt: (T, T) -> bool) returns (m: T)
    requires s != {} && StrictTotalOn(lt, s)
    ensures IsMin(m, s, lt)
  {
    m :| m in s;
    var todo := s - {m};
    while todo != {}
      invariant todo <= s && m in s && m !in todo
      invariant forall x | x in s - todo && x != m :: lt(m, x)
      decreases todo
    {
      var x :| x in todo;
      if lt(x, m) {
        m := x;
      }
      todo := todo - {x};
    }
  }

  /** `sorted(s)` by repeated extraction of the least remaining element. */
  method SortSet<T>(s: set<T>, lt: (T, T) -> bool) returns (r: seq<T>)
    requires StrictTotalOn(lt, s)
    ensures r == SortedSeq(s, lt)
  {
    r := [];
    var rest := s;
    while rest != {}
      invariant StrictTotalOn(lt, rest)
      invariant r + SortedSeq(rest, lt) == SortedSeq(s, lt)
      decreases rest
    {
      r, rest := ExtractMin(r, rest, lt);
    }
  }

  /** One step of `SortSet`: moves the least element of `rest` to the end of
      `r`. */
  method ExtractMin<T>(r: seq<T>, rest: set<T>, lt: (T, T) -> bool) returns (r': seq<T>, rest': set<T>)
    requires rest != {} && StrictTotalOn(lt, rest)
    ensures rest' < rest && StrictTotalOn(lt, rest')
    ensures r' + SortedSeq(rest', lt) == r + SortedSeq(rest, lt)
  {
    var m := FindMin(rest, lt);
    SortedSeqHead(rest, lt, m);
    r' := r + [m];
    rest' := rest - {m};
  }
}
