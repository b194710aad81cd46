/** A stable sort: what `Array.prototype.sort` does with a consistent comparison. */
module Sorting {

  /** `le(a, b)` says that `a` need not move behind `b`. */
  ghost predicate TotalPreorder<T(!new)>(le: (T, T) -> bool) {
    && (forall x, y :: le(x, y) || le(y, x))
    && (forall x, y, z :: le(x, y) && le(y, z) ==> le(x, z))
  }

  function Insert<T>(le: (T, T) -> bool, x: T, sorted: seq<T>): (r: seq<T>)
    ensures multiset(r) == multiset{x} + multiset(sorted)
  {
    if sorted == [] then [x]
    else if le(x, sorted[0]) then [x] + sorted
    else
      assert sorted == [sorted[0]] + sorted[1..];
      [sorted[0]] + Insert(le, x, sorted[1..])
  }

  function Sort<T>(le: (T, T) -> bool, s: seq<T>): (r: seq<T>)
    ensures multiset(r) == multiset(s)
    ensures |r| == |s|
  {
    if s == [] then []
    else
      assert s == [s[0]] + s[1..];
      SizeFromMultiset(Insert(le, s[0], Sort(le, s[1..])), s);
      Insert(le, s[0], Sort(le, s[1..]))
  }

  lemma SizeFromMultiset<T>(a: seq<T>, b: seq<T>)
    requires multiset(a) == multiset(b)
    ensures |a| == |b|
  {
    assert |multiset(a)| == |a| && |multiset(b)| == |b|;
  }

  ghost predicate Sorted<T(!new)>(le: (T, T) -> bool, s: seq<T>) {
    forall i, j :: 0 <= i < j < |s| ==> le(s[i], s[j])
  }

  lemma {:induction false} InsertSorts<T(!new)>(le: (T, T) -> bool, x: T, sorted: seq<T>)
    requires TotalPreorder(le) && Sorted(le, sorted)
    ensures Sorted(le, Insert(le, x, sorted))
  {
    if sorted != [] && !le(x, sorted[0]) {
      InsertSorts(le, x, sorted[1..]);
      var rest := Insert(le, x, sorted[1..]);
      forall j | 0 <= j < |rest|
        ensures le(sorted[0], rest[j])
      {
        assert rest[j] in multiset(rest);
        if rest[j] != x {
          assert rest[j] in multiset(sorted[1..]);
        }
      }
    }
  }

  lemma {:induction false} SortSorts<T(!new)>(le: (T, T) -> bool, s: seq<T>)
    requires TotalPreorder(le)
    ensures Sorted(le, Sort(le, s))
  {
    if s != [] {
      SortSorts(le, s[1..]);
      InsertSorts(le, s[0], Sort(le, s[1..]));
    }
  }

  // ----- Ties --------------------------------------------------------------

  predicate IsTie<T(!new)>(le: (T, T) -> bool, a: T, b: T) {
    le(a, b) && le(b, a)
  }

  /** The elements that tie with `c`, in order. */
  function Ties<T(!new)>(le: (T, T) -> bool, c: T, s: seq<T>): seq<T> {
    if s == [] then [] else (if IsTie(le, s[0], c) then [s[0]] else []) + Ties(le, c, s[1..])
  }

  lemma TiesCons<T(!new)>(le: (T, T) -> bool, c: T, first: T, rest: seq<T>)
    ensures Ties(le, c, [first] + rest) == (if IsTie(le, first, c) then [first] else []) + Ties(le, c, rest)
  {
    assert ([first] + rest)[1..] == rest;
  }

  lemma TiesSwap<T(!new)>(le: (T, T) -> bool, c: T, first: T, x: T, rest: seq<T>)
    requires TotalPreorder(le) && !le(x, first)
    ensures Ties(le, c, [first] + ([x] + rest)) == Ties(le, c, [x] + ([first] + rest))
  {
    // The two do not both tie with `c`.
    assert !IsTie(le, x, c) || !IsTie(le, first, c);
    hide *;
    TiesCons(le, c, first, [x] + rest);
    TiesCons(le, c, x, rest);
    TiesCons(le, c, x, [first] + rest);
    TiesCons(le, c, first, rest);
  }

  lemma {:induction false} InsertKeepsTies<T(!new)>(le: (T, T) -> bool, x: T, sorted: seq<T>, c: T)
    requires TotalPreorder(le)
    ensures Ties(le, c, Insert(le, x, sorted)) == Ties(le, c, [x] + sorted)
  {
    if sorted != [] && !le(x, sorted[0]) {
      var first, rest := sorted[0], sorted[1..];
      InsertKeepsTies(le, x, rest, c);
      assert Insert(le, x, sorted) == [first] + Insert(le, x, rest);
      assert sorted == [first] + rest;
      hide *;
      TiesCons(le, c, first, Insert(le, x, rest));
      TiesCons(le, c, first, [x] + rest);
      TiesSwap(le, c, first, x, rest);
    } else {
      assert Insert(le, x, sorted) == [x] + sorted;
    }
  }

  /** Elements that tie stay in the order they had. */
  lemma {:induction false} SortIsStable<T(!new)>(le: (T, T) -> bool, s: seq<T>, c: T)
    requires TotalPreorder(le)
    ensures Ties(le, c, Sort(le, s)) == Ties(le, c, s)
  {
    if s != [] {
      SortIsStable(le, s[1..], c);
      InsertKeepsTies(le, s[0], Sort(le, s[1..]), c);
      assert ([s[0]] + Sort(le, s[1..]))[1..] == Sort(le, s[1..]);
    }
  }
}
