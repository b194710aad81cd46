/** The edit distance behind the `$harness` typo hint. */
module EditDistance {
  import opened Wrappers
  import opened Sorting

  function Min(a: nat, b: nat): nat {
    if a <= b then a else b
  }

  function Init(s: string): string
    requires s != []
  {
    s[..|s| - 1]
  }

  function Last(s: string): char
    requires s != []
  {
    s[|s| - 1]
  }

  /** The distance by recursion on the ends of both words. */
  function Dist(left: string, right: string): nat
    decreases |left| + |right|
  {
    if left == [] then |right|
    else if right == [] then |left|
    else Min(Min(Dist(left, Init(right)) + 1, Dist(Init(left), right) + 1),
             Dist(Init(left), Init(right)) + if Last(left) != Last(right) then 1 else 0)
  }

  /** The first cells of the table row for `left`. */
  ghost predicate IsRow(row: seq<nat>, left: string, right: string) {
    |row| <= |right| + 1 && forall j :: 0 <= j < |row| ==> row[j] == Dist(left, right[..j])
  }

  lemma FirstRow(row: seq<nat>, right: string)
    requires |row| == |right| + 1 && forall j :: 0 <= j < |row| ==> row[j] == j
    ensures IsRow(row, [], right)
  {
  }

  lemma RowGrows(previous: seq<nat>, current: seq<nat>, left: string, right: string, i: nat, cell: nat)
    requires 0 < i <= |left| && 0 < |current| <= |right| && |previous| == |right| + 1
    requires IsRow(previous, left[..i - 1], right) && IsRow(current, left[..i], right)
    requires
      var j := |current|;
      cell == Min(Min(current[j - 1] + 1, previous[j] + 1), previous[j - 1] + if left[i - 1] != right[j - 1] then 1 else 0)
    ensures IsRow(current + [cell], left[..i], right)
  {
    var j := |current|;
    hide Dist;
    Cell(left, right, i, j);
    assert current[j - 1] == Dist(left[..i], right[..j - 1]);
    assert previous[j] == Dist(left[..i - 1], right[..j]) && previous[j - 1] == Dist(left[..i - 1], right[..j - 1]);
  }

  lemma Cell(left: string, right: string, i: nat, j: nat)
    requires 0 < i <= |left| && 0 < j <= |right|
    ensures Dist(left[..i], right[..j]) ==
      Min(Min(Dist(left[..i], right[..j - 1]) + 1, Dist(left[..i - 1], right[..j]) + 1),
          Dist(left[..i - 1], right[..j - 1]) + if left[i - 1] != right[j - 1] then 1 else 0)
  {
    hide Dist, Min;
    var l, r := left[..i], right[..j];
    assert Init(l) == left[..i - 1] && Init(r) == right[..j - 1];
    assert Last(l) == left[i - 1] && Last(r) == right[j - 1];
    hide Init, Last;
    DistStep(l, r);
  }

  lemma {:induction false} DistStep(left: string, right: string)
    requires left != [] && right != []
    ensures Dist(left, right) ==
      Min(Min(Dist(left, Init(right)) + 1, Dist(Init(left), right) + 1),
          Dist(Init(left), Init(right)) + if Last(left) != Last(right) then 1 else 0)
  {
    hide Min, Init, Last;
  }

  method Compute(left: string, right: string) returns (distance: nat)
    ensures distance == Dist(left, right)
  {
    hide Dist;
    var previous := new nat[|right| + 1](i => i);
    var leftIndex := 1;
    FirstRow(previous[..], right);
    assert left[..0] == [];
    while leftIndex <= |left|
      invariant 1 <= leftIndex <= |left| + 1
      invariant IsRow(previous[..], left[..leftIndex - 1], right)
    {
      var current: seq<nat> := [leftIndex];
      FirstCell(left[..leftIndex], right);
      var rightIndex := 1;
      while rightIndex <= |right|
        invariant 1 <= rightIndex == |current| <= |right| + 1
        invariant IsRow(current, left[..leftIndex], right)
        invariant IsRow(previous[..], left[..leftIndex - 1], right)
      {
        var cost := if left[leftIndex - 1] != right[rightIndex - 1] then 1 else 0;
        var cell := Min(Min(current[rightIndex - 1] + 1, previous[rightIndex] + 1), previous[rightIndex - 1] + cost);
        RowGrows(previous[..], current, left, right, leftIndex, cell);
        current := current + [cell];
        rightIndex := rightIndex + 1;
      }
      forall j | 0 <= j < previous.Length {
        previous[j] := current[j];
      }
      assert previous[..] == current;
      leftIndex := leftIndex + 1;
    }
    assert left[..|left|] == left && right[..|right|] == right;
    distance := previous[|right|];
    assert distance == previous[..][|right|];
  }

  lemma FirstCell(left: string, right: string)
    ensures IsRow([|left|], left, right)
  {
    assert right[..0] == [];
  }

  // ----- The least number of edits -----------------------------------------

  ghost predicate InsertsAt(a: string, b: string, i: int) {
    0 <= i <= |a| && |b| == |a| + 1 && b[..i] == a[..i] && b[i + 1..] == a[i..]
  }

  ghost predicate SubstitutesAt(a: string, b: string, i: int) {
    0 <= i < |a| == |b| && b[..i] == a[..i] && b[i + 1..] == a[i + 1..]
  }

  /** One character inserted, deleted or replaced, anywhere. */
  ghost predicate OneEdit(a: string, b: string) {
    exists i :: InsertsAt(a, b, i) || InsertsAt(b, a, i) || SubstitutesAt(a, b, i)
  }

  /** `n` edits turn `a` into `b`. */
  ghost predicate Edits(a: string, b: string, n: nat)
    decreases n
  {
    if n == 0 then a == b else exists mid :: OneEdit(a, mid) && Edits(mid, b, n - 1)
  }

  lemma OneEditEnds(a: string, b: string)
    requires OneEdit(a, b)
    ensures
      || (b != [] && a == Init(b))
      || (a != [] && b == Init(a))
      || (a != [] && b != [] && Init(a) == Init(b))
      || (a != [] && b != [] && Last(a) == Last(b) && OneEdit(Init(a), Init(b)))
  {
    var i :| InsertsAt(a, b, i) || InsertsAt(b, a, i) || SubstitutesAt(a, b, i);
    if InsertsAt(a, b, i) {
      InsertEnds(a, b, i);
    } else if InsertsAt(b, a, i) {
      InsertEnds(b, a, i);
    } else if i < |a| - 1 {
      assert a[i + 1..][|a| - i - 2] == b[i + 1..][|a| - i - 2];
      assert Init(b)[i + 1..] == b[i + 1..][..|b| - i - 2] && Init(a)[i + 1..] == a[i + 1..][..|a| - i - 2];
      assert Init(b)[..i] == b[..i] && Init(a)[..i] == a[..i];
      assert SubstitutesAt(Init(a), Init(b), i);
    }
  }

  lemma InsertEnds(a: string, b: string, i: int)
    requires InsertsAt(a, b, i)
    ensures a == Init(b) || (a != [] && Last(a) == Last(b) && InsertsAt(Init(a), Init(b), i))
  {
    if i == |a| {
      assert a == Init(b);
    } else {
      assert a[i..][|a| - i - 1] == b[i + 1..][|a| - i - 1];
      assert Init(b)[i + 1..] == b[i + 1..][..|b| - i - 2] && Init(a)[i..] == a[i..][..|a| - i - 1];
      assert Init(b)[..i] == b[..i] && Init(a)[..i] == a[..i];
    }
  }

  /** One edit moves a word by at most one, seen from anywhere. */
  lemma {:induction false} OneEditIsClose(a: string, mid: string, b: string)
    requires OneEdit(a, mid)
    ensures Dist(a, b) <= Dist(mid, b) + 1
    decreases |a| + |mid| + |b|
  {
    OneEditEnds(a, mid);
    if b != [] {
      OneEditIsClose(a, mid, Init(b));
      if a != [] && mid != [] && Last(a) == Last(mid) && OneEdit(Init(a), Init(mid)) {
        OneEditIsClose(Init(a), Init(mid), b);
        OneEditIsClose(Init(a), Init(mid), Init(b));
      }
    }
  }

  /** No sequence of edits is shorter than the distance. */
  lemma {:induction false} DistIsLeast(a: string, b: string, n: nat)
    requires Edits(a, b, n)
    ensures Dist(a, b) <= n
    decreases n
  {
    if n == 0 {
      SelfIsZero(a);
    } else {
      var mid :| OneEdit(a, mid) && Edits(mid, b, n - 1);
      DistIsLeast(mid, b, n - 1);
      OneEditIsClose(a, mid, b);
    }
  }

  lemma {:induction false} SelfIsZero(a: string)
    ensures Dist(a, a) == 0
  {
    if a != [] {
      SelfIsZero(Init(a));
    }
  }

  lemma OneEditAppend(a: string, b: string, c: char)
    requires OneEdit(a, b)
    ensures OneEdit(a + [c], b + [c])
  {
    var i :| InsertsAt(a, b, i) || InsertsAt(b, a, i) || SubstitutesAt(a, b, i);
    assert (a + [c])[..i] == a[..i] && (b + [c])[..i] == b[..i];
    if InsertsAt(a, b, i) {
      assert (b + [c])[i + 1..] == b[i + 1..] + [c] && (a + [c])[i..] == a[i..] + [c];
      assert InsertsAt(a + [c], b + [c], i);
    } else if InsertsAt(b, a, i) {
      assert (a + [c])[i + 1..] == a[i + 1..] + [c] && (b + [c])[i..] == b[i..] + [c];
      assert InsertsAt(b + [c], a + [c], i);
    } else {
      assert (a + [c])[i + 1..] == a[i + 1..] + [c] && (b + [c])[i + 1..] == b[i + 1..] + [c];
      assert SubstitutesAt(a + [c], b + [c], i);
    }
  }

  lemma {:induction false} EditsAppend(a: string, b: string, n: nat, c: char)
    requires Edits(a, b, n)
    ensures Edits(a + [c], b + [c], n)
    decreases n
  {
    if n > 0 {
      var mid :| OneEdit(a, mid) && Edits(mid, b, n - 1);
      EditsAppend(mid, b, n - 1, c);
      OneEditAppend(a, mid, c);
    }
  }

  lemma {:induction false} EditsThen(a: string, b: string, n: nat, c: string)
    requires Edits(a, b, n) && OneEdit(b, c)
    ensures Edits(a, c, n + 1)
    decreases n
  {
    if n > 0 {
      var mid :| OneEdit(a, mid) && Edits(mid, b, n - 1);
      EditsThen(mid, b, n - 1, c);
    } else {
      assert Edits(c, c, 0);
    }
  }

  lemma EndEdits(p: string, x: char, y: char)
    ensures OneEdit(p, p + [x]) && OneEdit(p + [x], p) && OneEdit(p + [x], p + [y])
  {
    assert InsertsAt(p, p + [x], |p|);
    assert SubstitutesAt(p + [x], p + [y], |p|);
  }

  lemma ViaInsert(a: string, q: string, y: char, n: nat)
    requires Edits(a, q, n)
    ensures Edits(a, q + [y], n + 1)
  {
    EndEdits(q, y, y);
    EditsThen(a, q, n, q + [y]);
  }

  lemma ViaDelete(p: string, x: char, b: string, n: nat)
    requires Edits(p, b, n)
    ensures Edits(p + [x], b, n + 1)
  {
    EndEdits(p, x, x);
  }

  lemma ViaLast(p: string, q: string, x: char, y: char, n: nat)
    requires Edits(p, q, n)
    ensures Edits(p + [x], q + [y], n + if x != y then 1 else 0)
  {
    EditsAppend(p, q, n, x);
    if x != y {
      EndEdits(q, x, y);
      EditsThen(p + [x], q + [x], n, q + [y]);
    }
  }

  lemma {:induction false} TypeOut(b: string)
    ensures Edits([], b, |b|) && Edits(b, [], |b|)
  {
    if b != [] {
      assert b == Init(b) + [Last(b)];
      TypeOut(Init(b));
      ViaInsert([], Init(b), Last(b), |b| - 1);
      ViaDelete(Init(b), Last(b), [], |b| - 1);
    }
  }

  lemma DistCases(p: string, q: string, x: char, y: char)
    ensures
      var n := Dist(p + [x], q + [y]);
      || n == Dist(p + [x], q) + 1
      || n == Dist(p, q + [y]) + 1
      || n == Dist(p, q) + if x != y then 1 else 0
  {
    assert Init(p + [x]) == p && Init(q + [y]) == q;
  }

  lemma EndsJoin(s: string)
    requires s != []
    ensures s == Init(s) + [Last(s)] && |Init(s)| == |s| - 1
  {
  }

  lemma LastIsReached(p: string, q: string, x: char, y: char)
    requires Edits(p + [x], q, Dist(p + [x], q)) && Edits(p, q + [y], Dist(p, q + [y])) && Edits(p, q, Dist(p, q))
    ensures Edits(p + [x], q + [y], Dist(p + [x], q + [y]))
  {
    DistCases(p, q, x, y);
    hide *;
    if Dist(p + [x], q + [y]) == Dist(p + [x], q) + 1 {
      ViaInsert(p + [x], q, y, Dist(p + [x], q));
    } else if Dist(p + [x], q + [y]) == Dist(p, q + [y]) + 1 {
      ViaDelete(p, x, q + [y], Dist(p, q + [y]));
    } else {
      ViaLast(p, q, x, y, Dist(p, q));
    }
  }

  lemma EmptyIsTyped(a: string, b: string)
    requires a == [] || b == []
    ensures Edits(a, b, Dist(a, b))
  {
    assert Dist(a, b) == |a| + |b|;
    hide *;
    if a == [] {
      TypeOut(b);
    } else {
      TypeOut(a);
    }
  }

  /** So many edits do turn one word into the other. */
  lemma {:induction false} DistIsReached(a: string, b: string)
    ensures Edits(a, b, Dist(a, b))
    decreases |a| + |b|
  {
    if a == [] || b == [] {
      EmptyIsTyped(a, b);
    } else {
      hide *;
      EndsJoin(a);
      EndsJoin(b);
      DistIsReached(a, Init(b));
      DistIsReached(Init(a), b);
      DistIsReached(Init(a), Init(b));
      LastIsReached(Init(a), Init(b), Last(a), Last(b));
    }
  }

  lemma {:induction false} DistIsSymmetric(a: string, b: string)
    ensures Dist(a, b) == Dist(b, a)
    decreases |a| + |b|
  {
    if a != [] && b != [] {
      DistIsSymmetric(a, Init(b));
      DistIsSymmetric(Init(a), b);
      DistIsSymmetric(Init(a), Init(b));
    }
  }

  lemma {:induction false} ChainIsClose(a: string, b: string, n: nat, c: string)
    requires Edits(a, b, n)
    ensures Dist(a, c) <= n + Dist(b, c)
    decreases n
  {
    if n > 0 {
      var mid :| OneEdit(a, mid) && Edits(mid, b, n - 1);
      ChainIsClose(mid, b, n - 1, c);
      OneEditIsClose(a, mid, c);
    }
  }

  lemma {:induction false} TriangleInequality(a: string, b: string, c: string)
    ensures Dist(a, c) <= Dist(a, b) + Dist(b, c)
  {
    DistIsReached(a, b);
    ChainIsClose(a, b, Dist(a, b), c);
  }

  lemma {:induction false} ZeroMeansEqual(a: string, b: string)
    ensures Dist(a, b) == 0 <==> a == b
  {
    SelfIsZero(a);
    DistIsReached(a, b);
  }

  // ----- The typo hint -----------------------------------------------------

  datatype Ranked = Ranked(harnessId: string, distance: nat)

  function Threshold(token: string): nat {
    if (|token| + 2) / 3 > 1 then (|token| + 2) / 3 else 1
  }

  /** `x` is strictly closer than all the others, and close enough. */
  ghost predicate IsClosest(ranks: multiset<Ranked>, x: Ranked, limit: nat) {
    && x in ranks && x.distance <= limit
    && forall y :: y in ranks - multiset{x} ==> x.distance < y.distance
  }

  function ByDistance(locale: (string, string) -> bool): (Ranked, Ranked) -> bool {
    (a: Ranked, b: Ranked) => a.distance < b.distance || (a.distance == b.distance && locale(a.harnessId, b.harnessId))
  }

  function RankOf(token: string, lower: string -> string, harnessId: string): Ranked {
    Ranked(harnessId, Dist(token, lower(harnessId)))
  }

  function Ranks(token: string, lower: string -> string, harnessIds: seq<string>): seq<Ranked> {
    seq(|harnessIds|, i requires 0 <= i < |harnessIds| => RankOf(token, lower, harnessIds[i]))
  }

  /**
   * The one installed id strictly closer than every other, if it is close enough.
   * `lower` and `locale` stand for the platform's case folding and collation.
   */
  method ClosestHarnessShortcut(requested: string, harnessIds: seq<string>,
                                lower: string -> string, locale: (string, string) -> bool)
    returns (closest: Option<string>)
    requires TotalPreorder(locale)
    ensures
      var ranks := multiset(Ranks(lower(requested), lower, harnessIds));
      match closest
      case Some(id) => exists x :: IsClosest(ranks, x, Threshold(lower(requested))) && x.harnessId == id
      case None => forall x :: !IsClosest(ranks, x, Threshold(lower(requested)))
  {
    hide Dist;
    var token := lower(requested);
    var list: seq<Ranked> := [];
    for i := 0 to |harnessIds|
      invariant list == Ranks(token, lower, harnessIds)[..i]
    {
      var distance := Compute(token, lower(harnessIds[i]));
      list := list + [Ranked(harnessIds[i], distance)];
    }
    assert list == Ranks(token, lower, harnessIds);
    var ranked := Sort(ByDistance(locale), list);
    ByDistanceIsTotal(locale);
    SortSorts(ByDistance(locale), list);
    if ranked == [] || ranked[0].distance > Threshold(token) || (|ranked| > 1 && ranked[1].distance == ranked[0].distance) {
      NoHint(locale, ranked, Threshold(token));
      return None;
    }
    Hint(locale, ranked, Threshold(token));
    closest := Some(ranked[0].harnessId);
  }

  lemma ByDistanceIsTotal(locale: (string, string) -> bool)
    requires TotalPreorder(locale)
    ensures TotalPreorder(ByDistance(locale))
  {
    var le := ByDistance(locale);
    forall x: Ranked, y: Ranked
      ensures le(x, y) || le(y, x)
    {
      assert locale(x.harnessId, y.harnessId) || locale(y.harnessId, x.harnessId);
    }
    forall x: Ranked, y: Ranked, z: Ranked | le(x, y) && le(y, z)
      ensures le(x, z)
    {
      assert locale(x.harnessId, y.harnessId) && locale(y.harnessId, z.harnessId) ==> locale(x.harnessId, z.harnessId);
    }
  }

  lemma HeadApart(ranked: seq<Ranked>)
    requires ranked != []
    ensures multiset(ranked) - multiset{ranked[0]} == multiset(ranked[1..])
  {
    assert ranked == [ranked[0]] + ranked[1..];
  }

  /** A head with a farther successor, or none, is the strict minimum. */
  lemma Hint(locale: (string, string) -> bool, ranked: seq<Ranked>, limit: nat)
    requires Sorted(ByDistance(locale), ranked)
    requires ranked != [] && ranked[0].distance <= limit
    requires |ranked| > 1 ==> ranked[1].distance != ranked[0].distance
    ensures IsClosest(multiset(ranked), ranked[0], limit)
  {
    HeadApart(ranked);
    assert ranked[0] in ranked;
    forall y | y in multiset(ranked[1..])
      ensures ranked[0].distance < y.distance
    {
      var k :| 0 <= k < |ranked[1..]| && ranked[1..][k] == y;
      assert ByDistance(locale)(ranked[0], ranked[1]);
      assert k > 0 ==> ByDistance(locale)(ranked[1], ranked[k + 1]);
    }
  }

  lemma NoHint(locale: (string, string) -> bool, ranked: seq<Ranked>, limit: nat)
    requires Sorted(ByDistance(locale), ranked)
    requires ranked == [] || ranked[0].distance > limit || (|ranked| > 1 && ranked[1].distance == ranked[0].distance)
    ensures forall x :: !IsClosest(multiset(ranked), x, limit)
  {
    forall x: Ranked
      ensures !IsClosest(multiset(ranked), x, limit)
    {
      if x in multiset(ranked) {
        HeadApart(ranked);
        var k :| 0 <= k < |ranked| && ranked[k] == x;
        if x != ranked[0] {
          assert ByDistance(locale)(ranked[0], ranked[k]);
          assert ranked[0] in multiset(ranked) - multiset{x};
        } else if |ranked| > 1 {
          assert ranked[1] in ranked[1..];
        }
      }
    }
  }

  /** The distance allowed is a third of the length, rounded up, and at least one. */
  lemma ThresholdIsThird(token: string)
    ensures Threshold(token) >= 1 && 3 * Threshold(token) >= |token|
    ensures Threshold(token) > 1 ==> 3 * (Threshold(token) - 1) < |token|
  {
  }
}
