/**
 * What the page reports and what the background worker makes of it: when the
 * list of sensitive regions covers what the page shows.
 */
module MirrorPage {
  import opened Wrappers

  datatype Bounds = Bounds(x: int, y: int, width: int, height: int)

  /** An element or text region of a page snapshot. */
  datatype Region = Region(id: string, bounds: Bounds, sensitive: bool)

  datatype Response = Response(ok: bool, removedIds: seq<string>, elements: seq<Region>, regions: seq<Region>)

  // ----- Reading one answer ------------------------------------------------

  /** Everything an answer mentions, in the order it is read. */
  function Mentions(r: Response): seq<Region> {
    r.elements + r.regions
  }

  function Noted(sensitive: map<string, Bounds>, region: Region): map<string, Bounds> {
    if region.sensitive then sensitive[region.id := region.bounds] else sensitive - {region.id}
  }

  function NotedAll(sensitive: map<string, Bounds>, regions: seq<Region>): map<string, Bounds> {
    if regions == [] then sensitive
    else Noted(NotedAll(sensitive, regions[..|regions| - 1]), regions[|regions| - 1])
  }

  function ToSet(ids: seq<string>): set<string> {
    set id | id in ids
  }

  /** The sensitive regions once a page response was read. */
  function Absorbed(sensitive: map<string, Bounds>, delta: bool, r: Response): map<string, Bounds> {
    NotedAll((if delta then sensitive else map[]) - ToSet(r.removedIds), Mentions(r))
  }

  /** What the regions last say about `id`. */
  function LastMention(regions: seq<Region>, id: string): (last: Option<Region>)
    ensures last.Some? ==> last.value in regions && last.value.id == id
    ensures last.None? ==> forall m :: m in regions ==> m.id != id
  {
    if regions == [] then None
    else
      var n := |regions| - 1;
      assert regions == regions[..n] + [regions[n]];
      if regions[n].id == id then Some(regions[n]) else LastMention(regions[..n], id)
  }

  lemma {:induction false} NotedLast(sensitive: map<string, Bounds>, regions: seq<Region>, id: string)
    ensures
      var after := NotedAll(sensitive, regions);
      match LastMention(regions, id)
      case Some(region) => (id in after <==> region.sensitive) && (id in after ==> after[id] == region.bounds)
      case None => (id in after <==> id in sensitive) && (id in after ==> after[id] == sensitive[id])
  {
    if regions != [] {
      NotedLast(sensitive, regions[..|regions| - 1], id);
    }
  }

  /** The bounds of every sensitive mention. */
  function Reported(r: Response): set<Bounds> {
    set m | m in Mentions(r) && m.sensitive :: m.bounds
  }

  /** No id that is mentioned as sensitive is mentioned again as plain, at the end. */
  predicate Lasting(r: Response) {
    forall m :: m in Mentions(r) && m.sensitive ==> LastMention(Mentions(r), m.id).value.sensitive
  }

  /** The same, and the last mention has the same bounds. */
  predicate Steady(r: Response) {
    forall m :: m in Mentions(r) && m.sensitive ==>
      var last := LastMention(Mentions(r), m.id).value;
      last.sensitive && last.bounds == m.bounds
  }

  predicate Holds(held: map<string, Bounds>, id: string, bounds: Bounds) {
    id in held && held[id] == bounds
  }

  /** Every id reported as sensitive is kept if and only if none is mentioned as plain at the end; likewise with its bounds. */
  lemma ReportedIsCovered(held: map<string, Bounds>, delta: bool, r: Response)
    ensures
      var after := Absorbed(held, delta, r);
      && (Lasting(r) <==> forall m :: m in Mentions(r) && m.sensitive ==> m.id in after)
      && (Steady(r) <==> forall m :: m in Mentions(r) && m.sensitive ==> Holds(after, m.id, m.bounds))
      && (Steady(r) ==> Reported(r) <= after.Values)
  {
    var after := Absorbed(held, delta, r);
    var before := (if delta then held else map[]) - ToSet(r.removedIds);
    assert after == NotedAll(before, Mentions(r));
    forall m | m in Mentions(r) && m.sensitive
      ensures m.id in after <==> LastMention(Mentions(r), m.id).value.sensitive
      ensures m.id in after ==> after[m.id] == LastMention(Mentions(r), m.id).value.bounds
    {
      NotedLast(before, Mentions(r), m.id);
    }
    hide Absorbed, NotedAll, LastMention, Mentions;
    if Steady(r) {
      forall bounds | bounds in Reported(r)
        ensures bounds in after.Values
      {
        var m :| m in Mentions(r) && m.sensitive && m.bounds == bounds;
        assert Holds(after, m.id, m.bounds);
      }
    }
  }

  /** A sensitive element that is mentioned again as a plain region is dropped from the list. */
  lemma PlainMentionUncovers(held: map<string, Bounds>, delta: bool, id: string, element: Bounds, region: Bounds)
    ensures
      var r := Response(true, [], [Region(id, element, true)], [Region(id, region, false)]);
      element in Reported(r) && id !in Absorbed(held, delta, r)
  {
    var e, p := Region(id, element, true), Region(id, region, false);
    var r := Response(true, [], [e], [p]);
    assert Mentions(r) == [e, p] && Mentions(r)[0] == e;
    NotedLast((if delta then held else map[]) - ToSet(r.removedIds), Mentions(r), id);
  }

  // ----- The page ----------------------------------------------------------

  /** The sensitive regions the page shows, and the ids its observer has noticed since its last answer. */
  datatype Page = Page(shown: map<string, Bounds>, changed: set<string>)

  /** Element `id` changed: it is sensitive now, with these bounds, or not any more. */
  datatype Change = Change(id: string, now: Option<Bounds>)

  function Shown(shown: map<string, Bounds>, change: Change): map<string, Bounds> {
    if change.now.Some? then shown[change.id := change.now.value] else shown - {change.id}
  }

  function Mutated(page: Page, change: Change): Page {
    Page(Shown(page.shown, change), page.changed + {change.id})
  }

  /** An answer forgets what had changed, whether or not anyone reads it. */
  function Answered(page: Page): Page {
    page.(changed := {})
  }

  predicate Mentioned(r: Response, id: string) {
    exists m :: m in Mentions(r) && m.id == id
  }

  predicate MentionedSensitive(r: Response, id: string) {
    exists m :: m in Mentions(r) && m.id == id && m.sensitive
  }

  /**
   * The answer says nothing untrue of a sensitive region, and it mentions each
   * one it is about: all of them, or those that changed.
   */
  predicate Honest(page: Page, delta: bool, r: Response) {
    && (forall m :: m in Mentions(r) && m.sensitive ==> Holds(page.shown, m.id, m.bounds))
    && (forall id :: id in page.shown && (!delta || id in page.changed || Mentioned(r, id)) ==> MentionedSensitive(r, id))
    && (forall id :: id in r.removedIds ==> id !in page.shown)
  }

  predicate Covers(held: map<string, Bounds>, shown: map<string, Bounds>) {
    forall id :: id in shown ==> Holds(held, id, shown[id])
  }

  /** What a delta answer will not repeat is held already. */
  predicate HoldsUnchanged(held: map<string, Bounds>, page: Page) {
    forall id :: id in page.shown && id !in page.changed ==> Holds(held, id, page.shown[id])
  }

  /** Reading an honest answer leaves the whole page covered if and only if no sensitive id is mentioned as plain at the end. */
  lemma HonestAnswerCovers(held: map<string, Bounds>, page: Page, delta: bool, r: Response)
    requires Honest(page, delta, r) && (delta ==> HoldsUnchanged(held, page))
    ensures Covers(Absorbed(held, delta, r), page.shown) <==> Lasting(r)
  {
    var after := Absorbed(held, delta, r);
    ReportedIsCovered(held, delta, r);
    if Lasting(r) {
      forall id | id in page.shown
        ensures Holds(after, id, page.shown[id])
      {
        ShownIsHeld(held, page, delta, r, id);
      }
    } else {
      hide Absorbed, Lasting, Mentions;
      var m :| m in Mentions(r) && m.sensitive && m.id !in after;
      assert Holds(page.shown, m.id, m.bounds);
      assert !Holds(after, m.id, page.shown[m.id]);
    }
  }

  lemma ShownIsHeld(held: map<string, Bounds>, page: Page, delta: bool, r: Response, id: string)
    requires Honest(page, delta, r) && (delta ==> HoldsUnchanged(held, page)) && Lasting(r) && id in page.shown
    ensures Holds(Absorbed(held, delta, r), id, page.shown[id])
  {
    var before := (if delta then held else map[]) - ToSet(r.removedIds);
    NotedLast(before, Mentions(r), id);
    hide NotedAll, LastMention;
    if Mentioned(r, id) {
      assert MentionedSensitive(r, id);
      var last := LastMention(Mentions(r), id).value;
      assert last in Mentions(r) && last.sensitive;
    }
  }

  // ----- Runs of answers ---------------------------------------------------

  /** An answer that was read or discarded, or the worker forgetting its list. */
  datatype Sort = Full(kept: bool) | Delta(kept: bool) | Cleared

  /** What the page changed, and the answer it then gave. */
  datatype Round = Round(changes: seq<Change>, sort: Sort, answer: Response)

  /** The page, and the regions the worker holds for it. */
  datatype Mirror = Mirror(page: Page, held: map<string, Bounds>)

  function MutatedAll(page: Page, changes: seq<Change>): Page {
    if changes == [] then page else Mutated(MutatedAll(page, changes[..|changes| - 1]), changes[|changes| - 1])
  }

  function After(m: Mirror, round: Round): Mirror {
    var page := MutatedAll(m.page, round.changes);
    match round.sort
    case Cleared => Mirror(page, map[])
    case Full(kept) => Mirror(Answered(page), if kept then Absorbed(m.held, false, round.answer) else m.held)
    case Delta(kept) => Mirror(Answered(page), if kept then Absorbed(m.held, true, round.answer) else m.held)
  }

  /** An answer that is read is honest, and each sensitive id stays sensitive to its end. */
  predicate IsFair(m: Mirror, round: Round) {
    !round.sort.Cleared? ==>
      Honest(MutatedAll(m.page, round.changes), round.sort.Delta?, round.answer) && Lasting(round.answer)
  }

  function RunRounds(shown: map<string, Bounds>, rounds: seq<Round>): Mirror {
    if rounds == [] then Mirror(Page(shown, {}), map[])
    else After(RunRounds(shown, rounds[..|rounds| - 1]), rounds[|rounds| - 1])
  }

  predicate FairRun(shown: map<string, Bounds>, rounds: seq<Round>) {
    rounds == [] || (FairRun(shown, rounds[..|rounds| - 1]) &&
                     IsFair(RunRounds(shown, rounds[..|rounds| - 1]), rounds[|rounds| - 1]))
  }

  function Sorts(rounds: seq<Round>): (sorts: seq<Sort>)
    ensures |sorts| == |rounds|
  {
    if rounds == [] then [] else Sorts(rounds[..|rounds| - 1]) + [rounds[|rounds| - 1].sort]
  }

  /** A full answer was read, and after it delta answers, none of them discarded. */
  predicate Unbroken(sorts: seq<Sort>) {
    sorts != [] &&
    var last := sorts[|sorts| - 1];
    last == Full(true) || (last == Delta(true) && Unbroken(sorts[..|sorts| - 1]))
  }

  /** The full answer at `f` was read, and after it delta answers only, all of them read. */
  predicate FullAt(sorts: seq<Sort>, f: nat) {
    f < |sorts| && sorts[f] == Full(true) && forall g :: f < g < |sorts| ==> sorts[g] == Delta(true)
  }

  lemma {:induction false} UnbrokenFinds(sorts: seq<Sort>) returns (f: nat)
    requires Unbroken(sorts)
    ensures FullAt(sorts, f)
  {
    var n := |sorts| - 1;
    if sorts[n] == Full(true) {
      f := n;
    } else {
      f := UnbrokenFinds(sorts[..n]);
      assert forall g :: f <= g < n ==> sorts[g] == sorts[..n][g];
    }
  }

  lemma {:induction false} UnbrokenShows(sorts: seq<Sort>, f: nat)
    requires FullAt(sorts, f)
    ensures Unbroken(sorts)
  {
    var n := |sorts| - 1;
    if f < n {
      UnbrokenShows(sorts[..n], f);
    }
  }

  lemma CoversHoldsUnchanged(held: map<string, Bounds>, page: Page, changes: seq<Change>)
    requires HoldsUnchanged(held, page)
    ensures HoldsUnchanged(held, MutatedAll(page, changes))
  {
    if changes != [] {
      CoversHoldsUnchanged(held, page, changes[..|changes| - 1]);
    }
  }

  lemma {:induction false} UnbrokenCovers(shown: map<string, Bounds>, rounds: seq<Round>)
    requires FairRun(shown, rounds) && Unbroken(Sorts(rounds))
    ensures
      var m := RunRounds(shown, rounds);
      m.page.changed == {} && Covers(m.held, m.page.shown)
  {
    var n := |rounds| - 1;
    var m, round := RunRounds(shown, rounds[..n]), rounds[n];
    assert Sorts(rounds)[..n] == Sorts(rounds[..n]);
    if round.sort == Delta(true) {
      UnbrokenCovers(shown, rounds[..n]);
      CoversHoldsUnchanged(m.held, m.page, round.changes);
    }
    HonestAnswerCovers(m.held, MutatedAll(m.page, round.changes), round.sort.Delta?, round.answer);
  }

  // A page with one region at most, and what it answers.

  const SOLE := "sole"
  const SPOT := Bounds(0, 0, 1, 1)

  function SoleAnswer(page: Page, delta: bool): Response {
    Response(true, [], if SOLE in page.shown && (!delta || SOLE in page.changed) then [Region(SOLE, SPOT, true)] else [], [])
  }

  predicate SolePage(page: Page) {
    page.shown == map[] || page.shown == map[SOLE := SPOT]
  }

  lemma SoleIsFair(page: Page, delta: bool)
    requires SolePage(page)
    ensures Honest(page, delta, SoleAnswer(page, delta)) && Lasting(SoleAnswer(page, delta))
  {
    var r, m := SoleAnswer(page, delta), Region(SOLE, SPOT, true);
    if Mentions(r) != [] {
      assert Mentions(r) == [m] && m in Mentions(r);
      assert LastMention(Mentions(r), SOLE) == Some(m);
    }
  }

  /** Whether the worker holds the one region after an answer. */
  lemma SoleAbsorbed(held: map<string, Bounds>, page: Page, delta: bool)
    ensures SOLE in Absorbed(held, delta, SoleAnswer(page, delta)) <==>
      (SOLE in page.shown && (!delta || SOLE in page.changed)) || (delta && SOLE in held)
  {
    var r := SoleAnswer(page, delta);
    NotedLast((if delta then held else map[]) - ToSet(r.removedIds), Mentions(r), SOLE);
  }

  /** The page shows its one region, nobody is told, and the worker does not hold it. */
  predicate Missing(m: Mirror) {
    m.page == Page(map[SOLE := SPOT], {}) && SOLE !in m.held
  }

  /** A round of this sort in which nothing changes, or the one region appears. */
  function SoleRound(m: Mirror, sort: Sort, appears: bool): Round {
    var changes := if appears then [Change(SOLE, Some(SPOT))] else [];
    Round(changes, sort, SoleAnswer(MutatedAll(m.page, changes), sort.Delta?))
  }

  lemma SoleRoundIsFair(m: Mirror, sort: Sort, appears: bool)
    requires SolePage(m.page)
    ensures
      var round := SoleRound(m, sort, appears);
      IsFair(m, round) && SolePage(After(m, round).page) && round.sort == sort
    ensures After(m, SoleRound(m, sort, appears)).page.shown == if appears then map[SOLE := SPOT] else m.page.shown
    ensures !appears && m.page.changed == {} ==> After(m, SoleRound(m, sort, appears)).page.changed == {}
  {
    var round := SoleRound(m, sort, appears);
    if appears {
      assert round.changes[..0] == [];
      assert MutatedAll(m.page, round.changes) == Mutated(m.page, Change(SOLE, Some(SPOT)));
    }
    SoleIsFair(MutatedAll(m.page, round.changes), sort.Delta?);
  }

  lemma AppendRound(shown: map<string, Bounds>, rounds: seq<Round>, round: Round)
    ensures RunRounds(shown, rounds + [round]) == After(RunRounds(shown, rounds), round)
    ensures FairRun(shown, rounds + [round]) <==> FairRun(shown, rounds) && IsFair(RunRounds(shown, rounds), round)
    ensures Sorts(rounds + [round]) == Sorts(rounds) + [round.sort]
  {
    assert (rounds + [round])[..|rounds|] == rounds;
  }

  /** A run of these sorts in which the page stays as it was. */
  lemma {:induction false} StillRun(shown: map<string, Bounds>, sorts: seq<Sort>) returns (rounds: seq<Round>)
    requires SolePage(Page(shown, {}))
    ensures FairRun(shown, rounds) && Sorts(rounds) == sorts && RunRounds(shown, rounds).page == Page(shown, {})
    ensures shown == map[] ==> SOLE !in RunRounds(shown, rounds).held
  {
    if sorts == [] {
      rounds := [];
    } else {
      var n := |sorts| - 1;
      rounds := StillRun(shown, sorts[..n]);
      var m := RunRounds(shown, rounds);
      var round := SoleRound(m, sorts[n], false);
      SoleRoundIsFair(m, sorts[n], false);
      AppendRound(shown, rounds, round);
      if shown == map[] {
        StaysUnheld(m, sorts[n]);
      }
      hide FairRun, RunRounds, IsFair, After, SoleRound, Sorts;
      rounds := rounds + [round];
    }
  }

  /** Any sorts that are not unbroken admit a run that ends with a region the worker does not hold. */
  lemma {:induction false} BrokenMisses(sorts: seq<Sort>) returns (shown: map<string, Bounds>, rounds: seq<Round>)
    requires !Unbroken(sorts)
    ensures FairRun(shown, rounds) && Sorts(rounds) == sorts && Missing(RunRounds(shown, rounds))
  {
    if sorts == [] {
      shown, rounds := map[SOLE := SPOT], [];
    } else {
      var n := |sorts| - 1;
      assert sorts == sorts[..n] + [sorts[n]];
      var appears := false;
      if sorts[n] == Delta(true) {
        shown, rounds := BrokenMisses(sorts[..n]);
      } else if sorts[n].Cleared? {
        shown := map[SOLE := SPOT];
        rounds := StillRun(shown, sorts[..n]);
      } else {
        // The region appears right before the answer that is discarded.
        shown := map[];
        rounds := StillRun(shown, sorts[..n]);
        appears := true;
      }
      var m := RunRounds(shown, rounds);
      MissesNext(m, sorts[n], appears);
      SoleRoundIsFair(m, sorts[n], appears);
      AppendRound(shown, rounds, SoleRound(m, sorts[n], appears));
      hide FairRun, RunRounds, IsFair, After, SoleRound, Sorts;
      rounds := rounds + [SoleRound(m, sorts[n], appears)];
    }
  }

  /** The worker holds nothing for a page that shows nothing. */
  lemma StaysUnheld(m: Mirror, sort: Sort)
    requires m.page.shown == map[] && SOLE !in m.held
    ensures SOLE !in After(m, SoleRound(m, sort, false)).held
  {
    SoleAbsorbed(m.held, m.page, sort.Delta?);
    hide Absorbed;
  }

  lemma MissesNext(m: Mirror, sort: Sort, appears: bool)
    requires sort == Delta(true) ==> Missing(m) && !appears
    requires sort.Cleared? ==> m.page == Page(map[SOLE := SPOT], {}) && !appears
    requires sort in {Full(false), Delta(false)} ==> m.page == Page(map[], {}) && SOLE !in m.held && appears
    requires sort != Full(true)
    ensures Missing(After(m, SoleRound(m, sort, appears)))
  {
    SoleAbsorbed(m.held, m.page, true);
    hide Absorbed;
    if appears {
      SoleRoundChanges(m, sort);
    }
  }

  lemma SoleRoundChanges(m: Mirror, sort: Sort)
    ensures MutatedAll(m.page, SoleRound(m, sort, true).changes) == Mutated(m.page, Change(SOLE, Some(SPOT)))
  {
    assert SoleRound(m, sort, true).changes[..0] == [];
  }

  lemma UnbrokenGuarantees(sorts: seq<Sort>)
    ensures Unbroken(sorts) <==> AlwaysCovers(sorts)
  {
    if Unbroken(sorts) {
      forall shown, rounds | FairRun(shown, rounds) && Sorts(rounds) == sorts
        ensures Covers(RunRounds(shown, rounds).held, RunRounds(shown, rounds).page.shown)
      {
        UnbrokenCovers(shown, rounds);
      }
    } else {
      var shown, rounds := BrokenMisses(sorts);
      assert SOLE in RunRounds(shown, rounds).page.shown;
    }
  }

  /** Whatever the page showed and changed: at the end the worker's regions cover what it shows. */
  ghost predicate AlwaysCovers(sorts: seq<Sort>) {
    forall shown, rounds | FairRun(shown, rounds) && Sorts(rounds) == sorts ::
      Covers(RunRounds(shown, rounds).held, RunRounds(shown, rounds).page.shown)
  }

  /**
   * The worker's regions cover what the page showed at its last answer, whatever
   * it changed, if and only if a full answer was read and since then delta
   * answers, none of them discarded and none followed by forgetting.
   */
  lemma CoversIffUnbroken(sorts: seq<Sort>)
    ensures AlwaysCovers(sorts) <==> exists f :: FullAt(sorts, f)
  {
    UnbrokenGuarantees(sorts);
    hide AlwaysCovers, FullAt;
    if Unbroken(sorts) {
      var f := UnbrokenFinds(sorts);
      assert FullAt(sorts, f);
    } else {
      forall f: nat
        ensures !FullAt(sorts, f)
      {
        if FullAt(sorts, f) {
          UnbrokenShows(sorts, f);
        }
      }
    }
  }
}
