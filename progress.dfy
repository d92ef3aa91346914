/** The progress engine of the dashboard: the fixed level table, the status of
    one level for a cumulative visit count, the level shown as active, and the
    milestone check made after a scan. Every function takes the level table as
    a parameter; `LEVELS` is the table the dashboard uses. */
module Progress {

  /** A requirement of at least one visit. */
  type Positive = n: int | n > 0 witness 1

  /** One reward level. `visitsRequired` is the number of visits needed on top
      of the levels before it, not a cumulative count. */
  datatype Level = Level(id: int, name: string, visitsRequired: Positive, prize: string, isVip: bool)

  /** The level table of the dashboard, in order. */
  const LEVELS: seq<Level> := [
    Level(1, "Nivel Inicial", 3, "Caf\U{e9} Gratis", false),
    Level(2, "Nivel Intermedio", 5, "Desayuno ($6)", false),
    Level(3, "Nivel Avanzado", 8, "Desayuno Premium", false),
    Level(4, "Socio VIP", 10, "10% Descuento Vitalicio", true)
  ]

  /** What the dashboard derives for one level and one visit count. */
  datatype LevelStatus = LevelStatus(isCompleted: bool, progress: nat, required: nat, isUnlocked: bool)

  /** The visits the first `i` levels need together, accumulated in table order. */
  function VisitsBefore(levels: seq<Level>, i: nat): nat
    requires i <= |levels|
  {
    if i == 0 then 0 else VisitsBefore(levels, i - 1) + levels[i - 1].visitsRequired
  }

  /** The cumulative visit count at which level `i` is completed. */
  function Threshold(levels: seq<Level>, i: nat): nat
    requires i < |levels|
  {
    VisitsBefore(levels, i + 1)
  }

  /** The status of level `i` for a cumulative visit count: the visits counted
      inside the level are clamped below at zero, progress is clamped above at
      the requirement. */
  function Status(levels: seq<Level>, visits: nat, i: nat): (s: LevelStatus)
    requires i < |levels|
    ensures s.required == levels[i].visitsRequired
    ensures s.progress <= s.required
    ensures s.isCompleted <==> visits >= Threshold(levels, i)
    ensures s.isCompleted <==> s.progress == s.required
    ensures visits <= VisitsBefore(levels, i) ==> s.progress == 0
    ensures VisitsBefore(levels, i) <= visits <= Threshold(levels, i) ==> s.progress + VisitsBefore(levels, i) == visits
  {
    var before := VisitsBefore(levels, i);
    var inLevel := if visits - before > 0 then visits - before else 0;
    var required := levels[i].visitsRequired;
    assert Threshold(levels, i) == before + required;
    LevelStatus(
      inLevel >= required,
      if inLevel < required then inLevel else required,
      required,
      i == 0 || visits >= before)
  }

  predicate Completed(levels: seq<Level>, visits: nat, i: nat)
    requires i < |levels|
  {
    Status(levels, visits, i).isCompleted
  }

  predicate Unlocked(levels: seq<Level>, visits: nat, i: nat)
    requires i < |levels|
  {
    Status(levels, visits, i).isUnlocked
  }

  /** The dashboard's status computation: it accumulates the requirements of
      the earlier levels in a loop, then clamps. */
  method GetLevelStatus(levels: seq<Level>, visits: nat, levelIndex: nat) returns (s: LevelStatus)
    requires levelIndex < |levels|
    ensures s == Status(levels, visits, levelIndex)
  {
    var visitsBefore := 0;
    for i := 0 to levelIndex
      invariant visitsBefore == VisitsBefore(levels, i)
    {
      visitsBefore := visitsBefore + levels[i].visitsRequired;
    }
    var visitsForThisLevel := if visits - visitsBefore > 0 then visits - visitsBefore else 0;
    var required := levels[levelIndex].visitsRequired;
    var isCompleted := visitsForThisLevel >= required;
    var progress := if visitsForThisLevel < required then visitsForThisLevel else required;
    var isUnlocked := levelIndex == 0 || visits >= visitsBefore;
    s := LevelStatus(isCompleted, progress, required, isUnlocked);
  }

  // ---------------------------------------------------------------------------
  // Prefix sums

  /** Sum of a sequence, first element first: the reference definition. */
  function Sum(s: seq<nat>): nat {
    if s == [] then 0 else s[0] + Sum(s[1..])
  }

  function Requirements(levels: seq<Level>): seq<nat> {
    seq(|levels|, k requires 0 <= k < |levels| => levels[k].visitsRequired)
  }

  lemma {:induction false} SumAppend(s: seq<nat>, x: nat)
    ensures Sum(s + [x]) == Sum(s) + x
  {
    if s == [] {
      assert [] + [x] == [x];
    } else {
      assert (s + [x])[1..] == s[1..] + [x];
      SumAppend(s[1..], x);
    }
  }

  /** The accumulated count equals the sum of the requirements of levels 0..i-1. */
  lemma {:induction false} VisitsBeforeIsSum(levels: seq<Level>, i: nat)
    requires i <= |levels|
    ensures VisitsBefore(levels, i) == Sum(Requirements(levels[..i]))
  {
    if i == 0 {
      assert Requirements(levels[..0]) == [];
    } else {
      VisitsBeforeIsSum(levels, i - 1);
      assert Requirements(levels[..i]) == Requirements(levels[..i - 1]) + [levels[i - 1].visitsRequired];
      SumAppend(Requirements(levels[..i - 1]), levels[i - 1].visitsRequired);
    }
  }

  lemma {:induction false} VisitsBeforeMonotone(levels: seq<Level>, i: nat, j: nat)
    requires i <= j <= |levels|
    ensures VisitsBefore(levels, i) <= VisitsBefore(levels, j)
  {
    if i < j {
      VisitsBeforeMonotone(levels, i, j - 1);
    }
  }

  /** Every requirement is positive, so the prefix sums strictly increase. */
  lemma {:induction false} VisitsBeforeStrictlyIncreasing(levels: seq<Level>, i: nat, j: nat)
    requires i < j <= |levels|
    ensures VisitsBefore(levels, i) < VisitsBefore(levels, j)
  {
    if i < j - 1 {
      VisitsBeforeStrictlyIncreasing(levels, i, j - 1);
    }
  }

  // ---------------------------------------------------------------------------
  // Status properties

  /** Level 0 is always unlocked; any later level is unlocked exactly when the
      level before it is completed. */
  lemma UnlockedIffPreviousCompleted(levels: seq<Level>, visits: nat, i: nat)
    requires i < |levels|
    ensures i == 0 ==> Unlocked(levels, visits, i)
    ensures 0 < i ==> (Unlocked(levels, visits, i) <==> Completed(levels, visits, i - 1))
  {
  }

  /** A level is unlocked exactly when the visit count has reached the
      visits of all the levels before it. */
  lemma UnlockedIffReached(levels: seq<Level>, visits: nat, i: nat)
    requires i < |levels|
    ensures Unlocked(levels, visits, i) <==> visits >= VisitsBefore(levels, i)
  {
  }

  /** More visits never un-complete a level, never re-lock it and never lower
      its progress. */
  lemma StatusMonotone(levels: seq<Level>, v: nat, w: nat, i: nat)
    requires v <= w && i < |levels|
    ensures Completed(levels, v, i) ==> Completed(levels, w, i)
    ensures Unlocked(levels, v, i) ==> Unlocked(levels, w, i)
    ensures Status(levels, v, i).progress <= Status(levels, w, i).progress
  {
  }

  /** The completed levels form a prefix of the table. */
  lemma {:induction false} CompletedFormPrefix(levels: seq<Level>, visits: nat, i: nat, j: nat)
    requires i <= j < |levels|
    requires Completed(levels, visits, j)
    ensures Completed(levels, visits, i)
  {
    VisitsBeforeMonotone(levels, i + 1, j + 1);
  }

  /** The level table of the dashboard: completion at 3, 8, 16 and 26 visits,
      distinct ids, and the last level is the VIP one. */
  lemma LevelTable()
    ensures Threshold(LEVELS, 0) == 3 && Threshold(LEVELS, 1) == 8
    ensures Threshold(LEVELS, 2) == 16 && Threshold(LEVELS, 3) == 26
    ensures forall j, k :: 0 <= j < k < |LEVELS| ==> LEVELS[j].id != LEVELS[k].id
    ensures LEVELS[|LEVELS| - 1].isVip
  {
  }

  /** The dashboard's table at a few visit counts: a fresh account sees level 0
      unlocked at 0/3 and the rest locked; at 3 visits level 0 is done and
      level 1 opens at 0/5; at 7 visits level 1 stands at 4/5 and level 2 is
      locked. */
  lemma LevelTableExamples()
    ensures Unlocked(LEVELS, 0, 0) && Status(LEVELS, 0, 0).progress == 0 && Status(LEVELS, 0, 0).required == 3
    ensures !Unlocked(LEVELS, 0, 1) && !Unlocked(LEVELS, 0, 2) && !Unlocked(LEVELS, 0, 3)
    ensures Completed(LEVELS, 3, 0) && Unlocked(LEVELS, 3, 1) && Status(LEVELS, 3, 1).progress == 0
    ensures Status(LEVELS, 7, 1).progress == 4 && !Completed(LEVELS, 7, 1) && !Unlocked(LEVELS, 7, 2)
  {
    LevelTable();
  }

  // ---------------------------------------------------------------------------
  // Active level

  /** The index of the first level at or after `from` that is not completed,
      or -1 when there is none (the table's findIndex). */
  function FirstIncomplete(levels: seq<Level>, visits: nat, from: nat): (r: int)
    requires from <= |levels|
    ensures r == -1 || from <= r < |levels|
    ensures r == -1 <==> forall j :: from <= j < |levels| ==> Completed(levels, visits, j)
    ensures r != -1 ==> !Completed(levels, visits, r)
    ensures r != -1 ==> forall j :: from <= j < r ==> Completed(levels, visits, j)
    decreases |levels| - from
  {
    if from == |levels| then -1
    else if !Completed(levels, visits, from) then from
    else FirstIncomplete(levels, visits, from + 1)
  }

  /** The level shown on the main card: the first incomplete level, or the
      last level once every level is completed. */
  function CurrentLevelToDisplay(levels: seq<Level>, visits: nat): (r: nat)
    requires |levels| > 0
    ensures r < |levels|
    ensures forall j :: 0 <= j < r ==> Completed(levels, visits, j)
    ensures !Completed(levels, visits, r) || (r == |levels| - 1 && Completed(levels, visits, r))
  {
    var active := FirstIncomplete(levels, visits, 0);
    if active == -1 then |levels| - 1 else active
  }

  /** When some level is incomplete, the displayed level separates the
      completed levels (before it) from the incomplete ones (from it on). */
  lemma DisplayedLevelIsBoundary(levels: seq<Level>, visits: nat, j: nat)
    requires j < |levels|
    requires exists k :: 0 <= k < |levels| && !Completed(levels, visits, k)
    ensures Completed(levels, visits, j) <==> j < CurrentLevelToDisplay(levels, visits)
  {
    var r := CurrentLevelToDisplay(levels, visits);
    if r <= j && Completed(levels, visits, j) {
      CompletedFormPrefix(levels, visits, r, j);
      assert false;
    }
  }

  /** The displayed level never moves back as visits grow. */
  lemma DisplayedLevelNeverMovesBack(levels: seq<Level>, v: nat, w: nat)
    requires |levels| > 0 && v <= w
    ensures CurrentLevelToDisplay(levels, v) <= CurrentLevelToDisplay(levels, w)
  {
    var rv, rw := CurrentLevelToDisplay(levels, v), CurrentLevelToDisplay(levels, w);
    if rw < rv {
      assert Completed(levels, v, rw);
      StatusMonotone(levels, v, w, rw);
      assert false;
    }
  }

  // ---------------------------------------------------------------------------
  // Milestones

  /** The visit count is the completion threshold of some level. */
  predicate IsMilestone(levels: seq<Level>, visits: int) {
    exists k :: 0 <= k < |levels| && visits == Threshold(levels, k)
  }

  /** The scan handler's milestone check: it walks the table accumulating the
      requirements and fires one burst (then stops) on an exact match.
      Returns the number of bursts fired. */
  method MilestoneBursts(levels: seq<Level>, newVisits: int) returns (bursts: nat)
    ensures bursts <= 1
    ensures bursts == 1 <==> IsMilestone(levels, newVisits)
  {
    bursts := 0;
    var accumulated := 0;
    for i := 0 to |levels|
      invariant accumulated == VisitsBefore(levels, i)
      invariant bursts == 0
      invariant forall k :: 0 <= k < i ==> newVisits != Threshold(levels, k)
    {
      accumulated := accumulated + levels[i].visitsRequired;
      if newVisits == accumulated {
        bursts := bursts + 1;
        assert newVisits == Threshold(levels, i);
        break;
      }
    }
  }

  /** A scan from `v` to `v + 1` visits reaches a milestone exactly when it
      completes a level that was not completed before. */
  lemma MilestoneIffLevelJustCompleted(levels: seq<Level>, v: nat)
    ensures IsMilestone(levels, v + 1) <==>
            exists k :: 0 <= k < |levels| && !Completed(levels, v, k) && Completed(levels, v + 1, k)
  {
    if IsMilestone(levels, v + 1) {
      var k :| 0 <= k < |levels| && v + 1 == Threshold(levels, k);
      assert !Completed(levels, v, k) && Completed(levels, v + 1, k);
    }
    if exists k :: 0 <= k < |levels| && !Completed(levels, v, k) && Completed(levels, v + 1, k) {
      var k :| 0 <= k < |levels| && !Completed(levels, v, k) && Completed(levels, v + 1, k);
      assert v + 1 == Threshold(levels, k);
    }
  }

  /** A visit count is the threshold of at most one level, so at most one
      level completes per scan. */
  lemma MilestoneNamesOneLevel(levels: seq<Level>, visits: int, j: nat, k: nat)
    requires j < |levels| && k < |levels|
    requires visits == Threshold(levels, j) && visits == Threshold(levels, k)
    ensures j == k
  {
    if j < k {
      VisitsBeforeStrictlyIncreasing(levels, j + 1, k + 1);
    } else if k < j {
      VisitsBeforeStrictlyIncreasing(levels, k + 1, j + 1);
    }
  }

  /** At 26 visits, the sum of all requirements, every level is completed and
      the VIP level stays on the main card. */
  lemma AllCompletedShowsVip()
    ensures forall j :: 0 <= j < |LEVELS| ==> Completed(LEVELS, 26, j)
    ensures CurrentLevelToDisplay(LEVELS, 26) == |LEVELS| - 1 && LEVELS[|LEVELS| - 1].isVip
  {
    LevelTable();
  }
}
