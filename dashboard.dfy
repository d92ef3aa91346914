/** The dashboard's actions on the loyalty context: the scan button, which
    records a visit and fires a burst on a milestone, and the redeem button,
    which is offered only for a completed level not yet redeemed. */
module Dashboard {
  import opened Progress
  import opened LoyaltyContext

  /** The redeem button is shown for level `i`. */
  predicate RedeemOffered(levels: seq<Level>, u: User, i: nat)
    requires i < |levels|
  {
    Completed(levels, u.visits, i) && levels[i].id !in u.redeemedLevels
  }

  /** Every redeemed level id names a level the account has completed. */
  ghost predicate Earned(levels: seq<Level>, u: User) {
    forall id :: id in u.redeemedLevels ==>
      exists k :: 0 <= k < |levels| && levels[k].id == id && Completed(levels, u.visits, k)
  }

  /** A recorded visit keeps every redemption earned. */
  lemma EarnedKeptByVisits(levels: seq<Level>, u: User, n: nat)
    requires Earned(levels, u)
    ensures Earned(levels, VisitedTimes(u, n))
  {
    VisitedTimesAddsN(u, n);
    var w := VisitedTimes(u, n);
    forall id | id in w.redeemedLevels
      ensures exists k :: 0 <= k < |levels| && levels[k].id == id && Completed(levels, w.visits, k)
    {
      var k :| 0 <= k < |levels| && levels[k].id == id && Completed(levels, u.visits, k);
      StatusMonotone(levels, u.visits, w.visits, k);
    }
  }

  /** Redeeming through the offered button keeps every redemption earned. */
  lemma EarnedKeptByOfferedRedeem(levels: seq<Level>, u: User, i: nat)
    requires i < |levels|
    requires RedeemOffered(levels, u, i) && Earned(levels, u)
    ensures Earned(levels, Redeemed(u, levels[i].id))
  {
    RedeemedProperties(u, levels[i].id);
  }

  /** The context's redeemPrize does not check completion: a fresh account
      that redeems level 1 directly holds a redemption it has not earned. */
  lemma UncheckedRedeemIsNotEarned()
    ensures Earned(LEVELS, NewUser("1", "Ana"))
    ensures !Earned(LEVELS, Redeemed(NewUser("1", "Ana"), 1))
  {
    var r := Redeemed(NewUser("1", "Ana"), 1);
    assert 1 in r.redeemedLevels;
    forall k | 0 <= k < |LEVELS|
      ensures !Completed(LEVELS, 0, k)
    {
      VisitsBeforeMonotone(LEVELS, 1, k + 1);
    }
  }

  /** The scan button: records a visit for the session user and checks the
      new count against the milestones. Returns the number of bursts fired. */
  method HandleScan(store: Store) returns (bursts: nat)
    requires store.Valid() && store.user.Some?
    modifies store
    ensures store.Valid()
    ensures store.user == Some(Visited(old(store.user.value)))
    ensures store.db == old(store.db)[old(store.user.value.cedula) := store.user.value]
    ensures bursts <= 1
    ensures bursts == 1 <==> IsMilestone(LEVELS, store.user.value.visits)
    ensures bursts == 1 <==>
      exists k :: 0 <= k < |LEVELS| && !Completed(LEVELS, old(store.user.value.visits), k)
                                    && Completed(LEVELS, store.user.value.visits, k)
  {
    var before := store.user.value;
    store.AddVisit();
    var newVisits := before.visits + 1;
    bursts := MilestoneBursts(LEVELS, newVisits);
    MilestoneIffLevelJustCompleted(LEVELS, before.visits);
  }

  /** The redeem button of level `i` followed by the confirmation in the modal:
      the modal holds the level id and redeems it when the id is non-zero. */
  method RedeemOfferedLevel(store: Store, i: nat)
    requires store.Valid() && store.user.Some?
    requires i < |LEVELS| && RedeemOffered(LEVELS, store.user.value, i)
    modifies store
    ensures store.Valid()
    ensures store.user == Some(Redeemed(old(store.user.value), LEVELS[i].id))
    ensures store.db == old(store.db)[old(store.user.value.cedula) := store.user.value]
    ensures LEVELS[i].id in store.user.value.redeemedLevels
    ensures Earned(LEVELS, old(store.user.value)) ==> Earned(LEVELS, store.user.value)
  {
    var pending: Option<int> := Some(LEVELS[i].id);
    if Earned(LEVELS, store.user.value) {
      EarnedKeptByOfferedRedeem(LEVELS, store.user.value, i);
    }
    if pending.Some? && pending.value != 0 {
      store.RedeemPrize(pending.value);
    }
  }
}
