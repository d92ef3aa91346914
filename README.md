# Guayoyo loyalty: tier progress and account store in Dafny

This project models the two pieces of the Guayoyo loyalty web app that hold logic.

- **Progress engine** (`progress.dfy`, module `Progress`). The dashboard's fixed table has four levels. They need 3, 5, 8 and 10 visits on top of the levels before them. For a cumulative visit count, the dashboard works out each level's progress, requirement, completion and lock state. It shows the first incomplete level on the main card, or the VIP level once all are done. After a scan it fires a confetti burst when the new count lands exactly on a cumulative milestone.
- **Loyalty context** (`loyalty_context.dfy`, module `LoyaltyContext`). This is the session user plus the account "database", a map from cedula (national ID) to account, kept in local storage under `guayoyo_db`. The operations are login, register, addVisit, redeemPrize and logout. The persisted session entry `guayoyo_user` mirrors the session user. The model is a class `Store` with three fields: `user`, `db` and `savedUser`.
- **Dashboard actions** (`dashboard.dfy`, module `Dashboard`). The scan button records a visit, then runs the milestone check. The redeem button is offered only for a level that is completed and not yet redeemed, and its confirmation redeems through the context.

The visit semantics are cumulative, as coded. The dashboard's own comments weigh a per-level resetting card against a cumulative count. The code implements the cumulative one, and the model follows the code.

The store's class invariant `Valid()` says the persisted session equals the session user. Two more predicates describe the stored data:
- `Sound()`: each account is stored under its own cedula, and no account lists a level twice. Every operation keeps it.
- `Synced()`: the session user is the account stored under its cedula. Every operation keeps it while `Sound()` holds. Login needs `Sound()`, because it takes `db[cedula]` as the session user whatever that record's own cedula is. Mounting establishes neither predicate: it restores whatever the storage holds.

`Dashboard.Earned` states that every redeemed level was completed. Visits and the dashboard's guarded redemption keep it. The context's unguarded `redeemPrize` does not.

## Model

| member | source | states |
|---|---|---|
| `Progress.Status` | app/dashboard/page.tsx:59-76 | progress lies in [0, required]; a level is completed iff the visit count reaches the cumulative threshold of the levels up to and including it, iff progress equals the requirement; progress is 0 before the level starts and equals the visits beyond the earlier levels inside it |
| `Progress.GetLevelStatus` | app/dashboard/page.tsx:59-76 | the loop that accumulates the earlier levels' requirements, followed by the clamps, yields exactly the status above |
| `Progress.VisitsBeforeIsSum` | app/dashboard/page.tsx:61-64 | the accumulated count for level i equals the sum of the requirements of levels 0..i-1 (an independent head-first sum) |
| `Progress.VisitsBeforeMonotone` | app/dashboard/page.tsx:61-64 | the accumulated count never decreases along the table |
| `Progress.VisitsBeforeStrictlyIncreasing` | app/dashboard/page.tsx:13-18 | every requirement is positive, so the accumulated counts strictly increase |
| `Progress.LevelTable` | app/dashboard/page.tsx:13-18 | the table's levels complete at 3, 8, 16 and 26 visits, their ids are distinct and the last level is the VIP one |
| `Progress.LevelTableExamples` | app/dashboard/page.tsx:59-76 | at 0 visits level 0 is open at 0/3 and the others are locked; at 3 visits level 0 is done and level 1 is open at 0/5; at 7 visits level 1 is at 4/5 and level 2 is locked |
| `Progress.UnlockedIffPreviousCompleted` | app/dashboard/page.tsx:71-73 | level 0 is always unlocked; a later level is unlocked iff the level before it is completed |
| `Progress.UnlockedIffReached` | app/dashboard/page.tsx:73 | a level is unlocked iff the visit count has reached the visits of all levels before it |
| `Progress.StatusMonotone` | app/dashboard/page.tsx:66-73 | more visits never un-complete a level, never re-lock it and never lower its progress |
| `Progress.CompletedFormPrefix` | app/dashboard/page.tsx:66-68 | if a level is completed, every earlier level is completed |
| `Progress.FirstIncomplete` | app/dashboard/page.tsx:101 | returns -1 iff every level from the start point on is completed; otherwise the lowest such index that is not completed |
| `Progress.CurrentLevelToDisplay` | app/dashboard/page.tsx:101-102 | always a valid index; every earlier level is completed; the level itself is incomplete, unless it is the last level and every level is completed |
| `Progress.DisplayedLevelIsBoundary` | app/dashboard/page.tsx:101-102 | while some level is incomplete, a level is completed iff it comes before the displayed one |
| `Progress.DisplayedLevelNeverMovesBack` | app/dashboard/page.tsx:101-102 | the displayed level index never decreases as visits grow |
| `Progress.AllCompletedShowsVip` | app/dashboard/page.tsx:101-103 | at 26 visits every level is completed and the VIP level stays on the main card |
| `Progress.MilestoneBursts` | app/dashboard/page.tsx:86-98 | the accumulate-and-break loop fires at most one burst, and fires one iff the new count equals some level's cumulative threshold |
| `Progress.MilestoneIffLevelJustCompleted` | app/dashboard/page.tsx:86-98 | going from v to v+1 visits hits a milestone iff some level was not completed at v and is completed at v+1 |
| `Progress.MilestoneNamesOneLevel` | app/dashboard/page.tsx:86-98 | a visit count is the threshold of at most one level |
| `LoyaltyContext.VisitedTimesAddsN` | app/context/LoyaltyContext.tsx:82-84 | N recorded visits add exactly N to the count and change nothing else |
| `LoyaltyContext.RedeemedProperties` | app/context/LoyaltyContext.tsx:95-102 | redeeming adds exactly the level id to the redeemed levels and changes nothing else; it keeps the list duplicate-free; a second redemption of the same id is a no-op |
| `LoyaltyContext.Store.constructor` | app/context/LoyaltyContext.tsx:28-34 | on mount, the session user is the stored session entry and the database is the stored map |
| `LoyaltyContext.Store.PersistSession` | app/context/LoyaltyContext.tsx:36-43 | the `guayoyo_user` entry is set to the session user when there is one and removed when there is none |
| `LoyaltyContext.Store.Login` | app/context/LoyaltyContext.tsx:45-62 | returns true iff the cedula has an account, which then becomes the session user (stored under that cedula); on false the session is unchanged; the database never changes |
| `LoyaltyContext.Store.Register` | app/context/LoyaltyContext.tsx:64-80 | the session user and `db[cedula]` become an account with 0 visits and no redemptions, overwriting any existing one; the phone is dropped; other entries are unchanged |
| `LoyaltyContext.Store.AddVisit` | app/context/LoyaltyContext.tsx:82-93 | no-op without a session user; otherwise adds exactly one visit, changes no other field, writes the account back under its cedula, and leaves every other entry unchanged; the session then equals the stored account |
| `LoyaltyContext.Store.RedeemPrize` | app/context/LoyaltyContext.tsx:95-111 | no-op without a session user or when the id is already redeemed; otherwise appends the id and writes back as addVisit does; keeps the lists duplicate-free; completion is not checked |
| `LoyaltyContext.Store.Logout` | app/context/LoyaltyContext.tsx:113-116 | clears the session user and its persisted entry; the database is untouched |
| `LoyaltyContext.AddVisits` | app/context/LoyaltyContext.tsx:82-93 | n calls of addVisit give the session account exactly n more visits and change nothing else about it; after at least one call the account is written back under its cedula, every other entry is unchanged, and the session equals the stored account |
| `LoyaltyContext.RegisterLogoutLogin` | app/context/LoyaltyContext.tsx:45-80 | register, then logout, then login with the same cedula succeeds and finds 0 visits and no redemptions |
| `Dashboard.HandleScan` | app/dashboard/page.tsx:78-99 | records one visit for the session user and fires at most one burst; it fires iff the new count is a milestone, iff the scan completed a level |
| `Dashboard.RedeemOfferedLevel` | app/dashboard/page.tsx:188-266 | redeeming an offered level (completed, not yet redeemed) through the modal adds its id, writes the account back under its cedula, and keeps every redemption earned |
| `Dashboard.EarnedKeptByVisits` | app/dashboard/page.tsx:66-68 | if every redeemed level was completed, it stays completed after any number of further visits |
| `Dashboard.EarnedKeptByOfferedRedeem` | app/dashboard/page.tsx:210-218 | redeeming a level whose button is shown keeps every redemption earned |
| `Dashboard.UncheckedRedeemIsNotEarned` | app/context/LoyaltyContext.tsx:95-102 | redeemPrize called directly lets a fresh account with 0 visits hold a redemption of level 1, which it has not earned |

## Left out

- Presentation: layout, cards, buttons, icons, animations, router navigation and the redirect timer are not modelled. So is the first-name display.
- Confetti is modelled as a count of bursts fired by the scan. The call itself and its parameters are left out.
- The progress bar percentage is floating-point display only. It is not modelled.
- Local storage and JSON are not modelled as APIs. The two entries are fields, and parsing and stringifying are the identity. Malformed stored JSON is not modelled.
- Lookup in the parsed database is modelled as map membership. JavaScript objects also inherit keys such as `constructor`, on which `db[cedula]` is truthy. The model ignores those inherited keys.
- React state updates are applied at once in the model. On mount, the session entry is briefly removed and then rewritten. The model keeps only the net effect: the restored user with its entry in place.
- `handleScan` reads the render-time user. The model reads the user before `addVisit`, which gives the same count.
- The modal's cancel button only closes the modal, so it is not modelled. Confirmation is modelled together with the offering button in `Dashboard.RedeemOfferedLevel`.
- Visit counts are unbounded naturals. JavaScript's floating-point numbers lose precision past 2^53, which the model does not capture.
- Several tabs on the same storage are not modelled. Each store owns its map.
- The context has no remote backend. `register` does not check for an existing account and overwrites it, and the model follows this.
- The registration form demands a non-empty cedula and name before calling register. The context itself does not check them, so `Store.Register` has no such precondition.
