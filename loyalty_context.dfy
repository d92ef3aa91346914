/** The loyalty context: the session user and the account "database" kept in
    local storage under `guayoyo_db`, with the operations login, register,
    addVisit, redeemPrize and logout. Serialisation is the identity here: the
    stored map and the stored session are Dafny values. */
module LoyaltyContext {

  datatype Option<T> = None | Some(value: T)

  /** A customer account, keyed by cedula (national ID). */
  datatype User = User(cedula: string, name: string, visits: nat, redeemedLevels: seq<int>)

  /** The account a registration creates. */
  function NewUser(cedula: string, name: string): User {
    User(cedula, name, 0, [])
  }

  /** The account after one recorded visit. */
  function Visited(u: User): User {
    u.(visits := u.visits + 1)
  }

  /** The account after `n` recorded visits. */
  function VisitedTimes(u: User, n: nat): User {
    if n == 0 then u else Visited(VisitedTimes(u, n - 1))
  }

  /** The account after redeeming `levelId`: unchanged when it is already redeemed. */
  function Redeemed(u: User, levelId: int): User {
    if levelId in u.redeemedLevels then u
    else u.(redeemedLevels := u.redeemedLevels + [levelId])
  }

  predicate NoDuplicates(s: seq<int>) {
    forall i, j :: 0 <= i < j < |s| ==> s[i] != s[j]
  }

  /** Every account is stored under its own cedula. */
  predicate WellKeyed(db: map<string, User>) {
    forall c :: c in db ==> db[c].cedula == c
  }

  predicate DbNoDuplicates(db: map<string, User>) {
    forall c :: c in db ==> NoDuplicates(db[c].redeemedLevels)
  }

  /** N recorded visits add exactly N and change nothing else. */
  lemma {:induction false} VisitedTimesAddsN(u: User, n: nat)
    ensures VisitedTimes(u, n) == u.(visits := u.visits + n)
  {
    if n > 0 {
      VisitedTimesAddsN(u, n - 1);
    }
  }

  /** Redeeming adds `levelId` to the redeemed set, nothing else, keeps the
      list duplicate-free, and a second redemption of the same level changes
      nothing. */
  lemma RedeemedProperties(u: User, levelId: int)
    ensures var r := Redeemed(u, levelId);
      && r.cedula == u.cedula && r.name == u.name && r.visits == u.visits
      && (forall x :: x in r.redeemedLevels <==> x in u.redeemedLevels || x == levelId)
      && (NoDuplicates(u.redeemedLevels) ==> NoDuplicates(r.redeemedLevels))
      && Redeemed(r, levelId) == r
  {
  }

  /** The session and storage state of the context provider. */
  class Store {
    /** The session user (the provider's React state). */
    var user: Option<User>
    /** The `guayoyo_db` entry: accounts by cedula. */
    var db: map<string, User>
    /** The `guayoyo_user` entry: the persisted copy of the session user. */
    var savedUser: Option<User>

    /** The persisted session mirrors the session user. */
    ghost predicate Valid()
      reads this
    {
      savedUser == user
    }

    /** The stored accounts are keyed by their cedula and no account lists a
        level twice. */
    ghost predicate Sound()
      reads this
    {
      WellKeyed(db) && DbNoDuplicates(db) && (user.Some? ==> NoDuplicates(user.value.redeemedLevels))
    }

    /** The session user is the account stored under its cedula. */
    ghost predicate Synced()
      reads this
    {
      user.Some? ==> user.value.cedula in db && db[user.value.cedula] == user.value
    }

    /** Mounting the provider: the session user is restored from `guayoyo_user`. */
    constructor (storedDb: map<string, User>, storedUser: Option<User>)
      ensures Valid()
      ensures db == storedDb && user == storedUser
    {
      db := storedDb;
      user := storedUser;
      savedUser := storedUser;
    }

    /** The effect that runs whenever the session user changes: it writes the
        user to `guayoyo_user`, or removes that entry when there is none. */
    method PersistSession()
      modifies this`savedUser
      ensures Valid()
      ensures savedUser == user
    {
      if user.Some? {
        savedUser := user;
      } else {
        savedUser := None;
      }
    }

    /** Identity assertion by cedula alone: succeeds exactly when the cedula has
        an account, which then becomes the session user. */
    method Login(cedula: string) returns (ok: bool)
      requires Valid()
      modifies this
      ensures Valid()
      ensures db == old(db)
      ensures ok <==> cedula in old(db)
      ensures ok ==> user == Some(old(db)[cedula])
      ensures !ok ==> user == old(user)
      ensures ok && old(Sound()) ==> Synced() && user.value.cedula == cedula
      ensures old(Sound()) ==> Sound()
    {
      if cedula in db {
        user := Some(db[cedula]);
        PersistSession();
        ok := true;
      } else {
        ok := false;
      }
    }

    /** Creates (or overwrites) the account for `cedula` with no visits and no
        redemptions and makes it the session user. The phone is discarded. */
    method Register(cedula: string, name: string, phone: string)
      requires Valid()
      modifies this
      ensures Valid()
      ensures user == Some(User(cedula, name, 0, []))
      ensures db == old(db)[cedula := user.value]
      ensures forall c :: c in old(db) && c != cedula ==> c in db && db[c] == old(db)[c]
      ensures Synced()
      ensures old(Sound()) ==> Sound()
    {
      var newUser := NewUser(cedula, name);
      db := db[cedula := newUser];
      user := Some(newUser);
      PersistSession();
    }

    /** Records one visit for the session user, in the session and in the
        database; does nothing without a session user. */
    method AddVisit()
      requires Valid()
      modifies this
      ensures Valid()
      ensures old(user).None? ==> user == old(user) && db == old(db)
      ensures old(user).Some? ==>
        && user == Some(Visited(old(user).value))
        && db == old(db)[old(user).value.cedula := user.value]
      ensures forall c :: c in old(db) && (old(user).None? || c != old(user).value.cedula) ==>
        c in db && db[c] == old(db)[c]
      ensures old(user).Some? ==> Synced()
      ensures old(Synced()) ==> Synced()
      ensures old(Sound()) ==> Sound()
    {
      if user.None? {
        return;
      }
      var updatedUser := Visited(user.value);
      db := db[user.value.cedula := updatedUser];
      user := Some(updatedUser);
      PersistSession();
    }

    /** Marks `levelId` redeemed for the session user, in the session and in
        the database; does nothing without a session user or when the level is
        already redeemed. Whether the level is completed is not checked. */
    method RedeemPrize(levelId: int)
      requires Valid()
      modifies this
      ensures Valid()
      ensures old(user).None? || levelId in old(user).value.redeemedLevels ==>
        user == old(user) && db == old(db)
      ensures old(user).Some? && levelId !in old(user).value.redeemedLevels ==>
        && user == Some(Redeemed(old(user).value, levelId))
        && db == old(db)[old(user).value.cedula := user.value]
      ensures forall c :: c in old(db) && (old(user).None? || c != old(user).value.cedula) ==>
        c in db && db[c] == old(db)[c]
      ensures old(user).Some? && levelId !in old(user).value.redeemedLevels ==> Synced()
      ensures old(Synced()) ==> Synced()
      ensures old(Sound()) ==> Sound()
    {
      if user.None? {
        return;
      }
      if levelId in user.value.redeemedLevels {
        return;
      }
      var updatedUser := Redeemed(user.value, levelId);
      RedeemedProperties(user.value, levelId);
      db := db[user.value.cedula := updatedUser];
      user := Some(updatedUser);
      PersistSession();
    }

    /** Ends the session; the database is untouched. */
    method Logout()
      requires Valid()
      modifies this
      ensures Valid()
      ensures user == None && db == old(db)
    {
      user := None;
      PersistSession();
    }
  }

  /** A registration followed by a logout and a login with the same cedula
      finds the fresh account: no visits, nothing redeemed. */
  method RegisterLogoutLogin(s: Store, cedula: string, name: string, phone: string) returns (ok: bool)
    requires s.Valid()
    modifies s
    ensures s.Valid()
    ensures ok
    ensures s.user == Some(User(cedula, name, 0, []))
    ensures s.Synced()
  {
    s.Register(cedula, name, phone);
    s.Logout();
    ok := s.Login(cedula);
  }

  /** `n` calls of addVisit in a row: the session account gains exactly `n`
      visits, nothing else about it changes, and after at least one call it is
      the account stored under its cedula. */
  method AddVisits(s: Store, n: nat)
    requires s.Valid() && s.user.Some?
    modifies s
    ensures s.Valid()
    ensures s.user == Some(VisitedTimes(old(s.user.value), n))
    ensures s.user.value == old(s.user.value).(visits := old(s.user.value).visits + n)
    ensures n == 0 ==> s.db == old(s.db)
    ensures n > 0 ==> s.db == old(s.db)[old(s.user.value.cedula) := s.user.value]
    ensures n > 0 ==> s.Synced()
  {
    for i := 0 to n
      invariant s.Valid()
      invariant s.user == Some(VisitedTimes(old(s.user.value), i))
      invariant s.user.value.cedula == old(s.user.value.cedula)
      invariant i == 0 ==> s.db == old(s.db)
      invariant i > 0 ==> s.db == old(s.db)[old(s.user.value.cedula) := s.user.value]
      invariant i > 0 ==> s.Synced()
    {
      s.AddVisit();
    }
    VisitedTimesAddsN(old(s.user.value), n);
  }
}
