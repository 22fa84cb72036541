// storage.js: one persisted record holding every user, the current-user id
// and the language preference.  Every read returns a copy of the whole record
// (values here); every write replaces a whole unit of it.

module Storage {
  import opened Ledger

  /** The record under the key earnBTCPerMinDB.  `currentUser` is the nullable
      current-user id; `userLang` is None when the key is missing. */
  datatype Db = Db(users: seq<User>, currentUser: Option<int>, userLang: Option<string>)

  /** `getInitialData`: the seed written on first start. */
  function InitialData(): (d: Db)
    ensures |d.users| == 1 && LedgerInvariant(d.users)
    ensures d.users[0].id == 1 && d.users[0].role == AdminRole && !d.users[0].suspended
    ensures d.users[0].wallets == [] && d.users[0].earningsHistory == []
    ensures d.currentUser == None && d.userLang == Some("en")
  {
    Db([User(1, "superadmin@example.com", "superadmin", "Alperen1", AdminRole, false, [], [])],
       None, Some("en"))
  }

  /** The record `init` leaves in the slot: the seed when it was empty, otherwise what was there. */
  function AfterInit(slot: Option<Db>): Db {
    if slot.None? then InitialData() else slot.value
  }

  /** `init` run twice is `init` run once. */
  lemma InitIdempotent(slot: Option<Db>)
    ensures AfterInit(Some(AfterInit(slot))) == AfterInit(slot)
    ensures slot.Some? ==> AfterInit(slot) == slot.value
  {
  }

  // ---------------------------------------------------------------------------
  // Lookups: `users.find` and `users.findIndex`

  /** The index of the first user with `id`. */
  function IndexOfId(users: seq<User>, id: int): (r: Option<nat>)
    ensures r.Some? ==> r.value < |users| && users[r.value].id == id
    ensures r.Some? ==> forall j :: 0 <= j < r.value ==> users[j].id != id
    ensures r.None? ==> forall j :: 0 <= j < |users| ==> users[j].id != id
  {
    FindIndex(users, (u: User) => u.id == id)
  }

  /** The index of the first user with `email`. */
  function IndexOfEmail(users: seq<User>, email: string): (r: Option<nat>)
    ensures r.Some? ==> r.value < |users| && users[r.value].email == email
    ensures r.Some? ==> forall j :: 0 <= j < r.value ==> users[j].email != email
    ensures r.None? ==> forall j :: 0 <= j < |users| ==> users[j].email != email
  {
    FindIndex(users, (u: User) => u.email == email)
  }

  /** `findUserById`: the first user with `id`, or nothing when no user has it. */
  function FindById(users: seq<User>, id: int): (r: Option<User>)
    ensures r.None? <==> forall j :: 0 <= j < |users| ==> users[j].id != id
    ensures r.Some? ==> r.value.id == id && r.value in users
    ensures r.Some? ==> r.value == users[IndexOfId(users, id).value]
  {
    match IndexOfId(users, id)
    case Some(k) => Some(users[k])
    case None => None
  }

  /** `findUserByEmail`: the first user with `email`, or nothing when no user has it. */
  function FindByEmail(users: seq<User>, email: string): (r: Option<User>)
    ensures r.None? <==> forall j :: 0 <= j < |users| ==> users[j].email != email
    ensures r.Some? ==> r.value.email == email && r.value in users
    ensures r.Some? ==> r.value == users[IndexOfEmail(users, email).value]
  {
    match IndexOfEmail(users, email)
    case Some(k) => Some(users[k])
    case None => None
  }

  /** With unique ids, looking a stored user up by its id gives back that user. */
  lemma FindByIdUnique(users: seq<User>, k: nat)
    requires IdsUnique(users) && k < |users|
    ensures FindById(users, users[k].id) == Some(users[k])
  {
  }

  // ---------------------------------------------------------------------------
  // saveUser: upsert by id

  /** The user list `saveUser(u)` writes: the first user with u's id replaced
      by `u`, or, when no user has that id, `u` under `freshId` appended. */
  function SavedUsers(users: seq<User>, u: User, freshId: int): (r: seq<User>)
    ensures |r| == if IndexOfId(users, u.id).Some? then |users| else |users| + 1
    ensures SavedUser(users, u, freshId) in r
  {
    match IndexOfId(users, u.id)
    case Some(k) => assert users[k := u][k] == u; users[k := u]
    case None => assert (users + [u.(id := freshId)])[|users|] == u.(id := freshId); users + [u.(id := freshId)]
  }

  /** The record `saveUser(u)` returns. */
  function SavedUser(users: seq<User>, u: User, freshId: int): (r: User)
    ensures r.(id := u.id) == u
    ensures r.id == u.id || r.id == freshId
  {
    if IndexOfId(users, u.id).Some? then u else u.(id := freshId)
  }

  /** Saving a record whose id is stored replaces the first user with that id
      in place; the count and every other user stay as they were. */
  lemma SaveUserReplaces(users: seq<User>, u: User, freshId: int)
    requires IndexOfId(users, u.id).Some?
    ensures var k := IndexOfId(users, u.id).value;
            var r := SavedUsers(users, u, freshId);
            && |r| == |users| && r[k] == u && SavedUser(users, u, freshId) == u
            && forall j :: 0 <= j < |users| && j != k ==> r[j] == users[j]
  {
  }

  /** Saving a record whose id is not stored appends it under the fresh id:
      the count grows by one and every earlier user stays. */
  lemma SaveUserAppends(users: seq<User>, u: User, freshId: int)
    requires IndexOfId(users, u.id).None?
    ensures var r := SavedUsers(users, u, freshId);
            && |r| == |users| + 1 && r[..|users|] == users
            && r[|users|] == u.(id := freshId) == SavedUser(users, u, freshId)
  {
    assert SavedUsers(users, u, freshId)[..|users|] == users;
  }

  /** After a save, looking up the saved id yields exactly the record saved:
      nothing of the record it replaced survives. */
  lemma SaveUserThenFind(users: seq<User>, u: User, freshId: int)
    requires IndexOfId(users, u.id).Some? || IndexOfId(users, freshId).None?
    ensures var s := SavedUser(users, u, freshId);
            FindById(SavedUsers(users, u, freshId), s.id) == Some(s)
  {
    var r := SavedUsers(users, u, freshId);
    var s := SavedUser(users, u, freshId);
    match IndexOfId(users, u.id)
    case Some(k) =>
      assert r[k].id == u.id;
    case None =>
      assert r[|users|].id == freshId;
  }

  /** Whole-record overwrite: saving `v` after `u` under the same stored id is
      the same as saving `v` alone, so everything `u` changed is lost. */
  lemma SaveUserLastWriterWins(users: seq<User>, u: User, v: User, f1: int, f2: int)
    requires IndexOfId(users, u.id).Some? && v.id == u.id
    ensures SavedUsers(SavedUsers(users, u, f1), v, f2) == SavedUsers(users, v, f2)
  {
    var k := IndexOfId(users, u.id).value;
    var r := SavedUsers(users, u, f1);
    assert r[k].id == v.id;
    assert forall j :: 0 <= j < k ==> r[j] == users[j];
    assert IndexOfId(r, v.id) == Some(k);
  }

  /** Saving a well-formed record of a stored user with its e-mail unchanged keeps the invariant. */
  lemma SaveExistingKeepsInvariant(users: seq<User>, u: User, freshId: int)
    requires LedgerInvariant(users)
    requires FindById(users, u.id).Some? && FindById(users, u.id).value.email == u.email
    requires WellFormed(u)
    ensures LedgerInvariant(SavedUsers(users, u, freshId))
  {
    ReplaceKeepsInvariant(users, IndexOfId(users, u.id).value, u);
  }

  // ---------------------------------------------------------------------------
  // The persisted slot

  /** localStorage under one key: empty before the first `init`. */
  class Store {
    var slot: Option<Db>

    constructor (persisted: Option<Db>)
      ensures slot == persisted
    {
      slot := persisted;
    }

    /** The record exists; every accessor but `init` dereferences it. */
    predicate Ready()
      reads this
    {
      slot.Some?
    }

    /** `init`: seeds an empty store, leaves a non-empty one alone. */
    method Init()
      modifies this
      ensures slot == Some(AfterInit(old(slot)))
      ensures old(slot).None? ==> slot == Some(InitialData())
      ensures old(slot).Some? ==> slot == old(slot)
    {
      if slot.None? {
        slot := Some(InitialData());
      }
    }

    /** `getAllUsers`: a copy of the stored user list. */
    function GetAllUsers(): (r: seq<User>)
      reads this
      requires Ready()
      ensures r == slot.value.users
    {
      slot.value.users
    }

    /** `saveAllUsers`: replaces the user list; current-user id and language are kept. */
    method SaveAllUsers(users: seq<User>)
      requires Ready()
      modifies this
      ensures slot == Some(old(slot).value.(users := users))
    {
      var db := slot.value;
      slot := Some(db.(users := users));
    }

    /** `findUserByEmail` over a fresh read. */
    function FindUserByEmail(email: string): (r: Option<User>)
      reads this
      requires Ready()
      ensures r == FindByEmail(slot.value.users, email)
    {
      FindByEmail(GetAllUsers(), email)
    }

    /** `findUserById` over a fresh read. */
    function FindUserById(id: int): (r: Option<User>)
      reads this
      requires Ready()
      ensures r == FindById(slot.value.users, id)
    {
      FindById(GetAllUsers(), id)
    }

    /** `saveUser`: upsert by id.  The fresh id stands for `Date.now()`, which
        the source does not check against the stored ids; it must be absent
        whenever it is used. */
    method SaveUser(u: User, freshId: int) returns (saved: User)
      requires Ready()
      requires IndexOfId(slot.value.users, u.id).Some? || IndexOfId(slot.value.users, freshId).None?
      modifies this
      ensures saved == SavedUser(old(slot).value.users, u, freshId)
      ensures slot == Some(old(slot).value.(users := SavedUsers(old(slot).value.users, u, freshId)))
      ensures FindById(slot.value.users, saved.id) == Some(saved)
    {
      SaveUserThenFind(slot.value.users, u, freshId);
      var users := GetAllUsers();
      var userIndex := IndexOfId(users, u.id);
      saved := u;
      if userIndex.Some? {
        users := users[userIndex.value := saved];
      } else {
        saved := saved.(id := freshId);
        users := users + [saved];
      }
      SaveAllUsers(users);
    }

    /** `getCurrentUserId`. */
    function GetCurrentUserId(): (r: Option<int>)
      reads this
      requires Ready()
      ensures r == slot.value.currentUser
    {
      slot.value.currentUser
    }

    /** `setCurrentUserId`: changes the current-user id only. */
    method SetCurrentUserId(id: int)
      requires Ready()
      modifies this
      ensures slot == Some(old(slot).value.(currentUser := Some(id)))
    {
      var db := slot.value;
      slot := Some(db.(currentUser := Some(id)));
    }

    /** `clearCurrentUserId`: nulls the current-user id only. */
    method ClearCurrentUserId()
      requires Ready()
      modifies this
      ensures slot == Some(old(slot).value.(currentUser := None))
    {
      var db := slot.value;
      slot := Some(db.(currentUser := None));
    }

    /** `getUserLang`: the stored language, or "en" when it is missing or empty. */
    function GetUserLang(): (r: string)
      reads this
      requires Ready()
      ensures r != ""
      ensures slot.value.userLang.Some? && slot.value.userLang.value != "" ==> r == slot.value.userLang.value
      ensures slot.value.userLang.None? || slot.value.userLang.value == "" ==> r == "en"
    {
      match slot.value.userLang
      case Some(lang) => if lang != "" then lang else "en"
      case None => "en"
    }

    /** `setUserLang`: changes the language only; None is an undefined language,
        which serialisation drops, leaving the key missing. */
    method SetUserLang(lang: Option<string>)
      requires Ready()
      modifies this
      ensures slot == Some(old(slot).value.(userLang := lang))
    {
      var db := slot.value;
      slot := Some(db.(userLang := lang));
    }
  }
}
