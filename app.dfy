// app.js: the session state (the signed-in user's copy of their record and
// the registry of accrual timers), the host's interval timers, and the
// handlers that read, change and write back the persisted ledger.  Each
// handler and each tick runs to completion; an interleaving is a sequence of
// calls.  Dialog answers and clock readings are parameters.

module App {
  import opened Ledger
  import opened Storage

  // ---------------------------------------------------------------------------
  // Rules and user-list edits of the handlers, as values

  /** The checks of handleAddWallet, in its order: an empty or cancelled
      prompt, the address format, then a duplicate in the given wallets. */
  function CheckNewAddress(input: Option<string>, existing: seq<Wallet>): (r: Outcome)
    ensures r == Done || r == Cancelled || r == InvalidAddressFormat || r == DuplicateAddress
    ensures r == Cancelled <==> input.None? || input.value == ""
    ensures r == InvalidAddressFormat <==> input.Some? && input.value != "" && !IsBtcAddress(input.value)
    ensures r == Done <==>
              && input.Some? && IsBtcAddress(input.value)
              && forall k :: 0 <= k < |existing| ==> existing[k].address != input.value
  {
    if input.None? || input.value == "" then Cancelled
    else if !IsBtcAddress(input.value) then InvalidAddressFormat
    else if IndexOfAddress(existing, input.value).Some? then DuplicateAddress
    else Done
  }

  /** The record handleRegister creates; `id` is the clock reading saveUser assigns. */
  function NewUser(id: int, username: string, email: string, password: string): User {
    User(id, email, username, password, UserRole, false, [], [])
  }

  /** A registration is what a later login finds: the appended record is the
      first with its e-mail, carries the password and is not suspended. */
  lemma RegisteredUserCanLogIn(users: seq<User>, id: int, username: string, email: string, password: string)
    requires IndexOfEmail(users, email).None?
    ensures var u := NewUser(id, username, email, password);
            && FindByEmail(users + [u], email) == Some(u)
            && u.password == password && !u.suspended && u.role == UserRole
  {
    var u := NewUser(id, username, email, password);
    assert (users + [u])[|users|] == u;
  }

  /** The user list handleSuspendUser writes: the first user with `id` has its
      suspended flag flipped and nothing else changed; no role is consulted. */
  function ToggleSuspended(users: seq<User>, id: int): (r: seq<User>)
    ensures |r| == |users|
    ensures IndexOfId(users, id).None? ==> r == users
    ensures IndexOfId(users, id).Some? ==>
              var k := IndexOfId(users, id).value;
              && r[k].suspended == !users[k].suspended
              && r[k].(suspended := users[k].suspended) == users[k]
              && forall j :: 0 <= j < |users| && j != k ==> r[j] == users[j]
  {
    match IndexOfId(users, id)
    case Some(k) => users[k := users[k].(suspended := !users[k].suspended)]
    case None => users
  }

  /** `users.filter(u => u.id !== userId)`: handleDeleteUser's list. */
  function RemoveUsers(users: seq<User>, id: int): (r: seq<User>)
    ensures forall u :: u in r <==> u in users && u.id != id
    ensures |r| <= |users|
  {
    if users == [] then []
    else (if users[0].id == id then [] else [users[0]]) + RemoveUsers(users[1..], id)
  }

  /** Removing users keeps the order of the others: it distributes over concatenation. */
  lemma {:induction false} RemoveUsersConcat(a: seq<User>, b: seq<User>, id: int)
    ensures RemoveUsers(a + b, id) == RemoveUsers(a, id) + RemoveUsers(b, id)
  {
    if a != [] {
      assert (a + b)[1..] == a[1..] + b;
      RemoveUsersConcat(a[1..], b, id);
    } else {
      assert a + b == b;
    }
  }

  /** Dropping the first user keeps the invariant. */
  lemma TailKeepsInvariant(users: seq<User>)
    requires LedgerInvariant(users) && users != []
    ensures LedgerInvariant(users[1..])
  {
    var t := users[1..];
    forall i, j | 0 <= i < j < |t| ensures t[i].id != t[j].id && t[i].email != t[j].email {
      assert t[i] == users[i + 1] && t[j] == users[j + 1];
    }
  }

  /** Putting a user whose id and e-mail are new in front keeps the invariant. */
  lemma PrependKeepsInvariant(u: User, rest: seq<User>)
    requires LedgerInvariant(rest)
    requires u.id > 0 && WellFormed(u)
    requires forall v :: v in rest ==> v.id != u.id && v.email != u.email
    ensures LedgerInvariant([u] + rest)
  {
    var r := [u] + rest;
    forall i, j | 0 <= i < j < |r| ensures r[i].id != r[j].id && r[i].email != r[j].email {
      assert r[j] == rest[j - 1];
      if i > 0 {
        assert r[i] == rest[i - 1];
      } else {
        assert rest[j - 1] in rest;
      }
    }
    forall i | 0 <= i < |r| ensures r[i].id > 0 && WellFormed(r[i]) {
      if i > 0 {
        assert r[i] == rest[i - 1];
      }
    }
  }

  /** Deleting users keeps the ledger invariant. */
  lemma {:induction false} RemoveUsersKeepsInvariant(users: seq<User>, id: int)
    requires LedgerInvariant(users)
    ensures LedgerInvariant(RemoveUsers(users, id))
  {
    if users != [] {
      var rest := RemoveUsers(users[1..], id);
      TailKeepsInvariant(users);
      RemoveUsersKeepsInvariant(users[1..], id);
      if users[0].id != id {
        forall v | v in rest ensures v.id != users[0].id && v.email != users[0].email {
          var m :| 0 <= m < |users[1..]| && users[1..][m] == v;
          assert users[m + 1] == v;
        }
        PrependKeepsInvariant(users[0], rest);
        assert RemoveUsers(users, id) == [users[0]] + rest;
      } else {
        assert RemoveUsers(users, id) == [] + rest;
      }
    }
  }

  /** The user list handleUpdateBalance writes for a valid amount: the first
      user with `id` gets the wallet list ForceSet leaves; no role is consulted. */
  function OverrideBalance(users: seq<User>, id: int, amount: int, now: int): (r: seq<User>)
    ensures |r| == |users|
    ensures IndexOfId(users, id).None? ==> r == users
    ensures IndexOfId(users, id).Some? ==>
              var k := IndexOfId(users, id).value;
              && r[k].(wallets := users[k].wallets) == users[k]
              && r[k].wallets == ForceSet(users[k].wallets, amount, now)
              && forall j :: 0 <= j < |users| && j != k ==> r[j] == users[j]
  {
    match IndexOfId(users, id)
    case Some(k) => users[k := users[k].(wallets := ForceSet(users[k].wallets, amount, now))]
    case None => users
  }

  /** An override leaves the target's wallets summing to the amount, adds no
      earning record, and keeps the invariant when the amount is not negative. */
  lemma OverrideBalanceEffect(users: seq<User>, id: int, amount: int, now: int)
    requires IndexOfId(users, id).Some?
    ensures var k := IndexOfId(users, id).value;
            var r := OverrideBalance(users, id, amount, now);
            && Total(r[k].wallets) == amount
            && r[k].earningsHistory == users[k].earningsHistory
            && (LedgerInvariant(users) && amount >= 0 ==> LedgerInvariant(r))
  {
    var k := IndexOfId(users, id).value;
    ForceSetEffect(users[k].wallets, amount, now);
    if LedgerInvariant(users) && amount >= 0 {
      ReplaceKeepsInvariant(users, k, OverrideBalance(users, id, amount, now)[k]);
    }
  }

  /** None of the three admin actions checks the target's role: applied to the
      seeded administrator they suspend, override and delete it. */
  lemma AdminActionsIgnoreRole()
    ensures var seed := InitialData().users;
            && seed[0].role == AdminRole
            && ToggleSuspended(seed, 1)[0].suspended
            && Total(OverrideBalance(seed, 1, 5, 0)[0].wallets) == 5
            && RemoveUsers(seed, 1) == []
  {
    var seed := InitialData().users;
    OverrideBalanceEffect(seed, 1, 5, 0);
    assert RemoveUsers(seed, 1) == [] + RemoveUsers(seed[1..], 1);
  }

  /** Whether initializeApp takes the session branch: `if (currentUserId)`,
      which is false for a null id and for the id 0. */
  predicate HasSessionId(db: Db) {
    db.currentUser.Some? && db.currentUser.value != 0
  }

  /** The user initializeApp resumes from the current-user id: the first user with that
      id, unless there is none or it is suspended. */
  function ResumedUser(db: Db): (r: Option<User>)
    requires HasSessionId(db)
    ensures r.Some? <==>
              FindById(db.users, db.currentUser.value).Some? && !FindById(db.users, db.currentUser.value).value.suspended
    ensures r.Some? ==> r.value.id == db.currentUser.value && r.value in db.users && !r.value.suspended
  {
    match FindById(db.users, db.currentUser.value)
    case Some(u) => if u.suspended then None else Some(u)
    case None => None
  }

  // ---------------------------------------------------------------------------
  // The session copy against the stored record

  /** Every address of the `stored` wallets is one of the `session` wallets'
      addresses or the admin placeholder. */
  predicate Covers(session: seq<Wallet>, stored: seq<Wallet>) {
    forall j :: 0 <= j < |stored| ==>
      stored[j].address == PlaceholderAddress || IndexOfAddress(session, stored[j].address).Some?
  }

  lemma CoversItself(ws: seq<Wallet>)
    ensures Covers(ws, ws)
  {
    forall j | 0 <= j < |ws| ensures IndexOfAddress(ws, ws[j].address).Some? {
    }
  }

  /** An admin override keeps a record's addresses or leaves only the placeholder. */
  lemma ForceSetCovered(ws: seq<Wallet>, amount: int, now: int)
    ensures Covers(ws, ForceSet(ws, amount, now))
  {
    ForceSetEffect(ws, amount, now);
    CoversItself(ws);
  }

  /** handleAddWallet checks the new address against the session copy only,
      yet writes it into a fresh read.  That suffices: when the stored record's
      addresses are the session's or the placeholder, which no valid address
      equals, an address passing the checks is new to the stored record, so
      appending it keeps the addresses distinct. */
  lemma SessionCheckSuffices(session: seq<Wallet>, stored: seq<Wallet>, input: Option<string>, now: int)
    requires Covers(session, stored) && AddressesUnique(stored)
    requires CheckNewAddress(input, session) == Done
    ensures AddressesUnique(stored + [Wallet(input.value, 0, now)])
  {
    PlaceholderIsNotAnAddress();
    var r := stored + [Wallet(input.value, 0, now)];
    forall i, j | 0 <= i < j < |r| ensures r[i].address != r[j].address {
      assert r[i] == stored[i];
      if j < |stored| {
        assert r[j] == stored[j];
      } else if stored[i].address != PlaceholderAddress {
        var m := IndexOfAddress(session, stored[i].address).value;
        assert session[m].address == stored[i].address;
      }
    }
  }

  /** With unique ids a record is the only one with its id. */
  lemma SameIdSameRecord(users: seq<User>, v: User, w: User)
    requires IdsUnique(users) && v in users && w in users && v.id == w.id
    ensures v == w
  {
    var i :| 0 <= i < |users| && users[i] == v;
    var j :| 0 <= j < |users| && users[j] == w;
  }

  /** A handler saving an edited fresh read of the signed-in user's record
      keeps the invariant, replaces that record in place, and leaves it the
      only record with its id, so the saved record as the new session copy
      covers what is stored. */
  lemma SaveOwnRecord(users: seq<User>, prev: User, u: User, freshId: int)
    requires LedgerInvariant(users) && prev in users
    requires u.id == prev.id && u.email == prev.email && WellFormed(u)
    ensures IndexOfId(users, u.id).Some?
    ensures var r := SavedUsers(users, u, freshId);
            && r == users[IndexOfId(users, u.id).value := u]
            && LedgerInvariant(r)
            && forall v :: v in r && v.id == u.id ==> Covers(u.wallets, v.wallets)
  {
    var k := IndexOfId(users, u.id).value;
    SameIdSameRecord(users, prev, users[k]);
    SaveExistingKeepsInvariant(users, u, freshId);
    var r := users[k := u];
    forall v | v in r && v.id == u.id ensures Covers(u.wallets, v.wallets) {
      SameIdSameRecord(r, v, u);
      CoversItself(u.wallets);
    }
  }

  // ---------------------------------------------------------------------------
  // The lost-update hazard of whole-record writes

  /** Two ticks of one user's two wallets, both computed from the same snapshot
      and then saved one after the other: the final record is the second tick's
      alone, so the first wallet's credit and its history entry are lost. */
  lemma InterleavedTicksLoseCredit(users: seq<User>, id: int, a: string, b: string, t1: int, t2: int)
    requires FindById(users, id).Some? && a != b
    requires IndexOfAddress(FindById(users, id).value.wallets, a).Some?
    requires IndexOfAddress(FindById(users, id).value.wallets, b).Some?
    ensures var u := FindById(users, id).value;
            var c1 := Credit(u, a, t1).value;
            var c2 := Credit(u, b, t2).value;
            var final := SavedUsers(SavedUsers(users, c1, t1), c2, t2);
            && FindById(final, id) == Some(c2)
            && BalanceOf(c2.wallets, a) == BalanceOf(u.wallets, a)
            && BalanceOf(c2.wallets, b) == BalanceOf(u.wallets, b) + EarnRate
            && c2.earningsHistory == u.earningsHistory + [EarningRecord(t2, EarnRate, b)]
  {
    var u := FindById(users, id).value;
    var c1 := Credit(u, a, t1).value;
    var c2 := Credit(u, b, t2).value;
    SaveUserLastWriterWins(users, c1, c2, t1, t2);
    SaveUserThenFind(users, c2, t2);
    CreditEffect(u, b, t2);
  }

  /** The same two ticks as the handlers run them, each reading the record the
      other wrote: both credits and both history entries are kept. */
  lemma SequentialTicksKeepBoth(users: seq<User>, id: int, a: string, b: string, t1: int, t2: int)
    requires FindById(users, id).Some? && a != b
    requires IndexOfAddress(FindById(users, id).value.wallets, a).Some?
    requires IndexOfAddress(FindById(users, id).value.wallets, b).Some?
    ensures var u := FindById(users, id).value;
            var c1 := Credit(u, a, t1).value;
            && FindById(SavedUsers(users, c1, t1), id) == Some(c1)
            && IndexOfAddress(c1.wallets, b).Some?
            && var c2 := Credit(c1, b, t2).value;
               && BalanceOf(c2.wallets, a) == BalanceOf(u.wallets, a) + EarnRate
               && BalanceOf(c2.wallets, b) == BalanceOf(u.wallets, b) + EarnRate
               && c2.earningsHistory
                  == u.earningsHistory + [EarningRecord(t1, EarnRate, a), EarningRecord(t2, EarnRate, b)]
  {
    var u := FindById(users, id).value;
    var c1 := Credit(u, a, t1).value;
    SaveUserThenFind(users, c1, t1);
    CreditEffect(u, a, t1);
    CreditEffect(c1, b, t2);
  }

  // ---------------------------------------------------------------------------
  // The session

  /** The module-level `state` of app.js (the signed-in user's copy of their
      record and `earningIntervals`) with the host's live interval timers. */
  class Session {
    const store: Store
    /** `state.currentUser`: a copy of the signed-in user's record, or null. */
    var currentUser: Option<User>
    /** `state.earningIntervals`: the handles of the accrual timers started. */
    var earningIntervals: seq<nat>
    /** The host's live interval timers: handle to the wallet address its callback captured. */
    var timers: map<nat, string>
    /** The handle the next setInterval returns. */
    var nextHandle: nat

    /** The registry names exactly the live timers, each once; every handle was
        issued; timers run only while someone is signed in. */
    ghost predicate TimersOk()
      reads this
    {
      && (forall h :: h in timers <==> h in earningIntervals)
      && (forall i, j :: 0 <= i < j < |earningIntervals| ==> earningIntervals[i] != earningIntervals[j])
      && (forall h :: h in timers ==> h < nextHandle)
      && (|earningIntervals| > 0 ==> currentUser.Some?)
    }

    /** The stored record of the signed-in user holds no address the session
        copy lacks, except the admin placeholder. */
    ghost predicate SessionCovered()
      reads this, store
    {
      store.slot.Some? && currentUser.Some? ==>
        forall v :: v in store.slot.value.users && v.id == currentUser.value.id ==>
          Covers(currentUser.value.wallets, v.wallets)
    }

    ghost predicate Valid()
      reads this, store
    {
      && TimersOk()
      && (store.slot.Some? ==> LedgerInvariant(store.slot.value.users))
      && SessionCovered()
    }

    /** One live timer per wallet of `ws`, in order, each for that wallet's address. */
    ghost predicate RegistryMatches(ws: seq<Wallet>)
      reads this
    {
      && |earningIntervals| == |ws|
      && forall k :: 0 <= k < |ws| ==> earningIntervals[k] in timers && timers[earningIntervals[k]] == ws[k].address
    }

    /** Page load, before initializeApp: nobody signed in, no timers. */
    constructor (store: Store)
      requires store.slot.Some? ==> LedgerInvariant(store.slot.value.users)
      ensures Valid() && this.store == store
      ensures currentUser == None && earningIntervals == [] && timers == map[]
    {
      this.store := store;
      currentUser := None;
      earningIntervals := [];
      timers := map[];
      nextHandle := 1;
    }

    // --- Earning logic -------------------------------------------------------

    /** stopEarning: clears every registered timer and empties the registry;
        with nothing registered it does nothing. */
    method StopEarning()
      requires TimersOk()
      modifies this
      ensures TimersOk()
      ensures earningIntervals == [] && timers == map[]
      ensures currentUser == old(currentUser) && nextHandle == old(nextHandle)
    {
      var i := 0;
      while i < |earningIntervals|
        invariant 0 <= i <= |earningIntervals|
        invariant earningIntervals == old(earningIntervals)
        invariant currentUser == old(currentUser) && nextHandle == old(nextHandle)
        invariant forall h :: h in timers <==> h in old(timers) && h !in earningIntervals[..i]
      {
        assert earningIntervals[..i + 1] == earningIntervals[..i] + [earningIntervals[i]];
        timers := timers - {earningIntervals[i]};   // clearInterval
        i := i + 1;
      }
      assert earningIntervals[..i] == earningIntervals;
      assert timers.Keys == {};
      earningIntervals := [];
    }

    /** startEarning: stops every timer, then starts one per wallet of the
        session's copy of the record, each capturing that wallet's address. */
    method StartEarning()
      requires TimersOk() && currentUser.Some?
      modifies this
      ensures currentUser == old(currentUser)
      ensures TimersOk() && RegistryMatches(currentUser.value.wallets)
      ensures forall h :: h in old(timers) ==> h !in timers
    {
      StopEarning();
      var wallets := currentUser.value.wallets;
      ghost var first := nextHandle;
      var i := 0;
      while i < |wallets|
        invariant 0 <= i <= |wallets|
        invariant currentUser == old(currentUser) && first <= nextHandle
        invariant TimersOk() && RegistryMatches(wallets[..i])
        invariant forall h :: h in timers ==> first <= h
      {
        var handle := nextHandle;                  // setInterval
        nextHandle := nextHandle + 1;
        timers := timers[handle := wallets[i].address];
        earningIntervals := earningIntervals + [handle];
        i := i + 1;
      }
      assert wallets[..i] == wallets;
    }

    /** One firing of the timer `handle` (app.js:222-243): reads the session
        user's record afresh, credits the wallet the timer captured, appends one
        earning record, writes the whole record back and makes it the session
        copy.  A missing wallet makes the firing do nothing, and the timer
        stays registered; a missing user makes it throw before any write. */
    method Tick(handle: nat, now: int) returns (outcome: Outcome)
      requires Valid() && store.Ready() && handle in timers
      modifies this, store
      ensures Valid() && store.Ready()
      ensures timers == old(timers) && earningIntervals == old(earningIntervals) && nextHandle == old(nextHandle)
      ensures old(currentUser).Some?
      ensures var users := old(store.slot).value.users;
              match FindById(users, old(currentUser).value.id)
              case None =>
                outcome == TypeErrorThrown && store.slot == old(store.slot) && currentUser == old(currentUser)
              case Some(u) =>
                match Credit(u, old(timers)[handle], now)
                case None =>
                  outcome == WalletNotFound && store.slot == old(store.slot) && currentUser == old(currentUser)
                case Some(c) =>
                  && outcome == Done && currentUser == Some(c)
                  && store.slot == Some(old(store.slot).value.(users := users[IndexOfId(users, c.id).value := c]))
    {
      var address := timers[handle];
      var found := store.FindUserById(currentUser.value.id);   // fresh read
      if found.None? {
        return TypeErrorThrown;
      }
      var user := found.value;
      var walletIndex := IndexOfAddress(user.wallets, address);
      if walletIndex.None? {
        return WalletNotFound;
      }
      var k := walletIndex.value;
      var w := user.wallets[k];
      user := user.(wallets := user.wallets[k := w.(balance := w.balance + EarnRate)]);
      user := user.(earningsHistory := user.earningsHistory + [EarningRecord(now, EarnRate, address)]);
      currentUser := Some(user);
      ghost var users := store.slot.value.users;
      assert WellFormed(user) by {
        assert found.value == users[IndexOfId(users, found.value.id).value];
        assert user == Credit(found.value, address, now).value;
        CreditKeepsWellFormed(found.value, address, now);
      }
      SaveOwnRecord(users, found.value, user, now);
      var saved := store.SaveUser(user, now);
      outcome := Done;
    }

    // --- Authentication ------------------------------------------------------

    /** handleLogout: stops every timer, nulls the stored current-user id and the session. */
    method Logout()
      requires Valid() && store.Ready()
      modifies this, store
      ensures Valid() && store.Ready()
      ensures currentUser == None && earningIntervals == [] && timers == map[]
      ensures store.slot == Some(old(store.slot).value.(currentUser := None))
    {
      StopEarning();
      store.ClearCurrentUserId();
      currentUser := None;
    }

    /** The ledger part of initializeApp (app.js:389-411): seeds an empty store;
        with a current-user id it resumes that user (session copy and one timer
        per wallet) or, when the user is missing or suspended, logs out; without
        one it changes nothing else. */
    method InitializeApp()
      requires Valid()
      modifies this, store
      ensures Valid() && store.Ready()
      ensures var db := AfterInit(old(store.slot));
              && (!HasSessionId(db) ==>
                    && store.slot == Some(db) && currentUser == old(currentUser)
                    && timers == old(timers) && earningIntervals == old(earningIntervals))
              && (HasSessionId(db) && ResumedUser(db).Some? ==>
                    && store.slot == Some(db) && currentUser == ResumedUser(db)
                    && RegistryMatches(ResumedUser(db).value.wallets))
              && (HasSessionId(db) && ResumedUser(db).None? ==>
                    && store.slot == Some(db.(currentUser := None)) && currentUser == None
                    && timers == map[] && earningIntervals == [])
    {
      store.Init();
      var currentUserId := store.GetCurrentUserId();
      if currentUserId.Some? && currentUserId.value != 0 {
        var user := store.FindUserById(currentUserId.value);
        if user.Some? && !user.value.suspended {
          currentUser := user;
          ghost var users := store.slot.value.users;
          forall v | v in users && v.id == user.value.id ensures Covers(user.value.wallets, v.wallets) {
            SameIdSameRecord(users, v, user.value);
            CoversItself(v.wallets);
          }
          StartEarning();
        } else {
          Logout();   // clear an invalid session
        }
      }
    }

    /** handleLogin: the first user with the e-mail must have the password and
        not be suspended; then the current-user id is set and the app re-initialised,
        which resumes that user. */
    method Login(email: string, password: string) returns (outcome: Outcome)
      requires Valid() && store.Ready()
      modifies this, store
      ensures Valid() && store.Ready()
      ensures var found := FindByEmail(old(store.slot).value.users, email);
              && (found.None? || found.value.password != password ==> outcome == InvalidCredentials)
              && (found.Some? && found.value.password == password && found.value.suspended ==>
                    outcome == AccountSuspended)
              && (found.Some? && found.value.password == password && !found.value.suspended ==>
                    outcome == Done)
              && (outcome != Done ==>
                    && store.slot == old(store.slot) && currentUser == old(currentUser)
                    && timers == old(timers) && earningIntervals == old(earningIntervals))
              && (outcome == Done ==>
                    && found.Some? && found.value.password == password && !found.value.suspended
                    && store.slot == Some(old(store.slot).value.(currentUser := Some(found.value.id)))
                    && currentUser == found && RegistryMatches(found.value.wallets))
    {
      var user := store.FindUserByEmail(email);
      if user.Some? && user.value.password == password {
        if user.value.suspended {
          return AccountSuspended;
        }
        ghost var users := store.slot.value.users;
        ghost var k := IndexOfEmail(users, email).value;
        FindByIdUnique(users, k);
        store.SetCurrentUserId(user.value.id);
        InitializeApp();
        outcome := Done;
      } else {
        outcome := InvalidCredentials;
      }
    }

    /** handleRegister: a used e-mail is refused and nothing changes; otherwise
        a new plain user is appended under the clock reading `now` (as saveUser
        assigns it), the current-user id is set to it and the app re-initialised, which
        signs the new user in with no timers.  `now` is a Date.now() reading;
        saveUser does not check it against the stored ids, so it must be new. */
    method Register(username: string, email: string, password: string, now: int) returns (outcome: Outcome)
      requires Valid() && store.Ready() && now > 0
      requires IndexOfEmail(store.slot.value.users, email).None? ==> IndexOfId(store.slot.value.users, now).None?
      modifies this, store
      ensures Valid() && store.Ready()
      ensures var users := old(store.slot).value.users;
              && (IndexOfEmail(users, email).Some? ==>
                    && outcome == DuplicateEmail && store.slot == old(store.slot)
                    && currentUser == old(currentUser) && timers == old(timers)
                    && earningIntervals == old(earningIntervals))
              && (IndexOfEmail(users, email).None? ==>
                    var u := NewUser(now, username, email, password);
                    && outcome == Done
                    && store.slot == Some(old(store.slot).value.(users := users + [u], currentUser := Some(now)))
                    && currentUser == Some(u) && earningIntervals == [])
    {
      var existing := store.FindUserByEmail(email);
      if existing.Some? {
        return DuplicateEmail;
      }
      // The new record carries no id until saveUser assigns the clock reading;
      // `now` stands for it here, and it is absent, so saveUser appends.
      var newUser := NewUser(now, username, email, password);
      ghost var users := store.slot.value.users;
      AppendKeepsInvariant(users, newUser);
      var savedUser := store.SaveUser(newUser, now);
      store.SetCurrentUserId(savedUser.id);
      FindByIdUnique(users + [newUser], |users|);
      InitializeApp();
      outcome := Done;
    }

    // --- Wallet management ---------------------------------------------------

    /** handleAddWallet: the prompt answer is checked against the session copy's
        wallets; the wallet (balance 0) is appended to a fresh read of the
        record, which is written back and becomes the session copy; the timers
        are restarted. */
    method AddWallet(input: Option<string>, now: int) returns (outcome: Outcome)
      requires Valid() && store.Ready() && currentUser.Some?
      modifies this, store
      ensures Valid() && store.Ready()
      ensures var check := CheckNewAddress(input, old(currentUser).value.wallets);
              var users := old(store.slot).value.users;
              var reread := FindById(users, old(currentUser).value.id);
              && (check != Done ==> outcome == check)
              && (check == Done && reread.None? ==> outcome == TypeErrorThrown)
              && (check == Done && reread.Some? ==> outcome == Done)
              && (outcome != Done ==>
                    && store.slot == old(store.slot) && currentUser == old(currentUser)
                    && timers == old(timers) && earningIntervals == old(earningIntervals))
              && (outcome == Done ==>
                    && check == Done && reread.Some?
                    && var u := reread.value.(wallets := reread.value.wallets + [Wallet(input.value, 0, now)]);
                       && store.slot == Some(old(store.slot).value.(users := users[IndexOfId(users, u.id).value := u]))
                       && currentUser == Some(u) && RegistryMatches(u.wallets))
    {
      outcome := CheckNewAddress(input, currentUser.value.wallets);
      if outcome != Done {
        return;
      }
      var address := input.value;
      var found := store.FindUserById(currentUser.value.id);
      if found.None? {
        return TypeErrorThrown;
      }
      var user := found.value;
      user := user.(wallets := user.wallets + [Wallet(address, 0, now)]);
      ghost var users := store.slot.value.users;
      assert WellFormed(user) by {
        assert found.value == users[IndexOfId(users, found.value.id).value];
        SessionCheckSuffices(currentUser.value.wallets, found.value.wallets, input, now);
      }
      SaveOwnRecord(users, found.value, user, now);
      var saved := store.SaveUser(user, now);
      currentUser := Some(user);
      StartEarning();
    }

    /** handleDeleteWallet: when confirmed, every wallet with the address is
        removed from a fresh read of the record (history untouched), which is
        written back and becomes the session copy; the timers are restarted, so
        none is left for that address. */
    method DeleteWallet(address: string, confirmed: bool) returns (outcome: Outcome)
      requires Valid() && store.Ready() && currentUser.Some?
      modifies this, store
      ensures Valid() && store.Ready()
      ensures var users := old(store.slot).value.users;
              var reread := FindById(users, old(currentUser).value.id);
              && (!confirmed ==> outcome == Cancelled)
              && (confirmed && reread.None? ==> outcome == TypeErrorThrown)
              && (confirmed && reread.Some? ==> outcome == Done)
              && (outcome != Done ==>
                    && store.slot == old(store.slot) && currentUser == old(currentUser)
                    && timers == old(timers) && earningIntervals == old(earningIntervals))
              && (outcome == Done ==>
                    && confirmed && reread.Some?
                    && var u := reread.value.(wallets := RemoveWallets(reread.value.wallets, address));
                       && store.slot == Some(old(store.slot).value.(users := users[IndexOfId(users, u.id).value := u]))
                       && currentUser == Some(u) && RegistryMatches(u.wallets)
                       && forall h :: h in timers ==> timers[h] != address)
    {
      if !confirmed {
        return Cancelled;
      }
      var found := store.FindUserById(currentUser.value.id);
      if found.None? {
        return TypeErrorThrown;
      }
      var user := found.value;
      user := user.(wallets := RemoveWallets(user.wallets, address));
      ghost var users := store.slot.value.users;
      assert WellFormed(user) by {
        assert found.value == users[IndexOfId(users, found.value.id).value];
        forall k | 0 <= k < |user.wallets| ensures user.wallets[k].balance >= 0 {
          assert user.wallets[k] in found.value.wallets;
        }
        RemoveWalletsKeepsUnique(found.value.wallets, address);
      }
      SaveOwnRecord(users, found.value, user, user.id);
      var saved := store.SaveUser(user, user.id);
      currentUser := Some(user);
      StopEarning();
      StartEarning();
      forall h | h in timers ensures timers[h] != address {
        var k :| 0 <= k < |earningIntervals| && earningIntervals[k] == h;
        assert user.wallets[k] in user.wallets;
      }
      outcome := Done;
    }

    /** handleWithdraw: the minimum is checked on the session copy's wallet;
        then the first wallet with the address in a fresh read is set to 0 and
        the record written back and made the session copy.  The timers are not
        touched. */
    method Withdraw(address: string) returns (outcome: Outcome)
      requires Valid() && store.Ready() && currentUser.Some?
      modifies this, store
      ensures Valid() && store.Ready()
      ensures timers == old(timers) && earningIntervals == old(earningIntervals)
      ensures var session := old(currentUser).value.wallets;
              var i := IndexOfAddress(session, address);
              var users := old(store.slot).value.users;
              var reread := FindById(users, old(currentUser).value.id);
              && (i.None? ==> outcome == TypeErrorThrown)
              && (i.Some? && session[i.value].balance < MinWithdrawal ==> outcome == BelowWithdrawalMinimum)
              && (i.Some? && session[i.value].balance >= MinWithdrawal
                  && (reread.None? || IndexOfAddress(reread.value.wallets, address).None?) ==>
                    outcome == TypeErrorThrown)
              && (i.Some? && session[i.value].balance >= MinWithdrawal
                  && reread.Some? && IndexOfAddress(reread.value.wallets, address).Some? ==>
                    outcome == Done)
              && (outcome != Done ==> store.slot == old(store.slot) && currentUser == old(currentUser))
              && (outcome == Done ==>
                    && i.Some? && session[i.value].balance >= MinWithdrawal
                    && reread.Some? && IndexOfAddress(reread.value.wallets, address).Some?
                    && var j := IndexOfAddress(reread.value.wallets, address).value;
                       var u := reread.value.(wallets := reread.value.wallets[j := reread.value.wallets[j].(balance := 0)]);
                       && store.slot == Some(old(store.slot).value.(users := users[IndexOfId(users, u.id).value := u]))
                       && currentUser == Some(u))
    {
      var wallet := IndexOfAddress(currentUser.value.wallets, address);
      if wallet.None? {
        return TypeErrorThrown;     // wallet.balance of undefined
      }
      if currentUser.value.wallets[wallet.value].balance < MinWithdrawal {
        return BelowWithdrawalMinimum;
      }
      var found := store.FindUserById(currentUser.value.id);
      if found.None? {
        return TypeErrorThrown;
      }
      var user := found.value;
      var walletToUpdate := IndexOfAddress(user.wallets, address);
      if walletToUpdate.None? {
        return TypeErrorThrown;
      }
      var j := walletToUpdate.value;
      user := user.(wallets := user.wallets[j := user.wallets[j].(balance := 0)]);
      ghost var users := store.slot.value.users;
      assert WellFormed(user) by {
        assert found.value == users[IndexOfId(users, found.value.id).value];
        assert forall m :: 0 <= m < |user.wallets| ==> user.wallets[m].address == found.value.wallets[m].address;
      }
      SaveOwnRecord(users, found.value, user, user.id);
      var saved := store.SaveUser(user, user.id);
      currentUser := Some(user);
      outcome := Done;
    }

    // --- Admin actions -------------------------------------------------------
    // Each reads the whole user list, edits it and writes the whole list back;
    // none consults a role, and none touches the session.

    /** handleSuspendUser: flips the suspended flag of the first user with the id. */
    method SuspendUser(userId: int) returns (outcome: Outcome)
      requires Valid() && store.Ready()
      modifies store
      ensures Valid() && store.Ready()
      ensures outcome == (if IndexOfId(old(store.slot).value.users, userId).Some? then Done else UserNotFound)
      ensures store.slot == Some(old(store.slot).value.(users := ToggleSuspended(old(store.slot).value.users, userId)))
    {
      var allUsers := store.GetAllUsers();
      var userIndex := IndexOfId(allUsers, userId);
      if userIndex.None? {
        return UserNotFound;
      }
      var k := userIndex.value;
      var user := allUsers[k];
      user := user.(suspended := !user.suspended);
      ReplaceKeepsInvariant(allUsers, k, user);
      allUsers := allUsers[k := user];
      store.SaveAllUsers(allUsers);
      outcome := Done;
    }

    /** handleDeleteUser: when confirmed, removes every user with the id. */
    method DeleteUser(userId: int, confirmed: bool) returns (outcome: Outcome)
      requires Valid() && store.Ready()
      modifies store
      ensures Valid() && store.Ready()
      ensures !confirmed ==> outcome == Cancelled && store.slot == old(store.slot)
      ensures confirmed ==>
                && outcome == Done
                && store.slot == Some(old(store.slot).value.(users := RemoveUsers(old(store.slot).value.users, userId)))
    {
      if !confirmed {
        return Cancelled;
      }
      var allUsers := store.GetAllUsers();
      RemoveUsersKeepsInvariant(allUsers, userId);
      allUsers := RemoveUsers(allUsers, userId);
      store.SaveAllUsers(allUsers);
      outcome := Done;
    }

    /** handleUpdateBalance: a missing (NaN) or negative amount is refused before
        anything is read; otherwise the first user with the id gets all wallet
        balances zeroed and the first set to the amount, or a placeholder wallet
        holding it; no earning record is added. */
    method UpdateBalance(userId: int, amount: Option<int>, now: int) returns (outcome: Outcome)
      requires Valid() && store.Ready()
      modifies store
      ensures Valid() && store.Ready()
      ensures amount.None? || amount.value < 0 ==> outcome == InvalidAmount && store.slot == old(store.slot)
      ensures amount.Some? && amount.value >= 0 ==>
                && outcome == (if IndexOfId(old(store.slot).value.users, userId).Some? then Done else UserNotFound)
                && store.slot == Some(old(store.slot).value.(
                     users := OverrideBalance(old(store.slot).value.users, userId, amount.value, now)))
    {
      if amount.None? || amount.value < 0 {
        return InvalidAmount;
      }
      var newBalance := amount.value;
      var allUsers := store.GetAllUsers();
      var userIndex := IndexOfId(allUsers, userId);
      if userIndex.None? {
        return UserNotFound;
      }
      var k := userIndex.value;
      var user := allUsers[k];
      var wallets: seq<Wallet>;
      if |user.wallets| > 0 {
        wallets := ZeroBalances(user.wallets);
        wallets := wallets[0 := wallets[0].(balance := newBalance)];
      } else {
        wallets := user.wallets + [Wallet(PlaceholderAddress, newBalance, now)];
      }
      assert wallets == ForceSet(user.wallets, newBalance, now);
      OverrideBalanceEffect(allUsers, userId, newBalance, now);
      allUsers := allUsers[k := user.(wallets := wallets)];
      store.SaveAllUsers(allUsers);
      outcome := Done;
    }
  }
}
