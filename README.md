# EarnBtcPerMin user ledger, in Dafny

EarnBtcPerMin is a browser app that simulates Bitcoin "mining". A signed-in
user owns wallets. Each wallet is credited a fixed amount once a second while
the user is signed in, and every credit is logged in the user's earnings
history. Users can add, delete and "withdraw" wallets. An administrator can
suspend, delete or force-set the balance of any user.

Everything lives in one persisted record: the user list, a current-user id
(the signed-in user's id) and a language preference. Every accessor reads a
fresh copy of the whole record, and every writer replaces a whole unit of it.

This project models that ledger and the handlers that change it, and proves
what they promise.

- `ledger.dfy` (module `Ledger`) holds:
  - the records: users, wallets and earning records;
  - the constants and the address rule;
  - the record edits the handlers make, written as values: the accrual credit, wallet removal and the admin balance override;
  - the ledger invariant.
- `storage.dfy` (module `Storage`) holds:
  - the persisted record `Db` and the lookups by id and e-mail;
  - `saveUser`'s upsert, as a function on the user list, with its lemmas;
  - the class `Store`, whose one field `slot` is the persisted slot. Its methods overwrite that slot.
- `app.dfy` (module `App`) holds:
  - the class `Session`. It holds the module-level `state` of app.js (`currentUser` and `earningIntervals`) and the host's live interval timers, as a map from handle to the wallet address its callback captured;
  - the authentication, earning, wallet and admin handlers, as methods of `Session`. Every one of them keeps `Session.Valid()`.

Modelling conventions:

- Amounts are integer satoshis:
  - the rate per tick is 1 satoshi (0.00000001 BTC);
  - the withdrawal minimum is 10000 satoshis (0.0001 BTC).
- Clock readings (`Date.now()`), prompt answers and confirm answers are parameters.
- A tick of a timer is an explicit call to `Session.Tick`. Every handler and every tick runs to completion, so an interleaving is a sequence of calls.
- A handler that dereferences a missing record throws a TypeError before it writes anything. It returns `TypeErrorThrown` and changes nothing.

The invariant `Session.Valid()` combines three things:

1. **The ledger invariant:**
   - ids are unique;
   - e-mails are unique;
   - ids are positive;
   - every record is well formed, which means no negative balance, no repeated wallet address, and only accrual credits in the history.
2. **The timer registry:**
   - the registry names exactly the live timers, each once;
   - timers run only while someone is signed in.
3. **Session coverage:** every address in the signed-in user's stored record is either in the session copy or is the admin placeholder.

Coverage is what makes `handleAddWallet` correct. It checks a new address against the session copy only, yet appends it to a fresh read of the stored record (`App.SessionCheckSuffices`).

`handleRegister` creates a record without an id, and `saveUser` gives it `Date.now()`. In the model the record carries that clock reading, `now`, from the start. The requires of `App.Session.Register` make `now` an id no stored user has whenever the e-mail is unused, so `saveUser` takes its append branch, as the id-less record does in the source, and the stored result is the same. `saveUser` itself does not check that `Date.now()` is unused.

## Model

| member | source | states |
|---|---|---|
| Ledger.IsBtcAddress | app.js:26 | exactly the strings the pattern accepts: "bc1", "1" or "3" followed by 25 to 39 characters from a-z, A-H, J-N, P-Z and 0-9 |
| Ledger.AddressShape | app.js:26 | an address accepted by the pattern has 26 to 42 characters, all from the pattern's alphabet |
| Ledger.PlaceholderIsNotAnAddress | app.js:26 | the address of the admin placeholder wallet can never pass the address pattern |
| Ledger.FindIndex | storage.js:46-58 | the index of the first element satisfying the test, or none exactly when no element does; `find` is the element there |
| Ledger.IndexOfAddress | app.js:224 | the index of the first wallet with the address, or none exactly when no wallet has it |
| Ledger.SameAddressesSameIndex | app.js:224 | the first-match lookup depends only on the wallets' addresses |
| Ledger.Credit | app.js:223-233 | a tick on a fresh record: defined exactly when some wallet has the captured address; keeps every field but wallets and history, and keeps the address lookup |
| Ledger.CreditEffect | app.js:223-233 | a tick raises that one wallet by the rate, leaves every other wallet equal, appends exactly one record of the rate for the address, and raises the total by the rate |
| Ledger.CreditKeepsWellFormed | app.js:223-233 | a tick keeps balances non-negative, addresses distinct and the history made of accrual credits |
| Ledger.CreditKeepsBalanceInStep | app.js:223-233 | for every address, balance minus the history's credits to it is unchanged by a tick |
| Ledger.CreditAppendsOne | app.js:226-231 | a tick appends exactly one record of the rate, for the captured address, and the credited wallet stays findable |
| Ledger.Records | app.js:227-231 | the records N ticks append: one per clock reading, each of the rate, in order |
| Ledger.CreditAll | app.js:222-243 | the record after one tick per clock reading, each applied to the record the previous one saved |
| Ledger.TicksTouchOneWallet | app.js:222-243 | N ticks change only the wallets and the history, raise the one wallet by N times the rate and leave every other wallet equal |
| Ledger.TicksAppendRecords | app.js:222-243 | N ticks append exactly the N records of the rate, one per clock reading, in order |
| Ledger.TicksAccumulate | app.js:222-243 | N ticks, each re-reading the record, add N times the rate to the wallet and append N records; nothing else changes |
| Ledger.RemoveWallets | app.js:286 | a wallet is kept exactly when it was there and its address differs |
| Ledger.RemoveWalletsConcat | app.js:286 | removal distributes over concatenation, so the remaining wallets keep their order |
| Ledger.RemoveWalletsKeepsUnique | app.js:286 | removal keeps addresses distinct |
| Ledger.AddressesUniqueCons | app.js:286 | a wallet whose address is new, put in front of wallets with distinct addresses, keeps them distinct |
| Ledger.RemoveAbsentWallet | app.js:286 | removing an address no wallet has changes nothing |
| Ledger.ZeroBalances | app.js:354 | the loop keeps every wallet, in place, with balance 0, and its result is the closed form `Zeroed` |
| Ledger.Zeroed | app.js:354 | every wallet kept in place with balance 0 |
| Ledger.ForceSet | app.js:353-362 | the override of a wallet list: all balances 0 and the first set to the amount, or the one placeholder wallet holding it when there was none |
| Ledger.ForceSetEffect | app.js:353-362 | after an override the balances sum to the amount, none is negative for a non-negative amount, existing wallets change only in their balance, and a user without wallets gets exactly the placeholder wallet |
| Ledger.ReplaceKeepsInvariant | storage.js:56-61 | replacing a record with a well-formed one of the same id and e-mail keeps the ledger invariant |
| Ledger.AppendKeepsInvariant | storage.js:62-64 | appending a well-formed record with a new positive id and a new e-mail keeps the ledger invariant |
| Storage.InitialData | storage.js:3-20 | the seed: exactly one user, id 1, admin, active, no wallets, no history; current-user id null; language "en"; the invariant holds |
| Storage.InitIdempotent | storage.js:22-26 | a second `init` changes nothing, and `init` leaves a present record as it was |
| Storage.IndexOfId | storage.js:58 | the index of the first user with the id, or none exactly when no user has it |
| Storage.IndexOfEmail | storage.js:46-49 | the index of the first user with the e-mail, or none exactly when no user has it |
| Storage.FindById | storage.js:51-54 | none exactly when no user has the id; otherwise the first user with it |
| Storage.FindByEmail | storage.js:46-49 | none exactly when no user has the e-mail; otherwise the first user with it |
| Storage.FindByIdUnique | storage.js:51-54 | with unique ids, looking a stored user up by its id returns that user |
| Storage.SavedUsers | storage.js:56-66 | the list saveUser writes: the count stays when the id is stored and grows by one otherwise, and the record saveUser returns is in it |
| Storage.SavedUser | storage.js:56-66 | the record saveUser returns: the given record with at most its id changed, to the fresh id |
| Storage.SaveUserReplaces | storage.js:56-61 | saving a record whose id is stored replaces the first user with that id in place; the count and every other user are unchanged |
| Storage.SaveUserAppends | storage.js:62-64 | saving a record whose id is absent appends it under the fresh id; the count grows by one and the earlier users are unchanged |
| Storage.SaveUserThenFind | storage.js:51-66 | after a save, looking up the saved id returns exactly the saved record |
| Storage.SaveUserLastWriterWins | storage.js:56-66 | saving a second record under the same id after a first is the same as saving the second alone: the first write is lost |
| Storage.SaveExistingKeepsInvariant | storage.js:56-61 | saving a well-formed record of a stored user with its e-mail unchanged keeps the invariant |
| Storage.Store.constructor | storage.js:28-34 | the slot holds whatever was persisted, or nothing |
| Storage.Store.Init | storage.js:22-26 | an empty slot gets the seed; a filled slot is left as it was |
| Storage.Store.GetAllUsers | storage.js:36-38 | returns the stored user list |
| Storage.Store.SaveAllUsers | storage.js:40-44 | replaces the user list; the current-user id and the language are kept |
| Storage.Store.FindUserByEmail | storage.js:46-49 | the first-match lookup over a fresh read |
| Storage.Store.FindUserById | storage.js:51-54 | the first-match lookup over a fresh read |
| Storage.Store.SaveUser | storage.js:56-67 | the slot's users become the upsert result and nothing else changes; the returned record is what a lookup by its id then finds |
| Storage.Store.GetCurrentUserId | storage.js:69-71 | returns the stored current-user id |
| Storage.Store.SetCurrentUserId | storage.js:73-77 | sets the current-user id; users and language are kept |
| Storage.Store.ClearCurrentUserId | storage.js:79-83 | nulls the current-user id; users and language are kept |
| Storage.Store.GetUserLang | storage.js:85-87 | never empty: the stored language when present and non-empty, otherwise "en" |
| Storage.Store.SetUserLang | storage.js:89-93 | sets the language; users and current-user id are kept |
| App.CheckNewAddress | app.js:255-264 | in this order: an empty or cancelled prompt, then an address failing the pattern, then one already in the given wallets; accepted exactly when the address is valid and new |
| App.NewUser | app.js:69-77 | the record handleRegister creates: the given name, e-mail and password, plain user role, active, no wallets, no history |
| App.RegisteredUserCanLogIn | app.js:64-79 | after a registration with an unused e-mail, the login lookup finds the new record with its password, not suspended, with the plain user role |
| App.ToggleSuspended | app.js:319-330 | the first user with the id gets its suspended flag flipped and nothing else; the other users are unchanged; an unknown id changes nothing |
| App.RemoveUsers | app.js:336-338 | a user is kept exactly when it was there and its id differs |
| App.RemoveUsersConcat | app.js:337 | deleting users keeps the others in order |
| App.RemoveUsersKeepsInvariant | app.js:336-338 | deleting users keeps the ledger invariant |
| App.OverrideBalance | app.js:350-363 | only the first user with the id changes, and only its wallets, which become the override; an unknown id changes nothing |
| App.OverrideBalanceEffect | app.js:350-363 | the target's balances sum to the amount, its history is unchanged, and a non-negative amount keeps the invariant |
| App.AdminActionsIgnoreRole | app.js:319-370 | suspend, override and delete all apply to the seeded administrator: no role is checked |
| App.HasSessionId | app.js:399 | the `if (currentUserId)` test: a current-user id is present and is not 0 |
| App.ResumedUser | app.js:399-403 | a user is resumed exactly when the current-user id is that of a stored user who is not suspended |
| App.ForceSetCovered | app.js:353-362 | an override leaves only addresses the record had, or the placeholder |
| App.SessionCheckSuffices | app.js:255-268 | an address passing the check against the session copy is new to a stored record that the copy covers, so appending it keeps addresses distinct |
| App.SaveOwnRecord | storage.js:56-67 | saving an edited fresh read of the signed-in user keeps the invariant and leaves the saved record the only one with its id |
| App.InterleavedTicksLoseCredit | storage.js:56-66 | two ticks computed from one snapshot and saved in turn leave only the second: the first wallet's credit and its history entry are lost |
| App.SequentialTicksKeepBoth | app.js:222-233 | the same two ticks, each re-reading the record as the code does, keep both credits and both history entries |
| App.Session.constructor | app.js:4-9 | nobody signed in, no timers |
| App.Session.StopEarning | app.js:248-251 | every registered timer is cleared and the registry emptied; nothing else changes |
| App.Session.StartEarning | app.js:219-246 | the old timers are gone, and exactly one timer is live per wallet of the session copy, in order, each for that wallet's address |
| App.Session.Tick | app.js:222-243 | a missing user throws; a missing wallet changes nothing and the timer stays; otherwise the fresh record is credited, saved in place and becomes the session copy |
| App.Session.Logout | app.js:83-90 | no timers, no session, and the stored current-user id is null; users are unchanged |
| App.Session.InitializeApp | app.js:388-411 | the seed is written when the slot is empty; a valid current-user id resumes that user with one timer per wallet; a missing or suspended user is logged out; with no current-user id nothing else changes |
| App.Session.Login | app.js:40-56 | wrong credentials and suspended accounts change nothing; otherwise the current-user id is that user's and the session is that user's record with its timers |
| App.Session.Register | app.js:58-81 | a used e-mail changes nothing; otherwise exactly one plain user is appended, the current-user id is its id, and it is signed in with no timers |
| App.Session.AddWallet | app.js:254-279 | a cancelled, invalid or duplicate address changes nothing; otherwise a balance-0 wallet is appended to a fresh read, saved and made the session copy, and the timers match its wallets |
| App.Session.DeleteWallet | app.js:281-295 | a declined confirm changes nothing; otherwise every wallet with the address is removed from a fresh read, the history kept, the record saved and made the session copy, and no timer is left for the address |
| App.Session.Withdraw | app.js:297-315 | a session balance below the minimum changes nothing; otherwise that wallet is set to 0 in a fresh read, which is saved and made the session copy; timers are untouched |
| App.Session.SuspendUser | app.js:319-330 | the stored users become the toggle of the target |
| App.Session.DeleteUser | app.js:332-342 | a declined confirm changes nothing; otherwise every user with the id is removed |
| App.Session.UpdateBalance | app.js:344-370 | a missing or negative amount is refused before anything is read; otherwise the stored users become the override of the target |

## Left out

- Rendering and the DOM are not modelled: `showPage`, `renderDashboard`, `renderWallets`, `renderBalanceChart`, `renderAdminPanel`, `alert`, and the binding of event handlers in `initializeApp`. None of them changes the ledger.
- `updateStats` and the chart totals are not modelled. They are float sums over time windows, formatted with `toFixed`.
- Floating point is not modelled. Balances are integer satoshis, so the drift of repeatedly adding 0.00000001 is not modelled.
- App.Session.UpdateBalance: the amount is an integer number of satoshis. Fractional satoshis and an `Infinity` answer, which `parseFloat` accepts and the check lets through, are not represented.
- The i18n module is not part of this model. Its `loadLanguage` is an asynchronous fetch and its `translatePage` walks the DOM. The only ledger effect of the language switch is `setUserLang`, which is modelled.
- App.Session.InitializeApp: `initializeApp` is asynchronous, and the restore branch runs after the language has loaded. The model runs it straight away. The language load and its DOM work are left out.
- App.Session.InitializeApp: the language load also writes the persisted record. `loadLanguage` calls `setUserLang` with the language it loaded (i18n.js:13), and after a failed load of another language it retries with "en". So a missing or empty stored language, or a language that fails to load while "en" loads, leaves "en" stored. The model keeps the stored language unchanged, and so do the contracts of Login and Register, which run initializeApp.
- Every call of `initializeApp` registers its listeners again (app.js:414-432). The ledger handlers are the same named functions on the same elements, which `addEventListener` registers only once, so each click runs a ledger handler once, as the model does. Only the three anonymous arrow listeners (app.js:416, 417, 425) pile up, and none of them touches the ledger.
- Real timers, JSON serialisation and `localStorage` are not modelled. A read is a value copy of the record.
- The event-target filtering in the click handlers is not modelled. The handlers receive the parsed address or user id directly, and `parseInt` of a rendered id is the id.
- Storage.Store: every accessor except `init` requires a filled slot. Before the first `init` the source would throw on `null`, and every caller runs `init` first.
- Storage.Store.SaveUser: requires the fresh id to be absent whenever the append branch runs. `Date.now()` is not checked against the stored ids in the source.
- App.Session.Register: requires `now > 0`, and that an unused e-mail means `now` is not a stored id. The new record carries the clock reading as its id from the start, where the source assigns it inside `saveUser`.
- The admin handlers never check the actor's role. Administrators are protected only because their rows render no buttons. The model follows the code (`App.AdminActionsIgnoreRole`).
- A tick whose wallet has gone does nothing, and its timer stays registered until the next restart of the timers. The model follows the code.
- For each address, a tick leaves the balance minus the history's credits to that address unchanged (`Ledger.CreditKeepsBalanceInStep`). Withdrawals and overrides change balances without a history entry. A deleted wallet's credits stay in the history (app.js:286), so an address added again starts at 0 against its old credits (app.js:267-271). No equality between balances and history holds across these operations in the code, and none is stated.
