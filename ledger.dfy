// The records of the ledger (users, wallets, earning records), the constants
// and validation rules of app.js, and the record transforms its handlers
// apply, written as values.  Amounts are integer satoshis.

module Ledger {

  datatype Option<T> = None | Some(value: T)

  datatype Role = AdminRole | UserRole

  /** A wallet of a user; `balance` in satoshis, `createdAt` a clock reading. */
  datatype Wallet = Wallet(address: string, balance: int, createdAt: int)

  /** One accrual credit, kept in the user's append-only history. */
  datatype EarningRecord = EarningRecord(timestamp: int, amount: int, walletAddress: string)

  datatype User = User(
    id: int,
    email: string,
    username: string,
    password: string,
    role: Role,
    suspended: bool,
    wallets: seq<Wallet>,
    earningsHistory: seq<EarningRecord>)

  /** What a handler or a tick did.  Every outcome but Done leaves the store as it was. */
  datatype Outcome =
    | Done
    | InvalidCredentials
    | AccountSuspended
    | DuplicateEmail
    | Cancelled              // an empty prompt or a declined confirm
    | InvalidAddressFormat
    | DuplicateAddress
    | BelowWithdrawalMinimum
    | InvalidAmount
    | UserNotFound           // an admin action on an id no user has: silently nothing
    | WalletNotFound         // a tick whose wallet is gone: silently nothing
    | TypeErrorThrown        // the handler dereferenced a missing record and threw before writing

  /** BTC_EARN_RATE: 0.00000001 BTC per tick, one satoshi. */
  const EarnRate: int := 1
  /** EARN_INTERVAL in milliseconds; ticks are explicit calls in this model. */
  const EarnInterval: int := 1000
  /** MIN_WITHDRAWAL_AMOUNT: 0.0001 BTC, ten thousand satoshis. */
  const MinWithdrawal: int := 10000
  /** The address of the wallet an admin balance override creates for a user without wallets. */
  const PlaceholderAddress: string := "manual-admin-update"

  // ---------------------------------------------------------------------------
  // Address format: /^(bc1|[13])[a-zA-HJ-NP-Z0-9]{25,39}$/

  predicate IsAddressChar(c: char) {
    ('a' <= c <= 'z') || ('A' <= c <= 'H') || ('J' <= c <= 'N') || ('P' <= c <= 'Z') || ('0' <= c <= '9')
  }

  predicate IsAddressBody(s: string) {
    25 <= |s| <= 39 && forall i :: 0 <= i < |s| ==> IsAddressChar(s[i])
  }

  predicate IsBtcAddress(s: string) {
    || (|s| >= 3 && s[..3] == "bc1" && IsAddressBody(s[3..]))
    || (|s| >= 1 && (s[0] == '1' || s[0] == '3') && IsAddressBody(s[1..]))
  }

  /** A valid address has 26 to 42 characters, all from the address alphabet. */
  lemma AddressShape(s: string)
    requires IsBtcAddress(s)
    ensures 26 <= |s| <= 42
    ensures forall i :: 0 <= i < |s| ==> IsAddressChar(s[i])
  {
    if |s| >= 3 && s[..3] == "bc1" && IsAddressBody(s[3..]) {
      forall i | 0 <= i < |s| ensures IsAddressChar(s[i]) {
        if i >= 3 {
          assert s[i] == s[3..][i - 3];
        } else {
          assert s[i] == s[..3][i];
        }
      }
    } else {
      forall i | 0 <= i < |s| ensures IsAddressChar(s[i]) {
        if i >= 1 {
          assert s[i] == s[1..][i - 1];
        }
      }
    }
  }

  /** The admin override's placeholder can never be added as a wallet: it is no address. */
  lemma PlaceholderIsNotAnAddress()
    ensures !IsBtcAddress(PlaceholderAddress)
  {
  }

  // ---------------------------------------------------------------------------
  // Wallet lookups and sums

  /** `s.findIndex(p)` as an option: the index of the first element satisfying
      `p`, or nothing.  `find` is the element at that index. */
  function FindIndex<T>(s: seq<T>, p: T -> bool): (r: Option<nat>)
    ensures r.Some? ==> r.value < |s| && p(s[r.value])
    ensures r.Some? ==> forall j :: 0 <= j < r.value ==> !p(s[j])
    ensures r.None? ==> forall j :: 0 <= j < |s| ==> !p(s[j])
  {
    if s == [] then None
    else if p(s[0]) then Some(0)
    else match FindIndex(s[1..], p)
      case Some(k) => Some(k + 1)
      case None => None
  }

  /** `wallets.find(w => w.address === address)`, as the index of the first match. */
  function IndexOfAddress(ws: seq<Wallet>, address: string): (r: Option<nat>)
    ensures r.Some? ==> r.value < |ws| && ws[r.value].address == address
    ensures r.Some? ==> forall j :: 0 <= j < r.value ==> ws[j].address != address
    ensures r.None? ==> forall j :: 0 <= j < |ws| ==> ws[j].address != address
  {
    FindIndex(ws, (w: Wallet) => w.address == address)
  }

  /** The first-match index depends only on the addresses of the wallets. */
  lemma SameAddressesSameIndex(ws: seq<Wallet>, vs: seq<Wallet>)
    requires |ws| == |vs|
    requires forall j :: 0 <= j < |ws| ==> ws[j].address == vs[j].address
    ensures forall address :: IndexOfAddress(ws, address) == IndexOfAddress(vs, address)
  {
    forall address ensures IndexOfAddress(ws, address) == IndexOfAddress(vs, address) {
    }
  }

  /** The balance of the first wallet with `address`, 0 when there is none. */
  function BalanceOf(ws: seq<Wallet>, address: string): int {
    match IndexOfAddress(ws, address)
    case Some(k) => ws[k].balance
    case None => 0
  }

  /** Sum of the balances, as the dashboard's total adds them up. */
  function Total(ws: seq<Wallet>): int {
    if ws == [] then 0 else ws[0].balance + Total(ws[1..])
  }

  /** Sum of the amounts credited to `address` in a history. */
  function Earned(h: seq<EarningRecord>, address: string): int {
    if h == [] then 0
    else Earned(h[..|h| - 1], address)
         + (if h[|h| - 1].walletAddress == address then h[|h| - 1].amount else 0)
  }

  predicate NonNegative(ws: seq<Wallet>) {
    forall k :: 0 <= k < |ws| ==> ws[k].balance >= 0
  }

  /** No two wallets of one user share an address. */
  predicate AddressesUnique(ws: seq<Wallet>) {
    forall i, j :: 0 <= i < j < |ws| ==> ws[i].address != ws[j].address
  }

  /** Every history entry is one accrual credit of the rate. */
  predicate AccrualsOnly(h: seq<EarningRecord>) {
    forall i :: 0 <= i < |h| ==> h[i].amount == EarnRate
  }

  /** A user's record: no negative balance, no repeated address, only accrual entries. */
  predicate WellFormed(u: User) {
    NonNegative(u.wallets) && AddressesUnique(u.wallets) && AccrualsOnly(u.earningsHistory)
  }

  lemma {:induction false} TotalUpdate(ws: seq<Wallet>, k: nat, w: Wallet)
    requires k < |ws|
    ensures Total(ws[k := w]) == Total(ws) - ws[k].balance + w.balance
  {
    if k > 0 {
      assert ws[k := w][1..] == ws[1..][k - 1 := w];
      TotalUpdate(ws[1..], k - 1, w);
    } else {
      assert ws[k := w][1..] == ws[1..];
    }
  }

  lemma {:induction false} TotalOfZeroes(ws: seq<Wallet>)
    requires forall k :: 0 <= k < |ws| ==> ws[k].balance == 0
    ensures Total(ws) == 0
  {
    if ws != [] {
      TotalOfZeroes(ws[1..]);
    }
  }

  lemma EarnedAppend(h: seq<EarningRecord>, e: EarningRecord, address: string)
    ensures Earned(h + [e], address)
         == Earned(h, address) + (if e.walletAddress == address then e.amount else 0)
  {
    assert (h + [e])[..|h + [e]| - 1] == h;
  }

  // ---------------------------------------------------------------------------
  // Accrual: the body of one tick, applied to a freshly read user record

  /** The tick of app.js:223-233 on record `u`: the first wallet with `address`
      gains EarnRate and one EarningRecord is appended; None when no wallet has
      that address, in which case the tick writes nothing. */
  function Credit(u: User, address: string, now: int): (r: Option<User>)
    ensures r.Some? <==> IndexOfAddress(u.wallets, address).Some?
    ensures r.Some? ==> r.value.(wallets := u.wallets, earningsHistory := u.earningsHistory) == u
    ensures r.Some? ==> forall x :: IndexOfAddress(r.value.wallets, x) == IndexOfAddress(u.wallets, x)
  {
    match IndexOfAddress(u.wallets, address)
    case None => None
    case Some(k) =>
      var w := u.wallets[k];
      var ws := u.wallets[k := w.(balance := w.balance + EarnRate)];
      SameAddressesSameIndex(ws, u.wallets);
      Some(u.(wallets := ws,
              earningsHistory := u.earningsHistory + [EarningRecord(now, EarnRate, address)]))
  }

  /** A tick credits exactly one wallet by the rate, leaves the others as they
      were, and appends exactly one record of the rate for that address. */
  lemma CreditEffect(u: User, address: string, now: int)
    requires IndexOfAddress(u.wallets, address).Some?
    ensures var k := IndexOfAddress(u.wallets, address).value;
            var c := Credit(u, address, now).value;
            && |c.wallets| == |u.wallets|
            && c.wallets[k].balance == u.wallets[k].balance + EarnRate
            && c.wallets[k].address == address
            && c.wallets[k].createdAt == u.wallets[k].createdAt
            && (forall j :: 0 <= j < |u.wallets| && j != k ==> c.wallets[j] == u.wallets[j])
            && c.earningsHistory == u.earningsHistory + [EarningRecord(now, EarnRate, address)]
            && Total(c.wallets) == Total(u.wallets) + EarnRate
  {
    var k := IndexOfAddress(u.wallets, address).value;
    var w := u.wallets[k];
    TotalUpdate(u.wallets, k, w.(balance := w.balance + EarnRate));
  }

  /** A tick keeps a record well formed: addresses are untouched, the one
      balance grows and the new entry is an accrual credit. */
  lemma CreditKeepsWellFormed(u: User, address: string, now: int)
    requires WellFormed(u) && IndexOfAddress(u.wallets, address).Some?
    ensures WellFormed(Credit(u, address, now).value)
  {
    var c := Credit(u, address, now).value;
    CreditEffect(u, address, now);
    assert forall j :: 0 <= j < |c.wallets| ==> c.wallets[j].address == u.wallets[j].address;
    assert forall i :: 0 <= i < |c.earningsHistory| ==> c.earningsHistory[i].amount == EarnRate by {
      forall i | 0 <= i < |c.earningsHistory| ensures c.earningsHistory[i].amount == EarnRate {
        if i < |u.earningsHistory| {
          assert c.earningsHistory[i] == u.earningsHistory[i];
        }
      }
    }
  }

  /** Ticks never let a balance drift from its history: for every address, the
      first wallet's balance minus what the history credited to it is the same
      before and after a tick. */
  lemma CreditKeepsBalanceInStep(u: User, address: string, now: int, other: string)
    requires IndexOfAddress(u.wallets, address).Some?
    ensures var c := Credit(u, address, now).value;
            BalanceOf(c.wallets, other) - Earned(c.earningsHistory, other)
            == BalanceOf(u.wallets, other) - Earned(u.earningsHistory, other)
  {
    var c := Credit(u, address, now).value;
    CreditEffect(u, address, now);
    EarnedAppend(u.earningsHistory, EarningRecord(now, EarnRate, address), other);
  }

  /** The records N ticks at the given clock readings append. */
  function Records(times: seq<int>, address: string): (r: seq<EarningRecord>)
    ensures |r| == |times|
    ensures forall i :: 0 <= i < |times| ==> r[i] == EarningRecord(times[i], EarnRate, address)
  {
    seq(|times|, i requires 0 <= i < |times| => EarningRecord(times[i], EarnRate, address))
  }

  /** The record after one tick per clock reading in `times`, each reading it afresh. */
  function CreditAll(u: User, address: string, times: seq<int>): User
    requires IndexOfAddress(u.wallets, address).Some?
    decreases |times|
  {
    if times == [] then u
    else CreditAll(Credit(u, address, times[0]).value, address, times[1..])
  }

  /** Ticks change only the wallets and the history, and only the one wallet's balance. */
  lemma {:induction false} TicksTouchOneWallet(u: User, address: string, times: seq<int>)
    requires IndexOfAddress(u.wallets, address).Some?
    decreases |times|
    ensures var k := IndexOfAddress(u.wallets, address).value;
            var r := CreditAll(u, address, times);
            && r.(wallets := u.wallets, earningsHistory := u.earningsHistory) == u
            && |r.wallets| == |u.wallets|
            && r.wallets[k].balance == u.wallets[k].balance + |times| * EarnRate
            && (forall j :: 0 <= j < |u.wallets| && j != k ==> r.wallets[j] == u.wallets[j])
  {
    if times != [] {
      var k := IndexOfAddress(u.wallets, address).value;
      var c := Credit(u, address, times[0]).value;
      CreditEffect(u, address, times[0]);
      assert IndexOfAddress(c.wallets, address) == Some(k);
      TicksTouchOneWallet(c, address, times[1..]);
    }
  }

  /** A tick appends one record and keeps the wallet it credits. */
  lemma CreditAppendsOne(u: User, address: string, now: int)
    requires IndexOfAddress(u.wallets, address).Some?
    ensures var c := Credit(u, address, now).value;
            && IndexOfAddress(c.wallets, address).Some?
            && c.earningsHistory == u.earningsHistory + [EarningRecord(now, EarnRate, address)]
  {
  }

  lemma RecordsCons(times: seq<int>, address: string)
    requires times != []
    ensures Records(times, address) == [EarningRecord(times[0], EarnRate, address)] + Records(times[1..], address)
  {
  }

  /** Ticks append one record of the rate per clock reading, in order. */
  lemma {:induction false} TicksAppendRecords(u: User, address: string, times: seq<int>)
    requires IndexOfAddress(u.wallets, address).Some?
    decreases |times|
    ensures CreditAll(u, address, times).earningsHistory == u.earningsHistory + Records(times, address)
  {
    if times != [] {
      var c := Credit(u, address, times[0]).value;
      CreditAppendsOne(u, address, times[0]);
      TicksAppendRecords(c, address, times[1..]);
      RecordsCons(times, address);
    } else {
      assert Records(times, address) == [];
    }
  }

  /** N ticks add N times the rate to the wallet and N records to the history. */
  lemma TicksAccumulate(u: User, address: string, times: seq<int>)
    requires IndexOfAddress(u.wallets, address).Some?
    ensures var k := IndexOfAddress(u.wallets, address).value;
            var r := CreditAll(u, address, times);
            && r.(wallets := u.wallets, earningsHistory := u.earningsHistory) == u
            && |r.wallets| == |u.wallets|
            && r.wallets[k].balance == u.wallets[k].balance + |times| * EarnRate
            && (forall j :: 0 <= j < |u.wallets| && j != k ==> r.wallets[j] == u.wallets[j])
            && r.earningsHistory == u.earningsHistory + Records(times, address)
  {
    TicksTouchOneWallet(u, address, times);
    TicksAppendRecords(u, address, times);
  }

  // ---------------------------------------------------------------------------
  // Wallet-list edits of the wallet and admin handlers

  /** `wallets.filter(w => w.address !== address)`. */
  function RemoveWallets(ws: seq<Wallet>, address: string): (r: seq<Wallet>)
    ensures forall w :: w in r <==> w in ws && w.address != address
    ensures |r| <= |ws|
  {
    if ws == [] then []
    else (if ws[0].address == address then [] else [ws[0]]) + RemoveWallets(ws[1..], address)
  }

  /** Removal keeps the order of what remains: it distributes over concatenation. */
  lemma {:induction false} RemoveWalletsConcat(a: seq<Wallet>, b: seq<Wallet>, address: string)
    ensures RemoveWallets(a + b, address) == RemoveWallets(a, address) + RemoveWallets(b, address)
  {
    if a != [] {
      assert (a + b)[1..] == a[1..] + b;
      RemoveWalletsConcat(a[1..], b, address);
    } else {
      assert a + b == b;
    }
  }

  /** The wallets after the first keep distinct addresses, none of them the first's. */
  lemma AddressesUniqueTail(ws: seq<Wallet>)
    requires AddressesUnique(ws) && ws != []
    ensures AddressesUnique(ws[1..])
    ensures forall w :: w in ws[1..] ==> w.address != ws[0].address
  {
    var tail := ws[1..];
    forall i, j | 0 <= i < j < |tail| ensures tail[i].address != tail[j].address {
      assert tail[i] == ws[i + 1] && tail[j] == ws[j + 1];
    }
    forall w | w in tail ensures w.address != ws[0].address {
      var m :| 0 <= m < |tail| && tail[m] == w;
      assert ws[m + 1] == w;
    }
  }

  /** Putting a wallet with a new address in front keeps addresses distinct. */
  lemma AddressesUniqueCons(w: Wallet, ws: seq<Wallet>)
    requires AddressesUnique(ws)
    requires forall v :: v in ws ==> v.address != w.address
    ensures AddressesUnique([w] + ws)
  {
    var r := [w] + ws;
    forall i, j | 0 <= i < j < |r| ensures r[i].address != r[j].address {
      assert r[j] == ws[j - 1];
      if i > 0 {
        assert r[i] == ws[i - 1];
      }
    }
  }

  /** Removal keeps the remaining addresses distinct. */
  lemma {:induction false} RemoveWalletsKeepsUnique(ws: seq<Wallet>, address: string)
    requires AddressesUnique(ws)
    ensures AddressesUnique(RemoveWallets(ws, address))
  {
    if ws != [] {
      AddressesUniqueTail(ws);
      RemoveWalletsKeepsUnique(ws[1..], address);
      var rest := RemoveWallets(ws[1..], address);
      if ws[0].address != address {
        AddressesUniqueCons(ws[0], rest);
        assert RemoveWallets(ws, address) == [ws[0]] + rest;
      } else {
        assert RemoveWallets(ws, address) == [] + rest;
      }
    }
  }

  /** Removing an address no wallet has changes nothing. */
  lemma {:induction false} RemoveAbsentWallet(ws: seq<Wallet>, address: string)
    requires IndexOfAddress(ws, address).None?
    ensures RemoveWallets(ws, address) == ws
  {
    if ws != [] {
      assert IndexOfAddress(ws[1..], address).None?;
      RemoveAbsentWallet(ws[1..], address);
    }
  }

  /** `forEach(w => w.balance = 0)`: every wallet kept, every balance zero. */
  method ZeroBalances(ws: seq<Wallet>) returns (r: seq<Wallet>)
    ensures |r| == |ws|
    ensures forall k :: 0 <= k < |ws| ==> r[k] == ws[k].(balance := 0)
    ensures r == Zeroed(ws)
  {
    r := ws;
    var i := 0;
    while i < |r|
      invariant 0 <= i <= |r| == |ws|
      invariant forall k :: 0 <= k < i ==> r[k] == ws[k].(balance := 0)
      invariant forall k :: i <= k < |r| ==> r[k] == ws[k]
    {
      r := r[i := r[i].(balance := 0)];
      i := i + 1;
    }
  }

  function Zeroed(ws: seq<Wallet>): (r: seq<Wallet>)
    ensures |r| == |ws|
  {
    seq(|ws|, k requires 0 <= k < |ws| => ws[k].(balance := 0))
  }

  /** The wallet list an admin balance override of `amount` leaves: all balances
      zero but the first, which holds `amount`; a placeholder wallet holding
      `amount` when there was no wallet. */
  function ForceSet(ws: seq<Wallet>, amount: int, now: int): (r: seq<Wallet>)
    ensures |r| == if |ws| > 0 then |ws| else 1
    ensures r[0].balance == amount && forall k :: 0 < k < |r| ==> r[k].balance == 0
  {
    if |ws| > 0 then Zeroed(ws)[0 := ws[0].(balance := amount)]
    else [Wallet(PlaceholderAddress, amount, now)]
  }

  /** After an override the wallets sum to exactly `amount`; existing wallets
      change only in their balance, and a user without wallets gets the placeholder. */
  lemma ForceSetEffect(ws: seq<Wallet>, amount: int, now: int)
    ensures var r := ForceSet(ws, amount, now);
            && Total(r) == amount
            && (amount >= 0 ==> NonNegative(r))
            && (AddressesUnique(ws) ==> AddressesUnique(r))
            && (|ws| > 0 ==> |r| == |ws| && forall k :: 0 <= k < |ws| ==> r[k].address == ws[k].address)
            && (|ws| > 0 ==> forall k :: 0 <= k < |ws| ==> r[k] == ws[k].(balance := r[k].balance))
            && (|ws| == 0 ==> r == [Wallet(PlaceholderAddress, amount, now)])
  {
    if |ws| > 0 {
      var z := Zeroed(ws);
      TotalOfZeroes(z);
      TotalUpdate(z, 0, ws[0].(balance := amount));
    } else {
      assert Total([Wallet(PlaceholderAddress, amount, now)]) == amount + Total([]);
    }
  }

  // ---------------------------------------------------------------------------
  // The invariant of the user list

  ghost predicate IdsUnique(users: seq<User>) {
    forall i, j :: 0 <= i < j < |users| ==> users[i].id != users[j].id
  }

  ghost predicate EmailsUnique(users: seq<User>) {
    forall i, j :: 0 <= i < j < |users| ==> users[i].email != users[j].email
  }

  ghost predicate IdsPositive(users: seq<User>) {
    forall i :: 0 <= i < |users| ==> users[i].id > 0
  }

  ghost predicate RecordsWellFormed(users: seq<User>) {
    forall i :: 0 <= i < |users| ==> WellFormed(users[i])
  }

  /** Ids and e-mails unique, ids positive, every record well formed. */
  ghost predicate LedgerInvariant(users: seq<User>) {
    IdsUnique(users) && EmailsUnique(users) && IdsPositive(users) && RecordsWellFormed(users)
  }

  /** Replacing a record by a well-formed one with the same id and e-mail keeps the invariant. */
  lemma ReplaceKeepsInvariant(users: seq<User>, k: nat, u: User)
    requires LedgerInvariant(users) && k < |users|
    requires u.id == users[k].id && u.email == users[k].email && WellFormed(u)
    ensures LedgerInvariant(users[k := u])
  {
    var r := users[k := u];
    forall i, j | 0 <= i < j < |r| ensures r[i].id != r[j].id && r[i].email != r[j].email {
      assert users[i].id != users[j].id && users[i].email != users[j].email;
    }
  }

  /** Appending a record whose id and e-mail are new keeps the invariant. */
  lemma AppendKeepsInvariant(users: seq<User>, u: User)
    requires LedgerInvariant(users)
    requires u.id > 0 && WellFormed(u)
    requires forall i :: 0 <= i < |users| ==> users[i].id != u.id && users[i].email != u.email
    ensures LedgerInvariant(users + [u])
  {
    var r := users + [u];
    forall i, j | 0 <= i < j < |r| ensures r[i].id != r[j].id && r[i].email != r[j].email {
      if j < |users| {
        assert users[i].id != users[j].id && users[i].email != users[j].email;
      }
    }
  }
}
