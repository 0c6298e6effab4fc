# Crypto management system: wallet and order book

A Dafny model of the two in-memory ledgers of a console crypto-management
program, and of the controller rules that join them.

- `wallet.dfy`, module `Wallets`: the `Wallet` class holds the list of
  `Currency` entries (currency code, amount) as a `seq` field. Its three
  operations are loops that scan the list front to back, exactly as the C++ does:
  - `InsertCurrency` deposits.
  - `RemoveCurrency` withdraws.
  - `ContainsCurrency` is the sufficiency query.

  Each method is proved against a specification function over the sequence:
  - `Deposited` for a deposit.
  - `RemoveStatus` and `Withdrawn` for a withdrawal.
  - `HasAtLeast` for the query.
  - `Find` gives the position of the first entry for a code.

  The lemmas are about these functions. They state the wallet invariant
  (`WellFormed`: one entry per code, no negative amount), the balance
  arithmetic, and the meaning of each withdrawal outcome.
- `exchange.dfy`, module `Exchanges`: `Order` is an immutable record. The
  `Exchange` class holds the order book as a `seq` field. It appends on
  `PlaceOrder` and erases a 0-based position on `CancelOrder`.
  `CalculatePortfolioValue` is the accumulator loop. It is proved equal to
  `AskValue`, the sum of amount × price over the ask orders.
- `management.dfy`, module `Management`: `CryptoManagementSystem` owns one
  wallet and one exchange. `PlaceAsk`, `PlaceBid` and `CancelOrder` are the
  non-console parts of the C++ handlers. The values the C++ reads from the
  console are parameters here. `ClientRun` is a client scenario that uses
  only the contracts.

Amounts and prices are `double` in the source. Here they are `real`, so
sums, differences and products are exact. The model says nothing about
floating-point rounding.

`removeCurrency` returns `bool` in the source. It has three `false` paths,
and each prints its own message: negative amount, insufficient balance and
unknown code. `RemoveCurrency` returns a `Removal` value that keeps these
paths apart. The source's `true` is `status == Removed`.

Three behaviours of the code are modelled as written:
- For a code that has an entry, `containsCurrency` answers true to a negative
  request. The code compares `amount >= request` with no sign check
  (main.cpp:66-73). See `Wallets.ContainsEdgeCases`.
- `placeBid` places the bid order even when the deposit was rejected for a
  negative amount (main.cpp:255-257). See `Management.CryptoManagementSystem.PlaceBid`.
- An ask for a code never deposited fails as "not found" (`NotFound`), not
  as "insufficient" (main.cpp:61-62). See `Wallets.RemoveStatusMeaning`.

## Model

| member | source | states |
|---|---|---|
| `Wallets.Find` | main.cpp:29-35 | the position returned holds the code and no earlier entry does; `None` only when no entry has the code (the front-to-back scan shared by the wallet loops) |
| `Wallets.DepositNegative` | main.cpp:24-27 | a deposit of a negative amount leaves the entries unchanged |
| `Wallets.DepositExisting` | main.cpp:29-34 | when the code has an entry, that entry grows by exactly the amount, the length stays the same and every other entry is unchanged |
| `Wallets.DepositNew` | main.cpp:37 | when no entry has the code, exactly one entry (code, amount) is appended at the end |
| `Wallets.DepositPreservesWellFormed` | main.cpp:23-39 | a deposit keeps one entry per code and every amount non-negative |
| `Wallets.WithdrawPreservesWellFormed` | main.cpp:42-63 | a withdrawal keeps one entry per code and every amount non-negative |
| `Wallets.BalanceAfterDeposit` | main.cpp:29-38 | the balance of a code after a deposit grows by exactly the amount if the deposit was for that code and accepted; every other code's balance is unchanged |
| `Wallets.DepositTwice` | main.cpp:29-38 | depositing A and then B into one code raises its balance by exactly A + B |
| `Wallets.RemoveStatusMeaning` | main.cpp:42-63 | in a wallet with one entry per code: success iff the amount is non-negative and some entry holds at least that much; "not found" iff no entry has the code; "insufficient" iff an entry exists but holds less; the negative-amount rejection iff the amount is negative |
| `Wallets.ContainsMeansBalance` | main.cpp:66-73 | in a wallet with one entry per code, the query holds iff the code has an entry whose balance is at least the request |
| `Wallets.ContainsEdgeCases` | main.cpp:66-73 | an unknown code never satisfies the query; when no entry is negative, an existing code satisfies any negative request |
| `Wallets.WithdrawEffect` | main.cpp:48-57 | on success, only the code's entry changes, and it drops by exactly the amount; on every failure path the entries are unchanged |
| `Wallets.DepositThenWithdraw` | main.cpp:23-63 | withdrawing a just-deposited non-negative amount always succeeds and restores the entries; a code that is new keeps a zero entry |
| `Wallets.Wallet.constructor` | main.cpp:17-19 | a new wallet has no entries and satisfies the invariant |
| `Wallets.Wallet.InsertCurrency` | main.cpp:23-39 | the new entries are `Deposited` of the old ones, and the invariant is kept |
| `Wallets.Wallet.RemoveCurrency` | main.cpp:42-63 | the outcome is `RemoveStatus`, the new entries are `Withdrawn` of the old ones, and the invariant is kept |
| `Wallets.Wallet.ContainsCurrency` | main.cpp:66-73 | returns true iff some entry has the code and at least the requested amount; reads the wallet and changes nothing |
| `Exchanges.Erased` | main.cpp:130-137 | for an index in range: length drops by one, earlier orders keep their positions and later ones move down by one; for any other index the book is unchanged |
| `Exchanges.AskValueConcat` | main.cpp:140-148 | the portfolio value of two books joined end to end is the sum of their values |
| `Exchanges.PlaceAddsNotional` | main.cpp:115-118 | appending an order raises the portfolio value by its notional if it is an ask, and by nothing if it is a bid |
| `Exchanges.CancelRemovesNotional` | main.cpp:130-137 | cancelling a valid position lowers the portfolio value by exactly the ask notional of the removed order |
| `Exchanges.AskValueWithoutAsks` | main.cpp:140-148 | a book without ask orders (empty or all bids) is worth zero |
| `Exchanges.MixedBookValue` | main.cpp:140-148 | ask 2 @ 100, bid 5 @ 10 and ask 1 @ 200 are worth 400; the bid adds nothing |
| `Exchanges.Exchange.constructor` | main.cpp:109-111 | a new exchange has an empty book |
| `Exchanges.Exchange.PlaceOrder` | main.cpp:115-118 | the new book is the old book with the order appended |
| `Exchanges.Exchange.CancelOrder` | main.cpp:130-137 | the new book is the old book with the 0-based index erased when in range, and unchanged otherwise |
| `Exchanges.Exchange.CalculatePortfolioValue` | main.cpp:140-148 | returns the sum of amount × price over the ask orders; the result depends only on the book and not on the wallet argument |
| `Management.CryptoManagementSystem.constructor` | main.cpp:152-155 | a new system owns a fresh empty wallet and a fresh empty exchange |
| `Management.CryptoManagementSystem.PlaceAsk` | main.cpp:230-243 | the wallet is debited as `Withdrawn`; an ask (currency, amount, price) is appended iff the withdrawal succeeded, and otherwise the book is unchanged |
| `Management.CryptoManagementSystem.PlaceBid` | main.cpp:246-258 | the wallet is credited as `Deposited`, so it is unchanged for a negative amount; the bid order is appended whatever the deposit did |
| `Management.CryptoManagementSystem.CancelOrder` | main.cpp:261-267 | the user's 1-based index is erased as 0-based `index - 1`; the wallet is not touched |

## Left out

- The menu loop `mainMenu` and `main` are left out (main.cpp:159-190, main.cpp:276-280), along with every prompt and read. These are console text I/O. The values read become parameters.
- `displayWallet`, `displayOrders` and `displayOrder` are left out. They only format text.
- The confirmation and error messages printed by the wallet and exchange are left out. The wallet's distinct failure messages survive as the `Removal` outcomes.
- The controller handlers `insertCurrency`, `removeCurrency`, `checkCurrency` and `calculatePortfolioValue` are left out (main.cpp:193-227, main.cpp:270-273). `insertCurrency`, `removeCurrency` and `checkCurrency` read a code and an amount from the console and pass them to one wallet operation. `removeCurrency` ignores the `bool` it gets back. `checkCurrency` and `calculatePortfolioValue` print the answer, and `calculatePortfolioValue` reads nothing. The wallet and exchange operations they call are modelled.
- The `Order` getters are left out. The model reads the datatype's fields directly.
- IEEE-754 `double` rounding is not modelled. Amounts and prices are exact `real` values.
- Management.CryptoManagementSystem.CancelOrder: the index is an unbounded integer, so the C++ `int` overflow of `index - 1` at the smallest `int` is not modelled.
- Wallets.Wallet.InsertCurrency: requires the wallet invariant `Valid()`, which the C++ method does not check. The constructor establishes it and every mutation keeps it, so every reachable wallet satisfies it. `RemoveCurrency`, `PlaceAsk` and `PlaceBid` require it on the same grounds.
