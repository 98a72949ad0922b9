# Verified model of the MarketPal exchange protocol

MarketPal is a marketplace for second-hand goods. Its users sell products through orders and barter them through
exchange proposals: one user offers some of his products for some of another's, possibly with a payment on top; the
other accepts, rejects or makes one counter-offer; the proposal can be withdrawn and it expires. Proposals, orders and
sellers' edits compete for the same products, in concurrent database transactions.

This project models the write transactions of that system and proves what they guarantee together.

| file | content |
|---|---|
| `Entities.dfy` | rows, enumerations, the two status machines |
| `Negotiation.dfy` | one proposal row: the checks before an action, the writes of each action, the replay of a history |
| `Transactions.dfy` | every write transaction as a function of the committed database |
| `Protocol.dfy` | steps, runs, the invariant |
| `Safety.dfy` | each step keeps the invariant; what opening and accepting a proposal do |
| `ExchangeLaws.dfy` | whole runs of the protocol: terminal rows, one winner, lazy expiry, settlement |
| `Occupancy.dfy` | the busy count as a lock table; the badge of waiting proposals |
| `Sweep.dfy` | the background sweep in batches |
| `OrderLaws.dfy` | orders, reviews, credit |
| `RowLocks.dfy`, `Interleaving.dfy` | transactions as interleaved statements under row locks: serializability, no deadlock |
| `Progress.dfy` | the converse: calls that would succeed run to their commit, and runs are executions |
| `Limits.dfy` | where the absence of deadlock ends: overlapping proposals |
| `StaleSaves.dfy` | runs with rows that are read without a lock and saved whole: what becomes of the two ledgers |
| `Services.dfy` | the services and repositories as methods on a mutable database, proved against the transactions |
| `RateLimit.dfy` | the fixed-window limiter |
| `Conversations.dfy` | the message log and its conversation index |

A *run* is any sequence of transactions from the empty database, with any clock readings. In `RowLocks.dfy` the same
transactions are split into their statements, a locking read or a plain read or a commit each, and these interleave
freely: a transaction sees the rows it has locked as it read them, reads other tables as committed at that moment, and
publishes its writes when it commits. `Interleaving.ExecutionsAreSerializable` carries every guarantee proved on runs
over to these interleavings, and `Progress.CallCommits` says that a call which would succeed does get to its commit.

Where the code and its comments differ, the model follows the code:

- The comment on `Reject` (backend/internal/service/exchange_service.go:196) says that only a pending proposal can be
  rejected, by the recipient. The code also lets the offeror reject a counter-offer.
- The comment on order `Cancel` (backend/internal/service/order_service.go:216) gives unpaid orders to the buyer and
  unshipped ones to the seller. The code lets either party cancel in both statuses (`OrderLaws.CancelOrderIff`).
- Reviews are described as mutual. The code admits one review for each order, from any user
  (`OrderLaws.ReviewIff`).
- Acceptance is described as closing the other proposals on its products. In every reachable state there are none
  (`Safety.NoRivals`); that is also why acceptances cannot deadlock (`Limits.OverlapWouldDeadlock`).

Three guarantees hold under a condition that the code does not enforce, and the model says which:

- The edit of a listing reads a product row without a lock and later saves the whole row, status included. In runs with
  such saves the ledger of claims holds throughout exactly when every edit saves a row that was read off the shelf, or on
  which no claim has come or gone since (`StaleSaves.LedgerHoldsIff`); `StaleSaves.StaleEditSellsTwice` shows a product sold
  twice. Taking a product off the shelf is harmless always.
- A change of a user's profile or role saves the whole user row in the same way, credit score included. The credit ledger
  holds throughout exactly when every such save finds as many good as bad reviews added since it read the user
  (`StaleSaves.CreditHoldsIff`); `StaleSaves.StaleProfileBreaksCredit` is a run in which a good review loses its credit.
- The limiter reads the clock before it takes its mutex, so that stamps can arrive late. `RateLimit.Peak` is the most that
  can pass in a minute for each limit and each lateness, and it is reached (`RateLimit.BoundsIff`). The bound of two windows
  holds exactly up to a lateness of one nanosecond, or for a limit of 1 (`RateLimit.TwoWindowsIff`).

Exclusive occupancy, the legality of every proposal and the rules of reviews survive such saves, however stale
(`StaleSaves.RulesSurviveSaves`).

## Model

| member | source | states |
|---|---|---|
| Negotiation.ActionAllowedIff | backend/internal/service/exchange_service.go:447-500 | the checks let an action through exactly when the row is active, in time, and the caller is the awaited party (the offeror, to cancel; the offeree of a row without counter-offer, to counter); exactly which late calls are due and which are told that the proposal has expired |
| Negotiation.ActionRefusals | backend/internal/service/exchange_service.go:456-498 | exactly which calls are refused for the caller, the rounds, the state or the turn |
| Negotiation.OpenedIsOk | backend/internal/service/exchange_service.go:89-102 | a fresh row between two users is a well-formed negotiation |
| Negotiation.AcceptAdvances | backend/internal/service/exchange_service.go:145-181 | an allowed acceptance appends one legal move and leaves parties, items and deadline |
| Negotiation.RejectAdvances | backend/internal/service/exchange_service.go:216-243 | the same for a rejection, with its time set and not after the deadline |
| Negotiation.CancelAdvances | backend/internal/service/exchange_service.go:216-243 | the same for a cancellation |
| Negotiation.CounterAdvances | backend/internal/service/exchange_service.go:267-304 | the same for a counter-offer, which passes the turn and spends the only round |
| Negotiation.AutoCloseAdvances | backend/internal/repository/exchange_repository.go:209-229 | closing an active row by the system is one legal move |
| Negotiation.ExpiryAdvances | backend/internal/repository/exchange_repository.go:257-288 | expiring a due row is one legal move, later than its deadline |
| Negotiation.ReplaysIffWord | backend/internal/constants/enums.go:75-96 | a history replays to a row exactly when it is a word `created countered? (accepted, rejected, cancelled or expired)?` whose moves are made by the right parties |
| Negotiation.StatusFixesTurnAndRound | backend/internal/model/exchange_proposal.go:17-21 | pending means the offeree's turn and round 0, countered the offeror's turn and round 1 |
| Negotiation.AgreedTerms | backend/internal/service/exchange_service.go:146-181 | the terms of an accepted row are those of its last offer, and the party who accepted is the one who had not made it |
| Negotiation.ExpireEntries | backend/internal/repository/exchange_repository.go:268-279 | exactly the expired rows have an expiry entry, one, at the end |
| Transactions.DedupPositive | backend/internal/service/exchange_service.go:626-641 | no zero, no repetition, the same other elements |
| Transactions.DedupKeepsOrder | backend/internal/service/exchange_service.go:626-641 | the elements stay in the order of their first occurrences |
| Transactions.CheckOffersIff | backend/internal/service/exchange_service.go:534-548 | the offered side passes exactly when every product exists, is the caller's and is on sale |
| Transactions.CheckTargetsIff | backend/internal/service/exchange_service.go:549-570 | the requested side passes with an owner exactly when every product exists, is on sale and is that one other user's |
| Transactions.OffersBlame | backend/internal/service/exchange_service.go:534-548 | a refusal names the first defect of the offered side |
| Transactions.TargetsBlame | backend/internal/service/exchange_service.go:549-570 | and of the requested side, including a second owner |
| Protocol.ActAdvances | backend/internal/service/exchange_service.go:122-316 | whatever an action replies, each row stays or makes one legal move, and no row appears or disappears |
| Protocol.SettleIsExact | backend/internal/repository/exchange_repository.go:252-293 | a settlement expires exactly the due candidates, with one entry each, and reports their number |
| Protocol.SettleEffect | backend/internal/repository/exchange_repository.go:252-293 | row by row: the active candidates with a deadline before the given time get the expired columns and one system entry of that time, the others stay, and the reply is their number |
| Safety.ProposeIff | backend/internal/service/exchange_service.go:37-87 | a proposal opens exactly when both sides are non-empty, owned and on sale as required, and no product is in an active proposal |
| Safety.ProposeRefusals | backend/internal/service/exchange_service.go:37-87 | what a failing opening is told, in order: a side is empty or shared; the first defect of the offered side; the first defect of the requested side; a busy product |
| Safety.ProposeEffect | backend/internal/service/exchange_service.go:89-107 | the inserted row, with its parties, terms, item snapshots in order, first entry, and a deadline 72 hours on unless the request sets another; nothing else changes |
| Safety.AcceptEffect | backend/internal/service/exchange_service.go:122-186 | from any state, a successful acceptance sells exactly its products, writes its row and entry, closes exactly the active rows that share a product with one system entry each, and leaves no active proposal on its products |
| Safety.NoRivals | backend/internal/repository/exchange_repository.go:190-208 | under exclusive occupancy an acceptance finds no other proposal to close |
| Safety.AcceptKeepsLedger | backend/internal/service/exchange_service.go:139-165 | an acceptance keeps product status and claims in balance |
| Safety.PlaceOrderKeepsLedger | backend/internal/service/order_service.go:40-80 | so does an order |
| Safety.CancelReturnsItsClaim | backend/internal/service/order_service.go:217-247 | cancelling an order returns exactly its own claim, which was the only one, and puts the product on sale |
| Safety.ReviewKeepsCredit | backend/internal/service/review_service.go:31-72 | a review keeps every credit score accounted for by the reviews received |
| Safety.NeverSelfReview | backend/internal/service/review_service.go:44-50 | the refusal of a self-review never fires |
| Safety.StepKeepsInv | backend/internal/service/exchange_service.go:20-22 | every transaction of the system keeps the whole invariant |
| Safety.RunKeepsInv | backend/internal/service/exchange_service.go:20-22 | so does every run |
| ExchangeLaws.ActIff | backend/internal/service/exchange_service.go:122-316 | an action succeeds exactly under the stated conditions on row, caller, time and, to accept, products; when it must settle, when it meets a product conflict; a call that does not succeed writes nothing |
| ExchangeLaws.ActRefusals | backend/internal/service/exchange_service.go:447-500 | exactly which calls are refused because the proposal is missing, expired or ended, the caller is no party, the turn is the other's, or the round is spent |
| ExchangeLaws.AnswerEffect | backend/internal/service/exchange_service.go:208-316 | a rejection, cancellation or counter-offer changes its own row only, to the stated columns and entry |
| ExchangeLaws.TerminalIsForever | backend/internal/constants/enums.go:88-96 | over any run terminal rows never change, histories only grow, and parties, items and deadline stay |
| ExchangeLaws.OneWinner | backend/internal/service/exchange_service.go:145-159 | over any run a proposal is ended at most once, and once exactly when it became terminal |
| ExchangeLaws.ReachableRows | backend/internal/service/exchange_service.go:447-500 | every reachable row: its history is legal and replays to it, its times respect the deadline, its terms were agreed by both parties |
| ExchangeLaws.LazyExpiry | backend/internal/service/exchange_service.go:402-427 | with any transactions between abort, settlement and final read, a late call leaves no effect, ends with the proposal terminal, and replies Expired exactly when it is expired |
| ExchangeLaws.ExpiredAnswer | backend/internal/service/exchange_service.go:470-482 | what a party who acts on an expired proposal is told |
| ExchangeLaws.SweepAndActionCommute | backend/internal/service/exchange_service.go:355-375 | sweep and late action end in the same row in either order, up to the time of the expiry entry, with the same reply but for a second counter-offer |
| ExchangeLaws.SettleIsIdempotent | backend/internal/repository/exchange_repository.go:249-293 | repeating a settlement changes nothing and counts nothing, and so does settling the same rows at any other time; exactly the expired rows have an expiry entry |
| Occupancy.BusyCountReadsTable | backend/internal/repository/exchange_repository.go:162-188 | the busy count is 1 or 0 as the lock table holds the product or not, and its one occupant is the holder |
| Occupancy.StepsTheTable | backend/internal/service/exchange_service.go:58-109 | refinement: opening acquires all its products at once, ending releases exactly those, everything else leaves the table alone |
| Occupancy.FreedProductsCanBeOffered | backend/internal/service/exchange_service.go:76-87 | after a rejection, cancellation or expiry a request in order on the freed products succeeds |
| Occupancy.BadgeCountsTurns | frontend/src/stores/exchangeStore.ts:37-45 | the two list totals of the badge add up to the active proposals whose turn is the user's |
| Sweep.SweepShrinks | backend/internal/service/exchange_service.go:357-370 | a sweep settles exactly its batch, and makes progress whenever an unlocked due row exists |
| Sweep.SweepsDrain | backend/internal/service/exchange_service.go:357-370 | k sweeps bring n due proposals to max(0, n - 200k), earliest deadlines first |
| Sweep.BatchExists | backend/internal/repository/exchange_repository.go:236-247 | the locking query always has an answer |
| OrderLaws.OrdersMoveForward | backend/internal/constants/enums.go:136-144 | over any run orders only move forward; completed and cancelled ones never change; none is cancelled after shipping |
| OrderLaws.PlaceOrderIff | backend/internal/service/order_service.go:34-80 | when a purchase succeeds and what each other one is told; the order it opens, of one unit if no quantity is given, and all that stays |
| OrderLaws.OrderMovesIff | backend/internal/service/order_service.go:88-214 | who may pay, ship, receive and complete an order and when, the refusals, and that nothing but the status moves |
| OrderLaws.CancelOrderIff | backend/internal/service/order_service.go:217-247 | who may cancel and when, the refusals; order and product keep everything but their statuses |
| OrderLaws.SellerWritesIff | backend/internal/service/product_service.go:29-118 | publication, edit and removal from the shelf: who may and when, the refusals, and the new product field by field |
| OrderLaws.ReviewIff | backend/internal/service/review_service.go:31-90 | when a review succeeds and what each other one is told, whom it concerns, and by how much it moves whose credit |
| OrderLaws.ReachableLedgers | backend/internal/service/order_service.go:33-80 | no product is committed twice in any run; every credit score is 100 plus 5 for each good and minus 5 for each bad review; one review for each order, completed only; nobody buys from himself |
| RowLocks.CommitIsAtomic | backend/internal/service/exchange_service.go:20-22 | what an interleaved transaction merges and replies at its commit is what the atomic one would, on the database of that moment |
| RowLocks.RefusalIsAtomic | backend/internal/service/exchange_service.go:58-87 | the refusal that makes an interleaved transaction roll back is the atomic one's reply on the database of that moment, unless a row that the call names has been created since it asked for it |
| Interleaving.ExecutionsAreSerializable | backend/internal/repository/product_repository.go:154-164 | any interleaving commits the database of the atomic run in commit order |
| Progress.CallCommits | backend/internal/service/exchange_service.go:56-117 | from any state of an interleaving, a call that would succeed atomically has statements from its begin to its commit that leave just its effect, as long as no other transaction holds a row that it works on |
| Progress.RunsAreExecutions | backend/internal/repository/product_repository.go:154-164 | so every run of transactions that succeed is the committed run of an interleaved execution |
| Interleaving.InterleavedIsSafe | backend/internal/service/exchange_service.go:58-109 | exclusive occupancy, no double commitment and legal rows in every committed state of every interleaving |
| Interleaving.NoDeadlock | backend/internal/repository/product_repository.go:154-164 | no circle of transactions waiting for each other's rows, in any interleaving |
| Interleaving.SomeoneCanMove | backend/internal/repository/exchange_repository.go:233-247 | while transactions run, one of them is not blocked |
| StaleSaves.SaveKeepsLedgerIff | backend/internal/service/product_service.go:55-118 | the save of a product row read in an earlier state keeps the ledger exactly when it takes the product off the shelf, or the row was read off the shelf, or the claims on the product are as many as then |
| StaleSaves.SaveKeepsCreditIff | backend/internal/service/user_service.go:94-147 | the save of a user row keeps the credit ledger exactly when the user's good and bad reviews since the read are equally many |
| StaleSaves.SaveAfterRunIff | backend/internal/repository/product_repository.go:166-171 | both for a row read in a reachable state and saved after any further transactions; taking off the shelf is always harmless |
| StaleSaves.SaveWritesOldRow | backend/internal/repository/product_repository.go:166-171 | a save puts the row that its atomic edit or removal would have left at the time of the read over the row as it is now; with no time between, it is the atomic one |
| StaleSaves.RulesSurviveSaves | backend/internal/service/product_service.go:55-118 | in any run with stale saves: exclusive occupancy, legal proposals, reviews of completed orders only, one for each |
| StaleSaves.LedgerHoldsIff | backend/internal/service/product_service.go:55-97 | over whole runs with stale saves of both kinds, the ledger of claims holds at every moment exactly when every edit is in time |
| StaleSaves.CreditHoldsIff | backend/internal/service/user_service.go:94-147 | over the same runs, every credit score is accounted for at every moment exactly when every profile or role save is in time |
| StaleSaves.StaleEditSellsTwice | backend/internal/service/product_service.go:55-97 | a stale edit after an order lets the product be sold twice |
| StaleSaves.StaleProfileLosesReview | backend/internal/service/user_service.go:94-119 | from any safe state, a good or bad review is lost to a profile saved from a row read before it |
| StaleSaves.StaleProfileBreaksCredit | backend/internal/service/user_service.go:94-119 | and such a run exists |
| Limits.OverlapWouldDeadlock | backend/internal/repository/exchange_repository.go:190-211 | were two active proposals to share a product, whatever else they and further proposals contain, their acceptances, running alone with the products of the first on sale, could block each other |
| Services.Database.CompareAndUpdateStatus | backend/internal/repository/exchange_repository.go:141-153 | writes the row exactly when its status is among the given ones, and says so |
| Services.Database.CountActiveByProductIds | backend/internal/repository/exchange_repository.go:162-188 | the number of active proposals for each occupied product, and no row for the others |
| Services.Database.AutoCloseOthers | backend/internal/repository/exchange_repository.go:190-231 | closes exactly the rivals, with one entry each, and counts them |
| Services.Database.LockDueExpiredIds | backend/internal/repository/exchange_repository.go:236-247 | the earliest due unlocked rows up to the limit, in order |
| Services.Database.SettleExpired | backend/internal/repository/exchange_repository.go:252-293 | commits the settlement transaction |
| Services.Database.ValidateCreateItems | backend/internal/service/exchange_service.go:532-571 | the loops return the verdict on both lists |
| Services.Database.BuildExchangeItems | backend/internal/service/exchange_service.go:573-596 | the snapshots of both sides in order |
| Services.Database.Create | backend/internal/service/exchange_service.go:37-118 | commits the opening transaction |
| Services.Database.AcceptInTx | backend/internal/service/exchange_service.go:122-186 | commits the accepting transaction; the conditional update never misses |
| Services.Database.TerminateInTx | backend/internal/service/exchange_service.go:208-246 | commits the rejecting or cancelling transaction; the conditional update never misses |
| Services.Database.CounterInTx | backend/internal/service/exchange_service.go:260-308 | commits the counter-offer transaction; the conditional update never misses |
| Services.Database.SettleExpiredProposal | backend/internal/service/exchange_service.go:506-529 | settles one proposal and says whether it did |
| Services.Database.RunAction | backend/internal/service/exchange_service.go:402-427 | a whole call with interference: either its one transaction, or nothing of it, the proposal terminal, and Expired exactly when expired |
| Services.Database.ExpireDue | backend/internal/service/exchange_service.go:357-375 | settles a batch of the earliest due rows and returns its size |
| Services.Database.PlaceOrder | backend/internal/service/order_service.go:34-86 | commits the order transaction |
| Services.Database.MoveOrder | backend/internal/service/order_service.go:88-214 | commits a payment, shipping, receipt or completion |
| Services.Database.CancelOrder | backend/internal/service/order_service.go:217-253 | commits the cancellation, or rolls the order back |
| Services.Database.PublishProduct | backend/internal/service/product_service.go:29-52 | puts a new product on sale, unless its condition or category is invalid |
| Services.Database.EditProduct | backend/internal/service/product_service.go:55-97 | assigns the given fields of the seller's product and keeps the others and the status; refuses an invalid condition or category |
| Services.Database.OffShelf | backend/internal/service/product_service.go:101-118 | takes the seller's product off the shelf, whatever its status |
| Services.Database.CreateReview | backend/internal/service/review_service.go:31-78 | commits the review with the credit, or rolls both back |
| Services.Dedup | backend/internal/service/exchange_service.go:626-641 | the loop computes the list without zeroes and repetitions |
| Services.Overlaps | backend/internal/service/exchange_service.go:643-655 | the loop finds a shared element exactly when there is one |
| RateLimit.Limiter.Allow | backend/internal/middleware/ratelimit.go:18-41 | one request on its client's bucket, the other buckets untouched |
| RateLimit.IntervalBound | backend/internal/middleware/ratelimit.go:17-41 | for stamps at most d late, at most a peak of a client's requests pass in any closed minute: all but the first request of each window in reach, and one first request; 2 * limit - 1 for stamps in order |
| RateLimit.EveryClientIsBounded | backend/internal/middleware/ratelimit.go:17-41 | the same for each client in any trace of all clients' requests, whatever the stamps of the others |
| RateLimit.IntervalBoundIsTight | backend/internal/middleware/ratelimit.go:17-41 | for every limit and every lateness some trace reaches the peak |
| RateLimit.BoundsIff | backend/internal/middleware/ratelimit.go:23-41 | so a number bounds what passes in a minute, over all traces of that lateness, exactly when the peak does not exceed it |
| RateLimit.WindowBound | backend/internal/middleware/ratelimit.go:25-37 | in the minute from a request that opens a window at most a quota of requests pass, and more only through late stamps in later windows |
| RateLimit.RefusedIff | backend/internal/middleware/ratelimit.go:23-37 | from the times alone: a window is opened by the first request and by each one more than a minute after the latest opening; a request is refused exactly when it opens none and at least a quota of requests, refused ones included, were made in its window before it |
| RateLimit.AnswersFollowTimes | backend/internal/middleware/ratelimit.go:18-41 | the same for each client in any trace of all clients' requests |
| RateLimit.TwoWindowsIff | backend/internal/middleware/ratelimit.go:23-26 | 2 * quota - 1 is a bound exactly for a lateness of at most one nanosecond or a limit of at most 1; for a lateness up to a minute the peak is 3 * limit - 2, and twice the limit is a bound exactly up to a limit of 2 |
| RateLimit.ClientsAreIndependent | backend/internal/middleware/ratelimit.go:20-31 | a client's outcomes depend on its own requests only |
| Conversations.MessageService.Send | backend/internal/service/message_service.go:27-39 | appends the message, unless it is to oneself |
| Conversations.MessageService.ListPeers | backend/internal/repository/message_repository.go:50-59 | the user's messages, newest first |
| Conversations.ViewIsNewestFirst | backend/internal/repository/message_repository.go:50-59 | these are the messages at the positions where the user sends or receives, from the last position back |
| Conversations.StartConversations | backend/internal/service/message_service.go:74-103 | the first loop: one entry for each peer, from the newest message, in the order of these messages |
| Conversations.CountUnread | backend/internal/service/message_service.go:104-110 | the second loop: every sender has its entry, and each entry gets its exact unread count |
| Conversations.MessageService.ListConversations | backend/internal/service/message_service.go:69-116 | the index of the user's conversations |
| Conversations.MessageService.MarkRead | backend/internal/repository/message_repository.go:61-69 | marks exactly the unread messages from the peer and counts them |
| Conversations.MessageService.UnreadCount | backend/internal/repository/message_repository.go:71-78 | the number of unread messages |
| Conversations.CountersAreSizes | backend/internal/repository/message_repository.go:71-78 | both unread counters count exactly the unread messages received, by anyone or from the peer |
| Conversations.IndexIsUnique | backend/internal/service/message_service.go:68-116 | there is only one such index |
| Conversations.IndexShowsLast | backend/internal/service/message_service.go:74-103 | every entry shows the last message of the log between the user and its peer, and the entries come by these messages, latest first |
| Conversations.IndexEntries | backend/internal/service/message_service.go:68-116 | no peer appears twice, and each has the log's unread count |
| Conversations.IndexListsPeers | backend/internal/service/message_service.go:68-116 | exactly the peers of the user's messages appear |
| Conversations.IndexTotalsUnread | backend/internal/service/message_service.go:128-135 | the index's unread counts add up to the separate counter |
| Conversations.MarkReadZeroesOnePeer | backend/internal/service/message_service.go:118-126 | marking read zeroes one peer's count, keeps the others, and lowers the total by just that |
| Conversations.MarkReadOnIndex | backend/internal/service/message_service.go:118-126 | on the index: the same peers in the same order with the same messages, one count zeroed |
| Conversations.MarkedAt | backend/internal/repository/message_repository.go:61-69 | marking sets the read flag of exactly the user's unread messages from the peer and leaves every other message |
| Conversations.MarkReadSparesCounts | backend/internal/repository/message_repository.go:61-69 | every other user's unread counts stay |
| Conversations.MarkReadSparesOthers | backend/internal/repository/message_repository.go:61-69 | and so does every other user's conversation index |

## Left out

- HTTP handlers, routing, authentication, uploads, configuration, audit log, view objects and pages: they pass requests to the services modelled here and hold none of the state.
- SQL and GORM mechanics, foreign keys, soft deletion and connection errors: a transaction commits all its writes or none, and no service deletes a product, order or proposal.
- Order and proposal numbers: rows have abstract keys that the database hands out unused.
- Money: prices and top-up amounts are integers, since nothing is computed with them but an order's total.
- Whitespace trimming of notes: notes arrive trimmed. The text of system notes stands for the original's.
- Image lists: a product's images are a list, where the original joins them with commas and splits them again.
- The five time columns of orders: they are written together with the status and nothing modelled here reads them.
- The profile and role columns of users: only the credit score is read by what is modelled; a save of the others is a save of the credit score.
- The clock of history entries: one reading stamps all entries of an action's transaction, where the code reads it once for each entry.
- OrderLaws.ReachableLedgers: its runs take the edit of a product, its removal from the shelf and the save of a user as atomic; `StaleSaves` says exactly when its two ledgers hold without that.
- Safety.StepKeepsInv: the same.
- RowLocks.CommitIsAtomic: registration, publication, edits, removals from the shelf and reviews run as single statements that wait for the row they write without holding another; the credit row of a review is not a lock of its own.
- RowLocks.RefusalIsAtomic: says nothing of a call that names a row created after its locking statement; such a call is refused for a missing row and writes nothing.
- Limits.OverlapWouldDeadlock: a constructed state, which no run reaches; an acceptance that had locked rivals would re-read their statuses in the model and not in the code.
- Conversations.MessageService.Send: delivery over web sockets and Redis is not part of this model.
- Conversations.MessageService.ListConversations: peer names, avatars and product titles, which are looked up for display.
- Paging of lists, favourite and view counts, carts and addresses: no transaction modelled here depends on them, except that an order needs an address of the buyer's, which is a parameter.
