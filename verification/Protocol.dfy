/** The marketplace as a state machine: one step is one committed (or refused) transaction,
    and a run is any sequence of steps from the empty database. */
module Protocol {
  import opened Entities
  import opened Negotiation
  import opened Transactions

  datatype Step =
    | Register(user: nat)
    | Publish(id: nat, seller: nat, listing: Listing)
    | Edit(user: nat, product: nat, patch: Patch)
    | TakeOff(user: nat, product: nat)
    | Propose(id: nat, user: nat, req: Request, now: int, wall: int)
    | Act(user: nat, proposal: nat, call: Call, now: int, wall: int)
    | Settle(ids: set<nat>, now: int)
    | PlaceOrder(id: nat, user: nat, product: nat, quantity: int, addressOk: bool)
    | MoveOrder(user: nat, order: nat, move: OrderMove)
    | CancelOrder(user: nat, order: nat, role: CancelRole)
    | WriteReview(id: nat, user: nat, order: nat, rating: Rating)

  // The database hands out unused keys, and keys of users start from 1.
  predicate KeysOk(s: State, step: Step) {
    match step
    case Register(user) => 0 < user && user !in s.users
    case Publish(id, seller, _) => 0 < seller && id !in s.products
    case Propose(id, _, _, _, _) => id !in s.proposals
    case PlaceOrder(id, _, _, _, _) => id !in s.orders
    case WriteReview(id, _, _, _) => id !in s.reviews
    case _ => true
  }

  function Exec(s: State, step: Step): (State, Reply) {
    match step
    case Register(user) => RegisterTx(s, user)
    case Publish(id, seller, listing) => PublishTx(s, id, seller, listing)
    case Edit(user, x, patch) => EditTx(s, user, x, patch)
    case TakeOff(user, x) => TakeOffTx(s, user, x)
    case Propose(id, user, req, now, wall) => ProposeTx(s, id, user, req, now, wall)
    case Act(user, pid, call, now, wall) => ActTx(s, user, pid, call, now, wall)
    case Settle(ids, now) => SettleTx(s, ids, now)
    case PlaceOrder(id, buyer, x, quantity, addressOk) => PlaceOrderTx(s, id, buyer, x, quantity, addressOk)
    case MoveOrder(user, id, move) => MoveOrderTx(s, user, id, move)
    case CancelOrder(user, id, role) => CancelOrderTx(s, user, id, role)
    case WriteReview(id, reviewer, order, rating) => ReviewTx(s, id, reviewer, order, rating)
  }

  function Apply(s: State, step: Step): State {
    if KeysOk(s, step) then Exec(s, step).0 else s
  }

  function Run(s: State, steps: seq<Step>): State {
    if steps == [] then s else Apply(Run(s, steps[..|steps| - 1]), steps[|steps| - 1])
  }

  /** A step runs its transaction, with its own arguments, whenever the row that it inserts is new. */
  lemma StepRunsItsTransaction(s: State, step: Step)
    ensures Apply(s, step) ==
            match step
            case Register(user) => if 0 < user && user !in s.users then RegisterTx(s, user).0 else s
            case Publish(id, seller, listing) => if 0 < seller && id !in s.products then PublishTx(s, id, seller, listing).0 else s
            case Edit(user, x, patch) => EditTx(s, user, x, patch).0
            case TakeOff(user, x) => TakeOffTx(s, user, x).0
            case Propose(id, user, req, now, wall) => if id !in s.proposals then ProposeTx(s, id, user, req, now, wall).0 else s
            case Act(user, pid, call, now, wall) => ActTx(s, user, pid, call, now, wall).0
            case Settle(ids, now) => SettleTx(s, ids, now).0
            case PlaceOrder(id, buyer, x, quantity, addressOk) =>
              if id !in s.orders then PlaceOrderTx(s, id, buyer, x, quantity, addressOk).0 else s
            case MoveOrder(user, id, move) => MoveOrderTx(s, user, id, move).0
            case CancelOrder(user, id, role) => CancelOrderTx(s, user, id, role).0
            case WriteReview(id, user, order, rating) => if id !in s.reviews then ReviewTx(s, id, user, order, rating).0 else s
  {
  }

  lemma OneStepMore(s: State, steps: seq<Step>, step: Step)
    ensures Run(s, steps + [step]) == Apply(Run(s, steps), step)
  {
    assert (steps + [step])[..|steps|] == steps;
  }

  // ----- what every reachable state satisfies -----

  ghost predicate RowsOk(proposals: map<nat, Proposal>) {
    forall q :: q in proposals ==> RowOk(proposals[q])
  }

  /** Each product is in at most one active proposal. */
  ghost predicate Exclusive(proposals: map<nat, Proposal>) {
    forall q, r :: q in proposals && r in proposals && q != r
      && IsActive(proposals[q].status) && IsActive(proposals[r].status)
      ==> ProductIds(proposals[q]) !! ProductIds(proposals[r])
  }

  ghost predicate ItemsExist(s: State) {
    forall q :: q in s.proposals ==> ProductIds(s.proposals[q]) <= s.products.Keys
  }

  predicate SellersOk(s: State) {
    forall x :: x in s.products ==> 0 < s.products[x].seller
  }

  predicate OrdersOk(s: State) {
    forall o :: o in s.orders ==>
      && s.orders[o].buyer != s.orders[o].seller
      && s.orders[o].product in s.products
      && s.products[s.orders[o].product].seller == s.orders[o].seller
  }

  // The orders on product x that are not cancelled, and the accepted proposals that contain it.
  function LiveOrders(orders: map<nat, Order>, x: nat): set<nat> {
    set o | o in orders && orders[o].product == x && orders[o].status != OrderCancelled
  }

  function Deals(proposals: map<nat, Proposal>, x: nat): set<nat> {
    set q | q in proposals && proposals[q].status == Accepted && x in ProductIds(proposals[q])
  }

  function Claims(s: State, x: nat): nat {
    |LiveOrders(s.orders, x)| + |Deals(s.proposals, x)|
  }

  predicate Balanced(status: ProductStatus, claims: nat) {
    match status
    case OnSale => claims == 0
    case Sold => claims == 1
    case OffShelf => claims <= 1
  }

  /** No product is committed twice, and its status tells whether it is committed. */
  ghost predicate LedgerOk(s: State) {
    forall x :: x in s.products ==> Balanced(s.products[x].status, Claims(s, x))
  }

  function ReviewsFor(reviews: map<nat, Review>, user: nat, rating: Rating): set<nat> {
    set r | r in reviews && reviews[r].reviewee == user && reviews[r].rating == rating
  }

  /** Every credit score is accounted for by the reviews received. */
  predicate CreditOk(s: State) {
    forall u :: u in s.users ==> s.users[u] == 100 + 5 * |ReviewsFor(s.reviews, u, Good)| - 5 * |ReviewsFor(s.reviews, u, Bad)|
  }

  predicate ReviewsOk(s: State) {
    && (forall r :: r in s.reviews ==>
          && s.reviews[r].reviewee in s.users
          && s.reviews[r].order in s.orders && s.orders[s.reviews[r].order].status == Completed)
    && (forall r, t :: r in s.reviews && t in s.reviews && s.reviews[r].order == s.reviews[t].order ==> r == t)
  }

  // The rules that do not depend on the two ledgers.
  ghost predicate RulesOk(s: State) {
    && RowsOk(s.proposals)
    && Exclusive(s.proposals)
    && ItemsExist(s)
    && SellersOk(s)
    && OrdersOk(s)
    && ReviewsOk(s)
  }

  ghost predicate Inv(s: State) {
    RulesOk(s) && LedgerOk(s) && CreditOk(s)
  }

  // ----- how steps change the proposals -----

  // Rows stay or make one legal move; none appears or disappears.
  ghost predicate OnlyAdvance(before: map<nat, Proposal>, after: map<nat, Proposal>) {
    && after.Keys == before.Keys
    && forall q :: q in before ==> after[q] == before[q] || Advances(before[q], after[q])
  }

  lemma AdvanceKeeps(s: State, t: State)
    requires RowsOk(s.proposals) && Exclusive(s.proposals) && ItemsExist(s)
    requires OnlyAdvance(s.proposals, t.proposals) && s.products.Keys <= t.products.Keys
    ensures RowsOk(t.proposals) && Exclusive(t.proposals) && ItemsExist(t)
  {
    hide RowOk;
    forall q | q in t.proposals
      ensures RowOk(t.proposals[q]) && ProductIds(t.proposals[q]) == ProductIds(s.proposals[q])
      ensures IsActive(t.proposals[q].status) ==> IsActive(s.proposals[q].status)
    {
    }
  }

  lemma ActAdvances(s: State, user: nat, pid: nat, call: Call, now: int, wall: int)
    ensures OnlyAdvance(s.proposals, ActTx(s, user, pid, call, now, wall).0.proposals)
  {
    if pid in s.proposals {
      var p := s.proposals[pid];
      var load := LoadForAction(p, user, ActionOf(call), now);
      if load.Go? {
        match call
        case AcceptCall => AcceptAdvances(p, user, load.role, now, wall);
          forall q | q in s.proposals && IsActive(s.proposals[q].status)
            ensures Advances(s.proposals[q], AfterAutoClose(s.proposals[q], wall))
          {
            AutoCloseAdvances(s.proposals[q], wall);
          }
        case RejectCall(note) => RejectAdvances(p, user, load.role, note, now, wall);
        case CancelCall(note) => CancelAdvances(p, user, load.role, note, now, wall);
        case CounterCall(note, amount, payer) => CounterAdvances(p, user, load.role, note, amount, payer, now, wall);
      }
    }
  }

  // All due candidates expired, each with its one entry.
  ghost function ExpireAll(proposals: map<nat, Proposal>, hit: set<nat>, now: int): map<nat, Proposal> {
    map q | q in proposals :: if q in hit then AfterExpiry(proposals[q], now) else proposals[q]
  }

  /** Where rows are well formed, a settlement expires exactly the due candidates, gives each one
      expiry entry, and reports how many they were. */
  lemma SettleIsExact(s: State, ids: set<nat>, now: int)
    requires RowsOk(s.proposals)
    ensures SettleTx(s, ids, now) ==
            (s.(proposals := ExpireAll(s.proposals, DueIn(s.proposals, ids, now), now)),
             Count(|DueIn(s.proposals, ids, now)|))
  {
    var hit := DueIn(s.proposals, ids, now);
    MarkedAreUnrecorded(s.proposals, ids, now);
    hide RowOk, HasExpireEntry, IsDue, Unrecorded, RowsOk;
    if hit == {} {
      assert ExpireAll(s.proposals, hit, now) == s.proposals;
    } else {
      RecordMarked(s.proposals, hit, now);
    }
  }

  lemma RecordMarked(proposals: map<nat, Proposal>, hit: set<nat>, now: int)
    ensures RecordAll(MarkAll(proposals, hit), hit, now) == ExpireAll(proposals, hit, now)
  {
  }

  // The rows just marked are those without an expiry entry.
  lemma MarkedAreUnrecorded(proposals: map<nat, Proposal>, ids: set<nat>, now: int)
    requires RowsOk(proposals)
    ensures var hit := DueIn(proposals, ids, now); Unrecorded(MarkAll(proposals, hit), ids) == hit
  {
    hide RowOk, HasExpireEntry;
    forall q | q in proposals ensures HasExpireEntry(proposals[q].history) <==> proposals[q].status == Expired {
      ExpireEntries(proposals[q]);
    }
  }

  /** The same, row by row: exactly the active candidates past their deadline become expired, closed by the system with
      one entry of that time, and the reply is their number. */
  lemma SettleEffect(s: State, ids: set<nat>, now: int)
    requires RowsOk(s.proposals)
    ensures var (t, r) := SettleTx(s, ids, now);
            var due := set q | q in ids && q in s.proposals && s.proposals[q].status in {Pending, Countered} && s.proposals[q].expiresAt < now;
            && r == Count(|due|)
            && t == s.(proposals := t.proposals) && t.proposals.Keys == s.proposals.Keys
            && forall q :: q in s.proposals ==>
                 t.proposals[q] == if q !in due then s.proposals[q]
                                   else s.proposals[q].(status := Expired, lastActionBy := 0,
                                          history := s.proposals[q].history + [Entry(0, System, Expire, EXPIRE_NOTE, 0, Offeror, now)])
  {
    hide RowOk;
    SettleIsExact(s, ids, now);
    var due := set q | q in ids && q in s.proposals && s.proposals[q].status in {Pending, Countered} && s.proposals[q].expiresAt < now;
    assert due == DueIn(s.proposals, ids, now);
    hide SettleTx, RowsOk;
  }

  lemma ExpireAllAdvances(proposals: map<nat, Proposal>, hit: set<nat>, now: int)
    requires forall q :: q in hit ==> q in proposals && IsDue(proposals[q], now)
    ensures OnlyAdvance(proposals, ExpireAll(proposals, hit, now))
  {
    hide AfterExpiry, Advances;
    forall q | q in hit ensures Advances(proposals[q], AfterExpiry(proposals[q], now)) {
      ExpiryAdvances(proposals[q], now);
    }
  }

  lemma SettleAdvances(s: State, ids: set<nat>, now: int)
    requires RowsOk(s.proposals)
    ensures OnlyAdvance(s.proposals, SettleTx(s, ids, now).0.proposals)
  {
    SettleIsExact(s, ids, now);
    ExpireAllAdvances(s.proposals, DueIn(s.proposals, ids, now), now);
    hide SettleTx, RowsOk, ExpireAll, OnlyAdvance;
  }
}
