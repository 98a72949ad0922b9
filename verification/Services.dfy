/** The services and their repositories, on the mutable database. Each transaction is proved to commit
    what the transaction functions say, and to reply what they say. */
module Services {
  import opened Entities
  import opened Negotiation
  import opened Transactions
  import opened Protocol
  import opened Safety
  import opened ExchangeLaws
  import opened Sweep

  class Database {
    var users: map<nat, int>
    var products: map<nat, Product>
    var proposals: map<nat, Proposal>
    var orders: map<nat, Order>
    var reviews: map<nat, Review>

    function Db(): State
      reads this
    {
      State(users, products, proposals, orders, reviews)
    }

    constructor ()
      ensures Db() == EMPTY
    {
      users, products, proposals, orders, reviews := map[], map[], map[], map[], map[];
    }

    // Other clients' transactions, between two transactions of a call.
    method Interfere(steps: seq<Step>)
      modifies this
      ensures Db() == Run(old(Db()), steps)
    {
      var t := Run(Db(), steps);
      users, products, proposals, orders, reviews := t.users, t.products, t.proposals, t.orders, t.reviews;
    }

    // ----- exchange repository -----

    // The conditional update: writes the row only if its status is one of `from`.
    method CompareAndUpdateStatus(id: nat, from: seq<Status>, patch: Proposal -> Proposal) returns (ok: bool)
      modifies this`proposals
      ensures ok <==> id in old(proposals) && old(proposals[id].status) in from
      ensures proposals == if ok then old(proposals)[id := patch(old(proposals[id]))] else old(proposals)
    {
      ok := id in proposals && proposals[id].status in from;
      if ok {
        proposals := proposals[id := patch(proposals[id])];
      }
    }

    method CreateHistory(id: nat, entry: Entry)
      requires id in proposals
      modifies this`proposals
      ensures proposals == old(proposals)[id := old(proposals[id]).(history := old(proposals[id].history) + [entry])]
    {
      proposals := proposals[id := proposals[id].(history := proposals[id].history + [entry])];
    }

    // The busy counts of the given products; a product without active proposal has no row.
    method CountActiveByProductIds(ids: seq<nat>) returns (result: map<nat, nat>)
      ensures forall x :: x in result <==> x in ids && Occupants(proposals, x) != {}
      ensures forall x :: x in result ==> result[x] == |Occupants(proposals, x)| > 0
    {
      result := map[];
      var i := 0;
      while i < |ids|
        invariant 0 <= i <= |ids|
        invariant forall x :: x in result <==> x in ids[..i] && Occupants(proposals, x) != {}
        invariant forall x :: x in result ==> result[x] == |Occupants(proposals, x)| > 0
      {
        assert ids[..i + 1] == ids[..i] + [ids[i]];
        var cnt := |Occupants(proposals, ids[i])|;
        if cnt > 0 {
          result := result[ids[i] := cnt];
        }
        i := i + 1;
      }
      assert ids[..i] == ids;
    }

    // Selects the other active proposals on the given products, closes them, then writes their entries one by one.
    method AutoCloseOthers(ids: set<nat>, winner: nat, wall: int) returns (closed: nat)
      modifies this`proposals
      ensures proposals == AutoClose(old(proposals), Rivals(old(proposals), ids, winner), wall)
      ensures closed == |Rivals(old(proposals), ids, winner)|
    {
      var picked := Rivals(proposals, ids, winner);
      closed := |picked|;
      var todo := picked;
      proposals := map q | q in proposals ::
        if q in picked then proposals[q].(status := Cancelled, lastActionBy := 0) else proposals[q];
      while todo != {}
        invariant todo <= picked <= old(proposals).Keys && proposals.Keys == old(proposals).Keys
        invariant forall q :: q in proposals ==>
          proposals[q] == if q !in picked then old(proposals[q])
                          else if q in todo then old(proposals[q]).(status := Cancelled, lastActionBy := 0)
                          else AfterAutoClose(old(proposals[q]), wall)
        decreases todo
      {
        hide Rivals;
        var q :| q in todo;
        proposals := proposals[q := proposals[q].(
          history := proposals[q].history + [Entry(0, System, Cancel, AUTO_CLOSE_NOTE, 0, Offeror, wall)])];
        todo := todo - {q};
      }
    }

    // The locking query of the sweep: the earliest due rows that nobody has locked, up to the limit, earliest first.
    method LockDueExpiredIds(now: int, limit: nat, locked: set<nat>) returns (ids: seq<nat>)
      ensures IsBatch(proposals, locked, now, limit, set q | q in ids)
      ensures forall i, j :: 0 <= i < j < |ids| ==>
        ids[i] in proposals && ids[j] in proposals && proposals[ids[i]].expiresAt <= proposals[ids[j]].expiresAt
    {
      var free := set q | q in proposals && IsDue(proposals[q], now) && q !in locked;
      assert free == DueRows(proposals, now) - locked;
      ids := [];
      var rest := free;
      while |ids| < limit && rest != {}
        invariant Selected(proposals, free, rest, ids) && |ids| <= limit
        decreases rest
      {
        var first := FindEarliest(rest);
        SelectOneMore(proposals, free, rest, ids, first);
        ids := ids + [first];
        rest := rest - {first};
      }
      SelectedIsBatch(proposals, locked, now, limit, free, rest, ids);
    }

    method FindEarliest(rows: set<nat>) returns (first: nat)
      requires rows != {} && rows <= proposals.Keys
      ensures first in rows && forall r :: r in rows ==> proposals[first].expiresAt <= proposals[r].expiresAt
    {
      first :| first in rows;
      var todo := rows - {first};
      while todo != {}
        invariant todo <= rows && first in rows
        invariant forall r :: r in rows - todo ==> proposals[first].expiresAt <= proposals[r].expiresAt
        decreases todo
      {
        var r :| r in todo;
        if proposals[r].expiresAt < proposals[first].expiresAt {
          first := r;
        }
        todo := todo - {r};
      }
    }

    // The settlement shared by the sweep and the late actions.
    method SettleExpired(ids: set<nat>, now: int) returns (n: nat)
      modifies this`proposals
      ensures (Db(), Count(n)) == SettleTx(old(Db()), ids, now)
    {
      if ids == {} {
        return 0;
      }
      var hit := set q | q in ids && q in proposals && IsActive(proposals[q].status) && proposals[q].expiresAt < now;
      assert hit == DueIn(proposals, ids, now);
      if |hit| == 0 {
        return 0;
      }
      proposals := map q | q in proposals :: if q in hit then MarkExpired(proposals[q]) else proposals[q];
      assert proposals == MarkAll(old(proposals), hit);
      var owed := set q | q in ids && q in proposals && proposals[q].status == Expired && !HasExpireEntry(proposals[q].history);
      assert owed == Unrecorded(proposals, ids);
      ghost var marked := proposals;
      proposals := map q | q in proposals ::
        if q in owed then proposals[q].(history := proposals[q].history + [ExpireEntry(now)]) else proposals[q];
      assert proposals == RecordAll(marked, owed, now);
      n := |owed|;
    }

    // ----- exchange service: opening -----

    method ValidateCreateItems(offeror: nat, offers: seq<nat>, targets: seq<nat>) returns (v: Verdict)
      ensures v == ValidateItems(products, offeror, offers, targets)
    {
      var i := 0;
      while i < |offers|
        invariant 0 <= i <= |offers|
        invariant CheckOffers(products, offeror, offers[..i]) == Fine(0)
        invariant forall j :: i <= j < |offers| ==> offers[..j + 1][..j] == offers[..j]
      {
        var id := offers[i];
        if id !in products {
          OfferDefect(products, offeror, offers, i, ProductNotFound);
          return Faulty(ProductNotFound);
        }
        if products[id].seller != offeror {
          OfferDefect(products, offeror, offers, i, Forbidden);
          return Faulty(Forbidden);
        }
        if products[id].status != OnSale {
          OfferDefect(products, offeror, offers, i, ExchangeItemConflict);
          return Faulty(ExchangeItemConflict);
        }
        i := i + 1;
      }
      assert offers[..i] == offers;
      v := ValidateTargets(offeror, targets);
    }

    method ValidateTargets(offeror: nat, targets: seq<nat>) returns (v: Verdict)
      ensures v == CheckTargets(products, offeror, targets)
    {
      var offeree: nat := 0;
      var i := 0;
      while i < |targets|
        invariant 0 <= i <= |targets|
        invariant CheckTargets(products, offeror, targets[..i]) == Fine(offeree)
        invariant forall j :: i <= j < |targets| ==> targets[..j + 1][..j] == targets[..j]
      {
        var id := targets[i];
        if id !in products {
          TargetDefect(products, offeror, targets, i, ProductNotFound);
          return Faulty(ProductNotFound);
        }
        if products[id].seller == offeror {
          TargetDefect(products, offeror, targets, i, ExchangeInvalidItems);
          return Faulty(ExchangeInvalidItems);
        }
        if products[id].status != OnSale {
          TargetDefect(products, offeror, targets, i, ExchangeItemConflict);
          return Faulty(ExchangeItemConflict);
        }
        if offeree == 0 {
          offeree := products[id].seller;
        } else if offeree != products[id].seller {
          TargetDefect(products, offeror, targets, i, ExchangeInvalidItems);
          return Faulty(ExchangeInvalidItems);
        }
        i := i + 1;
      }
      assert targets[..i] == targets;
      v := Fine(offeree);
    }

    method BuildExchangeItems(offers: seq<nat>, targets: seq<nat>) returns (items: seq<Item>)
      requires forall x :: x in offers || x in targets ==> x in products
      ensures items == BuildItems(products, offers, targets)
    {
      items := [];
      var i := 0;
      while i < |offers|
        invariant 0 <= i <= |offers|
        invariant items == Snapshots(products, offers, OfferSide)[..i]
      {
        var product := products[offers[i]];
        var image := "";
        if product.listing.images != [] {
          image := product.listing.images[0];
        }
        items := items + [Item(offers[i], product.seller, OfferSide, product.listing.title, product.listing.price, image)];
        i := i + 1;
      }
      var j := 0;
      while j < |targets|
        invariant 0 <= j <= |targets|
        invariant items == Snapshots(products, offers, OfferSide) + Snapshots(products, targets, TargetSide)[..j]
      {
        var product := products[targets[j]];
        var image := "";
        if product.listing.images != [] {
          image := product.listing.images[0];
        }
        items := items + [Item(targets[j], product.seller, TargetSide, product.listing.title, product.listing.price, image)];
        j := j + 1;
      }
    }

    method Create(id: nat, offeror: nat, req: Request, now: int, wall: int) returns (r: Reply)
      modifies this`proposals
      ensures (Db(), r) == ProposeTx(old(Db()), id, offeror, req, now, wall)
    {
      var offers := Dedup(req.offers);
      var targets := Dedup(req.targets);
      if |offers| == 0 || |targets| == 0 {
        return Failed(ExchangeInvalidItems);
      }
      var shared := Overlaps(offers, targets);
      if shared {
        return Failed(ExchangeInvalidItems);
      }
      var v := ValidateCreateItems(offeror, offers, targets);
      if v.Faulty? {
        return Failed(v.code);
      }
      ValidItemsExist(products, offeror, offers, targets);
      var busy := CountActiveByProductIds(offers + targets);
      assert busy == map[] <==> !AnyBusy(proposals, offers + targets) by {
        if busy != map[] {
          var x :| x in busy;
          assert x in offers + targets;
        }
      }
      if busy != map[] {
        return Failed(ExchangeItemConflict);
      }
      var items := BuildExchangeItems(offers, targets);
      proposals := proposals[id := Opened(offeror, v.offeree, req.note, req.amount, req.payer, req.ttlHours, items, now, wall)];
      r := Done;
    }

    // ----- exchange service: the actions, inside their transaction -----

    method AcceptInTx(user: nat, pid: nat, now: int, wall: int) returns (r: Reply)
      modifies this`proposals, this`products
      ensures (Db(), r) == ActTx(old(Db()), user, pid, AcceptCall, now, wall)
    {
      if pid !in proposals {
        return Failed(ExchangeNotFound);
      }
      var p := proposals[pid];
      var load := LoadForAction(p, user, Accept, now);
      if load.Refuse? {
        return Failed(load.code);
      }
      if load.Due? {
        return MustSettle;
      }
      var sellable := AllOnSale(p.items);
      if !sellable {
        return Failed(ExchangeItemConflict);
      }
      Conclude(user, pid, load.role, now, wall);
      r := Done;
    }

    // The writes of an acceptance: the row, its products, the overlapping proposals, the history.
    method Conclude(user: nat, pid: nat, role: Party, now: int, wall: int)
      requires pid in proposals && IsActive(proposals[pid].status)
      modifies this`proposals, this`products
      ensures var p := old(proposals[pid]);
              && products == MarkSold(old(products), ProductIds(p))
              && proposals == AutoClose(old(proposals)[pid := AfterAccept(p, user, role, now, wall)],
                                        Rivals(old(proposals), ProductIds(p), pid), wall)
    {
      var p := proposals[pid];
      var ids := ProductIds(p);
      var ok := CompareAndUpdateStatus(pid, Transitions(Accepted),
        (q: Proposal) => q.(status := Accepted, acceptedAt := Some(now), lastActionBy := user));
      assert ok;
      SellItems(p.items);
      assert products == MarkSold(old(products), ids);
      ghost var claimed := proposals;
      var closed := AutoCloseOthers(ids, pid, wall);
      CreateHistory(pid, Entry(user, role, Accept, p.note, p.amount, p.payer, wall));
      ClosesAroundWinner(old(proposals), pid, claimed[pid], AfterAccept(p, user, role, now, wall), ids, wall);
      hide AutoClose, Rivals;
    }

    method AllOnSale(items: seq<Item>) returns (ok: bool)
      ensures ok <==> forall i :: 0 <= i < |items| && items[i].product in products ==> products[items[i].product].status == OnSale
    {
      var i := 0;
      while i < |items|
        invariant 0 <= i <= |items|
        invariant forall j :: 0 <= j < i && items[j].product in products ==> products[items[j].product].status == OnSale
      {
        if items[i].product in products && products[items[i].product].status != OnSale {
          return false;
        }
        i := i + 1;
      }
      ok := true;
    }

    method SellItems(items: seq<Item>)
      modifies this`products
      ensures products == MarkSold(old(products), set i | 0 <= i < |items| :: items[i].product)
    {
      var i := 0;
      while i < |items|
        invariant 0 <= i <= |items| && products.Keys == old(products).Keys
        invariant forall x :: x in products ==>
          products[x] == if exists j :: 0 <= j < i && items[j].product == x then old(products[x]).(status := Sold) else old(products[x])
      {
        var x := items[i].product;
        if x in products {
          products := products[x := products[x].(status := Sold)];
        }
        i := i + 1;
      }
    }

    // Reject and cancel share their transaction.
    method TerminateInTx(user: nat, pid: nat, reject: bool, note: string, now: int, wall: int) returns (r: Reply)
      modifies this`proposals
      ensures (Db(), r) == ActTx(old(Db()), user, pid, if reject then RejectCall(note) else CancelCall(note), now, wall)
    {
      if pid !in proposals {
        return Failed(ExchangeNotFound);
      }
      var action := if reject then Reject else Cancel;
      var load := LoadForAction(proposals[pid], user, action, now);
      if load.Refuse? {
        return Failed(load.code);
      }
      if load.Due? {
        return MustSettle;
      }
      var target := TargetStatus(action);
      var ok := CompareAndUpdateStatus(pid, Transitions(target),
        (q: Proposal) => if reject then q.(status := target, lastActionBy := user, rejectedAt := Some(now))
             else q.(status := target, lastActionBy := user, cancelledAt := Some(now)));
      assert ok;
      CreateHistory(pid, Entry(user, load.role, action, note, 0, Offeror, wall));
      ghost var p := old(proposals[pid]);
      assert proposals == old(proposals)[pid := if reject then AfterReject(p, user, load.role, note, now, wall)
                                                else AfterCancel(p, user, load.role, note, now, wall)];
      r := Done;
    }

    method CounterInTx(user: nat, pid: nat, note: string, amount: int, payer: Option<Party>, now: int, wall: int) returns (r: Reply)
      modifies this`proposals
      ensures (Db(), r) == ActTx(old(Db()), user, pid, CounterCall(note, amount, payer), now, wall)
    {
      if pid !in proposals {
        return Failed(ExchangeNotFound);
      }
      var p := proposals[pid];
      var load := LoadForAction(p, user, Counter, now);
      if load.Refuse? {
        return Failed(load.code);
      }
      if load.Due? {
        return MustSettle;
      }
      var words := if note == "" then p.note else note;
      var side := if payer.None? then p.payer else payer.value;
      var ok := CompareAndUpdateStatus(pid, Transitions(Countered),
        (q: Proposal) => q.(status := Countered, turn := Offeror, round := 1, note := words, amount := amount, payer := side, lastActionBy := user));
      assert ok;
      CreateHistory(pid, Entry(user, load.role, Counter, words, amount, side, wall));
      assert proposals == old(proposals)[pid := AfterCounter(p, user, load.role, note, amount, payer, wall)];
      r := Done;
    }

    method ActInTx(user: nat, pid: nat, call: Call, now: int, wall: int) returns (r: Reply)
      modifies this`proposals, this`products
      ensures (Db(), r) == ActTx(old(Db()), user, pid, call, now, wall)
    {
      match call
      case AcceptCall => r := AcceptInTx(user, pid, now, wall);
      case RejectCall(note) => r := TerminateInTx(user, pid, true, note, now, wall);
      case CancelCall(note) => r := TerminateInTx(user, pid, false, note, now, wall);
      case CounterCall(note, amount, payer) => r := CounterInTx(user, pid, note, amount, payer, now, wall);
    }

    // The settlement of one proposal, which it locks and reads first.
    method SettleExpiredProposal(pid: nat, now: int) returns (settled: bool)
      requires pid in proposals
      modifies this`proposals
      ensures Db() == SettleTx(old(Db()), {pid}, now).0
      ensures SettleTx(old(Db()), {pid}, now).1.Count?
      ensures settled <==> SettleTx(old(Db()), {pid}, now).1.n > 0
    {
      var p := proposals[pid];
      if !IsActive(p.status) || !(now > p.expiresAt) {
        assert DueIn(proposals, {pid}, now) == {};
        return false;
      }
      var n := SettleExpired({pid}, now);
      settled := n > 0;
    }

    /** A whole call: the action's transaction and, if it met a passed deadline, the settlement in a second one, with any
        transactions of other clients in between and before the final read. */
    method RunAction(user: nat, pid: nat, call: Call, now: int, wall: int, between: seq<Step>, later: seq<Step>)
      returns (r: Reply)
      requires Inv(Db())
      modifies this
      ensures Inv(Db())
      ensures var (t, reply) := ActTx(old(Db()), user, pid, call, now, wall);
              if reply != MustSettle then (Db(), r) == (t, reply)
              else
                && Db() == Run(SettleTx(Run(old(Db()), between), {pid}, now).0, later)
                && pid in proposals && !IsActive(proposals[pid].status)
                && r == Failed(if proposals[pid].status == Expired then ExchangeExpired else ExchangeStateInvalid)
    {
      var s := Db();
      r := ActInTx(user, pid, call, now, wall);
      if r != MustSettle {
        ActKeepsInv(s, user, pid, call, now, wall);
        return;
      }
      LazyExpiry(s, user, pid, call, now, wall, between, later);
      LateRunKeepsInv(s, between, pid, now, later);
      hide ActTx, Inv, Run, SettleTx;
      Interfere(between);
      var settled := SettleExpiredProposal(pid, now);
      Interfere(later);
      r := if settled || proposals[pid].status == Expired then Failed(ExchangeExpired) else Failed(ExchangeStateInvalid);
    }

    method ExpireDue(now: int, locked: set<nat>) returns (n: nat)
      requires RowsOk(proposals)
      modifies this`proposals
      ensures exists ids :: IsBatch(old(proposals), locked, now, 200, ids) && (Db(), Count(n)) == SettleTx(old(Db()), ids, now) && n == |ids|
    {
      var ids := LockDueExpiredIds(now, BATCH, locked);
      ghost var s := Db();
      var batch := set q | q in ids;
      n := SettleExpired(batch, now);
      SweepShrinks(s, locked, now, BATCH, batch);
    }

    // ----- orders, products, reviews -----

    method PlaceOrder(id: nat, buyer: nat, x: nat, quantity: int, addressOk: bool) returns (r: Reply)
      modifies this`orders, this`products
      ensures (Db(), r) == PlaceOrderTx(old(Db()), id, buyer, x, quantity, addressOk)
    {
      var q: nat := 1;
      if quantity >= 1 {
        q := quantity;
      }
      if x !in products {
        return Failed(ProductNotFound);
      }
      var product := products[x];
      if product.status != OnSale {
        return Failed(ProductSold);
      }
      if product.seller == buyer {
        return Failed(Conflict);
      }
      if !addressOk {
        return Failed(AddressNotFound);
      }
      orders := orders[id := Order(buyer, product.seller, x, q, product.listing.price * q, PendingPayment)];
      products := products[x := products[x].(status := Sold)];
      r := Done;
    }

    method MoveOrder(user: nat, id: nat, m: OrderMove) returns (r: Reply)
      modifies this`orders
      ensures (Db(), r) == MoveOrderTx(old(Db()), user, id, m)
    {
      if id !in orders {
        return Failed(OrderNotFound);
      }
      var owner := if m == Ship then orders[id].seller else orders[id].buyer;
      if owner != user {
        return Failed(NotOrderOwner);
      }
      if orders[id].status !in OrderTransitions(MoveTarget(m)) {
        return Failed(OrderStateInvalid);
      }
      orders := orders[id := orders[id].(status := MoveTarget(m))];
      r := Done;
    }

    // Writes the order first; a missing product rolls it back.
    method CancelOrder(user: nat, id: nat, role: CancelRole) returns (r: Reply)
      modifies this`orders, this`products
      ensures (Db(), r) == CancelOrderTx(old(Db()), user, id, role)
    {
      if id !in orders {
        return Failed(OrderNotFound);
      }
      var o := orders[id];
      if role == AsBuyer && o.buyer != user {
        return Failed(NotOrderOwner);
      }
      if role == AsSeller && o.seller != user {
        return Failed(NotOrderOwner);
      }
      if o.status !in OrderTransitions(OrderCancelled) {
        return Failed(OrderStateInvalid);
      }
      var saved := orders;
      orders := orders[id := o.(status := OrderCancelled)];
      if o.product !in products {
        orders := saved;
        return Failed(ProductNotFound);
      }
      products := products[o.product := products[o.product].(status := OnSale)];
      r := Done;
    }

    method PublishProduct(id: nat, seller: nat, listing: Listing) returns (r: Reply)
      requires id !in products
      modifies this`products
      ensures (Db(), r) == PublishTx(old(Db()), id, seller, listing)
    {
      if !ValidCondition(listing.condition) {
        return Failed(BadRequest);
      }
      if !ValidCategory(listing.category) {
        return Failed(BadRequest);
      }
      products := products[id := Product(seller, OnSale, listing)];
      r := Done;
    }

    // Assigns the given fields one by one, and saves the product unless one of them is refused.
    method EditProduct(user: nat, x: nat, patch: Patch) returns (r: Reply)
      modifies this`products
      ensures (Db(), r) == EditTx(old(Db()), user, x, patch)
    {
      if x !in products {
        return Failed(ProductNotFound);
      }
      var product := products[x];
      if product.seller != user {
        return Failed(Forbidden);
      }
      var listing := product.listing;
      if patch.title.Some? {
        listing := listing.(title := patch.title.value);
      }
      if patch.description.Some? {
        listing := listing.(description := patch.description.value);
      }
      if patch.originalPrice.Some? {
        listing := listing.(originalPrice := patch.originalPrice.value);
      }
      if patch.price.Some? {
        listing := listing.(price := patch.price.value);
      }
      if patch.condition.Some? {
        if !ValidCondition(patch.condition.value) {
          return Failed(BadRequest);
        }
        listing := listing.(condition := patch.condition.value);
      }
      if patch.category.Some? {
        if !ValidCategory(patch.category.value) {
          return Failed(BadRequest);
        }
        listing := listing.(category := patch.category.value);
      }
      if patch.images.Some? {
        listing := listing.(images := patch.images.value);
      }
      products := products[x := product.(listing := listing)];
      r := Done;
    }

    method OffShelf(user: nat, x: nat) returns (r: Reply)
      modifies this`products
      ensures (Db(), r) == TakeOffTx(old(Db()), user, x)
    {
      if x !in products {
        return Failed(ProductNotFound);
      }
      var product := products[x];
      if product.seller != user {
        return Failed(Forbidden);
      }
      product := product.(status := ProductStatus.OffShelf);
      products := products[x := product];
      r := Done;
    }

    // Inserts the review, then updates the credit; a missing user rolls the insertion back.
    method CreateReview(id: nat, reviewer: nat, orderId: nat, rating: Rating) returns (r: Reply)
      requires id !in reviews
      modifies this`reviews, this`users
      ensures (Db(), r) == ReviewTx(old(Db()), id, reviewer, orderId, rating)
    {
      if orderId !in orders {
        return Failed(OrderNotFound);
      }
      var o := orders[orderId];
      if o.status != Completed {
        return Failed(OrderStateInvalid);
      }
      var reviewee := o.seller;
      if reviewer == o.seller {
        reviewee := o.buyer;
      }
      if reviewer == reviewee {
        return Failed(CannotSelfReview);
      }
      if exists v :: v in reviews && reviews[v].order == orderId {
        return Failed(ReviewExists);
      }
      var saved := reviews;
      reviews := reviews[id := Review(orderId, o.product, reviewer, reviewee, rating)];
      if reviewee !in users {
        reviews := saved;
        return Failed(UserNotFound);
      }
      users := users[reviewee := users[reviewee] + CreditDelta(rating)];
      r := Done;
    }
  }

  // ----- helpers of the loops -----

  method Dedup(ids: seq<nat>) returns (out: seq<nat>)
    ensures out == DedupPositive(ids)
  {
    out := [];
    var seen: set<nat> := {};
    var i := 0;
    while i < |ids|
      invariant 0 <= i <= |ids|
      invariant out == DedupPositive(ids[..i])
      invariant forall x :: x in seen <==> x in out
    {
      assert ids[..i + 1][..i] == ids[..i];
      if ids[i] != 0 && ids[i] !in seen {
        seen := seen + {ids[i]};
        out := out + [ids[i]];
      }
      i := i + 1;
    }
    assert ids[..i] == ids;
  }

  method Overlaps(a: seq<nat>, b: seq<nat>) returns (shared: bool)
    ensures shared == Overlap(a, b)
  {
    var elements := set x | x in a;
    var i := 0;
    while i < |b|
      invariant 0 <= i <= |b|
      invariant forall j :: 0 <= j < i ==> b[j] !in a
    {
      if b[i] in elements {
        return true;
      }
      i := i + 1;
    }
    shared := false;
  }

  // A defect at position i is the verdict on the whole list.
  lemma {:induction false} OfferDefect(products: map<nat, Product>, offeror: nat, ids: seq<nat>, i: nat, e: ErrorCode)
    requires i < |ids| && CheckOffers(products, offeror, ids[..i + 1]) == Faulty(e)
    ensures CheckOffers(products, offeror, ids) == Faulty(e)
    decreases |ids| - i
  {
    if i + 1 < |ids| {
      assert ids[..i + 2][..i + 1] == ids[..i + 1];
      OfferDefect(products, offeror, ids, i + 1, e);
    } else {
      assert ids[..i + 1] == ids;
    }
  }

  lemma {:induction false} TargetDefect(products: map<nat, Product>, offeror: nat, ids: seq<nat>, i: nat, e: ErrorCode)
    requires i < |ids| && CheckTargets(products, offeror, ids[..i + 1]) == Faulty(e)
    ensures CheckTargets(products, offeror, ids) == Faulty(e)
    decreases |ids| - i
  {
    if i + 1 < |ids| {
      assert ids[..i + 2][..i + 1] == ids[..i + 1];
      TargetDefect(products, offeror, ids, i + 1, e);
    } else {
      assert ids[..i + 1] == ids;
    }
  }

  // The rows selected so far: the earliest of the free ones, in order.
  ghost predicate Selected(proposals: map<nat, Proposal>, free: set<nat>, rest: set<nat>, ids: seq<nat>) {
    && rest <= free <= proposals.Keys
    && (forall q :: q in ids <==> q in free - rest)
    && (forall i :: 0 <= i < |ids| ==> ids[i] in proposals)
    && |ids| + |rest| == |free|
    && (forall i, j :: 0 <= i < j < |ids| ==> proposals[ids[i]].expiresAt <= proposals[ids[j]].expiresAt)
    && (forall i, r :: 0 <= i < |ids| && r in rest ==> proposals[ids[i]].expiresAt <= proposals[r].expiresAt)
  }

  lemma SelectOneMore(proposals: map<nat, Proposal>, free: set<nat>, rest: set<nat>, ids: seq<nat>, first: nat)
    requires Selected(proposals, free, rest, ids) && first in rest
    requires forall r :: r in rest ==> proposals[first].expiresAt <= proposals[r].expiresAt
    ensures Selected(proposals, free, rest - {first}, ids + [first])
  {
    assert forall q :: q in ids + [first] <==> q in ids || q == first;
  }

  lemma SelectedIsBatch(proposals: map<nat, Proposal>, locked: set<nat>, now: int, limit: nat,
                        free: set<nat>, rest: set<nat>, ids: seq<nat>)
    requires free == DueRows(proposals, now) - locked
    requires Selected(proposals, free, rest, ids) && |ids| <= limit && (|ids| == limit || rest == {})
    ensures IsBatch(proposals, locked, now, limit, set q | q in ids)
  {
    var batch := set q | q in ids;
    assert batch == free - rest;
    assert free - batch == rest;
    SubsetSize(rest, free);
    hide DueRows, IsDue;
    forall q, r | q in batch && r in rest ensures proposals[q].expiresAt <= proposals[r].expiresAt {
      var i :| 0 <= i < |ids| && ids[i] == q;
    }
  }

  // The auto-close neither looks at the winner's row nor writes it.
  lemma ClosesAroundWinner(before: map<nat, Proposal>, pid: nat, claimed: Proposal, won: Proposal, ids: set<nat>, wall: int)
    ensures var closing := Rivals(before, ids, pid);
            && Rivals(before[pid := claimed], ids, pid) == closing
            && pid in AutoClose(before[pid := claimed], closing, wall)
            && AutoClose(before[pid := claimed], closing, wall)[pid] == claimed
            && AutoClose(before[pid := claimed], closing, wall)[pid := won] == AutoClose(before[pid := won], closing, wall)
  {
    hide AfterAutoClose, ProductIds;
  }

  lemma ActKeepsInv(s: State, user: nat, pid: nat, call: Call, now: int, wall: int)
    requires Inv(s)
    ensures Inv(ActTx(s, user, pid, call, now, wall).0)
  {
    hide Inv, ActTx;
    StepKeepsInv(s, Act(user, pid, call, now, wall));
  }

  lemma LateRunKeepsInv(s: State, between: seq<Step>, pid: nat, now: int, later: seq<Step>)
    requires Inv(s)
    ensures Inv(Run(SettleTx(Run(s, between), {pid}, now).0, later))
  {
    hide Inv, SettleTx;
    RunKeepsInv(s, between);
    StepKeepsInv(Run(s, between), Step.Settle({pid}, now));
    RunKeepsInv(SettleTx(Run(s, between), {pid}, now).0, later);
  }
}
