/** The life of an order, the other claimant of a product, and the credit that its review gives. */
module OrderLaws {
  import opened Entities
  import opened Negotiation
  import opened Transactions
  import opened Protocol
  import opened Safety

  /** A purchase succeeds exactly for another user's product that is on sale, with an address of the buyer's; it opens one
      order on the product, of one unit if no quantity is given, at its current price, marks the product sold, and
      changes nothing else. The first thing missing determines the refusal. */
  lemma PlaceOrderIff(s: State, id: nat, buyer: nat, x: nat, quantity: int, addressOk: bool)
    requires id !in s.orders
    ensures var (t, r) := PlaceOrderTx(s, id, buyer, x, quantity, addressOk);
            && (r == Failed(ProductNotFound) <==> x !in s.products)
            && (x in s.products ==>
                  var p := s.products[x];
                  && (r == Failed(ProductSold) <==> p.status != OnSale)
                  && (r == Failed(Conflict) <==> p.status == OnSale && p.seller == buyer)
                  && (r == Failed(AddressNotFound) <==> p.status == OnSale && p.seller != buyer && !addressOk)
                  && (r == Done <==> p.status == OnSale && p.seller != buyer && addressOk)
                  && (r == Done ==>
                        && (quantity < 1 ==> t.orders == s.orders[id := Order(buyer, p.seller, x, 1, p.listing.price, PendingPayment)])
                        && (quantity >= 1 ==>
                              t.orders == s.orders[id := Order(buyer, p.seller, x, quantity, p.listing.price * quantity, PendingPayment)])
                        && t == s.(orders := t.orders, products := s.products[x := Product(p.seller, Sold, p.listing)])
                        && LiveOrders(t.orders, x) == LiveOrders(s.orders, x) + {id}))
            && (r != Done ==> t == s)
  {
    var (t, r) := PlaceOrderTx(s, id, buyer, x, quantity, addressOk);
    if r == Done {
      assert LiveOrders(t.orders, x) == LiveOrders(s.orders, x) + {id};
    }
  }

  // How far along its path an order is.
  function Progress(st: OrderStatus): nat {
    match st
    case PendingPayment => 0
    case PendingShipment => 1
    case Shipped => 2
    case Received => 3
    case Completed => 4
    case OrderCancelled => 5
  }

  /** Payment, shipping, receipt and completion each take an order one place along its path, the buyer's moves by the
      buyer and the shipping by the seller. */
  lemma OrderMovesIff(s: State, user: nat, id: nat, m: OrderMove)
    ensures var (t, r) := MoveOrderTx(s, user, id, m);
            && (r == Failed(OrderNotFound) <==> id !in s.orders)
            && (id in s.orders ==>
                  var o := s.orders[id];
                  var owner := if m == Ship then o.seller else o.buyer;
                  var from := match m case Pay => PendingPayment case Ship => PendingShipment case Receive => Shipped case Complete => Received;
                  var to := match m case Pay => PendingShipment case Ship => Shipped case Receive => Received case Complete => Completed;
                  && (r == Failed(NotOrderOwner) <==> user != owner)
                  && (r == Failed(OrderStateInvalid) <==> user == owner && o.status != from)
                  && (r == Done <==> user == owner && o.status == from)
                  && Progress(to) == Progress(from) + 1
                  && (r == Done ==> t == s.(orders := s.orders[id := o.(status := to)])))
            && (r != Done ==> t == s)
  {
  }

  /** Either party may cancel an order before it is shipped; the order keeps everything but its status, and its product
      goes back on sale with its listing. */
  lemma CancelOrderIff(s: State, user: nat, id: nat, role: CancelRole)
    ensures var (t, r) := CancelOrderTx(s, user, id, role);
            && (r == Failed(OrderNotFound) <==> id !in s.orders)
            && (id in s.orders ==>
                  var o := s.orders[id];
                  var party := user == match role case AsBuyer => o.buyer case AsSeller => o.seller;
                  var unshipped := o.status == PendingPayment || o.status == PendingShipment;
                  && (r == Failed(NotOrderOwner) <==> !party)
                  && (r == Failed(OrderStateInvalid) <==> party && !unshipped)
                  && (r == Failed(ProductNotFound) <==> party && unshipped && o.product !in s.products)
                  && (r == Done <==> party && unshipped && o.product in s.products)
                  && (r == Done ==>
                        var p := s.products[o.product];
                        t == s.(orders := s.orders[id := Order(o.buyer, o.seller, o.product, o.quantity, o.total, OrderCancelled)],
                                products := s.products[o.product := Product(p.seller, OnSale, p.listing)])))
            && (r != Done ==> t == s)
  {
  }

  /** Over any run an order keeps its parties and product and only moves forward; completed and cancelled
      orders never change, and a shipped order is never cancelled. */
  lemma {:induction false} OrdersMoveForward(s: State, steps: seq<Step>, id: nat)
    requires id in s.orders
    ensures var t := Run(s, steps);
            && id in t.orders
            && (var o, p := s.orders[id], t.orders[id];
                && (o.buyer, o.seller, o.product, o.quantity, o.total) == (p.buyer, p.seller, p.product, p.quantity, p.total)
                && Progress(o.status) <= Progress(p.status)
                && (Progress(o.status) >= 4 ==> p == o)
                && (p.status == OrderCancelled ==> o.status == OrderCancelled || Progress(o.status) <= 1))
  {
    hide Apply;
    if steps != [] {
      var before := steps[..|steps| - 1];
      OrdersMoveForward(s, before, id);
      OrderStep(Run(s, before), steps[|steps| - 1], id);
    }
  }

  lemma OrderStep(s: State, step: Step, id: nat)
    requires id in s.orders
    ensures var t := Apply(s, step);
            && id in t.orders
            && (var o, p := s.orders[id], t.orders[id];
                && (o.buyer, o.seller, o.product, o.quantity, o.total) == (p.buyer, p.seller, p.product, p.quantity, p.total)
                && Progress(o.status) <= Progress(p.status)
                && (Progress(o.status) >= 4 ==> p == o)
                && (p.status == OrderCancelled ==> o.status == OrderCancelled || Progress(o.status) <= 1))
  {
    hide ProposeTx, ActTx, SettleTx;
    if step.Propose? || step.Act? || step.Settle? {
      OnlyExchange(s, step);
    }
  }

  lemma OnlyExchange(s: State, step: Step)
    requires step.Propose? || step.Act? || step.Settle?
    ensures Apply(s, step).orders == s.orders
  {
    hide Exec;
    ExchangeShape(s, step);
  }

  // A given field replaces the stored one, an absent one keeps it.
  predicate Takes<T(==)>(given: Option<T>, stored: T, now: T) {
    match given case Some(v) => now == v case None => now == stored
  }

  /** A product is published on sale unless its condition or category is invalid. Only its seller edits it, with a valid
      condition and category, field by field, and keeps its status; or takes it off the shelf and keeps its listing. */
  lemma SellerWritesIff(s: State, user: nat, x: nat, listing: Listing, patch: Patch)
    ensures var (t, r) := PublishTx(s, x, user, listing);
            var valid := && listing.condition in {"brand_new", "almost_new", "lightly_used", "obviously_used"}
                         && listing.category in {"digital", "clothing", "books", "home", "sports", "other"};
            if valid then r == Done && t == s.(products := s.products[x := Product(user, OnSale, listing)])
            else r == Failed(BadRequest) && t == s
    ensures var (t, r) := EditTx(s, user, x, patch);
            var valid := && (patch.condition.Some? ==> patch.condition.value in {"brand_new", "almost_new", "lightly_used", "obviously_used"})
                         && (patch.category.Some? ==> patch.category.value in {"digital", "clothing", "books", "home", "sports", "other"});
            && (r == Failed(ProductNotFound) <==> x !in s.products)
            && (r == Failed(Forbidden) <==> x in s.products && user != s.products[x].seller)
            && (r == Failed(BadRequest) <==> x in s.products && user == s.products[x].seller && !valid)
            && (r == Done <==> x in s.products && user == s.products[x].seller && valid)
            && (r != Done ==> t == s)
            && (r == Done ==>
                  && x in t.products && t == s.(products := s.products[x := t.products[x]])
                  && t.products[x].seller == user && t.products[x].status == s.products[x].status
                  && (var l, k := s.products[x].listing, t.products[x].listing;
                      && Takes(patch.title, l.title, k.title) && Takes(patch.description, l.description, k.description)
                      && Takes(patch.originalPrice, l.originalPrice, k.originalPrice) && Takes(patch.price, l.price, k.price)
                      && Takes(patch.condition, l.condition, k.condition) && Takes(patch.category, l.category, k.category)
                      && Takes(patch.images, l.images, k.images)))
    ensures var (t, r) := TakeOffTx(s, user, x);
            && (r == Failed(ProductNotFound) <==> x !in s.products)
            && (r == Failed(Forbidden) <==> x in s.products && user != s.products[x].seller)
            && (r == Done <==> x in s.products && user == s.products[x].seller)
            && t == (if r == Done then s.(products := s.products[x := Product(user, OffShelf, s.products[x].listing)]) else s)
  {
  }

  /** A review succeeds exactly for a completed order without one, when the reviewed user is registered; it is about
      the seller unless the seller writes it, and moves that user's credit by 5, 0 or -5 and nobody else's. */
  lemma ReviewIff(s: State, id: nat, reviewer: nat, order: nat, rating: Rating)
    requires OrdersOk(s) && id !in s.reviews
    ensures var (t, r) := ReviewTx(s, id, reviewer, order, rating);
            && (r == Done <==>
                  && order in s.orders && s.orders[order].status == Completed
                  && (forall v :: v in s.reviews ==> s.reviews[v].order != order)
                  && (if reviewer == s.orders[order].seller then s.orders[order].buyer else s.orders[order].seller) in s.users)
            && (r == Failed(OrderNotFound) <==> order !in s.orders)
            && (r == Failed(OrderStateInvalid) <==> order in s.orders && s.orders[order].status != Completed)
            && (r == Failed(ReviewExists) <==>
                  order in s.orders && s.orders[order].status == Completed && exists v :: v in s.reviews && s.reviews[v].order == order)
            && (r == Failed(UserNotFound) <==> r != Done && r !in {Failed(OrderNotFound), Failed(OrderStateInvalid), Failed(ReviewExists)})
            && (r != Done ==> t == s)
            && (r == Done ==> t == s.(reviews := t.reviews, users := t.users))
            && (r == Done ==>
                  && id in t.reviews && t.reviews == s.reviews[id := t.reviews[id]]
                  && (var u := t.reviews[id].reviewee;
                      && t.reviews[id] == Review(order, s.orders[order].product, reviewer, u, rating) && u != reviewer
                      && u in t.users && t.users == s.users[u := t.users[u]]
                      && t.users[u] - s.users[u] == (match rating case Good => 5 case Neutral => 0 case Bad => -5)))
  {
  }

  /** In every reachable state: a product on sale has no claim, a sold one exactly one, one off the shelf at most one; every
      credit score is 100 plus 5 for each good and minus 5 for each bad review received; each order has at most
      one review, and only once completed; and nobody buys from himself. */
  lemma ReachableLedgers(steps: seq<Step>)
    ensures var s := Run(EMPTY, steps);
            && (forall x :: x in s.products ==>
                  var claims := |LiveOrders(s.orders, x)| + |Deals(s.proposals, x)|;
                  match s.products[x].status
                  case OnSale => claims == 0
                  case Sold => claims == 1
                  case OffShelf => claims <= 1)
            && (forall u :: u in s.users ==>
                  s.users[u] == 100 + 5 * |ReviewsFor(s.reviews, u, Good)| - 5 * |ReviewsFor(s.reviews, u, Bad)|)
            && (forall r :: r in s.reviews ==> s.reviews[r].order in s.orders && s.orders[s.reviews[r].order].status == Completed)
            && (forall r, t :: r in s.reviews && t in s.reviews && r != t ==> s.reviews[r].order != s.reviews[t].order)
            && (forall o :: o in s.orders ==> s.orders[o].buyer != s.orders[o].seller)
  {
    ReachableIsSafe(steps);
    var s := Run(EMPTY, steps);
    hide RowOk;
    forall x | x in s.products
      ensures var claims := |LiveOrders(s.orders, x)| + |Deals(s.proposals, x)|;
              match s.products[x].status
              case OnSale => claims == 0
              case Sold => claims == 1
              case OffShelf => claims <= 1
    {
      assert Balanced(s.products[x].status, Claims(s, x));
    }
  }
}
