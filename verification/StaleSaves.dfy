/** Rows that are read without a lock and saved whole later: a seller's edit of a product or its removal from the
    shelf, and a change of a user's profile or role. What such saves do to the two ledgers. */
module StaleSaves {
  import opened Entities
  import opened Negotiation
  import opened Transactions
  import opened Protocol
  import opened Safety

  // A save writes the row as it was after the first `readAt` events, with the fields that its service changes.
  datatype Save =
    | SaveEdit(product: nat, patch: Patch, readAt: nat)
    | SaveTakeOff(product: nat, readAt: nat)
    | SaveProfile(user: nat, readAt: nat)

  datatype Event = Commit(step: Step) | Write(save: Save)

  // The save of a row read in `was`; the profile fields of a user are not part of the state, the credit is.
  function Saved(s: State, was: State, save: Save): State {
    match save
    case SaveEdit(x, patch, _) =>
      if x !in was.products then s
      else s.(products := s.products[x := was.products[x].(listing := Patched(was.products[x].listing, patch))])
    case SaveTakeOff(x, _) =>
      if x !in was.products then s else s.(products := s.products[x := was.products[x].(status := OffShelf)])
    case SaveProfile(u, _) => if u !in was.users then s else s.(users := s.users[u := was.users[u]])
  }

  // Good reviews received, less the bad ones.
  function NetReviews(s: State, u: nat): int {
    |ReviewsFor(s.reviews, u, Good)| - |ReviewsFor(s.reviews, u, Bad)|
  }

  // When an edit may save a row read in `was`: it was off the shelf, or no claim on the product has come or gone.
  predicate EditInTime(s: State, was: State, save: Save) {
    save.SaveEdit? && save.product in was.products ==>
      was.products[save.product].status == OffShelf || Claims(s, save.product) == Claims(was, save.product)
  }

  // When a profile may be saved: the good and bad reviews that the user has received since are equally many.
  predicate ProfileInTime(s: State, was: State, save: Save) {
    save.SaveProfile? && save.user in was.users ==> NetReviews(s, save.user) == NetReviews(was, save.user)
  }

  // ----- one save -----

  // What a later state still has.
  predicate Extends(was: State, s: State) {
    && was.users.Keys <= s.users.Keys
    && (forall x :: x in was.products ==> x in s.products && s.products[x].seller == was.products[x].seller)
  }

  lemma StepExtends(s: State, step: Step)
    ensures Extends(s, Apply(s, step))
  {
    hide ProposeTx, ActTx, SettleTx;
    if KeysOk(s, step) && (step.Propose? || step.Act? || step.Settle?) {
      hide Exec;
      ExchangeShape(s, step);
    }
  }

  // A save leaves the rules, and the ledger that its row is not part of.
  lemma SaveKeepsRules(s: State, was: State, save: Save)
    requires RulesOk(s) && Extends(was, s)
    ensures RulesOk(Saved(s, was, save)) && Extends(s, Saved(s, was, save))
    ensures save.SaveProfile? && LedgerOk(s) ==> LedgerOk(Saved(s, was, save))
    ensures !save.SaveProfile? && CreditOk(s) ==> CreditOk(Saved(s, was, save))
  {
    hide RowsOk, Exclusive, ItemsExist, OrdersOk, SellersOk, LedgerOk, CreditOk, ReviewsOk;
    var t := Saved(s, was, save);
    SaveKeepsTables(s, was, save);
    OrdersFrame(s, t);
    OtherRulesFrame(s, t);
    if !save.SaveProfile? {
      CreditFrame(s, t);
    } else if LedgerOk(s) {
      LedgerFrame(s, t);
    }
  }

  lemma SaveKeepsTables(s: State, was: State, save: Save)
    requires Extends(was, s)
    ensures var t := Saved(s, was, save);
            && t.proposals == s.proposals && t.orders == s.orders && t.reviews == s.reviews
            && t.products.Keys == s.products.Keys && t.users.Keys == s.users.Keys
            && (forall x :: x in s.products ==> t.products[x].seller == s.products[x].seller)
            && (if save.SaveProfile? then t.products == s.products else t.users == s.users)
  {
  }

  lemma OtherRulesFrame(s: State, t: State)
    requires ItemsExist(s) && ReviewsOk(s)
    requires t.proposals == s.proposals && t.orders == s.orders && t.reviews == s.reviews
    requires t.products.Keys == s.products.Keys && t.users.Keys == s.users.Keys
    ensures ItemsExist(t) && ReviewsOk(t)
  {
  }

  // Writing one product keeps the ledger exactly when its new status fits its claims.
  lemma OneProductWritten(s: State, x: nat, row: Product)
    requires LedgerOk(s) && x in s.products
    ensures LedgerOk(s.(products := s.products[x := row])) <==> Balanced(row.status, Claims(s, x))
  {
    var t := s.(products := s.products[x := row]);
    assert forall y :: Claims(t, y) == Claims(s, y);
    hide Claims;
    assert LedgerOk(t) ==> Balanced(t.products[x].status, Claims(t, x));
  }

  /** The save of a product keeps the ledger exactly when it takes the product off the shelf, or the row was read off the
      shelf, or the claims on the product are as many as they were then. */
  lemma SaveKeepsLedgerIff(s: State, was: State, save: Save)
    requires LedgerOk(s) && LedgerOk(was) && Extends(was, s) && !save.SaveProfile?
    ensures LedgerOk(Saved(s, was, save)) <==> EditInTime(s, was, save)
  {
    var x := save.product;
    if x in was.products {
      assert Balanced(was.products[x].status, Claims(was, x)) && Balanced(s.products[x].status, Claims(s, x));
      hide Claims, LedgerOk;
      OneProductWritten(s, x, Saved(s, was, save).products[x]);
    }
  }

  /** The save of a profile keeps the credit score exactly when the user's good and bad reviews since are equally many. */
  lemma SaveKeepsCreditIff(s: State, was: State, save: Save)
    requires CreditOk(s) && CreditOk(was) && Extends(was, s) && save.SaveProfile?
    ensures CreditOk(Saved(s, was, save)) <==> ProfileInTime(s, was, save)
  {
    hide ReviewsFor;
    var u, t := save.user, Saved(s, was, save);
    if u in was.users {
      assert u in t.users && t.users[u] == 100 + 5 * NetReviews(was, u);
      assert CreditOk(t) <==> t.users[u] == 100 + 5 * NetReviews(s, u);
    }
  }

  lemma {:induction false} RunExtends(s: State, steps: seq<Step>)
    ensures Extends(s, Run(s, steps))
  {
    hide Apply;
    if steps != [] {
      RunExtends(s, steps[..|steps| - 1]);
      StepExtends(Run(s, steps[..|steps| - 1]), steps[|steps| - 1]);
    }
  }

  /** A row read in a reachable state and saved after any further transactions: taking a product off the shelf always
      keeps the ledger, an edit and a profile exactly when they are in time. */
  lemma SaveAfterRunIff(s: State, between: seq<Step>, save: Save)
    requires Inv(s)
    ensures var now := Run(s, between);
            && (save.SaveTakeOff? ==> LedgerOk(Saved(now, s, save)))
            && (save.SaveEdit? ==> (LedgerOk(Saved(now, s, save)) <==> EditInTime(now, s, save)))
            && (save.SaveProfile? ==> (CreditOk(Saved(now, s, save)) <==> ProfileInTime(now, s, save)))
  {
    RunKeepsInv(s, between);
    RunExtends(s, between);
    hide LedgerOk, CreditOk, RulesOk, Extends, Saved, Claims, NetReviews;
    if save.SaveProfile? {
      SaveKeepsCreditIff(Run(s, between), s, save);
    } else {
      SaveKeepsLedgerIff(Run(s, between), s, save);
    }
  }

  // What the edit or removal meant to leave.
  function Intended(was: State, save: Save): State
    requires !save.SaveProfile? && save.product in was.products
  {
    var seller := was.products[save.product].seller;
    if save.SaveEdit? then EditTx(was, seller, save.product, save.patch).0 else TakeOffTx(was, seller, save.product).0
  }

  /** A save writes the row that the atomic edit or removal would have left when the row was read, or the credit of that
      time, over the row as it is now, and no other row. A save of the row as it is now is therefore atomic. */
  lemma SaveWritesOldRow(s: State, was: State, save: Save)
    ensures !save.SaveProfile? && save.product in was.products && (save.SaveEdit? ==> ValidPatch(save.patch)) ==>
              && save.product in Intended(was, save).products
              && Saved(s, was, save) == s.(products := s.products[save.product := Intended(was, save).products[save.product]])
              && (s == was ==> Saved(s, was, save) == Intended(was, save))
    ensures save.SaveProfile? && save.user in was.users ==>
              && Saved(s, was, save) == s.(users := s.users[save.user := was.users[save.user]])
              && (s == was ==> Saved(s, was, save) == s)
  {
    if save.SaveProfile? && save.user in s.users && s == was {
      assert s.users[save.user := s.users[save.user]] == s.users;
    }
  }

  /** An edit that saves a row read before an order puts the sold product on sale again, and it is sold twice. */
  lemma StaleEditSellsTwice(listing: Listing, patch: Patch)
    requires ValidCondition(listing.condition) && ValidCategory(listing.category)
    ensures var s := PublishTx(EMPTY, 1, 1, listing).0;
            var ordered := PlaceOrderTx(s, 1, 2, 1, 1, true);
            var saved := Saved(ordered.0, s, SaveEdit(1, patch, 0));
            var again := PlaceOrderTx(saved, 2, 3, 1, 1, true);
            && LedgerOk(s) && ordered.1 == Done && again.1 == Done
            && LiveOrders(again.0.orders, 1) == {1, 2} && Claims(again.0, 1) == 2 && !LedgerOk(again.0)
  {
    var s := PublishTx(EMPTY, 1, 1, listing).0;
    var ordered := PlaceOrderTx(s, 1, 2, 1, 1, true).0;
    var saved := Saved(ordered, s, SaveEdit(1, patch, 0));
    var again := PlaceOrderTx(saved, 2, 3, 1, 1, true).0;
    assert LiveOrders(s.orders, 1) == {} && Deals(s.proposals, 1) == {};
    assert again.orders.Keys == {1, 2};
    assert LiveOrders(again.orders, 1) == {1, 2};
    assert |{1, 2}| == 2;
    assert Deals(again.proposals, 1) == {};
    hide LiveOrders, Deals, PlaceOrderTx;
  }

  /** Any good or bad review is lost to a profile that its user saves from a row read before it. */
  lemma StaleProfileLosesReview(s: State, id: nat, reviewer: nat, order: nat, rating: Rating)
    requires Inv(s) && id !in s.reviews && rating != Neutral
    requires ReviewTx(s, id, reviewer, order, rating).1 == Done
    ensures var t := ReviewTx(s, id, reviewer, order, rating).0;
            && id in t.reviews
            && !CreditOk(Saved(t, s, SaveProfile(t.reviews[id].reviewee, 0)))
  {
    hide RowsOk, Exclusive, ItemsExist, OrdersOk, LedgerOk, CreditOk, ReviewsFor;
    var t := ReviewTx(s, id, reviewer, order, rating).0;
    var save := SaveProfile(t.reviews[id].reviewee, 0);
    OneReviewMore(s.reviews, id, t.reviews[id]);
    ReviewKeepsCredit(s, id, reviewer, order, rating);
    SaveKeepsCreditIff(t, s, save);
  }

  // User 2's order of user 1's only product.
  function Sale(listing: Listing, status: OrderStatus): State {
    State(map[1 := 100, 2 := 100], map[1 := Product(1, Sold, listing)], map[],
          map[1 := Order(2, 1, 1, 1, listing.price, status)], map[])
  }

  function Ordering(listing: Listing): seq<Step> {
    [Register(1), Register(2), Publish(1, 1, listing), PlaceOrder(1, 2, 1, 1, true)]
  }

  const DELIVERY: seq<Step> := [MoveOrder(2, 1, Pay), MoveOrder(1, 1, Ship), MoveOrder(2, 1, Receive), MoveOrder(2, 1, Complete)]

  lemma SaleIsReached(listing: Listing)
    requires ValidCondition(listing.condition) && ValidCategory(listing.category)
    ensures Run(EMPTY, Ordering(listing)) == Sale(listing, PendingPayment)
  {
    var one := [Register(1)];
    var two := one + [Register(2)];
    var three := two + [Publish(1, 1, listing)];
    OneStepMore(EMPTY, [], Register(1));
    OneStepMore(EMPTY, one, Register(2));
    OneStepMore(EMPTY, two, Publish(1, 1, listing));
    OneStepMore(EMPTY, three, PlaceOrder(1, 2, 1, 1, true));
    assert [] + one == one && Run(EMPTY, []) == EMPTY;
    assert Ordering(listing) == three + [PlaceOrder(1, 2, 1, 1, true)];
    hide Run;
    assert Run(EMPTY, two) == State(map[1 := 100, 2 := 100], map[], map[], map[], map[]);
    assert Run(EMPTY, three) == State(map[1 := 100, 2 := 100], map[1 := Product(1, OnSale, listing)], map[], map[], map[]);
  }

  lemma SaleIsCompleted(listing: Listing)
    ensures Run(Sale(listing, PendingPayment), DELIVERY) == Sale(listing, Completed)
  {
    var s, one := Sale(listing, PendingPayment), [MoveOrder(2, 1, Pay)];
    var two := one + [MoveOrder(1, 1, Ship)];
    var three := two + [MoveOrder(2, 1, Receive)];
    OneStepMore(s, [], MoveOrder(2, 1, Pay));
    OneStepMore(s, one, MoveOrder(1, 1, Ship));
    OneStepMore(s, two, MoveOrder(2, 1, Receive));
    OneStepMore(s, three, MoveOrder(2, 1, Complete));
    assert [] + one == one && Run(s, []) == s;
    assert DELIVERY == three + [MoveOrder(2, 1, Complete)];
    hide Run, Sale, Apply;
    SaleMoves(listing, PendingPayment, Pay);
    SaleMoves(listing, PendingShipment, Ship);
    SaleMoves(listing, Shipped, Receive);
    SaleMoves(listing, Received, Complete);
  }

  lemma SaleMoves(listing: Listing, from: OrderStatus, m: OrderMove)
    requires from in OrderTransitions(MoveTarget(m))
    ensures Apply(Sale(listing, from), MoveOrder(if m == Ship then 1 else 2, 1, m)) == Sale(listing, MoveTarget(m))
  {
    var t := Apply(Sale(listing, from), MoveOrder(if m == Ship then 1 else 2, 1, m));
    assert t.orders == Sale(listing, MoveTarget(m)).orders;
  }

  lemma SaleIsSafe(listing: Listing)
    requires ValidCondition(listing.condition) && ValidCategory(listing.category)
    ensures Inv(Sale(listing, Completed))
  {
    SaleIsReached(listing);
    SaleIsCompleted(listing);
    hide Inv, Run, Sale;
    ReachableIsSafe(Ordering(listing));
    RunKeepsInv(Sale(listing, PendingPayment), DELIVERY);
  }

  /** And it happens: a user reads the own profile after a completed sale, is given a good review, and saves the profile. */
  lemma StaleProfileBreaksCredit(listing: Listing)
    requires ValidCondition(listing.condition) && ValidCategory(listing.category)
    ensures var ordered := Run(EMPTY, Ordering(listing));
            var s := Run(ordered, DELIVERY);
            var (t, r) := ReviewTx(s, 1, 2, 1, Good);
            && r == Done && CreditOk(t) && t.users == map[1 := 105, 2 := 100]
            && Saved(t, s, SaveProfile(1, 0)).users == map[1 := 100, 2 := 100] && !CreditOk(Saved(t, s, SaveProfile(1, 0)))
  {
    hide *;
    SaleIsReached(listing);
    SaleIsCompleted(listing);
    SaleLosesReview(listing);
  }

  lemma SaleLosesReview(listing: Listing)
    requires ValidCondition(listing.condition) && ValidCategory(listing.category)
    ensures var s := Sale(listing, Completed);
            var (t, r) := ReviewTx(s, 1, 2, 1, Good);
            && r == Done && CreditOk(t) && t.users == map[1 := 105, 2 := 100]
            && Saved(t, s, SaveProfile(1, 0)).users == map[1 := 100, 2 := 100] && !CreditOk(Saved(t, s, SaveProfile(1, 0)))
  {
    SaleIsSafe(listing);
    hide Inv, CreditOk, ReviewTx, ReviewsOk;
    SaleIsReviewed(listing);
    var s := Sale(listing, Completed);
    StaleProfileLosesReview(s, 1, 2, 1, Good);
    UnfoldRules(s);
    ReviewKeepsCredit(s, 1, 2, 1, Good);
  }

  lemma UnfoldRules(s: State)
    requires Inv(s)
    ensures ReviewsOk(s) && CreditOk(s)
  {
  }

  lemma SaleIsReviewed(listing: Listing)
    ensures var s := Sale(listing, Completed);
            ReviewTx(s, 1, 2, 1, Good) == (s.(reviews := map[1 := Review(1, 1, 2, 1, Good)], users := map[1 := 105, 2 := 100]), Done)
  {
    var s := Sale(listing, Completed);
    var t := ReviewTx(s, 1, 2, 1, Good).0;
    assert t.reviews == map[1 := Review(1, 1, 2, 1, Good)] && t.users == map[1 := 105, 2 := 100];
  }

  // ----- runs with saves -----

  // Event i is the save of a row read before it.
  predicate IsSave(events: seq<Event>, i: nat) {
    i < |events| && events[i].Write? && events[i].save.readAt <= i
  }

  // The database that event i leaves.
  function Next(states: seq<State>, events: seq<Event>, i: nat): State
    requires i < |events| <= |states|
  {
    if events[i].Commit? then Apply(states[i], events[i].step)
    else if IsSave(events, i) then Saved(states[i], states[events[i].save.readAt], events[i].save)
    else states[i]
  }

  // The databases before, between and after the events of a run.
  predicate IsRun(states: seq<State>, events: seq<Event>) {
    && |states| == |events| + 1
    && states[0] == EMPTY
    && forall i :: 0 <= i < |events| ==> states[i + 1] == Next(states, events, i)
  }

  /** Whatever rows are saved, however stale: each product stays in at most one active proposal, every proposal a legal
      negotiation, every review on its completed order; users and products stay. */
  lemma {:induction false} RulesSurviveSaves(states: seq<State>, events: seq<Event>, k: nat, n: nat)
    requires IsRun(states, events) && k <= n < |states|
    ensures RulesOk(states[n]) && Extends(states[k], states[n])
    decreases n, 0
  {
    hide Saved, Apply;
    if n == 0 {
      assert RulesOk(EMPTY);
    } else {
      var i := n - 1;
      RulesSurviveSaves(states, events, if k < n then k else i, i);
      hide RulesOk;
      OneEvent(states, events, i);
    }
  }

  // What one event of a run keeps.
  lemma OneEvent(states: seq<State>, events: seq<Event>, i: nat)
    requires IsRun(states, events) && i < |events| && RulesOk(states[i])
    ensures RulesOk(states[i + 1]) && Extends(states[i], states[i + 1])
    ensures !(IsSave(events, i) && !events[i].save.SaveProfile?) && LedgerOk(states[i]) ==> LedgerOk(states[i + 1])
    ensures !(IsSave(events, i) && events[i].save.SaveProfile?) && CreditOk(states[i]) ==> CreditOk(states[i + 1])
    decreases i, 1
  {
    hide RulesOk, LedgerOk, CreditOk, Extends, Saved, Apply;
    assert states[i + 1] == Next(states, events, i);
    if events[i].Commit? {
      StepKeepsEach(states[i], events[i].step);
      StepExtends(states[i], events[i].step);
    } else if IsSave(events, i) {
      var k := events[i].save.readAt;
      RulesSurviveSaves(states, events, k, i);
      SaveKeepsRules(states[i], states[k], events[i].save);
    } else {
      assert Extends(states[i], states[i]) by { StaysExtended(states[i]); }
    }
  }

  lemma StaysExtended(s: State)
    ensures Extends(s, s)
  {
  }

  ghost predicate LedgerThroughout(states: seq<State>, n: nat)
    requires n < |states|
  {
    forall i :: 0 <= i <= n ==> LedgerOk(states[i])
  }

  ghost predicate CreditThroughout(states: seq<State>, n: nat)
    requires n < |states|
  {
    forall i :: 0 <= i <= n ==> CreditOk(states[i])
  }

  predicate EditsInTime(states: seq<State>, events: seq<Event>, n: nat)
    requires n <= |events| <= |states|
  {
    forall i :: 0 <= i < n && IsSave(events, i) ==> EditInTime(states[i], states[events[i].save.readAt], events[i].save)
  }

  predicate ProfilesInTime(states: seq<State>, events: seq<Event>, n: nat)
    requires n <= |events| <= |states|
  {
    forall i :: 0 <= i < n && IsSave(events, i) ==> ProfileInTime(states[i], states[events[i].save.readAt], events[i].save)
  }

  lemma NothingCommitted()
    ensures LedgerOk(EMPTY)
  {
  }

  /** In a run with saves no product is ever committed twice and no status is ever wrong, exactly when every edit saves a
      row read off the shelf or on which no claim has come or gone since. */
  lemma {:induction false} LedgerHoldsIff(states: seq<State>, events: seq<Event>, n: nat)
    requires IsRun(states, events) && n <= |events|
    ensures LedgerThroughout(states, n) <==> EditsInTime(states, events, n)
  {
    hide RulesOk, LedgerOk, Claims, Extends, Saved, Apply;
    if n == 0 {
      NothingCommitted();
    } else {
      var i := n - 1;
      LedgerHoldsIff(states, events, i);
      RulesSurviveSaves(states, events, i, i);
      OneEvent(states, events, i);
      assert states[n] == Next(states, events, i);
      if LedgerThroughout(states, i) && IsSave(events, i) && !events[i].save.SaveProfile? {
        var k := events[i].save.readAt;
        RulesSurviveSaves(states, events, k, i);
        SaveKeepsLedgerIff(states[i], states[k], events[i].save);
      }
    }
  }

  /** And every credit score is always accounted for by the reviews received, exactly when every save of a profile finds as
      many good as bad reviews added since it read the user. */
  lemma {:induction false} CreditHoldsIff(states: seq<State>, events: seq<Event>, n: nat)
    requires IsRun(states, events) && n <= |events|
    ensures CreditThroughout(states, n) <==> ProfilesInTime(states, events, n)
  {
    hide RulesOk, NetReviews, Extends, Saved, Apply;
    if n > 0 {
      var i := n - 1;
      hide CreditOk;
      CreditHoldsIff(states, events, i);
      RulesSurviveSaves(states, events, i, i);
      OneEvent(states, events, i);
      assert states[n] == Next(states, events, i);
      if CreditThroughout(states, i) && IsSave(events, i) && events[i].save.SaveProfile? {
        var k := events[i].save.readAt;
        RulesSurviveSaves(states, events, k, i);
        SaveKeepsCreditIff(states[i], states[k], events[i].save);
      }
    }
  }
}
