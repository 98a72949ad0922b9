/** Every write transaction of the marketplace as a function of the committed database:
    the state it commits and the reply its caller gets. A refused transaction commits nothing. */
module Transactions {
  import opened Entities
  import opened Negotiation

  datatype Reply =
    | Done
    | Failed(code: ErrorCode)
    | MustSettle      // an action met a proposal past its deadline and rolled back
    | Count(n: nat)

  // ----- opening a proposal -----

  datatype Request = Request(offers: seq<nat>, targets: seq<nat>, note: string, amount: int,
                             payer: Option<Party>, ttlHours: int)

  /** The list without zeroes and repetitions, first occurrences in their order. */
  function DedupPositive(ids: seq<nat>): (r: seq<nat>)
    ensures forall x :: x in r <==> x in ids && x != 0
    ensures forall i, j :: 0 <= i < j < |r| ==> r[i] != r[j]
  {
    if ids == [] then []
    else
      var n := |ids| - 1;
      var r := DedupPositive(ids[..n]);
      assert ids == ids[..n] + [ids[n]];
      if ids[n] == 0 || ids[n] in r then r else r + [ids[n]]
  }

  // Where x first occurs.
  function FirstAt(ids: seq<nat>, x: nat): (at: nat)
    requires x in ids
    ensures at < |ids| && ids[at] == x && forall j :: 0 <= j < at ==> ids[j] != x
  {
    var n := |ids| - 1;
    assert ids == ids[..n] + [ids[n]];
    if x in ids[..n] then FirstAt(ids[..n], x) else n
  }

  lemma {:induction false} DedupKeepsOrder(ids: seq<nat>)
    ensures var r := DedupPositive(ids); forall i, j :: 0 <= i < j < |r| ==> FirstAt(ids, r[i]) < FirstAt(ids, r[j])
  {
    if ids != [] {
      var n := |ids| - 1;
      DedupKeepsOrder(ids[..n]);
      var r := DedupPositive(ids);
      assert forall i :: 0 <= i < |r| ==> r[i] in r;
      assert forall x :: x in ids[..n] ==> x in ids && FirstAt(ids, x) == FirstAt(ids[..n], x);
      assert forall i :: 0 <= i < |DedupPositive(ids[..n])| ==> DedupPositive(ids[..n])[i] in ids[..n];
    }
  }

  predicate Overlap(a: seq<nat>, b: seq<nat>) {
    exists x :: x in a && x in b
  }

  datatype Verdict = Fine(offeree: nat) | Faulty(code: ErrorCode)

  // The offered side, up to its first defect.
  function CheckOffers(products: map<nat, Product>, offeror: nat, ids: seq<nat>): Verdict {
    if ids == [] then Fine(0)
    else
      var n := |ids| - 1;
      var before := CheckOffers(products, offeror, ids[..n]);
      if before.Faulty? then before
      else if ids[n] !in products then Faulty(ProductNotFound)
      else if products[ids[n]].seller != offeror then Faulty(Forbidden)
      else if products[ids[n]].status != OnSale then Faulty(ExchangeItemConflict)
      else Fine(0)
  }

  // The requested side; 0 stands for an owner not yet known.
  function CheckTargets(products: map<nat, Product>, offeror: nat, ids: seq<nat>): Verdict {
    if ids == [] then Fine(0)
    else
      var n := |ids| - 1;
      var before := CheckTargets(products, offeror, ids[..n]);
      if before.Faulty? then before
      else if ids[n] !in products then Faulty(ProductNotFound)
      else
        var seller := products[ids[n]].seller;
        if seller == offeror then Faulty(ExchangeInvalidItems)
        else if products[ids[n]].status != OnSale then Faulty(ExchangeItemConflict)
        else if before.offeree == 0 then Fine(seller)
        else if before.offeree != seller then Faulty(ExchangeInvalidItems)
        else before
  }

  function ValidateItems(products: map<nat, Product>, offeror: nat, offers: seq<nat>, targets: seq<nat>): Verdict {
    var o := CheckOffers(products, offeror, offers);
    if o.Faulty? then o else CheckTargets(products, offeror, targets)
  }

  function BuildItems(products: map<nat, Product>, offers: seq<nat>, targets: seq<nat>): seq<Item>
    requires forall x :: x in offers || x in targets ==> x in products
  {
    Snapshots(products, offers, OfferSide) + Snapshots(products, targets, TargetSide)
  }

  function Snapshots(products: map<nat, Product>, ids: seq<nat>, side: Side): seq<Item>
    requires forall x :: x in ids ==> x in products
  {
    seq(|ids|, i requires 0 <= i < |ids| => Snapshot(ids[i], products[ids[i]], side))
  }

  function Cover(images: seq<string>): string {
    if images == [] then "" else images[0]
  }

  function Snapshot(id: nat, p: Product, side: Side): Item {
    Item(id, p.seller, side, p.listing.title, p.listing.price, Cover(p.listing.images))
  }

  // The active proposals that contain product x: the busy count is the size of this set.
  function Occupants(proposals: map<nat, Proposal>, x: nat): set<nat> {
    set q | q in proposals && IsActive(proposals[q].status) && x in ProductIds(proposals[q])
  }

  predicate AnyBusy(proposals: map<nat, Proposal>, ids: seq<nat>) {
    exists x :: x in ids && Occupants(proposals, x) != {}
  }

  function ProposeTx(s: State, id: nat, offeror: nat, req: Request, now: int, wall: int): (State, Reply) {
    var offers := DedupPositive(req.offers);
    var targets := DedupPositive(req.targets);
    if offers == [] || targets == [] || Overlap(offers, targets) then (s, Failed(ExchangeInvalidItems))
    else
      match ValidateItems(s.products, offeror, offers, targets)
      case Faulty(e) => (s, Failed(e))
      case Fine(offeree) =>
        if AnyBusy(s.proposals, offers + targets) then (s, Failed(ExchangeItemConflict))
        else
          ValidItemsExist(s.products, offeror, offers, targets);
          var items := BuildItems(s.products, offers, targets);
          var p := Opened(offeror, offeree, req.note, req.amount, req.payer, req.ttlHours, items, now, wall);
          (s.(proposals := s.proposals[id := p]), Done)
  }

  lemma {:induction false} CheckOffersIff(products: map<nat, Product>, offeror: nat, ids: seq<nat>)
    ensures CheckOffers(products, offeror, ids).Fine? <==>
              forall x :: x in ids ==> x in products && products[x].seller == offeror && products[x].status == OnSale
  {
    if ids != [] {
      var n := |ids| - 1;
      CheckOffersIff(products, offeror, ids[..n]);
      assert ids == ids[..n] + [ids[n]];
    }
  }

  // The requested products all exist, are on sale, and belong to one owner other than the offeror.
  ghost predicate OneOwner(products: map<nat, Product>, offeror: nat, ids: seq<nat>, owner: nat) {
    owner != offeror && forall x :: x in ids ==> x in products && products[x].seller == owner && products[x].status == OnSale
  }

  lemma {:induction false} CheckTargetsIff(products: map<nat, Product>, offeror: nat, ids: seq<nat>, owner: nat)
    requires ids != []
    requires forall x :: x in products ==> products[x].seller != 0
    ensures CheckTargets(products, offeror, ids) == Fine(owner) <==> OneOwner(products, offeror, ids, owner)
  {
    var n := |ids| - 1;
    OneTargetMore(products, offeror, ids, owner);
    assert n == 0 ==> ids[..n] == [] && (OneOwner(products, offeror, [], owner) <==> owner != offeror);
    hide OneOwner;
    if n > 0 {
      CheckTargetsIff(products, offeror, ids[..n], owner);
      var before := CheckTargets(products, offeror, ids[..n]);
      if before.Fine? {
        CheckTargetsIff(products, offeror, ids[..n], before.offeree);
        OwnerIsUser(products, offeror, ids[..n], before.offeree);
      }
    }
  }

  lemma OneTargetMore(products: map<nat, Product>, offeror: nat, ids: seq<nat>, owner: nat)
    requires ids != []
    ensures var n := |ids| - 1; var x := ids[n];
            OneOwner(products, offeror, ids, owner) <==>
              && OneOwner(products, offeror, ids[..n], owner)
              && x in products && products[x].seller == owner && products[x].status == OnSale
  {
    var n := |ids| - 1;
    assert ids == ids[..n] + [ids[n]];
    assert forall x :: x in ids <==> x in ids[..n] || x == ids[n];
  }

  lemma OwnerIsUser(products: map<nat, Product>, offeror: nat, ids: seq<nat>, owner: nat)
    requires ids != [] && OneOwner(products, offeror, ids, owner)
    requires forall x :: x in products ==> products[x].seller != 0
    ensures owner != 0
  {
    assert ids[0] in ids;
  }

  // Whether error e is the defect of product x on the offered side.
  predicate OfferDefectIs(products: map<nat, Product>, offeror: nat, x: nat, e: ErrorCode) {
    if x !in products then e == ProductNotFound
    else if products[x].seller != offeror then e == Forbidden
    else products[x].status != OnSale && e == ExchangeItemConflict
  }

  /** A faulty offered side is blamed on its first defective product, with that product's defect. */
  lemma {:induction false} OffersBlame(products: map<nat, Product>, offeror: nat, ids: seq<nat>)
    requires CheckOffers(products, offeror, ids).Faulty?
    ensures exists i :: 0 <= i < |ids| && CheckOffers(products, offeror, ids[..i]).Fine?
                     && OfferDefectIs(products, offeror, ids[i], CheckOffers(products, offeror, ids).code)
  {
    var n := |ids| - 1;
    if CheckOffers(products, offeror, ids[..n]).Faulty? {
      OffersBlame(products, offeror, ids[..n]);
      var i :| 0 <= i < n && CheckOffers(products, offeror, ids[..n][..i]).Fine?
            && OfferDefectIs(products, offeror, ids[..n][i], CheckOffers(products, offeror, ids[..n]).code);
      assert ids[..n][..i] == ids[..i];
    }
  }

  // The same on the requested side, where the products before x have the owner `known`, or 0 for none.
  predicate TargetDefectIs(products: map<nat, Product>, offeror: nat, known: nat, x: nat, e: ErrorCode) {
    if x !in products then e == ProductNotFound
    else if products[x].seller == offeror then e == ExchangeInvalidItems
    else if products[x].status != OnSale then e == ExchangeItemConflict
    else known != 0 && products[x].seller != known && e == ExchangeInvalidItems
  }

  /** A faulty requested side is blamed on its first defective product, too. */
  lemma {:induction false} TargetsBlame(products: map<nat, Product>, offeror: nat, ids: seq<nat>)
    requires CheckTargets(products, offeror, ids).Faulty?
    ensures exists i :: 0 <= i < |ids| && CheckTargets(products, offeror, ids[..i]).Fine?
                     && TargetDefectIs(products, offeror, CheckTargets(products, offeror, ids[..i]).offeree, ids[i],
                                       CheckTargets(products, offeror, ids).code)
  {
    var n := |ids| - 1;
    if CheckTargets(products, offeror, ids[..n]).Faulty? {
      TargetsBlame(products, offeror, ids[..n]);
      var i :| 0 <= i < n && CheckTargets(products, offeror, ids[..n][..i]).Fine?
            && TargetDefectIs(products, offeror, CheckTargets(products, offeror, ids[..n][..i]).offeree, ids[..n][i],
                              CheckTargets(products, offeror, ids[..n]).code);
      assert ids[..n][..i] == ids[..i];
    }
  }

  lemma {:induction false} TargetsExist(products: map<nat, Product>, offeror: nat, ids: seq<nat>)
    requires CheckTargets(products, offeror, ids).Fine?
    ensures forall x :: x in ids ==> x in products && products[x].status == OnSale
  {
    if ids != [] {
      var n := |ids| - 1;
      TargetsExist(products, offeror, ids[..n]);
      assert ids == ids[..n] + [ids[n]];
    }
  }

  lemma ValidItemsExist(products: map<nat, Product>, offeror: nat, offers: seq<nat>, targets: seq<nat>)
    requires ValidateItems(products, offeror, offers, targets).Fine?
    ensures forall x :: x in offers || x in targets ==> x in products && products[x].status == OnSale
  {
    CheckOffersIff(products, offeror, offers);
    TargetsExist(products, offeror, targets);
  }

  // ----- acting on a proposal -----

  // The other active proposals that share a product with `ids`.
  function Rivals(proposals: map<nat, Proposal>, ids: set<nat>, winner: nat): set<nat> {
    set q | q in proposals && q != winner && IsActive(proposals[q].status) && ProductIds(proposals[q]) * ids != {}
  }

  function AutoClose(proposals: map<nat, Proposal>, closing: set<nat>, wall: int): map<nat, Proposal> {
    map q | q in proposals :: if q in closing then AfterAutoClose(proposals[q], wall) else proposals[q]
  }

  function MarkSold(products: map<nat, Product>, ids: set<nat>): map<nat, Product> {
    map x | x in products :: if x in ids then products[x].(status := Sold) else products[x]
  }

  function AcceptTx(s: State, pid: nat, user: nat, role: Party, now: int, wall: int): (State, Reply)
    requires pid in s.proposals
  {
    var p := s.proposals[pid];
    var ids := ProductIds(p);
    if exists x :: x in ids && x in s.products && s.products[x].status != OnSale then (s, Failed(ExchangeItemConflict))
    else
      var won := s.proposals[pid := AfterAccept(p, user, role, now, wall)];
      (s.(products := MarkSold(s.products, ids),
          proposals := AutoClose(won, Rivals(s.proposals, ids, pid), wall)),
       Done)
  }

  // The action transaction: `now` is read before it starts, `wall` stamps its history entries.
  function ActTx(s: State, user: nat, pid: nat, call: Call, now: int, wall: int): (State, Reply) {
    if pid !in s.proposals then (s, Failed(ExchangeNotFound))
    else
      var p := s.proposals[pid];
      match LoadForAction(p, user, ActionOf(call), now)
      case Refuse(e) => (s, Failed(e))
      case Due => (s, MustSettle)
      case Go(role) =>
        match call
        case AcceptCall => AcceptTx(s, pid, user, role, now, wall)
        case RejectCall(note) =>
          (s.(proposals := s.proposals[pid := AfterReject(p, user, role, note, now, wall)]), Done)
        case CancelCall(note) =>
          (s.(proposals := s.proposals[pid := AfterCancel(p, user, role, note, now, wall)]), Done)
        case CounterCall(note, amount, payer) =>
          (s.(proposals := s.proposals[pid := AfterCounter(p, user, role, note, amount, payer, wall)]), Done)
  }

  // ----- settling expired proposals -----

  function DueIn(proposals: map<nat, Proposal>, ids: set<nat>, now: int): set<nat> {
    set q | q in ids && q in proposals && IsDue(proposals[q], now)
  }

  // The conditional update.
  function MarkAll(proposals: map<nat, Proposal>, hit: set<nat>): map<nat, Proposal> {
    map q | q in proposals :: if q in hit then MarkExpired(proposals[q]) else proposals[q]
  }

  // The candidates that are expired and have no expiry entry yet.
  function Unrecorded(proposals: map<nat, Proposal>, ids: set<nat>): set<nat> {
    set q | q in ids && q in proposals && proposals[q].status == Expired && !HasExpireEntry(proposals[q].history)
  }

  function RecordAll(proposals: map<nat, Proposal>, owed: set<nat>, now: int): map<nat, Proposal> {
    map q | q in proposals ::
      if q in owed then proposals[q].(history := proposals[q].history + [ExpireEntry(now)]) else proposals[q]
  }

  function SettleTx(s: State, ids: set<nat>, now: int): (State, Reply) {
    var hit := DueIn(s.proposals, ids, now);
    if hit == {} then (s, Count(0))
    else
      var marked := MarkAll(s.proposals, hit);
      var owed := Unrecorded(marked, ids);
      (s.(proposals := RecordAll(marked, owed, now)), Count(|owed|))
  }

  // ----- products, orders, reviews -----

  function PublishTx(s: State, id: nat, seller: nat, listing: Listing): (State, Reply) {
    if !ValidCondition(listing.condition) || !ValidCategory(listing.category) then (s, Failed(BadRequest))
    else (s.(products := s.products[id := Product(seller, OnSale, listing)]), Done)
  }

  // The fields that an edit gives.
  datatype Patch = Patch(title: Option<string>, description: Option<string>, originalPrice: Option<int>, price: Option<int>,
                         condition: Option<string>, category: Option<string>, images: Option<seq<string>>)

  function GetOr<T>(given: Option<T>, other: T): T {
    if given.Some? then given.value else other
  }

  function Patched(l: Listing, p: Patch): Listing {
    Listing(GetOr(p.title, l.title), GetOr(p.description, l.description), GetOr(p.originalPrice, l.originalPrice),
            GetOr(p.price, l.price), GetOr(p.condition, l.condition), GetOr(p.category, l.category),
            GetOr(p.images, l.images))
  }

  predicate ValidPatch(p: Patch) {
    (p.condition.Some? ==> ValidCondition(p.condition.value)) && (p.category.Some? ==> ValidCategory(p.category.value))
  }

  function EditTx(s: State, user: nat, x: nat, patch: Patch): (State, Reply) {
    if x !in s.products then (s, Failed(ProductNotFound))
    else if s.products[x].seller != user then (s, Failed(Forbidden))
    else if !ValidPatch(patch) then (s, Failed(BadRequest))
    else (s.(products := s.products[x := s.products[x].(listing := Patched(s.products[x].listing, patch))]), Done)
  }

  function TakeOffTx(s: State, user: nat, x: nat): (State, Reply) {
    if x !in s.products then (s, Failed(ProductNotFound))
    else if s.products[x].seller != user then (s, Failed(Forbidden))
    else (s.(products := s.products[x := s.products[x].(status := OffShelf)]), Done)
  }

  function PlaceOrderTx(s: State, id: nat, buyer: nat, x: nat, quantity: int, addressOk: bool): (State, Reply) {
    if x !in s.products then (s, Failed(ProductNotFound))
    else
      var product := s.products[x];
      if product.status != OnSale then (s, Failed(ProductSold))
      else if product.seller == buyer then (s, Failed(Conflict))
      else if !addressOk then (s, Failed(AddressNotFound))
      else
        var q: nat := if quantity < 1 then 1 else quantity;
        var order := Order(buyer, product.seller, x, q, product.listing.price * q, PendingPayment);
        (s.(orders := s.orders[id := order], products := s.products[x := product.(status := Sold)]), Done)
  }

  datatype OrderMove = Pay | Ship | Receive | Complete

  function MoveTarget(m: OrderMove): OrderStatus {
    match m
    case Pay => PendingShipment
    case Ship => Shipped
    case Receive => Received
    case Complete => Completed
  }

  function MoveOrderTx(s: State, user: nat, id: nat, m: OrderMove): (State, Reply) {
    if id !in s.orders then (s, Failed(OrderNotFound))
    else
      var o := s.orders[id];
      if user != (if m == Ship then o.seller else o.buyer) then (s, Failed(NotOrderOwner))
      else if o.status !in OrderTransitions(MoveTarget(m)) then (s, Failed(OrderStateInvalid))
      else (s.(orders := s.orders[id := o.(status := MoveTarget(m))]), Done)
  }

  datatype CancelRole = AsBuyer | AsSeller

  function CancelOrderTx(s: State, user: nat, id: nat, role: CancelRole): (State, Reply) {
    if id !in s.orders then (s, Failed(OrderNotFound))
    else
      var o := s.orders[id];
      if user != (if role == AsBuyer then o.buyer else o.seller) then (s, Failed(NotOrderOwner))
      else if o.status !in OrderTransitions(OrderCancelled) then (s, Failed(OrderStateInvalid))
      else if o.product !in s.products then (s, Failed(ProductNotFound))
      else (s.(orders := s.orders[id := o.(status := OrderCancelled)],
               products := s.products[o.product := s.products[o.product].(status := OnSale)]), Done)
  }

  function CreditDelta(r: Rating): int {
    match r
    case Good => 5
    case Neutral => 0
    case Bad => -5
  }

  function ReviewTx(s: State, id: nat, reviewer: nat, orderId: nat, rating: Rating): (State, Reply) {
    if orderId !in s.orders then (s, Failed(OrderNotFound))
    else
      var o := s.orders[orderId];
      var reviewee := if reviewer == o.seller then o.buyer else o.seller;
      if o.status != Completed then (s, Failed(OrderStateInvalid))
      else if reviewer == reviewee then (s, Failed(CannotSelfReview))
      else if exists r :: r in s.reviews && s.reviews[r].order == orderId then (s, Failed(ReviewExists))
      else if reviewee !in s.users then (s, Failed(UserNotFound))
      else
        var review := Review(orderId, o.product, reviewer, reviewee, rating);
        (s.(reviews := s.reviews[id := review],
            users := s.users[reviewee := s.users[reviewee] + CreditDelta(rating)]), Done)
  }

  function RegisterTx(s: State, user: nat): (State, Reply) {
    (s.(users := s.users[user := 100]), Done)
  }
}
