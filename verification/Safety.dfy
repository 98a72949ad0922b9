/** Every reachable state satisfies the invariant, one family of properties at a time. */
module Safety {
  import opened Entities
  import opened Negotiation
  import opened Transactions
  import opened Protocol

  // ----- opening a proposal -----

  // What a successful opening has checked and inserted.
  ghost predicate ProposeAccepted(s: State, offeror: nat, req: Request, offeree: nat) {
    var offers := DedupPositive(req.offers);
    var targets := DedupPositive(req.targets);
    && offers != [] && targets != []
    && (forall x :: x in offers ==> x in s.products && s.products[x].seller == offeror && s.products[x].status == OnSale)
    && OneOwner(s.products, offeror, targets, offeree)
    && (forall x :: x in offers || x in targets ==> Occupants(s.proposals, x) == {})
  }

  /** A proposal opens exactly when both sides are non-empty, the offered products are the caller's own
      and on sale, the requested ones belong to one other user and are on sale, and none of them
      is in an active proposal. */
  lemma ProposeIff(s: State, id: nat, offeror: nat, req: Request, now: int, wall: int)
    requires SellersOk(s)
    ensures ProposeTx(s, id, offeror, req, now, wall).1 == Done <==>
              exists offeree :: ProposeAccepted(s, offeror, req, offeree)
  {
    var offers := DedupPositive(req.offers);
    var targets := DedupPositive(req.targets);
    CheckOffersIff(s.products, offeror, offers);
    if ProposeTx(s, id, offeror, req, now, wall).1 == Done {
      var offeree := ValidateItems(s.products, offeror, offers, targets).offeree;
      CheckTargetsIff(s.products, offeror, targets, offeree);
      NotBusy(s.proposals, offers, targets);
      assert ProposeAccepted(s, offeror, req, offeree);
    }
    if offeree :| ProposeAccepted(s, offeror, req, offeree) {
      CheckTargetsIff(s.products, offeror, targets, offeree);
      NotBusy(s.proposals, offers, targets);
      assert !Overlap(offers, targets);
    }
  }

  lemma NotBusy(proposals: map<nat, Proposal>, a: seq<nat>, b: seq<nat>)
    ensures AnyBusy(proposals, a + b) <==> exists x :: (x in a || x in b) && Occupants(proposals, x) != {}
  {
    assert forall x :: x in a + b <==> x in a || x in b;
  }

  predicate IsMine(products: map<nat, Product>, user: nat, x: nat) {
    x in products && products[x].seller == user && products[x].status == OnSale
  }

  // Offered product i is the first that is not the caller's on sale, and e names its defect.
  ghost predicate FirstOfferDefect(products: map<nat, Product>, offeror: nat, offers: seq<nat>, e: ErrorCode) {
    exists i :: 0 <= i < |offers| && OfferDefectIs(products, offeror, offers[i], e)
                && forall j :: 0 <= j < i ==> IsMine(products, offeror, offers[j])
  }

  // Requested product i is the first that is not on sale by one other user, and e names its defect.
  ghost predicate FirstTargetDefect(products: map<nat, Product>, offeror: nat, targets: seq<nat>, e: ErrorCode) {
    exists i, owner :: 0 <= i < |targets| && TargetDefectIs(products, offeror, owner, targets[i], e)
                && owner != offeror && (i == 0 ==> owner == 0)
                && forall j :: 0 <= j < i ==> IsMine(products, owner, targets[j])
  }

  /** What the caller of a failing opening is told, in this order: a side is empty or both share a product; the first
      defect of the offered side; the first defect of the requested side; a product is busy. */
  lemma ProposeRefusals(s: State, id: nat, offeror: nat, req: Request, now: int, wall: int)
    requires SellersOk(s) && 0 < offeror
    ensures var (t, r) := ProposeTx(s, id, offeror, req, now, wall);
            var offers, targets := DedupPositive(req.offers), DedupPositive(req.targets);
            var shapeless := offers == [] || targets == [] || exists x :: x in offers && x in targets;
            var mine := forall x :: x in offers ==> IsMine(s.products, offeror, x);
            var theirs := exists owner :: OneOwner(s.products, offeror, targets, owner);
            && (shapeless ==> r == Failed(ExchangeInvalidItems))
            && (!shapeless && !mine ==> r.Failed? && FirstOfferDefect(s.products, offeror, offers, r.code))
            && (!shapeless && mine && !theirs ==> r.Failed? && FirstTargetDefect(s.products, offeror, targets, r.code))
            && (!shapeless && mine && theirs ==>
                  r == if exists x :: (x in offers || x in targets) && Occupants(s.proposals, x) != {}
                       then Failed(ExchangeItemConflict) else Done)
            && (r != Done ==> t == s)
  {
    var offers, targets := DedupPositive(req.offers), DedupPositive(req.targets);
    hide DedupPositive, Occupants, CheckOffers, CheckTargets, BuildItems, FirstOfferDefect, FirstTargetDefect, IsMine, OneOwner;
    NotBusy(s.proposals, offers, targets);
    OffersReading(s.products, offeror, offers);
    if offers != [] && targets != [] && !Overlap(offers, targets) && CheckOffers(s.products, offeror, offers).Fine? {
      TargetsReading(s.products, offeror, targets);
    }
  }

  lemma OffersReading(products: map<nat, Product>, offeror: nat, offers: seq<nat>)
    ensures var v := CheckOffers(products, offeror, offers);
            if v.Fine? then forall x :: x in offers ==> IsMine(products, offeror, x)
            else (exists x :: x in offers && !IsMine(products, offeror, x)) && FirstOfferDefect(products, offeror, offers, v.code)
  {
    CheckOffersIff(products, offeror, offers);
    var v := CheckOffers(products, offeror, offers);
    if v.Faulty? {
      OffersBlame(products, offeror, offers);
      var i :| 0 <= i < |offers| && CheckOffers(products, offeror, offers[..i]).Fine?
               && OfferDefectIs(products, offeror, offers[i], v.code);
      CheckOffersIff(products, offeror, offers[..i]);
      assert forall j :: 0 <= j < i ==> offers[j] in offers[..i];
      hide CheckOffers;
      assert FirstOfferDefect(products, offeror, offers, v.code);
    }
  }

  lemma TargetsReading(products: map<nat, Product>, offeror: nat, targets: seq<nat>)
    requires targets != [] && 0 < offeror && forall x :: x in products ==> products[x].seller != 0
    ensures var v := CheckTargets(products, offeror, targets);
            var theirs := exists owner :: OneOwner(products, offeror, targets, owner);
            if v.Fine? then theirs else !theirs && FirstTargetDefect(products, offeror, targets, v.code)
  {
    var v := CheckTargets(products, offeror, targets);
    forall owner ensures v == Fine(owner) <==> OneOwner(products, offeror, targets, owner) {
      CheckTargetsIff(products, offeror, targets, owner);
    }
    if v.Fine? {
      assert OneOwner(products, offeror, targets, v.offeree);
    } else {
      TargetsBlame(products, offeror, targets);
      var i :| 0 <= i < |targets| && CheckTargets(products, offeror, targets[..i]).Fine?
               && TargetDefectIs(products, offeror, CheckTargets(products, offeror, targets[..i]).offeree, targets[i], v.code);
      TargetsBefore(products, offeror, targets, i);
      hide CheckTargets, OneOwner, TargetDefectIs, IsMine;
      assert FirstTargetDefect(products, offeror, targets, v.code);
    }
  }

  lemma TargetsBefore(products: map<nat, Product>, offeror: nat, targets: seq<nat>, i: nat)
    requires i < |targets| && 0 < offeror && forall x :: x in products ==> products[x].seller != 0
    requires CheckTargets(products, offeror, targets[..i]).Fine?
    ensures var owner := CheckTargets(products, offeror, targets[..i]).offeree;
            owner != offeror && (i == 0 ==> owner == 0) && forall j :: 0 <= j < i ==> IsMine(products, owner, targets[j])
  {
    if i > 0 {
      CheckTargetsIff(products, offeror, targets[..i], CheckTargets(products, offeror, targets[..i]).offeree);
      assert forall j :: 0 <= j < i ==> targets[j] in targets[..i];
    }
  }

  // An item shows what its product's listing said, with the first of its images.
  predicate ShownAs(item: Item, listing: Listing) {
    && item.title == listing.title && item.price == listing.price
    && (listing.images == [] ==> item.image == "") && (listing.images != [] ==> item.image == listing.images[0])
  }

  // The row that an opening inserts.
  ghost predicate RowInserted(s: State, offeror: nat, req: Request, now: int, wall: int, p: Proposal) {
    var offers, targets := DedupPositive(req.offers), DedupPositive(req.targets);
    && RowOk(p) && p.status == Pending && p.offeror == offeror
    && ProposeAccepted(s, offeror, req, p.offeree)
    && ProductIds(p) == (set x | x in offers + targets)
    && |p.items| == |offers| + |targets|
    && (forall i :: 0 <= i < |p.items| ==>
          && p.items[i].product == (offers + targets)[i] && p.items[i].product in s.products
          && p.items[i].side == (if i < |offers| then OfferSide else TargetSide)
          && ShownAs(p.items[i], s.products[p.items[i].product].listing))
    && p.expiresAt == now + (if req.ttlHours <= 0 then 72 else req.ttlHours) * 3600
    && (var payer := if req.payer.Some? then req.payer.value else Offeror;
        && BoardOf(p) == Board(Pending, Offeree, 0, req.note, req.amount, payer, offeror)
        && p.history == [Entry(offeror, Offeror, Create, req.note, req.amount, payer, wall)])
  }

  /** The inserted row: well formed, between the caller and the owner, over exactly the listed products,
      each with the listing it had at that moment; nothing else changes. */
  lemma ProposeEffect(s: State, id: nat, offeror: nat, req: Request, now: int, wall: int)
    requires SellersOk(s) && id !in s.proposals
    requires ProposeTx(s, id, offeror, req, now, wall).1 == Done
    ensures var t := ProposeTx(s, id, offeror, req, now, wall).0;
            && id in t.proposals
            && t == s.(proposals := s.proposals[id := t.proposals[id]])
            && RowInserted(s, offeror, req, now, wall, t.proposals[id])
  {
    var offers, targets := DedupPositive(req.offers), DedupPositive(req.targets);
    var offeree := ValidateItems(s.products, offeror, offers, targets).offeree;
    OpeningChecked(s, offeror, req, offeree);
    var items := BuildItems(s.products, offers, targets);
    hide ValidateItems, AnyBusy, Overlap, DedupPositive, BuildItems, OneOwner, RowOk;
    OpeningInserts(s, offeror, offeree, req, items, now, wall);
  }

  lemma OpeningChecked(s: State, offeror: nat, req: Request, offeree: nat)
    requires SellersOk(s)
    requires var offers, targets := DedupPositive(req.offers), DedupPositive(req.targets);
             && offers != [] && targets != [] && !Overlap(offers, targets)
             && ValidateItems(s.products, offeror, offers, targets) == Fine(offeree)
             && !AnyBusy(s.proposals, offers + targets)
    ensures ProposeAccepted(s, offeror, req, offeree)
  {
    var offers, targets := DedupPositive(req.offers), DedupPositive(req.targets);
    CheckOffersIff(s.products, offeror, offers);
    CheckTargetsIff(s.products, offeror, targets, offeree);
    NotBusy(s.proposals, offers, targets);
  }

  lemma OpeningInserts(s: State, offeror: nat, offeree: nat, req: Request, items: seq<Item>, now: int, wall: int)
    requires SellersOk(s) && ProposeAccepted(s, offeror, req, offeree)
    requires var offers, targets := DedupPositive(req.offers), DedupPositive(req.targets);
             && !Overlap(offers, targets)
             && (forall x :: x in offers || x in targets ==> x in s.products)
             && items == BuildItems(s.products, offers, targets)
    ensures RowInserted(s, offeror, req, now, wall, Opened(offeror, offeree, req.note, req.amount, req.payer, req.ttlHours, items, now, wall))
  {
    hide ItemsOk, BuildItems, RowOk, Overlap, DedupPositive, Occupants;
    var offers, targets := DedupPositive(req.offers), DedupPositive(req.targets);
    var p := Opened(offeror, offeree, req.note, req.amount, req.payer, req.ttlHours, items, now, wall);
    ItemsBuilt(s.products, offeror, offeree, offers, targets, items);
    assert offers[0] in offers && targets[0] in targets;
    OpenedIsOk(offeror, offeree, req.note, req.amount, req.payer, req.ttlHours, items, now, wall);
    ItemProducts(p, offers + targets);
  }

  lemma ItemProducts(p: Proposal, ids: seq<nat>)
    requires |p.items| == |ids| && forall i :: 0 <= i < |ids| ==> p.items[i].product == ids[i]
    ensures ProductIds(p) == (set x | x in ids)
  {
    forall x | x in ids ensures x in ProductIds(p) {
      var i :| 0 <= i < |ids| && ids[i] == x;
      assert p.items[i].product == x;
    }
  }

  lemma ItemsBuilt(products: map<nat, Product>, offeror: nat, offeree: nat, offers: seq<nat>, targets: seq<nat>, items: seq<Item>)
    requires forall x :: x in offers || x in targets ==> x in products
    requires items == BuildItems(products, offers, targets)
    requires forall i, j :: 0 <= i < j < |offers| ==> offers[i] != offers[j]
    requires forall i, j :: 0 <= i < j < |targets| ==> targets[i] != targets[j]
    requires offers != [] && targets != [] && !Overlap(offers, targets)
    requires forall x :: x in offers ==> products[x].seller == offeror
    requires forall x :: x in targets ==> products[x].seller == offeree
    ensures ItemsOk(offeror, offeree, items)
    ensures |items| == |offers| + |targets|
    ensures forall i :: 0 <= i < |items| ==>
              && items[i].product == (offers + targets)[i]
              && items[i].side == (if i < |offers| then OfferSide else TargetSide)
              && ShownAs(items[i], products[items[i].product].listing)
  {
    assert items[0].side == OfferSide;
    assert items[|offers|].side == TargetSide;
    assert forall i :: 0 <= i < |items| ==> items[i].product == (offers + targets)[i];
    ListsApart(offers, targets);
  }

  lemma ListsApart(a: seq<nat>, b: seq<nat>)
    requires forall i, j :: 0 <= i < j < |a| ==> a[i] != a[j]
    requires forall i, j :: 0 <= i < j < |b| ==> b[i] != b[j]
    requires !Overlap(a, b)
    ensures forall i, j :: 0 <= i < j < |a + b| ==> (a + b)[i] != (a + b)[j]
  {
    forall i, j | 0 <= i < j < |a + b| ensures (a + b)[i] != (a + b)[j] {
      if i < |a| <= j {
        assert a[i] in a && b[j - |a|] in b;
      }
    }
  }

  lemma ProposeKeepsRows(s: State, id: nat, offeror: nat, req: Request, now: int, wall: int)
    requires SellersOk(s) && RowsOk(s.proposals) && Exclusive(s.proposals) && ItemsExist(s) && id !in s.proposals
    ensures var t := ProposeTx(s, id, offeror, req, now, wall).0;
            RowsOk(t.proposals) && Exclusive(t.proposals) && ItemsExist(t)
  {
    var (t, r) := ProposeTx(s, id, offeror, req, now, wall);
    if r == Done {
      ProposeEffect(s, id, offeror, req, now, wall);
      hide RowOk, ProposeTx;
      var p := t.proposals[id];
      assert forall x :: x in ProductIds(p) ==> x in s.products && Occupants(s.proposals, x) == {};
      InsertKeepsRows(s.proposals, id, p);
    }
  }

  lemma InsertKeepsRows(proposals: map<nat, Proposal>, id: nat, p: Proposal)
    requires RowsOk(proposals) && Exclusive(proposals) && RowOk(p) && id !in proposals
    requires forall x :: x in ProductIds(p) ==> Occupants(proposals, x) == {}
    ensures RowsOk(proposals[id := p]) && Exclusive(proposals[id := p])
  {
    hide RowOk;
    forall q | q in proposals && IsActive(proposals[q].status) ensures ProductIds(proposals[q]) !! ProductIds(p) {
      forall x | x in ProductIds(p) ensures x !in ProductIds(proposals[q]) {
        assert q !in Occupants(proposals, x);
      }
    }
  }

  // ----- the ledger of products -----

  lemma ProposeKeepsLedger(s: State, id: nat, offeror: nat, req: Request, now: int, wall: int)
    requires LedgerOk(s) && id !in s.proposals
    ensures LedgerOk(ProposeTx(s, id, offeror, req, now, wall).0)
  {
    hide ValidateItems, DedupPositive, AnyBusy, Overlap, BuildItems;
    var t := ProposeTx(s, id, offeror, req, now, wall).0;
    forall x ensures Deals(t.proposals, x) == Deals(s.proposals, x) {
    }
  }

  /** A successful acceptance: every product of the proposal was on sale and becomes sold, the row is accepted,
      every overlapping active proposal is closed with one system entry, and all other rows stay.
      No assumption is made on the state. */
  lemma AcceptEffect(s: State, user: nat, pid: nat, now: int, wall: int)
    requires ActTx(s, user, pid, AcceptCall, now, wall).1 == Done
    ensures pid in s.proposals
    ensures var t := ActTx(s, user, pid, AcceptCall, now, wall).0;
            var ids := ProductIds(s.proposals[pid]);
            && t == s.(products := t.products, proposals := t.proposals)
            && t.products.Keys == s.products.Keys && t.proposals.Keys == s.proposals.Keys
            && (forall x :: x in s.products ==>
                  if x in ids then s.products[x].status == OnSale && t.products[x] == s.products[x].(status := Sold)
                  else t.products[x] == s.products[x])
            && (var p := s.proposals[pid];
                var role := if user == p.offeror then Offeror else Offeree;
                && t.proposals[pid] == p.(status := Accepted, acceptedAt := Some(now), lastActionBy := user,
                                          history := p.history + [Entry(user, role, Accept, p.note, p.amount, p.payer, wall)])
                && Advances(p, t.proposals[pid]))
            && (forall q :: q in s.proposals && q != pid ==>
                  var p := s.proposals[q];
                  if p.status in {Pending, Countered} && ProductIds(p) * ids != {} then
                    && t.proposals[q] == p.(status := Cancelled, lastActionBy := 0,
                                            history := p.history + [Entry(0, System, Cancel, AUTO_CLOSE_NOTE, 0, Offeror, wall)])
                    && Advances(p, t.proposals[q])
                  else t.proposals[q] == p)
            && (forall x :: x in ids ==> Occupants(t.proposals, x) == {})
  {
    ActAdvances(s, user, pid, AcceptCall, now, wall);
    var t := ActTx(s, user, pid, AcceptCall, now, wall).0;
    var ids := ProductIds(s.proposals[pid]);
    hide ProductIds, Advances, LoadForAction, Rivals, Occupants, IsActive;
    ClosingFrees(s.proposals, t.proposals, pid, ids);
  }

  // Once a row has won and its rivals are closed, nobody occupies its products.
  lemma ClosingFrees(before: map<nat, Proposal>, after: map<nat, Proposal>, pid: nat, ids: set<nat>)
    requires after.Keys == before.Keys && pid in before && after[pid].status == Accepted
    requires forall q :: q in before && q != pid ==>
               if q in Rivals(before, ids, pid) then after[q].status == Cancelled else after[q] == before[q]
    ensures forall x :: x in ids ==> Occupants(after, x) == {}
  {
    hide ProductIds;
    forall q | q in after && IsActive(after[q].status) ensures ProductIds(after[q]) !! ids {
      var shared := ProductIds(before[q]) * ids;
      assert shared == {};
      assert forall x :: x in ids && x in ProductIds(before[q]) ==> x in shared;
    }
  }

  /** Where occupancy is exclusive an acceptance closes no other proposal. */
  lemma NoRivals(proposals: map<nat, Proposal>, pid: nat)
    requires Exclusive(proposals) && pid in proposals && IsActive(proposals[pid].status)
    ensures Rivals(proposals, ProductIds(proposals[pid]), pid) == {}
  {
  }

  // A step that keeps statuses, orders and accepted proposals keeps the ledger.
  lemma LedgerFrame(s: State, t: State)
    requires LedgerOk(s) && t.orders == s.orders
    requires t.products.Keys == s.products.Keys
    requires forall x :: x in s.products ==> t.products[x].status == s.products[x].status
    requires t.proposals.Keys == s.proposals.Keys
    requires forall q :: q in s.proposals ==>
               && t.proposals[q].items == s.proposals[q].items
               && (t.proposals[q].status == Accepted <==> s.proposals[q].status == Accepted)
    ensures LedgerOk(t)
  {
    forall x ensures Deals(t.proposals, x) == Deals(s.proposals, x) {
      assert forall q :: q in s.proposals ==> ProductIds(t.proposals[q]) == ProductIds(s.proposals[q]);
    }
  }

  lemma AcceptKeepsLedger(s: State, user: nat, pid: nat, now: int, wall: int)
    requires LedgerOk(s)
    requires ActTx(s, user, pid, AcceptCall, now, wall).1 == Done
    ensures LedgerOk(ActTx(s, user, pid, AcceptCall, now, wall).0)
  {
    AcceptEffect(s, user, pid, now, wall);
    var t := ActTx(s, user, pid, AcceptCall, now, wall).0;
    AcceptedRows(s, t, pid);
    forall x | x in s.products ensures Balanced(t.products[x].status, Claims(t, x)) {
      assert Balanced(s.products[x].status, Claims(s, x));
      if x in ProductIds(s.proposals[pid]) {
        DealGained(s, t, pid, x);
      } else {
        DealsSame(s, t, pid, x);
      }
    }
  }

  // An acceptance changes the set of accepted rows by one.
  lemma AcceptedRows(s: State, t: State, pid: nat)
    requires t.proposals.Keys == s.proposals.Keys && pid in s.proposals
    requires Advances(s.proposals[pid], t.proposals[pid])
    requires forall q :: q in s.proposals && q != pid ==>
               || t.proposals[q] == s.proposals[q]
               || (Advances(s.proposals[q], t.proposals[q]) && t.proposals[q].status == Cancelled)
    ensures s.proposals[pid].status != Accepted && t.proposals[pid].items == s.proposals[pid].items
    ensures forall q :: q in s.proposals && q != pid ==>
               && t.proposals[q].items == s.proposals[q].items
               && (t.proposals[q].status == Accepted <==> s.proposals[q].status == Accepted)
  {
  }

  lemma ActKeepsLedger(s: State, user: nat, pid: nat, call: Call, now: int, wall: int)
    requires LedgerOk(s)
    ensures LedgerOk(ActTx(s, user, pid, call, now, wall).0)
  {
    var (t, r) := ActTx(s, user, pid, call, now, wall);
    if r == Done {
      if call.AcceptCall? {
        AcceptKeepsLedger(s, user, pid, now, wall);
      } else {
        LedgerFrame(s, t);
      }
    }
  }

  lemma DealsSame(s: State, t: State, pid: nat, x: nat)
    requires t.proposals.Keys == s.proposals.Keys && t.orders == s.orders
    requires pid in s.proposals && x !in ProductIds(s.proposals[pid])
    requires forall q :: q in s.proposals ==> t.proposals[q].items == s.proposals[q].items
    requires forall q :: q in s.proposals && q != pid ==>
               (t.proposals[q].status == Accepted <==> s.proposals[q].status == Accepted)
    ensures Claims(t, x) == Claims(s, x)
  {
    assert forall q :: q in s.proposals ==> ProductIds(t.proposals[q]) == ProductIds(s.proposals[q]);
    assert Deals(t.proposals, x) == Deals(s.proposals, x);
  }

  lemma DealGained(s: State, t: State, pid: nat, x: nat)
    requires t.proposals.Keys == s.proposals.Keys && t.orders == s.orders
    requires pid in s.proposals && s.proposals[pid].status != Accepted && t.proposals[pid].status == Accepted
    requires x in ProductIds(t.proposals[pid])
    requires forall q :: q in s.proposals && q != pid ==>
               && t.proposals[q].items == s.proposals[q].items
               && (t.proposals[q].status == Accepted <==> s.proposals[q].status == Accepted)
    ensures Claims(t, x) == Claims(s, x) + 1
  {
    assert forall q :: q in s.proposals && q != pid ==> ProductIds(t.proposals[q]) == ProductIds(s.proposals[q]);
    assert Deals(t.proposals, x) == Deals(s.proposals, x) + {pid};
  }

  lemma SettleKeepsLedger(s: State, ids: set<nat>, now: int)
    requires LedgerOk(s) && RowsOk(s.proposals)
    ensures LedgerOk(SettleTx(s, ids, now).0)
  {
    hide RowOk;
    SettleIsExact(s, ids, now);
    LedgerFrame(s, SettleTx(s, ids, now).0);
  }

  lemma OrderAdded(orders: map<nat, Order>, id: nat, order: Order)
    requires id !in orders && order.status != OrderCancelled
    ensures LiveOrders(orders[id := order], order.product) == LiveOrders(orders, order.product) + {id}
    ensures forall y :: y != order.product ==> LiveOrders(orders[id := order], y) == LiveOrders(orders, y)
  {
    forall y | y != order.product ensures LiveOrders(orders[id := order], y) == LiveOrders(orders, y) {
    }
  }

  lemma PlaceOrderKeepsLedger(s: State, id: nat, buyer: nat, x: nat, quantity: int, addressOk: bool)
    requires LedgerOk(s) && id !in s.orders
    ensures LedgerOk(PlaceOrderTx(s, id, buyer, x, quantity, addressOk).0)
  {
    var (t, r) := PlaceOrderTx(s, id, buyer, x, quantity, addressOk);
    hide LiveOrders, Deals;
    if r == Done {
      OrderAdded(s.orders, id, t.orders[id]);
      LiveAreOrders(s.orders, x);
      forall y | y in t.products ensures Balanced(t.products[y].status, Claims(t, y)) {
        assert Balanced(s.products[y].status, Claims(s, y));
      }
    }
  }

  lemma LiveAreOrders(orders: map<nat, Order>, x: nat)
    ensures LiveOrders(orders, x) <= orders.Keys
  {
  }

  lemma MoveOrderKeepsLedger(s: State, user: nat, id: nat, m: OrderMove)
    requires LedgerOk(s)
    ensures LedgerOk(MoveOrderTx(s, user, id, m).0)
  {
    var t := MoveOrderTx(s, user, id, m).0;
    forall x ensures LiveOrders(t.orders, x) == LiveOrders(s.orders, x) {
    }
  }

  /** Cancelling an order gives back exactly its own claim: it was the only one on the product,
      and the product is on sale with no claim left. */
  lemma CancelReturnsItsClaim(s: State, user: nat, id: nat, role: CancelRole)
    requires LedgerOk(s)
    requires CancelOrderTx(s, user, id, role).1 == Done
    ensures id in s.orders
    ensures var t := CancelOrderTx(s, user, id, role).0;
            var x := s.orders[id].product;
            && LiveOrders(s.orders, x) == {id} && Deals(s.proposals, x) == {}
            && LiveOrders(t.orders, x) == {} && Claims(t, x) == 0
            && x in t.products && t.products[x].status == OnSale
            && forall y :: y in s.products && y != x ==> t.products[y] == s.products[y] && Claims(t, y) == Claims(s, y)
  {
    var o := s.orders[id];
    OrderRemoved(s.orders, id);
    assert Balanced(s.products[o.product].status, Claims(s, o.product));
    OneIsAll(LiveOrders(s.orders, o.product), id);
    hide LiveOrders, Deals;
  }

  lemma OneIsAll(s: set<nat>, x: nat)
    requires x in s
    ensures |s| >= 1 && (|s| == 1 ==> s == {x})
  {
    assert s == (s - {x}) + {x};
    assert |s| == |s - {x}| + 1;
  }

  lemma OrderRemoved(orders: map<nat, Order>, id: nat)
    requires id in orders && orders[id].status != OrderCancelled
    ensures var after := orders[id := orders[id].(status := OrderCancelled)];
            && id in LiveOrders(orders, orders[id].product)
            && LiveOrders(after, orders[id].product) == LiveOrders(orders, orders[id].product) - {id}
            && forall y :: y != orders[id].product ==> LiveOrders(after, y) == LiveOrders(orders, y)
  {
    var after := orders[id := orders[id].(status := OrderCancelled)];
    forall y | y != orders[id].product ensures LiveOrders(after, y) == LiveOrders(orders, y) {
    }
  }

  lemma CancelOrderKeepsLedger(s: State, user: nat, id: nat, role: CancelRole)
    requires LedgerOk(s)
    ensures LedgerOk(CancelOrderTx(s, user, id, role).0)
  {
    if CancelOrderTx(s, user, id, role).1 == Done {
      CancelReturnsItsClaim(s, user, id, role);
    }
  }

  // ----- the credit scores -----

  lemma ReviewKeepsCredit(s: State, id: nat, reviewer: nat, order: nat, rating: Rating)
    requires ReviewsOk(s) && id !in s.reviews
    ensures var t := ReviewTx(s, id, reviewer, order, rating).0; ReviewsOk(t) && (CreditOk(s) ==> CreditOk(t))
  {
    hide ReviewsFor;
    var (t, r) := ReviewTx(s, id, reviewer, order, rating);
    if r == Done && CreditOk(s) {
      OneReviewMore(s.reviews, id, t.reviews[id]);
      var reviewee := t.reviews[id].reviewee;
      forall u | u in t.users
        ensures t.users[u] == 100 + 5 * |ReviewsFor(t.reviews, u, Good)| - 5 * |ReviewsFor(t.reviews, u, Bad)|
      {
      }
    }
  }

  lemma OneReviewMore(reviews: map<nat, Review>, id: nat, review: Review)
    requires id !in reviews
    ensures forall u, g :: |ReviewsFor(reviews[id := review], u, g)| ==
              |ReviewsFor(reviews, u, g)| + if u == review.reviewee && g == review.rating then 1 else 0
  {
    forall u, g
      ensures ReviewsFor(reviews[id := review], u, g) ==
              ReviewsFor(reviews, u, g) + if u == review.reviewee && g == review.rating then {id} else {}
    {
    }
  }

  lemma RegisterKeepsCredit(s: State, user: nat)
    requires ReviewsOk(s) && user !in s.users
    ensures var t := RegisterTx(s, user).0; ReviewsOk(t) && (CreditOk(s) ==> CreditOk(t))
  {
    assert ReviewsFor(s.reviews, user, Good) == {} && ReviewsFor(s.reviews, user, Bad) == {};
  }

  /** The refusal of a review of oneself never fires: no order has one user on both sides. */
  lemma NeverSelfReview(s: State, id: nat, reviewer: nat, order: nat, rating: Rating)
    requires OrdersOk(s)
    ensures ReviewTx(s, id, reviewer, order, rating).1 != Failed(CannotSelfReview)
  {
  }

  // ----- all together -----

  lemma OrdersFrame(s: State, t: State)
    requires SellersOk(s) && OrdersOk(s) && t.orders == s.orders && s.products.Keys <= t.products.Keys
    requires forall x :: x in s.products ==> t.products[x].seller == s.products[x].seller
    requires forall x :: x in t.products && x !in s.products ==> 0 < t.products[x].seller
    ensures SellersOk(t) && OrdersOk(t)
  {
  }

  lemma CreditFrame(s: State, t: State)
    requires ReviewsOk(s) && t.users == s.users && t.reviews == s.reviews
    requires forall o :: o in s.orders && s.orders[o].status == Completed ==> o in t.orders && t.orders[o] == s.orders[o]
    ensures ReviewsOk(t) && (CreditOk(s) ==> CreditOk(t))
  {
  }

  // What the exchange transactions leave alone.
  lemma ExchangeShape(s: State, step: Step)
    requires step.Propose? || step.Act? || step.Settle?
    ensures var t := Exec(s, step).0;
            && t.users == s.users && t.orders == s.orders && t.reviews == s.reviews
            && t.products.Keys == s.products.Keys
            && forall x :: x in s.products ==> t.products[x].seller == s.products[x].seller
  {
    hide RowOk, LoadForAction, ValidateItems, DedupPositive, BuildItems;
  }

  lemma ExchangeStepKeepsRules(s: State, step: Step)
    requires RulesOk(s) && KeysOk(s, step)
    requires step.Propose? || step.Act? || step.Settle?
    ensures var t := Exec(s, step).0; RulesOk(t) && (CreditOk(s) ==> CreditOk(t))
  {
    var t := Exec(s, step).0;
    ExchangeShape(s, step);
    OrdersFrame(s, t);
    CreditFrame(s, t);
    ExchangeStepKeepsRows(s, step);
  }

  lemma ExchangeStepKeepsLedger(s: State, step: Step)
    requires RulesOk(s) && LedgerOk(s) && KeysOk(s, step)
    requires step.Propose? || step.Act? || step.Settle?
    ensures LedgerOk(Exec(s, step).0)
  {
    match step
    case Propose(id, user, req, now, wall) => ProposeKeepsLedger(s, id, user, req, now, wall);
    case Act(user, pid, call, now, wall) => ActKeepsLedger(s, user, pid, call, now, wall);
    case Settle(ids, now) => SettleKeepsLedger(s, ids, now);
  }

  lemma ExchangeStepKeepsRows(s: State, step: Step)
    requires RulesOk(s) && KeysOk(s, step)
    requires step.Propose? || step.Act? || step.Settle?
    ensures var t := Exec(s, step).0; RowsOk(t.proposals) && Exclusive(t.proposals) && ItemsExist(t)
  {
    var t := Exec(s, step).0;
    match step
    case Propose(id, user, req, now, wall) => ProposeKeepsRows(s, id, user, req, now, wall);
    case Act(user, pid, call, now, wall) =>
      ExchangeShape(s, step);
      ActAdvances(s, user, pid, call, now, wall);
      AdvanceKeeps(s, t);
    case Settle(ids, now) =>
      ExchangeShape(s, step);
      SettleAdvances(s, ids, now);
      AdvanceKeeps(s, t);
  }

  // What the other transactions leave alone.
  lemma PlainTables(s: State, step: Step)
    requires !(step.Propose? || step.Act? || step.Settle?)
    ensures var t := Exec(s, step).0;
            && t.proposals == s.proposals && s.products.Keys <= t.products.Keys
            && (!step.Register? && !step.WriteReview? ==> t.users == s.users && t.reviews == s.reviews)
            && (step.Register? || step.WriteReview? ==> t.orders == s.orders && t.products == s.products)
  {
  }

  lemma PlainOrders(s: State, step: Step)
    requires KeysOk(s, step) && !(step.Propose? || step.Act? || step.Settle?)
    ensures var t := Exec(s, step).0;
            && s.orders.Keys <= t.orders.Keys
            && (forall o :: o in s.orders && s.orders[o].status == Completed ==> t.orders[o] == s.orders[o])
  {
  }

  lemma PlainStepKeepsRules(s: State, step: Step)
    requires RulesOk(s) && KeysOk(s, step)
    requires !(step.Propose? || step.Act? || step.Settle?)
    ensures var t := Exec(s, step).0; RulesOk(t) && (CreditOk(s) ==> CreditOk(t))
  {
    var t := Exec(s, step).0;
    hide RowsOk, Exclusive, CreditOk, ReviewsOk, OrdersOk, SellersOk, Exec;
    PlainTables(s, step);
    PlainStepKeepsOrders(s, step);
    PlainStepKeepsReviews(s, step);
  }

  lemma PlainStepKeepsOrders(s: State, step: Step)
    requires OrdersOk(s) && SellersOk(s) && KeysOk(s, step)
    requires !(step.Propose? || step.Act? || step.Settle?)
    ensures var t := Exec(s, step).0; OrdersOk(t) && SellersOk(t)
  {
  }

  lemma PlainStepKeepsLedger(s: State, step: Step)
    requires RulesOk(s) && LedgerOk(s) && KeysOk(s, step)
    requires !(step.Propose? || step.Act? || step.Settle?)
    ensures LedgerOk(Exec(s, step).0)
  {
    hide RowsOk, Exclusive, ReviewsOk, SellersOk, LedgerOk, ItemsExist, OrdersOk,
         PlaceOrderTx, MoveOrderTx, CancelOrderTx, PublishTx;
    match step
    case PlaceOrder(id, buyer, x, quantity, addressOk) => PlaceOrderKeepsLedger(s, id, buyer, x, quantity, addressOk);
    case MoveOrder(user, id, move) => MoveOrderKeepsLedger(s, user, id, move);
    case CancelOrder(user, id, role) => CancelOrderKeepsLedger(s, user, id, role);
    case Publish(id, seller, listing) => PublishKeepsLedger(s, id, seller, listing);
    case _ =>
      OtherStepsKeepStatuses(s, step);
      hide Exec;
      RowKeepsLedger(s, Exec(s, step).0);
  }

  lemma OtherStepsKeepStatuses(s: State, step: Step)
    requires step.Register? || step.Edit? || step.TakeOff? || step.WriteReview?
    ensures var t := Exec(s, step).0;
            && t.orders == s.orders && t.proposals == s.proposals && t.products.Keys == s.products.Keys
            && forall x :: x in s.products ==> t.products[x].status == s.products[x].status || t.products[x].status == OffShelf
  {
  }

  lemma PublishKeepsLedger(s: State, id: nat, seller: nat, listing: Listing)
    requires LedgerOk(s) && ItemsExist(s) && OrdersOk(s) && id !in s.products
    ensures LedgerOk(PublishTx(s, id, seller, listing).0)
  {
    hide ValidCondition, ValidCategory;
    NoClaimBefore(s, id);
    var t := PublishTx(s, id, seller, listing).0;
    assert forall x :: Claims(t, x) == Claims(s, x);
    hide Claims, ItemsExist, OrdersOk;
  }

  lemma NoClaimBefore(s: State, id: nat)
    requires ItemsExist(s) && OrdersOk(s) && id !in s.products
    ensures Claims(s, id) == 0
  {
    assert LiveOrders(s.orders, id) == {};
    assert Deals(s.proposals, id) == {};
  }

  // A change of statuses to the same ones or off the shelf, with the same claims, keeps the ledger.
  lemma RowKeepsLedger(s: State, t: State)
    requires LedgerOk(s) && t.orders == s.orders && t.proposals == s.proposals && t.products.Keys == s.products.Keys
    requires forall x :: x in s.products ==> t.products[x].status == s.products[x].status || t.products[x].status == OffShelf
    ensures LedgerOk(t)
  {
    assert forall x :: Claims(t, x) == Claims(s, x);
    hide Claims;
    forall x | x in t.products ensures Balanced(t.products[x].status, Claims(t, x)) {
      assert Balanced(s.products[x].status, Claims(s, x));
    }
  }

  lemma PlainStepKeepsReviews(s: State, step: Step)
    requires ReviewsOk(s) && KeysOk(s, step)
    requires !(step.Propose? || step.Act? || step.Settle?)
    ensures var t := Exec(s, step).0; ReviewsOk(t) && (CreditOk(s) ==> CreditOk(t))
  {
    match step
    case Register(user) => RegisterKeepsCredit(s, user);
    case WriteReview(id, user, order, rating) => ReviewKeepsCredit(s, id, user, order, rating);
    case _ =>
      PlainTables(s, step);
      PlainOrders(s, step);
      hide Exec;
      CreditFrame(s, Exec(s, step).0);
  }

  /** Every transaction keeps the rules, and where they hold it keeps each of the two ledgers by itself. */
  lemma StepKeepsEach(s: State, step: Step)
    requires RulesOk(s)
    ensures RulesOk(Apply(s, step))
    ensures LedgerOk(s) ==> LedgerOk(Apply(s, step))
    ensures CreditOk(s) ==> CreditOk(Apply(s, step))
  {
    hide RulesOk, LedgerOk, CreditOk, Exec;
    if KeysOk(s, step) {
      if step.Propose? || step.Act? || step.Settle? {
        ExchangeStepKeepsRules(s, step);
        if LedgerOk(s) {
          ExchangeStepKeepsLedger(s, step);
        }
      } else {
        PlainStepKeepsRules(s, step);
        if LedgerOk(s) {
          PlainStepKeepsLedger(s, step);
        }
      }
    }
  }

  lemma StepKeepsInv(s: State, step: Step)
    requires Inv(s)
    ensures Inv(Apply(s, step))
  {
    StepKeepsEach(s, step);
  }

  /** The invariant holds after every run. */
  lemma {:induction false} RunKeepsInv(s: State, steps: seq<Step>)
    requires Inv(s)
    ensures Inv(Run(s, steps))
  {
    if steps != [] {
      RunKeepsInv(s, steps[..|steps| - 1]);
      StepKeepsInv(Run(s, steps[..|steps| - 1]), steps[|steps| - 1]);
    }
  }

  lemma ReachableIsSafe(steps: seq<Step>)
    ensures Inv(Run(EMPTY, steps))
  {
    RunKeepsInv(EMPTY, steps);
  }
}
