/** The busy count, a join of items with active proposals, as a lock table from products to proposals. */
module Occupancy {
  import opened Entities
  import opened Negotiation
  import opened Transactions
  import opened Protocol
  import opened Safety
  import opened ExchangeLaws

  // ----- the abstract lock table -----

  type Table = map<nat, nat>

  // All the products or none.
  ghost function Acquire(t: Table, ids: set<nat>, holder: nat): Table
    requires ids !! t.Keys
  {
    t + map x | x in ids :: holder
  }

  function Release(t: Table, holders: set<nat>): Table {
    map x | x in t && t[x] !in holders :: t[x]
  }

  // ----- its reading of the database -----

  ghost function Held(proposals: map<nat, Proposal>): set<nat> {
    set q, x | q in proposals && IsActive(proposals[q].status) && x in ProductIds(proposals[q]) :: x
  }

  ghost function Holder(proposals: map<nat, Proposal>, x: nat): nat
    requires x in Held(proposals)
  {
    HeldIsOccupied(proposals, x);
    var q :| q in Occupants(proposals, x); q
  }

  lemma HeldIsOccupied(proposals: map<nat, Proposal>, x: nat)
    ensures x in Held(proposals) <==> exists q :: q in Occupants(proposals, x)
  {
    if x in Held(proposals) {
      var q :| q in proposals && IsActive(proposals[q].status) && x in ProductIds(proposals[q]);
      assert q in Occupants(proposals, x);
    }
  }

  ghost function TableOf(proposals: map<nat, Proposal>): Table {
    map x | x in Held(proposals) :: Holder(proposals, x)
  }

  /** The busy count of a product is 1 if the table holds it and 0 otherwise, and the one occupant is its holder. */
  lemma BusyCountReadsTable(proposals: map<nat, Proposal>, x: nat)
    requires Exclusive(proposals)
    ensures Occupants(proposals, x) == if x in TableOf(proposals) then {TableOf(proposals)[x]} else {}
    ensures |Occupants(proposals, x)| == if x in TableOf(proposals) then 1 else 0
  {
    HeldIsOccupied(proposals, x);
    if x in Held(proposals) {
      var q := Holder(proposals, x);
      forall r | r in Occupants(proposals, x) ensures r == q {
      }
      assert Occupants(proposals, x) == {q};
    }
  }

  // The table is determined by who occupies what.
  lemma TableIs(proposals: map<nat, Proposal>, t: Table)
    requires Exclusive(proposals)
    requires forall q, x :: q in Occupants(proposals, x) <==> x in t && t[x] == q
    ensures TableOf(proposals) == t
  {
    forall x ensures x in TableOf(proposals) <==> x in t
             ensures x in t ==> x in TableOf(proposals) && TableOf(proposals)[x] == t[x]
    {
      BusyCountReadsTable(proposals, x);
      if x in t {
        assert t[x] in Occupants(proposals, x);
      }
      if x in TableOf(proposals) {
        assert TableOf(proposals)[x] in Occupants(proposals, x);
      }
    }
  }

  // The proposals that a step ends.
  ghost function EndedBy(s: State, step: Step): set<nat> {
    set q | q in s.proposals && Ends(s, step, q)
  }

  // One step of the abstract table.
  ghost predicate TableStep(s: State, step: Step, before: Table, after: Table) {
    if step.Propose? && KeysOk(s, step) && Exec(s, step).1 == Done then
      var ids := set x | x in DedupPositive(step.req.offers) + DedupPositive(step.req.targets);
      ids !! before.Keys && after == Acquire(before, ids, step.id)
    else
      after == Release(before, EndedBy(s, step))
  }

  /** Refinement: opening a proposal takes its products all at once, and only when all are free; ending one
      releases exactly its products; a counter-offer, a refused call and every other transaction leave
      the table alone. */
  lemma StepsTheTable(s: State, step: Step)
    requires Inv(s)
    ensures TableStep(s, step, TableOf(s.proposals), TableOf(Apply(s, step).proposals))
  {
    if step.Propose? && KeysOk(s, step) && Exec(s, step).1 == Done {
      ProposeTakes(s, step);
    } else {
      StepKeepsOrEnds(s, step);
      StepKeepsInv(s, step);
      hide Apply, Ends, RowOk, LedgerOk, CreditOk, ReviewsOk, OrdersOk, Exclusive;
      KeepsReleases(s, step, Apply(s, step));
      hide TableOf;
    }
  }

  lemma KeepsReleases(s: State, step: Step, t: State)
    requires Exclusive(s.proposals) && Exclusive(t.proposals) && Keeps(s, step, t)
    ensures TableOf(t.proposals) == Release(TableOf(s.proposals), EndedBy(s, step))
  {
    var ended := EndedBy(s, step);
    var after := Release(TableOf(s.proposals), ended);
    KeepsOccupants(s, step, t);
    hide Ends, Exclusive, Occupants, Keeps, EndedBy;
    forall q, x ensures q in Occupants(t.proposals, x) <==> x in after && after[x] == q {
      assert q in Occupants(t.proposals, x) <==> q in Occupants(s.proposals, x) && q !in ended;
      BusyCountReadsTable(s.proposals, x);
    }
    TableIs(t.proposals, after);
  }

  lemma KeepsOccupants(s: State, step: Step, t: State)
    requires Keeps(s, step, t)
    ensures forall x :: Occupants(t.proposals, x) == Occupants(s.proposals, x) - EndedBy(s, step)
  {
    hide Ends, ProductIds;
  }

  // Every active row stays active with the same products unless the step ends it.
  ghost predicate Keeps(s: State, step: Step, t: State) {
    && t.proposals.Keys == s.proposals.Keys
    && forall q :: q in s.proposals ==>
         && ProductIds(t.proposals[q]) == ProductIds(s.proposals[q])
         && (IsActive(t.proposals[q].status) <==> IsActive(s.proposals[q].status) && !Ends(s, step, q))
  }

  lemma StepKeepsOrEnds(s: State, step: Step)
    requires Inv(s)
    requires !(step.Propose? && KeysOk(s, step) && Exec(s, step).1 == Done)
    ensures Keeps(s, step, Apply(s, step))
  {
    hide Apply, Ends, Exec, Inv, KeysOk;
    SameKeys(s, step);
    forall q | q in s.proposals
      ensures ProductIds(Apply(s, step).proposals[q]) == ProductIds(s.proposals[q])
      ensures IsActive(Apply(s, step).proposals[q].status) <==> IsActive(s.proposals[q].status) && !Ends(s, step, q)
    {
      StepKeepsDeal(s, step, q);
      StepEnds(s, step, q);
    }
  }

  lemma StepKeepsDeal(s: State, step: Step, q: nat)
    requires Inv(s) && q in s.proposals
    ensures q in Apply(s, step).proposals && SameDeal(s.proposals[q], Apply(s, step).proposals[q])
  {
    hide Apply, Inv, RowOk;
    StepAdvances(s, step);
  }

  lemma SameKeys(s: State, step: Step)
    requires Inv(s)
    requires !(step.Propose? && KeysOk(s, step) && Exec(s, step).1 == Done)
    ensures Apply(s, step).proposals.Keys == s.proposals.Keys
  {
    hide ActTx, SettleTx, RowsOk, LedgerOk, CreditOk, ReviewsOk, OrdersOk, ItemsExist, Exclusive;
    match step
    case Propose(id, user, req, now, wall) => hide ValidateItems, DedupPositive, AnyBusy, Overlap, BuildItems;
    case Act(user, pid, call, now, wall) => ActAdvances(s, user, pid, call, now, wall);
    case Settle(ids, now) => SettleAdvances(s, ids, now);
    case _ => PlainTables(s, step);
  }

  lemma ProposeInserts(s: State, id: nat, offeror: nat, req: Request, now: int, wall: int)
    requires SellersOk(s) && id !in s.proposals
    requires ProposeTx(s, id, offeror, req, now, wall).1 == Done
    ensures var t := ProposeTx(s, id, offeror, req, now, wall).0;
            var ids := set x | x in DedupPositive(req.offers) + DedupPositive(req.targets);
            && id in t.proposals && t.proposals == s.proposals[id := t.proposals[id]]
            && IsActive(t.proposals[id].status) && ProductIds(t.proposals[id]) == ids
            && forall x :: x in ids ==> Occupants(s.proposals, x) == {}
  {
    ProposeEffect(s, id, offeror, req, now, wall);
    hide ProposeTx, RowOk;
  }

  lemma ProposeTakes(s: State, step: Step)
    requires Inv(s) && step.Propose? && KeysOk(s, step) && Exec(s, step).1 == Done
    ensures TableStep(s, step, TableOf(s.proposals), TableOf(Apply(s, step).proposals))
  {
    hide RowOk, LedgerOk, CreditOk, ReviewsOk, OrdersOk, Exclusive, ItemsExist, SellersOk, ProposeTx, TableOf;
    var ids := set x | x in DedupPositive(step.req.offers) + DedupPositive(step.req.targets);
    ProposeInserts(s, step.id, step.user, step.req, step.now, step.wall);
    StepKeepsInv(s, step);
    InsertAcquires(s.proposals, step.id, Apply(s, step).proposals[step.id], ids);
  }

  lemma InsertAcquires(proposals: map<nat, Proposal>, id: nat, p: Proposal, ids: set<nat>)
    requires Exclusive(proposals) && Exclusive(proposals[id := p])
    requires id !in proposals && IsActive(p.status) && ProductIds(p) == ids
    requires forall x :: x in ids ==> Occupants(proposals, x) == {}
    ensures ids !! TableOf(proposals).Keys
    ensures TableOf(proposals[id := p]) == Acquire(TableOf(proposals), ids, id)
  {
    hide Exclusive;
    var before := TableOf(proposals);
    forall x | x in ids ensures x !in before {
      BusyCountReadsTable(proposals, x);
    }
    var after := Acquire(before, ids, id);
    var next := proposals[id := p];
    forall q, x ensures q in Occupants(next, x) <==> x in after && after[x] == q {
      assert q in Occupants(next, x) <==> if q == id then x in ids else q in Occupants(proposals, x);
      BusyCountReadsTable(proposals, x);
    }
    TableIs(next, after);
  }

  /** Once a proposal is rejected, cancelled or expired, its products no longer stand in the way: a request that is
      in order otherwise succeeds when its products were free or belonged to the ended proposal. */
  lemma FreedProductsCanBeOffered(s: State, step: Step, q: nat, id: nat, offeror: nat, offeree: nat, req: Request, now: int, wall: int)
    requires Inv(s) && q in s.proposals && Ends(s, step, q)
    requires var t := Apply(s, step);
             var offers, targets := DedupPositive(req.offers), DedupPositive(req.targets);
             && offers != [] && targets != []
             && (forall x :: x in offers ==> x in t.products && t.products[x].seller == offeror && t.products[x].status == OnSale)
             && OneOwner(t.products, offeror, targets, offeree)
             && (forall x :: x in offers || x in targets ==>
                   x in ProductIds(s.proposals[q]) || Occupants(s.proposals, x) == {})
    ensures ProposeTx(Apply(s, step), id, offeror, req, now, wall).1 == Done
  {
    var t := Apply(s, step);
    var offers, targets := DedupPositive(req.offers), DedupPositive(req.targets);
    hide RowOk, LedgerOk, CreditOk, ReviewsOk, OrdersOk, ProposeTx, OneOwner;
    assert SellersOk(t) by { StepKeepsInv(s, step); }
    assert Keeps(s, step, t) by { StepKeepsOrEnds(s, step); }
    assert IsActive(s.proposals[q].status) by { StepEnds(s, step, q); }
    hide Apply, Ends, SellersOk;
    KeepsOccupants(s, step, t);
    hide Keeps;
    forall x | x in offers || x in targets ensures Occupants(t.proposals, x) == {} {
      if x in ProductIds(s.proposals[q]) {
        OnlyOccupant(s.proposals, q, x);
      }
    }
    hide Inv, Occupants, EndedBy;
    assert ProposeAccepted(t, offeror, req, offeree);
    ProposeIff(t, id, offeror, req, now, wall);
  }

  lemma OnlyOccupant(proposals: map<nat, Proposal>, q: nat, x: nat)
    requires Exclusive(proposals) && q in proposals && IsActive(proposals[q].status) && x in ProductIds(proposals[q])
    ensures Occupants(proposals, x) == {q}
  {
  }

  // ----- the list of proposals that wait for a user -----

  datatype ListRole = Initiator | Recipient | Either

  // The rows that a party's list, filtered by role and status, counts.
  ghost function ListByParty(proposals: map<nat, Proposal>, user: nat, role: ListRole, status: Option<Status>): set<nat> {
    set q | q in proposals
      && (match role
          case Initiator => proposals[q].offeror == user
          case Recipient => proposals[q].offeree == user
          case Either => proposals[q].offeror == user || proposals[q].offeree == user)
      && (status.Some? ==> proposals[q].status == status.value)
  }

  // Without a role a user's list is the initiated and the received proposals together, each once.
  lemma ListsSplit(proposals: map<nat, Proposal>, user: nat, status: Option<Status>)
    requires RowsOk(proposals)
    ensures var mine, theirs := ListByParty(proposals, user, Initiator, status), ListByParty(proposals, user, Recipient, status);
            ListByParty(proposals, user, Either, status) == mine + theirs && mine !! theirs
  {
    forall q | q in proposals ensures proposals[q].offeror != proposals[q].offeree {
      PartiesDiffer(proposals[q]);
    }
  }

  /** The two totals that the badge adds up, countered ones the user initiated and pending ones the user
      received, are together the number of active proposals whose turn is the user's. */
  lemma BadgeCountsTurns(proposals: map<nat, Proposal>, user: nat)
    requires RowsOk(proposals)
    ensures |ListByParty(proposals, user, Initiator, Some(Countered))| + |ListByParty(proposals, user, Recipient, Some(Pending))|
            == |set q | q in proposals && IsActive(proposals[q].status)
                        && user == if proposals[q].turn == Offeror then proposals[q].offeror else proposals[q].offeree|
  {
    hide RowOk;
    forall q | q in proposals
      ensures proposals[q].status == Pending ==> proposals[q].turn == Offeree
      ensures proposals[q].status == Countered ==> proposals[q].turn == Offeror
    {
      StatusFixesTurnAndRound(proposals[q]);
    }
    var a := ListByParty(proposals, user, Initiator, Some(Countered));
    var b := ListByParty(proposals, user, Recipient, Some(Pending));
    assert a !! b;
    assert |a + b| == |a| + |b|;
    assert a + b == set q | q in proposals && IsActive(proposals[q].status)
                        && user == if proposals[q].turn == Offeror then proposals[q].offeror else proposals[q].offeree;
  }
}
