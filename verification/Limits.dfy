/** Where the absence of deadlock ends: what overlapping active proposals would do to the locks. */
module Limits {
  import opened Entities
  import opened Negotiation
  import opened Transactions
  import opened Protocol
  import opened Safety
  import opened RowLocks
  import opened Interleaving

  // The acceptance by the entitled user, running with its proposal locked and read.
  ghost predicate Accepting(tx: Tx, db: State, pid: nat) {
    && tx.call.Act? && tx.call.proposal == pid && tx.call.call.AcceptCall? && tx.stage == 0 && tx.todo == []
    && pid in db.proposals && tx.view == EMPTY.(proposals := map[pid := db.proposals[pid]])
    && LoadForAction(db.proposals[pid], tx.call.user, Accept, tx.call.now).Go?
  }

  // The state after a transaction has taken the locks it asks for, up to one that another transaction holds.
  ghost function TakeAll(sys: Sys, tid: nat): Sys
    requires tid in sys.txs && forall i :: 0 <= i < |sys.txs[tid].todo| ==> Exists(sys.db, sys.txs[tid].todo[i])
    decreases if tid in sys.txs then |sys.txs[tid].todo| else 0
  {
    if sys.txs[tid].todo == [] || !Enabled(sys, Acquire(tid)) then sys else TakeAll(Fire(sys, Acquire(tid)), tid)
  }

  // The next statement of a transaction, with the locks that it can take.
  ghost predicate CanTakeNext(sys: Sys, tid: nat) {
    && Enabled(sys, Advance(tid))
    && forall i :: 0 <= i < |Fire(sys, Advance(tid)).txs[tid].todo| ==> Exists(sys.db, Fire(sys, Advance(tid)).txs[tid].todo[i])
  }

  ghost function TakeNext(sys: Sys, tid: nat): Sys
    requires CanTakeNext(sys, tid)
  {
    TakeAll(Fire(sys, Advance(tid)), tid)
  }

  /** Exclusive occupancy is what rules deadlock out. Were two active proposals to share a product, their acceptances could
      block each other when they run alone and the products of the first are on sale: the first locks its products
      and asks for the other's row, which its auto-close will write; the second holds that row and asks for the
      shared product. */
  lemma OverlapWouldDeadlock(sys: Sys, q: nat, r: nat)
    requires q != r && sys.txs.Keys == {1, 2}
    requires Accepting(sys.txs[1], sys.db, q) && Accepting(sys.txs[2], sys.db, r)
    requires ProductIds(sys.db.proposals[q]) <= sys.db.products.Keys
    requires ProductIds(sys.db.proposals[q]) * ProductIds(sys.db.proposals[r]) != {}
    requires forall x :: x in ProductIds(sys.db.proposals[q]) ==> sys.db.products[x].status == OnSale
    ensures CanTakeNext(sys, 1)
    ensures var locked := TakeNext(sys, 1);
            && CanTakeNext(locked, 1)
            && (var closing := TakeNext(locked, 1);
                && CanTakeNext(closing, 2)
                && (var stuck := TakeNext(closing, 2); WaitsFor(stuck, 1, 2) && WaitsFor(stuck, 2, 1)))
  {
    hide LoadForAction, ProductIds, CanTakeNext, TakeNext;
    var x :| x in ProductIds(sys.db.proposals[q]) * ProductIds(sys.db.proposals[r]);
    FirstTakesProducts(sys, q);
    var locked := TakeNext(sys, 1);
    FirstMeetsRival(locked, q, r);
    var closing := TakeNext(locked, 1);
    SecondMeetsProduct(closing, r, x);
  }

  // A transaction has taken some of the rows it asked for, with the values they have.
  ghost predicate Taken(sys: Sys, next: Sys, tid: nat)
    requires tid in sys.txs
  {
    && next.db == sys.db && next.txs.Keys == sys.txs.Keys
    && (forall u :: u in sys.txs && u != tid ==> next.txs[u] == sys.txs[u])
    && next.txs[tid].call == sys.txs[tid].call && next.txs[tid].stage == sys.txs[tid].stage
    && Agrees(sys.db, next.txs[tid].view)
    && (forall h :: Holds(sys.txs[tid], h) ==> Holds(next.txs[tid], h))
    && (forall h :: Holds(next.txs[tid], h) ==> Holds(sys.txs[tid], h) || h in sys.txs[tid].todo)
  }

  ghost predicate ReadyToTake(sys: Sys, tid: nat, other: nat) {
    && tid != other && sys.txs.Keys == {tid, other} && Agrees(sys.db, sys.txs[tid].view)
    && forall i :: 0 <= i < |sys.txs[tid].todo| ==> Exists(sys.db, sys.txs[tid].todo[i])
  }

  lemma TakesOne(sys: Sys, tid: nat, other: nat)
    requires ReadyToTake(sys, tid, other) && Enabled(sys, Acquire(tid))
    ensures var next := Fire(sys, Acquire(tid));
            && ReadyToTake(next, tid, other) && Taken(sys, next, tid)
            && next.txs[tid].todo == sys.txs[tid].todo[1..] && Holds(next.txs[tid], sys.txs[tid].todo[0])
  {
    hide Below;
    var r, view := sys.txs[tid].todo[0], sys.txs[tid].view;
    forall h ensures Exists(Grab(sys.db, view, r), h) <==> Exists(view, h) || h == r {
      GrabAdds(sys.db, view, r, h);
    }
    assert Agrees(sys.db, Grab(sys.db, view, r));
    hide Grab, Agrees, Exists;
  }

  // Without competition a transaction takes all the rows it asks for; otherwise it stops at a row that the other holds.
  lemma {:induction false} TakesOrWaits(sys: Sys, tid: nat, other: nat)
    requires ReadyToTake(sys, tid, other)
    ensures var t := TakeAll(sys, tid);
            && Taken(sys, t, tid)
            && (if forall r :: r in sys.txs[tid].todo ==> !Holds(sys.txs[other], r)
                then t.txs[tid].todo == [] && forall r :: r in sys.txs[tid].todo ==> Holds(t.txs[tid], r)
                else WaitsFor(t, tid, other))
    decreases |sys.txs[tid].todo|
  {
    hide Grab, Exists, Agrees;
    var todo := sys.txs[tid].todo;
    if todo != [] {
      assert todo == [todo[0]] + todo[1..];
      assert Enabled(sys, Acquire(tid)) <==> !Holds(sys.txs[other], todo[0]);
      if Enabled(sys, Acquire(tid)) {
        var next := Fire(sys, Acquire(tid));
        TakesOne(sys, tid, other);
        hide Fire, Enabled;
        TakesOrWaits(next, tid, other);
        assert forall r :: r in todo <==> r == todo[0] || r in todo[1..];
      }
    }
  }

  // What a transaction comes to when it runs its next statement, which asks for `rows`.
  ghost predicate Came(sys: Sys, t: Sys, tid: nat, other: nat, rows: seq<Row>)
    requires tid in sys.txs && other in sys.txs
  {
    && t.db == sys.db && t.txs.Keys == sys.txs.Keys && t.txs[other] == sys.txs[other]
    && t.txs[tid].call == sys.txs[tid].call && t.txs[tid].stage == sys.txs[tid].stage + 1
    && Agrees(sys.db, t.txs[tid].view)
    && (forall h :: Holds(sys.txs[tid], h) ==> Holds(t.txs[tid], h))
    && (forall h :: Holds(t.txs[tid], h) ==> Holds(sys.txs[tid], h) || h in rows)
    && (if forall r :: r in rows ==> !Holds(sys.txs[other], r)
        then t.txs[tid].todo == [] && forall r :: r in rows ==> Holds(t.txs[tid], r)
        else WaitsFor(t, tid, other))
  }

  lemma ComesTo(sys: Sys, tid: nat, other: nat, rows: seq<Row>)
    requires tid != other && sys.txs.Keys == {tid, other} && sys.txs[tid].todo == [] && Agrees(sys.db, sys.txs[tid].view)
    requires CanAdvance(sys.db, sys.txs[tid]) && NextLocks(sys.db, sys.txs[tid]) == rows
    requires forall i :: 0 <= i < |rows| ==> Exists(sys.db, rows[i])
    ensures CanTakeNext(sys, tid) && Came(sys, TakeNext(sys, tid), tid, other, rows)
  {
    hide CanAdvance, NextLocks, Agrees, Exists, TakeAll;
    var s1 := Fire(sys, Advance(tid));
    assert s1.txs[tid].view == sys.txs[tid].view && s1.txs[tid].todo == rows;
    assert forall h :: Holds(s1.txs[tid], h) == Holds(sys.txs[tid], h);
    TakesOrWaits(s1, tid, other);
    hide Holds;
  }

  // The first acceptance once its products are locked.
  ghost predicate Locked(sys: Sys, q: nat) {
    && sys.txs.Keys == {1, 2}
    && (var tx := sys.txs[1];
        && tx.call.Act? && tx.call.proposal == q && tx.call.call.AcceptCall? && tx.stage == 1 && tx.todo == []
        && Agrees(sys.db, tx.view) && q in tx.view.proposals
        && LoadForAction(tx.view.proposals[q], tx.call.user, Accept, tx.call.now).Go?
        && (forall x :: x in ProductIds(tx.view.proposals[q]) ==> x in tx.view.products)
        && (forall x :: x in tx.view.products ==> tx.view.products[x].status == OnSale))
  }

  lemma FirstTakesProducts(sys: Sys, q: nat)
    requires sys.txs.Keys == {1, 2} && Accepting(sys.txs[1], sys.db, q) && sys.txs[2].view.products == map[]
    requires ProductIds(sys.db.proposals[q]) <= sys.db.products.Keys
    requires forall x :: x in ProductIds(sys.db.proposals[q]) ==> sys.db.products[x].status == OnSale
    ensures CanTakeNext(sys, 1)
    ensures var t := TakeNext(sys, 1); t.db == sys.db && t.txs.Keys == {1, 2} && t.txs[2] == sys.txs[2] && Locked(t, q)
  {
    var ids := ProductIds(sys.db.proposals[q]);
    hide LoadForAction, ProductIds, TakeNext, CanTakeNext;
    assert ids * sys.db.products.Keys == ids;
    ProductRowsOk(ids);
    hide ProductRows, Below;
    ComesTo(sys, 1, 2, ProductRows(ids));
    hide CanAdvance, NextLocks;
    LockedAll(sys, TakeNext(sys, 1), q, ProductRows(ids));
  }

  lemma LockedAll(sys: Sys, t: Sys, q: nat, rows: seq<Row>)
    requires sys.txs.Keys == {1, 2} && Accepting(sys.txs[1], sys.db, q) && sys.txs[2].view.products == map[]
    requires forall x :: x in ProductIds(sys.db.proposals[q]) ==> x in sys.db.products && sys.db.products[x].status == OnSale
    requires forall i :: 0 <= i < |rows| ==> rows[i].ProductRow? && rows[i].id in ProductIds(sys.db.proposals[q])
    requires forall x :: x in ProductIds(sys.db.proposals[q]) ==> ProductRow(x) in rows
    requires Came(sys, t, 1, 2, rows)
    ensures Locked(t, q)
  {
    hide LoadForAction, ProductIds;
    assert forall r :: r in rows ==> !Holds(sys.txs[2], r);
    assert Holds(sys.txs[1], ProposalRow(q));
    forall x | x in ProductIds(sys.db.proposals[q]) ensures x in t.txs[1].view.products {
      assert Holds(t.txs[1], ProductRow(x));
    }
    forall x | x in t.txs[1].view.products ensures x in ProductIds(sys.db.proposals[q]) {
      assert Holds(t.txs[1], ProductRow(x));
    }
  }

  lemma OverlapIsRival(proposals: map<nat, Proposal>, q: nat, r: nat, user: nat, now: int)
    requires q != r && q in proposals && r in proposals && LoadForAction(proposals[r], user, Accept, now).Go?
    requires ProductIds(proposals[q]) * ProductIds(proposals[r]) != {}
    ensures r in Rivals(proposals, ProductIds(proposals[q]), q)
  {
    var a, b := ProductIds(proposals[q]), ProductIds(proposals[r]);
    assert b * a == a * b;
  }

  lemma FirstMeetsRival(sys: Sys, q: nat, r: nat)
    requires q != r && Locked(sys, q) && Accepting(sys.txs[2], sys.db, r)
    requires ProductIds(sys.db.proposals[q]) * ProductIds(sys.db.proposals[r]) != {}
    ensures CanTakeNext(sys, 1)
    ensures var t := TakeNext(sys, 1);
            && t.db == sys.db && t.txs.Keys == {1, 2} && t.txs[2] == sys.txs[2] && WaitsFor(t, 1, 2)
            && forall h :: Holds(sys.txs[1], h) ==> Holds(t.txs[1], h)
  {
    var rivals := Rivals(sys.db.proposals, ProductIds(sys.db.proposals[q]), q);
    assert r in rivals by { OverlapIsRival(sys.db.proposals, q, r, sys.txs[2].call.user, sys.txs[2].call.now); }
    assert rivals <= sys.db.proposals.Keys;
    hide LoadForAction, ProductIds, TakeNext, CanTakeNext, Rivals;
    ProposalRowsOk(rivals);
    hide ProposalRows, Below;
    ComesTo(sys, 1, 2, ProposalRows(rivals));
    hide CanAdvance, NextLocks;
    assert ProposalRow(r) in ProposalRows(rivals) && Holds(sys.txs[2], ProposalRow(r));
  }

  lemma SecondMeetsProduct(sys: Sys, r: nat, x: nat)
    requires sys.txs.Keys == {1, 2} && Accepting(sys.txs[2], sys.db, r) && WaitsFor(sys, 1, 2)
    requires x in ProductIds(sys.db.proposals[r]) && x in sys.db.products && Holds(sys.txs[1], ProductRow(x))
    ensures CanTakeNext(sys, 2)
    ensures var t := TakeNext(sys, 2); WaitsFor(t, 1, 2) && WaitsFor(t, 2, 1)
  {
    var ids := ProductIds(sys.db.proposals[r]) * sys.db.products.Keys;
    assert x in ids && ids <= sys.db.products.Keys;
    hide LoadForAction, ProductIds, TakeNext, CanTakeNext, Rivals, ProductRows, ProposalRows, Below, Came;
    ProductRowsOk(ids);
    ComesTo(sys, 2, 1, ProductRows(ids));
    hide CanAdvance, NextLocks, Accepting, Agrees;
    StillWait(sys, TakeNext(sys, 2), ProductRows(ids), ProductRow(x));
  }

  lemma StillWait(sys: Sys, t: Sys, rows: seq<Row>, r: Row)
    requires sys.txs.Keys == {1, 2} && WaitsFor(sys, 1, 2) && Came(sys, t, 2, 1, rows)
    requires r in rows && Holds(sys.txs[1], r)
    ensures WaitsFor(t, 1, 2) && WaitsFor(t, 2, 1)
  {
    hide Holds, Agrees;
  }
}
