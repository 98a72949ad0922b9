/** Every interleaving of row-locking transactions is a run of the atomic protocol, in the order of the
    commits, and none of them can deadlock. */
module Interleaving {
  import opened Entities
  import opened Negotiation
  import opened Transactions
  import opened Protocol
  import opened Safety
  import opened ExchangeLaws
  import opened Occupancy
  import opened RowLocks

  // ----- what a step of another client leaves to a transaction -----

  ghost predicate Stable(db: State, after: State, tx: Tx) {
    && Spared(db, after, tx.view)
    && (forall x :: x in tx.view.products ==> Occupants(after.proposals, x) <= Occupants(db.proposals, x))
  }

  lemma StableKeeps(db: State, after: State, tx: Tx)
    requires TxOk(db, tx) && Stable(db, after, tx)
    ensures TxOk(after, tx)
  {
    hide Occupants, LoadForAction;
    assert InOrder(after, tx);
    assert Agrees(after, tx.view);
  }

  // A program writes rows that it read and at most one fresh row.
  lemma WritesItsView(s: State, call: Step)
    requires !IsSingle(call)
    ensures var w := Exec(s, call).0;
            && w.products.Keys <= s.products.Keys
            && w.proposals.Keys <= s.proposals.Keys + (if call.Propose? then {call.id} else {})
            && w.orders.Keys <= s.orders.Keys + (if call.PlaceOrder? then {call.id} else {})
  {
    hide LoadForAction, ValidateItems, DedupPositive, BuildItems, Rivals, AnyBusy, Overlap;
    match call
    case Propose(_, _, _, _, _) =>
    case Act(_, _, _, _, _) =>
    case Settle(_, _) =>
    case _ =>
  }

  // Which products gain an occupant.
  lemma OccupantsAfter(s: State, step: Step, x: nat)
    requires Inv(s) && KeysOk(s, step)
    requires step.Propose? && Exec(s, step).1 == Done ==>
               x !in DedupPositive(step.req.offers) && x !in DedupPositive(step.req.targets)
    ensures Occupants(Apply(s, step).proposals, x) <= Occupants(s.proposals, x)
  {
    if step.Propose? && Exec(s, step).1 == Done {
      ProposeInserts(s, step.id, step.user, step.req, step.now, step.wall);
      hide ProposeTx, Inv;
    } else {
      StepKeepsOrEnds(s, step);
      hide Apply, Inv, Exec;
    }
  }

  lemma CommitIsStable(sys: Sys, tid: nat, u: nat)
    requires SysInv(sys) && Enabled(sys, Commit(tid)) && u in sys.txs && u != tid
    ensures Stable(sys.db, Fire(sys, Commit(tid)).db, sys.txs[u])
  {
    CommitRows(sys, tid, u);
    CommitOccupants(sys, tid, u);
    hide Fire, SysInv, Enabled, Occupants, Spared;
  }

  lemma CommitOccupants(sys: Sys, tid: nat, u: nat)
    requires SysInv(sys) && Enabled(sys, Commit(tid)) && u in sys.txs && u != tid
    ensures forall x :: x in sys.txs[u].view.products ==>
              Occupants(Fire(sys, Commit(tid)).db.proposals, x) <= Occupants(sys.db.proposals, x)
  {
    hide TxOk, SysInv, Exec, Fire, Inv, Occupants, Apply, Holds, LocksExclusive, Succeeds;
    var tx, other := sys.txs[tid], sys.txs[u];
    CommitIsAtomic(sys, tid);
    ProposedAreHeld(sys, tid);
    OthersHold(sys, tid, u);
    SysInvDb(sys);
    assert KeysOk(sys.db, tx.call);
    hide Enabled;
    forall x | x in other.view.products
      ensures Occupants(Apply(sys.db, tx.call).proposals, x) <= Occupants(sys.db.proposals, x)
    {
      OccupantsAfter(sys.db, tx.call, x);
    }
  }

  lemma OthersHold(sys: Sys, tid: nat, u: nat)
    requires SysInv(sys) && tid in sys.txs && u in sys.txs && u != tid
    ensures forall x :: x in sys.txs[u].view.products ==> !Holds(sys.txs[tid], ProductRow(x))
  {
    hide Inv, TxOk;
    assert forall x :: x in sys.txs[u].view.products ==> Holds(sys.txs[u], ProductRow(x));
  }

  lemma SysInvDb(sys: Sys)
    requires SysInv(sys)
    ensures Inv(sys.db)
  {
  }

  // The products of an opened proposal are locked by its transaction.
  lemma ProposedAreHeld(sys: Sys, tid: nat)
    requires SysInv(sys) && Enabled(sys, Commit(tid))
    ensures var tx := sys.txs[tid];
            tx.call.Propose? ==>
              forall x :: x in DedupPositive(tx.call.req.offers) || x in DedupPositive(tx.call.req.targets) ==> Holds(tx, ProductRow(x))
  {
    hide Inv, LocksExclusive;
    var tx := sys.txs[tid];
    if tx.call.Propose? {
      ValidItemsExist(tx.view.products, tx.call.user, DedupPositive(tx.call.req.offers), DedupPositive(tx.call.req.targets));
    }
  }

  lemma MergeMisses<V>(m: map<nat, V>, w: map<nat, V>, view: map<nat, V>)
    requires forall k :: k in view && k in m ==> k !in w
    ensures m.Keys <= (m + w).Keys
    ensures forall k :: k in view && k in m ==> (m + w)[k] == m[k]
  {
  }

  // Two transactions never hold the same row.
  lemma ViewsDisjoint(sys: Sys, t: nat, u: nat)
    requires LocksExclusive(sys) && t in sys.txs && u in sys.txs && t != u
    ensures var a, b := sys.txs[t].view, sys.txs[u].view;
            a.products.Keys !! b.products.Keys && a.proposals.Keys !! b.proposals.Keys && a.orders.Keys !! b.orders.Keys
  {
    var a, b := sys.txs[t], sys.txs[u];
    assert forall x :: x in a.view.products ==> Holds(a, ProductRow(x)) && !Holds(b, ProductRow(x));
    assert forall q :: q in a.view.proposals ==> Holds(a, ProposalRow(q)) && !Holds(b, ProposalRow(q));
    assert forall o :: o in a.view.orders ==> Holds(a, OrderRow(o)) && !Holds(b, OrderRow(o));
  }

  lemma MergeSpares(db: State, w: State, mine: State, view: State, call: Step)
    requires KeysOk(db, call)
    requires mine.products.Keys !! view.products.Keys && mine.proposals.Keys !! view.proposals.Keys
    requires mine.orders.Keys !! view.orders.Keys
    requires w.products.Keys <= mine.products.Keys
    requires w.proposals.Keys <= mine.proposals.Keys + (if call.Propose? then {call.id} else {})
    requires w.orders.Keys <= mine.orders.Keys + (if call.PlaceOrder? then {call.id} else {})
    ensures Spared(db, Merge(db, w), view)
  {
    MergeMisses(db.products, w.products, view.products);
    MergeMisses(db.proposals, w.proposals, view.proposals);
    MergeMisses(db.orders, w.orders, view.orders);
  }

  // The rows of a view are not written, and no row disappears.
  ghost predicate Spared(db: State, after: State, view: State) {
    && db.products.Keys <= after.products.Keys && db.proposals.Keys <= after.proposals.Keys
    && db.orders.Keys <= after.orders.Keys
    && (forall x :: x in view.products && x in db.products ==> after.products[x] == db.products[x])
    && (forall q :: q in view.proposals && q in db.proposals ==> after.proposals[q] == db.proposals[q])
    && (forall o :: o in view.orders && o in db.orders ==> after.orders[o] == db.orders[o])
  }

  lemma CommitRows(sys: Sys, tid: nat, u: nat)
    requires SysInv(sys) && Enabled(sys, Commit(tid)) && u in sys.txs && u != tid
    ensures Spared(sys.db, Fire(sys, Commit(tid)).db, sys.txs[u].view)
  {
    hide Inv, Succeeds, Exec, InOrder, WantsOk, Agrees, ScriptOk, Spared, Merge;
    var tx := sys.txs[tid];
    ScriptIsProgram(sys.db, tx);
    WritesItsView(tx.view, tx.call);
    ViewsDisjoint(sys, tid, u);
    MergeSpares(sys.db, Exec(tx.view, tx.call).0, tx.view, sys.txs[u].view, tx.call);
  }

  lemma SingleIsStable(sys: Sys, step: Step, u: nat)
    requires SysInv(sys) && Enabled(sys, Single(step)) && u in sys.txs
    ensures Stable(sys.db, Apply(sys.db, step), sys.txs[u])
  {
    hide Inv, TxOk, LocksExclusive, Occupants;
    var other := sys.txs[u];
    if step.Edit? || step.TakeOff? {
      assert Touches(step, ProductRow(step.product)) && !Holds(other, ProductRow(step.product));
    }
  }

  // ----- each micro-step keeps the invariant -----

  lemma ProductRowsOk(ids: set<nat>)
    ensures var rows := ProductRows(ids);
            && (forall i :: 0 <= i < |rows| ==> rows[i].ProductRow? && rows[i].id in ids)
            && (forall x :: x in ids ==> ProductRow(x) in rows)
            && (forall i, j :: 0 <= i < j < |rows| ==> Below(rows[i], rows[j]))
  {
    AscendingSorts(ids);
    var s := Ascending(ids);
    forall x | x in ids ensures ProductRow(x) in ProductRows(ids) {
      var i :| 0 <= i < |s| && s[i] == x;
      assert ProductRows(ids)[i] == ProductRow(x);
    }
  }

  lemma ProposalRowsOk(ids: set<nat>)
    ensures var rows := ProposalRows(ids);
            && (forall i :: 0 <= i < |rows| ==> rows[i].ProposalRow? && rows[i].id in ids)
            && (forall i, j :: 0 <= i < j < |rows| ==> Below(rows[i], rows[j]))
            && (forall q :: q in ids ==> ProposalRow(q) in rows)
            && (ids == {} ==> rows == [])
  {
    AscendingSorts(ids);
    var s := Ascending(ids);
    forall q | q in ids ensures ProposalRow(q) in ProposalRows(ids) {
      var i :| 0 <= i < |s| && s[i] == q;
      assert ProposalRows(ids)[i] == ProposalRow(q);
    }
  }

  lemma BeginKeeps(db: State, call: Step)
    requires IsProgram(call)
    ensures var stage := if call.Settle? && call.ids != {} then 1 else 0;
            TxOk(db, Tx(call, stage, FirstLocks(db, call), EMPTY))
  {
    match call
    case Propose(_, _, _, _, _) => BeginPropose(db, call);
    case Act(_, _, _, _, _) => BeginProposal(db, call);
    case Settle(_, _) => BeginProposal(db, call);
    case _ => BeginOrder(db, call);
  }

  lemma BeginPropose(db: State, call: Step)
    requires call.Propose?
    ensures TxOk(db, Tx(call, 0, FirstLocks(db, call), EMPTY))
  {
    hide DedupPositive, ProductRows, Below;
    ProductRowsOk((set x | x in DedupPositive(call.req.offers) + DedupPositive(call.req.targets)) * db.products.Keys);
  }

  lemma BeginProposal(db: State, call: Step)
    requires call.Act? || call.Settle?
    ensures var stage := if call.Settle? && call.ids != {} then 1 else 0;
            TxOk(db, Tx(call, stage, FirstLocks(db, call), EMPTY))
  {
    hide ProposalRows, Below, LoadForAction;
    ProposalRowsOk((if call.Act? then {call.proposal} else call.ids) * db.proposals.Keys);
  }

  lemma BeginOrder(db: State, call: Step)
    requires call.PlaceOrder? || call.MoveOrder? || call.CancelOrder?
    ensures TxOk(db, Tx(call, 0, FirstLocks(db, call), EMPTY))
  {
    hide ProductRows, Below;
    if call.PlaceOrder? {
      ProductRowsOk({call.product} * db.products.Keys);
    }
  }

  lemma AcquireKeeps(db: State, tx: Tx)
    requires TxOk(db, tx) && tx.todo != []
    ensures TxOk(db, tx.(todo := tx.todo[1..], view := Grab(db, tx.view, tx.todo[0])))
  {
    var next := tx.(todo := tx.todo[1..], view := Grab(db, tx.view, tx.todo[0]));
    AcquireKeepsOrder(db, tx);
    AcquireKeepsScript(db, tx);
    hide ScriptOk, InOrder, Agrees;
  }

  lemma AcquireKeepsOrder(db: State, tx: Tx)
    requires Agrees(db, tx.view) && InOrder(db, tx) && tx.todo != []
    ensures var next := tx.(todo := tx.todo[1..], view := Grab(db, tx.view, tx.todo[0]));
            Agrees(db, next.view) && InOrder(db, next)
  {
    var next := tx.(todo := tx.todo[1..], view := Grab(db, tx.view, tx.todo[0]));
    forall r ensures Holds(next, r) <==> Holds(tx, r) || r == tx.todo[0] {
      GrabAdds(db, tx.view, tx.todo[0], r);
    }
    assert Agrees(db, next.view);
    hide Grab, Agrees, Exists;
  }

  lemma AcquireKeepsScript(db: State, tx: Tx)
    requires InOrder(db, tx) && WantsOk(tx) && ScriptOk(db, tx) && tx.todo != []
    ensures ScriptOk(db, tx.(todo := tx.todo[1..], view := Grab(db, tx.view, tx.todo[0])))
  {
    hide LoadForAction, Occupants, Below;
    var next := tx.(todo := tx.todo[1..], view := Grab(db, tx.view, tx.todo[0]));
    assert tx.todo == [tx.todo[0]] + tx.todo[1..];
    assert forall x :: Covered(tx, x) ==> Covered(next, x);
  }

  lemma AdvanceKeeps(db: State, tx: Tx)
    requires Exclusive(db.proposals) && ItemsExist(db)
    requires TxOk(db, tx) && tx.todo == [] && CanAdvance(db, tx)
    ensures TxOk(db, tx.(stage := tx.stage + 1, todo := NextLocks(db, tx)))
  {
    match tx.call
    case Propose(_, _, req, _, _) => AdvancePropose(db, tx);
    case Act(_, pid, _, _, _) => AdvanceAccept(db, tx);
    case CancelOrder(_, id, _) =>
      ProductRowsOk({tx.view.orders[id].product} * db.products.Keys);
  }

  lemma AdvancePropose(db: State, tx: Tx)
    requires TxOk(db, tx) && tx.todo == [] && tx.call.Propose? && CanAdvance(db, tx)
    ensures TxOk(db, tx.(stage := tx.stage + 1, todo := []))
  {
  }

  lemma AdvanceAccept(db: State, tx: Tx)
    requires Exclusive(db.proposals) && ItemsExist(db)
    requires TxOk(db, tx) && tx.todo == [] && tx.call.Act? && CanAdvance(db, tx)
    ensures TxOk(db, tx.(stage := tx.stage + 1, todo := NextLocks(db, tx)))
  {
    var pid := tx.call.proposal;
    var ids := ProductIds(tx.view.proposals[pid]);
    if tx.stage == 0 {
      ProductRowsOk(ids * db.products.Keys);
    } else {
      NoRivals(db.proposals, pid);
      ProposalRowsOk({});
    }
  }

  // Replacing or adding one transaction whose new locks are free.
  lemma OneTxChanges(sys: Sys, tid: nat, tx: Tx)
    requires SysInv(sys) && TxOk(sys.db, tx)
    requires forall r, u :: u in sys.txs && u != tid && Holds(tx, r) ==> !Holds(sys.txs[u], r)
    ensures SysInv(sys.(txs := sys.txs[tid := tx]))
  {
    hide Inv, TxOk, Holds;
  }

  lemma TxLeaves(sys: Sys, db: State, tid: nat)
    requires LocksExclusive(sys) && Inv(db)
    requires forall u :: u in sys.txs && u != tid ==> TxOk(db, sys.txs[u])
    ensures SysInv(Sys(db, sys.txs - {tid}))
  {
    hide Inv, TxOk, Holds;
  }

  lemma BeginStep(sys: Sys, m: Micro)
    requires SysInv(sys) && Enabled(sys, m) && m.Begin?
    ensures SysInv(Fire(sys, m))
  {
    BeginKeeps(sys.db, m.call);
    hide FirstLocks, TxOk, SysInv, IsProgram;
    OneTxChanges(sys, m.tid, Fire(sys, m).txs[m.tid]);
  }

  lemma GrabAdds(db: State, view: State, r: Row, h: Row)
    requires Exists(db, r)
    ensures Exists(Grab(db, view, r), h) <==> Exists(view, h) || h == r
  {
  }

  lemma AcquireStep(sys: Sys, m: Micro)
    requires SysInv(sys) && Enabled(sys, m) && m.Acquire?
    ensures SysInv(Fire(sys, m))
  {
    hide Inv, TxOk, Grab;
    var tx := sys.txs[m.tid];
    AcquireKeeps(sys.db, tx);
    var next := Fire(sys, m).txs[m.tid];
    forall r, u | u in sys.txs && u != m.tid && Holds(next, r) ensures !Holds(sys.txs[u], r) {
      GrabAdds(sys.db, tx.view, tx.todo[0], r);
      assert Holds(tx, r) || r == tx.todo[0];
    }
    hide SysInv;
    OneTxChanges(sys, m.tid, next);
  }

  lemma SkipLockedKeeps(db: State, tx: Tx, ids: set<nat>)
    requires tx.call.Settle? && tx.todo == [] && ids <= db.proposals.Keys
    ensures TxOk(db, tx.(stage := 1, call := Step.Settle(ids, tx.call.now), view := EMPTY.(proposals := Rows(db.proposals, ids))))
  {
  }

  lemma SkipLockedStep(sys: Sys, m: Micro)
    requires SysInv(sys) && Enabled(sys, m) && m.SkipLocked?
    ensures SysInv(Fire(sys, m))
  {
    hide SysInv, TxOk, IsDue;
    SkipLockedKeeps(sys.db, sys.txs[m.tid], m.ids);
    var next := Fire(sys, m).txs[m.tid];
    forall r, u | u in sys.txs && u != m.tid && Holds(next, r) ensures !Holds(sys.txs[u], r) {
      assert r == ProposalRow(r.id) && r.id in m.ids && r.id !in LockedProposals(sys);
    }
    OneTxChanges(sys, m.tid, next);
  }

  lemma AdvanceStep(sys: Sys, m: Micro)
    requires SysInv(sys) && Enabled(sys, m) && m.Advance?
    ensures SysInv(Fire(sys, m))
  {
    hide TxOk, Inv, CanAdvance, NextLocks, RowOk;
    SysInvDb(sys);
    UnfoldInv(sys.db);
    var tx := sys.txs[m.tid];
    AdvanceKeeps(sys.db, tx);
    var next := Fire(sys, m).txs[m.tid];
    assert next.view == tx.view;
    forall r, u | u in sys.txs && u != m.tid && Holds(next, r) ensures !Holds(sys.txs[u], r) {
      assert Holds(tx, r);
    }
    hide SysInv;
    OneTxChanges(sys, m.tid, next);
  }

  lemma CommitStep(sys: Sys, m: Micro)
    requires SysInv(sys) && Enabled(sys, m) && m.Commit?
    ensures SysInv(Fire(sys, m))
  {
    hide Inv, RowOk, TxOk, Stable, Apply, Exec, Succeeds;
    CommitIsAtomic(sys, m.tid);
    SysInvDb(sys);
    StepKeepsInv(sys.db, sys.txs[m.tid].call);
    var after := Fire(sys, m).db;
    assert Fire(sys, m) == Sys(after, sys.txs - {m.tid});
    hide Fire;
    forall u | u in sys.txs && u != m.tid ensures TxOk(after, sys.txs[u]) {
      CommitIsStable(sys, m.tid, u);
      StableKeeps(sys.db, after, sys.txs[u]);
    }
    TxLeaves(sys, after, m.tid);
  }

  lemma SingleStep(sys: Sys, m: Micro)
    requires SysInv(sys) && Enabled(sys, m) && m.Single?
    ensures SysInv(Fire(sys, m))
  {
    StepKeepsInv(sys.db, m.step);
    var after := Apply(sys.db, m.step);
    hide Inv, TxOk, Stable, Apply;
    forall u | u in sys.txs ensures TxOk(after, sys.txs[u]) {
      SingleIsStable(sys, m.step, u);
      StableKeeps(sys.db, after, sys.txs[u]);
    }
  }

  lemma MicroKeeps(sys: Sys, m: Micro)
    requires SysInv(sys) && Enabled(sys, m)
    ensures SysInv(Fire(sys, m))
  {
    match m
    case Begin(_, _) => BeginStep(sys, m);
    case Acquire(_) => AcquireStep(sys, m);
    case SkipLocked(_, _) => SkipLockedStep(sys, m);
    case Advance(_) => AdvanceStep(sys, m);
    case Commit(_) => CommitStep(sys, m);
    case Single(_) => SingleStep(sys, m);
    case Rollback(tid) =>
      hide Inv, TxOk;
      TxLeaves(sys, sys.db, tid);
  }

  // ----- whole executions -----

  const INITIAL := Sys(EMPTY, map[])

  // A sequence of system states, each reached from the one before by an enabled micro-step.
  ghost predicate IsPath(states: seq<Sys>, micros: seq<Micro>) {
    && |states| == |micros| + 1
    && forall i :: 0 <= i < |micros| ==> Enabled(states[i], micros[i]) && states[i + 1] == Fire(states[i], micros[i])
  }

  ghost predicate IsExecution(states: seq<Sys>, micros: seq<Micro>) {
    IsPath(states, micros) && states[0] == INITIAL
  }

  // The transactions that were committed on a path, in the order of their commits.
  ghost function Committed(states: seq<Sys>, micros: seq<Micro>): seq<Step>
    requires IsPath(states, micros)
  {
    if micros == [] then []
    else
      var n := |micros| - 1;
      Committed(states[..n + 1], micros[..n]) + CommittedBy(states[n], micros[n])
  }

  ghost function CommittedBy(sys: Sys, m: Micro): seq<Step>
    requires Enabled(sys, m)
  {
    match m
    case Commit(tid) => [sys.txs[tid].call]
    case Single(step) => [step]
    case _ => []
  }

  /** Serializability: after any interleaving, the committed database is the one that the atomic
      transactions produce when they run one after another in commit order. */
  lemma {:induction false} ExecutionsAreSerializable(states: seq<Sys>, micros: seq<Micro>)
    requires IsExecution(states, micros)
    ensures SysInv(states[|micros|])
    ensures states[|micros|].db == Run(EMPTY, Committed(states, micros))
  {
    if micros == [] {
      assert Inv(EMPTY);
    } else {
      hide SysInv, Enabled, Fire, Apply;
      var n := |micros| - 1;
      ExecutionsAreSerializable(states[..n + 1], micros[..n]);
      MicroKeeps(states[n], micros[n]);
      MicroCommits(states[n], micros[n]);
      var done := Committed(states[..n + 1], micros[..n]);
      match micros[n]
      case Commit(tid) => OneStepMore(EMPTY, done, states[n].txs[tid].call);
      case Single(step) => OneStepMore(EMPTY, done, step);
      case _ => assert done + [] == done;
    }
  }

  // What a micro-step does to the committed database.
  lemma MicroCommits(sys: Sys, m: Micro)
    requires SysInv(sys) && Enabled(sys, m)
    ensures m.Commit? ==> m.tid in sys.txs
    ensures Fire(sys, m).db == match m
                               case Commit(tid) => Apply(sys.db, sys.txs[tid].call)
                               case Single(step) => Apply(sys.db, step)
                               case _ => sys.db
  {
    hide SysInv;
    if m.Commit? {
      CommitIsAtomic(sys, m.tid);
    }
  }

  /** So the guarantees of the atomic protocol hold in every committed state of every interleaving: each product is in
      at most one active proposal, none is committed twice, and every row is a legal negotiation. */
  lemma InterleavedIsSafe(states: seq<Sys>, micros: seq<Micro>)
    requires IsExecution(states, micros)
    ensures var db := states[|micros|].db;
            && (forall x :: |Occupants(db.proposals, x)| <= 1)
            && LedgerOk(db)
            && (forall q :: q in db.proposals ==> FairDeal(db.proposals[q]))
  {
    ExecutionsAreSerializable(states, micros);
    var db := states[|micros|].db;
    hide FairDeal, LedgerOk, RowOk;
    assert Inv(db);
    forall x ensures |Occupants(db.proposals, x)| <= 1 {
      AtMostOne(Occupants(db.proposals, x));
    }
    forall q | q in db.proposals ensures FairDeal(db.proposals[q]) {
      RowIsFair(db.proposals[q]);
    }
  }

  lemma AtMostOne(s: set<nat>)
    requires forall a, b :: a in s && b in s ==> a == b
    ensures |s| <= 1
  {
    if a :| a in s {
      assert s == {a};
    }
  }

  // ----- no deadlock -----

  // Transaction t waits for u: the lock it asks for next is held by u.
  ghost predicate WaitsFor(sys: Sys, t: nat, u: nat) {
    t in sys.txs && u in sys.txs && t != u && sys.txs[t].todo != [] && Holds(sys.txs[u], sys.txs[t].todo[0])
  }

  // Whoever is waited for and waits itself, waits for a row further up.
  lemma WaitsClimb(sys: Sys, t: nat, u: nat)
    requires SysInv(sys) && WaitsFor(sys, t, u) && sys.txs[u].todo != []
    ensures Below(sys.txs[t].todo[0], sys.txs[u].todo[0])
  {
    hide Inv;
    assert InOrder(sys.db, sys.txs[u]);
  }

  lemma {:induction false} ChainsClimb(sys: Sys, chain: seq<nat>)
    requires SysInv(sys) && |chain| > 1
    requires forall i :: 0 <= i < |chain| - 1 ==> WaitsFor(sys, chain[i], chain[i + 1])
    requires chain[|chain| - 1] in sys.txs && sys.txs[chain[|chain| - 1]].todo != []
    ensures chain[0] in sys.txs && sys.txs[chain[0]].todo != []
    ensures Below(sys.txs[chain[0]].todo[0], sys.txs[chain[|chain| - 1]].todo[0])
  {
    hide SysInv;
    var n := |chain| - 1;
    assert WaitsFor(sys, chain[n - 1], chain[n]);
    WaitsClimb(sys, chain[n - 1], chain[n]);
    if n > 1 {
      ChainsClimb(sys, chain[..n]);
    }
  }

  /** No deadlock: in no state of any interleaving do transactions wait for each other in a circle. */
  lemma NoDeadlock(states: seq<Sys>, micros: seq<Micro>, circle: seq<nat>)
    requires IsExecution(states, micros) && |circle| > 1
    requires circle[0] == circle[|circle| - 1]
    ensures !forall i :: 0 <= i < |circle| - 1 ==> WaitsFor(states[|micros|], circle[i], circle[i + 1])
  {
    var sys := states[|micros|];
    if forall i :: 0 <= i < |circle| - 1 ==> WaitsFor(sys, circle[i], circle[i + 1]) {
      ExecutionsAreSerializable(states, micros);
      hide SysInv;
      assert WaitsFor(sys, circle[0], circle[1]);
      ChainsClimb(sys, circle);
    }
  }

  /** And while transactions run, one of them is not blocked: it has all the locks its statement asks for,
      or the next one exists and is free. */
  lemma SomeoneCanMove(states: seq<Sys>, micros: seq<Micro>)
    requires IsExecution(states, micros) && states[|micros|].txs != map[]
    ensures var sys := states[|micros|];
            exists t :: t in sys.txs && (sys.txs[t].todo == [] || Enabled(sys, Acquire(t)))
  {
    ExecutionsAreSerializable(states, micros);
    var sys := states[|micros|];
    var all := sys.txs.Keys;
    assert all != {};
    if forall t :: t in all ==> sys.txs[t].todo != [] {
      var top := Highest(sys, all);
      assert InOrder(sys.db, sys.txs[top]);
      if !Free(sys, top, sys.txs[top].todo[0]) {
        var u :| u in sys.txs && u != top && Holds(sys.txs[u], sys.txs[top].todo[0]);
        WaitsClimb(sys, top, u);
      }
      assert Enabled(sys, Acquire(top));
    }
  }

  // The transaction that waits for the row furthest up.
  lemma {:induction false} Highest(sys: Sys, some: set<nat>) returns (top: nat)
    requires some != {} && some <= sys.txs.Keys
    requires forall t :: t in some ==> sys.txs[t].todo != []
    ensures top in some && forall t :: t in some ==> !Below(sys.txs[top].todo[0], sys.txs[t].todo[0])
    decreases some
  {
    top :| top in some;
    if some != {top} {
      var other := Highest(sys, some - {top});
      if Below(sys.txs[top].todo[0], sys.txs[other].todo[0]) {
        top := other;
      }
    }
  }
}
