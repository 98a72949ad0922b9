/** Transactions as programs of lock, read and write statements that interleave freely under row locks.
    A transaction keeps a view: the rows it has locked, with the values it read. It commits by
    running its writes on the view and merging the result into the database. */
module RowLocks {
  import opened Entities
  import opened Negotiation
  import opened Transactions
  import opened Protocol
  import opened Safety
  import Sweep

  datatype Row = ProposalRow(id: nat) | OrderRow(id: nat) | ProductRow(id: nat)

  function Rank(r: Row): nat {
    match r case ProposalRow(_) => 0 case OrderRow(_) => 1 case ProductRow(_) => 2
  }

  // The order in which every transaction takes its locks.
  predicate Below(a: Row, b: Row) {
    Rank(a) < Rank(b) || (Rank(a) == Rank(b) && a.id < b.id)
  }

  predicate Exists(db: State, r: Row) {
    match r
    case ProposalRow(id) => id in db.proposals
    case OrderRow(id) => id in db.orders
    case ProductRow(id) => id in db.products
  }

  ghost function Least(ids: set<nat>): (m: nat)
    requires ids != {}
    ensures m in ids && forall x :: x in ids ==> m <= x
    decreases |ids|
  {
    var a :| a in ids;
    var others := ids - {a};
    assert forall x :: x in ids ==> x == a || x in others;
    if others == {} then a
    else
      var m := Least(others);
      if a < m then a else m
  }

  // The keys of a set in ascending order.
  ghost function Ascending(ids: set<nat>): seq<nat>
    decreases |ids|
  {
    if ids == {} then [] else [Least(ids)] + Ascending(ids - {Least(ids)})
  }

  lemma {:induction false} AscendingSorts(ids: set<nat>)
    ensures forall x :: x in Ascending(ids) <==> x in ids
    ensures forall i, j :: 0 <= i < j < |Ascending(ids)| ==> Ascending(ids)[i] < Ascending(ids)[j]
    decreases |ids|
  {
    hide Least;
    if ids != {} {
      var m := Least(ids);
      AscendingSorts(ids - {m});
      var rest := Ascending(ids - {m});
      assert Ascending(ids) == [m] + rest;
      assert forall x :: x in [m] + rest <==> x == m || x in rest;
      forall j | 0 <= j < |rest| ensures m < rest[j] {
        assert rest[j] in rest;
      }
    }
  }

  ghost function ProductRows(ids: set<nat>): seq<Row> {
    var s := Ascending(ids);
    seq(|s|, i requires 0 <= i < |s| => ProductRow(s[i]))
  }

  ghost function ProposalRows(ids: set<nat>): seq<Row> {
    var s := Ascending(ids);
    seq(|s|, i requires 0 <= i < |s| => ProposalRow(s[i]))
  }

  // ----- transactions -----

  // A running transaction: its call, the next statement, the locks that statement still asks for, and its view.
  datatype Tx = Tx(call: Step, stage: nat, todo: seq<Row>, view: State)

  predicate Holds(tx: Tx, r: Row) {
    Exists(tx.view, r)
  }

  datatype Sys = Sys(db: State, txs: map<nat, Tx>)

  predicate Free(sys: Sys, tid: nat, r: Row) {
    forall u :: u in sys.txs && u != tid ==> !Holds(sys.txs[u], r)
  }

  // The calls that run as several statements; the sweep starts as a settlement of no candidates.
  predicate IsProgram(call: Step) {
    || call.Propose? || call.Act? || call.PlaceOrder? || call.MoveOrder? || call.CancelOrder?
    || (call.Settle? && (call.ids == {} || exists q :: q in call.ids && call.ids == {q}))
  }

  // The locks of the first statement, over the rows that exist.
  ghost function FirstLocks(db: State, call: Step): seq<Row> {
    match call
    case Propose(_, _, req, _, _) =>
      ProductRows((set x | x in DedupPositive(req.offers) + DedupPositive(req.targets)) * db.products.Keys)
    case Act(_, pid, _, _, _) => ProposalRows({pid} * db.proposals.Keys)
    case Settle(ids, _) => ProposalRows(ids * db.proposals.Keys)
    case PlaceOrder(_, _, x, _, _) => ProductRows({x} * db.products.Keys)
    case MoveOrder(_, id, _) => if id in db.orders then [OrderRow(id)] else []
    case CancelOrder(_, id, _) => if id in db.orders then [OrderRow(id)] else []
    case _ => []
  }

  function LastStage(call: Step): nat {
    match call
    case Propose(_, _, _, _, _) => 1
    case Act(_, _, c, _, _) => if c.AcceptCall? then 2 else 0
    case Settle(_, _) => 1
    case CancelOrder(_, _, _) => 1
    case _ => 0
  }

  // Locks a row and reads it, as a locking select does.
  function Grab(db: State, view: State, r: Row): State
    requires Exists(db, r)
  {
    match r
    case ProposalRow(id) => view.(proposals := view.proposals[id := db.proposals[id]])
    case OrderRow(id) => view.(orders := view.orders[id := db.orders[id]])
    case ProductRow(id) => view.(products := view.products[id := db.products[id]])
  }

  // When the statement after the current stage may run, and the locks it asks for.
  ghost predicate CanAdvance(db: State, tx: Tx) {
    match tx.call
    case Propose(_, _, req, _, _) =>
      tx.stage == 0 && !AnyBusy(db.proposals, DedupPositive(req.offers) + DedupPositive(req.targets))
    case Act(user, pid, call, now, _) =>
      && call.AcceptCall? && tx.stage <= 1
      && pid in tx.view.proposals && LoadForAction(tx.view.proposals[pid], user, Accept, now).Go?
      && (tx.stage == 1 ==> forall x :: x in tx.view.products ==> tx.view.products[x].status == OnSale)
    case CancelOrder(user, id, role) =>
      && tx.stage == 0 && id in tx.view.orders
      && user == (if role == AsBuyer then tx.view.orders[id].buyer else tx.view.orders[id].seller)
      && tx.view.orders[id].status in OrderTransitions(OrderCancelled)
    case _ => false
  }

  ghost function NextLocks(db: State, tx: Tx): seq<Row>
    requires CanAdvance(db, tx)
  {
    match tx.call
    case Act(_, pid, _, _, _) =>
      var ids := ProductIds(tx.view.proposals[pid]);
      if tx.stage == 0 then ProductRows(ids * db.products.Keys)
      else ProposalRows(Rivals(db.proposals, ids, pid))   // the rows that the auto-close update will touch
    case CancelOrder(_, id, _) => ProductRows({tx.view.orders[id].product} * db.products.Keys)
    case _ => []
  }

  // The merge of a committed view into the database.
  function Merge(db: State, w: State): State {
    State(db.users + w.users, db.products + w.products, db.proposals + w.proposals,
          db.orders + w.orders, db.reviews + w.reviews)
  }

  ghost predicate Succeeds(tx: Tx) {
    var reply := Exec(tx.view, tx.call).1;
    if tx.call.Settle? then reply.Count? && tx.call.ids <= tx.view.proposals.Keys else reply == Done
  }

  // A one-statement transaction and the existing row that it writes.
  predicate IsSingle(step: Step) {
    step.Register? || step.Publish? || step.Edit? || step.TakeOff? || step.WriteReview?
  }

  predicate Touches(step: Step, r: Row) {
    match step
    case Edit(_, x, _) => r == ProductRow(x)
    case TakeOff(_, x) => r == ProductRow(x)
    case WriteReview(_, _, o, _) => r == OrderRow(o)
    case _ => false
  }

  // ----- micro-steps -----

  datatype Micro =
    | Begin(tid: nat, call: Step)
    | Acquire(tid: nat)              // takes the next lock, once nobody else holds it
    | SkipLocked(tid: nat, ids: set<nat>)  // the sweep's query takes unlocked due rows only
    | Advance(tid: nat)
    | Commit(tid: nat)
    | Rollback(tid: nat)
    | Single(step: Step)

  ghost predicate Enabled(sys: Sys, m: Micro) {
    match m
    case Begin(tid, call) => tid !in sys.txs && IsProgram(call)
    case Acquire(tid) =>
      tid in sys.txs && sys.txs[tid].todo != []
      && Exists(sys.db, sys.txs[tid].todo[0]) && Free(sys, tid, sys.txs[tid].todo[0])
    case SkipLocked(tid, ids) =>
      && tid in sys.txs && sys.txs[tid].todo == [] && sys.txs[tid].stage == 0
      && sys.txs[tid].call.Settle?
      && Sweep.IsBatch(sys.db.proposals, LockedProposals(sys), sys.txs[tid].call.now, Sweep.BATCH, ids)
    case Advance(tid) => tid in sys.txs && sys.txs[tid].todo == [] && CanAdvance(sys.db, sys.txs[tid])
    case Commit(tid) =>
      && tid in sys.txs && sys.txs[tid].todo == [] && sys.txs[tid].stage == LastStage(sys.txs[tid].call)
      && KeysOk(sys.db, sys.txs[tid].call) && Succeeds(sys.txs[tid])
    case Rollback(tid) => tid in sys.txs
    case Single(step) => IsSingle(step) && forall u, r :: u in sys.txs && Touches(step, r) ==> !Holds(sys.txs[u], r)
  }

  ghost function LockedProposals(sys: Sys): set<nat> {
    set q | q in sys.db.proposals && exists u :: u in sys.txs && Holds(sys.txs[u], ProposalRow(q))
  }

  function Rows(proposals: map<nat, Proposal>, ids: set<nat>): map<nat, Proposal> {
    map q | q in ids && q in proposals :: proposals[q]
  }

  ghost function Fire(sys: Sys, m: Micro): Sys
    requires Enabled(sys, m)
  {
    match m
    case Begin(tid, call) =>
      var stage := if call.Settle? && call.ids != {} then 1 else 0;
      sys.(txs := sys.txs[tid := Tx(call, stage, FirstLocks(sys.db, call), EMPTY)])
    case Acquire(tid) =>
      var tx := sys.txs[tid];
      sys.(txs := sys.txs[tid := tx.(todo := tx.todo[1..], view := Grab(sys.db, tx.view, tx.todo[0]))])
    case SkipLocked(tid, ids) =>
      var tx := sys.txs[tid];
      sys.(txs := sys.txs[tid := tx.(stage := 1, call := Step.Settle(ids, tx.call.now),
                                     view := EMPTY.(proposals := Rows(sys.db.proposals, ids)))])
    case Advance(tid) =>
      var tx := sys.txs[tid];
      sys.(txs := sys.txs[tid := tx.(stage := tx.stage + 1, todo := NextLocks(sys.db, tx))])
    case Commit(tid) =>
      var tx := sys.txs[tid];
      Sys(Merge(sys.db, Exec(tx.view, tx.call).0), sys.txs - {tid})
    case Rollback(tid) => sys.(txs := sys.txs - {tid})
    case Single(step) => sys.(db := Apply(sys.db, step))
  }

  // ----- the invariant -----

  predicate Agrees(db: State, view: State) {
    && view.users == map[] && view.reviews == map[]
    && (forall x :: x in view.products ==> x in db.products && db.products[x] == view.products[x])
    && (forall q :: q in view.proposals ==> q in db.proposals && db.proposals[q] == view.proposals[q])
    && (forall o :: o in view.orders ==> o in db.orders && db.orders[o] == view.orders[o])
  }

  // The locks still wanted exist, come in ascending order, and lie above every lock held.
  ghost predicate InOrder(db: State, tx: Tx) {
    && (forall i :: 0 <= i < |tx.todo| ==> Exists(db, tx.todo[i]))
    && (forall i, j :: 0 <= i < j < |tx.todo| ==> Below(tx.todo[i], tx.todo[j]))
    && (forall i, r :: 0 <= i < |tx.todo| && Holds(tx, r) ==> Below(r, tx.todo[i]))
  }

  // Product x is in the view or still to be locked.
  predicate Covered(tx: Tx, x: nat) {
    x in tx.view.products || ProductRow(x) in tx.todo
  }

  // Product x is one of a request.
  predicate Listed(req: Request, x: nat) {
    x in DedupPositive(req.offers) + DedupPositive(req.targets)
  }

  // Which locks the current statement may still ask for.
  ghost predicate WantsOk(tx: Tx) {
    forall i :: 0 <= i < |tx.todo| ==>
      match tx.call
      case Propose(_, _, req, _, _) => tx.todo[i].ProductRow? && Listed(req, tx.todo[i].id)
      case Act(_, pid, _, _, _) => if tx.stage == 0 then tx.todo[i] == ProposalRow(pid) else tx.todo[i].ProductRow?
      case Settle(ids, _) => tx.todo[i].ProposalRow? && tx.todo[i].id in ids
      case PlaceOrder(_, _, _, _, _) => tx.todo[i].ProductRow?
      case MoveOrder(_, _, _) => tx.todo[i].OrderRow?
      case CancelOrder(_, id, _) => if tx.stage == 0 then tx.todo[i] == OrderRow(id) else tx.todo[i].ProductRow?
      case _ => false
  }

  // What a transaction knows at each stage.
  ghost predicate ScriptOk(db: State, tx: Tx) {
    match tx.call
    case Propose(_, _, req, _, _) =>
      && tx.view.proposals == map[] && tx.view.orders == map[]
      && (forall x :: x in tx.view.products ==> Listed(req, x))
      && (tx.stage == 1 ==> tx.todo == [] && forall x :: x in tx.view.products ==> Occupants(db.proposals, x) == {})
    case Act(user, pid, call, now, _) =>
      && tx.view.orders == map[] && tx.view.proposals.Keys <= {pid}
      && (tx.stage == 0 ==> tx.view.products == map[])
      && (tx.stage > 0 ==>
            && call.AcceptCall? && pid in tx.view.proposals
            && LoadForAction(tx.view.proposals[pid], user, Accept, now).Go?
            && (forall x :: x in ProductIds(tx.view.proposals[pid]) ==> Covered(tx, x))
            && (tx.stage == 2 ==> tx.todo == []))
    case Settle(ids, _) =>
      tx.view.products == map[] && tx.view.orders == map[] && tx.view.proposals.Keys <= ids
      && (tx.stage == 0 ==> ids == {} && tx.todo == [])
    case PlaceOrder(_, _, _, _, _) => tx.view.proposals == map[] && tx.view.orders == map[]
    case MoveOrder(_, _, _) => tx.view.proposals == map[] && tx.view.products == map[]
    case CancelOrder(_, id, _) =>
      tx.view.proposals == map[] && (tx.stage == 0 ==> tx.view.products == map[]) && tx.view.orders.Keys <= {id}
    case _ => false
  }

  ghost predicate TxOk(db: State, tx: Tx) {
    Agrees(db, tx.view) && InOrder(db, tx) && WantsOk(tx) && ScriptOk(db, tx)
  }

  ghost predicate LocksExclusive(sys: Sys) {
    forall t, u, r :: t in sys.txs && u in sys.txs && t != u && Holds(sys.txs[t], r) ==> !Holds(sys.txs[u], r)
  }

  ghost predicate SysInv(sys: Sys) {
    && Inv(sys.db)
    && LocksExclusive(sys)
    && forall t :: t in sys.txs ==> TxOk(sys.db, sys.txs[t])
  }

  // ----- a commit is the atomic transaction -----

  lemma {:induction false} OffersCarryOver(view: map<nat, Product>, db: map<nat, Product>, offeror: nat, ids: seq<nat>)
    requires forall x :: x in view ==> x in db && db[x] == view[x]
    requires CheckOffers(view, offeror, ids).Fine?
    ensures CheckOffers(db, offeror, ids) == CheckOffers(view, offeror, ids)
  {
    if ids != [] {
      OffersCarryOver(view, db, offeror, ids[..|ids| - 1]);
    }
  }

  lemma {:induction false} TargetsCarryOver(view: map<nat, Product>, db: map<nat, Product>, offeror: nat, ids: seq<nat>)
    requires forall x :: x in view ==> x in db && db[x] == view[x]
    requires CheckTargets(view, offeror, ids).Fine?
    ensures CheckTargets(db, offeror, ids) == CheckTargets(view, offeror, ids)
  {
    if ids != [] {
      TargetsCarryOver(view, db, offeror, ids[..|ids| - 1]);
    }
  }

  lemma MergeSame<K, V>(m: map<K, V>, part: map<K, V>)
    requires forall k :: k in part ==> k in m && m[k] == part[k]
    ensures m + part == m
  {
  }

  // A view without effect on the other tables merges into the table it changes.
  lemma MergeViews(db: State, view: State)
    requires Agrees(db, view)
    ensures Merge(db, view) == db
  {
    MergeSame(db.products, view.products);
    MergeSame(db.proposals, view.proposals);
    MergeSame(db.orders, view.orders);
  }

  lemma ProposeCarriesOver(db: State, view: State, id: nat, user: nat, req: Request, now: int, wall: int)
    requires Agrees(db, view) && view.proposals == map[]
    requires ProposeTx(view, id, user, req, now, wall).1 == Done
    requires forall x :: x in view.products ==> Occupants(db.proposals, x) == {}
    ensures var (w, t) := (ProposeTx(view, id, user, req, now, wall).0, ProposeTx(db, id, user, req, now, wall).0);
            && ProposeTx(db, id, user, req, now, wall).1 == Done
            && id in w.proposals
            && w == view.(proposals := view.proposals[id := w.proposals[id]])
            && t == db.(proposals := db.proposals[id := w.proposals[id]])
  {
    var offers, targets := DedupPositive(req.offers), DedupPositive(req.targets);
    hide DedupPositive, CheckOffers, CheckTargets, Occupants;
    OffersCarryOver(view.products, db.products, user, offers);
    TargetsCarryOver(view.products, db.products, user, targets);
    ValidItemsExist(view.products, user, offers, targets);
    NotBusy(db.proposals, offers, targets);
    assert BuildItems(view.products, offers, targets) == BuildItems(db.products, offers, targets);
  }

  lemma CommitPropose(db: State, tx: Tx)
    requires Agrees(db, tx.view) && ScriptOk(db, tx) && tx.call.Propose? && tx.stage == 1
    requires Succeeds(tx)
    ensures Merge(db, Exec(tx.view, tx.call).0) == Exec(db, tx.call).0
    ensures Exec(db, tx.call).1 == Exec(tx.view, tx.call).1
  {
    hide ProposeTx;
    ProposeCarriesOver(db, tx.view, tx.call.id, tx.call.user, tx.call.req, tx.call.now, tx.call.wall);
    MergeViews(db, tx.view);
    assert db.proposals + Exec(tx.view, tx.call).0.proposals == Exec(db, tx.call).0.proposals;
  }

  lemma AcceptCarriesOver(db: State, view: State, pid: nat, user: nat, role: Party, now: int, wall: int)
    requires Agrees(db, view) && view.proposals.Keys == {pid}
    requires Exclusive(db.proposals) && ItemsExist(db) && IsActive(view.proposals[pid].status)
    requires ProductIds(view.proposals[pid]) <= view.products.Keys
    requires AcceptTx(view, pid, user, role, now, wall).1 == Done
    ensures var w, t := AcceptTx(view, pid, user, role, now, wall).0, AcceptTx(db, pid, user, role, now, wall).0;
            && AcceptTx(db, pid, user, role, now, wall).1 == Done
            && t == db.(products := db.products + w.products, proposals := db.proposals + w.proposals)
            && w == view.(products := w.products, proposals := w.proposals)
  {
    var ids := ProductIds(view.proposals[pid]);
    NoRivals(db.proposals, pid);
    assert Rivals(view.proposals, ids, pid) == {};
    hide Rivals, Exclusive, ItemsExist, AfterAutoClose;
    assert MarkSold(db.products, ids) == db.products + MarkSold(view.products, ids);
    var won := AfterAccept(view.proposals[pid], user, role, now, wall);
    assert AutoClose(db.proposals[pid := won], {}, wall) == db.proposals[pid := won];
    assert AutoClose(view.proposals[pid := won], {}, wall) == view.proposals[pid := won];
    assert db.proposals + view.proposals[pid := won] == db.proposals[pid := won];
  }

  lemma CommitAccept(db: State, tx: Tx)
    requires Exclusive(db.proposals) && ItemsExist(db)
    requires Agrees(db, tx.view) && ScriptOk(db, tx) && tx.call.Act? && tx.call.call.AcceptCall? && tx.stage == 2
    requires Succeeds(tx)
    ensures Merge(db, Exec(tx.view, tx.call).0) == Exec(db, tx.call).0
    ensures Exec(db, tx.call).1 == Exec(tx.view, tx.call).1
  {
    hide Exclusive, ItemsExist, AcceptTx;
    var pid := tx.call.proposal;
    var load := LoadForAction(tx.view.proposals[pid], tx.call.user, Accept, tx.call.now);
    assert load.Go? && IsActive(tx.view.proposals[pid].status);
    hide LoadForAction;
    AcceptCarriesOver(db, tx.view, pid, tx.call.user, load.role, tx.call.now, tx.call.wall);
    MergeViews(db, tx.view);
  }

  lemma AnswerCarriesOver(db: State, view: State, user: nat, pid: nat, call: Call, now: int, wall: int)
    requires pid in view.proposals && pid in db.proposals && db.proposals[pid] == view.proposals[pid]
    requires !call.AcceptCall? && ActTx(view, user, pid, call, now, wall).1 == Done
    ensures ActTx(db, user, pid, call, now, wall).1 == Done
    ensures var w := ActTx(view, user, pid, call, now, wall).0;
            && pid in w.proposals && w == view.(proposals := view.proposals[pid := w.proposals[pid]])
            && ActTx(db, user, pid, call, now, wall).0 == db.(proposals := db.proposals[pid := w.proposals[pid]])
  {
    hide LoadForAction, AcceptTx;
  }

  lemma CommitAnswer(db: State, tx: Tx)
    requires Agrees(db, tx.view) && ScriptOk(db, tx) && tx.call.Act? && !tx.call.call.AcceptCall?
    requires Succeeds(tx)
    ensures Merge(db, Exec(tx.view, tx.call).0) == Exec(db, tx.call).0
    ensures Exec(db, tx.call).1 == Exec(tx.view, tx.call).1
  {
    var pid := tx.call.proposal;
    assert pid in tx.view.proposals;
    hide ActTx, ScriptOk;
    AnswerCarriesOver(db, tx.view, tx.call.user, pid, tx.call.call, tx.call.now, tx.call.wall);
    MergeViews(db, tx.view);
    var w := Exec(tx.view, tx.call).0.proposals[pid];
    assert db.proposals + tx.view.proposals[pid := w] == db.proposals[pid := w];
  }

  lemma PlaceOrderCarriesOver(db: State, view: State, id: nat, buyer: nat, x: nat, quantity: int, addressOk: bool)
    requires Agrees(db, view) && PlaceOrderTx(view, id, buyer, x, quantity, addressOk).1 == Done
    ensures PlaceOrderTx(db, id, buyer, x, quantity, addressOk).1 == Done
    ensures Merge(db, PlaceOrderTx(view, id, buyer, x, quantity, addressOk).0) == PlaceOrderTx(db, id, buyer, x, quantity, addressOk).0
  {
    MergeViews(db, view);
    var w, t := PlaceOrderTx(view, id, buyer, x, quantity, addressOk).0, PlaceOrderTx(db, id, buyer, x, quantity, addressOk).0;
    assert db.products + w.products == t.products;
    assert db.orders + w.orders == t.orders;
  }

  lemma MoveOrderCarriesOver(db: State, view: State, user: nat, id: nat, m: OrderMove)
    requires Agrees(db, view) && MoveOrderTx(view, user, id, m).1 == Done
    ensures MoveOrderTx(db, user, id, m).1 == Done
    ensures Merge(db, MoveOrderTx(view, user, id, m).0) == MoveOrderTx(db, user, id, m).0
  {
    MergeViews(db, view);
    assert db.orders + MoveOrderTx(view, user, id, m).0.orders == MoveOrderTx(db, user, id, m).0.orders;
  }

  lemma CancelOrderCarriesOver(db: State, view: State, user: nat, id: nat, role: CancelRole)
    requires Agrees(db, view) && CancelOrderTx(view, user, id, role).1 == Done
    ensures CancelOrderTx(db, user, id, role).1 == Done
    ensures Merge(db, CancelOrderTx(view, user, id, role).0) == CancelOrderTx(db, user, id, role).0
  {
    MergeViews(db, view);
    var w, t := CancelOrderTx(view, user, id, role).0, CancelOrderTx(db, user, id, role).0;
    assert db.products + w.products == t.products;
    assert db.orders + w.orders == t.orders;
  }

  lemma CommitOrder(db: State, tx: Tx)
    requires Agrees(db, tx.view)
    requires tx.call.PlaceOrder? || tx.call.MoveOrder? || tx.call.CancelOrder?
    requires Succeeds(tx)
    ensures Merge(db, Exec(tx.view, tx.call).0) == Exec(db, tx.call).0
    ensures Exec(db, tx.call).1 == Exec(tx.view, tx.call).1
  {
    hide Agrees, Merge, PlaceOrderTx, MoveOrderTx, CancelOrderTx;
    match tx.call
    case PlaceOrder(id, buyer, x, quantity, addressOk) =>
      PlaceOrderCarriesOver(db, tx.view, id, buyer, x, quantity, addressOk);
    case MoveOrder(user, id, m) => MoveOrderCarriesOver(db, tx.view, user, id, m);
    case CancelOrder(user, id, role) => CancelOrderCarriesOver(db, tx.view, user, id, role);
  }

  lemma ExpireAllMerges(proposals: map<nat, Proposal>, part: map<nat, Proposal>, now: int)
    requires forall q :: q in part ==> q in proposals && proposals[q] == part[q]
    ensures var hit := DueIn(proposals, part.Keys, now);
            && DueIn(part, part.Keys, now) == hit
            && proposals + ExpireAll(part, hit, now) == ExpireAll(proposals, hit, now)
  {
    hide IsDue, AfterExpiry;
  }

  lemma CommitSettle(db: State, tx: Tx)
    requires RowsOk(db.proposals)
    requires Agrees(db, tx.view) && ScriptOk(db, tx) && tx.call.Settle?
    requires Succeeds(tx)
    ensures Merge(db, Exec(tx.view, tx.call).0) == Exec(db, tx.call).0
    ensures Exec(db, tx.call).1 == Exec(tx.view, tx.call).1
  {
    var ids, now := tx.call.ids, tx.call.now;
    hide RowOk, SettleTx;
    assert tx.view.proposals.Keys == ids;
    assert RowsOk(tx.view.proposals);
    SettleIsExact(db, ids, now);
    SettleIsExact(tx.view, ids, now);
    ExpireAllMerges(db.proposals, tx.view.proposals, now);
    MergeViews(db, tx.view);
  }

  /** Whenever a transaction commits, what it merges into the database and what it replies are exactly
      those of the atomic transaction on the database as it stands at that moment. */
  lemma CommitIsAtomic(sys: Sys, tid: nat)
    requires SysInv(sys) && Enabled(sys, Commit(tid))
    ensures Fire(sys, Commit(tid)).db == Apply(sys.db, sys.txs[tid].call)
    ensures Exec(sys.db, sys.txs[tid].call).1 == Exec(sys.txs[tid].view, sys.txs[tid].call).1
  {
    hide Inv, RowOk, Exec, LocksExclusive, InOrder, ScriptOk, Agrees, Merge, Succeeds;
    var db, tx := sys.db, sys.txs[tid];
    ScriptIsProgram(db, tx);
    assert RowsOk(db.proposals) && Exclusive(db.proposals) && ItemsExist(db) by { UnfoldInv(db); }
    if tx.call.Propose? {
      CommitPropose(db, tx);
    } else if tx.call.Settle? {
      CommitSettle(db, tx);
    } else if tx.call.Act? {
      if tx.call.call.AcceptCall? {
        CommitAccept(db, tx);
      } else {
        CommitAnswer(db, tx);
      }
    } else {
      CommitOrder(db, tx);
    }
  }

  // What a call reads: the rows of its transaction and, to open a proposal, the committed proposals.
  function Seen(db: State, tx: Tx): State {
    if tx.call.Propose? then tx.view.(proposals := db.proposals) else tx.view
  }

  // Every row that the call names is held, unless it does not exist. A row that another transaction has created
  // since the locking statement ran is the only kind that exists and may not be held.
  ghost predicate HoldsNamed(db: State, tx: Tx) {
    match tx.call
    case Propose(_, _, req, _, _) => forall x :: Listed(req, x) && x in db.products ==> x in tx.view.products
    case Act(_, pid, _, _, _) => pid in db.proposals ==> pid in tx.view.proposals
    case PlaceOrder(_, _, x, _, _) => x in db.products ==> x in tx.view.products
    case MoveOrder(_, id, _) => id in db.orders ==> id in tx.view.orders
    case CancelOrder(_, id, _) =>
      && (id in db.orders ==> id in tx.view.orders)
      && (tx.stage > 0 && id in tx.view.orders && tx.view.orders[id].product in db.products
          ==> tx.view.orders[id].product in tx.view.products)
    case _ => true
  }

  /** And whenever a transaction cannot go on, its reason is the reply of the atomic transaction on the database as it
      stands at that moment, which writes nothing: it finds a product busy or not on sale, is not let through by the
      checks on the locked row, or meets a proposal past its deadline. */
  lemma RefusalIsAtomic(sys: Sys, tid: nat)
    requires SysInv(sys) && tid in sys.txs && sys.txs[tid].todo == []
    requires !CanAdvance(sys.db, sys.txs[tid]) && HoldsNamed(sys.db, sys.txs[tid])
    requires var r := Exec(Seen(sys.db, sys.txs[tid]), sys.txs[tid].call).1; r.Failed? || r == MustSettle
    ensures var tx := sys.txs[tid]; Exec(sys.db, tx.call) == (sys.db, Exec(Seen(sys.db, tx), tx.call).1)
  {
    hide Inv, Exec, LocksExclusive, InOrder, ScriptOk, Agrees, WantsOk, CanAdvance, HoldsNamed;
    var db, tx := sys.db, sys.txs[tid];
    assert OrdersOk(db) by { UnfoldOrders(db); }
    ScriptIsProgram(db, tx);
    PlainReplies(Seen(db, tx), tx.call);
    match tx.call
    case Propose(_, _, _, _, _) => RefusedPropose(db, tx);
    case Act(_, _, _, _, _) => RefusedAct(db, tx);
    case _ => RefusedOrder(db, tx);
  }

  lemma UnfoldOrders(s: State)
    requires Inv(s)
    ensures OrdersOk(s)
  {
  }

  lemma PlainReplies(s: State, call: Step)
    ensures call.Settle? ==> Exec(s, call).1.Count?
    ensures Exec(s, call).1 == MustSettle ==> call.Act?
  {
    hide LoadForAction, ValidateItems, DedupPositive, BuildItems, Rivals, AnyBusy, Overlap;
  }

  lemma RefusedPropose(db: State, tx: Tx)
    requires Agrees(db, tx.view) && tx.call.Propose? && HoldsNamed(db, tx)
    requires Exec(Seen(db, tx), tx.call).1.Failed?
    ensures Exec(db, tx.call) == (db, Exec(Seen(db, tx), tx.call).1)
  {
    hide DedupPositive, Occupants, CheckOffers, CheckTargets;
    var user, req := tx.call.user, tx.call.req;
    OffersSame(tx.view.products, db.products, user, DedupPositive(req.offers));
    TargetsSame(tx.view.products, db.products, user, DedupPositive(req.targets));
  }

  // Holding all the listed products that exist, the checks see what they would in the database.
  lemma {:induction false} OffersSame(view: map<nat, Product>, db: map<nat, Product>, offeror: nat, ids: seq<nat>)
    requires forall x :: x in view ==> x in db && db[x] == view[x]
    requires forall x :: x in ids && x in db ==> x in view
    ensures CheckOffers(db, offeror, ids) == CheckOffers(view, offeror, ids)
  {
    if ids != [] {
      assert ids[|ids| - 1] in ids;
      OffersSame(view, db, offeror, ids[..|ids| - 1]);
    }
  }

  lemma {:induction false} TargetsSame(view: map<nat, Product>, db: map<nat, Product>, offeror: nat, ids: seq<nat>)
    requires forall x :: x in view ==> x in db && db[x] == view[x]
    requires forall x :: x in ids && x in db ==> x in view
    ensures CheckTargets(db, offeror, ids) == CheckTargets(view, offeror, ids)
  {
    if ids != [] {
      assert ids[|ids| - 1] in ids;
      TargetsSame(view, db, offeror, ids[..|ids| - 1]);
    }
  }

  lemma RefusedAct(db: State, tx: Tx)
    requires Agrees(db, tx.view) && tx.call.Act? && HoldsNamed(db, tx)
    requires var r := Exec(tx.view, tx.call).1; r.Failed? || r == MustSettle
    ensures Exec(db, tx.call) == (db, Exec(tx.view, tx.call).1)
  {
    hide LoadForAction, Rivals;
  }

  lemma RefusedOrder(db: State, tx: Tx)
    requires Agrees(db, tx.view) && OrdersOk(db) && HoldsNamed(db, tx) && ScriptOk(db, tx) && !CanAdvance(db, tx)
    requires tx.call.PlaceOrder? || tx.call.MoveOrder? || tx.call.CancelOrder?
    requires Exec(tx.view, tx.call).1.Failed?
    ensures Exec(db, tx.call) == (db, Exec(tx.view, tx.call).1)
  {
  }

  lemma ScriptIsProgram(db: State, tx: Tx)
    requires ScriptOk(db, tx)
    ensures !IsSingle(tx.call)
  {
  }

  lemma UnfoldInv(s: State)
    requires Inv(s)
    ensures RowsOk(s.proposals) && Exclusive(s.proposals) && ItemsExist(s)
  {
  }
}
