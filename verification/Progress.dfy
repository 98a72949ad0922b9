/** The converse of serializability: a call that would succeed atomically runs to its commit whenever no other
    transaction holds a row that it needs, and so every atomic run is the committed run of an interleaving. */
module Progress {
  import opened Entities
  import opened Negotiation
  import opened Transactions
  import opened Protocol
  import opened Safety
  import opened RowLocks
  import opened Interleaving
  import Sweep

  datatype Path = Path(states: seq<Sys>, micros: seq<Micro>)

  ghost predicate Ok(p: Path) {
    IsPath(p.states, p.micros)
  }

  ghost function Last(p: Path): Sys
    requires Ok(p)
  {
    p.states[|p.micros|]
  }

  ghost function Log(p: Path): seq<Step>
    requires Ok(p)
  {
    Committed(p.states, p.micros)
  }

  // Path q continues p to the system state `end`, committing `more` on the way.
  ghost predicate Continues(p: Path, q: Path, end: Sys, more: seq<Step>)
    requires Ok(p)
  {
    Ok(q) && q.states[0] == p.states[0] && Last(q) == end && Log(q) == Log(p) + more
  }

  lemma Join(p: Path, p1: Path, q: Path, end: Sys, more: seq<Step>)
    requires Ok(p) && Ok(p1) && Continues(p, p1, Last(p1), []) && Continues(p1, q, end, more)
    ensures Continues(p, q, end, more)
  {
    assert Log(p) + [] == Log(p);
  }

  lemma Go(p: Path, m: Micro) returns (q: Path)
    requires Ok(p) && Enabled(Last(p), m)
    ensures Continues(p, q, Fire(Last(p), m), CommittedBy(Last(p), m))
  {
    hide Enabled, Fire, CommittedBy;
    q := Path(p.states + [Fire(Last(p), m)], p.micros + [m]);
    assert q.states[..|p.micros| + 1] == p.states && q.micros[..|p.micros|] == p.micros;
  }

  // ----- taking locks -----

  function With(sys: Sys, tid: nat, tx: Tx): Sys {
    sys.(txs := sys.txs[tid := tx])
  }

  // No other transaction holds the row.
  predicate Spares(sys: Sys, tid: nat, r: Row) {
    forall u :: u in sys.txs && u != tid ==> !Holds(sys.txs[u], r)
  }

  // The transaction of `tx` after it has taken the locks `rows`.
  ghost predicate HasTaken(tx: Tx, next: Tx, rows: seq<Row>) {
    && next.call == tx.call && next.stage == tx.stage && next.todo == []
    && forall r :: Holds(next, r) <==> Holds(tx, r) || r in rows
  }

  lemma WithTwice(sys: Sys, tid: nat, a: Tx, b: Tx)
    requires tid !in sys.txs
    ensures var t := With(With(sys, tid, a), tid, b); t.db == sys.db && tid in t.txs && t.txs[tid] == b && t.txs - {tid} == sys.txs
  {
  }

  lemma {:induction false} TakesLocks(p: Path, tid: nat) returns (q: Path, next: Tx)
    requires Ok(p) && SysInv(Last(p)) && tid in Last(p).txs
    requires forall r :: r in Last(p).txs[tid].todo ==> Spares(Last(p), tid, r)
    ensures var sys := Last(p);
            && Continues(p, q, With(sys, tid, next), []) && SysInv(Last(q))
            && HasTaken(sys.txs[tid], next, sys.txs[tid].todo)
    decreases |Last(p).txs[tid].todo|
  {
    hide SysInv, Grab, Exists, Committed;
    var sys := Last(p);
    var tx := sys.txs[tid];
    if tx.todo == [] {
      q, next := p, tx;
      assert With(sys, tid, next) == sys;
    } else {
      WantedExists(sys, tid);
      assert tx.todo == [tx.todo[0]] + tx.todo[1..] && tx.todo[0] in tx.todo;
      MicroKeeps(sys, Acquire(tid));
      var p1 := Go(p, Acquire(tid));
      var tx1 := Last(p1).txs[tid];
      forall r ensures Holds(tx1, r) <==> Holds(tx, r) || r == tx.todo[0] {
        GrabAdds(sys.db, tx.view, tx.todo[0], r);
      }
      assert forall r :: r in tx1.todo ==> r in tx.todo;
      q, next := TakesLocks(p1, tid);
      assert With(With(sys, tid, tx1), tid, next) == With(sys, tid, next);
    }
  }

  lemma WantedExists(sys: Sys, tid: nat)
    requires SysInv(sys) && tid in sys.txs && sys.txs[tid].todo != []
    ensures Exists(sys.db, sys.txs[tid].todo[0])
  {
    hide Inv;
    assert InOrder(sys.db, sys.txs[tid]);
  }

  // A call begins and takes the locks of its first statement.
  lemma Starts(p: Path, tid: nat, call: Step) returns (q: Path, tx: Tx)
    requires Ok(p) && SysInv(Last(p)) && tid !in Last(p).txs && IsProgram(call)
    requires forall r :: r in FirstLocks(Last(p).db, call) ==> Spares(Last(p), tid, r)
    ensures Continues(p, q, With(Last(p), tid, tx), []) && SysInv(Last(q))
    ensures tx.call == call && tx.todo == [] && tx.stage == (if call.Settle? && call.ids != {} then 1 else 0)
    ensures forall r :: Holds(tx, r) <==> r in FirstLocks(Last(p).db, call)
  {
    hide SysInv, FirstLocks, IsProgram, Committed;
    var sys := Last(p);
    MicroKeeps(sys, Begin(tid, call));
    var p1 := Go(p, Begin(tid, call));
    var tx1 := Last(p1).txs[tid];
    assert forall r :: !Holds(tx1, r);
    q, tx := TakesLocks(p1, tid);
    assert With(With(sys, tid, tx1), tid, tx) == With(sys, tid, tx);
  }

  // The next statement runs and takes its locks.
  lemma Proceeds(p: Path, tid: nat) returns (q: Path, next: Tx)
    requires Ok(p) && SysInv(Last(p)) && tid in Last(p).txs && Last(p).txs[tid].todo == []
    requires CanAdvance(Last(p).db, Last(p).txs[tid])
    requires forall r :: r in NextLocks(Last(p).db, Last(p).txs[tid]) ==> Spares(Last(p), tid, r)
    ensures Continues(p, q, With(Last(p), tid, next), []) && SysInv(Last(q))
    ensures var tx := Last(p).txs[tid];
            && next.call == tx.call && next.stage == tx.stage + 1 && next.todo == []
            && forall r :: Holds(next, r) <==> Holds(tx, r) || r in NextLocks(Last(p).db, tx)
  {
    hide SysInv, CanAdvance, NextLocks, Committed, Exists;
    var sys := Last(p);
    MicroKeeps(sys, Advance(tid));
    var p1 := Go(p, Advance(tid));
    var tx1 := Last(p1).txs[tid];
    assert forall r :: Holds(tx1, r) <==> Holds(sys.txs[tid], r);
    q, next := TakesLocks(p1, tid);
    assert With(With(sys, tid, tx1), tid, next) == With(sys, tid, next);
  }

  // A transaction at its last statement commits what the atomic one does.
  lemma Finishes(p: Path, tid: nat) returns (q: Path)
    requires Ok(p) && SysInv(Last(p)) && tid in Last(p).txs
    requires Enabled(Last(p), Commit(tid))
    ensures var sys := Last(p);
            Continues(p, q, Sys(Exec(sys.db, sys.txs[tid].call).0, sys.txs - {tid}), [sys.txs[tid].call])
  {
    hide SysInv, Succeeds, LastStage, Committed, Exec;
    CommitIsAtomic(Last(p), tid);
    q := Go(p, Commit(tid));
  }

  // ----- each call -----

  // The rows that a call works on.
  ghost predicate Needs(db: State, call: Step, r: Row) {
    match call
    case Propose(_, _, req, _, _) => r.ProductRow? && r.id != 0 && (r.id in req.offers || r.id in req.targets)
    case Act(_, pid, c, _, _) =>
      || r == ProposalRow(pid)
      || (c.AcceptCall? && pid in db.proposals && r.ProductRow? && r.id in ProductIds(db.proposals[pid]))
    case Settle(ids, _) => r.ProposalRow? && r.id in ids
    case PlaceOrder(_, _, x, _, _) => r == ProductRow(x)
    case MoveOrder(_, id, _) => r == OrderRow(id)
    case CancelOrder(_, id, _) => r == OrderRow(id) || (id in db.orders && r == ProductRow(db.orders[id].product))
    case Edit(_, x, _) => r == ProductRow(x)
    case TakeOff(_, x) => r == ProductRow(x)
    case WriteReview(_, _, o, _) => r == OrderRow(o)
    case _ => false
  }

  // What the other transactions must leave to the call.
  ghost predicate Unhindered(sys: Sys, tid: nat, call: Step) {
    tid !in sys.txs && forall r :: Needs(sys.db, call, r) ==> Spares(sys, tid, r)
  }

  // The call would succeed as an atomic transaction; a settlement is that of one proposal or a batch of the sweep.
  ghost predicate WouldCommit(sys: Sys, tid: nat, call: Step) {
    && KeysOk(sys.db, call)
    && if call.Settle? then IsCandidate(sys.db, call.ids) || IsFreeBatch(sys, tid, call.ids, call.now)
       else Exec(sys.db, call).1 == Done
  }

  ghost predicate IsCandidate(db: State, ids: set<nat>) {
    exists q :: q in db.proposals && ids == {q}
  }

  ghost predicate IsFreeBatch(sys: Sys, tid: nat, ids: set<nat>, now: int) {
    Sweep.IsBatch(sys.db.proposals, (set q | q in sys.db.proposals && !Spares(sys, tid, ProposalRow(q))), now, 200, ids)
  }

  // The call's transaction is committed, and nothing else has changed.
  ghost predicate CommitsAlone(p: Path, q: Path, call: Step)
    requires Ok(p)
  {
    Continues(p, q, Sys(Exec(Last(p).db, call).0, Last(p).txs), [call])
  }

  // ----- what the locked rows let a call see -----

  lemma ProposeSucceeds(db: State, tx: Tx)
    requires Agrees(db, tx.view) && ScriptOk(db, tx) && HoldsNamed(db, tx)
    requires tx.call.Propose? && Exec(db, tx.call).1 == Done
    ensures Exec(tx.view, tx.call).1 == Done
  {
    hide DedupPositive, CheckOffers, CheckTargets;
    var user, req := tx.call.user, tx.call.req;
    OffersSame(tx.view.products, db.products, user, DedupPositive(req.offers));
    TargetsSame(tx.view.products, db.products, user, DedupPositive(req.targets));
    assert forall x :: Occupants(tx.view.proposals, x) == {};
  }

  lemma ActSucceeds(db: State, tx: Tx)
    requires Agrees(db, tx.view) && HoldsNamed(db, tx)
    requires tx.call.Act? && Exec(db, tx.call).1 == Done
    ensures Exec(tx.view, tx.call).1 == Done
  {
    hide LoadForAction, Rivals, ProductIds;
  }

  lemma OrderSucceeds(db: State, tx: Tx)
    requires Agrees(db, tx.view) && HoldsNamed(db, tx)
    requires tx.call.PlaceOrder? || tx.call.MoveOrder? || (tx.call.CancelOrder? && tx.stage == 1)
    requires Exec(db, tx.call).1 == Done
    ensures Exec(tx.view, tx.call).1 == Done
  {
  }

  // At its last statement, with every row that it names, a call that would succeed can commit.
  lemma CanCommit(sys: Sys, tid: nat)
    requires SysInv(sys) && tid in sys.txs
    requires var tx := sys.txs[tid];
             && tx.todo == [] && tx.stage == LastStage(tx.call) && KeysOk(sys.db, tx.call)
             && !tx.call.Settle? && HoldsNamed(sys.db, tx) && Exec(sys.db, tx.call).1 == Done
    ensures Enabled(sys, Commit(tid))
  {
    hide Inv, Exec, KeysOk, LocksExclusive, Agrees, ScriptOk, InOrder, WantsOk, HoldsNamed;
    var db, tx := sys.db, sys.txs[tid];
    ScriptIsProgram(db, tx);
    match tx.call
    case Propose(_, _, _, _, _) => ProposeSucceeds(db, tx);
    case Act(_, _, _, _, _) => ActSucceeds(db, tx);
    case _ => OrderSucceeds(db, tx);
  }

  // The transaction holds every existing row that its call works on.
  ghost predicate HoldsAll(db: State, tx: Tx) {
    forall r :: Needs(db, tx.call, r) && Exists(db, r) ==> Holds(tx, r)
  }

  lemma AllIsNamed(db: State, tx: Tx)
    requires HoldsAll(db, tx) && Agrees(db, tx.view)
    ensures HoldsNamed(db, tx)
  {
    hide DedupPositive;
    match tx.call
    case Propose(_, _, req, _, _) =>
      forall x | Listed(req, x) && x in db.products ensures x in tx.view.products {
        assert Holds(tx, ProductRow(x));
      }
    case Act(_, pid, _, _, _) => assert pid in db.proposals ==> Holds(tx, ProposalRow(pid));
    case PlaceOrder(_, _, x, _, _) => assert x in db.products ==> Holds(tx, ProductRow(x));
    case MoveOrder(_, id, _) => assert id in db.orders ==> Holds(tx, OrderRow(id));
    case CancelOrder(_, id, _) =>
      assert id in db.orders ==> Holds(tx, OrderRow(id));
      assert id in db.orders && db.orders[id].product in db.products ==> Holds(tx, ProductRow(db.orders[id].product));
    case _ =>
  }

  // The last transition of a call whose locks are all taken.
  lemma CommitsAtEnd(p: Path, tid: nat) returns (q: Path)
    requires Ok(p) && SysInv(Last(p)) && tid in Last(p).txs
    requires var sys := Last(p); var tx := sys.txs[tid];
             && tx.todo == [] && tx.stage == LastStage(tx.call) && KeysOk(sys.db, tx.call)
             && !tx.call.Settle? && HoldsAll(sys.db, tx) && Exec(sys.db, tx.call).1 == Done
    ensures var sys := Last(p);
            Continues(p, q, Sys(Exec(sys.db, sys.txs[tid].call).0, sys.txs - {tid}), [sys.txs[tid].call])
  {
    var sys := Last(p);
    assert Agrees(sys.db, sys.txs[tid].view) by { ViewAgrees(sys, tid); }
    hide SysInv, Agrees, HoldsAll, HoldsNamed, KeysOk, Exec, Enabled, Fire, Committed, LastStage;
    AllIsNamed(sys.db, sys.txs[tid]);
    CanCommit(sys, tid);
    q := Finishes(p, tid);
  }

  lemma ViewAgrees(sys: Sys, tid: nat)
    requires SysInv(sys) && tid in sys.txs
    ensures Agrees(sys.db, sys.txs[tid].view)
  {
    hide Inv, LocksExclusive;
    assert TxOk(sys.db, sys.txs[tid]);
  }

  // ----- the locks of each call -----

  lemma ProposeAsks(db: State, call: Step)
    requires call.Propose?
    ensures forall r :: r in FirstLocks(db, call) <==> Needs(db, call, r) && Exists(db, r)
  {
    hide DedupPositive;
    var ids := (set x | x in DedupPositive(call.req.offers) + DedupPositive(call.req.targets)) * db.products.Keys;
    ProductRowsOk(ids);
    hide ProductRows;
    assert forall r :: r in ProductRows(ids) <==> r.ProductRow? && r.id in ids;
  }

  lemma ActAsks(db: State, call: Step)
    requires call.Act?
    ensures forall r :: r in FirstLocks(db, call) <==> r == ProposalRow(call.proposal) && Exists(db, r)
  {
    var ids := {call.proposal} * db.proposals.Keys;
    ProposalRowsOk(ids);
    hide ProposalRows;
    assert forall r :: r in ProposalRows(ids) <==> r.ProposalRow? && r.id in ids;
  }

  lemma SettleAsks(db: State, call: Step)
    requires call.Settle?
    ensures forall r :: r in FirstLocks(db, call) <==> r.ProposalRow? && r.id in call.ids && Exists(db, r)
  {
    var ids := call.ids * db.proposals.Keys;
    ProposalRowsOk(ids);
    hide ProposalRows;
    assert forall r :: r in ProposalRows(ids) <==> r.ProposalRow? && r.id in ids;
  }

  lemma OrderAsks(db: State, call: Step)
    requires call.PlaceOrder? || call.MoveOrder? || call.CancelOrder?
    ensures forall r :: r in FirstLocks(db, call) <==>
              Exists(db, r) && r == match call case PlaceOrder(_, _, x, _, _) => ProductRow(x)
                                               case MoveOrder(_, id, _) => OrderRow(id)
                                               case CancelOrder(_, id, _) => OrderRow(id)
  {
    if call.PlaceOrder? {
      var ids := {call.product} * db.products.Keys;
      ProductRowsOk(ids);
      hide ProductRows;
      assert forall r :: r in ProductRows(ids) <==> r.ProductRow? && r.id in ids;
    }
  }

  // ----- opening a proposal -----

  lemma ProposeGoesOn(db: State, tx: Tx)
    requires tx.call.Propose? && tx.stage == 0 && Exec(db, tx.call).1 == Done
    ensures CanAdvance(db, tx) && NextLocks(db, tx) == []
  {
    hide DedupPositive, CheckOffers, CheckTargets, Occupants;
  }

  lemma ProposeCommits(p: Path, tid: nat, call: Step) returns (q: Path)
    requires Ok(p) && SysInv(Last(p)) && Unhindered(Last(p), tid, call) && WouldCommit(Last(p), tid, call) && call.Propose?
    ensures CommitsAlone(p, q, call)
  {
    hide SysInv, FirstLocks, Needs, CanAdvance, NextLocks, Committed, Enabled, Fire, Exec, KeysOk, Exists;
    var sys := Last(p);
    ProposeAsks(sys.db, call);
    var p1, tx1 := Starts(p, tid, call);
    ProposeGoesOn(sys.db, tx1);
    var p2, tx2 := Proceeds(p1, tid);
    q := CommitsAtEnd(p2, tid);
    assert With(With(sys, tid, tx1), tid, tx2).txs - {tid} == sys.txs;
  }

  // ----- the other calls -----

  lemma AnswerCommits(p: Path, tid: nat, call: Step) returns (q: Path)
    requires Ok(p) && SysInv(Last(p)) && Unhindered(Last(p), tid, call) && WouldCommit(Last(p), tid, call)
    requires call.Act? && !call.call.AcceptCall?
    ensures CommitsAlone(p, q, call)
  {
    hide SysInv, FirstLocks, Committed, Enabled, Fire, Exec, KeysOk, Exists;
    var sys := Last(p);
    ActAsks(sys.db, call);
    var p1, tx1 := Starts(p, tid, call);
    q := CommitsAtEnd(p1, tid);
    assert With(sys, tid, tx1).txs - {tid} == sys.txs;
  }

  // An acceptance that would succeed passes the checks on its row and asks for its products.
  lemma AcceptGoesOn(db: State, tx: Tx)
    requires tx.call.Act? && tx.call.call.AcceptCall? && tx.stage == 0 && Exec(db, tx.call).1 == Done
    requires Agrees(db, tx.view) && forall h :: Holds(tx, h) <==> h == ProposalRow(tx.call.proposal) && Exists(db, h)
    ensures CanAdvance(db, tx)
    ensures forall r :: r in NextLocks(db, tx) <==> r.ProductRow? && Needs(db, tx.call, r) && Exists(db, r)
  {
    hide LoadForAction, ProductIds, Rivals;
    var pid := tx.call.proposal;
    assert Holds(tx, ProposalRow(pid));
    var ids := ProductIds(db.proposals[pid]) * db.products.Keys;
    ProductRowsOk(ids);
    hide ProductRows;
    assert forall r :: r in ProductRows(ids) <==> r.ProductRow? && r.id in ids;
  }

  // With its products locked it finds them on sale and no rival to close.
  lemma AcceptCloses(db: State, tx: Tx)
    requires tx.call.Act? && tx.call.call.AcceptCall? && tx.stage == 1 && Exec(db, tx.call).1 == Done
    requires Agrees(db, tx.view) && Exclusive(db.proposals)
    requires forall h :: Holds(tx, h) <==> Needs(db, tx.call, h) && Exists(db, h)
    ensures CanAdvance(db, tx) && NextLocks(db, tx) == []
  {
    var pid := tx.call.proposal;
    assert Holds(tx, ProposalRow(pid));
    NoRivals(db.proposals, pid);
    hide LoadForAction, ProductIds, Rivals, Exclusive, ProposalRows;
    forall x | x in tx.view.products ensures tx.view.products[x].status == OnSale {
      assert Holds(tx, ProductRow(x));
    }
    ProposalRowsOk({});
  }

  lemma AcceptLocks(p: Path, tid: nat, call: Step) returns (q: Path, tx: Tx)
    requires Ok(p) && SysInv(Last(p)) && Unhindered(Last(p), tid, call) && WouldCommit(Last(p), tid, call)
    requires call.Act? && call.call.AcceptCall?
    ensures Continues(p, q, With(Last(p), tid, tx), []) && SysInv(Last(q))
    ensures tx.call == call && tx.stage == 1 && tx.todo == []
    ensures forall r :: Holds(tx, r) <==> Needs(Last(p).db, call, r) && Exists(Last(p).db, r)
  {
    hide SysInv, FirstLocks, CanAdvance, NextLocks, Committed, Enabled, Fire, Exec, KeysOk, Exists, Agrees, Holds;
    var sys := Last(p);
    ActAsks(sys.db, call);
    var p1, tx1 := Starts(p, tid, call);
    ViewAgrees(Last(p1), tid);
    AcceptGoesOn(sys.db, tx1);
    q, tx := Proceeds(p1, tid);
    assert With(With(sys, tid, tx1), tid, tx) == With(sys, tid, tx);
  }

  lemma ExclusiveNow(sys: Sys)
    requires SysInv(sys)
    ensures Exclusive(sys.db.proposals)
  {
    SysInvDb(sys);
    UnfoldInv(sys.db);
  }

  lemma AcceptIsDone(p: Path, tid: nat) returns (q: Path, tx: Tx)
    requires Ok(p) && SysInv(Last(p)) && tid in Last(p).txs
    requires var sys := Last(p); var tx := sys.txs[tid];
             && tx.call.Act? && tx.call.call.AcceptCall? && tx.stage == 1 && tx.todo == [] && Exec(sys.db, tx.call).1 == Done
             && forall r :: Holds(tx, r) <==> Needs(sys.db, tx.call, r) && Exists(sys.db, r)
    ensures Continues(p, q, With(Last(p), tid, tx), []) && SysInv(Last(q))
    ensures tx.call == Last(p).txs[tid].call && tx.stage == 2 && tx.todo == [] && HoldsAll(Last(p).db, tx)
  {
    hide SysInv, Committed, Exec, Exists, Agrees, Exclusive, Needs, Holds, CanAdvance, NextLocks, Enabled, Fire, IsPath;
    ExclusiveNow(Last(p));
    ViewAgrees(Last(p), tid);
    AcceptCloses(Last(p).db, Last(p).txs[tid]);
    q, tx := Proceeds(p, tid);
  }

  lemma AcceptCommits(p: Path, tid: nat, call: Step) returns (q: Path)
    requires Ok(p) && SysInv(Last(p)) && Unhindered(Last(p), tid, call) && WouldCommit(Last(p), tid, call)
    requires call.Act? && call.call.AcceptCall?
    ensures CommitsAlone(p, q, call)
  {
    var sys := Last(p);
    assert tid !in sys.txs && KeysOk(sys.db, call) && Exec(sys.db, call).1 == Done;
    hide SysInv, Committed, Exec, KeysOk, Exists, Needs, Holds, Unhindered, HoldsAll, WouldCommit, IsPath;
    var p1, tx1 := AcceptLocks(p, tid, call);
    var p2, tx2 := AcceptIsDone(p1, tid);
    WithTwice(sys, tid, tx1, tx2);
    hide With;
    q := CommitsAtEnd(p2, tid);
    Join(p1, p2, q, Last(q), [call]);
    Join(p, p1, q, Last(q), [call]);
  }

  lemma OrderCommits(p: Path, tid: nat, call: Step) returns (q: Path)
    requires Ok(p) && SysInv(Last(p)) && Unhindered(Last(p), tid, call) && WouldCommit(Last(p), tid, call)
    requires call.PlaceOrder? || call.MoveOrder?
    ensures CommitsAlone(p, q, call)
  {
    hide SysInv, FirstLocks, Committed, Enabled, Fire, Exec, KeysOk, Exists;
    var sys := Last(p);
    OrderAsks(sys.db, call);
    var p1, tx1 := Starts(p, tid, call);
    q := CommitsAtEnd(p1, tid);
    assert With(sys, tid, tx1).txs - {tid} == sys.txs;
  }

  // A cancellation that would succeed passes the checks on its order and asks for its product.
  lemma CancelGoesOn(db: State, tx: Tx)
    requires tx.call.CancelOrder? && tx.stage == 0 && Exec(db, tx.call).1 == Done
    requires Agrees(db, tx.view) && forall h :: Holds(tx, h) <==> h == OrderRow(tx.call.order) && Exists(db, h)
    ensures CanAdvance(db, tx)
    ensures forall r :: r in NextLocks(db, tx) <==> r.ProductRow? && Needs(db, tx.call, r) && Exists(db, r)
  {
    var id := tx.call.order;
    assert Holds(tx, OrderRow(id));
    var ids := {db.orders[id].product} * db.products.Keys;
    ProductRowsOk(ids);
    hide ProductRows;
    assert forall r :: r in ProductRows(ids) <==> r.ProductRow? && r.id in ids;
  }

  lemma CancelCommits(p: Path, tid: nat, call: Step) returns (q: Path)
    requires Ok(p) && SysInv(Last(p)) && Unhindered(Last(p), tid, call) && WouldCommit(Last(p), tid, call) && call.CancelOrder?
    ensures CommitsAlone(p, q, call)
  {
    hide SysInv, FirstLocks, CanAdvance, NextLocks, Committed, Enabled, Fire, Exec, KeysOk, Exists, Agrees;
    var sys := Last(p);
    OrderAsks(sys.db, call);
    var p1, tx1 := Starts(p, tid, call);
    ViewAgrees(Last(p1), tid);
    CancelGoesOn(sys.db, tx1);
    var p2, tx2 := Proceeds(p1, tid);
    q := CommitsAtEnd(p2, tid);
    assert With(With(sys, tid, tx1), tid, tx2).txs - {tid} == sys.txs;
  }

  lemma CandidateCommits(p: Path, tid: nat, call: Step) returns (q: Path)
    requires Ok(p) && SysInv(Last(p)) && Unhindered(Last(p), tid, call) && KeysOk(Last(p).db, call)
    requires call.Settle? && IsCandidate(Last(p).db, call.ids)
    ensures CommitsAlone(p, q, call)
  {
    hide SysInv, FirstLocks, Committed, Fire, Exec, KeysOk;
    var sys := Last(p);
    SettleAsks(sys.db, call);
    var p1, tx1 := Starts(p, tid, call);
    forall x | x in call.ids ensures x in tx1.view.proposals {
      assert Holds(tx1, ProposalRow(x));
    }
    SettleEnds(Last(p1), tid);
    q := Finishes(p1, tid);
    assert With(sys, tid, tx1).txs - {tid} == sys.txs;
  }

  lemma SettleEnds(sys: Sys, tid: nat)
    requires tid in sys.txs
    requires var tx := sys.txs[tid];
             tx.todo == [] && tx.call.Settle? && tx.stage == 1 && tx.call.ids <= tx.view.proposals.Keys
    ensures Enabled(sys, Commit(tid))
  {
  }

  // The sweep begins without candidates and takes its batch.
  lemma SweepCommits(p: Path, tid: nat, call: Step) returns (q: Path)
    requires Ok(p) && SysInv(Last(p)) && tid !in Last(p).txs
    requires call.Settle? && IsFreeBatch(Last(p), tid, call.ids, call.now)
    ensures CommitsAlone(p, q, call)
  {
    hide SysInv, FirstLocks, Committed, Exec, KeysOk, IsFreeBatch, Enabled, Fire, Exists, IsPath;
    var sys := Last(p);
    var query := Step.Settle({}, call.now);
    SettleAsks(sys.db, query);
    var p1, tx1 := Starts(p, tid, query);
    BatchIsFree(sys, tid, tx1, call.ids);
    MicroKeeps(Last(p1), SkipLocked(tid, call.ids));
    var p2 := Go(p1, SkipLocked(tid, call.ids));
    SkipTakes(Last(p1), tid, call.ids);
    var tx2 := Last(p2).txs[tid];
    SettleEnds(Last(p2), tid);
    q := Finishes(p2, tid);
    assert With(With(sys, tid, tx1), tid, tx2).txs - {tid} == sys.txs;
  }

  lemma SkipTakes(sys: Sys, tid: nat, ids: set<nat>)
    requires tid in sys.txs && Enabled(sys, SkipLocked(tid, ids)) && ids <= sys.db.proposals.Keys
    ensures CommittedBy(sys, SkipLocked(tid, ids)) == []
    ensures var t := Fire(sys, SkipLocked(tid, ids));
            && t.db == sys.db && tid in t.txs && t == With(sys, tid, t.txs[tid])
            && t.txs[tid].call == Step.Settle(ids, sys.txs[tid].call.now) && t.txs[tid].stage == 1 && t.txs[tid].todo == []
            && ids <= t.txs[tid].view.proposals.Keys
  {
    hide IsDue;
  }

  lemma BatchIsFree(sys: Sys, tid: nat, tx: Tx, ids: set<nat>)
    requires tid !in sys.txs && tx.call.Settle? && tx.stage == 0 && tx.todo == [] && forall r :: !Holds(tx, r)
    requires IsFreeBatch(sys, tid, ids, tx.call.now)
    ensures Enabled(With(sys, tid, tx), SkipLocked(tid, ids)) && ids <= sys.db.proposals.Keys
  {
    hide Holds, IsDue;
    var next := With(sys, tid, tx);
    forall q | q in sys.db.proposals ensures q in LockedProposals(next) <==> !Spares(sys, tid, ProposalRow(q)) {
      if q in LockedProposals(next) {
        var u :| u in next.txs && Holds(next.txs[u], ProposalRow(q));
        assert u in sys.txs && u != tid && next.txs[u] == sys.txs[u];
      }
      if !Spares(sys, tid, ProposalRow(q)) {
        var u :| u in sys.txs && u != tid && Holds(sys.txs[u], ProposalRow(q));
        assert next.txs[u] == sys.txs[u];
      }
    }
    assert LockedProposals(next) == set q | q in sys.db.proposals && !Spares(sys, tid, ProposalRow(q));
  }

  lemma SingleCommits(p: Path, tid: nat, call: Step) returns (q: Path)
    requires Ok(p) && Unhindered(Last(p), tid, call) && KeysOk(Last(p).db, call) && IsSingle(call)
    ensures CommitsAlone(p, q, call)
  {
    hide Committed, Exec, KeysOk, Holds;
    var sys := Last(p);
    forall u, r | u in sys.txs && Touches(call, r) ensures !Holds(sys.txs[u], r) {
      assert Needs(sys.db, call, r);
    }
    q := Go(p, Single(call));
  }

  lemma RunsToCommit(p: Path, tid: nat, call: Step) returns (q: Path)
    requires Ok(p) && SysInv(Last(p)) && Unhindered(Last(p), tid, call) && WouldCommit(Last(p), tid, call)
    ensures CommitsAlone(p, q, call)
  {
    hide SysInv, Needs, Exec, KeysOk, Committed, IsCandidate, IsFreeBatch, CommitsAlone;
    match call
    case Propose(_, _, _, _, _) => q := ProposeCommits(p, tid, call);
    case Act(_, _, c, _, _) =>
      if c.AcceptCall? {
        q := AcceptCommits(p, tid, call);
      } else {
        q := AnswerCommits(p, tid, call);
      }
    case Settle(ids, _) =>
      if IsCandidate(Last(p).db, ids) {
        q := CandidateCommits(p, tid, call);
      } else {
        q := SweepCommits(p, tid, call);
      }
    case PlaceOrder(_, _, _, _, _) => q := OrderCommits(p, tid, call);
    case MoveOrder(_, _, _) => q := OrderCommits(p, tid, call);
    case CancelOrder(_, _, _) => q := CancelCommits(p, tid, call);
    case _ => q := SingleCommits(p, tid, call);
  }

  /** Progress: from any state of an interleaving, a call that would succeed as an atomic transaction can begin and run to its
      commit, whatever other transactions are running, as long as none of them holds a row that the call works on.
      It leaves the atomic transaction's database and the others as they are. */
  lemma CallCommits(p: Path, tid: nat, call: Step)
    requires Ok(p) && SysInv(Last(p)) && Unhindered(Last(p), tid, call) && WouldCommit(Last(p), tid, call)
    ensures exists q :: CommitsAlone(p, q, call)
  {
    hide SysInv, Unhindered, WouldCommit, CommitsAlone;
    var q := RunsToCommit(p, tid, call);
  }

  // ----- whole runs -----

  // Each step of the run would commit where it stands; a sweep settles a batch of all due rows.
  ghost predicate AllCommit(steps: seq<Step>) {
    forall i :: 0 <= i < |steps| ==> WouldCommit(Sys(Run(EMPTY, steps[..i]), map[]), 0, steps[i])
  }

  // An execution that has committed the run.
  ghost predicate Realizes(p: Path, steps: seq<Step>) {
    && IsExecution(p.states, p.micros) && Last(p) == Sys(Run(EMPTY, steps), map[])
    && Committed(p.states, p.micros) == steps
  }

  /** The converse of serializability: every run of transactions that succeed is the committed run of an execution. */
  lemma {:induction false} RunsAreExecutions(steps: seq<Step>)
    requires AllCommit(steps)
    ensures exists p :: Realizes(p, steps)
  {
    hide AllCommit, Realizes;
    if steps == [] {
      NothingRealized();
    } else {
      FirstCommit(steps);
      RunsAreExecutions(steps[..|steps| - 1]);
      var p :| Realizes(p, steps[..|steps| - 1]);
      OneCallMore(p, steps);
    }
  }

  lemma NothingRealized()
    ensures Realizes(Path([INITIAL], []), [])
  {
  }

  lemma OneCallMore(p: Path, steps: seq<Step>)
    requires steps != [] && AllCommit(steps) && Realizes(p, steps[..|steps| - 1])
    ensures exists q :: Realizes(q, steps)
  {
    hide Committed, AllCommit, Exec, Run, SysInv, Unhindered, IsCandidate, IsFreeBatch, Enabled, Fire, KeysOk, WouldCommit;
    var before, call := steps[..|steps| - 1], steps[|steps| - 1];
    FirstCommit(steps);
    ExecutionsAreSerializable(p.states, p.micros);
    NobodyHinders(Last(p), 0, call);
    var q := RunsToCommit(p, 0, call);
    assert before + [call] == steps;
    assert Realizes(q, steps);
  }

  lemma FirstCommit(steps: seq<Step>)
    requires steps != [] && AllCommit(steps)
    ensures var before, last := steps[..|steps| - 1], steps[|steps| - 1];
            && AllCommit(before) && WouldCommit(Sys(Run(EMPTY, before), map[]), 0, last)
            && Run(EMPTY, steps) == Exec(Run(EMPTY, before), last).0
  {
    hide Exec, KeysOk, IsCandidate, IsFreeBatch;
    var n := |steps| - 1;
    assert forall i :: 0 <= i < n ==> steps[..n][..i] == steps[..i];
  }

  lemma NobodyHinders(sys: Sys, tid: nat, call: Step)
    requires sys.txs == map[]
    ensures Unhindered(sys, tid, call)
  {
  }
}
