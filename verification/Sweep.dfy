/** The background sweep: it settles the earliest due proposals, in batches, skipping locked rows. */
module Sweep {
  import opened Entities
  import opened Negotiation
  import opened Transactions
  import opened Protocol

  const BATCH := 200

  ghost function DueRows(proposals: map<nat, Proposal>, now: int): set<nat> {
    set q | q in proposals && IsDue(proposals[q], now)
  }

  function Min(a: nat, b: nat): nat {
    if a < b then a else b
  }

  /** What the locking query returns: as many due rows as the limit allows among those that nobody
      has locked, the earliest deadlines first. */
  ghost predicate IsBatch(proposals: map<nat, Proposal>, locked: set<nat>, now: int, limit: nat, ids: set<nat>) {
    var free := DueRows(proposals, now) - locked;
    && ids <= free
    && |ids| == Min(limit, |free|)
    && forall q, r :: q in ids && r in free - ids ==> proposals[q].expiresAt <= proposals[r].expiresAt
  }

  lemma SubsetSize<T>(a: set<T>, b: set<T>)
    requires a <= b
    ensures |b - a| == |b| - |a|
  {
    assert b == a + (b - a);
  }

  // The rows after the settlement of due candidates.
  lemma BatchSettled(s: State, ids: set<nat>, now: int)
    requires RowsOk(s.proposals) && ids <= DueRows(s.proposals, now)
    ensures var (t, reply) := SettleTx(s, ids, now);
            && reply == Count(|ids|)
            && RowsOk(t.proposals) && t.proposals.Keys == s.proposals.Keys
            && forall q :: q in s.proposals ==>
                 t.proposals[q] == if q in ids then AfterExpiry(s.proposals[q], now) else s.proposals[q]
  {
    hide RowOk;
    assert DueIn(s.proposals, ids, now) == ids;
    SettleAdvances(s, ids, now);
    SettleIsExact(s, ids, now);
    hide SettleTx;
  }

  /** A sweep removes exactly its batch from the due rows and reports its size; whenever some due row is
      unlocked, fewer remain due. */
  lemma SweepShrinks(s: State, locked: set<nat>, now: int, limit: nat, ids: set<nat>)
    requires RowsOk(s.proposals) && IsBatch(s.proposals, locked, now, limit, ids)
    ensures var (t, reply) := SettleTx(s, ids, now);
            && reply == Count(|ids|)
            && RowsOk(t.proposals)
            && DueRows(t.proposals, now) == DueRows(s.proposals, now) - ids
            && |DueRows(t.proposals, now)| == |DueRows(s.proposals, now)| - Min(limit, |DueRows(s.proposals, now) - locked|)
            && (forall q :: q in s.proposals && q !in ids ==> q in t.proposals && t.proposals[q] == s.proposals[q])
            && (0 < limit && DueRows(s.proposals, now) - locked != {} ==>
                  |DueRows(t.proposals, now)| < |DueRows(s.proposals, now)|)
  {
    hide RowsOk, SettleTx;
    BatchSettled(s, ids, now);
    assert DueRows(SettleTx(s, ids, now).0.proposals, now) == DueRows(s.proposals, now) - ids;
    SubsetSize(ids, DueRows(s.proposals, now));
  }

  // Consecutive sweeps at one time, with no other transaction holding a row.
  ghost predicate Sweeps(states: seq<State>, now: int) {
    && |states| > 0
    && RowsOk(states[0].proposals)
    && forall i :: 0 < i < |states| ==> SweptTo(states[i - 1], states[i], now)
  }

  ghost predicate SweptTo(s: State, t: State, now: int) {
    exists ids :: IsBatch(s.proposals, {}, now, 200, ids) && t == SettleTx(s, ids, now).0
  }

  // How far k sweeps have come from the rows `first`.
  ghost predicate Drained(first: map<nat, Proposal>, now: int, k: nat, rows: map<nat, Proposal>) {
    var n := |DueRows(first, now)|;
    && |DueRows(rows, now)| == (if n <= 200 * k then 0 else n - 200 * k)
    && DueRows(rows, now) <= DueRows(first, now)
    && (forall q, r :: q in DueRows(first, now) - DueRows(rows, now) && r in DueRows(rows, now) ==>
          first[q].expiresAt <= first[r].expiresAt)
    && (forall r :: r in DueRows(rows, now) ==> rows[r] == first[r])
  }

  lemma DrainStep(first: map<nat, Proposal>, now: int, k: nat, s: State, ids: set<nat>)
    requires RowsOk(s.proposals) && Drained(first, now, k, s.proposals)
    requires IsBatch(s.proposals, {}, now, BATCH, ids)
    ensures var t := SettleTx(s, ids, now).0;
            RowsOk(t.proposals) && Drained(first, now, k + 1, t.proposals)
  {
    hide RowsOk, SettleTx, IsDue;
    SweepShrinks(s, {}, now, BATCH, ids);
    assert DueRows(s.proposals, now) - {} == DueRows(s.proposals, now);
  }

  /** After k sweeps, n due proposals have become max(0, n - 200 k), and none of those settled
      had a later deadline than one that remains. */
  lemma {:induction false} SweepsDrain(states: seq<State>, now: int)
    requires Sweeps(states, now)
    ensures RowsOk(states[|states| - 1].proposals)
    ensures Drained(states[0].proposals, now, |states| - 1, states[|states| - 1].proposals)
  {
    hide RowsOk, SettleTx, IsBatch, DueRows;
    if |states| > 1 {
      var k := |states| - 1;
      SweepsDrain(states[..k], now);
      assert SweptTo(states[k - 1], states[k], now);
      var ids :| IsBatch(states[k - 1].proposals, {}, now, BATCH, ids) && states[k] == SettleTx(states[k - 1], ids, now).0;
      DrainStep(states[0].proposals, now, k - 1, states[k - 1], ids);
    }
  }

  /** There always is such a batch. */
  lemma {:induction false} BatchExists(proposals: map<nat, Proposal>, locked: set<nat>, now: int, limit: nat)
    ensures exists ids :: IsBatch(proposals, locked, now, limit, ids)
  {
    var free := DueRows(proposals, now) - locked;
    if limit == 0 || free == {} {
      assert IsBatch(proposals, locked, now, limit, {});
    } else {
      BatchExists(proposals, locked, now, limit - 1);
      var ids :| IsBatch(proposals, locked, now, limit - 1, ids);
      if |ids| == |free| {
        assert IsBatch(proposals, locked, now, limit, ids);
      } else {
        SubsetSize(ids, free);
        var next := Earliest(proposals, free - ids);
        assert IsBatch(proposals, locked, now, limit, ids + {next});
      }
    }
  }

  // The row of a non-empty set with the earliest deadline.
  lemma {:induction false} Earliest(proposals: map<nat, Proposal>, rows: set<nat>) returns (first: nat)
    requires rows != {} && rows <= proposals.Keys
    ensures first in rows && forall r :: r in rows ==> proposals[first].expiresAt <= proposals[r].expiresAt
    decreases rows
  {
    first :| first in rows;
    if rows != {first} {
      var other := Earliest(proposals, rows - {first});
      if proposals[other].expiresAt < proposals[first].expiresAt {
        first := other;
      }
    }
  }
}
