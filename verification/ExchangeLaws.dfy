/** What the exchange protocol guarantees over whole runs. */
module ExchangeLaws {
  import opened Entities
  import opened Negotiation
  import opened Transactions
  import opened Protocol
  import opened Safety

  // ----- one action -----

  // The user whom an action of a row is reserved to.
  function Entitled(p: Proposal, call: Call): nat {
    if call.CancelCall? then p.offeror else Awaited(p)
  }

  /** An action succeeds exactly when the proposal exists and is active, its deadline has not passed, the
      caller is the entitled party, a counter-offer is the first one, and an acceptance finds every
      product on sale; it must settle exactly when a party comes too late for an active proposal, and an
      acceptance meets a conflict exactly when only a product stands in its way. */
  lemma ActIff(s: State, user: nat, pid: nat, call: Call, now: int, wall: int)
    requires RowsOk(s.proposals) && ItemsExist(s)
    ensures ActTx(s, user, pid, call, now, wall).1 == Done <==>
              && pid in s.proposals && IsActive(s.proposals[pid].status) && now <= s.proposals[pid].expiresAt
              && user == Entitled(s.proposals[pid], call)
              && (call.CounterCall? ==> s.proposals[pid].status == Pending)
              && (call.AcceptCall? ==> forall x :: x in ProductIds(s.proposals[pid]) ==> s.products[x].status == OnSale)
    ensures ActTx(s, user, pid, call, now, wall).1 == MustSettle <==>
              && pid in s.proposals && IsActive(s.proposals[pid].status) && now > s.proposals[pid].expiresAt
              && user in {s.proposals[pid].offeror, s.proposals[pid].offeree}
    ensures ActTx(s, user, pid, call, now, wall).1 == Failed(ExchangeItemConflict) <==>
              && pid in s.proposals && IsActive(s.proposals[pid].status) && now <= s.proposals[pid].expiresAt
              && call.AcceptCall? && user == Awaited(s.proposals[pid])
              && exists x :: x in ProductIds(s.proposals[pid]) && s.products[x].status != OnSale
    ensures ActTx(s, user, pid, call, now, wall).1 != Done ==> ActTx(s, user, pid, call, now, wall).0 == s
  {
    hide RowOk, ProductIds;
    if pid in s.proposals {
      ActionAllowedIff(s.proposals[pid], user, ActionOf(call), now);
      ActionRefusals(s.proposals[pid], user, ActionOf(call), now);
    }
  }

  /** And exactly which calls get the other refusals. */
  lemma ActRefusals(s: State, user: nat, pid: nat, call: Call, now: int, wall: int)
    requires RowsOk(s.proposals) && ItemsExist(s)
    ensures ActTx(s, user, pid, call, now, wall).1 == Failed(ExchangeNotFound) <==> pid !in s.proposals
    ensures pid in s.proposals ==>
              var p, r := s.proposals[pid], ActTx(s, user, pid, call, now, wall).1;
              var party := user == p.offeror || user == p.offeree;
              var active := p.status == Pending || p.status == Countered;
              var open := active && now <= p.expiresAt;
              var again := call.CounterCall? && p.round == 1 && (active ==> open);
              && (r == Failed(NotExchangeParty) <==> !party || (open && call.CancelCall? && user == p.offeree))
              && (r == Failed(ExchangeRoundExhausted) <==> party && again)
              && (r == Failed(ExchangeExpired) <==> party && p.status == Expired && !again)
              && (r == Failed(ExchangeStateInvalid) <==> party && !active && p.status != Expired && !again)
              && (r == Failed(ExchangeTurnInvalid) <==>
                    party && open && !again && !call.CancelCall? && user != (if p.status == Pending then p.offeree else p.offeror))
  {
    hide RowOk, ProductIds;
    if pid in s.proposals {
      ActionAllowedIff(s.proposals[pid], user, ActionOf(call), now);
      ActionRefusals(s.proposals[pid], user, ActionOf(call), now);
    }
  }

  /** A rejection, cancellation or counter-offer changes its own row only, by one legal move. */
  lemma AnswerEffect(s: State, user: nat, pid: nat, call: Call, now: int, wall: int)
    requires RowsOk(s.proposals) && !call.AcceptCall?
    requires ActTx(s, user, pid, call, now, wall).1 == Done
    ensures pid in s.proposals
    ensures var t := ActTx(s, user, pid, call, now, wall).0;
            var p := s.proposals[pid];
            && pid in t.proposals
            && t == s.(proposals := s.proposals[pid := t.proposals[pid]])
            && (var q := t.proposals[pid];
                && Advances(p, q)
                && match call
                   case RejectCall(note) =>
                     var role := if p.status == Pending then Offeree else Offeror;
                     q == p.(status := Rejected, rejectedAt := Some(now), lastActionBy := user,
                             history := p.history + [Entry(user, role, Reject, note, 0, Offeror, wall)])
                   case CancelCall(note) =>
                     q == p.(status := Cancelled, cancelledAt := Some(now), lastActionBy := p.offeror,
                             history := p.history + [Entry(p.offeror, Offeror, Cancel, note, 0, Offeror, wall)])
                   case CounterCall(note, amount, payer) =>
                     var words := if note == "" then p.note else note;
                     var side := if payer.Some? then payer.value else p.payer;
                     q == p.(status := Countered, turn := Offeror, round := 1, note := words, amount := amount, payer := side,
                             lastActionBy := p.offeree,
                             history := p.history + [Entry(p.offeree, Offeree, Counter, words, amount, side, wall)]))
  {
    PartiesDiffer(s.proposals[pid]);
    hide RowOk, Advances;
    ActAdvances(s, user, pid, call, now, wall);
    ActionAllowedIff(s.proposals[pid], user, ActionOf(call), now);
    hide LoadForAction;
  }

  lemma PartiesDiffer(p: Proposal)
    requires RowOk(p)
    ensures p.offeror != p.offeree
  {
  }

  // ----- rows over runs -----

  lemma StepAdvances(s: State, step: Step)
    requires Inv(s)
    ensures var t := Apply(s, step);
            forall q :: q in s.proposals ==>
              q in t.proposals && (t.proposals[q] == s.proposals[q] || Advances(s.proposals[q], t.proposals[q]))
  {
    hide RowOk, LedgerOk, CreditOk, ReviewsOk, OrdersOk, Exclusive;
    if step.Act? {
      ActAdvances(s, step.user, step.proposal, step.call, step.now, step.wall);
    } else if step.Settle? {
      SettleAdvances(s, step.ids, step.now);
    }
  }

  /** Over any run a proposal keeps its parties, items and deadline, its history only grows,
      and a terminal row never changes again. */
  lemma {:induction false} TerminalIsForever(s: State, steps: seq<Step>, q: nat)
    requires Inv(s) && q in s.proposals
    ensures var t := Run(s, steps);
            && q in t.proposals
            && SameDeal(s.proposals[q], t.proposals[q])
            && s.proposals[q].history <= t.proposals[q].history
            && (!IsActive(s.proposals[q].status) ==> t.proposals[q] == s.proposals[q])
  {
    hide RowOk, Apply;
    if steps != [] {
      var before := steps[..|steps| - 1];
      TerminalIsForever(s, before, q);
      RunKeepsInv(s, before);
      StepAdvances(Run(s, before), steps[|steps| - 1]);
    }
  }

  // Whether this step ended proposal q: a successful accept, reject or cancel of it, or its settlement.
  ghost predicate Ends(s: State, step: Step, q: nat) {
    match step
    case Act(user, pid, call, now, wall) =>
      pid == q && !call.CounterCall? && ActTx(s, user, pid, call, now, wall).1 == Done
    case Settle(ids, now) => q in DueIn(s.proposals, ids, now)
    case _ => false
  }

  ghost function Endings(s: State, steps: seq<Step>, q: nat): nat {
    if steps == [] then 0
    else
      var before := steps[..|steps| - 1];
      Endings(s, before, q) + if Ends(Run(s, before), steps[|steps| - 1], q) then 1 else 0
  }

  lemma ActEnds(s: State, user: nat, pid: nat, call: Call, now: int, wall: int, q: nat)
    requires Exclusive(s.proposals) && q in s.proposals
    ensures var (t, r) := ActTx(s, user, pid, call, now, wall);
            var ends := pid == q && !call.CounterCall? && r == Done;
            && t.proposals.Keys == s.proposals.Keys
            && (ends ==> IsActive(s.proposals[q].status))
            && (!IsActive(t.proposals[q].status) <==> !IsActive(s.proposals[q].status) || ends)
  {
    hide RowOk;
    if ActTx(s, user, pid, call, now, wall).1 == Done {
      assert IsActive(s.proposals[pid].status);
      if call.AcceptCall? {
        NoRivals(s.proposals, pid);
      }
    }
  }

  lemma SettleEnds(s: State, ids: set<nat>, now: int, q: nat)
    requires RowsOk(s.proposals) && q in s.proposals
    ensures var t := SettleTx(s, ids, now).0;
            && q in t.proposals
            && (q in DueIn(s.proposals, ids, now) ==> IsActive(s.proposals[q].status))
            && (!IsActive(t.proposals[q].status) <==> !IsActive(s.proposals[q].status) || q in DueIn(s.proposals, ids, now))
  {
    SettleIsExact(s, ids, now);
    hide SettleTx, RowsOk;
  }

  lemma StepEnds(s: State, step: Step, q: nat)
    requires Inv(s) && q in s.proposals
    ensures var t := Apply(s, step);
            && q in t.proposals
            && (Ends(s, step, q) ==> IsActive(s.proposals[q].status))
            && (!IsActive(t.proposals[q].status) <==> !IsActive(s.proposals[q].status) || Ends(s, step, q))
  {
    hide RowsOk, LedgerOk, CreditOk, ReviewsOk, OrdersOk, ItemsExist, Exclusive, ActTx, SettleTx;
    match step
    case Act(user, pid, call, now, wall) => ActEnds(s, user, pid, call, now, wall, q);
    case Settle(ids, now) => SettleEnds(s, ids, now, q);
    case Propose(_, _, _, _, _) => hide ValidateItems, DedupPositive, AnyBusy, Overlap, BuildItems;
    case _ => PlainTables(s, step);
  }

  /** One winner: a proposal is ended at most once in any run, and once exactly when it became terminal in it. */
  lemma {:induction false} OneWinner(s: State, steps: seq<Step>, q: nat)
    requires Inv(s) && q in s.proposals
    ensures q in Run(s, steps).proposals
    ensures Endings(s, steps, q) ==
            if IsActive(s.proposals[q].status) && !IsActive(Run(s, steps).proposals[q].status) then 1 else 0
  {
    hide RowOk, Apply, Ends;
    TerminalIsForever(s, steps, q);
    if steps != [] {
      var before := steps[..|steps| - 1];
      OneWinner(s, before, q);
      RunKeepsInv(s, before);
      TerminalIsForever(s, before, q);
      StepEnds(Run(s, before), steps[|steps| - 1], q);
    }
  }

  // What a row says about the negotiation behind it.
  ghost predicate FairDeal(p: Proposal) {
    && IsWord(p.history) && RolesOk(p.offeror, p.offeree, p.history)
    && Replay(p.offeror, p.offeree, p.history) == Some(BoardOf(p))
    && (p.status == Pending ==> p.turn == Offeree && p.round == 0)
    && (p.status == Countered ==> p.turn == Offeror && p.round == 1)
    && (p.acceptedAt.Some? ==> p.acceptedAt.value <= p.expiresAt)
    && (p.rejectedAt.Some? ==> p.rejectedAt.value <= p.expiresAt)
    && (p.cancelledAt.Some? ==> p.cancelledAt.value <= p.expiresAt)
    && (forall i :: 0 <= i < |p.history| && p.history[i].action == Expire ==> p.history[i].at > p.expiresAt)
    && (p.status == Accepted ==>
          var offer := TermsEntry(p.history);
          && (p.note, p.amount, p.payer) == (offer.note, offer.amount, offer.payer)
          && {p.lastActionBy, offer.actor} == {p.offeror, p.offeree})
  }

  lemma RowIsFair(p: Proposal)
    requires RowOk(p)
    ensures FairDeal(p)
  {
    ReplaysIffWord(p.offeror, p.offeree, p.history);
    StatusFixesTurnAndRound(p);
    ExpireEntries(p);
    if p.status == Accepted {
      AgreedTerms(p);
    }
  }

  /** In every reachable state: histories are legal games whose replay is the row, the times respect the
      deadline, and accepted terms were offered by one party and accepted by the other. */
  lemma ReachableRows(steps: seq<Step>, q: nat)
    requires q in Run(EMPTY, steps).proposals
    ensures FairDeal(Run(EMPTY, steps).proposals[q])
  {
    ReachableIsSafe(steps);
    RowIsFair(Run(EMPTY, steps).proposals[q]);
    hide RowOk, FairDeal;
  }

  // ----- lazy expiry -----

  // The reply of a call whose action met a passed deadline, from its settlement and its final read.
  function LateReply(settled: nat, p: Proposal): Reply {
    if settled > 0 || p.status == Expired then Failed(ExchangeExpired) else Failed(ExchangeStateInvalid)
  }

  /** Two-phase lazy expiry. Other transactions may commit between the rolled-back action and its settlement, and
      again before the final read. The action leaves no effect, the proposal ends terminal, and the reply
      is Expired exactly when the final status is expired. */
  lemma LazyExpiry(s: State, user: nat, pid: nat, call: Call, now: int, wall: int, between: seq<Step>, later: seq<Step>)
    requires Inv(s)
    requires ActTx(s, user, pid, call, now, wall).1 == MustSettle
    ensures ActTx(s, user, pid, call, now, wall).0 == s
    ensures pid in s.proposals
    ensures var s1 := Run(s, between);
            var (s2, settled) := SettleTx(s1, {pid}, now);
            var s3 := Run(s2, later);
            && pid in s1.proposals && pid in s3.proposals && settled.Count?
            && !IsActive(s3.proposals[pid].status)
            && (LateReply(settled.n, s3.proposals[pid]) == Failed(ExchangeExpired) <==> s3.proposals[pid].status == Expired)
            && (LateReply(settled.n, s3.proposals[pid]) == Failed(ExchangeStateInvalid) <==>
                  s1.proposals[pid].status in {Accepted, Rejected, Cancelled})
  {
    hide RowOk, LedgerOk, CreditOk, ReviewsOk, OrdersOk, Exclusive;
    var s1 := Run(s, between);
    RunKeepsInv(s, between);
    TerminalIsForever(s, between, pid);
    SettleIsExact(s1, {pid}, now);
    var step := Step.Settle({pid}, now);
    StepKeepsInv(s1, step);
    var s2 := SettleTx(s1, {pid}, now).0;
    assert s2 == Apply(s1, step);
    TerminalIsForever(s2, later, pid);
    var hit := DueIn(s1.proposals, {pid}, now);
    if IsActive(s1.proposals[pid].status) {
      assert hit == {pid};
    } else {
      assert hit == {};
    }
  }

  // Rows that differ at most in the time of the expiry entry.
  ghost predicate SameUpToExpiryTime(p: Proposal, q: Proposal) {
    && p.(history := []) == q.(history := [])
    && |p.history| == |q.history|
    && forall i :: 0 <= i < |p.history| ==>
         p.history[i] == q.history[i] || (p.history[i].action == Expire && p.history[i].(at := 0) == q.history[i].(at := 0))
  }

  lemma ExpiryTimesOnly(p: Proposal, now: int, sweepAt: int)
    ensures SameUpToExpiryTime(AfterExpiry(p, now), AfterExpiry(p, sweepAt))
  {
  }

  // A settlement of a due row, and a second one after it.
  lemma SettleRow(s: State, ids: set<nat>, now: int, pid: nat)
    requires RowsOk(s.proposals) && pid in s.proposals
    ensures var t := SettleTx(s, ids, now).0;
            && RowsOk(t.proposals) && pid in t.proposals
            && t.proposals[pid] ==
               if pid in ids && IsDue(s.proposals[pid], now) then AfterExpiry(s.proposals[pid], now) else s.proposals[pid]
  {
    hide RowOk;
    SettleAdvances(s, ids, now);
    SettleIsExact(s, ids, now);
    hide SettleTx;
  }

  /** A party that acts on an expired proposal is told so, unless it makes a further counter-offer. */
  lemma ExpiredAnswer(s: State, user: nat, pid: nat, call: Call, now: int, wall: int)
    requires pid in s.proposals && s.proposals[pid].status == Expired
    requires user in {s.proposals[pid].offeror, s.proposals[pid].offeree}
    ensures ActTx(s, user, pid, call, now, wall) ==
            (s, Failed(if call.CounterCall? && s.proposals[pid].round >= 1 then ExchangeRoundExhausted else ExchangeExpired))
  {
  }

  // The three final rows that the two orders meet.
  lemma SweepAndSettleRows(s: State, pid: nat, now: int, ids: set<nat>, sweepAt: int)
    requires RowsOk(s.proposals) && pid in s.proposals && pid in ids
    requires IsDue(s.proposals[pid], now) && IsDue(s.proposals[pid], sweepAt)
    ensures var p := s.proposals[pid];
            var acted := SettleTx(s, {pid}, now);
            var actedThenSwept := SettleTx(acted.0, ids, sweepAt).0;
            var swept := SettleTx(s, ids, sweepAt).0;
            && acted.1 == Count(1)
            && pid in actedThenSwept.proposals && actedThenSwept.proposals[pid] == AfterExpiry(p, now)
            && pid in swept.proposals && swept.proposals[pid] == AfterExpiry(p, sweepAt)
  {
    hide RowOk;
    SettleIsExact(s, {pid}, now);
    assert DueIn(s.proposals, {pid}, now) == {pid};
    hide SettleTx, RowsOk;
    SettleRow(s, {pid}, now, pid);
    SettleRow(SettleTx(s, {pid}, now).0, ids, sweepAt, pid);
    SettleRow(s, ids, sweepAt, pid);
  }

  /** Sweeping a due proposal before or after a late call of one of its parties ends in the same row, up to
      the time of the expiry entry; the reply is the same Expired both ways, except that a further counter-offer
      on a countered proposal is told that the rounds are exhausted once the sweep has passed. */
  lemma SweepAndActionCommute(s: State, user: nat, pid: nat, call: Call, now: int, wall: int, ids: set<nat>, sweepAt: int)
    requires RowsOk(s.proposals)
    requires ActTx(s, user, pid, call, now, wall).1 == MustSettle
    requires pid in ids && pid in s.proposals && s.proposals[pid].expiresAt < sweepAt
    ensures var acted := SettleTx(s, {pid}, now);
            var actedThenSwept := SettleTx(acted.0, ids, sweepAt).0;
            var swept := SettleTx(s, ids, sweepAt).0;
            var (sweptThenActed, reply) := ActTx(swept, user, pid, call, now, wall);
            && acted.1 == Count(1)
            && pid in actedThenSwept.proposals && pid in sweptThenActed.proposals
            && SameUpToExpiryTime(actedThenSwept.proposals[pid], sweptThenActed.proposals[pid])
            && sweptThenActed == swept
            && LateReply(1, actedThenSwept.proposals[pid]) == Failed(ExchangeExpired)
            && reply == Failed(if call.CounterCall? && s.proposals[pid].status == Countered
                               then ExchangeRoundExhausted else ExchangeExpired)
  {
    var p := s.proposals[pid];
    assert IsDue(p, now) && user in {p.offeror, p.offeree};
    StatusFixesTurnAndRound(p);
    hide SettleTx, RowsOk, RowOk, SameUpToExpiryTime, ActTx;
    SweepAndSettleRows(s, pid, now, ids, sweepAt);
    ExpiryTimesOnly(p, now, sweepAt);
    ExpiredAnswer(SettleTx(s, ids, sweepAt).0, user, pid, call, now, wall);
  }

  /** Repeating a settlement changes nothing, and neither does a settlement of the candidates already settled at any
      other time; exactly the expired rows have an expiry entry. */
  lemma SettleIsIdempotent(s: State, ids: set<nat>, now: int, later: int)
    requires RowsOk(s.proposals)
    ensures var t := SettleTx(s, ids, now).0;
            && SettleTx(t, ids, now) == (t, Count(0))
            && SettleTx(t, DueIn(s.proposals, ids, now), later) == (t, Count(0))
            && (forall q :: q in DueIn(s.proposals, ids, now) ==> HasExpireEntry(t.proposals[q].history))
            && (forall q :: q in t.proposals ==> (HasExpireEntry(t.proposals[q].history) <==> t.proposals[q].status == Expired))
  {
    hide RowOk, HasExpireEntry;
    SettleIsExact(s, ids, now);
    var t := SettleTx(s, ids, now).0;
    forall q | q in t.proposals
      ensures HasExpireEntry(t.proposals[q].history) <==> t.proposals[q].status == Expired
      ensures q in ids ==> !IsDue(t.proposals[q], now)
    {
      SettleRow(s, ids, now, q);
      ExpireEntries(t.proposals[q]);
    }
    assert DueIn(t.proposals, ids, now) == {};
    assert DueIn(t.proposals, DueIn(s.proposals, ids, now), later) == {};
  }
}
