/** One proposal row: what may be done to it, what each action writes, and the
    reading of a row as a legal game replayed from its history. */
module Negotiation {
  import opened Entities

  const HOUR := 3600
  const DEFAULT_TTL_HOURS := 72

  // ----- the four user actions -----

  datatype Call =
    | AcceptCall
    | RejectCall(note: string)
    | CancelCall(note: string)
    | CounterCall(note: string, amount: int, payer: Option<Party>)

  function ActionOf(c: Call): Action {
    match c
    case AcceptCall => Accept
    case RejectCall(_) => Reject
    case CancelCall(_) => Cancel
    case CounterCall(_, _, _) => Counter
  }

  function TargetStatus(a: Action): Status {
    match a
    case Create => Pending
    case Counter => Countered
    case Accept => Accepted
    case Reject => Rejected
    case Cancel => Cancelled
    case Expire => Expired
  }

  // The outcome of the checks that precede every action on a locked row.
  datatype Load = Go(role: Party) | Refuse(code: ErrorCode) | Due

  function LoadForAction(p: Proposal, user: nat, action: Action, now: int): Load {
    if user != p.offeror && user != p.offeree then Refuse(NotExchangeParty)
    else
      var role := if user == p.offeror then Offeror else Offeree;
      if IsActive(p.status) && now > p.expiresAt then Due
      else if action == Counter && p.round >= 1 then Refuse(ExchangeRoundExhausted)
      else if p.status !in Transitions(TargetStatus(action)) then
        Refuse(if p.status == Expired then ExchangeExpired else ExchangeStateInvalid)
      else if (action == Accept || action == Reject || action == Counter) && role != p.turn then
        Refuse(ExchangeTurnInvalid)
      else if action == Cancel && role != Offeror then Refuse(NotExchangeParty)
      else Go(role)
  }

  // ----- what each action writes to the row -----

  function Opened(offeror: nat, offeree: nat, note: string, amount: int, payer: Option<Party>, ttlHours: int,
                  items: seq<Item>, now: int, wall: int): Proposal
  {
    var payer := if payer.Some? then payer.value else Offeror;
    var ttl := if ttlHours <= 0 then DEFAULT_TTL_HOURS else ttlHours;
    Proposal(offeror, offeree, Pending, Offeree, 0, note, amount, payer, None, None, None,
             now + ttl * HOUR, offeror, items,
             [Entry(offeror, Offeror, Create, note, amount, payer, wall)])
  }

  function AfterCounter(p: Proposal, user: nat, role: Party, note: string, amount: int, payer: Option<Party>, wall: int): Proposal {
    var note := if note == "" then p.note else note;
    var payer := if payer.Some? then payer.value else p.payer;
    p.(status := Countered, turn := Offeror, round := 1, note := note, amount := amount, payer := payer,
       lastActionBy := user,
       history := p.history + [Entry(user, role, Counter, note, amount, payer, wall)])
  }

  function AfterAccept(p: Proposal, user: nat, role: Party, now: int, wall: int): Proposal {
    p.(status := Accepted, acceptedAt := Some(now), lastActionBy := user,
       history := p.history + [Entry(user, role, Accept, p.note, p.amount, p.payer, wall)])
  }

  // A rejection or a cancellation carries only its own note; the terms columns take their defaults.
  function AfterReject(p: Proposal, user: nat, role: Party, note: string, now: int, wall: int): Proposal {
    p.(status := Rejected, rejectedAt := Some(now), lastActionBy := user,
       history := p.history + [Entry(user, role, Reject, note, 0, Offeror, wall)])
  }

  function AfterCancel(p: Proposal, user: nat, role: Party, note: string, now: int, wall: int): Proposal {
    p.(status := Cancelled, cancelledAt := Some(now), lastActionBy := user,
       history := p.history + [Entry(user, role, Cancel, note, 0, Offeror, wall)])
  }

  // Closed by the acceptance of an overlapping proposal.
  const AUTO_CLOSE_NOTE := "another exchange of a shared item was accepted"

  function AfterAutoClose(p: Proposal, wall: int): Proposal {
    p.(status := Cancelled, lastActionBy := 0,
       history := p.history + [Entry(0, System, Cancel, AUTO_CLOSE_NOTE, 0, Offeror, wall)])
  }

  const EXPIRE_NOTE := "no answer before the deadline"

  function ExpireEntry(now: int): Entry {
    Entry(0, System, Expire, EXPIRE_NOTE, 0, Offeror, now)
  }

  // The two writes of the settlement: the conditional update, then the history entry.
  function MarkExpired(p: Proposal): Proposal {
    p.(status := Expired, lastActionBy := 0)
  }

  function AfterExpiry(p: Proposal, now: int): Proposal {
    MarkExpired(p).(history := p.history + [ExpireEntry(now)])
  }

  predicate IsDue(p: Proposal, now: int) {
    IsActive(p.status) && p.expiresAt < now
  }

  predicate HasExpireEntry(h: seq<Entry>) {
    exists i :: 0 <= i < |h| && h[i].action == Expire
  }

  // ----- the history as a game -----

  // The columns that the actions overwrite.
  datatype Board = Board(status: Status, turn: Party, round: nat, note: string, amount: int, payer: Party, lastActionBy: nat)

  function BoardOf(p: Proposal): Board {
    Board(p.status, p.turn, p.round, p.note, p.amount, p.payer, p.lastActionBy)
  }

  predicate ByTurn(offeror: nat, offeree: nat, turn: Party, e: Entry) {
    e.role == turn && e.actor == if turn == Offeror then offeror else offeree
  }

  predicate BySystem(e: Entry) {
    e.role == System && e.actor == 0
  }

  function Move(offeror: nat, offeree: nat, b: Board, e: Entry): Option<Board> {
    if !IsActive(b.status) then None
    else
      match e.action
      case Create => None
      case Counter =>
        if b.status == Pending && ByTurn(offeror, offeree, b.turn, e)
        then Some(Board(Countered, Offeror, 1, e.note, e.amount, e.payer, e.actor)) else None
      case Accept =>
        if ByTurn(offeror, offeree, b.turn, e) && (e.note, e.amount, e.payer) == (b.note, b.amount, b.payer)
        then Some(b.(status := Accepted, lastActionBy := e.actor)) else None
      case Reject =>
        if ByTurn(offeror, offeree, b.turn, e) then Some(b.(status := Rejected, lastActionBy := e.actor)) else None
      case Cancel =>
        if BySystem(e) || ByTurn(offeror, offeree, Offeror, e)
        then Some(b.(status := Cancelled, lastActionBy := e.actor)) else None
      case Expire =>
        if BySystem(e) then Some(b.(status := Expired, lastActionBy := 0)) else None
  }

  // Replays a history from the empty board; None when some entry was not allowed.
  function Replay(offeror: nat, offeree: nat, h: seq<Entry>): Option<Board> {
    if |h| == 0 then None
    else if |h| == 1 then
      var e := h[0];
      if e.action == Create && ByTurn(offeror, offeree, Offeror, e)
      then Some(Board(Pending, Offeree, 0, e.note, e.amount, e.payer, e.actor)) else None
    else
      match Replay(offeror, offeree, h[..|h| - 1])
      case None => None
      case Some(b) => Move(offeror, offeree, b, h[|h| - 1])
  }

  // ----- the well-formed row -----

  ghost predicate ItemsOk(offeror: nat, offeree: nat, items: seq<Item>) {
    && (forall i, j :: 0 <= i < j < |items| ==> items[i].product != items[j].product)
    && (forall i :: 0 <= i < |items| ==> items[i].owner == if items[i].side == OfferSide then offeror else offeree)
    && (exists i :: 0 <= i < |items| && items[i].side == OfferSide)
    && (exists i :: 0 <= i < |items| && items[i].side == TargetSide)
  }

  // Which of the three time columns is set, and how it compares with the deadline.
  predicate TimesOk(p: Proposal) {
    && (p.acceptedAt.Some? <==> p.status == Accepted)
    && (p.acceptedAt.Some? ==> p.acceptedAt.value <= p.expiresAt)
    && (p.rejectedAt.Some? <==> p.status == Rejected)
    && (p.rejectedAt.Some? ==> p.rejectedAt.value <= p.expiresAt)
    && (p.cancelledAt.Some? ==> p.status == Cancelled && p.cancelledAt.value <= p.expiresAt)
    && (p.status == Cancelled && p.lastActionBy != 0 ==> p.cancelledAt.Some?)
    && (p.status == Expired ==> |p.history| > 0 && p.history[|p.history| - 1].at > p.expiresAt)
  }

  ghost predicate RowOk(p: Proposal) {
    && 0 < p.offeror && 0 < p.offeree && p.offeror != p.offeree
    && ItemsOk(p.offeror, p.offeree, p.items)
    && Replay(p.offeror, p.offeree, p.history) == Some(BoardOf(p))
    && TimesOk(p)
  }

  // The columns that nothing changes after the row is inserted.
  predicate SameDeal(p: Proposal, q: Proposal) {
    p.offeror == q.offeror && p.offeree == q.offeree && p.expiresAt == q.expiresAt && p.items == q.items
  }

  // q is p after exactly one more move.
  ghost predicate Advances(p: Proposal, q: Proposal) {
    && SameDeal(p, q)
    && IsActive(p.status)
    && |q.history| == |p.history| + 1
    && q.history[..|p.history|] == p.history
    && (RowOk(p) ==> RowOk(q))
  }

  // ----- each write is one legal move -----

  lemma OpenedIsOk(offeror: nat, offeree: nat, note: string, amount: int, payer: Option<Party>, ttlHours: int,
                   items: seq<Item>, now: int, wall: int)
    requires 0 < offeror && 0 < offeree && offeror != offeree
    requires ItemsOk(offeror, offeree, items)
    ensures RowOk(Opened(offeror, offeree, note, amount, payer, ttlHours, items, now, wall))
  {
  }

  lemma AcceptAdvances(p: Proposal, user: nat, role: Party, now: int, wall: int)
    requires LoadForAction(p, user, Accept, now) == Go(role)
    ensures Advances(p, AfterAccept(p, user, role, now, wall))
  {
  }

  lemma RejectAdvances(p: Proposal, user: nat, role: Party, note: string, now: int, wall: int)
    requires LoadForAction(p, user, Reject, now) == Go(role)
    ensures Advances(p, AfterReject(p, user, role, note, now, wall))
  {
  }

  lemma CancelAdvances(p: Proposal, user: nat, role: Party, note: string, now: int, wall: int)
    requires LoadForAction(p, user, Cancel, now) == Go(role)
    ensures Advances(p, AfterCancel(p, user, role, note, now, wall))
  {
  }

  lemma CounterAdvances(p: Proposal, user: nat, role: Party, note: string, amount: int, payer: Option<Party>, now: int, wall: int)
    requires LoadForAction(p, user, Counter, now) == Go(role)
    ensures Advances(p, AfterCounter(p, user, role, note, amount, payer, wall))
  {
  }

  lemma AutoCloseAdvances(p: Proposal, wall: int)
    requires IsActive(p.status)
    ensures Advances(p, AfterAutoClose(p, wall))
  {
  }

  lemma ExpiryAdvances(p: Proposal, now: int)
    requires IsDue(p, now)
    ensures Advances(p, AfterExpiry(p, now))
  {
  }

  // ----- what a well-formed row says -----

  // The grammar of histories: created countered? (accepted | rejected | cancelled | expired)?
  predicate IsWord(h: seq<Entry>) {
    && 1 <= |h| <= 3
    && h[0].action == Create
    && (|h| == 3 ==> h[1].action == Counter)
    && (forall i :: 0 < i < |h| ==> h[i].action != Create)
    && (|h| == 3 ==> h[2].action != Counter)
  }

  // The entry that set the terms in force: the counter-offer if there is one, otherwise the opening.
  function TermsEntry(h: seq<Entry>): Entry
    requires |h| > 0
  {
    if |h| > 1 && h[1].action == Counter then h[1] else h[0]
  }

  // Who moved, entry by entry.
  predicate RolesOk(offeror: nat, offeree: nat, h: seq<Entry>)
    requires IsWord(h)
  {
    && ByTurn(offeror, offeree, Offeror, h[0])
    && (|h| > 1 && h[1].action == Counter ==> ByTurn(offeror, offeree, Offeree, h[1]))
    && (var last := h[|h| - 1];
        && (last.action == Accept || last.action == Reject ==>
              ByTurn(offeror, offeree, if |h| == 2 then Offeree else Offeror, last))
        && (last.action == Accept ==>
              (last.note, last.amount, last.payer) ==
              (TermsEntry(h).note, TermsEntry(h).amount, TermsEntry(h).payer))
        && (last.action == Cancel ==> BySystem(last) || ByTurn(offeror, offeree, Offeror, last))
        && (last.action == Expire ==> BySystem(last)))
  }

  /** The grammar is exactly the set of histories that replay. */
  lemma {:induction false} ReplaysIffWord(offeror: nat, offeree: nat, h: seq<Entry>)
    ensures Replay(offeror, offeree, h).Some? <==> IsWord(h) && RolesOk(offeror, offeree, h)
    ensures Replay(offeror, offeree, h).Some? ==>
              Replay(offeror, offeree, h).value.status == TargetStatus(h[|h| - 1].action)
  {
    if |h| > 1 {
      var g := h[..|h| - 1];
      ReplaysIffWord(offeror, offeree, g);
      if |g| > 1 {
        assert g[..|g| - 1] == h[..|h| - 2];
        if |g| > 2 {
          assert !Replay(offeror, offeree, g).Some? || !IsActive(Replay(offeror, offeree, g).value.status);
        }
      }
    }
  }

  /** The status determines whose turn it is and how many counter-offers were made. */
  lemma StatusFixesTurnAndRound(p: Proposal)
    requires RowOk(p)
    ensures p.status == Pending ==> p.turn == Offeree && p.round == 0
    ensures p.status == Countered ==> p.turn == Offeror && p.round == 1
    ensures p.round == if |p.history| > 1 && p.history[1].action == Counter then 1 else 0
  {
    ReplaysIffWord(p.offeror, p.offeree, p.history);
    ReplayPrefixes(p.offeror, p.offeree, p.history);
  }

  // Unfolds the replay of a word down to its first entry.
  lemma ReplayPrefixes(offeror: nat, offeree: nat, h: seq<Entry>)
    requires IsWord(h)
    ensures |h| == 2 ==> h[..1] == [h[0]]
    ensures |h| == 3 ==> h[..2] == [h[0], h[1]] && [h[0], h[1]][..1] == [h[0]]
  {
  }

  /** An accepted row carries the terms of the last offer, and they were accepted by the
      party who had not made that offer. */
  lemma AgreedTerms(p: Proposal)
    requires RowOk(p) && p.status == Accepted
    ensures |p.history| >= 2
    ensures var offer, answer := TermsEntry(p.history), p.history[|p.history| - 1];
            && (p.note, p.amount, p.payer) == (offer.note, offer.amount, offer.payer)
            && answer.action == Accept && answer.actor == p.lastActionBy
            && answer.actor != offer.actor
            && {answer.actor, offer.actor} == {p.offeror, p.offeree}
  {
    ReplaysIffWord(p.offeror, p.offeree, p.history);
    ReplayPrefixes(p.offeror, p.offeree, p.history);
  }

  /** Exactly the expired rows carry an expiry entry, and they carry one. */
  lemma ExpireEntries(p: Proposal)
    requires RowOk(p)
    ensures HasExpireEntry(p.history) <==> p.status == Expired
    ensures forall i :: 0 <= i < |p.history| && p.history[i].action == Expire ==> i == |p.history| - 1
    ensures p.status == Expired ==> p.history[|p.history| - 1].action == Expire
  {
    ReplaysIffWord(p.offeror, p.offeree, p.history);
    var n := |p.history| - 1;
    assert p.status == TargetStatus(p.history[n].action);
    assert forall i :: 0 <= i < n ==> p.history[i].action == Create || p.history[i].action == Counter;
    if p.status == Expired {
      assert p.history[n].action == Expire;
    }
  }

  // Whose answer an active row is waiting for.
  function Awaited(p: Proposal): nat {
    if p.status == Pending then p.offeree else p.offeror
  }

  /** The checks let an action through exactly when the row is active, the deadline has not passed,
      and the caller is the awaited party (the offeror, for a cancellation; the offeree of a row
      without counter-offer, for a counter-offer). */
  lemma ActionAllowedIff(p: Proposal, user: nat, action: Action, now: int)
    requires RowOk(p)
    requires action in {Accept, Reject, Cancel, Counter}
    ensures LoadForAction(p, user, action, now).Go? <==>
              && IsActive(p.status) && now <= p.expiresAt
              && user == (if action == Cancel then p.offeror else Awaited(p))
              && (action == Counter ==> p.status == Pending)
    ensures LoadForAction(p, user, action, now).Go? ==>
              LoadForAction(p, user, action, now).role == if user == p.offeror then Offeror else Offeree
    ensures LoadForAction(p, user, action, now).Due? <==>
              user in {p.offeror, p.offeree} && IsActive(p.status) && now > p.expiresAt
    ensures LoadForAction(p, user, action, now) == Refuse(ExchangeExpired) <==>
              user in {p.offeror, p.offeree} && p.status == Expired && !(action == Counter && p.round == 1)
  {
    StatusFixesTurnAndRound(p);
  }

  /** And which refusal the other calls get. */
  lemma ActionRefusals(p: Proposal, user: nat, action: Action, now: int)
    requires RowOk(p)
    requires action in {Accept, Reject, Cancel, Counter}
    ensures var load := LoadForAction(p, user, action, now);
            var party := user in {p.offeror, p.offeree};
            var open := IsActive(p.status) && now <= p.expiresAt;
            var late := IsActive(p.status) && now > p.expiresAt;
            var again := action == Counter && p.round == 1;
            && (load == Refuse(NotExchangeParty) <==> !party || (open && action == Cancel && user == p.offeree))
            && (load == Refuse(ExchangeRoundExhausted) <==> party && !late && again)
            && (load == Refuse(ExchangeStateInvalid) <==> party && !IsActive(p.status) && p.status != Expired && !again)
            && (load == Refuse(ExchangeTurnInvalid) <==> party && open && !again && action != Cancel && user != Awaited(p))
  {
    StatusFixesTurnAndRound(p);
  }
}
