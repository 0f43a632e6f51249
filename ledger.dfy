/** The card table as a value, and each state-changing operation of the card
    service as a function from the table before to the outcome and the table
    after. The service class proves its methods against these functions;
    the lemmas here state what the operations promise: the order of the
    transfer checks, conservation of money, non-negative balances, no effect
    on failure, and the allowed status changes. */
module Ledger {
  import opened CardModel
  import opened Responses

  /** The card table, keyed by card id. */
  type Cards = map<int, Card>

  datatype Outcome<T> = Outcome(result: Result<T>, cards: Cards)

  const TransferMessage: string := "Transfer completed successfully"

  /** Every card is filed under its own id and no balance is negative. */
  ghost predicate WellFormed(cards: Cards)
  {
    forall id | id in cards :: cards[id].id == id && cards[id].balance >= 0
  }

  /** Some card id of a non-empty table. */
  ghost function Pick(cards: Cards): (id: int)
    requires cards != map[]
    ensures id in cards
  {
    assert (forall id :: id !in cards) ==> cards == map[];
    var id :| id in cards; id
  }

  /** The sum of all balances in the table. */
  ghost function Total(cards: Cards): int
    decreases |cards|
  {
    if cards == map[] then 0
    else
      var id := Pick(cards);
      cards[id].balance + Total(cards - {id})
  }

  /** Any card can be taken out of the total first. */
  lemma {:induction false} TotalRemove(cards: Cards, id: int)
    requires id in cards
    ensures Total(cards) == cards[id].balance + Total(cards - {id})
    decreases |cards|
  {
    var k := Pick(cards);
    if k != id {
      assert (cards - {k}).Keys == cards.Keys - {k};
      assert (cards - {id}).Keys == cards.Keys - {id};
      TotalRemove(cards - {k}, id);
      TotalRemove(cards - {id}, k);
      assert cards - {k} - {id} == cards - {id} - {k};
    }
  }

  /** Replacing one card changes the total by the change of its balance. */
  lemma TotalUpdate(cards: Cards, id: int, c: Card)
    requires id in cards
    ensures Total(cards[id := c]) == Total(cards) - cards[id].balance + c.balance
  {
    TotalRemove(cards, id);
    TotalRemove(cards[id := c], id);
    assert cards[id := c] - {id} == cards - {id};
  }

  /** Two tables with the same ids and the same balances have the same total. */
  lemma {:induction false} TotalSameBalances(a: Cards, b: Cards)
    requires a.Keys == b.Keys
    requires forall id | id in a :: a[id].balance == b[id].balance
    ensures Total(a) == Total(b)
    decreases |a|
  {
    if a != map[] {
      var id := Pick(a);
      TotalRemove(a, id);
      TotalRemove(b, id);
      assert (a - {id}).Keys == a.Keys - {id};
      TotalSameBalances(a - {id}, b - {id});
    }
  }

  // ---------------------------------------------------------------- transfer

  /** Every check a transfer must pass, as one condition. */
  predicate TransferAllowed(cards: Cards, callerId: int, fromId: int, toId: int, amount: int, today: int)
  {
    && fromId != toId
    && fromId in cards && toId in cards
    && cards[fromId].owner.id == callerId && cards[toId].owner.id == callerId
    && IsActive(cards[fromId], today) && IsActive(cards[toId], today)
    && cards[fromId].balance >= amount
  }

  /** The transfer checks in the order the service makes them; the first
      that fails decides the error. */
  function TransferCheck(cards: Cards, callerId: int, fromId: int, toId: int, amount: int, today: int): (r: Option<Error>)
    ensures r.None? <==> TransferAllowed(cards, callerId, fromId, toId, amount, today)
    // 1. the same id on both sides, decided before any card is looked up
    ensures fromId == toId ==> r == Some(BadRequest(SameCard))
    // 2. a missing card, the source first
    ensures fromId != toId && fromId !in cards ==> r == Some(CardNotFound(fromId))
    ensures fromId != toId && fromId in cards && toId !in cards ==> r == Some(CardNotFound(toId))
    // 3. a card of someone else, the source first
    ensures r.Some? && r.value.AccessDenied? ==>
      fromId != toId && fromId in cards && toId in cards &&
      r.value.denial == (if cards[fromId].owner.id != callerId then FromDenied else ToDenied)
    ensures fromId != toId && fromId in cards && toId in cards && cards[fromId].owner.id != callerId ==>
      r == Some(AccessDenied(FromDenied))
    ensures (fromId != toId && fromId in cards && toId in cards && cards[fromId].owner.id == callerId &&
             cards[toId].owner.id != callerId) ==> r == Some(AccessDenied(ToDenied))
    // 4. an unusable card, the source first; only once both belong to the caller
    ensures (fromId != toId && fromId in cards && toId in cards &&
             cards[fromId].owner.id == callerId && cards[toId].owner.id == callerId &&
             !IsActive(cards[fromId], today)) ==>
      r == Some(CardNotActive(Source, IsExpired(cards[fromId], today)))
    ensures (fromId != toId && fromId in cards && toId in cards &&
             cards[fromId].owner.id == callerId && cards[toId].owner.id == callerId &&
             IsActive(cards[fromId], today) && !IsActive(cards[toId], today)) ==>
      r == Some(CardNotActive(Destination, IsExpired(cards[toId], today)))
    // 5. too little money, only once everything else has passed
    ensures r == Some(InsufficientFunds) <==>
      (fromId in cards && TransferAllowed(cards, callerId, fromId, toId, cards[fromId].balance, today) &&
       cards[fromId].balance < amount)
    ensures r.Some? ==> r.value.BadRequest? || r.value.CardNotFound? || r.value.AccessDenied? ||
                        r.value.CardNotActive? || r.value == InsufficientFunds
  {
    if fromId == toId then Some(BadRequest(SameCard))
    else if fromId !in cards then Some(CardNotFound(fromId))
    else if toId !in cards then Some(CardNotFound(toId))
    else if cards[fromId].owner.id != callerId then Some(AccessDenied(FromDenied))
    else if cards[toId].owner.id != callerId then Some(AccessDenied(ToDenied))
    else if ValidateForTransfer(cards[fromId], Source, today).Some? then ValidateForTransfer(cards[fromId], Source, today)
    else if ValidateForTransfer(cards[toId], Destination, today).Some? then ValidateForTransfer(cards[toId], Destination, today)
    else if cards[fromId].balance < amount then Some(InsufficientFunds)
    else None
  }

  /** A transfer of `amount` from one card of the caller to another. */
  function Transfer(cards: Cards, callerId: int, fromId: int, toId: int, amount: int, today: int): (o: Outcome<TransferResponse>)
    // no partial effects: a refused transfer changes nothing
    ensures o.result.Err? <==> !TransferAllowed(cards, callerId, fromId, toId, amount, today)
    ensures o.result.Err? ==> Some(o.result.error) == TransferCheck(cards, callerId, fromId, toId, amount, today)
    ensures o.result.Err? ==> o.cards == cards
    // on success exactly the two balances move, by exactly `amount`
    ensures o.result.Ok? ==>
      && o.cards.Keys == cards.Keys
      && o.cards[fromId] == cards[fromId].(balance := cards[fromId].balance - amount)
      && o.cards[toId] == cards[toId].(balance := cards[toId].balance + amount)
      && (forall id | id in cards && id != fromId && id != toId :: o.cards[id] == cards[id])
      && o.result.value == TransferResponse(TransferMessage, fromId, toId, amount,
                                            o.cards[fromId].balance, o.cards[toId].balance)
  {
    var check := TransferCheck(cards, callerId, fromId, toId, amount, today);
    if check.Some? then Outcome(Err(check.value), cards)
    else
      var from := cards[fromId].(balance := cards[fromId].balance - amount);
      var to := cards[toId].(balance := cards[toId].balance + amount);
      Outcome(Ok(TransferResponse(TransferMessage, fromId, toId, amount, from.balance, to.balance)),
              cards[fromId := from][toId := to])
  }

  /** A successful transfer keeps the total of all balances, and the sum of
      the two cards it touches. */
  lemma TransferConservesTotal(cards: Cards, callerId: int, fromId: int, toId: int, amount: int, today: int)
    requires Transfer(cards, callerId, fromId, toId, amount, today).result.Ok?
    ensures var after := Transfer(cards, callerId, fromId, toId, amount, today).cards;
      && Total(after) == Total(cards)
      && after[fromId].balance + after[toId].balance == cards[fromId].balance + cards[toId].balance
  {
    var from := cards[fromId].(balance := cards[fromId].balance - amount);
    var to := cards[toId].(balance := cards[toId].balance + amount);
    TotalUpdate(cards, fromId, from);
    TotalUpdate(cards[fromId := from], toId, to);
  }

  /** A transfer of a positive amount never leaves a negative balance. */
  lemma TransferKeepsWellFormed(cards: Cards, callerId: int, fromId: int, toId: int, amount: int, today: int)
    requires WellFormed(cards) && amount > 0
    ensures WellFormed(Transfer(cards, callerId, fromId, toId, amount, today).cards)
  {
  }

  // ---------------------------------------------------------------- status changes

  /** The status changes the service makes to a card on a given day:
      blocking a card that is not blocked, activating one that is neither
      active nor past its expiry, and expiring one that is past it. Nothing
      but the status changes. */
  predicate StatusTransition(before: Card, after: Card, today: int)
  {
    && after == before.(status := after.status)
    && ( (after.status == Blocked && before.status != Blocked)
      || (after.status == Active && before.status != Active && !IsExpired(before, today))
      || (after.status == Expired && before.status != Expired && IsExpired(before, today)))
  }

  /** The administrator's block. */
  function Block(cards: Cards, id: int): (o: Outcome<Card>)
    ensures id !in cards ==> o == Outcome(Err(CardNotFound(id)), cards)
    ensures id in cards && cards[id].status == Blocked ==> o == Outcome(Err(BadRequest(AlreadyBlocked)), cards)
    ensures id in cards && cards[id].status != Blocked ==>
      o.result.Ok? && o.result.value.status == Blocked && o.cards == cards[id := o.result.value]
    ensures o.result.Ok? ==> forall today :: StatusTransition(cards[id], o.result.value, today)
  {
    if id !in cards then Outcome(Err(CardNotFound(id)), cards)
    else if cards[id].status == Blocked then Outcome(Err(BadRequest(AlreadyBlocked)), cards)
    else
      var card := cards[id].(status := Blocked);
      Outcome(Ok(card), cards[id := card])
  }

  /** The owner's own block request: as `Block`, but refused to anyone but
      the card's owner, administrators included. */
  function RequestBlock(cards: Cards, caller: User, id: int): (o: Outcome<Card>)
    ensures id !in cards ==> o == Outcome(Err(CardNotFound(id)), cards)
    ensures id in cards && !IsOwner(caller, cards[id]) ==> o == Outcome(Err(AccessDenied(BlockDenied)), cards)
    ensures id in cards && IsOwner(caller, cards[id]) ==> o == Block(cards, id)
  {
    if id !in cards then Outcome(Err(CardNotFound(id)), cards)
    else if cards[id].owner.id != caller.id then Outcome(Err(AccessDenied(BlockDenied)), cards)
    else Block(cards, id)
  }

  /** The administrator's activation. The expiry check comes before the
      already-active check. */
  function Activate(cards: Cards, id: int, today: int): (o: Outcome<Card>)
    ensures id !in cards ==> o == Outcome(Err(CardNotFound(id)), cards)
    ensures id in cards && IsExpired(cards[id], today) ==> o == Outcome(Err(BadRequest(ActivateExpired)), cards)
    ensures id in cards && !IsExpired(cards[id], today) && cards[id].status == Active ==>
      o == Outcome(Err(BadRequest(AlreadyActive)), cards)
    ensures o.result.Ok? <==> id in cards && !IsExpired(cards[id], today) && cards[id].status != Active
    ensures o.result.Ok? ==>
      o.result.value.status == Active && o.cards == cards[id := o.result.value] &&
      StatusTransition(cards[id], o.result.value, today)
    ensures o.result.Err? ==> o.cards == cards
  {
    if id !in cards then Outcome(Err(CardNotFound(id)), cards)
    else if IsExpired(cards[id], today) then Outcome(Err(BadRequest(ActivateExpired)), cards)
    else if cards[id].status == Active then Outcome(Err(BadRequest(AlreadyActive)), cards)
    else
      var card := cards[id].(status := Active);
      Outcome(Ok(card), cards[id := card])
  }

  /** An activation never brings a card past its expiry back to ACTIVE. */
  lemma ActivateNeverRevivesExpired(cards: Cards, id: int, today: int)
    requires id in cards && IsExpired(cards[id], today)
    ensures Activate(cards, id, today).cards == cards
  {
  }

  function Delete(cards: Cards, id: int): (o: Outcome<()>)
    ensures id !in cards ==> o == Outcome(Err(CardNotFound(id)), cards)
    ensures id in cards ==> o.result.Ok? && o.cards.Keys == cards.Keys - {id}
    ensures forall k | k in o.cards :: k in cards && o.cards[k] == cards[k]
  {
    if id !in cards then Outcome(Err(CardNotFound(id)), cards)
    else Outcome(Ok(()), cards - {id})
  }

  /** One card after the expiry sweep. */
  function ExpireIfDue(c: Card, today: int): (r: Card)
    ensures IsExpired(c, today) ==> r == c.(status := Expired)
    ensures !IsExpired(c, today) ==> r == c
  {
    if IsExpired(c, today) && c.status != Expired then c.(status := Expired) else c
  }

  /** The periodic sweep: every card past its expiry is marked EXPIRED. */
  function Sweep(cards: Cards, today: int): (after: Cards)
    ensures after.Keys == cards.Keys
    ensures forall id | id in after :: IsExpired(after[id], today) ==> after[id].status == Expired
    ensures forall id | id in after :: after[id] == cards[id] || StatusTransition(cards[id], after[id], today)
    ensures forall id | id in after :: after[id] == cards[id].(status := after[id].status)
    ensures forall id | id in after :: after[id].status != cards[id].status ==> IsExpired(cards[id], today)
  {
    map id | id in cards :: ExpireIfDue(cards[id], today)
  }

  /** Sweeping twice on the same day is sweeping once. */
  lemma SweepIdempotent(cards: Cards, today: int)
    ensures Sweep(Sweep(cards, today), today) == Sweep(cards, today)
  {
  }

  /** The sweep moves no money. */
  lemma SweepConservesTotal(cards: Cards, today: int)
    ensures Total(Sweep(cards, today)) == Total(cards)
  {
    TotalSameBalances(Sweep(cards, today), cards);
  }

  // ---------------------------------------------------------------- histories

  /** One call of a state-changing operation of the service. */
  datatype Op =
    | BlockOp(id: int)
    | RequestBlockOp(caller: User, id: int)
    | ActivateOp(id: int, day: int)
    | TransferOp(caller: User, fromId: int, toId: int, amount: int, day: int)
    | SweepOp(day: int)
    | DeleteOp(id: int)

  function Apply(cards: Cards, op: Op): Cards
  {
    match op
    case BlockOp(id) => Block(cards, id).cards
    case RequestBlockOp(caller, id) => RequestBlock(cards, caller, id).cards
    case ActivateOp(id, day) => Activate(cards, id, day).cards
    case TransferOp(caller, fromId, toId, amount, day) => Transfer(cards, caller.id, fromId, toId, amount, day).cards
    case SweepOp(day) => Sweep(cards, day)
    case DeleteOp(id) => Delete(cards, id).cards
  }

  /** The table after the operations, applied in order. */
  function Run(cards: Cards, ops: seq<Op>): Cards
    decreases |ops|
  {
    if ops == [] then cards else Run(Apply(cards, ops[0]), ops[1..])
  }

  /** Transfer amounts are positive, as the transfer request demands. */
  predicate PositiveAmounts(ops: seq<Op>)
  {
    forall i | 0 <= i < |ops| :: ops[i].TransferOp? ==> ops[i].amount > 0
  }

  predicate NoDeletes(ops: seq<Op>)
  {
    forall i | 0 <= i < |ops| :: !ops[i].DeleteOp?
  }

  /** No operation happens before `day`. */
  predicate NotBefore(ops: seq<Op>, day: int)
  {
    forall i | 0 <= i < |ops| :: (ops[i].ActivateOp? || ops[i].TransferOp? || ops[i].SweepOp?) ==> ops[i].day >= day
  }

  /** What never changes about a card: its id, ciphertext, owner, expiry
      and timestamps. */
  predicate SameIdentity(before: Card, after: Card)
  {
    after == before.(status := after.status, balance := after.balance)
  }

  lemma ApplyKeepsWellFormed(cards: Cards, op: Op)
    requires WellFormed(cards)
    requires op.TransferOp? ==> op.amount > 0
    ensures WellFormed(Apply(cards, op))
  {
    if op.TransferOp? {
      TransferKeepsWellFormed(cards, op.caller.id, op.fromId, op.toId, op.amount, op.day);
    }
  }

  /** Non-negativity holds at every step of every history. */
  lemma {:induction false} RunKeepsWellFormed(cards: Cards, ops: seq<Op>)
    requires WellFormed(cards) && PositiveAmounts(ops)
    ensures WellFormed(Run(cards, ops))
    decreases |ops|
  {
    if ops != [] {
      ApplyKeepsWellFormed(cards, ops[0]);
      assert PositiveAmounts(ops[1..]) by {
        forall i | 0 <= i < |ops[1..]| ensures ops[1..][i].TransferOp? ==> ops[1..][i].amount > 0 {
          assert ops[1..][i] == ops[i + 1];
        }
      }
      RunKeepsWellFormed(Apply(cards, ops[0]), ops[1..]);
    }
  }

  lemma ApplyConservesTotal(cards: Cards, op: Op)
    requires !op.DeleteOp?
    ensures Total(Apply(cards, op)) == Total(cards)
  {
    match op
    case TransferOp(caller, fromId, toId, amount, day) =>
      if Transfer(cards, caller.id, fromId, toId, amount, day).result.Ok? {
        TransferConservesTotal(cards, caller.id, fromId, toId, amount, day);
      }
    case SweepOp(day) => SweepConservesTotal(cards, day);
    case BlockOp(id) =>
      if id in cards { TotalUpdate(cards, id, Block(cards, id).cards[id]); }
    case RequestBlockOp(caller, id) =>
      if id in cards { TotalUpdate(cards, id, RequestBlock(cards, caller, id).cards[id]); }
    case ActivateOp(id, day) =>
      if id in cards { TotalUpdate(cards, id, Activate(cards, id, day).cards[id]); }
  }

  /** Balance conservation: without deletions, no history of operations
      creates or destroys money. */
  lemma {:induction false} RunConservesTotal(cards: Cards, ops: seq<Op>)
    requires NoDeletes(ops)
    ensures Total(Run(cards, ops)) == Total(cards)
    decreases |ops|
  {
    if ops != [] {
      ApplyConservesTotal(cards, ops[0]);
      assert NoDeletes(ops[1..]) by {
        forall i | 0 <= i < |ops[1..]| ensures !ops[1..][i].DeleteOp? {
          assert ops[1..][i] == ops[i + 1];
        }
      }
      RunConservesTotal(Apply(cards, ops[0]), ops[1..]);
    }
  }

  /** No operation adds a card or changes what identifies one. */
  lemma {:induction false} RunKeepsIdentity(cards: Cards, ops: seq<Op>)
    ensures forall id | id in Run(cards, ops) :: id in cards && SameIdentity(cards[id], Run(cards, ops)[id])
    decreases |ops|
  {
    if ops != [] {
      var next := Apply(cards, ops[0]);
      assert forall id | id in next :: id in cards && SameIdentity(cards[id], next[id]);
      RunKeepsIdentity(next, ops[1..]);
    }
  }

  /** A card past its expiry that is not ACTIVE never becomes ACTIVE again,
      whatever happens to it later. */
  lemma {:induction false} ExpiredStaysInactive(cards: Cards, ops: seq<Op>, id: int, day: int)
    requires id in cards && IsExpired(cards[id], day) && cards[id].status != Active
    requires NotBefore(ops, day)
    ensures id in Run(cards, ops) ==> Run(cards, ops)[id].status != Active
    decreases |ops|
  {
    if ops != [] {
      var next := Apply(cards, ops[0]);
      assert id in next ==> next[id].expiryDate == cards[id].expiryDate && next[id].status != Active;
      if id in next {
        assert NotBefore(ops[1..], day) by {
          forall i | 0 <= i < |ops[1..]|
            ensures (ops[1..][i].ActivateOp? || ops[1..][i].TransferOp? || ops[1..][i].SweepOp?) ==> ops[1..][i].day >= day
          {
            assert ops[1..][i] == ops[i + 1];
          }
        }
        ExpiredStaysInactive(next, ops[1..], id, day);
      } else {
        RunKeepsIdentity(next, ops[1..]);
      }
    }
  }
}
