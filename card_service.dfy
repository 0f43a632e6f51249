/** The card service: the card table, the cipher's state and the user
    directory it reads, with one method per service operation. The caller,
    the current day, the clock reading stored as a timestamp, the generated
    card number and its fresh ciphertext are parameters; the service reads
    them from its environment. */
module Service {
  import opened CardModel
  import opened Responses
  import Cipher
  import Luhn
  import CardSpecification
  import Ledger

  /** The ids of the cards on a page. */
  ghost function IdsOf(page: seq<CardResponse>): set<int>
  {
    set i | 0 <= i < |page| :: page[i].id
  }

  lemma IdsOfSnoc(page: seq<CardResponse>, r: CardResponse)
    ensures IdsOf(page + [r]) == IdsOf(page) + {r.id}
  {
    var longer := page + [r];
    assert longer[|page|].id == r.id;
    forall k | k in IdsOf(page) ensures k in IdsOf(longer) {
      var i :| 0 <= i < |page| && page[i].id == k;
      assert longer[i].id == k;
    }
  }

  /** The ids among `keys` of the cards the filter accepts. */
  ghost function Selected(cards: map<int, Card>, keys: set<int>, spec: Card -> bool): set<int>
  {
    set id | id in keys && id in cards && spec(cards[id])
  }

  lemma SelectedAdd(cards: map<int, Card>, keys: set<int>, spec: Card -> bool, id: int)
    requires id in cards
    ensures Selected(cards, keys + {id}, spec) == Selected(cards, keys, spec) + (if spec(cards[id]) then {id} else {})
  {
  }

  /** The page a listing keeps while it walks the card table: the ids seen
      so far that the filter accepts, each once. */
  ghost predicate PageCovers(page: seq<CardResponse>, cards: map<int, Card>, done: set<int>, spec: Card -> bool)
  {
    && IdsOf(page) == Selected(cards, done, spec)
    && (forall i, j | 0 <= i < j < |page| :: page[i].id != page[j].id)
    && (forall i | 0 <= i < |page| :: page[i].id in done)
  }

  /** Visiting one more card keeps the page covering what was visited. */
  lemma PageStep(page: seq<CardResponse>, cards: map<int, Card>, done: set<int>, spec: Card -> bool,
                 r: CardResponse)
    requires PageCovers(page, cards, done, spec)
    requires r.id in cards && r.id !in done
    ensures spec(cards[r.id]) ==> PageCovers(page + [r], cards, done + {r.id}, spec)
    ensures !spec(cards[r.id]) ==> PageCovers(page, cards, done + {r.id}, spec)
  {
    SelectedAdd(cards, done, spec, r.id);
    IdsOfSnoc(page, r);
  }

  class CardService {
    /** The user directory; the service only looks users up. */
    const users: map<int, User>
    /** The card table. */
    var cards: map<int, Card>
    /** What the cipher has issued so far. */
    var vault: Cipher.Vault
    /** The id the next created card receives. */
    var nextId: int

    /** Balances are never negative, each card sits under its own id, ids
        below `nextId` are the only ones in use, and every stored card number
        can be opened by the cipher. */
    ghost predicate Valid()
      reads this
    {
      && Ledger.WellFormed(cards)
      && (forall k | k in users :: users[k].id == k)
      && (forall id | id in cards :: id < nextId && cards[id].cardNumber in vault.issued)
    }

    constructor (users: map<int, User>)
      requires forall k | k in users :: users[k].id == k
      ensures Valid()
      ensures this.users == users && cards == map[] && vault == Cipher.Vault(map[])
    {
      this.users := users;
      cards := map[];
      vault := Cipher.Vault(map[]);
      nextId := 1;
    }

    /** The display record of a card: its number is decrypted and masked.
        A ciphertext the cipher cannot open is an error. */
    function ToCardResponse(card: Card): (r: Result<CardResponse>)
      reads this
      ensures r.Ok? <==> card.cardNumber in vault.issued
      ensures r.Ok? ==> r.value == FromEntity(card, Cipher.Mask(Cipher.Decrypt(vault, card.cardNumber)))
      ensures r.Err? ==> r.error == CipherFailure
    {
      match Cipher.Decrypt(vault, card.cardNumber)
      case None => Err(CipherFailure)
      case Some(pan) => Ok(FromEntity(card, Cipher.Mask(Some(pan))))
    }

    /** `r` is the display record of the stored card it names. */
    ghost predicate Shows(r: CardResponse)
      reads this
    {
      r.id in cards && ToCardResponse(cards[r.id]) == Ok(r)
    }

    /** A service result whose card is shown through `ToCardResponse`. */
    function Respond(r: Result<Card>): Result<CardResponse>
      reads this
    {
      match r
      case Err(e) => Err(e)
      case Ok(card) => ToCardResponse(card)
    }

    /** Issue a card to user `ownerId`: ACTIVE, with the requested expiry and
        the initial balance or zero, storing only the ciphertext of the
        generated number. The expiry lies after today and the balance is
        not negative, as the create request requires. */
    method CreateCard(ownerId: int, expiryDate: int, initialBalance: Option<int>,
                      cardNumber: string, ciphertext: string, today: int, now: int)
      returns (r: Result<CardResponse>)
      requires Valid()
      requires expiryDate > today
      requires initialBalance.Some? ==> initialBalance.value >= 0
      requires Luhn.IsIssuableNumber(cardNumber)
      requires ciphertext !in vault.issued
      modifies this
      ensures Valid()
      ensures ownerId !in users ==>
        r == Err(UserNotFound(ownerId)) && cards == old(cards) && vault == old(vault) && nextId == old(nextId)
      ensures ownerId in users ==>
        var card := Card(old(nextId), ciphertext, users[ownerId], expiryDate, Active,
                         if initialBalance.Some? then initialBalance.value else 0, now, now);
        && old(nextId) !in old(cards)
        && card.owner.id == ownerId
        && cards == old(cards)[card.id := card]
        && Cipher.Decrypt(vault, ciphertext) == Some(cardNumber)
        && r == Ok(FromEntity(card, Cipher.Mask(Some(cardNumber))))
        && r.value.ownerId == ownerId
      ensures forall c | c in old(vault.issued) :: Cipher.Decrypt(vault, c) == Cipher.Decrypt(old(vault), c)
    {
      if ownerId !in users {
        return Err(UserNotFound(ownerId));
      }
      var owner := users[ownerId];
      vault := Cipher.Encrypt(vault, cardNumber, ciphertext);
      var balance := if initialBalance.Some? then initialBalance.value else 0;
      var card := Card(nextId, ciphertext, owner, expiryDate, Active, balance, now, now);
      cards := cards[card.id := card];
      nextId := nextId + 1;
      r := Ok(FromEntity(card, Cipher.Mask(Some(cardNumber))));
    }

    /** The repository query: the display records of exactly the cards the
        filter accepts, each once, in no particular order. */
    method FindAll(spec: Card -> bool) returns (page: seq<CardResponse>)
      requires Valid()
      ensures IdsOf(page) == Selected(cards, cards.Keys, spec)
      ensures forall i, j | 0 <= i < j < |page| :: page[i].id != page[j].id
      ensures forall i | 0 <= i < |page| :: Shows(page[i])
    {
      page := [];
      var todo := cards.Keys;
      ghost var done: set<int> := {};
      while todo != {}
        invariant todo + done == cards.Keys && todo !! done
        invariant PageCovers(page, cards, done, spec)
        invariant forall i | 0 <= i < |page| :: Shows(page[i])
        decreases |todo|
      {
        assert (forall k :: k !in todo) ==> todo == {};
        var id :| id in todo;
        var shown := ToCardResponse(cards[id]);
        PageStep(page, cards, done, spec, shown.value);
        if spec(cards[id]) {
          page := page + [shown.value];
        }
        todo := todo - {id};
        done := done + {id};
      }
      assert done == cards.Keys;
    }

    /** The caller's own cards, restricted to `status` when one is given. */
    method GetCurrentUserCards(caller: User, status: Option<CardStatus>) returns (page: seq<CardResponse>)
      requires Valid()
      ensures IdsOf(page)
           == (set id | id in cards && IsOwner(caller, cards[id]) && (status.None? || cards[id].status == status.value))
      ensures forall i | 0 <= i < |page| ::
        page[i].ownerId == caller.id && (status.None? || page[i].status == status.value)
      ensures forall i, j | 0 <= i < j < |page| :: page[i].id != page[j].id
      ensures forall i | 0 <= i < |page| :: page[i].id in cards && ToCardResponse(cards[page[i].id]) == Ok(page[i])
    {
      var spec := CardSpecification.And(CardSpecification.HasOwner(Some(caller.id)),
                                        CardSpecification.HasStatus(status));
      page := FindAll(spec);
      forall i | 0 <= i < |page|
        ensures page[i].ownerId == caller.id && (status.None? || page[i].status == status.value)
      {
        assert page[i].id in IdsOf(page);
      }
    }

    /** Every card, restricted to `status` when one is given. */
    method GetAllCards(status: Option<CardStatus>) returns (page: seq<CardResponse>)
      requires Valid()
      ensures IdsOf(page)
           == (set id | id in cards && (status.None? || cards[id].status == status.value))
      ensures forall i, j | 0 <= i < j < |page| :: page[i].id != page[j].id
      ensures forall i | 0 <= i < |page| :: page[i].id in cards && ToCardResponse(cards[page[i].id]) == Ok(page[i])
    {
      page := FindAll(CardSpecification.HasStatus(status));
    }

    /** A card, for an administrator or its owner. */
    method GetCardById(caller: User, id: int) returns (r: Result<CardResponse>)
      requires Valid()
      ensures id !in cards ==> r == Err(CardNotFound(id))
      ensures id in cards && !(IsAdmin(caller) || IsOwner(caller, cards[id])) ==> r == Err(AccessDenied(ReadDenied))
      ensures r.Ok? <==> id in cards && (IsAdmin(caller) || IsOwner(caller, cards[id]))
      ensures r.Ok? ==> ToCardResponse(cards[id]) == r
    {
      if id !in cards {
        return Err(CardNotFound(id));
      }
      var card := cards[id];
      var denied := ReadCheck(caller, card);
      if denied.Some? {
        return Err(denied.value);
      }
      r := ToCardResponse(card);
    }

    method BlockCard(id: int) returns (r: Result<CardResponse>)
      requires Valid()
      modifies this
      ensures Valid() && vault == old(vault) && nextId == old(nextId)
      ensures cards == Ledger.Block(old(cards), id).cards
      ensures r == Respond(Ledger.Block(old(cards), id).result)
      ensures r.Ok? <==> Ledger.Block(old(cards), id).result.Ok?
    {
      var outcome := Ledger.Block(cards, id);
      cards := outcome.cards;
      r := Respond(outcome.result);
    }

    method ActivateCard(id: int, today: int) returns (r: Result<CardResponse>)
      requires Valid()
      modifies this
      ensures Valid() && vault == old(vault) && nextId == old(nextId)
      ensures cards == Ledger.Activate(old(cards), id, today).cards
      ensures r == Respond(Ledger.Activate(old(cards), id, today).result)
      ensures r.Ok? <==> Ledger.Activate(old(cards), id, today).result.Ok?
    {
      var outcome := Ledger.Activate(cards, id, today);
      cards := outcome.cards;
      r := Respond(outcome.result);
    }

    method DeleteCard(id: int) returns (r: Result<()>)
      requires Valid()
      modifies this
      ensures Valid() && vault == old(vault) && nextId == old(nextId)
      ensures cards == Ledger.Delete(old(cards), id).cards
      ensures r == Ledger.Delete(old(cards), id).result
    {
      var outcome := Ledger.Delete(cards, id);
      cards := outcome.cards;
      r := outcome.result;
    }

    method RequestBlockCard(caller: User, id: int) returns (r: Result<CardResponse>)
      requires Valid()
      modifies this
      ensures Valid() && vault == old(vault) && nextId == old(nextId)
      ensures cards == Ledger.RequestBlock(old(cards), caller, id).cards
      ensures r == Respond(Ledger.RequestBlock(old(cards), caller, id).result)
      ensures r.Ok? <==> Ledger.RequestBlock(old(cards), caller, id).result.Ok?
    {
      var outcome := Ledger.RequestBlock(cards, caller, id);
      cards := outcome.cards;
      r := Respond(outcome.result);
    }

    /** Move `amount` (positive, as the transfer request demands) between two
        cards of the caller; all checks precede the two balance updates. */
    method Transfer(caller: User, fromId: int, toId: int, amount: int, today: int)
      returns (r: Result<TransferResponse>)
      requires Valid()
      requires amount > 0
      modifies this
      ensures Valid() && vault == old(vault) && nextId == old(nextId)
      ensures cards == Ledger.Transfer(old(cards), caller.id, fromId, toId, amount, today).cards
      ensures r == Ledger.Transfer(old(cards), caller.id, fromId, toId, amount, today).result
      ensures r.Ok? ==> Ledger.Total(cards) == Ledger.Total(old(cards))
    {
      var check := Ledger.TransferCheck(cards, caller.id, fromId, toId, amount, today);
      if check.Some? {
        return Err(check.value);
      }
      Ledger.TransferKeepsWellFormed(cards, caller.id, fromId, toId, amount, today);
      Ledger.TransferConservesTotal(cards, caller.id, fromId, toId, amount, today);
      var fromCard, toCard := cards[fromId], cards[toId];
      fromCard := fromCard.(balance := fromCard.balance - amount);
      cards := cards[fromId := fromCard];
      toCard := toCard.(balance := toCard.balance + amount);
      cards := cards[toId := toCard];
      r := Ok(TransferResponse(Ledger.TransferMessage, fromId, toId, amount, fromCard.balance, toCard.balance));
    }

    /** A card's masked number and balance, for an administrator or its owner. */
    method GetBalance(caller: User, id: int) returns (r: Result<BalanceResponse>)
      requires Valid()
      ensures id !in cards ==> r == Err(CardNotFound(id))
      ensures id in cards && !(IsAdmin(caller) || IsOwner(caller, cards[id])) ==> r == Err(AccessDenied(ReadDenied))
      ensures r.Ok? <==> id in cards && (IsAdmin(caller) || IsOwner(caller, cards[id]))
      ensures r.Ok? ==>
        r.value == BalanceResponse(id, Cipher.Mask(Cipher.Decrypt(vault, cards[id].cardNumber)), cards[id].balance)
    {
      if id !in cards {
        return Err(CardNotFound(id));
      }
      var card := cards[id];
      var denied := ReadCheck(caller, card);
      if denied.Some? {
        return Err(denied.value);
      }
      var pan := Cipher.Decrypt(vault, card.cardNumber);
      if pan.None? {
        return Err(CipherFailure);
      }
      r := Ok(BalanceResponse(card.id, Cipher.Mask(pan), card.balance));
    }

    /** The periodic sweep: mark EXPIRED each card past its expiry that is
        not EXPIRED yet, one card at a time. */
    method UpdateExpiredCards(today: int)
      requires Valid()
      modifies this
      ensures Valid() && vault == old(vault) && nextId == old(nextId)
      ensures cards == Ledger.Sweep(old(cards), today)
    {
      var todo := cards.Keys;
      while todo != {}
        invariant todo <= cards.Keys == old(cards).Keys
        invariant vault == old(vault) && nextId == old(nextId)
        invariant forall id | id in cards ::
          cards[id] == if id in todo then old(cards)[id] else Ledger.ExpireIfDue(old(cards)[id], today)
        decreases |todo|
      {
        assert (forall k :: k !in todo) ==> todo == {};
        var id :| id in todo;
        var card := cards[id];
        if card.expiryDate < today && card.status != Expired {
          cards := cards[id := card.(status := Expired)];
        }
        todo := todo - {id};
      }
      assert forall id | id in cards :: cards[id] == Ledger.Sweep(old(cards), today)[id];
      assert cards.Keys == Ledger.Sweep(old(cards), today).Keys;
    }
  }
}
