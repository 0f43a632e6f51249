/** The records the service hands back to its callers. None of them has a
    field for the stored (encrypted) card number: a card is shown only
    through its mask. */
module Responses {
  import opened CardModel

  datatype CardResponse = CardResponse(
    id: int,
    maskedCardNumber: string,
    ownerId: int,
    ownerEmail: string,
    expiryDate: int,
    status: CardStatus,
    balance: int,
    createdAt: int,
    updatedAt: int)

  datatype TransferResponse = TransferResponse(
    message: string,
    fromCardId: int,
    toCardId: int,
    amount: int,
    fromCardNewBalance: int,
    toCardNewBalance: int)

  datatype BalanceResponse = BalanceResponse(cardId: int, maskedCardNumber: string, balance: int)

  /** The display record of a card under the given mask. */
  function FromEntity(card: Card, maskedNumber: string): (r: CardResponse)
    ensures r.id == card.id && r.maskedCardNumber == maskedNumber
    ensures r.ownerId == card.owner.id && r.ownerEmail == card.owner.email
    ensures r.expiryDate == card.expiryDate && r.status == card.status && r.balance == card.balance
    ensures r.createdAt == card.createdAt && r.updatedAt == card.updatedAt
  {
    CardResponse(card.id, maskedNumber, card.owner.id, card.owner.email, card.expiryDate,
                 card.status, card.balance, card.createdAt, card.updatedAt)
  }

  /** The record does not depend on the stored ciphertext (nor on the
      owner's role): changing either leaves it as it was. */
  lemma FromEntityIgnoresCiphertext(card: Card, ciphertext: string, role: Role, maskedNumber: string)
    ensures FromEntity(card.(cardNumber := ciphertext, owner := card.owner.(role := role)), maskedNumber)
         == FromEntity(card, maskedNumber)
  {
  }

  /** Two cards with equal records agree on every field but the ciphertext
      and the owner's role, and were shown under the same mask. */
  lemma FromEntityDeterminesVisibleFields(a: Card, b: Card, ma: string, mb: string)
    requires FromEntity(a, ma) == FromEntity(b, mb)
    ensures ma == mb
    ensures a.(cardNumber := b.cardNumber, owner := a.owner.(role := b.owner.role)) == b
  {
  }
}
