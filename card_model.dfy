/** The entities the card service works on, its error outcomes, and the
    entity-level rules (expiry, usability, the access policy) that the
    service consults before it changes anything.

    Money is held in integer cents: the service keeps balances as decimals
    with two fractional digits, which is exact, so cents lose nothing.
    Calendar days are integers (a later day is a larger number). */
module CardModel {

  datatype Option<T> = None | Some(value: T)

  datatype CardStatus = Active | Blocked | Expired

  datatype Role = UserRole | AdminRole

  /** A user account as the service sees it: its id, its email and its role. */
  datatype User = User(id: int, email: string, role: Role)

  /** A stored card. `cardNumber` is the ciphertext of the card number, never
      the number itself; `expiryDate` is a day, `createdAt` and `updatedAt`
      are clock timestamps. */
  datatype Card = Card(
    id: int,
    cardNumber: string,
    owner: User,
    expiryDate: int,
    status: CardStatus,
    balance: int,
    createdAt: int,
    updatedAt: int)

  /** Why a request was refused as malformed. */
  datatype BadRequestReason = SameCard | AlreadyBlocked | AlreadyActive | ActivateExpired

  /** Which rule of the access policy refused a caller. */
  datatype Denial = ReadDenied | BlockDenied | FromDenied | ToDenied

  datatype Side = Source | Destination

  /** One constructor per exception the service throws; `CipherFailure`
      stands for a ciphertext the cipher cannot open. */
  datatype Error =
    | CardNotFound(cardId: int)
    | UserNotFound(userId: int)
    | AccessDenied(denial: Denial)
    | BadRequest(reason: BadRequestReason)
    | CardNotActive(side: Side, expired: bool)
    | InsufficientFunds
    | CipherFailure

  datatype Result<T> = Ok(value: T) | Err(error: Error)

  /** A card is expired once its expiry day lies before today. */
  predicate IsExpired(c: Card, today: int)
  {
    c.expiryDate < today
  }

  /** A card may move money when it is marked active and not past its expiry. */
  predicate IsActive(c: Card, today: int)
  {
    c.status == Active && !IsExpired(c, today)
  }

  /** The name a role is stored and compared under. */
  function RoleName(r: Role): string
  {
    match r
    case UserRole => "USER"
    case AdminRole => "ADMIN"
  }

  /** The administrator test compares the role's name with "ADMIN"; since
      the two names differ, that picks out exactly the administrator role. */
  function IsAdmin(u: User): (admin: bool)
    ensures admin <==> u.role == AdminRole
  {
    RoleName(u.role) == "ADMIN"
  }

  predicate IsOwner(u: User, c: Card)
  {
    c.owner.id == u.id
  }

  /** The read rule: an administrator or the card's owner may see a card. */
  function ReadCheck(caller: User, c: Card): (r: Option<Error>)
    ensures r.None? <==> IsAdmin(caller) || IsOwner(caller, c)
    ensures r.Some? ==> r.value == AccessDenied(ReadDenied)
  {
    if !IsAdmin(caller) && c.owner.id != caller.id then Some(AccessDenied(ReadDenied)) else None
  }

  /** The usability check applied to each side of a transfer: an unusable
      card is reported as expired when its date has passed and as blocked
      otherwise. */
  function ValidateForTransfer(c: Card, side: Side, today: int): (r: Option<Error>)
    ensures r.None? <==> IsActive(c, today)
    ensures r.Some? ==> r.value.CardNotActive? && r.value.side == side
    ensures r.Some? ==> (r.value.expired <==> IsExpired(c, today))
  {
    if !IsActive(c, today) then
      if IsExpired(c, today) then Some(CardNotActive(side, true)) else Some(CardNotActive(side, false))
    else None
  }
}
