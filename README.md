# Bank cards: card lifecycle and transfer engine

A Dafny model of the card service of a small bank-card back end, with
proofs about it. The service does five kinds of work:

- It issues cards. The card number is stored encrypted and is only ever shown masked.
- It lists and looks up cards through composable query filters.
- It moves a card through its statuses: ACTIVE, BLOCKED and EXPIRED.
- It transfers money between two cards of the same user.
- It runs a periodic sweep that marks cards past their expiry as EXPIRED.

The model has these modules:

- `CardModel` (`card_model.dfy`) holds the entities: users, cards, statuses and one error constructor per exception the service throws. It also holds the entity rules the service consults: expiry, usability, the read-access rule, and the per-side transfer check.
- `Cipher` (`cipher.dfy`) is the card-number cipher as an ideal cipher, plus the display mask.
- `Luhn` (`luhn.dfy`) is the Luhn check the tests apply to generated numbers, as a loop proved against a recursive sum. It also holds the check-digit completion and the shape of an issuable number.
- `CardSpecification` (`card_specification.dfy`) holds the query filters `hasOwner`, `hasStatus` and `cardNumberContains`, and their conjunction.
- `Responses` (`responses.dfy`) holds the response records and `fromEntity`.
- `Ledger` (`ledger.dfy`) treats the card table as a value. Each state-changing operation is a function from the table before to the result and the table after. Beside them are lemmas about single operations and about whole histories of operations: money is conserved, balances never go negative, a refused operation changes nothing, and an expired card is never reactivated.
- `Service` (`card_service.dfy`) is the service itself: a class holding the card table, the cipher state and the user directory, with one method per service operation. Each method is proved against the matching `Ledger` function, or states its result directly.

The service reads several things from its environment: the current user, the current day, the clock, the random generator and the cipher's randomness. In the model these are parameters. The caller is a `User`, `today` is a day number and `now` is a timestamp. `CreateCard` receives the generated number and a ciphertext the cipher has never issued. Money is held in integer cents and days are integers.

## Model

| member | source | states |
|---|---|---|
| CardModel.ReadCheck | src/main/java/com/example/bankcards/service/CardService.java:79-81 | a card may be read exactly when the caller is an administrator or the card's owner; otherwise access is denied |
| CardModel.IsAdmin | src/main/java/com/example/bankcards/service/CardService.java:234-236 | comparing the role's name with "ADMIN" holds exactly for the administrator role |
| CardModel.ValidateForTransfer | src/main/java/com/example/bankcards/service/CardService.java:225-232 | a card passes exactly when it is ACTIVE and not past its expiry; a failing card is reported for its side, as expired exactly when its date has passed and as blocked otherwise |
| Cipher.EncryptDecrypt | src/test/java/com/example/bankcards/util/EncryptionUtilTest.java:20-30 | a freshly encrypted number decrypts back to itself |
| Cipher.EncryptTwiceKeepsBoth | src/test/java/com/example/bankcards/util/EncryptionUtilTest.java:32-40 | encrypting the same number twice, each time under a ciphertext the cipher has not issued yet, leaves both ciphertexts decrypting to that number; that the two differ is the fresh-ciphertext assumption itself, not a proved fact |
| Cipher.Mask | src/test/java/com/example/bankcards/util/EncryptionUtilTest.java:42-65 | a missing number or one shorter than four characters masks to `****`; any other number masks to `**** **** **** ` followed by its last four characters |
| Cipher.MaskRevealsOnlyLastFour | src/test/java/com/example/bankcards/util/EncryptionUtilTest.java:42-49 | two numbers with the same last four characters, or two short ones, have the same mask |
| Cipher.MaskCharacters | src/test/java/com/example/bankcards/util/EncryptionUtilTest.java:42-49 | every character of a mask is a star, a space, or one of the number's last four characters at its own position |
| Cipher.MaskVectors | src/test/java/com/example/bankcards/util/EncryptionUtilTest.java:42-65 | the test vectors: `4111111111111234` masks to `**** **** **** 1234`; `123` and a missing number mask to `****` |
| Luhn.NumericValue | src/test/java/com/example/bankcards/util/EncryptionUtilTest.java:102 | the character value lies in -1..35, and a decimal digit has its own value |
| Luhn.IsValidLuhn | src/test/java/com/example/bankcards/util/EncryptionUtilTest.java:97-116 | the right-to-left loop answers true exactly when the Luhn sum is divisible by 10 |
| Luhn.LuhnDirectionsAgree | src/test/java/com/example/bankcards/util/EncryptionUtilTest.java:97-116 | the right-to-left sum, which starts undoubled at the last character and alternates, equals the left-to-right sum that doubles the positions with an odd number of characters to their right |
| Luhn.WeightedOneChange | src/test/java/com/example/bankcards/util/EncryptionUtilTest.java:101-113 | changing one character changes the sum by exactly the difference of that position's two terms |
| Luhn.DetectsSingleDigitError | src/test/java/com/example/bankcards/util/EncryptionUtilTest.java:97-116 | two numbers that differ in exactly one decimal digit never both pass the check |
| Luhn.CheckDigit | src/test/java/com/example/bankcards/util/EncryptionUtilTest.java:82-87 | the check digit is a decimal digit, and appending it to any payload makes the whole pass the check |
| Luhn.WithCheckDigit | src/test/java/com/example/bankcards/util/EncryptionUtilTest.java:67-87 | fifteen characters starting with 4, completed by their check digit, give a number that has 16 characters, starts with 4 and passes the check |
| Luhn.LuhnVectorValid | src/test/java/com/example/bankcards/util/EncryptionUtilTest.java:97-116 | `4111111111111111` has Luhn sum 30 and is issuable |
| Luhn.LuhnVectorInvalid | src/test/java/com/example/bankcards/util/EncryptionUtilTest.java:101-115 | an illustration of the check's arithmetic on a number of our own, not one of the tests: `4111111111111112`, one digit away from the valid test number, has Luhn sum 31 and so fails |
| CardSpecification.HasOwner | src/main/java/com/example/bankcards/repository/CardSpecification.java:12-19 | with no owner id every card matches; otherwise a card matches exactly when its owner has that id |
| CardSpecification.HasStatus | src/main/java/com/example/bankcards/repository/CardSpecification.java:21-28 | with no status every card matches; otherwise a card matches exactly when it has that status |
| CardSpecification.CardNumberContains | src/main/java/com/example/bankcards/repository/CardSpecification.java:30-37 | with no fragment every card matches; otherwise a card matches exactly when the fragment occurs in its stored number (the empty fragment occurs everywhere) |
| CardSpecification.OccursIsSubstring | src/main/java/com/example/bankcards/repository/CardSpecification.java:35 | the recursive search that implements the contains-match succeeds exactly when the fragment occurs at some position |
| CardSpecification.And | src/main/java/com/example/bankcards/service/CardService.java:58-60 | chained filters match exactly the cards both filters match |
| CardSpecification.NullFilterIsNeutral | src/main/java/com/example/bankcards/repository/CardSpecification.java:14-16 | a filter with no argument, or with an empty fragment, leaves a conjunction unchanged |
| Responses.FromEntity | src/main/java/com/example/bankcards/dto/response/CardResponse.java:30-42 | the record shows the given mask as its number and copies the card's id, owner id, owner email, expiry, status, balance and both timestamps; it has no field for the stored ciphertext |
| Responses.FromEntityIgnoresCiphertext | src/main/java/com/example/bankcards/dto/response/CardResponse.java:30-42 | the response does not depend on the stored ciphertext or on the owner's role |
| Responses.FromEntityDeterminesVisibleFields | src/main/java/com/example/bankcards/dto/response/CardResponse.java:30-42 | equal responses come from the same mask and from cards that agree on every field except the ciphertext and the owner's role |
| Ledger.TransferCheck | src/main/java/com/example/bankcards/service/CardService.java:147-167 | no error exactly when every transfer condition holds. Otherwise the error comes from the first failing stage, in this order: same card; missing source, then missing destination; foreign source, then foreign destination; unusable source, then unusable destination; insufficient funds last |
| Ledger.Transfer | src/main/java/com/example/bankcards/service/CardService.java:143-183 | fails exactly when a check fails, with that check's error and the table unchanged; on success the source loses `amount`, the destination gains it, every other card is unchanged, and the response reports both new balances |
| Ledger.TransferConservesTotal | src/main/java/com/example/bankcards/service/CardService.java:169-173 | a successful transfer keeps the sum of all balances, and the sum of the two cards involved |
| Ledger.TransferKeepsWellFormed | src/main/java/com/example/bankcards/service/CardService.java:165-170 | a transfer of a positive amount never leaves a negative balance |
| Ledger.Block | src/main/java/com/example/bankcards/service/CardService.java:87-98 | a missing card and an already-blocked card are refused with the table unchanged; any other card becomes BLOCKED and nothing else about it changes |
| Ledger.RequestBlock | src/main/java/com/example/bankcards/service/CardService.java:125-141 | a missing card is refused, then any caller who is not the owner (administrators included); for the owner it behaves exactly as Block |
| Ledger.Activate | src/main/java/com/example/bankcards/service/CardService.java:101-116 | a missing card, then a card past its expiry, then an already-active card are refused with the table unchanged; activation succeeds exactly otherwise and is a permitted status change |
| Ledger.ActivateNeverRevivesExpired | src/main/java/com/example/bankcards/service/CardService.java:104-106 | activating a card past its expiry leaves the table as it was |
| Ledger.Delete | src/main/java/com/example/bankcards/service/CardService.java:119-122 | a missing card is reported as not found; otherwise exactly that card is removed and the others are unchanged |
| Ledger.ExpireIfDue | src/main/java/com/example/bankcards/service/CardService.java:207-210 | a card past its expiry ends EXPIRED with nothing else changed; any other card is untouched |
| Ledger.Sweep | src/main/java/com/example/bankcards/service/CardService.java:204-212 | the sweep keeps the set of cards; afterwards every card past its expiry is EXPIRED; only the status can change, and only on a card past its expiry |
| Ledger.SweepIdempotent | src/main/java/com/example/bankcards/service/CardService.java:204-212 | sweeping twice on the same day is the same as sweeping once |
| Ledger.SweepConservesTotal | src/main/java/com/example/bankcards/service/CardService.java:204-212 | the sweep moves no money |
| Ledger.RunKeepsWellFormed | src/main/java/com/example/bankcards/service/CardService.java:86-212 | after any history of block, block-request, activate, transfer (positive amounts), sweep and delete operations, no balance is negative and each card is filed under its own id |
| Ledger.RunConservesTotal | src/main/java/com/example/bankcards/service/CardService.java:86-212 | any history without deletions keeps the sum of all balances |
| Ledger.RunKeepsIdentity | src/main/java/com/example/bankcards/service/CardService.java:86-212 | no block, block request, activation, transfer, sweep or delete adds a card or changes its id, ciphertext, owner, expiry or timestamps (card creation is not one of these operations) |
| Ledger.ExpiredStaysInactive | src/main/java/com/example/bankcards/service/CardService.java:100-116 | a card past its expiry that is not ACTIVE is never ACTIVE again, whatever later operations do |
| Service.CardService.CreateCard | src/main/java/com/example/bankcards/service/CardService.java:33-52 | an unknown owner is refused and nothing changes. Otherwise a new card is added under a fresh id, owned by the user with the requested id (the response reports that owner id): ACTIVE, with the requested expiry, the given balance or zero, and only the ciphertext stored. That ciphertext decrypts to the generated number, the response shows that number's mask, the service invariant is kept, and earlier ciphertexts still decrypt as before |
| Service.CardService.FindAll | src/main/java/com/example/bankcards/service/CardService.java:62-63 | the result holds exactly the cards the filter accepts, each once, each as its own display record |
| Service.CardService.GetCurrentUserCards | src/main/java/com/example/bankcards/service/CardService.java:54-64 | the result holds exactly the caller's cards with the requested status (any status if none is given), each once; every record shows the caller as owner |
| Service.CardService.GetAllCards | src/main/java/com/example/bankcards/service/CardService.java:66-72 | the result holds exactly the cards with the requested status (all cards if none is given), each once and as its display record |
| Service.CardService.GetCardById | src/main/java/com/example/bankcards/service/CardService.java:74-84 | a missing card is not found; a caller who is neither an administrator nor the owner is denied; otherwise the result is the card's display record |
| Service.CardService.ToCardResponse | src/main/java/com/example/bankcards/service/CardService.java:219-223 | the display record exists exactly when the stored ciphertext decrypts; it is the card's record under the mask of the decrypted number |
| Service.CardService.BlockCard | src/main/java/com/example/bankcards/service/CardService.java:86-98 | the new table and the result are those of Ledger.Block; the service invariant is kept |
| Service.CardService.ActivateCard | src/main/java/com/example/bankcards/service/CardService.java:100-116 | the new table and the result are those of Ledger.Activate; the service invariant is kept |
| Service.CardService.DeleteCard | src/main/java/com/example/bankcards/service/CardService.java:118-122 | the new table and the result are those of Ledger.Delete; the service invariant is kept |
| Service.CardService.RequestBlockCard | src/main/java/com/example/bankcards/service/CardService.java:124-141 | the new table and the result are those of Ledger.RequestBlock; the service invariant is kept |
| Service.CardService.Transfer | src/main/java/com/example/bankcards/service/CardService.java:143-183 | the new table and the result are those of Ledger.Transfer; on success the total of all balances is unchanged; the service invariant (no negative balance) is kept |
| Service.CardService.GetBalance | src/main/java/com/example/bankcards/service/CardService.java:185-202 | a missing card is not found; a caller who is neither an administrator nor the owner is denied; otherwise the result is the card id, the mask of its decrypted number and its balance |
| Service.CardService.UpdateExpiredCards | src/main/java/com/example/bankcards/service/CardService.java:204-212 | the card-by-card loop leaves exactly the table Ledger.Sweep describes; the cipher state and the id counter are unchanged |

## Left out

- The cipher (AES with a random IV) is not part of this model. It is modelled as an ideal cipher: a table from issued ciphertexts to plaintexts, with freshness of the ciphertext standing for the random IV. Key handling and the encoding of real ciphertexts are not modelled. That two encryptions of the same number give different ciphertexts is assumed, as the freshness of the second ciphertext; it is not derived from the cipher.
- The random card-number generator is not part of this model. `CreateCard` receives the number as a parameter that must be issuable (16 characters, leading 4, Luhn-valid). `Luhn.WithCheckDigit` shows how such a number is completed. The uniqueness test (two generated numbers differ) is about randomness and is not modelled.
- Transactions, concurrency and locking are left out. Each method runs alone. The two balance updates of a transfer happen in one method call, so a concurrent interleaving cannot be expressed.
- The controllers and their role gates are left out. Only administrators reach create, list-all, block, activate and delete through the controllers, and the service methods themselves do not check roles, so neither does the model. The user service is reduced to a user directory and a caller parameter.
- Pagination and sorting of listings are left out. A listing is the set of matching cards, in no particular order.
- `CardSpecification.CardNumberContains`: SQL `LIKE` wildcards (`%`, `_`) inside the fragment are treated as ordinary characters. The match runs against the stored ciphertext, as in the source.
- Service.CardService.CreateCard: the request validation (expiry in the future, balance not negative) is a precondition, because it runs before the service is called. The repository-assigned id is modelled as a counter, and `createdAt`/`updatedAt` are the `now` parameter.
- Service.CardService.Transfer: a positive amount is a precondition, taken from the transfer request's validation. That request class is not part of this model.
- Service.CardService.BlockCard: the persistence layer's refresh of `updatedAt` on save is not modelled, and the same holds for every other state change.
- Service.CardService.UpdateExpiredCards: the source reads the clock once per card. The model reads the day once per sweep.
- Luhn.IsValidLuhn: Java's 32-bit `int` overflow of the sum is not modelled. A string of decimal digits needs well over a hundred million characters to overflow it; a string of letters such as `z` (terms 35 and 61) overflows at about 45 million characters. `Character.getNumericValue` is modelled for ASCII characters only.
- The card entity is not part of this model. Its `isExpired` is taken as "expiry day before today" and its `isActive` as "status ACTIVE and not expired".
- Some behaviour of the code is looser than the design's state machine, and the model follows the code. A card with status EXPIRED can still be blocked. A card with status EXPIRED whose date has not passed can be activated. Such a card never arises as long as no operation runs on an earlier day than one before it, because the sweep marks EXPIRED only cards whose date has passed and no operation changes the expiry date. If the day went back (a sweep on day 100 and then an activation on day 50 of a card expiring on day 60), the card would be activated again. For cards whose date has passed, `Ledger.ExpiredStaysInactive` proves they are never reactivated.
