# SMEFlow verification model

A Dafny model of the parts of SMEFlow where a small piece of code carries a large promise: the
GhQR payment payload and its checksum, the one-time-password protocol over Redis, the filing
client of the revenue authority, the figures of a VAT return, the best-seller table of the
analytics screen, and bulk payouts. `dafny verify dfyconfig.toml` checks all of it.

## Layout

| file | contents |
|---|---|
| `Bits.dfy`, `Gf2Poly.dfy`, `BitInts.dfy` | bit strings, polynomials over the two-element field with long division, unbounded integers with bitwise operators |
| `CrcRegister.dfy`, `Crc16.dfy`, `CrcLaws.dfy`, `CrcDistance.dfy` | the checksum as algebra, as the program's loops, its laws on bytes, and the errors it detects |
| `Numerals.dfy`, `Money.dfy`, `Utf8.dfy` | decimal numerals, amounts with two places, text as bytes |
| `Tlv.dfy`, `GhQr.dfy` | the field printer with its strict reader, and the payload generator |
| `PayloadIdentity.dfy` | what a payload determines |
| `CharacterBits.dfy`, `FourByteBits.dfy`, `FourByteCharacters.dfy`, `WrongCharacters.dfy` | which wrong characters the checksum misses |
| `Redis.dfy`, `HubtelOtp.dfy` | the store and the client object with its steps |
| `OtpHistory.dfy`, `OtpClaims.dfy`, `OtpIsolation.dfy`, `OtpInterleaving.dfy`, `OtpPending.dfy`, `OtpSequential.dfy` | invariants of every run, the promises, independence of phones, concurrent calls, which password they leave pending, and how sequential runs fit among them |
| `Json.dfy` | decoded JSON values |
| `GraClient.dfy`, `VatReturn.dfy` | retry loop and answer reader, printed VAT figures |
| `StableOrder.dfy`, `TopSellers.dfy` | stable sorting and the best-seller table |
| `BulkTransfer.dfy`, `Wrappers.dfy` | bulk payouts, the option type |

## Conventions

- Python integers are unbounded, so the checksum register is a `nat` with `BitXor`, `BitAnd` and
  `ShiftLeft`, and the mask to 16 bits is written out where the program writes it.
- Text is a sequence of Unicode scalar values, as `len` counts it; the checksum runs over its
  UTF-8 encoding, which is modelled in full.
- A `real` stands for a `Decimal` of any precision (and for an exact number on the screen).
  Rounding to two places sends a tie to the even neighbour, the default of Python's decimal context.
- Answers of remote services, and the seconds they take, are inputs.
- Loops and updated state are methods and a class; each is tied to a function of its inputs or of
  the old state, and the promises are lemmas about those functions.

## Where the code and its own text differ

The model follows the code.

- `resend_otp` says three attempts per 900 seconds. Each accepted resend renews the counter's expiry,
  so the code refuses after three accepted resends whose gaps are under 900 seconds, even when
  they span more than one window. `OtpClaims.DocumentedLimitIff` says exactly when code and rule agree:
  unless a chain of three has not ended while the third admission from its end is 900 seconds old or
  more. `OtpClaims.RefusedBelowTheLimit` is a run in which they do not.
- `verify_otp` deletes by phone, whichever password it has checked. When calls for one phone interleave,
  a late success of an old password takes away a fresh one that was never used: what `OtpClaims.AcceptedIff`
  and `OtpClaims.SentIsPending` say of calls one after the other then no longer holds. `OtpPending.PendingIff`
  and `OtpPending.LostUnusedIff` say what does.
- The filing client says that it retries network errors. It retries timeouts and four statuses; any
  other network error ends the loop (`GraClient.RequestErrorNotRetried`). It says that it raises on
  permanent failure, but a permanent error status with a readable body is returned as an unsuccessful
  result (`GraClient.ReturnsFailureIff`). The pauses are 2 and 4 seconds, the 8 of the comment never
  happens (`GraClient.NeverEightSeconds`).
- The reader of the answers is annotated for objects, but it is handed any decoded JSON. On other bodies,
  and on error lists whose messages are not text, it raises, and the loop does not catch that
  (`GraClient.ReaderFailsIff`).
- A field of 100 characters or more prints a three-digit length, and such a print can be read as
  other fields (`Tlv.LongValueIsAmbiguous`). The round trip therefore comes with its exact condition.
- The printed net VAT can differ from the difference of the printed taxes by one pesewa
  (`VatReturn.OnePesewaApart`); `VatReturn.FiguresAgreeIff` says exactly when it does not.

## Model

| member | source | states |
|---|---|---|
| Crc16.Checksum16 | api/libs/qr_generator/ghqr.py:15-26 | the nested loops print four digits that read, in upper case and most significant first, as the remainder of M(x)*x^16 + 0xFFFF*x^(8n) on division by x^16+x^12+x^5+1 and as no other number: the ISO/IEC 13239 checksum of section 4.7.3 of the EMV specification |
| Crc16.RegisterIsTheRemainder | api/libs/qr_generator/ghqr.py:17-25 | for every byte string the final register is that remainder, and only it is |
| Crc16.ByteStepIsFeed | api/libs/qr_generator/ghqr.py:19-25 | mixing a byte in at the top and shifting eight times is dividing in its eight bits one by one |
| Crc16.ShiftStepIsStep | api/libs/qr_generator/ghqr.py:21-25 | the test of the top bit, the shift, the xor and the mask on an unbounded integer are one step of the 16-bit register |
| Crc16.HexReadsBack | api/libs/qr_generator/ghqr.py:26 | a text reads as a number below 65536, by upper-case digits with the most significant first, exactly when it is that number's print |
| CrcRegister.ChecksumIsTheRemainder | api/libs/qr_generator/ghqr.py:17-25 | on bit strings: the shift register computes the unique remainder of the polynomial division |
| CrcRegister.ChecksumDivides | api/libs/qr_generator/ghqr.py:21-24 | the bits shifted out are the quotient of that division |
| CrcRegister.UndetectedIffMultiple | api/libs/qr_generator/ghqr.py:17-25 | two messages of one length share a checksum exactly when they are equal or their difference is a multiple of the generator |
| CrcRegister.BurstDetected | api/libs/qr_generator/ghqr.py:17-25 | messages that differ only inside one window of at most 16 bits share a checksum only if they are equal |
| CrcRegister.WindowMerge | api/libs/qr_generator/ghqr.py:20-25 | when two registers that read different windows meet |
| CrcRegister.FeedInjective | api/libs/qr_generator/ghqr.py:20-25 | for fixed input the step is injective in the register |
| CrcRegister.Residue | api/libs/qr_generator/ghqr.py:17-25 | appending 16 bits brings the register to zero exactly when they are the checksum itself |
| CrcRegister.ChecksumAffine | api/libs/qr_generator/ghqr.py:17-25 | the checksum of the sum of three messages of one length is the sum of their checksums |
| CrcRegister.ChecksumParity | api/libs/qr_generator/ghqr.py:17-25 | the checksum has the bit parity of the message |
| CrcLaws.RegisterBurst | api/libs/qr_generator/ghqr.py:15-26 | byte strings of one length that differ only inside a window of at most 16 bits, at any bit position, leave the same register only if they are equal |
| CrcLaws.RegisterResidue | api/libs/qr_generator/ghqr.py:15-26 | two more bytes bring the register to zero exactly when they are its own high and low byte |
| CrcLaws.RegisterAffine | api/libs/qr_generator/ghqr.py:15-26 | the register of the sum of three byte strings of one length is the bitwise sum of their registers |
| CrcLaws.RegisterParity | api/libs/qr_generator/ghqr.py:15-26 | the register has an odd number of ones exactly when the data has |
| CrcDistance.OrderOfX | api/libs/qr_generator/ghqr.py:21-25 | the powers of x modulo the generator repeat with period exactly 32767 |
| CrcDistance.TwoFlips | api/libs/qr_generator/ghqr.py:17-25 | two flipped bits go undetected exactly when 32767 divides their distance |
| CrcDistance.FewFlipsDetected | api/libs/qr_generator/ghqr.py:17-25 | one, two or three flipped bits within 32767 bits change the checksum |
| CrcDistance.OddFlipsDetected | api/libs/qr_generator/ghqr.py:17-25 | any odd number of flipped bits changes the checksum |
| Tlv.RoundTripIff | api/libs/qr_generator/ghqr.py:9-12 | a list of fields reads back as itself exactly when every tag has two characters and every value at most 99 |
| Tlv.ParseIffEncode | api/libs/qr_generator/ghqr.py:9-12 | the strict reader returns a list exactly when the text is the print of that well-formed list |
| Tlv.UniqueDecoding | api/libs/qr_generator/ghqr.py:9-12 | no two lists of well-formed fields share a print |
| Tlv.LongValueIsAmbiguous | api/libs/qr_generator/ghqr.py:11-12 | with a value of 100 characters unique decoding fails |
| Utf8.ReadCharIff | api/libs/qr_generator/ghqr.py:18 | a strict reader by section 4 of RFC 3629 takes a byte string for a character exactly when it is the character's encoding |
| Utf8.BytesInjective | api/libs/qr_generator/ghqr.py:18 | different texts have different bytes under the checksum |
| GhQr.Generate | api/libs/qr_generator/ghqr.py:29-66 | the last four characters of the generated payload read as the remainder of all the rest, and a strict reader gets its fields back exactly when the merchant's id has at most 77 characters and the amount prints in at most 99 |
| GhQr.Parts | api/libs/qr_generator/ghqr.py:42-59 | the fields appended before the checksum, with tag 54 only for an amount other than zero |
| GhQr.ReadsBackIff | api/libs/qr_generator/ghqr.py:42-66 | the exact condition under which the payload reads back |
| GhQr.ReaderSees | api/libs/qr_generator/ghqr.py:42-66 | a reader of a readable payload finds the format 01, the initiation 11 or 12, GH.GHIPSS.GHQR with the merchant's own id or else SMEFLOW000001, 5999, 936, the amount to the nearest pesewa if it is not zero, GH, the first 25 characters of the name, ACCRA and the checksum of all the rest, in this order and nothing else |
| GhQr.VerifiesIff | api/libs/qr_generator/ghqr.py:61-66 | any text passes the check exactly when its last four characters read as the remainder of the rest |
| GhQr.MerchantInfoLength | api/libs/qr_generator/ghqr.py:47-49 | tag 26 fits its two-digit length exactly when the id has at most 77 characters |
| PayloadIdentity.SamePayloadIff | api/libs/qr_generator/ghqr.py:40-66 | for every business and every amount, readable payload or not: payloads are equal exactly when the effective ids, the first 25 characters of the names and the amounts in pesewas are, no amount and amount zero being different |
| PayloadIdentity.OwnIdsTell | api/libs/qr_generator/ghqr.py:46-48 | merchants with different ids of their own never share a payload, and one without an id shares only those of SMEFLOW000001 |
| GhQr.ReplacementNoticed | api/libs/qr_generator/ghqr.py:61-66 | replacing a stretch of at most two bytes by another of the same length in bytes fails the check: one wrong ASCII character, one two-byte character by another, two swapped ASCII characters |
| WrongCharacters.ReplacementIff | api/libs/qr_generator/ghqr.py:61-66 | a replacement of any length goes unnoticed exactly when both stretches take the register in front of them to the same value |
| WrongCharacters.SameLengthReplacementIff | api/libs/qr_generator/ghqr.py:61-66 | a replacement of the same length in bytes goes unnoticed exactly when it changes nothing or the difference is a multiple of the generator |
| WrongCharacters.WrongCharacterIff | api/libs/qr_generator/ghqr.py:61-66 | one character by any other of the same length in bytes: unnoticed exactly when they are equal, take three bytes that differ by 01 10 21, or take four bytes that differ by a sum of the five rows 00 01 10 21, 00 10 12 31, 00 22 04 20, 01 00 33 31, 04 0E 2D 0A |
| FourByteBits.FourByteDifference | api/libs/qr_generator/ghqr.py:17-25 | of the differences of four bytes in the bits that UTF-8 leaves free, an empty register takes exactly those sums to zero |
| WrongCharacters.SameChecksumIff | api/libs/qr_generator/ghqr.py:57-66 | for any business and amount: another character of the same length in bytes in the printed name leaves the checksum as it was exactly when the two are equal or confused |
| WrongCharacters.CediInName | api/libs/qr_generator/ghqr.py:57-66 | the cedi sign U+20B5 and U+3494 are confused: for any business with the sign in its printed name, the different text with the other character still passes |
| WrongCharacters.CediAccepted | api/libs/qr_generator/ghqr.py:57-66 | a business called after the sign: the payload generated for it and another text that passes with its checksum |
| GhQr.PayloadFlipsNoticed | api/libs/qr_generator/ghqr.py:61-66 | one, two or three flipped bits anywhere under the checksum of a readable payload fail the check |
| GhQr.CoveredIsShort | api/libs/qr_generator/ghqr.py:42-62 | a readable payload is short enough for that |
| Money.PrintedReadsBack | api/libs/qr_generator/ghqr.py:55 | the printed amount reads as its sign and the pesewas nearest to its magnitude |
| Money.ColumnAmountIsShort | api/libs/qr_generator/ghqr.py:55 | every amount below 10^13, and so every value of a Numeric(15,2) column, fits its field |
| Money.RoundIff | api/libs/gra_client/payload_builder.py:84 | rounding yields the nearest integer, and of two equally near ones the even one |
| HubtelOtp.Client.SendOtp | api/libs/hubtel_otp.py:35-54 | the new state and result of a send, from the old state and the provider's answer |
| HubtelOtp.Client.VerifyOtp | api/libs/hubtel_otp.py:56-84 | the new state and result of a verify |
| HubtelOtp.Client.ResendOtp | api/libs/hubtel_otp.py:86-130 | the new state and result of a resend, with the limit, the charge and the fallback to a fresh send |
| HubtelOtp.Client.StoreOtp | api/libs/hubtel_otp.py:132-137 | the stored password and its expiry of 300 seconds |
| HubtelOtp.Client.LoadOtp | api/libs/hubtel_otp.py:139-148 | an expired or missing password counts as absent |
| OtpHistory.KeysApart | api/libs/hubtel_otp.py:21-22 | both key builders are injective and their ranges do not meet |
| OtpHistory.RunKeeps | api/libs/hubtel_otp.py:35-155 | in every run the store of every phone is what the history of that phone says, and every success is justified by its history |
| OtpHistory.ChargedTimes | api/libs/hubtel_otp.py:103-106 | increment and renewed expiry keep the counter equal to the number of admissions with gaps under 900 seconds |
| OtpClaims.SlidingWindow | api/libs/hubtel_otp.py:94-106 | in every run any half-open window of 900 seconds holds at most three admitted resends of a phone |
| OtpClaims.RefusedIff | api/libs/hubtel_otp.py:96-102 | a resend is refused exactly when three or more admissions with gaps under 900 seconds lead up to less than 900 seconds ago |
| OtpClaims.DocumentedLimitIff | api/libs/hubtel_otp.py:86-106 | for every run: whoever has three admissions in the last 900 seconds is refused, and refusal agrees with that rule exactly unless a chain of three is still alive whose third admission from the end is 900 seconds old or more |
| OtpClaims.RefusedBelowTheLimit | api/libs/hubtel_otp.py:89-105 | a run in which they disagree: a resend is refused although the last 900 seconds hold one admission |
| OtpClaims.ResendRaisesIff | api/libs/hubtel_otp.py:108-130 | apart from the limit a resend raises exactly when the fresh send fails and there was no live password or its resend failed too |
| OtpClaims.AcceptedIff | api/libs/hubtel_otp.py:56-84 | verify answers True exactly when the last thing that happened to the phone's password was its store, less than 300 seconds ago, and the provider says 200; it never raises |
| OtpClaims.SuccessHasStore | api/libs/hubtel_otp.py:56-81 | every True follows the store of its own password, read less than 300 seconds after it, with no other store or success of the phone in between |
| OtpClaims.OwnStore | api/libs/hubtel_otp.py:56-81 | two successes of a phone are matched to different stores, each before its success |
| OtpClaims.SingleUse | api/libs/hubtel_otp.py:59-60 | successes never exceed stores |
| OtpClaims.SentIsPending | api/libs/hubtel_otp.py:50-54 | the credentials that send or resend returns are the ones that verify checks next |
| OtpClaims.SpentUntilStored | api/libs/hubtel_otp.py:56-84 | after a True, every later verify of the phone answers False until a new password is stored for it |
| OtpIsolation.Refines | api/libs/hubtel_otp.py:21-155 | the flat store refines independent phones: an operation does to its own phone what a keyless client does, and nothing to any other |
| OtpIsolation.Isolation | api/libs/hubtel_otp.py:35-155 | replacing all operations on other phones by delays changes no result for a phone in any run |
| OtpIsolation.GoodFor300Seconds | api/libs/hubtel_otp.py:20-84 | in every run, if nothing else happens to the phone after a send, a verify answers True exactly when it starts less than 300 seconds after the store and the provider says 200 |
| OtpInterleaving.BoundedOvershoot | api/libs/hubtel_otp.py:96-106 | with k resends between reading and charging the counter, counter plus those callers never exceeds 3 + k - 1, nor do the admissions in any window |
| OtpInterleaving.PassesIff | api/libs/hubtel_otp.py:96-106 | an interleaved resend passes the limit exactly when no three admissions with gaps under 900 seconds lead up to less than 900 seconds ago |
| OtpInterleaving.OvershootAttained | api/libs/hubtel_otp.py:96-106 | for every k a run reaches that bound |
| OtpInterleaving.BoundedReuse | api/libs/hubtel_otp.py:62-79 | with k verify calls in flight one password succeeds at most k times |
| OtpInterleaving.ReuseAttained | api/libs/hubtel_otp.py:62-79 | for every k a run reaches that bound |
| OtpPending.PendingIff | api/libs/hubtel_otp.py:62-79 | in every interleaved run a password is in the store exactly when neither a store nor a success of any password of the phone has come after its own store; it expires 300 seconds after that |
| OtpPending.ReadableIff | api/libs/hubtel_otp.py:62-64 | a verify call can read a password exactly when one is pending whose store is less than 300 seconds ago |
| OtpPending.LostUnusedIff | api/libs/hubtel_otp.py:56-79 | the latest password is gone without a success of its own exactly when after its store there were successes, all of them for older passwords |
| OtpPending.KeptWithoutOverlap | api/libs/hubtel_otp.py:56-79 | when no verify call was under way at the last store, the password is gone exactly when it has succeeded |
| OtpPending.FreshPasswordLost | api/libs/hubtel_otp.py:62-79 | a run with one verify call in flight that loses a fresh password |
| OtpSequential.SequentialIsInterleaved | api/libs/hubtel_otp.py:35-155 | every sequential run, seen from one phone, is an interleaved run with one call in flight, with the same counter, password, admissions, stores and successes |
| GraClient.PostWithRetry | api/libs/gra_client/__init__.py:157-200 | every attempt before the last one made is a timeout or a 500, 502, 503 or 504, and the last one made is neither unless the limit is reached; its reading is returned, or its error or the reader's exception raised; the pauses between attempts are 2, 4, ... seconds |
| GraClient.AnsweredAtOnce | api/libs/gra_client/__init__.py:176-188 | any other first response ends the loop after one request and without a pause |
| GraClient.ParseSubmissionIff | api/libs/gra_client/response_parser.py:25-85 | of all JSON bodies the reader reads exactly these: any for 401 and 403, else objects, and for 400 and 422 with a list of objects with text messages where the error list is not empty; it reports success exactly for 200, 201, 202 |
| GraClient.AcceptedSays | api/libs/gra_client/response_parser.py:44-52 | an accepted return takes its reference from the first of three fields that holds one, and its message from the body |
| GraClient.RejectedSays | api/libs/gra_client/response_parser.py:54-68 | a rejected return has no reference and the messages of the error list joined in order, or else the body's own message |
| GraClient.ErrorSays | api/libs/gra_client/response_parser.py:70-85 | what every other status says |
| GraClient.WrappedText | api/libs/gra_client/__init__.py:165-169 | a response that is not JSON is read as an object that holds its text |
| GraClient.SucceedsIff | api/libs/gra_client/__init__.py:161-188 | filing succeeds exactly when some allowed attempt is answered 200, 201 or 202 with an object, after transient answers only |
| GraClient.ReturnsFailureIff | api/libs/gra_client/__init__.py:161-188 | it returns an unsuccessful result exactly when the response that ends the loop has another status and a readable body |
| GraClient.ReaderFailsIff | api/libs/gra_client/__init__.py:163-195 | the reader's exception leaves the loop exactly when the body of that response is not readable for its status |
| GraClient.UnavailableIff | api/libs/gra_client/__init__.py:190-200 | the client's own error is raised exactly when no attempt is allowed, a request error comes before any final response, or the last attempt times out |
| GraClient.RaisesIff | api/libs/gra_client/__init__.py:157-200 | it raises exactly when no attempt is allowed, a request error comes before any final response, the last attempt times out, or the response that ends the loop has a body its reader cannot read |
| GraClient.PauseTotal | api/libs/gra_client/__init__.py:177-194 | k attempts pause 2^k - 2 seconds in all, at most 2^limit - 2 |
| GraClient.PausesDouble | api/libs/gra_client/__init__.py:177-194 | the first pause takes two seconds, each later one twice the one before |
| GraClient.NeverEightSeconds | api/libs/gra_client/__init__.py:52-53 | the three attempts pause 2 and 4 seconds, one pause for each of the first two that is a timeout or one of the four statuses, and never 8 |
| VatReturn.FiguresDenote | api/libs/gra_client/payload_builder.py:51-84 | each of the seven figures denotes its own amount to the nearest pesewa, the net VAT the difference of the taxes or zero |
| VatReturn.NetVatWithinOnePesewa | api/libs/gra_client/payload_builder.py:51-68 | the printed net VAT is within one pesewa of the non-negative difference of the printed taxes, for amounts of any precision and sign |
| VatReturn.FiguresAgreeIff | api/libs/gra_client/payload_builder.py:51-68 | exactly when the printed figures agree |
| VatReturn.WholeFiguresAgree | api/libs/gra_client/payload_builder.py:51-68 | they agree when both taxes are whole pesewas |
| VatReturn.OnePesewaApart | api/libs/gra_client/payload_builder.py:51-68 | the bound of one pesewa is reached |
| VatReturn.FigureReadsBack | api/libs/gra_client/payload_builder.py:82-84 | a printed figure denotes the amount rounded to pesewas |
| TopSellers.TopSellers | mobile/app/owner/analytics.tsx:111-129 | the nested loops over the map give at most eight different groups of the lines of all sales, however these are split into sales: largest revenue or quantity or first name first, by the mode, equal ones and kept against dropped ones by first occurrence |
| TopSellers.TopByRevenue | mobile/app/owner/analytics.tsx:122-128 | by revenue: no later and no dropped group has a larger revenue, and among equal ones the name that occurred first comes first |
| TopSellers.TopByQuantity | mobile/app/owner/analytics.tsx:122-128 | by quantity: the same of quantities |
| TopSellers.TopByName | mobile/app/owner/analytics.tsx:122-128 | by name: the same of the locale's order of names |
| TopSellers.SaleAddsItems | mobile/app/owner/analytics.tsx:113-114 | the lines are the items of the sales, one sale after the other |
| TopSellers.GroupIsSum | mobile/app/owner/analytics.tsx:115-118 | a group adds up the lines with its description, or those without any under "Unknown item" |
| TopSellers.AddLine | mobile/app/owner/analytics.tsx:115-119 | the map keeps holding exactly the groups of the lines seen, in the order of first occurrence |
| TopSellers.TopIsStable | mobile/app/owner/analytics.tsx:122-128 | the result is the first eight of the one stable order of the groups; no dropped group stands before a kept one |
| TopSellers.GroupsAddUp | mobile/app/owner/analytics.tsx:113-121 | before the cut the groups add up to the lines, in quantity and in revenue |
| TopSellers.NamesAreAll | mobile/app/owner/analytics.tsx:115-119 | there is one group for each name that occurs and no other |
| StableOrder.StableOrderUnique | mobile/app/owner/analytics.tsx:123-127 | a stable order is unique, so the sorting algorithm does not matter |
| StableOrder.SortedIsStable | mobile/app/owner/analytics.tsx:123-127 | the sorted rows are in stable order |
| BulkTransfer.KoboBounds | api/libs/payment_clients/paystack.py:90-92 | conversion loses less than one kobo towards zero, and nothing exactly for whole kobo |
| BulkTransfer.ItemsSent | api/libs/payment_clients/paystack.py:723-731 | each transfer is sent to its own recipient under its own reference, for its own reason or else "SMEFlow payout" |
| BulkTransfer.BatchTotal | api/libs/payment_clients/paystack.py:723-731 | a batch of non-negative amounts asks for no more than its exact total, is short by less than one kobo per transfer, and is exact exactly when all amounts are whole |
| BulkTransfer.ParseOutcomes | api/libs/payment_clients/paystack.py:753-799 | one outcome for each transfer, in order, from the result in the same position of the list wherever the answer holds it |
| BulkTransfer.ResultsFound | api/libs/payment_clients/paystack.py:763-770 | where the results are: the answer itself, or "transfers" if it holds anything, or else "data", if these are lists |
| BulkTransfer.OutcomeSays | api/libs/payment_clients/paystack.py:773-797 | what each field of an outcome is taken from |
| BulkTransfer.OwnReferenceIff | api/libs/payment_clients/paystack.py:778 | an outcome carries its transfer's reference exactly when the result in its position names that reference or none |
| BulkTransfer.DroppedIff | api/libs/payment_clients/paystack.py:773-799 | when the answer leaves one result out, code, status and error of all outcomes are still right exactly when neither that result nor any later one says anything |
| BulkTransfer.ReorderedIff | api/libs/payment_clients/paystack.py:773-799 | for results in any order, with omissions and repetitions: all are right exactly when every position holds a result that says the same as the transfer's own |
| BulkTransfer.ReferencesTell | api/libs/payment_clients/paystack.py:773-799 | when every result names its transfer's reference and no two transfers share one, the references tell exactly which positions hold another transfer's result |
| BulkTransfer.SwappedUnseen | api/libs/payment_clients/paystack.py:773-799 | two swapped results that name no reference: right references, swapped statuses |
| BulkTransfer.AmountsKept | api/libs/payment_clients/paystack.py:792 | no answer changes an amount, so the outcomes report the total that was sent |

## Left out

- HTTP, authentication headers, logging and JSON decoding: their results are inputs. Failures of Redis itself are not modelled.
- `generate_qr_image_bytes`: a call into an image library.
- Text with unpaired surrogates, which Python refuses to encode; a business whose name is null, which raises.
- A negative zero as an amount: its printed sign is not modelled, because reals have one zero.
- The precision limit of Python's decimal context, and floating-point rounding on the analytics screen.
- Time is in whole seconds, and one clock serves client and store.
- In the interleaved machine passwords are named by the order of their stores, and the fallback of a resend is one more store.
- The attempt counter and lockout around the one-time-password client, which live in other services.
- JSON numbers are exact reals: whole numbers and floats of equal value are one, and Python's NaN and infinities are absent. Python's printed form of a JSON value is a parameter.
- The period type, the declaration date and the party names of a VAT return: copied or chosen by one comparison.
- The collation behind `localeCompare`: the order of names is a parameter, a total preorder. Quantities and totals that are not numbers.
- The other figures of the analytics screen (trend halves, payment mix, averages): single sums and filters.
- Webhook signatures, subscriptions, splits and the other thin wrappers of the payment client.
- The cashier receipt: its listed levies do not add up to the combined rate, so no total is stated for it.
