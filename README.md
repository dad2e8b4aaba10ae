# Dating back end — verified model

This project models the core of a dating-app back end written in TypeScript
(Express, Mongoose, socket.io), and proves properties of that model in Dafny:

- **Like / unlike / match engine**: the user store holds three relation sets
  per user (`likes`, `likedBy`, `matches`). A like records both sides, and a
  like that answers an earlier like creates a match on both sides. Each like
  stores notifications and pushes them to the receivers' sockets. An unlike
  undoes the like and any match it had created. The profile view exposes
  only three derived booleans.
- **Time-slot kernel**: `toMinutes` / `toTimeStr` on "HH:mm" text, written
  with JavaScript's `Number()`, `toString()` and `padStart`. Also
  `getIntersection`, with its 30-minute threshold, and the nested
  first-common-slot search.
- **Conflict check** for a found slot, including the behaviour of line 455 as
  written (see Findings).
- **Availability and appointments**: upsert of the caller's slots, the
  submission answer, confirmation, a pair's status and a user's agenda.
- **Socket registry**: a `Map` from user id to socket id, kept in insertion
  order. Registration is last-wins; a disconnect removes the first owner of
  the socket; a push is emitted only to a registered socket.
- **OTP table**: six-digit codes, one pending code per (email, purpose), five
  minutes of validity, single use.
- **Account service**: `sendOTP`, registration, reset of a password, the
  refresh-token table, and the partial profile update.
- **Feed**: creating a post, the feed (unseen posts by others, newest first,
  at most 20), and marking a post as seen.

Every MongoDB collection is a field of one `Store.Database` object. Each
handler is a method that names, in `modifies`, the collections it writes.
The socket server is a `Sockets.SocketRegistry` object whose `emitted` field
records every emission. Each method is specified by a pure function of the
old state, such as `Matching.Liked`, `OtpStore.AfterCreate` or
`Scheduling.AvailabilityAnswer`. The properties of the source are lemmas
about those functions.

Things the source gets from outside are parameters:
- the clock (`now`);
- ObjectId validity (`isValidId`);
- fresh ids (`newId`);
- password hashing (`hash`);
- signed tokens;
- the random draw of an OTP (a nondeterministic choice in the range).

Where the repository's own description and the code differ, the model
follows the code:
- An appointment between the caller and the counterpart yields *both*
  warnings (`Scheduling.PairAppointmentWarnsBoth`).
- The two-sided updates are not rolled back on failure.
- `confirmAppointment` does not re-check the slot it is given.

## Model

| member | source | states |
|---|---|---|
| Decimal.JsNumberReadsSpelling | src/controllers/dating.controllers.ts:407-413 | `Number()` reads back the value `toString()` printed, with or without the two-digit `padStart` |
| Decimal.JsNumberIgnoresLeadingZero | src/controllers/dating.controllers.ts:407 | a leading zero never changes what `Number()` reads ("09" is 9), and NaN text stays NaN |
| Decimal.ToDecimal | src/controllers/dating.controllers.ts:413 | `toString()` of a non-negative integer is a non-empty digit string with that value and no leading zero |
| Decimal.PadStart2 | src/controllers/dating.controllers.ts:413 | `padStart(2, '0')` yields at least two characters and ends with the input |
| Decimal.TwoDigitsRoundTrip | src/controllers/dating.controllers.ts:410-414 | a two-digit field is spelled back unchanged by `toString().padStart(2, '0')` |
| Decimal.PaddedValue | src/controllers/dating.controllers.ts:413 | padding a spelled number keeps its value |
| TimeSlots.Split | src/controllers/dating.controllers.ts:407 | `split(':')` yields at least one field and no field holds the separator |
| TimeSlots.SplitJoin | src/controllers/dating.controllers.ts:407 | joining the fields of `split` with the separator gives back the text |
| TimeSlots.SplitTwoFields | src/controllers/dating.controllers.ts:407 | "a:b" splits into exactly [a, b] |
| TimeSlots.MinutesRoundTrip | src/controllers/dating.controllers.ts:406-414 | `toMinutes(toTimeStr(n)) == n` for every minute count n |
| TimeSlots.ClockRoundTrip | src/controllers/dating.controllers.ts:406-414 | a zero-padded "HH:mm" with HH < 24 and mm < 60 reads as a minute below 1440 and prints back unchanged |
| TimeSlots.GetIntersection | src/controllers/dating.controllers.ts:402-435 | a returned slot lies on the date both inputs share (different dates give null) |
| TimeSlots.IntersectionSound | src/controllers/dating.controllers.ts:416-432 | the returned slot is a common window of both inputs, at least 30 minutes long, and contains every other common window |
| TimeSlots.IntersectionComplete | src/controllers/dating.controllers.ts:420-426 | two slots on one date that share a window of 30 minutes or more always intersect |
| TimeSlots.FirstCommonFound | src/controllers/dating.controllers.ts:501-511 | a found common slot is the intersection of some pair (i, j), and every pair before it in my-outer/their-inner order has none |
| TimeSlots.FirstCommonNone | src/controllers/dating.controllers.ts:501-518 | no common slot is found exactly when no pair of slots intersects |
| TimeSlots.FindFirstCommonSlot | src/controllers/dating.controllers.ts:501-511 | the nested loop with `break` returns the first hit of the pairwise search |
| Sockets.Get | src/socket.ts:45 | `map.get` finds a value exactly when some entry has the key |
| Sockets.FirstOwner | src/socket.ts:28-29 | the scan stops at the first entry holding the socket, and no earlier entry holds it |
| Sockets.SetThenGet | src/socket.ts:21 | after `set`, the key maps to the new socket and every other key is unchanged |
| Sockets.SetKeepsKeysUnique | src/socket.ts:21 | `set` keeps every key once and adds no key except the one set |
| Sockets.DeleteThenGet | src/socket.ts:30 | after `delete`, the key is gone and every other key is unchanged |
| Sockets.DeleteKeepsKeysUnique | src/socket.ts:30 | `delete` keeps keys unique and only removes entries |
| Sockets.GetFindsKey | src/socket.ts:45 | with unique keys, `get` returns the value of the one entry with the key |
| Sockets.DisconnectRemovesFirstOwner | src/socket.ts:26-35 | disconnect removes the first owner of the socket only, and leaves the map unchanged when no one owns it |
| Sockets.ReconnectSurvivesOldDisconnect | src/socket.ts:19-35 | a user who re-registered on a new socket keeps that mapping when the old socket disconnects |
| Sockets.PushFor | src/socket.ts:42-50 | at most one emission; one exactly when the server is up and the receiver has a non-empty socket id, and then to that socket |
| Sockets.SocketRegistry.constructor | src/socket.ts:4-7 | before `initSocket`: no server and an empty map |
| Sockets.SocketRegistry.InitSocket | src/socket.ts:9-10 | after `initSocket` the server exists |
| Sockets.SocketRegistry.RegisterUser | src/socket.ts:19-24 | a non-empty user id maps to this socket (last wins) and the others keep theirs; an empty id changes nothing |
| Sockets.SocketRegistry.Disconnect | src/socket.ts:26-35 | the loop deletes the first owner of the closing socket and keeps keys unique |
| Sockets.SocketRegistry.SendNotification | src/socket.ts:42-50 | the emitted log grows by exactly the push for the receiver |
| Matching.MatchesSymmetric | src/controllers/dating.controllers.ts:117-121 | in a consistent store, matches are symmetric |
| Matching.Like | src/controllers/dating.controllers.ts:82-160 | fails with nothing changed on an invalid id, a self-like, a missing user or a repeated like (in that order). Otherwise it records both sides; `isMatch` is whether the target was in the caller's `likedBy` beforehand. Two match notices (or one like notice) are appended and pushed with the sender's name and avatar |
| Matching.Unlike | src/controllers/dating.controllers.ts:343-394 | fails with nothing changed on an invalid id, a self-unlike, a missing caller or a missing like. Otherwise it pulls the like from both sides and the match from both sides iff the caller had it; returns `matchRemoved` = whether it was matched; stores and pushes nothing |
| Matching.LikePreservesConsistency | src/controllers/dating.controllers.ts:108-121 | a like keeps the store consistent: mirrored likes, ids that exist, match iff mutual like |
| Matching.UnlikePreservesConsistency | src/controllers/dating.controllers.ts:371-385 | an unlike keeps the store consistent |
| Matching.LikeKeepsIdsKnown | src/controllers/dating.controllers.ts:109-121 | after a like every id in a relation set is still a stored user |
| Matching.LikeKeepsMirror | src/controllers/dating.controllers.ts:109-112 | after a like, y is in x's likes iff x is in y's likedBy |
| Matching.LikeKeepsMatchRule | src/controllers/dating.controllers.ts:115-121 | after a like, a match on either side still means a mutual like |
| Matching.UnlikeKeepsIdsKnown | src/controllers/dating.controllers.ts:372-385 | after an unlike every id in a relation set is still a stored user |
| Matching.UnlikeKeepsMirror | src/controllers/dating.controllers.ts:372-377 | after an unlike, likes stay mirrored in likedBy |
| Matching.UnlikeKeepsMatchRule | src/controllers/dating.controllers.ts:369-385 | after an unlike, a match still means a mutual like |
| Matching.SameRelationsConsistent | DatingAppBE/src/models/schemas/User.schema.ts:18-21 | an update that keeps the ids and the three relation sets keeps the store consistent |
| Matching.LikeMatchesExactlyWhenMutual | src/controllers/dating.controllers.ts:114-121 | a like completes a match iff the target already likes the caller; both sides then record it, and every other user is unchanged |
| Matching.LikeTwiceRejected | src/controllers/dating.controllers.ts:99-103 | a second like of the same user is rejected as already liked |
| Matching.MatchIsOrderIndependent | src/controllers/dating.controllers.ts:114-121 | two users who like each other end matched, with the same store whichever liked first |
| Matching.LikeBothWays | src/controllers/dating.controllers.ts:108-121 | the first of two crossing likes creates no match and the second creates it, each side gaining the other in all three sets |
| Matching.UnlikeAfterMatch | src/controllers/dating.controllers.ts:368-385 | unliking a match removes the caller's like and both matches; the other side's like survives |
| Matching.ProfileAfterLike | src/controllers/dating.controllers.ts:37-68 | after a like, the liker sees `isLikedByMe` and the target sees `hasLikedMe`; `isMatch` shows on both sides iff the like completed a match |
| Matching.ProfileMatchImpliesMutual | src/controllers/dating.controllers.ts:58-60 | in a consistent store, a profile showing a match also shows both likes |
| Matching.GetProfile | src/controllers/dating.controllers.ts:37-73 | 400 for an invalid id, 404 for a missing or inactive target; otherwise the target's public fields, and the three flags are false when the viewer has no record |
| Matching.AsWrittenAgreesOnCanonicalIds | src/controllers/dating.controllers.ts:87-121 | on the stored (lower-case) spelling of an id, the raw-text checks and updates as written are exactly the model's `LikeGuard` and `Liked` |
| Matching.SelfLikeBreaksConsistency | src/controllers/dating.controllers.ts:91-112 | as written, in any consistent store, liking an unstored spelling of one's own id passes every check, leaves the user liking itself without a match, and the store stops being consistent |
| Matching.SelfLikeAsWritten | src/controllers/dating.controllers.ts:91-112 | the same on a one-user store: the user with id "…a" likes "…A" and ends up liking itself without a match |
| Matching.MutualLikeBreaksConsistency | src/controllers/dating.controllers.ts:100-121 | as written, in any consistent store, answering a received like through an unstored spelling of the liker's id passes every check but makes no match, so the store stops being consistent |
| Matching.MutualLikeWithoutMatchAsWritten | src/controllers/dating.controllers.ts:100-121 | the same on a two-user store where "…b" has liked "…a" and "…a" answers through "…B" |
| Matching.CanonicalLikeKeepsConsistency | src/controllers/dating.controllers.ts:91-121 | comparing ids after the cast, a like under any spelling refuses self-likes, matches exactly when mutual and keeps the store consistent |
| ObjectIds.CanonOfCanonical | src/controllers/dating.controllers.ts:105-106 | the cast keeps a stored spelling and is idempotent |
| Scheduling.ConflictQuery | src/controllers/dating.controllers.ts:442-446 | the query returns exactly the stored scheduled appointments on the date that involve either party |
| Scheduling.Overlaps | src/controllers/dating.controllers.ts:455 | the intended test holds iff some minute lies in both half-open windows, all four times read as clock text |
| Scheduling.OverlapsAsWritten | src/controllers/dating.controllers.ts:455 | as written, the test can hold only when all four time fields are plain digit strings |
| Scheduling.CheckConflict | src/controllers/dating.controllers.ts:440-472 | the loop's warnings are the per-appointment warnings of the query result, in order |
| Scheduling.ConflictWarningsMeaning | src/controllers/dating.controllers.ts:453-469 | the anonymous warning appears iff some overlapping appointment involves the counterpart; a named warning (other, times, date) appears iff an overlapping appointment of the caller with that other exists |
| Scheduling.PartnerBusyMeaning | src/controllers/dating.controllers.ts:453-467 | the anonymous warning appears iff some overlapping found appointment involves the counterpart |
| Scheduling.BookedWithMeaning | src/controllers/dating.controllers.ts:453-464 | a named warning for (other, times, date) appears iff an overlapping found appointment of the caller with that other at those times exists |
| Scheduling.CheckConflictMeaning | src/controllers/dating.controllers.ts:440-471 | with the minutes overlap test, warnings are exactly the clashes with scheduled appointments on the slot's date |
| Scheduling.PairAppointmentWarnsBoth | src/controllers/dating.controllers.ts:457-467 | an overlapping appointment between caller and counterpart yields the named warning and then the anonymous one |
| Scheduling.AsWrittenNeverOverlaps | src/controllers/dating.controllers.ts:455 | as written, the test is false whenever the slot start contains ':' |
| Scheduling.AsWrittenNoWarnings | src/controllers/dating.controllers.ts:453-471 | as written, `checkConflict` yields no warning for such a slot |
| Scheduling.CommonSlotIsClockText | src/controllers/dating.controllers.ts:426-430 | every common slot starts with clock text containing ':' |
| Scheduling.ConflictMissedAsWritten | src/controllers/dating.controllers.ts:455 | appointment A–C 10:00–11:00 against slot 10:30–11:30: one warning naming C with the minutes test, none as written |
| Scheduling.CounterexampleOverlaps | src/controllers/dating.controllers.ts:406-409 | 10:00–11:00 and 10:30–11:30 on one date overlap when compared in minutes |
| Scheduling.ClockMinutes | src/controllers/dating.controllers.ts:406-409 | a literal "HH:mm" reads as HH*60+mm minutes |
| Scheduling.SubmitAvailability | src/controllers/dating.controllers.ts:478-533 | an invalid target changes nothing. Otherwise the caller's slots for the pair are replaced, nothing else changes, and the answer is computed from the counterpart's slots, with the overlap test passed in: `OverlapsAsWritten` is line 455 as written, `Overlaps` the intended test |
| Scheduling.AvailabilityAnswerMeaning | src/controllers/dating.controllers.ts:491-518 | for either overlap test: not matched iff the counterpart has no slots or no pair intersects; a found slot is the intersection of the first intersecting pair |
| Scheduling.AsWrittenAnswerSilent | src/controllers/dating.controllers.ts:501-529 | as written, every `isMatched` answer carries an empty `conflictWarnings` |
| Scheduling.ConfirmAppointment | src/controllers/dating.controllers.ts:539-571 | a missing field or invalid id fails and changes nothing. Otherwise: one scheduled appointment is appended, both availability directions are deleted, and `date_scheduled` from 'Hệ thống' is pushed to the counterpart; no notification is stored |
| Scheduling.FirstScheduledBetween | src/controllers/dating.controllers.ts:608-614 | the lookup returns a stored scheduled appointment of the pair in either order, and none exactly when there is none |
| Scheduling.GetScheduleStatus | src/controllers/dating.controllers.ts:598-637 | 400 iff the target id is invalid. A scheduled appointment of the pair, in either order, is returned when one exists. Otherwise: the caller's own slots, and `partnerHasSubmitted` iff the counterpart's record exists |
| Scheduling.StatusAfterConfirm | src/controllers/dating.controllers.ts:608-618 | after a confirm, either side sees an appointment of the pair, which is the new one if the pair had none before |
| Scheduling.StatusAfterSubmit | src/controllers/dating.controllers.ts:621-632 | without an appointment, the caller sees its own slots, and the counterpart sees `partnerHasSubmitted` |
| Scheduling.ScheduledOf | src/controllers/dating.controllers.ts:580-583 | the agenda query returns exactly the user's scheduled appointments |
| Scheduling.GetAppointments | src/controllers/dating.controllers.ts:577-592 | the agenda is a permutation of the user's scheduled appointments: exactly those, each as often as stored |
| Scheduling.GetAppointmentsCorrect | src/controllers/dating.controllers.ts:585 | the agenda is sorted by date, then start time |
| Scheduling.AgendaTotalPreorder | src/controllers/dating.controllers.ts:585 | the (date, startTime) order is total and transitive |
| Sorting.SortBy | src/controllers/dating.controllers.ts:585 | a sort result is a permutation of its input |
| Sorting.SortBySorted | src/controllers/dating.controllers.ts:585 | under a total preorder the sort result is ordered |
| Sorting.LexPairTotalPreorder | src/controllers/dating.controllers.ts:585 | ordering by two string keys byte-wise is a total preorder |
| OtpStore.OtpCode | src/models/schemas/OTP.schema.ts:61-63 | a draw in [100000, 999999] is spelled with exactly six digits and keeps its value |
| OtpStore.GenerateOtp | src/models/schemas/OTP.schema.ts:61-63 | a code is six digits with a value in [100000, 999999] |
| OtpStore.WithoutPending | src/models/schemas/OTP.schema.ts:68-72 | the delete keeps exactly the records that are not unused codes of the pair |
| OtpStore.CreateOtp | src/models/schemas/OTP.schema.ts:66-84 | removes the pair's unused codes and appends one unused six-digit code expiring at now + 300000 ms |
| OtpStore.FirstRedeemable | src/models/schemas/OTP.schema.ts:92-98 | the lookup finds the first record with matching email, code and purpose, unused and expiring strictly after now |
| OtpStore.FirstRedeemableIs | src/models/schemas/OTP.schema.ts:92-98 | a record that matches, with no earlier match, is the one found |
| OtpStore.VerifyOtp | src/models/schemas/OTP.schema.ts:87-108 | true iff a record matches; the first match is then marked used and nothing else changes |
| OtpStore.CreateLeavesOnePending | src/models/schemas/OTP.schema.ts:66-84 | after create, the pair's only unused code is the new one, and every other record is kept |
| OtpStore.WithoutPendingKeepsRule | src/models/schemas/OTP.schema.ts:68-72 | the delete keeps the one-unused-code-per-pair rule |
| OtpStore.CreateKeepsRule | src/models/schemas/OTP.schema.ts:66-84 | create keeps the one-unused-code-per-pair rule |
| OtpStore.VerifyKeepsRule | src/models/schemas/OTP.schema.ts:104-105 | verify keeps the rule |
| OtpStore.SingleUse | src/models/schemas/OTP.schema.ts:92-107 | under the rule, a repeated verification after a success is refused |
| OtpStore.FreshCodeLifetime | src/models/schemas/OTP.schema.ts:76-98 | a fresh code verifies strictly before now + 300000 ms and is refused from then on |
| OtpStore.FailedVerifyChangesNothing | src/models/schemas/OTP.schema.ts:100-102 | a refused verification leaves the table unchanged |
| Accounts.SendOtp | src/services/users.services.ts:45-60 | register: 400 if the email exists, else `skipOTP` with no code. Reset: 400 if the email is unknown, else one code is created and mailed, with `expiresIn` = 300 |
| Accounts.SentCodeVerifies | src/models/schemas/OTP.schema.ts:66-108 | a mailed reset code verifies before it expires, the record found is the one just stored, and once used the same code is refused at any later time |
| Accounts.VerifyRegisterOtp | src/services/users.services.ts:62-82 | a password mismatch is 400 with no user created. Otherwise: failed validation or a duplicate email throws; else exactly one verified user is added with the hashed password, bio defaulting to '' and the default avatar; the code is not checked |
| Accounts.RegisterKeepsStoreSound | src/services/users.services.ts:71-79 | registration keeps the relation sets consistent and emails unique |
| Accounts.VerifyResetPasswordOtp | src/services/users.services.ts:84-88 | 200 iff `verifyOTP` accepts for reset_password, else 400 |
| Accounts.ResetPassword | src/services/users.services.ts:90-103 | a mismatch is 400 and an unknown email 404, both with no change; otherwise only that user's password changes, to the hash of the new one |
| Accounts.ResetHitsTheOwner | src/services/users.services.ts:95-99 | with unique emails, the reset hits the one owner and keeps consistency |
| Accounts.DeleteUserTokens | src/services/users.services.ts:133 | the delete keeps exactly the records of other users |
| Accounts.Login | src/services/users.services.ts:105-115 | the user's first token record takes the new token, or a record is added |
| Accounts.LoginStoresToken | src/services/users.services.ts:108-112 | after login the user holds the new token and other users' records are unchanged |
| Accounts.RefreshToken | src/services/users.services.ts:117-130 | the first record with the presented token is deleted and the new token appended |
| Accounts.RefreshRotates | src/services/users.services.ts:121 | the delete removes exactly one occurrence of the presented token when there is one |
| Accounts.Logout | src/services/users.services.ts:132-134 | all of the user's tokens are removed |
| Accounts.LogoutRemovesAll | src/services/users.services.ts:132-134 | after logout the user holds no token and every other record remains |
| Accounts.UpdateProfile | src/services/users.services.ts:144-157 | a missing user throws; otherwise exactly the defined fields are written and the updated user is returned without its password |
| Accounts.PatchWritesDefinedFields | src/services/users.services.ts:145-153 | a defined field takes its new value and an undefined one keeps its old; auth, status and relation fields never change |
| Accounts.PatchesCompose | src/services/users.services.ts:145-153 | two updates equal one update with the later fields winning; the same update twice is idempotent |
| Accounts.UpdateKeepsConsistency | src/services/users.services.ts:153 | a profile update keeps the relation sets consistent |
| Feed.CreatePost | src/controllers/dating.controllers.ts:210-230 | a post with neither text nor image is 400 with nothing stored; otherwise one post is appended, with missing text stored as '' |
| Feed.EligiblePosts | src/controllers/dating.controllers.ts:276-279 | the filter keeps exactly the unseen posts of other users |
| Feed.GetFeed | src/controllers/dating.controllers.ts:266-288 | 404 iff the caller has no record; otherwise at most 20 stored posts, none the caller's own or already seen |
| Feed.FeedCorrect | src/controllers/dating.controllers.ts:266-287 | the feed holds only unseen posts by others, newest first, min(20, eligible) of them, and no left-out post is newer than a shown one |
| Feed.TakeSortedPrefix | src/controllers/dating.controllers.ts:281-282 | `.limit(20)` after a newest-first sort keeps the first posts in order, and no dropped post is newer than a kept one |
| Feed.MarkSeen | src/controllers/dating.controllers.ts:294-312 | an invalid id is 400 with no change; otherwise the post joins the caller's seen set |
| Feed.MarkSeenIdempotent | src/controllers/dating.controllers.ts:303-306 | marking a post seen twice equals marking it once |
| Feed.SeenPostLeavesFeed | src/controllers/dating.controllers.ts:276-306 | a post marked seen leaves the caller's feed, and other users' feeds are unchanged |

## Left out

- Persistence and queries are modelled as in-memory collections: `find`, `populate`, `sort`, `limit`, and the TTL index on `expiresAt`. Expired codes are kept, and `verifyOTP` refuses them by their `expiresAt`.
- `populate` is not modelled beyond the sender's name and avatar. A conflict warning names the other participant by id; the source uses the populated name.
- Concurrency is left out. The paired updates under `Promise.all` are one atomic step here; the source can leave them half-applied.
- I/O is left out: e-mail sending, JWT signing, password hashing, Cloudinary signing (`generateUploadSignature`), Express routing, the socket.io transport and the DB connection. The hash and the tokens are parameters; the code handed to the mailer is an output of `Accounts.SendOtp`.
- E-mail normalisation (`lowercase`, `trim` in the schemas) is not modelled: e-mails compare as given.
- Decimal.JsNumber: `Number()` is modelled only on digit strings. Signs, decimals, exponents and surrounding whitespace read as NaN here; JavaScript would read them as numbers.
- Mongoose validation is modelled only as far as the handlers reach it. In `User.create` that is non-empty email and name, and age at least 18; the gender enum is enforced by the type. In `DateAppointment.create` it is non-empty fields and a castable target id. The express-validator middlewares are not part of this model.
- ObjectId validity is a parameter `isValidId`. Fresh ids are parameters with `newId !in db.users`. The caller's id from the token is taken as it is.
- Matching.Like and every other handler: ids are taken in their stored lower-case spelling. The source accepts other spellings and compares them as raw text, which breaks the relation rules (see Findings). `Matching.LikedAsWritten` models that for the like; unlike, profile, scheduling and feed are not modelled for other spellings.
- Sorting.LexLe: compares strings by code point. MongoDB compares UTF-8 bytes; the two orders agree on all strings, since Dafny characters are Unicode scalar values.
- Feed.FeedCorrect: the order of posts with equal `createdAt` is left open, as in MongoDB. The model breaks ties one fixed way.
- `listProfiles`, `getNotifications`, `getMatches`, `getLikedMe`, `getPosts` and `getMe` are plain reads with no logic beyond a filter, so they are not modelled.
- Accounts.ResetPassword: when several users share an e-mail, the model picks any one of them; MongoDB updates the first in natural order. The unique index on `email` rules this out (`Accounts.ResetHitsTheOwner`).

## Findings

| source | as written | input that shows it | evidently intended | confidence | as-written member | corrected member |
|---|---|---|---|---|---|---|
| src/controllers/dating.controllers.ts:455 | `Math.max` / `Math.min` are applied to the "HH:mm" strings. `Number("10:00")` is NaN, so the comparison is always false and `checkConflict` never warns | scheduled appointment {A, C, 2024-01-01, 10:00–11:00}; A submits with B and the common slot is 2024-01-01 10:30–11:30 | compare the times as minutes (`toMinutes`) and warn when max(starts) < min(ends); here that is one warning for A naming C | high (not executed) | Scheduling.ConflictMissedAsWritten | Scheduling.CheckConflictMeaning |
| src/controllers/dating.controllers.ts:91-115 | the self, already-liked and match checks compare the raw text of the target id (`user_id === targetId`, `id.toString() === targetId`), while `isValid`, `findById` and the `ObjectId` cast accept the upper-case hex spelling and resolve it to the same user | user A likes the upper-case spelling of A's own id: every check passes and A ends up liking itself. Or B already likes A and A likes B's upper-case spelling: the two like each other with no match | compare ids after the cast, so a spelling of one's own id is refused and a mutual like always matches | high (not executed) | Matching.SelfLikeAsWritten | Matching.CanonicalLikeKeepsConsistency |
