# Online trading platform backend: a Dafny model

This project models the core of a Go backend for an online trading
platform. It covers these parts:

- **Users and products.** The Postgres repositories that look up, create,
  update, list and delete users and products. This includes the SQL text
  that the user update and the product listing build.
- **Sessions.** The Redis store of refresh-token sessions: a hash per
  session and a sorted set per user.
- **Sorting.** Two routines that order sessions by expiry: an in-place
  quicksort and a `sort.Slice` call.
- **Validation.** The listing filter's `Fill_defaults`, the user update's
  `Validate`, the e-mail address check of the SMTP sender, and salted
  SHA-256 password hashes.
- **Services.** The cards and products services, which check the caller
  and translate repository errors.
- **HTTP handlers.** The bearer-token middleware of the HTTP layer, the
  cards handlers and the auth handlers' decision tables.

Each file follows one source file:

| Dafny file | source |
|---|---|
| `sessions.dfy` | `internal/repository/sessions.go` |
| `redis.dfy` | The Redis commands and go-redis client it uses |
| `domain_sessions.dfy` | `domain/sessions.go` |
| `internal_domain_sessions.dfy` | `internal/domain/sessions.go` |
| `users.dfy` | `internal/repository/users.go` |
| `internal_domain_users.dfy` | `internal/domain/users.go` |
| `products.dfy` | `internal/repository/products.go` |
| `internal_domain_products.dfy` | `internal/domain/products.go` |
| `email.dfy` | `pkg/email/email.go` |
| `password.dfy` | `pkg/password/password.go` |
| `service.dfy` | Shared error translation of the services |
| `cards_service.dfy` | `internal/service/cards.go` |
| `products_service.dfy` | `internal/service/products.go` |
| `middleware.dfy` | `internal/handler/middleware.go` |
| `cards_handler.dfy` | `internal/handler/cards.go` |
| `auth_handler.dfy` | `internal/handler/auth.go` |

Support modules hold definitions several of these share:

- `common.dfy`: Option, Result, the Outcome of a call that may panic, and time.
- `decimal.dfy`: `strconv.Itoa` and `strconv.Atoi`.
- `text.dfy`: `strings.Split`, `strings.Join` and ASCII case folding.
- `sql.dfy`: placeholders and the `addProp` closure.
- `repository.dfy`: the repository errors.
- `handler.dfy`: HTTP error answers.

Outside effects become state or parameters:

- **Databases.** A database table is a sequence of rows plus a flag for a
  failing database. Redis is a keyspace with expiries, plus the set of
  commands that hit a network or server error.
- **Time.** The current time is a parameter.
- **Hashing and tokens.** SHA-256 is a parameter. So is the token manager,
  modelled as any function from a token to claims or a token error.
- **Sorting and hashing.** These are proved for every input rather than
  for chosen ones.

A nil pointer dereference is the `Panicked` outcome. `errors.Is` on the
unwrapped sentinels the code uses is equality.

In several places the code does something other than its intent. Its
tests, its column names or its neighbouring code show what was intended.

In each such place the model has both versions:

- a function or method for the code as it is;
- a `...Fixed` definition for what it evidently means.

The lemmas relate the two (see "## Findings").

## Model

| member | source | states |
|---|---|---|
| Sessions.SessionKeyInjective | internal/repository/sessions.go:25-28 | distinct refresh tokens get distinct record keys |
| Sessions.UserSessionsKeyInjective | internal/repository/sessions.go:30-33 | distinct user ids get distinct index keys |
| Sessions.KeysDiffer | internal/repository/sessions.go:25-33 | a session record key is never a user index key |
| Sessions.BindSession | internal/repository/sessions.go:75-88 | the owner is read only from a "userId" field that strconv.Atoi accepts; no such field gives an error |
| Sessions.BindSessionRoundTrip | internal/repository/sessions.go:75-88 | an int64 owner written under "userId" as decimal is read back |
| Sessions.GetOutcome | internal/repository/sessions.go:90-117 | a session Get returns carries the requested token; its errors are only ErrInternal or ErrSessionExpiredOrInvalid |
| Sessions.GetOutcomeFixed | internal/repository/sessions.go:90-117 | the same for Get with the TTL read on the record key |
| Sessions.GetClassification | internal/repository/sessions.go:95-116 | Get as written: ErrInternal exactly when HGETALL fails; ErrSessionExpiredOrInvalid exactly for a missing or non-numeric "userId" or a failed TTL; on success the owner read from "userId", the token, and an expiry the TTL's seconds after now |
| Sessions.GetFixedClassification | internal/repository/sessions.go:95-116 | the corrected Get: ErrInternal exactly when HGETALL or the record key's TTL fails; ErrSessionExpiredOrInvalid exactly for a missing or non-numeric "userId"; the same session on success |
| Sessions.GetVersionsDiffer | internal/repository/sessions.go:107-111 | where the two TTL reads agree, the two Gets differ exactly on a failed TTL: ErrSessionExpiredOrInvalid as written, ErrInternal corrected |
| Sessions.GetCntOutcome | internal/repository/sessions.go:148-160 | GetCnt fails (ErrInternal) exactly when ZCARD fails, and otherwise always answers 0 |
| Sessions.GetCntFixed | internal/repository/sessions.go:148-160 | the corrected GetCnt answers the number of tokens in the user's index, failing exactly when ZCARD fails |
| Sessions.CollectSessions | internal/repository/sessions.go:182-197 | the listing loop lists at most one session per token and fails only with ErrInternal |
| Sessions.SessionKeys | internal/repository/sessions.go:219-222 | the i-th key is the record key of the i-th listed session |
| Sessions.SessionsRepository.constructor | internal/repository/sessions.go:19-23 | the repository holds the given connection |
| Sessions.SessionsRepository.Create | internal/repository/sessions.go:35-73 | the store afterwards is the effect of the ZADD, HSET "id" and EXPIREAT batch, each command applied on its own; ErrInternal exactly when a command of the batch fails |
| Sessions.SessionsRepository.Get | internal/repository/sessions.go:90-117 | Get answers as GetOutcome and leaves the store alone |
| Sessions.SessionsRepository.Delete | internal/repository/sessions.go:119-146 | the store afterwards is the effect of the ZREM and DEL batch; ErrInternal exactly when the batch reports a failure |
| Sessions.SessionsRepository.GetCnt | internal/repository/sessions.go:148-160 | GetCnt answers as GetCntOutcome and leaves the store alone |
| Sessions.SessionsRepository.GetAll | internal/repository/sessions.go:162-200 | the loop (invariant: the listing so far and the store match CollectSessions over the tokens seen) answers, and deletes, as GetAllOutcome |
| Sessions.SessionsRepository.DeleteAll | internal/repository/sessions.go:202-231 | DeleteAll always returns nil, and the store ends as GetAll alone leaves it |
| Sessions.CreatedSessionReadsAsInvalid | internal/repository/sessions.go:51-105 | a session stored by Create always reads back as ErrSessionExpiredOrInvalid, since the owner is written under "id" but read from "userId" |
| Sessions.CreateThenGetFixed | internal/repository/sessions.go:35-117 | with the corrected Create and Get, a stored live session reads back with its owner, its token and its expiry second, and its token is in the owner's index |
| Sessions.CreateFixedThenGetExpired | internal/repository/sessions.go:107-113 | Get as written reads the TTL of the bare token, which is no key: even a correctly stored session comes back expiring two seconds before now |
| Sessions.CreateLeavesRecordWithoutExpiry | internal/repository/sessions.go:41-70 | when only EXPIREAT fails, Create reports ErrInternal but leaves the record, with no expiry, and the index entry |
| Sessions.DeleteDropsIndexKeepsRecord | internal/repository/sessions.go:119-146 | Delete as written leaves the session record untouched, changes no other key, and leaves the user's whole index gone |
| Sessions.DeleteFixedRemovesSession | internal/repository/sessions.go:119-146 | the corrected Delete, on success, removes the record and just that token from the index |
| Sessions.CollectFromTokens | internal/repository/sessions.go:172-197 | every session GetAll lists comes from the index tokens, in their order |
| Sessions.GetAllAtMostOne | internal/repository/sessions.go:162-172 | as written, GetAll lists at most one session: the first token of the index |
| Sessions.CollectAllResolve | internal/repository/sessions.go:182-197 | when every token resolves, the loop lists them all in order and deletes nothing |
| Sessions.GetAllFixedReturnsEverySession | internal/repository/sessions.go:162-200 | with the corrected GetCnt and Get, GetAll lists every session of the index in order and leaves the store as it was |
| Sessions.CollectFrame | internal/repository/sessions.go:182-192 | the listing loop deletes only records of the tokens it visits |
| Sessions.DeleteAllKeepsIndex | internal/repository/sessions.go:202-231 | DeleteAll as written leaves the user's index exactly as it was |
| Sessions.DeleteAllFixedClears | internal/repository/sessions.go:202-231 | the corrected DeleteAll, on success, removes the index and the record of every session it listed |
| Sessions.DeleteAllFixedEndsEverySession | internal/repository/sessions.go:202-231 | when every session resolves, the corrected DeleteAll on success ends every session of the user |
| DomainSessions.Lesser | domain/sessions.go:20-27 | the left side is no longer than the range it is taken from; which sessions it holds is stated by LesserSnoc, LesserBound and PartitionSplits |
| DomainSessions.Greater | domain/sessions.go:20-27 | the right side is no longer than the range it is taken from; which sessions it holds is stated by GreaterSnoc, GreaterBound and PartitionSplits |
| DomainSessions.LesserSnoc | domain/sessions.go:21-27 | one more scanned session is appended to the left side exactly when its key does not exceed the pivot's |
| DomainSessions.GreaterSnoc | domain/sessions.go:21-27 | one more scanned session is appended to the right side exactly when its key exceeds the pivot's |
| DomainSessions.LesserBound | domain/sessions.go:22-26 | every session sent left has a key at most the pivot's |
| DomainSessions.GreaterBound | domain/sessions.go:22-23 | every session sent right has a key above the pivot's |
| DomainSessions.QuickSort | domain/sessions.go:15-37 | the recursive sort keeps the length of its input |
| DomainSessions.PartitionSplits | domain/sessions.go:19-34 | the two sides together are a permutation of the partitioned sessions |
| DomainSessions.PartitionLength | domain/sessions.go:28-34 | the two sides fill the range except the pivot slot |
| DomainSessions.QuickSortPermutes | domain/sessions.go:15-37 | the sort is a permutation of its input |
| DomainSessions.QuickSortSorted | domain/sessions.go:15-37 | the sort orders its input earliest expiry first |
| DomainSessions.SortedAroundPivot | domain/sessions.go:31-36 | a sorted left side, the pivot, then a sorted right side is sorted |
| DomainSessions.Partitioned | domain/sessions.go:19-34 | the partitioned range is a permutation of the range with the pivot at index len(less) |
| DomainSessions.Partition | domain/sessions.go:19-34 | in place, the range becomes Partitioned of what it held and the rest of the array is unchanged; the pivot's index is returned |
| DomainSessions.Collect | domain/sessions.go:20-27 | the loop builds Lesser and Greater of the range without the pivot |
| DomainSessions.CopyInto | domain/sessions.go:28-34 | the write-back loops put the given sessions at the given index and change nothing else |
| DomainSessions.QuickSortSessions | domain/sessions.go:15-37 | the range becomes QuickSort of what it held, and nothing outside it changes |
| DomainSessions.PartitionedSides | domain/sessions.go:28-34 | after partitioning, the left part holds Lesser and the right part Greater |
| DomainSessions.SortAfterPartition | domain/sessions.go:35-36 | sorting both sides of a partitioned range leaves QuickSort of the range |
| DomainSessions.QuickSortStep | domain/sessions.go:15-37 | the sort of a non-empty range is the sorted left side, the pivot, and the sorted right side |
| DomainSessions.SortedRange | domain/sessions.go:15-37 | sorting a range orders it earliest first, keeps the same sessions, and leaves the rest as it was |
| DomainSessions.SortSessionsByTime | domain/sessions.go:11-13 | the whole slice becomes QuickSort of its contents: a permutation ordered earliest expiry first |
| InternalDomainSessions.SameSecondSameKey | internal/domain/sessions.go:15-17 | expiries that differ only below the second compare equal |
| InternalDomainSessions.SortSessionsByTime | internal/domain/sessions.go:14-18 | in place, the slice becomes a permutation of itself ordered latest expiry first |
| InternalDomainSessions.IndexOfLatest | internal/domain/sessions.go:14-18 | the index found holds a session whose key no later one exceeds |
| InternalDomainSessions.SortedPermutationsAgree | internal/domain/sessions.go:14-18 | any two latest-first orderings of the same sessions have the same keys position by position, whatever the sort does with ties |
| InternalDomainUsers.Present | internal/domain/users.go:27-34 | the fields an update sets are exactly its non-nil pointers |
| InternalDomainUsers.ValidateAcceptsIff | internal/domain/users.go:36-41 | Validate accepts exactly the updates that set one of Username, Name, Email, Password or Role, whatever the values |
| InternalDomainUsers.ValidateRefusesOnlyEmailVerified | internal/domain/users.go:36-41 | an update setting only EmailVefiried is refused with ErrUserUpdateHasNoValues |
| InternalDomainUsers.RolesDistinct | internal/domain/users.go:11-15 | the three role names are pairwise distinct |
| Users.ColumnValue | internal/domain/users.go:17-25 | exactly the table's columns have a value, each that of its field |
| Users.FirstMatch | internal/repository/users.go:46-47 | the row found is one whose column equals the argument; none exactly when no row matches |
| Users.FromRow | internal/repository/users.go:48-53 | sql.ErrNoRows becomes ErrUserNotFound, any other failure ErrInternal, and a row is returned as it is |
| Users.GetByIdFinds | internal/repository/users.go:58-60 | GetById returns a row with the id; ErrUserNotFound exactly when there is none; ErrInternal exactly when the database fails |
| Users.GetByEmailFinds | internal/repository/users.go:62-64 | the same for GetByEmail and the email column |
| Users.GetByUserNameFinds | internal/repository/users.go:66-68 | the same for GetByUserName and the username column |
| Users.CreateThenGetById | internal/repository/users.go:29-40 | a user created under a fresh id is then found by that id with the given fields |
| Users.CreateFailure | internal/repository/users.go:34-37 | a failed insert returns ErrInternal and adds nothing |
| Users.UpdateRows | internal/repository/users.go:98-100 | exactly the rows with the id are changed, each by the SET list |
| Users.Sets | internal/repository/users.go:77-81 | one `col =` term per assignment, in order |
| Users.Args | internal/repository/users.go:77-81 | one argument per assignment, in order |
| Users.Update | internal/repository/users.go:70-109 | the four guarded addProp calls, each keeping the terms and values in step with the assignments made so far, leave the statement and outcome of UpdateOutcome |
| Users.WrittenWhole | internal/repository/users.go:83-94 | the four steps together make exactly the assignments of WrittenAssignments |
| Users.UpdateTail | internal/repository/users.go:96-106 | once the assignments are collected, the statement run is UpdateQueryAsWritten |
| Users.AddStep | internal/repository/users.go:77-81 | one addProp call keeps the locals in step with the assignments: terms numbered $1..$k over the assigned columns, their values in the same order, and argId k+1 |
| Users.UpdateShape | internal/repository/users.go:96-99 | the statement as written assigns $1..$k, binds the k values then the id, and puts WHERE at $(k+2) |
| Users.UpdateNameBindsEmail | internal/repository/users.go:86-88 | the value bound for "name" is the new email |
| Users.UpdateAsWrittenFails | internal/repository/users.go:70-109 | Update as written never succeeds: it panics exactly when Name is set without Email, and otherwise returns ErrInternal and leaves the table as it was |
| Users.FixedAssignmentsPatch | internal/repository/users.go:83-94 | the corrected assignments set each given field and keep the others |
| Users.FixedQueryAccepted | internal/repository/users.go:96-99 | the corrected statement is accepted exactly when it assigns something, and its WHERE binds the id |
| Users.FixedArgs | internal/repository/users.go:96-99 | the corrected arguments line up with the SET list, the id last |
| Users.FixedQueryPatches | internal/repository/users.go:96-100 | the corrected statement patches any row it matches |
| Users.UpdateFixedPatches | internal/repository/users.go:70-109 | the corrected Update patches every row with the id and returns the first; ErrUserNotFound when no row has it; ErrInternal when nothing is assigned |
| Products.FirstWithId | internal/repository/products.go:44-45 | the row found has the id; none exactly when no row has it |
| Products.GetFinds | internal/repository/products.go:41-55 | Get returns a row with the id; ErrProductNotFound exactly when there is none; ErrInternal exactly when the database fails |
| Products.CreateAsWrittenFails | internal/repository/products.go:29-39 | the INSERT names "sellerId", which Postgres folds to a column "sellerid" the table lacks, so Create always answers ErrInternal and adds nothing |
| Products.FixedColumnsNamed | internal/repository/products.go:31 | the corrected column list names only columns of the table |
| Products.CreateThenGet | internal/repository/products.go:29-39 | with the corrected insert: it fails exactly when the database does, then adding nothing; otherwise the row is appended under the assigned id, and for a fresh id Get returns it with the given fields |
| Products.WithoutId | internal/repository/products.go:67-68 | the rows left are exactly those without the id |
| Products.DeleteThenGet | internal/repository/products.go:67-74 | after a successful Delete, Get answers ErrProductNotFound for the id |
| Products.SlotsCount | internal/repository/products.go:94-111 | one condition per filter field set |
| Products.Page | internal/repository/products.go:115-117 | OFFSET skips rows and LIMIT caps how many follow, in order |
| Products.GetAll | internal/repository/products.go:76-125 | GetAll step by step answers as GetAllOutcome |
| Products.AddConditions | internal/repository/products.go:83-111 | the six guarded addProp calls (invariant: the locals hold the conditions so far) leave the conditions numbered from $1 with their values, and argId one past them |
| Products.WrittenCondsSteps | internal/repository/products.go:94-111 | the conditions are the six slots' values concatenated |
| Products.StepBuilt | internal/repository/products.go:94-111 | an unset field leaves the locals, a set one is one addProp |
| Products.AddCond | internal/repository/products.go:88-92 | one addProp call keeps the locals in step with the conditions: terms numbered $1..$k, their values in the same order, and argId k+1 |
| Products.GetAllTail | internal/repository/products.go:113-122 | the statement run is the conditions joined with ", " and then LIMIT $(k+1) and OFFSET $(k+2) |
| Products.GetAllRefusedFilter | internal/repository/products.go:77-81 | a filter Fill_defaults refuses gives ErrInternal whatever the table holds |
| Products.WrittenQueryShape | internal/repository/products.go:88-116 | one term per field set, numbered $1..$k with their values; LIMIT and OFFSET bound to *Limit and *Offset; strict price bounds |
| Products.WrittenCondsCount | internal/repository/products.go:94-111 | the number of conditions is the number of fields set |
| Products.AcceptedBuilt | internal/repository/products.go:113-117 | Postgres accepts a built query exactly when its WHERE is well formed, its columns and operators exist, and paging is non-negative |
| Products.WrittenCondsColumns | internal/repository/products.go:106-111 | every written condition has a known operator; its column is known unless it is "manafacturer", which only Manufacturer adds |
| Products.WrittenAcceptedIff | internal/repository/products.go:94-117 | the written query is accepted exactly when one field is set, it is not Manufacturer, and the offset is non-negative |
| Products.GetAllWrittenFails | internal/repository/products.go:113-122 | GetAll as written answers ErrInternal when no field or several are set |
| Products.WrittenWhereExample | internal/repository/products.go:94-115 | for Article and Name, the WHERE body is "article = $1, name = $2" |
| Products.WrittenRatingTestsArticle | internal/repository/products.go:109-111 | a Rating filter compares the article column with the rating |
| Products.FilterRows | internal/repository/products.go:94-111 | the rows kept are exactly those matching the filter, independently of SQL |
| Products.FixedCondsKnown | internal/repository/products.go:94-111 | the corrected conditions name existing columns and operators |
| Products.FixedCondsMatch | internal/repository/products.go:94-111 | a row meets every corrected condition exactly when it matches the filter |
| Products.FixedQueryAccepted | internal/repository/products.go:113-116 | the corrected query is accepted exactly when limit and offset are non-negative |
| Products.FixedQueryHolds | internal/repository/products.go:113-117 | a row satisfies the corrected query exactly when it matches the filter |
| Products.FixedMatching | internal/repository/products.go:113-124 | the corrected query selects exactly FilterRows, in order |
| Products.GetAllFixedSelects | internal/repository/products.go:76-125 | the corrected GetAll never panics; ErrInternal for a limit above 25, a negative paging value or a failing database; otherwise the page of matching rows, 10 by default |
| Products.RunFixed | internal/repository/products.go:113-124 | running the corrected query gives the page of FilterRows, or an error when the database fails or paging is negative |
| InternalDomainProducts.FillDefaultsCases | internal/domain/products.go:29-43 | Fill_defaults panics exactly for a nil Limit, or a Limit of at least 25 with a nil Offset; refuses exactly Limits below 25 |
| InternalDomainProducts.FillDefaultsAccepts | internal/domain/products.go:34-42 | an accepted filter has both paging fields and a Limit of at least 25 |
| InternalDomainProducts.FillDefaultsFixedSound | internal/domain/products.go:29-43 | the corrected Fill_defaults refuses exactly Limits above 25, installs 10 for missing paging fields and keeps every other field |
| InternalDomainProducts.FillDefaultsInverted | internal/domain/products.go:34-36 | the written check and the corrected one disagree on Limit 10 and on Limit 100 |
| Email.DomainHasNoAt | pkg/email/email.go:59 | no domain the pattern accepts contains '@' |
| Email.PatternIsConcatenation | pkg/email/email.go:59 | a string matches exactly when it is a local part, '@' and a domain |
| Email.PatternSplit | pkg/email/email.go:59 | between a local part and a domain the '@' is the first one |
| Email.PatternOneAt | pkg/email/email.go:59 | a matching address holds exactly one '@' |
| Email.PatternShortest | pkg/email/email.go:55-59 | every match has at least three characters |
| Email.ValidateEmailIff | pkg/email/email.go:54-66 | validateEmail accepts exactly the matching addresses of at most 1024 characters; every refusal is ErrInvalidEmail |
| Email.ValidateEmailExamples | pkg/email/email.go:54-66 | "a@b" is accepted; "ab", "a@-b" and "@bc" are refused |
| Email.NewEmailSenderIff | pkg/email/email.go:40-52 | NewEmailSender fails exactly for an invalid address, with ErrInvalidEmail, and otherwise copies the four settings |
| Password.Hex | pkg/password/password.go:25-28 | %x writes two lowercase hex digits per byte |
| Password.HexInjective | pkg/password/password.go:25-28 | different digests have different hex |
| Password.HashShape | pkg/password/password.go:25-28 | a hash is 64 lowercase hex digits and depends only on password followed by salt |
| Password.UnhexHex | pkg/password/password.go:25-28 | reading the %x text back gives the digest bytes |
| Password.HexUnhex | pkg/password/password.go:25-28 | a string that reads back as bytes is exactly their %x text |
| Password.CheckOwnHash | pkg/password/password.go:30-32 | a password checks against its own hash |
| Password.CheckPasswordIff | pkg/password/password.go:30-32 | a stored hash is accepted exactly when it is the lowercase hex of the salted digest; an accepted hash has 64 characters |
| Password.CheckSameHash | pkg/password/password.go:30-32 | two passwords accepted by one hash have equal salted digests |
| Service.UserCheck | internal/service/cards.go:26-33 | only the repository's ErrUserNotFound becomes ErrUserNotFound; every other failure is ErrInternal; no error exactly when the user exists |
| CardsService.FirstCard | internal/repository/cards.go:31-42 | the row found has the id; none exactly when no row has it |
| CardsService.CardsOf | internal/repository/cards.go:45-53 | the cards listed are exactly the user's |
| CardsService.Without | internal/repository/cards.go:55-62 | the rows left are exactly those without the id |
| CardsService.CardsService.constructor | internal/service/cards.go:21-23 | the service holds the two repositories' tables |
| CardsService.CardsService.GetAll | internal/service/cards.go:25-42 | GetAll answers GetAllOutcome and changes nothing |
| CardsService.CardsService.Get | internal/service/cards.go:44-57 | Get answers GetOutcome and changes nothing |
| CardsService.CardsService.Create | internal/service/cards.go:59-74 | the answer and the cards table are CreateOutcome's; the users table is unchanged |
| CardsService.CardsService.Delete | internal/service/cards.go:76-95 | the answer and the cards table are DeleteOutcome's; the users table is unchanged |
| CardsService.GetAllChecksUserFirst | internal/service/cards.go:25-42 | a failed user lookup decides the answer whatever the cards table holds; ErrUserNotFound exactly for a missing user; success exactly when the user exists and the table works, with the user's cards |
| CardsService.GetOwnership | internal/service/cards.go:44-57 | a card is returned only to its owner; ErrInternal exactly when the table fails; a missing card is ErrCardNotFound |
| CardsService.GetHidesOthersCards | internal/service/cards.go:53-56 | another user's card answers exactly as a missing one |
| CardsService.CreateKeepsGivenOwner | internal/service/cards.go:68 | a card created by user 1 for user 2 keeps owner 2 and is then refused to user 1 |
| CardsService.CreateEffect | internal/service/cards.go:59-74 | Create touches the cards only after the user lookup succeeds, then adds exactly one card and keeps ids unique |
| CardsService.DeleteEffect | internal/service/cards.go:76-95 | when a check fails nothing changes; otherwise at most the card cardId is removed and ids stay unique |
| CardsService.DeleteChecksWrongCard | internal/service/cards.go:77-89 | user 1, owner of card 1, deletes user 2's card 2; user 3 cannot delete their own card 4 |
| CardsService.DeleteFixedOwnership | internal/service/cards.go:76-95 | the corrected Delete succeeds exactly when the table works and card cardId is the user's, removes just it, and never removes another user's card |
| ProductsService.ProductsService.constructor | internal/service/products.go:21-23 | the service holds the two repositories' tables |
| ProductsService.ProductsService.GetAll | internal/service/products.go:25-41 | GetAll answers GetAllOutcome and changes nothing |
| ProductsService.ProductsService.Get | internal/service/products.go:43-54 | Get answers GetOutcome and changes nothing |
| ProductsService.ProductsService.Create | internal/service/products.go:56-71 | the answer and the products table are CreateOutcome's; the users table is unchanged |
| ProductsService.ProductsService.Delete | internal/service/products.go:73-80 | the answer and the products table are DeleteOutcome's; the users table is unchanged |
| ProductsService.GetAllChecksUserFirst | internal/service/products.go:25-41 | the listing matters only after the user lookup succeeds; ErrUserNotFound exactly for a missing user; a failed listing is ErrInternal |
| ProductsService.GetTranslation | internal/service/products.go:43-54 | Get returns a product with the id; ErrProductNotFound exactly when there is none; ErrInternal exactly when the table fails |
| ProductsService.CreateEffect | internal/service/products.go:56-71 | with the corrected insert, Create touches the products only after the user lookup succeeds, succeeds exactly when the user exists and the table works, returns the assigned id, and Get then finds the product |
| ProductsService.DeleteAnyProduct | internal/service/products.go:73-80 | Delete removes the product whoever sells it, and fails only when the table does |
| Middleware.Stored | internal/handler/middleware.go:42-43 | storing the claims sets "userId" and "role" and keeps every other value |
| Middleware.RequestContext.constructor | internal/handler/middleware.go:12-15 | a context starts with the values it is given |
| Middleware.RequestContext.Set | internal/handler/middleware.go:42-43 | c.Set replaces the value under the key and keeps every other value |
| Middleware.UserIdentity | internal/handler/middleware.go:12-47 | the next handler runs exactly when Authenticate accepts, on the context with the claims stored; otherwise the context is unchanged and the error is the answer |
| Middleware.AuthenticateIff | internal/handler/middleware.go:14-40 | a header is accepted exactly when it splits into at least two parts, the first exactly "Bearer" and the second a token the manager accepts, with that token's claims; refusals are 401, and 500 exactly for a token error other than expired or invalid |
| Middleware.BearerToken | internal/handler/middleware.go:21-31 | after "Bearer " the token parsed is everything up to the next space |
| Middleware.SchemeRefused | internal/handler/middleware.go:26-29 | any first word other than "Bearer", "bearer" included, is 401 "Not authorized" without parsing |
| Middleware.LaterPartsIgnored | internal/handler/middleware.go:21-31 | "Bearer a b" answers as "Bearer a", which answers as parsing "a" |
| Middleware.EmptyToken | internal/handler/middleware.go:21-31 | "Bearer " parses the empty token |
| Middleware.OneWordRefused | internal/handler/middleware.go:21-25 | a header without a space, "Bearer" alone included, is 401 "Not authorized" |
| Middleware.StoredClaimsRead | internal/handler/middleware.go:42-69 | getUserId and getRole read back the stored id and role |
| Middleware.ReadBackIff | internal/handler/middleware.go:49-69 | getUserId succeeds exactly when an int is stored under "userId", getRole exactly when a string is stored under "role", with that value; otherwise 401 |
| CardsHandler.ValidateIff | internal/handler/cards.go:66-83 | validation passes exactly when Number, Cvv and Data all match; a failure is 400 "Validation error" |
| CardsHandler.AddCardChecksFirst | internal/handler/cards.go:61-83 | a body that does not bind is 500 and a failed check 400, whatever the context and users, and the cards table is unchanged |
| CardsHandler.AddCardCreates | internal/handler/cards.go:84-94 | a valid card with no caller id is 401 and creates nothing; otherwise the service's Create decides: the id with 200, any error 500 |
| CardsHandler.BadCardIdFirst | internal/handler/cards.go:38-43 | a cardId strconv.Atoi refuses is 500 in getCard and deleteCard whatever the context and table, and nothing is deleted |
| CardsHandler.GetCardAnswers | internal/handler/cards.go:44-58 | 200 exactly when the card with the id is the caller's, with that card; 404 "CardNotFound" for a missing or foreign card; 500 exactly when the table fails |
| CardsHandler.DeleteCardNever404 | internal/handler/cards.go:104-116 | deleteCard's errors are 401 or 500, never 404; a success leaves the service's Delete effect |
| CardsHandler.CardDateUnanchored | internal/handler/cards.go:78 | any prefix before a well-shaped date passes the Data check |
| CardsHandler.CardDateExample | internal/handler/cards.go:78 | "x12/34" passes the Data check |
| CardsHandler.ValidateFixedIff | internal/handler/cards.go:66-83 | with Data anchored, validation accepts exactly five-character dates; it accepts only cards the written checks accept, and differs only on longer dates |
| AuthHandler.BindFailsFirst | internal/handler/auth.go:14-43 | a body that does not bind is 400 "Bad request" whatever the service would return, with no cookie |
| AuthHandler.SignUpTable | internal/handler/auth.go:26-36 | success passes the id; 409 exactly for the two "already in use" errors; every other error 500 |
| AuthHandler.SignInNever500 | internal/handler/auth.go:44-59 | SignIn answers 400 or 401 on failure, never 500; the cookie is set exactly on success and carries the refresh token, HttpOnly |
| AuthHandler.RefreshTable | internal/handler/auth.go:62-81 | 500 exactly for ErrInternal, 401 for every other error; the cookie is set exactly on success |
| AuthHandler.LogoutTable | internal/handler/auth.go:83-107 | Logout and LogoutAll are 401 exactly for ErrSessionInvalidOrExpired and 500 for every other error |
| AuthHandler.VerificationEmptyToken | internal/handler/auth.go:110-114 | an empty token is 401 "No authorized" whatever the token manager and service |
| AuthHandler.VerificationUsesParsedEmail | internal/handler/auth.go:115-131 | the answer depends on VerifyEmail only at the address the token names |
| AuthHandler.VerificationTable | internal/handler/auth.go:109-133 | a present token never panics; 200 exactly when it parses and the address verifies; 500 exactly for an unknown token error or a service error other than ErrUserNotFound; every other refusal 401 |

## Left out

- Database and Redis I/O, connections, configuration, concurrency and
  cross-client atomicity. Batches run one command at a time, on one
  client.
- `ORDER BY rating DESC` in the product listing: the page is taken over
  table order. `Product.Rating` is a float32 and is kept opaque.
- Postgres comparison between text and float parameters: an equality
  holds only between values of the same kind.
- The JWT token manager, SMTP sending, templates, and `smtp.PlainAuth`
  (`pkg/tokens/tokens.go`, `pkg/email/email.go:68-96`): they are
  parameters or absent.
- Middleware.Authenticate: `internal/handler/middleware.go:31` takes three results from `ParseAccessToken`, whose interface in `pkg/tokens/tokens.go:22` returns two, `(int, error)`, so the call does not type-check. The model takes the token manager as any function from a token to an id and a role, or a token error.
- Redis expiry at millisecond granularity: keys here expire on whole seconds and TTL is the expiry second minus the current second. Real Redis rounds TTL, so an expiry read back by Get can be a second off the one Create wrote.
- SHA-256 itself: it is any function to 32-byte digests.
- The auth service (sign-up, sign-in, refresh, logout, e-mail
  verification): `internal/service/auth.go` holds no logic, so the auth
  handlers take its outcome as a parameter.
- The Echo plumbing: binding of bodies and parameters, JSON encoding and
  cookie transport. A body that fails to bind is an input. getAllCards
  (`internal/handler/cards.go:18-35`) is a plain pass-through and is not
  part of this model.
- The cards repository (`internal/repository/cards.go`) is modelled on
  its evident intent. As written, Get scans a row into a struct with
  `Row.Scan` and GetAll passes a slice that is not a pointer to
  `sqlx.Select`, and those calls would fail at run time. GetAll also
  filters on `user_id` while Create writes `users_id`.
- ProductsService.GetAllOutcome: the service passes a user id where the
  repository's GetAll takes a Filter, so the call does not type-check.
  The listing it returns is a parameter.
- The service's `ErrUserNotFound` and `ErrInternal` are declared in a
  file that is not part of this model.
- Fill_defaults is modelled on values, as the Outcome it produces. Both
  of its writes go through a nil pointer, so it never changes the
  filter in place.
- Middleware.UserIdentity: what `next(c)` returns is not modelled. The
  method reports whether the next handler runs, and on which context.

## Findings

| source | as written | input that shows it | evidently intended | confidence | as-written member | corrected member |
|---|---|---|---|---|---|---|
| internal/repository/sessions.go:51 | Create writes the owner under field "id" while bindSession reads "userId" | any session Create stores | write the owner under "userId" | high; not executed | Sessions.CreatedSessionReadsAsInvalid | Sessions.CreateThenGetFixed |
| internal/repository/sessions.go:107 | Get reads the TTL of the bare token instead of the record key | a session stored with its owner under "userId": TTL answers -2 | TTL of "sessions:" + token | high; not executed | Sessions.CreateFixedThenGetExpired | Sessions.CreateThenGetFixed |
| internal/repository/sessions.go:125-132 | Delete removes the prefixed key from the index and then deletes the whole index | Delete(1, "t") with record "sessions:t" and index "userSessions:1" holding "t" | ZREM the token, DEL the record | high; not executed | Sessions.DeleteDropsIndexKeepsRecord | Sessions.DeleteFixedRemovesSession |
| internal/repository/sessions.go:153-159 | GetCnt drops the ZCARD value and answers 0, so GetAll reads ZRANGE 0 0 | a user with two sessions: GetAll lists at most one | return ZCARD's value | high; not executed | Sessions.GetAllAtMostOne | Sessions.GetAllFixedReturnsEverySession |
| internal/repository/sessions.go:203-230 | DeleteAll queues its DELs on a pipeline that is never executed | any user with sessions: the index is unchanged | execute the pipeline | high; not executed | Sessions.DeleteAllKeepsIndex | Sessions.DeleteAllFixedEndsEverySession |
| internal/repository/users.go:87-99 | "name" binds *data.Email, the column "password" does not exist, and WHERE uses $(argId+1), a placeholder no argument fills | any update with Email set | bind *data.Name, assign hash_password, WHERE id = $argId | high; not executed | Users.UpdateAsWrittenFails | Users.UpdateFixedPatches |
| internal/repository/products.go:107-113 | conditions joined by ", ", an empty WHERE when none, the column "manafacturer", and Rating compared with "article" | a filter with Article and Name | join with " AND ", omit WHERE when empty, use manufacturer and rating | high; not executed | Products.WrittenAcceptedIff | Products.GetAllFixedSelects |
| internal/domain/products.go:30-39 | nil Limit or Offset is written through (panic), and "limit too high" is returned for Limits below 25 | Limit nil, or Limit 10 | default nil fields to 10 and refuse Limits above 25 | high; not executed | InternalDomainProducts.FillDefaultsInverted | InternalDomainProducts.FillDefaultsFixedSound |
| internal/service/cards.go:77 | Delete fetches the card by userId, then deletes cardId | user 1, owner of card 1, deletes user 2's card 2 | fetch card cardId | high; not executed | CardsService.DeleteChecksWrongCard | CardsService.DeleteFixedOwnership |
| internal/handler/cards.go:78 | the Data pattern has no start anchor, unlike the Number and Cvv patterns | Data "x12/34" is accepted | `^...$`, five characters | medium; not executed | CardsHandler.CardDateExample | CardsHandler.ValidateFixedIff |
| internal/repository/products.go:31 | the INSERT names the column `sellerId`, which Postgres folds to `sellerid`, while the struct's db tag, which StructScan in Get matches columns against, is `seller_id` | any Create on a working database | name the column `seller_id` | medium; not executed | Products.CreateAsWrittenFails | Products.CreateThenGet |
