# Billing API: authentication gate, accounts and bill queries

This project models the request-handling core of a small Express/MongoDB billing server and proves properties of that model. The server runs on one file, `index.js`. The core covers:

- the `verifyJWT` middleware, which turns a request away with 401 or 403 or attaches the decoded token claims and passes it on;
- registration, which allows at most one user per email;
- login, with three outcomes: user not found, invalid password, or OK with a token signed for `{email}`;
- `/api/getUserData`, which decodes a token and looks the user up;
- the unfiltered bill list, which pages with `skip(page*size).limit(size)` and counts the whole collection;
- the bill search, a case-insensitive match over `fullName`, `email` and `phone`, sorted newest first and paged; its `count` is the length of the page it returns;
- adding, updating (`$set`) and deleting bills by `_id`.

Each MongoDB collection is a sequence of documents in store order. Collaborators the model cannot see are passed in as function parameters ("oracles"):

- `bcrypt.hash` becomes `hash: string -> string`. The caller chooses it per call, which stands for the random salt.
- `bcrypt.compare` becomes `compare`.
- `jwt.sign` becomes `sign: Claims -> string`.
- `jwt.verify`, including its signature and expiry checks, becomes `verify: string -> Option<Claims>`.

Modules:

| module | file | what it holds |
|---|---|---|
| `Wrappers` | `wrappers.dfy` | `Option` |
| `Text` | `text.dfy` | ASCII lower-casing, substring search, `String.prototype.split` on one character |
| `Auth` | `auth.dfy` | header parsing and the gate |
| `Accounts` | `accounts.dfy` | user documents, registration, login, getUserData, and the `UserStore` class |
| `Bills` | `bills.dfy` | bill documents, `$set` patches, `updateOne`/`deleteOne` as functions, and the `BillStore` class |
| `Query` | `query.dfy` | skip/limit, the list, the search filter, the stable sort by time, the search reply and pagination completeness |
| `Routes` | `routes.dfy` | the two gated GET routes and properties spanning several handlers |

The handlers that change a collection in place are methods on two classes. Each class holds its collection as a `seq` field: `Accounts.UserStore.Register`, and `Bills.BillStore.AddBilling`, `UpdateBilling` and `DeleteBilling`. Each method is proved against the corresponding function on sequences, and keeps the store invariant: unique emails, or unique `_id`s all below the store's id counter. Everything else is functions and lemmas.

Semantics the model fixes explicitly:

- **Missing header.** `!authHeader` holds for an absent header and for the empty string. Both get 401 "unauthorized access".
- **Token segment.** The token is `header.split(' ')[1]`. When the header has no space, that is `undefined`; `jsonwebtoken` then rejects the call ("jwt must be provided"), as it does for an empty segment. Either way the result is 403 "Forbidden access", without the verify oracle being asked.
- **`limit(0)`.** In MongoDB, `limit(0)` means "no limit". With `size == 0` the skip `page*size` is 0 too, so the page is the whole sequence. The model allows `size == 0` rather than requiring `size > 0`.
- **Sort.** `sort({time: -1})` is modelled as a stable insertion sort: documents with equal `time` keep their store order.
- **Login status.** `res.status(201)` returns the response object, which is always truthy. So a successful login is sent with status 201 and the `{error: "error"}` branch is dead (`LoginReply.HttpStatus`).
- **Add-billing reply.** `insertOne` reports an `insertedId` whenever it resolves, so add-billing always answers `success: true`. The "Can't insert bill" branch is dead.
- **Update reply.** The update message interpolates `req.body.fullName`, which reads `undefined` when the body has none. The failure message is exactly `"Couldn't update  the Bill"`, with two spaces.
- **Delete reply.** When nothing matched, the delete handler sends no response. The model returns `None`.

Some code behaviours look unintended. The model follows the code in each case:

- **Search `count`.** A count of the matches across all pages would be the natural reading. The code sets it to the length of the returned page (index.js:200, index.js:205). `Query.SearchCountIsPageLength` states the code's behaviour, including that the count falls short as soon as the matches outrun one page.
- **Unanswered delete.** A delete whose `_id` matches nothing is left without any reply.
- **No gate on writes.** Add, update and delete are not behind `verifyJWT` in the code, so the model does not gate them either.

## Model

| member | source | states |
|---|---|---|
| Text.Lower | index.js:203 | lower-casing keeps the length and lower-cases each character (ASCII letters only), so the result holds no upper-case letter |
| Text.LowerIdempotent | index.js:203 | lower-casing (ASCII case folding of the `$options: "i"` match) is idempotent |
| Text.Contains | index.js:203 | the unanchored substring test behind `$regex`; `Text.ContainsIff` states it: it holds exactly when the term occurs at some offset |
| Text.MatchesIgnoringCase | index.js:203 | one `{field: {$regex: search, $options: "i"}}` condition as a case-insensitive substring test; `Text.MatchIgnoresTermCase` and `Query.BillMatchesIff` state it |
| Text.ContainsIff | index.js:203 | the recursive substring test holds exactly when the term occurs at some offset of the field |
| Text.ContainsEmpty | index.js:197-203 | the empty term occurs in every field |
| Text.ContainsSelf | index.js:203 | every string occurs in itself |
| Text.MatchIgnoresTermCase | index.js:203 | the match does not depend on the case of the search term |
| Text.Split | index.js:36 | `split` yields at least one part, no part contains the separator, and joining the parts with the separator gives the input back |
| Text.SplitWithoutSeparator | index.js:36 | a string without the separator splits into itself alone |
| Text.SplitAfterWord | index.js:36 | a separator-free word followed by the separator splits off as the first part, and the rest splits as before |
| Text.SplitJoin | index.js:36 | splitting the join of separator-free parts gives the parts back (round trip) |
| Text.SplitCount | index.js:36 | a string splits into more than one part exactly when it contains the separator |
| Auth.HeaderMissing | index.js:33 | `!authHeader`: true for an absent or empty header; `Auth.Gate` answers 401 exactly when it holds |
| Auth.BearerToken | index.js:36 | the second space-separated segment exists exactly when the header has a space, and holds no space |
| Auth.BearerTokenOfHeader | index.js:36 | `"<scheme> <token>"` yields `token` |
| Auth.BearerTokenIgnoresTail | index.js:36 | anything after a further space does not change the token |
| Auth.VerifiedClaims | index.js:36-41 | claims are produced only for a present, non-empty segment, and then they are the oracle's answer for that segment |
| Auth.Gate | index.js:30-45 | 401 "unauthorized access" exactly when the header is absent or empty; 403 "Forbidden access" exactly when a header is present but its token does not verify; otherwise `next` is called once, with the same header and `decoded` set to the verified claims |
| Auth.GateAdmitsVerifiedBearer | index.js:36-43 | a `Bearer <token>` header whose token the oracle accepts reaches `next` with exactly those claims |
| Auth.GateRefusesSchemeOnly | index.js:36-41 | a non-empty header without a space is always refused with 403, whatever the oracle says |
| Accounts.FindByEmail | index.js:84 | `findOne({email})` yields a stored user with that email, and none exactly when no user has it |
| Accounts.FindByEmailAppend | index.js:84-94 | appending a user changes the lookup only for an email nobody had before |
| Accounts.FindByEmailUnique | index.js:105 | with unique emails, the lookup of a stored user's email finds that user |
| Accounts.CountEmailAppend | index.js:89-94 | appending a user adds one to the count of its email and leaves other counts alone |
| Accounts.CountEmailZero | index.js:84-88 | an email nobody holds has count 0 |
| Accounts.RegisterUser | index.js:78-99 | an existing email gives "User Exists" with the collection unchanged; otherwise `{status: "ok"}` and exactly one user with the email and the hashed password is appended |
| Accounts.RegisterPreservesUniqueness | index.js:84-94 | registration keeps at most one user per email |
| Accounts.RegisterTwice | index.js:84-95 | registering a fresh email twice: the first call succeeds, the second is refused and changes nothing, and exactly one user holds the email |
| Accounts.LoginUser | index.js:102-121 | "User Not found" exactly when no user has the email; "InvAlid Password" exactly when the user exists and the compare oracle rejects; on success the token is the signature of exactly `{email: user.email}` |
| Accounts.LoginReply.HttpStatus | index.js:114-115 | the reply's HTTP status; `Accounts.LoginStatus` states it for every login |
| Accounts.LoginStatus | index.js:109-120 | a login reply is sent with 201 exactly when the user exists and the password compares equal, and with the default 200 otherwise |
| Accounts.LoginKnownUser | index.js:105-120 | with unique emails, a stored user logs in exactly when the compare oracle accepts its password |
| Accounts.GetUserData | index.js:125-149 | "token expired" exactly when the token is absent, empty or rejected by the oracle; otherwise the reply carries the stored user with the decoded email, or null when no user has it |
| Accounts.UserStore.Register | index.js:78-99 | on the user collection in place: refuses exactly when the email already exists, leaving the collection unchanged; appends exactly the new user otherwise; keeps emails unique across calls |
| Bills.NewBill | index.js:157-165 | the document add-billing builds; `Bills.NewBillRoundTrip` states its contents |
| Bills.NewBillRoundTrip | index.js:154-165 | the built document carries exactly the body's fields, the given `_id` and the generated id (projecting it back gives the body) |
| Bills.ApplyPatch | index.js:228-231 | a `$set` never changes `_id` |
| Bills.ApplyPatchIdempotent | index.js:230 | setting the same fields twice is the same as setting them once |
| Bills.ApplyEmptyPatch | index.js:230 | an empty body leaves the document unchanged |
| Bills.IndexOfKey | index.js:214 | finds the first document with the `_id`, and none exactly when no document has it |
| Bills.UpdateFirst | index.js:228-231 | `updateOne` patches exactly the position `IndexOfKey` finds and leaves the length and every other position unchanged; nothing changes when no document matches |
| Bills.DeleteFirst | index.js:214 | `deleteOne({_id})`; `Bills.DeleteFirstRemovesIndex` gives its closed form |
| Bills.DeleteFirstRemovesIndex | index.js:214 | `deleteOne` removes exactly the position `IndexOfKey` finds and keeps the order of the rest; nothing changes when no document matches |
| Bills.UpdateKeepsKeys | index.js:228-231 | an update leaves every `_id` in place |
| Bills.UpdateOnlyTarget | index.js:228-231 | with unique `_id`s, the update patches the document with the `_id`, leaves every other document as it was, and keeps `_id`s unique |
| Bills.DeleteKeepsUnique | index.js:214 | a delete keeps `_id`s unique |
| Bills.DeleteLeavesNoTarget | index.js:214 | with unique `_id`s, after deleting a present `_id`, every remaining document is a stored one with another `_id` |
| Bills.DeleteKeepsOthers | index.js:214 | after deleting a present `_id`, every stored document with another `_id` remains |
| Bills.DeleteOnlyTarget | index.js:214 | with unique `_id`s, a document remains exactly when it was stored and has another `_id`; the collection shrinks by one exactly when the `_id` was present; `_id`s stay unique |
| Bills.BillStore.AddBilling | index.js:153-175 | appends exactly one document made from the body, a fresh `_id` and the generated id, leaves existing bills unchanged, and answers `success: true` with "Success Created <fullName>" |
| Bills.BillStore.UpdateBilling | index.js:225-245 | succeeds exactly when a document has the `_id`; patches that document only; answers "successfully updated <fullName or undefined>" with `matchedCount` 1, or `success: false` with the collection unchanged |
| Bills.BillStore.DeleteBilling | index.js:212-221 | answers exactly when a document has the `_id`, with `deletedCount` 1, and the collection then shrinks by one; removes exactly that document; sends nothing and changes nothing otherwise |
| Query.Skip | index.js:184 | `skip(n)`; `Query.SkipIsSuffix` gives its closed form |
| Query.SkipIsSuffix | index.js:184 | `skip(n)` is the suffix from position `min(n, len)`, of length `len - min(n, len)` |
| Query.Limit | index.js:184 | `limit(n)`; `Query.LimitIsPrefix` gives its closed form |
| Query.LimitIsPrefix | index.js:184 | `limit(n)` is the prefix of length `min(n, len)` for `n > 0`, and everything for `n == 0` |
| Query.Page | index.js:184 | `skip(page*size).limit(size)`; `Query.PageIsSlice`, `Query.PageLength` and `Query.PageWithoutLimit` give its closed form |
| Query.PageIsSlice | index.js:184 | for `size > 0`, `skip(page*size).limit(size)` is the slice `[min(page*size, n) .. min(page*size+size, n)]`, holds at most `size` documents, and is empty once `page*size >= n` |
| Query.PageInSequence | index.js:184 | a page holds only documents of the sequence it was cut from |
| Query.PageOfSorted | index.js:198-199 | a page of a newest-first sequence is newest first |
| Query.PageWithoutLimit | index.js:184 | with `size == 0` (`limit(0)`) the page is the whole sequence |
| Query.PageLength | index.js:199 | a page's length is what is left after the skip, capped at a positive `size`; the whole sequence when `size == 0` |
| Query.BillingList | index.js:179-188 | `count` is the collection size on every page; `bills` is the store-order slice for the page, at most `size` long, empty past the end, and everything when `size == 0` |
| Query.BillMatches | index.js:203 | the `$or` of three case-insensitive conditions; `Query.BillMatchesIff` states it |
| Query.BillMatchesIff | index.js:203 | a bill matches exactly when the lower-cased term occurs at some offset of the lower-cased `fullName`, `email` or `phone` |
| Query.FilterMatching | index.js:203 | the filter never returns more documents than are stored |
| Query.FilterExact | index.js:203 | every kept document matches; a document is kept exactly when it is stored and matches; no document is kept more often than it is stored |
| Query.FilterAppend | index.js:203 | filtering distributes over concatenation of collections |
| Query.FilterEmptyTerm | index.js:197-198 | the empty term keeps every document |
| Query.InsertByTime | index.js:198 | inserting into a newest-first sequence keeps it newest first and adds exactly the one document (as a multiset) |
| Query.SortByTimeDesc | index.js:198 | `sort({time: -1})` returns a newest-first permutation of its input |
| Query.Matching | index.js:197-203 | the candidate set of the two search branches; `Query.MatchingIsFilter` states it |
| Query.MatchingIsFilter | index.js:197-203 | the `search === ""` branch and the `$or` branch agree |
| Query.SearchResults | index.js:198-203 | the filtered documents sorted newest first; `Query.SearchResultsSound`, `Query.SearchResultsComplete` and `Query.SortByTimeDesc` state it |
| Query.SearchResultsSound | index.js:203 | every search result is a stored document that matches the term |
| Query.SearchResultsComplete | index.js:203 | every stored document that matches the term is among the results |
| Query.PageReply | index.js:204-206 | a page of sound, sorted results is sound and sorted, is the page's slice, and is counted by its own length |
| Query.BillingSearch | index.js:192-208 | `count` is the number of bills returned; every returned bill is stored and matches the term; bills are newest first; the reply is the `page`-th slice of the filtered, sorted sequence, at most `size` long, or all of it when `size == 0` |
| Query.SearchCountIsPageLength | index.js:205 | `count` equals the page length, so it equals the number of matches only when they all fit on page 0, and is exactly `size` (less than the matches) when they do not |
| Query.FirstPageHoldsAll | index.js:204-206 | when every match fits on page 0 (or there is no limit), page 0 is the whole sorted result and `count` is the number of matches |
| Query.PagesArePrefix | index.js:204 | the first `k` pages of size `size > 0`, concatenated, are the first `min(k*size, n)` documents |
| Query.PaginationComplete | index.js:204 | pages `0 .. ceil(n/size)-1` concatenate to the whole sequence, with nothing missing or repeated, and every later page is empty |
| Query.SearchPaginationComplete | index.js:203-206 | reading the search page by page for `size > 0` reassembles every match newest first, and each page of the route is the corresponding page of the sorted result |
| Routes.GetBillingList | index.js:179-188 | the gated list is refused exactly when the gate refuses, and then with the gate's own status and message (401 "unauthorized access" or 403 "Forbidden access"); otherwise it serves `BillingList` |
| Routes.GetBillingSearch | index.js:192-208 | the gated search is refused exactly when the gate refuses, and then with the gate's own status and message (401 or 403); otherwise it serves `BillingSearch` |
| Routes.RegisterThenLogin | index.js:78-121 | after registering a fresh email, logging in with the same password gives a token signed for that email, and a password the oracle rejects gives "InvAlid Password" |
| Routes.LoginTokenOpensGate | index.js:102-149 | a login token the oracle accepts opens the gate as `Bearer <token>` with `{email}` attached, and `/api/getUserData` with it returns the logged-in user |
| Routes.EmailMatchesItself | index.js:203 | a search for a bill's email matches that bill |
| Routes.AddedBillIsFound | index.js:153-206 | after add-billing, the page-0 search for the bill's email contains it and counts at least one, whenever every match fits on that page |
| Routes.FilterWithout | index.js:203 | removing one matching document shortens the filtered sequence by exactly one |
| Routes.DeleteShrinksSearch | index.js:192-221 | with unique `_id`s, deleting a matching bill by `_id` lowers the page-0 search count by exactly one and removes the bill from the results, whenever every match fits on that page |

## Left out

- HTTP plumbing is not part of this model: Express routing, CORS and JSON middleware, `app.listen`, the root route, dotenv and `run()` bootstrap (index.js:1-25, 252-259). Response status codes appear only where the handlers set them (401, 403, 201).
- The `/jwt` endpoint (index.js:61-65) is not modelled: it is a bare `jwt.sign` call with no logic.
- bcrypt hashing and its cost factor, JWT signing, signature checking and wall-clock expiry are oracles. Their cryptographic properties cannot be stated here.
- Store failures and the `catch` branches (`{status: "error"}`, `{status: "error", data: error}`) are not modelled: the store is infallible. The model is sequential, so the race between `findOne` and `insertOne` in registration is out.
- getUserData tells a failed verification apart by a loose equality against the string sentinel "token expired" (index.js:135). The model reads that test simply as "the verify oracle failed". A token whose decoded payload is itself the string "token expired" is not distinguished.
- Query.BillMatches: the search term is a MongoDB regular expression in the source, but the model matches it as a plain substring. Terms with regex metacharacters are out of scope.
- Text.Lower: case folding covers ASCII letters only; the regex engine's Unicode case folding is not modelled.
- `ObjectId` generation and parsing are not modelled. `_id` is a natural number handed out by the store's counter, and `generatingId` is a parameter. The exception `ObjectId(id)` throws on a malformed id is left out.
- `parseInt` producing NaN or a negative number for a missing or malformed `page`/`size` is out: both are naturals.
- `estimatedDocumentCount` is treated as exact.
- Query.SearchPaginationComplete: it reads every page from one fixed sorted sequence, and so does the page-slice clause of `Query.BillingSearch`. Separate requests sort again, and MongoDB does not promise the same order for bills with equal `time`. With repeated `time` values, real pages can overlap or skip documents, which this lemma does not capture.
- Query.SortByTimeDesc: MongoDB does not promise an order among documents with equal `time`; the model fixes store order. `time` is an integer, so BSON's ordering across mixed types is out.
- Bill bodies are typed records: types other than string for `fullName`, `email`, `phone` and `amount`, fields missing from an add-billing body, and fields other than a bill's own in a `$set` body (including `_id`) are out.
- User request bodies are typed as strings. A missing `password` makes `bcrypt.hash` reject at index.js:81, outside the `try`, so the request gets no answer. A missing `email` becomes `findOne({email: undefined})`. Neither is modelled.
- Auth.Claims holds only `email`. A token whose payload has no `email` cannot be represented in `Gate` or `GetUserData`; one signed by `/jwt` (index.js:63) with an arbitrary body is an example.
- `AddedUserEmail` is stored under that name in the source; the model calls the field `addedUserEmail`.
