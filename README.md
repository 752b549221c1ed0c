# Newsletter subscriptions, modelled in Dafny

This project models the core of baraja-core/newsletter, a PHP package that keeps a table of
newsletter contacts. Each contact is an e-mail address with a 16-character confirmation hash, a
source, the client IP, a confirmation flag (`authorizedByUser`), a cancellation, and three dates:
inserted, authorized and canceled. The model covers the contact entity's state machine, the
manager's operations on the table, the administration API's logic and the static helpers.

Modules, one per source file, plus two shared ones:

- `Wrappers`: `Option`, `Result` and `Outcome`. They stand in for nullable values and thrown exceptions.
- `Builtins`: the PHP built-ins the code relies on.
  - `strtolower`, `trim` and `rtrim` with a character list, `mb_substr` from offset 0;
  - `str_replace` with an empty replacement, and `array_unique`.
- `Entity` (src/Entity/Newsletter.php):
  - the `Record` datatype holds the persisted columns;
  - the class `Newsletter` holds the same fields, and its methods change them in place.
- `Helpers` (src/Helpers.php): the post-processing of e-mail extraction, the client-IP decision with its per-request memo (`UserIpMemo`), and `processPath`.
- `Manager` (src/NewsletterManager.php): the class `NewsletterManager` has three fields.
  - `rows` is the table, a sequence of `Row(id, contact)` in auto-increment order;
  - `nextId` is the next auto-increment value;
  - `config` is the configuration namespace `newsletter`, a string map in which a missing key is PHP's `null`.
- `Endpoint` (src/API/NewsletterEndpoint.php): the class `NewsletterEndpoint` over a manager.
  - Filters, paging and the state bucket of the contact list;
  - the analysis and the batched import of pasted addresses;
  - switching a contact's authorization, and reading and saving the settings;
  - the CSV export.

The store invariant `Manager.StoreInvariant` says that identifiers increase, e-mail and hash are
unique, every identifier is below `nextId`, and every record is well formed. Well formed means:

- a valid lower-case address of at most 128 characters;
- a 16-character hash;
- a source of at most 32 characters;
- a cancel date exactly when canceled;
- an authorization date whenever authorized.

Every state-changing method keeps the invariant. A flush that would break a unique column fails
as a whole and leaves the table unchanged.

These collaborators are parameters, not reimplementations:

- `Validators::isEmail`, `filter_var`'s IPv4 test and the address regex of `getEmailAddresses`;
- `strtotime` parseability (`parsesTime`) and `DateTime::modify` (`shiftTime`);
- the clock (`now`), `Helpers::userIp()` (`clientIp`) and `Random::generate(16)` (`token`/`tokens`);
- the outcome of mail delivery (`mailSent`) and `DateTime::format('Y-m-d')` (`format`);
- the order in which the database returns rows for an `ORDER BY` (`ordered`).

Behaviour of the code worth knowing:

- An invalid address aborts `postImport`: the constructor's exception is not caught. It is not skipped.
- Contacts that have already been persisted but not flushed are then lost.
- `postImport` checks for an existing address with the address as written, not lower-cased. If that address is stored in lower case, the insert breaks the unique column and the whole import fails. `Endpoint.CaseVariantOfStoredAddressIsQueued` shows this.
- The import flushes after every 101st new contact, not every 100th, because the counter check is `($counter++) >= 100`.
- `bulkRegister` catches every exception, but a refused flush closes Doctrine's EntityManager, so every later address of the same call is skipped, valid or not. `Manager.BulkStoredHeadDropsRest` shows this.
- The CSV columns come in the order e-mail, authorized date, inserted date, source, active.
- In the CSV, "active" is "has an authorization date and is not canceled", not the confirmation flag.
- A missing authorization date is rendered as the export time, because `DateTime::from(null)` is "now".

## Model

| member | source | states |
|---|---|---|
| Builtins.StrToLower | src/Entity/Newsletter.php:63 | the result has the same length and is lower case; upper-case ASCII letters move down by 32, every other character is kept; lower-case input is returned unchanged |
| Builtins.Trim | src/NewsletterManager.php:311 | the result is the input with a run of stripped characters removed from each end, no longer than the input, and neither starts nor ends with a stripped character |
| Builtins.TrimIsInfix | src/NewsletterManager.php:311 | trim() returns a contiguous part of its input |
| Builtins.TrimLeftIsSuffix | src/Helpers.php:98 | stripping from the left keeps a suffix of the input |
| Builtins.TrimRightIsPrefix | src/Helpers.php:29 | rtrim() keeps a prefix of the input |
| Builtins.TrimOfTrimmed | src/NewsletterManager.php:311 | a string that neither starts nor ends with a stripped character is its own trim |
| Builtins.TrimEmptyIff | src/Helpers.php:80 | trim() gives the empty string exactly when every character is stripped |
| Builtins.Truncate | src/Entity/Newsletter.php:74 | mb_substr(s, 0, n) is the prefix of length min(|s|, n) |
| Builtins.RemoveAllWithoutOccurrence | src/Helpers.php:28-32 | str_replace(p, '', s) leaves s unchanged when p does not occur in it |
| Builtins.RemoveAllLeading | src/Helpers.php:28-32 | a leading occurrence of p is removed and the rest is processed the same way |
| Builtins.ArrayUnique | src/API/NewsletterEndpoint.php:172 | array_unique keeps exactly the elements of its input, each once, and is never longer |
| Builtins.ArrayUniqueKeepsFirstSeenOrder | src/Helpers.php:97 | array_unique lists the kept elements in the order of their first occurrence in the input |
| Builtins.ArrayUniqueOfDistinct | src/API/NewsletterEndpoint.php:136 | array_unique of a list without duplicates is the list itself |
| Entity.NormalizeEmail | src/Entity/Newsletter.php:61-71 | the address is accepted exactly when its lower-cased form passes the validator and has at most 128 characters; the result is the lower-cased address; a rejection names the lower-cased address and says which check failed |
| Entity.TruncateSource | src/Entity/Newsletter.php:74 | the source is null exactly when the argument is null, and otherwise is its first at most 32 characters |
| Entity.Initial | src/Entity/Newsletter.php:71-75 | the columns a new contact starts with: the normalized address, the request IP, the drawn hash, the source cut to 32 characters and the insertion time; unauthorized, not canceled, no message and no other date |
| Entity.InitialIsWellFormed | src/Entity/Newsletter.php:30-76 | a freshly constructed record is well formed and chronological, unauthorized, not canceled and inactive |
| Entity.TransitionsPreserveWellFormed | src/Entity/Newsletter.php:79-114 | authorize, unAuthorize and cancel keep a record well formed, and also chronological when the clock has not gone back before the insertion |
| Entity.ActivityAfterTransitions | src/Entity/Newsletter.php:79-114 | isActive() holds after authorize() and fails after cancel(); cancel() keeps the confirmation flag; authorize() reactivates a canceled contact; unAuthorize() deactivates |
| Entity.AuthorizeTwice | src/Entity/Newsletter.php:79-88 | a second authorize() only refreshes the date; the IP captured by the first call stays |
| Entity.AuthorizedFrom | src/Entity/Newsletter.php:79-88 | what authorize() leaves: the flag, the date `now`, no cancellation and no cancel date, the request IP when none was recorded, and every other column kept |
| Entity.CanceledFrom | src/Entity/Newsletter.php:109-114 | what cancel() leaves: canceled with the message and the date `now`, every other column kept |
| Entity.Newsletter.constructor | src/Entity/Newsletter.php:71-75 | the fresh entity stores the address, the request IP, the token, the truncated source and the insertion time; it is unauthorized and not canceled; it has no message and no other dates |
| Entity.Newsletter.FromRecord | src/Entity/Newsletter.php:30-58 | an entity loaded from a stored row has exactly that row's columns |
| Entity.Newsletter.Create | src/Entity/Newsletter.php:61-76 | construction succeeds exactly when NormalizeEmail accepts the address, and otherwise fails with NormalizeEmail's error; a new entity is fresh, holds the initial columns for the lower-cased address and is well formed |
| Entity.Newsletter.Authorize | src/Entity/Newsletter.php:79-88 | sets the flag and the date, clears the cancellation and its date, and takes the IP only when none is recorded; e-mail, hash, source, insertion date and message are unchanged |
| Entity.Newsletter.UnAuthorize | src/Entity/Newsletter.php:91-94 | clears the flag and changes nothing else |
| Entity.Newsletter.Cancel | src/Entity/Newsletter.php:109-114 | sets the cancellation, its message and its date; the confirmation flag, its date and every other column are unchanged |
| Entity.Newsletter.SetIp | src/Entity/Newsletter.php:135-138 | only the IP changes, to the given value |
| Entity.Newsletter.SetSource | src/Entity/Newsletter.php:147-150 | only the source changes, to the given value untruncated |
| Entity.Newsletter.SetCancelMessage | src/Entity/Newsletter.php:159-162 | only the cancel message changes |
| Entity.Newsletter.SetCancelDate | src/Entity/Newsletter.php:171-174 | only the cancel date changes |
| Helpers.TrimQuotes | src/Helpers.php:98 | the result neither starts nor ends with a quote |
| Helpers.ValidCandidates | src/Helpers.php:96-103 | the loop keeps no more entries than it reads; every kept entry passes the validator and is unquoted |
| Helpers.CandidateOrigins | src/Helpers.php:96-103 | each kept entry is the quote-trimmed form of a distinct match, and the entries come in the order of those matches |
| Helpers.ExtractEmails | src/Helpers.php:78-107 | getEmailAddresses as a value: [] for blank text, otherwise the distinct raw matches, quote-trimmed, that the validator accepts, in first-seen order; GetEmailAddresses and ExtractedFollowFirstSeenOrder state its properties |
| Helpers.GetEmailAddresses | src/Helpers.php:78-107 | empty or whitespace-only text gives []; the result is no longer than the raw match list; every entry passes the validator and is unquoted |
| Helpers.ExtractedFollowFirstSeenOrder | src/Helpers.php:95-103 | the addresses come in the order of the first occurrence of their raw matches |
| Helpers.DuplicateAfterQuoteTrim | src/Helpers.php:97-98 | de-duplication runs before quote trimming, so `a@b.cz` and `'a@b.cz'` both come out as `a@b.cz` |
| Helpers.CandidateIp | src/Helpers.php:43-56 | the raw address: the Cloudflare header, else REMOTE_ADDR, where the loopback address gives way to X-Real-IP and then X-Forwarded-For; the loopback address when REMOTE_ADDR is absent; UserIpPriority states its order |
| Helpers.ResolveIp | src/Helpers.php:42-63 | the address the first userIp() call computes: the raw address after NormalizeIp |
| Helpers.NormalizeIp | src/Helpers.php:57-63 | the result is the loopback address or passes the IPv4 test; local aliases and non-IPv4 values become the loopback address; anything else is kept |
| Helpers.UserIpPriority | src/Helpers.php:43-63 | the Cloudflare header wins, then REMOTE_ADDR; a loopback REMOTE_ADDR gives way to X-Real-IP, then X-Forwarded-For; with neither header the result is the loopback address; the result is always the loopback address or IPv4 |
| Helpers.UserIpMemo.UserIp | src/Helpers.php:38-67 | the first call computes and stores the address; later calls return the stored one whatever the server variables are |
| Helpers.ProcessPath | src/Helpers.php:25-35 | the path has no leading or trailing slash and is no longer than the current URL |
| Helpers.ProcessPathBelowBase | src/Helpers.php:25-35 | for a URL `base + "/" + path`, where base does not occur in the rest, the result is path |
| Manager.Hits | src/NewsletterManager.php:107-114 | the positions selected are exactly those of the matching rows, in increasing order |
| Manager.Lookup | src/NewsletterManager.php:105-115 | getSingleResult() returns the one matching row; it fails with NoResult exactly when nothing matches, and with NonUniqueResult exactly when two rows match |
| Manager.KeyLookupsAreUnambiguous | src/NewsletterManager.php:197-205 | with unique e-mails, hashes and identifiers, no lookup is ever NonUniqueResult |
| Manager.InsertKeepsInvariant | src/NewsletterManager.php:90-93 | appending a well-formed record that breaks no unique column, under the next identifier, keeps the store invariant |
| Manager.UpdateKeepsInvariant | src/NewsletterManager.php:172-176 | replacing a row's columns, keeping its e-mail and hash, keeps the store invariant |
| Manager.LookupAfterUpdate | src/NewsletterManager.php:213-215 | a change that keeps whether a row matches leaves every lookup's answer unchanged |
| Manager.WithoutId | src/NewsletterManager.php:188-190 | deleting an identifier keeps only rows that were stored and have another identifier |
| Manager.WithoutIdKeepsOrder | src/NewsletterManager.php:188-190 | deletion keeps identifiers increasing |
| Manager.WithoutPresentId | src/NewsletterManager.php:186-191 | deleting a stored identifier removes exactly its row and keeps the others in order |
| Manager.WithoutAbsentId | src/NewsletterManager.php:186-191 | deleting an identifier no row has changes nothing |
| Manager.WithoutIdKeepsOthers | src/NewsletterManager.php:186-191 | every row with another identifier survives a deletion |
| Manager.DeleteKeepsInvariant | src/NewsletterManager.php:189-190 | deletion keeps the store invariant |
| Manager.DeleteStoredEmail | src/NewsletterManager.php:259-266 | deleting the row with an address leaves the address unstored and one row fewer; every row with another address survives, and the invariant holds |
| Manager.ShouldRemove | src/NewsletterManager.php:340-341 | the WHERE clause of autoRemove: authorized with an authorization date no later than the authorized cut-off, or unauthorized and inserted no later than the unauthorized cut-off; a missing authorization date never matches |
| Manager.Sweep | src/NewsletterManager.php:338-352 | the rows kept by autoRemove were stored, and stay in identifier order |
| Manager.SweepBounds | src/NewsletterManager.php:338-352 | autoRemove deletes exactly min(1000, matching) rows; every row not matching the deletion condition survives in order; with at most 1000 matching rows none is left |
| Manager.SweepKeepsInvariant | src/NewsletterManager.php:348-352 | autoRemove keeps the store invariant |
| Manager.WithDefault | src/NewsletterManager.php:269-288 | the getter keeps a stored value and otherwise writes the default; no other key changes |
| Manager.ActiveFlagAfterSave | src/NewsletterManager.php:291-306 | setAutoRemoveActive(b) followed by isAutoRemoveActive() answers b |
| Manager.ValidatedDuration | src/NewsletterManager.php:309-319 | a duration is accepted exactly when `now + ` followed by its trim parses; the saved value is exactly that trim: the input without surrounding whitespace; the error carries the trimmed value |
| Manager.ValidatedDurationIsStable | src/NewsletterManager.php:309-332 | saving a value read back from the configuration stores the same value again |
| Manager.InsertAll | src/API/NewsletterEndpoint.php:192 | one flush of several new entities in one transaction: each is inserted in turn under the next identifier, and the whole flush is refused when any would break a unique column; InsertAllAppends, InsertAllFits and InsertAllAppend state its properties |
| Manager.InsertAllAppends | src/API/NewsletterEndpoint.php:192 | a successful flush appends the new records, in order, under consecutive identifiers, and keeps the existing rows |
| Manager.InsertAllFits | src/API/NewsletterEndpoint.php:192 | in a successful flush, each record breaks no unique column of the rows before it |
| Manager.InsertAllAppend | src/API/NewsletterEndpoint.php:187-199 | flushing a + b is flushing a and then b, and fails when either part fails |
| Manager.InsertAllKeepsInvariant | src/API/NewsletterEndpoint.php:192 | a successful flush of well-formed records keeps the store invariant |
| Manager.BulkRowsAppends | src/NewsletterManager.php:143-155 | bulkRegister only appends; each new row has the next identifier and holds the authorized contact of one input address, with that address's token |
| Manager.BulkRowsStoresValid | src/NewsletterManager.php:143-155 | after bulkRegister with fresh, distinct tokens, every valid input address reached while the EntityManager is still open is stored lower-cased, whether it is new or was already present |
| Manager.BulkClosedStays | src/NewsletterManager.php:145-153 | once a refused flush has closed the EntityManager, the remaining addresses change nothing |
| Manager.BulkStoredHeadDropsRest | src/NewsletterManager.php:145-153 | a valid, already stored address at the head of the list closes the EntityManager, and nothing of the list is stored |
| Manager.AuthorizeByHash | src/NewsletterManager.php:161-180 | a failed lookup is passed on; a found unauthorized contact gets the flag, the date `now`, no cancellation, the request IP when none was recorded, and keeps every other column; an authorized one is left exactly as it is; no other row changes |
| Manager.AuthorizeByHashIdempotent | src/NewsletterManager.php:161-180 | confirming a second time changes nothing |
| Manager.CancelWithId | src/NewsletterManager.php:211-216 | fails exactly when the identifier lookup fails; otherwise that contact is canceled with the message and the date `now` and becomes inactive, and keeps every other column; no other row changes |
| Manager.Sources | src/NewsletterManager.php:67-71 | the source column of every row, in table order |
| Manager.SourceEntry | src/NewsletterManager.php:74-76 | a falsy source is filed under `--null--` with the label `(unknown)`; any other source is its own key and label |
| Manager.MarkKnown | src/NewsletterManager.php:234-244 | the map has exactly the given addresses as keys; each is true exactly when that address is stored |
| Manager.NewsletterManager.constructor | src/NewsletterManager.php:34-42 | a fresh installation: an empty table and an empty configuration that satisfy the invariant |
| Manager.NewsletterManager.GetNewsletterByEmail | src/NewsletterManager.php:105-115 | the found row holds exactly the given address; NoResult exactly when no row holds it |
| Manager.NewsletterManager.GetNewsletterById | src/NewsletterManager.php:197-205 | the found row has the given identifier; NoResult exactly when no row has it |
| Manager.NewsletterManager.SetAutoRemoveActive | src/NewsletterManager.php:303-306 | stores `true` or `false` under the active key |
| Manager.NewsletterManager.IsAutoRemoveActive | src/NewsletterManager.php:291-300 | writes `true` when the key is missing, and answers whether the stored value is exactly `true` |
| Manager.NewsletterManager.SetAutoRemoveAuthorized | src/NewsletterManager.php:309-319 | saves the trimmed duration when it parses; otherwise fails with InvalidDuration and leaves the configuration unchanged |
| Manager.NewsletterManager.SetAutoRemoveUnAuthorized | src/NewsletterManager.php:322-332 | the same for the unauthorized retention |
| Manager.NewsletterManager.GetAutoRemoveAuthorized | src/NewsletterManager.php:269-277 | returns the stored retention, writing `99 years` first when none is stored |
| Manager.NewsletterManager.GetAutoRemoveUnAuthorized | src/NewsletterManager.php:280-288 | returns the stored retention, writing `14 days` first when none is stored |
| Manager.NewsletterManager.AutoRemove | src/NewsletterManager.php:335-353 | the table becomes Sweep of the old table, with cut-offs `now - retention` taken from the configuration after its defaults are written; identifiers are unchanged and the invariant holds |
| Manager.NewsletterManager.SweepRows | src/NewsletterManager.php:348-350 | the deletion loop of autoRemove computes Sweep |
| Manager.NewsletterManager.Flush | src/NewsletterManager.php:93 | a flush inserts the pending records in order and reports success; when a unique column would break, it reports failure and nothing changes |
| Manager.NewsletterManager.Register | src/NewsletterManager.php:85-99 | an address stored as written adds nothing; an invalid address and a unique-column clash throw and change nothing; otherwise exactly one unauthorized record for the lower-cased address is added; a mail failure throws after that insert; on success autoRemove runs exactly when the active flag says so |
| Manager.NewsletterManager.Housekeeping | src/NewsletterManager.php:96-98 | the tail of register(): isAutoRemoveActive() writes its default, and autoRemove() runs exactly when the flag is `true`; the Register row states it |
| Manager.NewsletterManager.BulkRegister | src/NewsletterManager.php:143-155 | the table becomes BulkRows: each address in turn is constructed, authorized and flushed; an invalid address is skipped; after the first refused flush every address is skipped; the configuration is unchanged |
| Manager.NewsletterManager.RegisterAuthorized | src/NewsletterManager.php:146-153 | one address of bulkRegister: skipped when the EntityManager is closed or the address invalid; otherwise admitted as an authorized contact, or refused, which closes the EntityManager |
| Manager.NewsletterManager.AuthByHash | src/NewsletterManager.php:161-180 | the table becomes AuthorizeByHash of the old table, or the lookup error is raised and nothing changes |
| Manager.NewsletterManager.UnregisterById | src/NewsletterManager.php:186-191 | exactly the row with that identifier is removed, or the lookup error is raised and nothing changes |
| Manager.NewsletterManager.UnregisterByEmail | src/NewsletterManager.php:259-266 | never fails; afterwards the address is not stored; a stored address costs exactly one row; an absent one changes nothing; rows with other addresses survive |
| Manager.NewsletterManager.CancelById | src/NewsletterManager.php:211-216 | the table becomes CancelWithId of the old table, or the lookup error is raised and nothing changes |
| Manager.NewsletterManager.GetSourceTypes | src/NewsletterManager.php:64-79 | the keys are exactly the source keys of the stored rows, and each value is the label of a row with that key |
| Manager.NewsletterManager.LoadContacts | src/NewsletterManager.php:222-248 | with no cached array the result is empty; otherwise the keys are the cached addresses, each true exactly when stored |
| Endpoint.Passes | src/API/NewsletterEndpoint.php:43-61 | the WHERE clause of the list: the address contains the filter text; `--null--` asks for a missing source, another source for exactly it; `canceled`, `authorized` and `disabled` test the cancellation or the flag; another state adds nothing |
| Endpoint.Selected | src/API/NewsletterEndpoint.php:43-61 | the filtered query returns only stored rows that pass every filter |
| Endpoint.SelectedComplete | src/API/NewsletterEndpoint.php:43-61 | every stored row that passes the filters is returned |
| Endpoint.SelectedMultiplicity | src/API/NewsletterEndpoint.php:43-61 | a passing row appears as often as it is stored; a failing row never appears |
| Endpoint.CountIgnoresOrder | src/API/NewsletterEndpoint.php:63-67 | the count does not depend on the order the database reads the rows in |
| Endpoint.SelectedKeepsOrder | src/API/NewsletterEndpoint.php:74 | filtering keeps the order of the rows |
| Endpoint.Window | src/API/NewsletterEndpoint.php:72-73 | a page holds at most `limit` consecutive rows from the offset, exactly `limit` when enough rows follow, and none past the end |
| Endpoint.WindowAppend | src/API/NewsletterEndpoint.php:72-73 | one more row in the selection joins the page exactly when its position falls inside the window |
| Endpoint.PagesCoverSelection | src/API/NewsletterEndpoint.php:72-73 | row k of the selection is on page k / limit + 1, at position k mod limit |
| Endpoint.State | src/API/NewsletterEndpoint.php:84-93 | the `authorized` cell of an item: `canceled` when canceled, else `authorized` or `disabled` by the confirmation flag; ItemStateAgreesWithActivity states its meaning |
| Endpoint.ItemStateAgreesWithActivity | src/API/NewsletterEndpoint.php:84-94 | an item's isActive equals the entity's isActive() and holds exactly when its state is `authorized`; the state is `canceled` exactly when the contact is canceled |
| Endpoint.CanceledContactUnderAuthorizedFilter | src/API/NewsletterEndpoint.php:55-61 | a canceled, confirmed contact passes the `authorized` filter yet is listed as `canceled` |
| Endpoint.UnknownSourceFilterMissesFalsySources | src/API/NewsletterEndpoint.php:47-53 | a source `''` or `'0'` is offered as `--null--` but not found by that filter, which asks for SQL NULL |
| Endpoint.ListingOrder | src/API/NewsletterEndpoint.php:74 | an order the database may return for ORDER BY authorizedDate DESC: a permutation of the table, newest authorization date first, rows without an authorization date last, ties in any order |
| Endpoint.PageRowsAreStored | src/API/NewsletterEndpoint.php:69-76 | a page holds stored rows that pass the filters, the most recently confirmed first and the never confirmed last |
| Endpoint.StoredEmails | src/API/NewsletterEndpoint.php:182-185 | the `$used` set holds exactly the stored addresses |
| Endpoint.ImportQueue | src/API/NewsletterEndpoint.php:188-190 | the addresses persisted among the first n, each with its token, never more than n; ImportQueueMembers and ImportQueueOrigins state its contents |
| Endpoint.ImportQueueMembers | src/API/NewsletterEndpoint.php:188-190 | every distinct input address not stored as written is queued with its token; a stored one never is |
| Endpoint.ImportQueueOrigins | src/API/NewsletterEndpoint.php:188-190 | everything queued is an unstored input address with its own token |
| Endpoint.ImportQueuePrefix | src/API/NewsletterEndpoint.php:188-190 | the queue only grows as the loop proceeds |
| Endpoint.Constructed | src/API/NewsletterEndpoint.php:190 | the entities constructed for the queue up to the first refused address, never more than the queue, all of it when nothing is refused; ConstructedContents states its contents |
| Endpoint.ConstructedContents | src/API/NewsletterEndpoint.php:190 | the entities built are the initial records of the queued addresses, in queue order; a refusal names the first address the constructor rejects |
| Endpoint.ConstructedPrefix | src/API/NewsletterEndpoint.php:190 | construction over a prefix of the queue builds a prefix of the entities, and an early refusal is final |
| Endpoint.ConstructionRefused | src/API/NewsletterEndpoint.php:190 | the first invalid queued address decides the error of the whole import |
| Endpoint.FlushRefused | src/API/NewsletterEndpoint.php:192 | a flush refused on a prefix of the entities is refused on all of them |
| Endpoint.InsertAllPrefixRefused | src/API/NewsletterEndpoint.php:192 | a flush refused for some entities is refused for any longer run of them |
| Endpoint.ImportResumes | src/API/NewsletterEndpoint.php:187-199 | once the batches before entity m are stored, the outcome of the import is that of going on from m |
| Endpoint.ImportFromMeetsResult | src/API/NewsletterEndpoint.php:187-199 | from every batch boundary, the outcome satisfies ImportResult |
| Endpoint.ImportOutcomeMeetsResult | src/API/NewsletterEndpoint.php:170-201 | for every queue and refusal, the outcome satisfies ImportResult: it passes exactly when nothing was refused and every entity fits, and then all are stored in order after the existing rows; a refused address fails with its error, keeping the full batches of 101 before it whenever they fit; a broken unique column fails at the first batch that does not fit, keeping the batches before it |
| Endpoint.ImportEndsRefused | src/API/NewsletterEndpoint.php:190 | an address refused after some full batches were stored ends the import with its error, those batches stored and the pending entities lost |
| Endpoint.ImportBatchRefused | src/API/NewsletterEndpoint.php:191-192 | a full batch whose flush breaks a unique column ends the import with ConstraintViolation and the batches before it stored |
| Endpoint.ImportFinalFlush | src/API/NewsletterEndpoint.php:199 | once every address is constructed, the import passes with all entities stored when the final flush fits, and otherwise fails with the batches before it stored |
| Endpoint.CounterCountsBatchesOf101 | src/API/NewsletterEndpoint.php:187-195 | the counter after n persists is n mod 101, and a flush follows exactly every 101st persist |
| Endpoint.CaseVariantOfStoredAddressIsQueued | src/API/NewsletterEndpoint.php:182-192 | an address that differs from a stored one only in case is queued, built as the stored address, and its flush is refused |
| Endpoint.SetAuthorization | src/API/NewsletterEndpoint.php:219-228 | fails exactly when the identifier lookup fails; confirming gives the contact the flag, the date `now`, no cancellation, the request IP when none was recorded, and keeps every other column; un-authorizing changes only the flag; every other row is kept |
| Endpoint.OffThenOn | src/API/NewsletterEndpoint.php:219-228 | switching a contact off and on again is a single authorize() of the original contact |
| Endpoint.Split | src/API/NewsletterEndpoint.php:327-337 | splitting gives at least one part, and no part holds the separator |
| Endpoint.SplitJoin | src/API/NewsletterEndpoint.php:327-337 | joining parts that do not hold the separator reads back by splitting |
| Endpoint.HeaderReadsBack | src/API/NewsletterEndpoint.php:326 | the header holds no line break and reads back as the five column titles E-mail, Authorized Date, Inserted Date, Source, Active |
| Endpoint.CsvLine | src/API/NewsletterEndpoint.php:330-334 | a CSV line: each field in double quotes, joined by semicolons, nothing escaped; CsvLineRoundTrip and NoBreakInLine state its properties |
| Endpoint.CsvLineRoundTrip | src/API/NewsletterEndpoint.php:330-334 | a quoted, semicolon-joined line reads back as its fields when none holds a semicolon |
| Endpoint.CsvFields | src/API/NewsletterEndpoint.php:301-310 | the five cells: the address, the authorization date (the export time when missing), the insertion date, the source or '' when null, then `y` exactly when there is an authorization date and no cancellation, otherwise `n` |
| Endpoint.ExportOrder | src/API/NewsletterEndpoint.php:297 | an order the database may return for ORDER BY insertedDate DESC: a permutation of the table, newest first, ties in any order |
| Endpoint.CsvLines | src/API/NewsletterEndpoint.php:327-336 | one line per contact, in export order, each the quoted cells |
| Endpoint.CsvDocumentRoundTrip | src/API/NewsletterEndpoint.php:326-337 | when no cell holds a line break or semicolon, the document splits into the header and one line per contact, and each reads back as its cells |
| Endpoint.EmptyCsvDocument | src/API/NewsletterEndpoint.php:326-337 | the export of an empty table is the header line followed by one empty line |
| Endpoint.NoBreakInLine | src/API/NewsletterEndpoint.php:330-334 | a character that is neither quote nor semicolon, and is in no field, is not in the line |
| Endpoint.NewsletterEndpoint.ActionDefault | src/API/NewsletterEndpoint.php:34-98 | a negative offset or limit is an error; otherwise the count is the number of stored rows passing the filters, whatever their order; the items are the window of the filtered list at offset (page - 1) * limit, at most `limit` of them, each with its bucket and isActive |
| Endpoint.NewsletterEndpoint.PostAnalyseEmails | src/API/NewsletterEndpoint.php:134-162 | one entry per distinct extracted address, in order, paired with whether a row holds exactly that address; the table is not modified |
| Endpoint.NewsletterEndpoint.PostImport | src/API/NewsletterEndpoint.php:170-201 | the outcome, table and next identifier are ImportOutcome of the queue built from the distinct given addresses; the configuration is unchanged and the invariant holds |
| Endpoint.NewsletterEndpoint.Persist | src/API/NewsletterEndpoint.php:190-195 | one persist: before the 101st pending entity it only joins the pending batch; the 101st flushes the batch, which is then committed, or is refused and changes nothing |
| Endpoint.NewsletterEndpoint.FlushPending | src/API/NewsletterEndpoint.php:199 | the final flush commits the pending entities, or is refused and changes nothing |
| Endpoint.NewsletterEndpoint.ActionAuthorize | src/API/NewsletterEndpoint.php:219-236 | the table becomes SetAuthorization of the old table, or the lookup error is raised and nothing changes |
| Endpoint.NewsletterEndpoint.ActionSettings | src/API/NewsletterEndpoint.php:261-270 | returns both retentions and the active flag, writing each default the getters write; the table is unchanged |
| Endpoint.NewsletterEndpoint.PostSaveSettings | src/API/NewsletterEndpoint.php:273-286 | saves in the source's order: an invalid authorized retention stops at once; an invalid unauthorized retention stops after the first save; otherwise all three keys are written |
| Endpoint.NewsletterEndpoint.ActionCsvExport | src/API/NewsletterEndpoint.php:292-337 | the output is the CSV document of the table in export order (insertion date, newest first) |

## Left out

- getList (src/NewsletterManager.php:48-58) is not called by the modelled code and is not part of this model.
- sendMail: building the confirmation link and calling the emailer are I/O. Register receives whether delivery succeeded as `mailSent`. A failed delivery raises MailFailed after the record was flushed, and autoRemove then does not run.
- actionSendMail is this I/O followed by getNewsletterById, which is modelled.
- loadContactsExpireTime and cache expiry depend on the Nette cache. LoadContacts receives the cached array as a parameter.
- SQL `LIKE` wildcards and collation: the address filter is a plain substring test, and equality is exact character equality.
- The JSON responses, `formatBootstrapSelectArray` and the Paginator object are presentation. ActionDefault returns the items and the count.
- The HTTP headers, the CSV file name and `die` are left out: they are response plumbing.
- clear() of the EntityManager after a batch only detaches entities, so it is not modelled.
- Manager.NewsletterManager.BulkRegister: a refused flush closes Doctrine's EntityManager; the model skips the rest of the same call, but the manager is not marked closed afterwards, so later operations on it in the same request are not modelled as failing. The same holds after a refused flush in Register and PostImport, which end the request with an exception.
- postAddEmail, actionDelete and actionCancel only call the manager. They are its Register, UnregisterById and CancelById. The mapping of exceptions to error responses is not modelled.
- Identifiers are natural numbers. The source passes them as strings.
- Random::generate, Helpers::userIp() and the clock are parameters: the tokens, the client IP and `now`. Only userIp's own logic is modelled, in Helpers.
- PHP array-key conversion and map order in getSourceTypes and postAnalyseEmails are not modelled. GetSourceTypes returns a map, and PostAnalyseEmails returns the pairs in order.
- Manager.Sweep: the query has no ORDER BY, so which 1000 rows autoRemove picks is the database's choice. The model takes them in table order.
- Endpoint.NewsletterEndpoint.ActionDefault: the `COUNT` query always yields one scalar, so its catch branch, which sets the count to 0, is not modelled.
- DateTime arithmetic and formatting are the parameters `shiftTime` and `format`; the address regex and the validators are function parameters.
- Getters of the entity are covered by `Entity.Newsletter.View`, which returns every column.
- Concurrency and races on the unique columns are not modelled: the code does no in-process coordination.
