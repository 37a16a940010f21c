# Licence decision engine: a Dafny model

This project models the core of a Laravel application that hands out software
licences.

## What the application does

A client program sends its device fingerprint (BIOS UUID, motherboard serial and
CPU id) together with its software name and versions. The server answers
`approved`, `expired`, `rejected` or `pending`.

### The data it keeps

Three tables hold the state:

- **Authorizations**: one record per device, as pending, approved or rejected.
- **Authorization codes**: administrator-issued secret tokens. Each has an
  on/off switch and an optional, inclusive validity window.
- **The audit log**: `check`, `update` and `code_change` rows.

### Endpoints and operations

- **Public `authorize`**:
  - It tries an exact match on all three fingerprint fields first.
  - It then tries a partial match, meaning the first approved record that
    shares any one field.
  - If neither matches, it files a new pending record.
  - A partial match inside its window is *rebound*: the record takes the new
    fingerprint.
- **`authorizeWithCode`** sits behind a bearer-token gate. It creates approved
  records directly, linked to the presented code. It never consults a pending
  or rejected exact match.
- **Administrator actions**:
  - approve, reject, relink to another code, and delete authorizations;
  - create, edit and delete codes;
  - read an authorization's log, filtered and paginated.
- **`validate` probe**: it checks a code given in the request body and then
  creates an approved record that has *no* code link. The next check of that
  record therefore reports `expired`.
- **Software catalogue**: it has an on/off switch, and its public `show` hides
  disabled entries.

### Modelling conventions

- The database is the class `Database.Store`:
  - Its three tables are sequences in primary-key order, and each table keeps
    a next-key counter.
  - `Valid()` is the schema: increasing keys, the unique `code` index, and the
    two foreign keys.
  - The `first()` of every query is the first row in that order.
- Every controller action is a module-level method that takes the store
  (`db: Store`) and declares `modifies db`. The software-catalogue actions
  act on a `Software` object instead.
- A pure function states each decision the controller makes (`Decide`,
  `DecideWithCode`, `Handle`, `Query`). The method's postcondition ties the
  new tables, as a `Tables` value, to the old ones branch by branch.
- Multi-request consequences are lemmas over those functions, in module
  `DecisionProperties`. Examples:
  - A rebinding is followed by an exact match.
  - A bearer-created record can be shadowed by a pending record.
  - A validated record reads as expired.
- The clock is an integer parameter `now`. The random bytes of code
  generation are an input sequence.

## Model

| member | source | states |
|---|---|---|
| `Hex.Encode` | app/Models/AuthorizationCode.php:67 | `bin2hex`: two lower-case hex digits per byte, so the output is twice the input length |
| `Hex.DecodeEncode` | app/Models/AuthorizationCode.php:67 | decoding a `bin2hex` string gives back the random bytes |
| `Hex.EncodeInjective` | app/Models/AuthorizationCode.php:67 | different random byte strings give different codes |
| `AuthorizationCodes.IsValid` | app/Models/AuthorizationCode.php:34-51 | valid iff active, not before `start_time` when set, not after `end_time` when set |
| `AuthorizationCodes.InactiveNeverValid` | app/Models/AuthorizationCode.php:36-38 | a disabled code is invalid whatever its window |
| `AuthorizationCodes.UnboundedAlwaysValid` | app/Models/AuthorizationCode.php:42-50 | an active code with no window is valid at every instant |
| `AuthorizationCodes.WindowBoundsInclusive` | app/Models/AuthorizationCode.php:42-48 | valid at exactly `start_time` and `end_time`, invalid one tick outside |
| `AuthorizationCodes.WithUsage` | app/Models/AuthorizationCode.php:56-60 | `used_count` one higher, `last_used_at` now, every other field unchanged |
| `AuthorizationCodes.UsageKeepsValidity` | app/Models/AuthorizationCode.php:34-60 | recording a use never changes validity at any time |
| `AuthorizationCodes.GenerateCode` | app/Models/AuthorizationCode.php:65-68 | for a length of 2 or more, `2*(length/2)` hex digits (exactly `length` when even), decoding to the random bytes |
| `AuthorizationCodes.DefaultCodeShape` | app/Models/AuthorizationCode.php:65 | the default code is 32 hex digits |
| `AuthorizationCodes.CodeIndex` | app/Http/Controllers/SoftwareAuthorizationController.php:196 | `findOrFail`: the row with the key, or none exactly when no row has it |
| `AuthorizationCodes.CodeByValue` | app/Http/Middleware/ApiTokenMiddleware.php:28 | `where('code', …)->first()`: the first row holding the token, or none exactly when no row holds it |
| `AuthorizationCodes.CodeByValueAt` | database/migrations/2026_01_28_181919_create_authorization_codes_table.php:16 | with the unique index, a held token is found at its own row |
| `SoftwareAuthorizations.ExactlyOneStatus` | app/Models/SoftwareAuthorization.php:31-44 | each stored status satisfies exactly one of the three status predicates |
| `SoftwareAuthorizations.WithStatus` | app/Models/SoftwareAuthorization.php:46-59 | a scope selects exactly the records with that status |
| `SoftwareAuthorizations.WithStatusKeepsOrder` | app/Models/SoftwareAuthorization.php:46-59 | a scope keeps table order (it distributes over concatenation) |
| `SoftwareAuthorizations.ScopesPartition` | app/Models/SoftwareAuthorization.php:46-59 | the three scopes together hold every record once |
| `SoftwareAuthorizations.ExactImpliesMatches` | app/Models/SoftwareAuthorization.php:80-85 | an exact match is one of the partial matches |
| `SoftwareAuthorizations.IsWithinAuthorizationPeriod` | app/Models/SoftwareAuthorization.php:90-97 | always false without a linked code; true only for a code that exists |
| `SoftwareAuthorizations.PeriodIsLinkedValidity` | app/Models/SoftwareAuthorization.php:96 | with a linked code, the period is that code's `isValid` |
| `SoftwareAuthorizations.FirstExact` | app/Http/Controllers/SoftwareAuthorizationController.php:43-46 | the first record equal on all three fingerprint fields, none iff no record is |
| `SoftwareAuthorizations.FirstPartial` | app/Http/Controllers/SoftwareAuthorizationController.php:99-105 | the first approved record sharing any field, none iff no record does |
| `SoftwareAuthorizations.PartialIsFirstApprovedMatch` | app/Http/Controllers/SoftwareAuthorizationController.php:99-105 | the partial match is the first device match inside the approved scope |
| `AccessLogs.TypeKeywords` | app/Http/Controllers/SoftwareAuthorizationController.php:476-490 | `expired`, `normal`, `update` and `code_change` select as documented; absent, empty or unknown types select everything |
| `Common.FilterCounts` | app/Http/Controllers/SoftwareAuthorizationController.php:473-498 | a `where` clause keeps each satisfying row as often as it occurs and no other row |
| `AccessLogs.Selected` | app/Http/Controllers/SoftwareAuthorizationController.php:473-498 | a row is kept iff it belongs to the record, passes the type filter and lies within the inclusive date bounds; each kept row occurs as often as in the table |
| `AccessLogs.InsertKeepsOrder` | app/Http/Controllers/SoftwareAuthorizationController.php:473 | placing one row into a newest-first list keeps it newest first |
| `AccessLogs.SortNewestFirst` | app/Http/Controllers/SoftwareAuthorizationController.php:473 | `latest()`: a permutation of the selection, newest first |
| `AccessLogs.EffectivePerPage` | app/Http/Controllers/SoftwareAuthorizationController.php:467 | 10 when `per_page` is absent, 15 when it is 0, otherwise the requested size |
| `AccessLogs.EffectivePage` | app/Http/Controllers/SoftwareAuthorizationController.php:468 | the requested page when that is 1 or more; page 1 when it is absent or below 1 |
| `AccessLogs.LastPage` | app/Http/Controllers/SoftwareAuthorizationController.php:506 | 1 with no rows; otherwise the page count that covers every row while the page before it does not |
| `AccessLogs.PageOf` | app/Http/Controllers/SoftwareAuthorizationController.php:500 | page p is what pages 1 to p hold beyond pages 1 to p-1; at most `per_page` rows of the list, in its order |
| `AccessLogs.PageIsBlock` | app/Http/Controllers/SoftwareAuthorizationController.php:500 | page p holds rows (p-1)·n up to p·n of the list, the rest on the last page, nothing beyond |
| `AccessLogs.Query` | app/Http/Controllers/SoftwareAuthorizationController.php:465-514 | the items are the effective page of the newest-first selection; `total`, `per_page`, `current_page` and `last_page` are the paginator's values; the record's notes |
| `AccessLogs.PagesArePrefix` | app/Http/Controllers/SoftwareAuthorizationController.php:500 | pages 1 to k are the first k*per_page rows |
| `AccessLogs.PagesCoverSelection` | app/Http/Controllers/SoftwareAuthorizationController.php:500-508 | pages 1 to `last_page` together are exactly the ordered selection |
| `Database.AuthIndex` | app/Http/Controllers/SoftwareAuthorizationController.php:189 | route-model binding: the record with the key, none iff the key is absent |
| `Database.Unlinked` | database/migrations/2026_01_28_183431_add_authorization_code_id_to_software_authorizations_table.php:16 | `set null`: the links to the deleted code are cleared and nothing else changes |
| `Database.LogsWithout` | database/migrations/2026_01_27_145226_create_software_authorization_access_logs_table.php:16 | `cascade`: exactly the rows of other records remain |
| `Database.RemoveAuthConsistent` | database/migrations/2026_01_27_145226_create_software_authorization_access_logs_table.php:16 | deleting a record with its logs keeps every schema constraint |
| `Database.Store.RecordUsage` | app/Models/AuthorizationCode.php:56-60 | the one code row gets `WithUsage`; nothing else in the database changes |
| `Database.Store.AppendLog` | app/Http/Controllers/SoftwareAuthorizationController.php:55-59 | one log row appended under the next key |
| `Database.Store.ReplaceAuth` | app/Http/Controllers/SoftwareAuthorizationController.php:50 | one record row replaced, key kept |
| `Database.Store.AppendAuth` | app/Http/Controllers/SoftwareAuthorizationController.php:168-177 | one record appended under the next key |
| `Database.Store.RemoveAuth` | app/Http/Controllers/SoftwareAuthorizationController.php:255 | the record and exactly its logs removed |
| `Database.Store.AppendCode` | app/Http/Controllers/AuthorizationCodeController.php:49-55 | one code appended under the next key, tokens stay unique |
| `Database.Store.ReplaceCode` | app/Http/Controllers/AuthorizationCodeController.php:74-81 | one code row replaced, key kept, tokens stay unique |
| `Database.Store.RemoveCode` | app/Http/Controllers/AuthorizationCodeController.php:91 | the code removed and its links nulled |
| `SoftwareAuthorizationController.Decide` | app/Http/Controllers/SoftwareAuthorizationController.php:43-165 | the branch `authorize` takes: first exact match by its status, else first approved partial match by its window, else none; each case characterised both ways |
| `SoftwareAuthorizationController.DecideWithCode` | app/Http/Controllers/SoftwareAuthorizationController.php:329-435 | never a pending or rejected verdict; the exact branch only for an approved first exact match, otherwise partial, otherwise none |
| `SoftwareAuthorizationController.CheckExact` | app/Http/Controllers/SoftwareAuthorizationController.php:48-79 | `last_access_ip` set regardless of the window, one `check` row with `is_expired` = out of period, `approved` or `expired` |
| `SoftwareAuthorizationController.CheckPartialExpired` | app/Http/Controllers/SoftwareAuthorizationController.php:109-125 | only `last_access_ip` changes on the record, one expired `check` row, `expired` |
| `SoftwareAuthorizationController.Rebind` | app/Http/Controllers/SoftwareAuthorizationController.php:127-164 | fingerprint, software fields and `last_access_ip` overwritten; key, status and code link kept; one `update` row with the old and new fingerprint |
| `SoftwareAuthorizationController.Authorize` | app/Http/Controllers/SoftwareAuthorizationController.php:29-184 | 422 on bad input with nothing changed; otherwise per `Decide`: check, refuse or wait with no change, rebind, or one pending record with `request_ip` and HTTP 202 and no log |
| `SoftwareAuthorizationController.AuthorizeWithCode` | app/Http/Controllers/SoftwareAuthorizationController.php:305-460 | 422 or 401 with nothing changed; otherwise per `DecideWithCode`; creation makes an approved record linked to the code with its notes and records exactly one use; verdict never pending or rejected |
| `SoftwareAuthorizationController.LinkedSnapshot` | app/Http/Controllers/SoftwareAuthorizationController.php:203-206 | the `before` half is all null without a linked code, else the linked code's fields |
| `SoftwareAuthorizationController.Approve` | app/Http/Controllers/SoftwareAuthorizationController.php:189-235 | 404, then 422 for a missing code; any status becomes approved with `authorized_at` now, the code and notes; a `code_change` row iff the code id changes |
| `SoftwareAuthorizationController.Reject` | app/Http/Controllers/SoftwareAuthorizationController.php:240-248 | 404, else any status becomes rejected with the notes; no log row |
| `SoftwareAuthorizationController.Relink` | app/Http/Controllers/SoftwareAuthorizationController.php:263-300 | 404, then 422; only the code link changes, and a `code_change` row is always appended |
| `SoftwareAuthorizationController.Destroy` | app/Http/Controllers/SoftwareAuthorizationController.php:253-258 | 404, else the record and its logs are removed |
| `SoftwareAuthorizationController.AccessLogPage` | app/Http/Controllers/SoftwareAuthorizationController.php:465-514 | 404 iff the record is unknown; otherwise the query's page for that record, so only that record's rows |
| `DecisionProperties.ExactAgree` | app/Http/Controllers/SoftwareAuthorizationController.php:43-46 | the exact match depends only on the fingerprints |
| `DecisionProperties.PartialAgree` | app/Http/Controllers/SoftwareAuthorizationController.php:99-105 | the partial match depends only on fingerprints and statuses |
| `DecisionProperties.SameKeyFieldsSameDecision` | app/Http/Controllers/SoftwareAuthorizationController.php:43-165 | changing a record but not its fingerprint, status or code link changes no `authorize` decision |
| `DecisionProperties.SameKeyFieldsSameDecisionWithCode` | app/Http/Controllers/SoftwareAuthorizationController.php:329-435 | the same for `authorizeWithCode` |
| `DecisionProperties.RepeatCheckSameDecision` | app/Http/Controllers/SoftwareAuthorizationController.php:50 | after an access check, a repeated request gets the same decision |
| `DecisionProperties.RebindThenExact` | app/Http/Controllers/SoftwareAuthorizationController.php:142-150 | after a rebinding, the device is the rebound record's exact match, approved while its code is valid |
| `DecisionProperties.SubmittedThenPending` | app/Http/Controllers/SoftwareAuthorizationController.php:168-183 | after submission the device is pending on `authorize`, and unseen by `authorizeWithCode` |
| `DecisionProperties.ShadowedCodeRecord` | app/Http/Controllers/SoftwareAuthorizationController.php:334-450 | a record created behind a pending or rejected exact match leaves `authorize` unchanged and is reached only as a partial match |
| `DecisionProperties.ApproveThenAuthorized` | app/Http/Controllers/SoftwareAuthorizationController.php:217-222 | after approval, the device is granted iff the chosen code is valid |
| `DecisionProperties.RejectThenRefused` | app/Http/Controllers/SoftwareAuthorizationController.php:242-245 | after rejection, the device is refused |
| `DecisionProperties.CreatedWithCodeThenExact` | app/Http/Controllers/SoftwareAuthorizationController.php:438-453 | a record created with a code is the device's exact match, granted while that code is valid |
| `ApiTokenMiddleware.Refusal` | app/Http/Middleware/ApiTokenMiddleware.php:21-42 | 401 for a missing or unknown token, 403 for an invalid code |
| `ApiTokenMiddleware.Handle` | app/Http/Middleware/ApiTokenMiddleware.php:17-48 | missing, then unknown, then invalid, each iff its condition; a pass hands over the first code holding the token, which is valid |
| `ApiTokenMiddleware.PassIffValidCodeHeld` | app/Http/Middleware/ApiTokenMiddleware.php:28-47 | with unique tokens, passes iff a valid code holds the token, and hands over that code |
| `ApiTokenMiddleware.ZeroTokenNeverPasses` | app/Http/Middleware/ApiTokenMiddleware.php:21 | the token `"0"` counts as missing |
| `ApiTokenMiddleware.AuthorizeWithToken` | routes/web.php:45 | a refusal changes nothing; a pass runs `authorizeWithCode` with the attached code |
| `AuthorizationCodeController.Edited` | app/Http/Controllers/AuthorizationCodeController.php:74-81 | `code` and `is_active` fall back to the stored values; notes and window become null when absent; usage untouched |
| `AuthorizationCodeController.NewCodeValidity` | database/migrations/2026_01_28_181919_create_authorization_codes_table.php:20-21 | a new code is active with zero uses, so it is valid exactly inside its window |
| `AuthorizationCodeController.AcceptedWindowNonEmpty` | app/Http/Controllers/AuthorizationCodeController.php:43 | an accepted window with both bounds contains both bounds |
| `AuthorizationCodeController.StoreCode` | app/Http/Controllers/AuthorizationCodeController.php:36-58 | 422 iff the name is bad, the supplied token is taken or the window is reversed; a generated token is used when none is given; a taken generated token is a unique violation |
| `AuthorizationCodeController.UpdateCode` | app/Http/Controllers/AuthorizationCodeController.php:63-84 | 404, then 422 iff validation fails (the own token is allowed); otherwise the row becomes `Edited` |
| `AuthorizationCodeController.DestroyCode` | app/Http/Controllers/AuthorizationCodeController.php:89-93 | 404, else the code goes and every link to it is nulled |
| `AuthorizationCodeController.DestroyedCodeExpiresLinks` | app/Http/Controllers/AuthorizationCodeController.php:91 | every record linked to a deleted code is out of period at every time |
| `AuthorizationCodeController.Validate` | app/Http/Controllers/AuthorizationCodeController.php:98-169 | 422, 404, 403 with nothing changed; an approved exact match only records a use; otherwise one approved record with no code link and one use |
| `AuthorizationCodeController.ValidatedRecordReadsExpired` | app/Http/Controllers/AuthorizationCodeController.php:146-159 | the record `validate` creates for an unseen device later reads as `expired` on both authorize endpoints |
| `AuthorizationCodeController.BelowIrreflexive` | app/Http/Controllers/AuthorizationCodeController.php:24 | the token order is irreflexive |
| `AuthorizationCodeController.BelowTransitive` | app/Http/Controllers/AuthorizationCodeController.php:24 | the token order is transitive |
| `AuthorizationCodeController.BelowTotal` | app/Http/Controllers/AuthorizationCodeController.php:24 | any two different tokens are ordered |
| `AuthorizationCodeController.InsertValue` | app/Http/Controllers/AuthorizationCodeController.php:23-24 | inserting keeps the list ascending and adds exactly the value |
| `AuthorizationCodeController.CodeValues` | app/Http/Controllers/AuthorizationCodeController.php:20-25 | ascending, and holds exactly the tokens in the table |
| `AuthorizationCodeController.CodeValuesShape` | app/Http/Controllers/AuthorizationCodeController.php:20-25 | no repeats, and one entry per row when tokens are unique |
| `SoftwareController.Software.constructor` | app/Http/Controllers/SoftwareController.php:33 | the validated fields are stored, and the entry starts active |
| `SoftwareController.Software.ToggleStatus` | app/Http/Controllers/SoftwareController.php:70 | `is_active` flipped, nothing else written |
| `SoftwareController.Software.Update` | app/Http/Controllers/SoftwareController.php:51 | required fields written; optional ones only when sent |
| `SoftwareController.Software.Show` | app/Http/Controllers/SoftwareController.php:78-95 | disabled iff inactive; otherwise exactly name, version and download link |
| `SoftwareController.ShowStatus` | app/Http/Controllers/SoftwareController.php:80-94 | 404 iff disabled, 200 iff shown |
| `SoftwareController.StoreSoftware` | app/Http/Controllers/SoftwareController.php:24-36 | an entry iff the form validates, fresh and active, holding the form's name, version, download link and notes |
| `SoftwareController.UpdateSoftware` | app/Http/Controllers/SoftwareController.php:41-54 | a refused form changes nothing, an accepted one is `Update` |
| `SoftwareController.ToggleTwice` | app/Http/Controllers/SoftwareController.php:70 | two toggles restore `is_active` and the `show` answer |
| `SoftwareController.ToggleFlipsVisibility` | app/Http/Controllers/SoftwareController.php:70-85 | one toggle switches `show` between 404 and 200 |

## Left out

- Laravel's validation engine is reduced to the rules modelled here. The
  following are not modelled:
  - the `url` format check on `download_url`;
  - `date` parsing;
  - input trimming and empty-string-to-null conversion;
  - the 64-character column limit on `code`.
- StoreCode: when only `end_time` is given, the `after_or_equal:start_time`
  rule is treated as passing.
- The `code` index and the `where('code', …)` lookups use exact comparison. A
  case-insensitive MySQL collation is not modelled.
- CodeValues: PHP's `sort` (SORT_REGULAR) compares numeric-looking strings by
  their numeric value. The model uses plain character order throughout.
- Ordering rests on stated assumptions:
  - `first()` is taken as the first row in primary-key order; the queries
    have no `ORDER BY`.
  - `latest()` is taken to break ties on `created_at` by the later key.
- The `Y-m-d H:i:s` rendering of times in `code_change` payloads is not
  modelled. Times stay integers.
- The pagination's `per_page` input is modelled as a natural number. Negative
  or non-numeric values are not modelled.
- Response message strings and the redirect-with-flash answers are not
  modelled. Responses keep the HTTP status, the `success` flag and the
  `status` field.
- The clock and `random_bytes` are parameters.
- GenerateCode: lengths 0 and 1 are excluded by its precondition. There
  `random_bytes` is asked for no bytes and throws; the application always
  passes 32.
- The `created_at` and `updated_at` timestamps of authorizations, codes and
  software entries are not modelled. Only access-log rows keep `created_at`,
  which the log query filters and orders by.
- Concurrency is not modelled: racing requests and the atomicity of
  `increment`. Every request runs alone.
- The listing pages are not modelled: the `index` actions of the three
  controllers, apart from `code_values`. They only feed the UI.
- The software catalogue's own `destroy` is not modelled. It deletes a row
  that nothing else references, so no table of this model holds software rows.
- The React UI, routing, CSRF and the session layer are not modelled.
- `validate`'s `start_time` and `end_time` arguments are dropped, as they are
  in the source: they are not fillable, and the columns were removed.
